/** What becomes of the texts in a whole database update, for every pair of databases and every user. */
module BabylonConservation {
  import opened TextKeys
  import opened Selections
  import opened BabylonLabel
  import opened BabylonLabelLaws
  import opened BabylonDatabase
  import opened BabylonDatabaseLaws

  // ---------------------------------------------------------------------------------------
  // Conservation
  // ---------------------------------------------------------------------------------------

  function AllTexts(labels: seq<Label>, n: nat): seq<Text>
    requires n <= |labels|
  {
    if n == 0 then [] else AllTexts(labels, n - 1) + labels[n - 1].texts
  }

  function Hold(ts: seq<Text>): multiset<seq<Translation>> { multiset(Cargos(ts)) }

  lemma HoldSum(a: seq<Text>, b: seq<Text>)
    ensures Hold(a + b) == Hold(a) + Hold(b)
  {
    CargosOfSum(a, b);
  }

  lemma {:induction false} ReplaceBehind(labels: seq<Label>, j: nat, l: Label, n: nat)
    requires n <= j < |labels|
    ensures AllTexts(labels[j := l], n) == AllTexts(labels, n)
  {
    if n > 0 { ReplaceBehind(labels, j, l, n - 1); }
  }

  lemma AddBoth<T>(a: multiset<T>, a': multiset<T>, y: multiset<T>, z: multiset<T>, x: multiset<T>)
    requires a' + y == a + z
    ensures (a' + x) + y == (a + x) + z
  {
    forall e ensures ((a' + x) + y)[e] == ((a + x) + z)[e] {
      assert (a' + y)[e] == (a + z)[e];
    }
  }

  /** Putting label l at place j exchanges the texts of the old label for those of the new one. */
  lemma {:induction false} HoldReplace(labels: seq<Label>, j: nat, l: Label, n: nat)
    requires j < n <= |labels|
    ensures Hold(AllTexts(labels[j := l], n)) + Hold(labels[j].texts) == Hold(AllTexts(labels, n)) + Hold(l.texts)
    ensures |AllTexts(labels[j := l], n)| + |labels[j].texts| == |AllTexts(labels, n)| + |l.texts|
  {
    var now, was, ts := AllTexts(labels[j := l], n - 1), AllTexts(labels, n - 1), labels[n - 1].texts;
    HoldSum(was, ts);
    if j == n - 1 {
      ReplaceBehind(labels, j, l, n - 1);
      HoldSum(was, l.texts);
    } else {
      HoldReplace(labels, j, l, n - 1);
      HoldSum(now, ts);
      AddBoth(Hold(was), Hold(now), Hold(labels[j].texts), Hold(l.texts), Hold(ts));
    }
  }

  /** Exchanging d for d', and d for d' less what moved out plus what came in, keeps the books. */
  lemma Exchange<T>(now: multiset<T>, now': multiset<T>, d: multiset<T>, d': multiset<T>,
                    obs: multiset<T>, moved: multiset<T>, total: multiset<T>, added: multiset<T>)
    requires now' + d == now + d' && d' + moved == d + added && now + obs == total
    ensures now' + (obs + moved) == total + added
  {
    forall x ensures (now' + (obs + moved))[x] == (total + added)[x] {
      assert (now' + d)[x] == (now + d')[x] && (d' + moved)[x] == (d + added)[x] && (now + obs)[x] == total[x];
    }
  }

  lemma {:induction false} TextsOfPrefix(a: seq<Label>, l: Label, n: nat)
    requires n <= |a|
    ensures AllTexts(a + [l], n) == AllTexts(a, n)
  {
    if n > 0 { TextsOfPrefix(a, l, n - 1); }
  }

  /** The clones one source label adds. */
  function AddedAt(p: Progress, s: Label, rank: nat -> nat, run: Run): seq<Text>
    requires Shaped(p)
  {
    var j := Lookup(p.labels, s.name);
    if j >= 0 then Added(s, p.labels[j], rank, ModeFor(p, run), p.asked) else CloneLabel(s).texts
  }

  /** The clones the first n source labels add. */
  function AddedBy(src: seq<Label>, n: nat, dst: Db, ranks: seq<nat -> nat>, run: Run): seq<Text>
    requires n <= |src| == |ranks|
  {
    if n == 0 then []
    else
      var p := VisitAll(src, n - 1, dst, ranks, run);
      AddedBy(src, n - 1, dst, ranks, run) + AddedAt(p, src[n - 1], ranks[n - 1], run)
  }

  /** The books of an update: texts here and in the obsolete list, against the start and the clones. */
  predicate Balanced(labels: seq<Label>, obsolete: seq<Text>, info: Info, dst: Db, added: seq<Text>) {
    var now, was := AllTexts(labels, |labels|), AllTexts(dst.labels, |dst.labels|);
    && Hold(now) + Hold(obsolete) == Hold(was) + Hold(dst.obsolete) + Hold(added)
    && |added| == info.newStrings
    && |obsolete| == |dst.obsolete| + info.deletedStrings
    && |now| + info.deletedStrings == |was| + info.newStrings
    && dst.obsolete <= obsolete
  }

  /** One label is replaced: u.dest for the label at j, u.obsolete moved, fresh clones. */
  lemma BalancedReplace(labels: seq<Label>, obsolete: seq<Text>, info: Info, dst: Db, added: seq<Text>,
                        j: nat, u: Outcome, clones: seq<Text>, info': Info)
    requires Balanced(labels, obsolete, info, dst, added) && j < |labels|
    requires Hold(u.dest.texts) + Hold(u.obsolete) == Hold(labels[j].texts) + Hold(clones)
    requires |u.dest.texts| + |u.obsolete| == |labels[j].texts| + |clones|
    requires info'.newStrings == info.newStrings + |clones| && info'.deletedStrings == info.deletedStrings + |u.obsolete|
    ensures Balanced(labels[j := u.dest], obsolete + u.obsolete, info', dst, added + clones)
  {
    var n := |labels|;
    var now, now', was := AllTexts(labels, n), AllTexts(labels[j := u.dest], n), AllTexts(dst.labels, |dst.labels|);
    var total := Hold(was) + Hold(dst.obsolete) + Hold(added);
    HoldReplace(labels, j, u.dest, n);
    Exchange(Hold(now), Hold(now'), Hold(labels[j].texts), Hold(u.dest.texts), Hold(obsolete), Hold(u.obsolete), total, Hold(clones));
    HoldSum(obsolete, u.obsolete);
    HoldSum(added, clones);
    assert total + Hold(clones) == Hold(was) + Hold(dst.obsolete) + Hold(added + clones);
  }

  lemma BalancedFound(p: Progress, s: Label, rank: nat -> nat, run: Run, dst: Db, added: seq<Text>)
    requires Shaped(p) && run.update && Balanced(p.labels, p.obsolete, p.info, dst, added)
    requires Lookup(p.labels, s.name) >= 0
    ensures var q := Visit(p, s, rank, run);
            Balanced(q.labels, q.obsolete, q.info, dst, added + AddedAt(p, s, rank, run))
  {
    var j := Lookup(p.labels, s.name);
    var u := UpdateLabel(s, p.labels[j], rank, ModeFor(p, run), p.asked);
    LabelConserves(s, p.labels[j], rank, ModeFor(p, run), p.asked);
    BalancedReplace(p.labels, p.obsolete, p.info, dst, added, j, u, AddedAt(p, s, rank, run), Visit(p, s, rank, run).info);
  }

  /** A cloned label is appended. */
  lemma BalancedAppend(labels: seq<Label>, obsolete: seq<Text>, info: Info, dst: Db, added: seq<Text>, l: Label, info': Info)
    requires Balanced(labels, obsolete, info, dst, added)
    requires info'.newStrings == info.newStrings + |l.texts| && info'.deletedStrings == info.deletedStrings
    ensures Balanced(labels + [l], obsolete, info', dst, added + l.texts)
  {
    var n := |labels|;
    var now, was := AllTexts(labels, n), AllTexts(dst.labels, |dst.labels|);
    TextsOfPrefix(labels, l, n);
    assert AllTexts(labels + [l], n + 1) == now + l.texts;
    HoldSum(now, l.texts);
    HoldSum(added, l.texts);
    calc {
      Hold(now + l.texts) + Hold(obsolete);
      Hold(now) + Hold(obsolete) + Hold(l.texts);
      Hold(was) + Hold(dst.obsolete) + Hold(added) + Hold(l.texts);
      Hold(was) + Hold(dst.obsolete) + Hold(added + l.texts);
    }
  }

  lemma BalancedVisit(p: Progress, s: Label, rank: nat -> nat, run: Run, dst: Db, added: seq<Text>)
    requires Shaped(p) && run.update && Balanced(p.labels, p.obsolete, p.info, dst, added)
    ensures var q := Visit(p, s, rank, run);
            Balanced(q.labels, q.obsolete, q.info, dst, added + AddedAt(p, s, rank, run))
  {
    if Lookup(p.labels, s.name) >= 0 {
      BalancedFound(p, s, rank, run, dst, added);
    } else {
      BalancedAppend(p.labels, p.obsolete, p.info, dst, added, CloneLabel(s), Visit(p, s, rank, run).info);
    }
  }

  lemma {:induction false} VisitsBalance(src: seq<Label>, n: nat, dst: Db, ranks: seq<nat -> nat>, run: Run)
    requires n <= |src| == |ranks| && run.update
    ensures var p := VisitAll(src, n, dst, ranks, run);
            Balanced(p.labels, p.obsolete, p.info, dst, AddedBy(src, n, dst, ranks, run))
  {
    hide Visit, AddedAt;
    if n > 0 {
      VisitsBalance(src, n - 1, dst, ranks, run);
      BalancedVisit(VisitAll(src, n - 1, dst, ranks, run), src[n - 1], ranks[n - 1], run, dst,
                    AddedBy(src, n - 1, dst, ranks, run));
    }
  }

  /** Sweeping splits the texts of the first n labels in those kept and those moved. */
  predicate SweepSplits(labels: seq<Label>, done: seq<bool>, n: nat)
    requires n <= |labels| == |done|
  {
    var kept, gone := Select(labels, done, true, n), TextsOf(labels, done, false, n);
    && Hold(AllTexts(kept, |kept|)) + Hold(gone) == Hold(AllTexts(labels, n))
    && |AllTexts(kept, |kept|)| + |gone| == |AllTexts(labels, n)|
    && SweepInfo(labels, done, n).deletedStrings == |gone|
    && SweepInfo(labels, done, n).newStrings == 0
  }

  lemma SweepKeeps(labels: seq<Label>, done: seq<bool>, n: nat)
    requires 0 < n <= |labels| == |done| && done[n - 1] && SweepSplits(labels, done, n - 1)
    ensures SweepSplits(labels, done, n)
  {
    var kept, gone := Select(labels, done, true, n - 1), TextsOf(labels, done, false, n - 1);
    var l := labels[n - 1];
    HoldSum(AllTexts(labels, n - 1), l.texts);
    TextsOfPrefix(kept, l, |kept|);
    HoldSum(AllTexts(kept, |kept|), l.texts);
    assert Select(labels, done, true, n) == kept + [l] && TextsOf(labels, done, false, n) == gone + [];
    assert AllTexts(kept + [l], |kept| + 1) == AllTexts(kept, |kept|) + l.texts;
    assert gone + [] == gone;
    AddBoth(Hold(AllTexts(labels, n - 1)), Hold(AllTexts(kept, |kept|)), Hold(gone), multiset{}, Hold(l.texts));
  }

  lemma SweepDrops(labels: seq<Label>, done: seq<bool>, n: nat)
    requires 0 < n <= |labels| == |done| && !done[n - 1] && SweepSplits(labels, done, n - 1)
    ensures SweepSplits(labels, done, n)
  {
    var gone, ts := TextsOf(labels, done, false, n - 1), labels[n - 1].texts;
    HoldSum(AllTexts(labels, n - 1), ts);
    HoldSum(gone, ts);
    assert TextsOf(labels, done, false, n) == gone + ts;
  }

  lemma {:induction false} SweepMoves(labels: seq<Label>, done: seq<bool>, n: nat)
    requires n <= |labels| == |done|
    ensures SweepSplits(labels, done, n)
  {
    if n > 0 {
      SweepMoves(labels, done, n - 1);
      if done[n - 1] { SweepKeeps(labels, done, n); } else { SweepDrops(labels, done, n); }
    }
  }

  lemma AddedAtAreClones(p: Progress, s: Label, rank: nat -> nat, run: Run, t: Text) returns (k: nat)
    requires Shaped(p) && run.update && t in AddedAt(p, s, rank, run)
    ensures k < |s.texts| && t == CloneText(s.texts[k])
  {
    var j := Lookup(p.labels, s.name);
    if j >= 0 { LabelConserves(s, p.labels[j], rank, ModeFor(p, run), p.asked); }
    k :| 0 <= k < |s.texts| && t == CloneText(s.texts[k]);
  }

  /** Every text an update adds is the clone of a source text. */
  lemma {:induction false} AddedAreClones(src: seq<Label>, n: nat, dst: Db, ranks: seq<nat -> nat>, run: Run, t: Text)
    returns (i: nat, k: nat)
    requires n <= |src| == |ranks| && run.update && t in AddedBy(src, n, dst, ranks, run)
    ensures i < n && k < |src[i].texts| && t == CloneText(src[i].texts[k])
  {
    hide Visit, AddedAt;
    if t in AddedBy(src, n - 1, dst, ranks, run) {
      i, k := AddedAreClones(src, n - 1, dst, ranks, run, t);
    } else {
      i := n - 1;
      k := AddedAtAreClones(VisitAll(src, n - 1, dst, ranks, run), src[n - 1], ranks[n - 1], run, t);
    }
  }

  // ---------------------------------------------------------------------------------------
  // Lineage
  // ---------------------------------------------------------------------------------------

  lemma {:induction false} InAllTexts(labels: seq<Label>, j: nat, t: Text, n: nat)
    requires j < n <= |labels| && t in labels[j].texts
    ensures t in AllTexts(labels, n)
  {
    if j < n - 1 { InAllTexts(labels, j, t, n - 1); }
  }

  lemma {:induction false} OfAllTexts(labels: seq<Label>, t: Text, n: nat) returns (j: nat)
    requires n <= |labels| && t in AllTexts(labels, n)
    ensures j < n && t in labels[j].texts
  {
    if t in labels[n - 1].texts { j := n - 1; } else { j := OfAllTexts(labels, t, n - 1); }
  }

  lemma {:induction false} OfTexts(labels: seq<Label>, marks: seq<bool>, t: Text, n: nat) returns (j: nat)
    requires n <= |labels| == |marks| && t in TextsOf(labels, marks, false, n)
    ensures j < n && t in labels[j].texts
  {
    if t in TextsOf(labels, marks, false, n - 1) { j := OfTexts(labels, marks, t, n - 1); } else { j := n - 1; }
  }

  lemma LooksMore(t: Text, s: seq<Text>, more: seq<Text>)
    requires Looks(t, s) && forall x | x in s :: x in more
    ensures Looks(t, more)
  {
    var i :| 0 <= i < |s| && t.str == s[i].str && SameIgnoringCase(t.wave, s[i].wave);
    assert s[i] in more;
  }

  /** Descending is transitive. */
  lemma DescendsChain(t: Text, u: Text, w: Text, s: seq<Text>, s': seq<Text>, all: seq<Text>)
    requires Descends(t, u, s) && Descends(u, w, s')
    requires (forall x | x in s :: x in all) && forall x | x in s' :: x in all
    ensures Descends(t, w, all)
  {
    if Looks(t, s) {
      LooksMore(t, s, all);
    } else if Looks(u, s') {
      LooksMore(u, s', all);
    }
  }

  /** A longer list of texts, seen through an update from s, descends from a larger pool. */
  lemma LineageChain(texts: seq<Text>, mid: seq<Text>, pool: seq<Text>, s: seq<Text>, s': seq<Text>,
                     pool': seq<Text>, all: seq<Text>)
    requires Lineage(mid, pool, s') && forall w | w in pool :: w in pool'
    requires forall t | t in texts :: t in pool' || exists u | u in mid :: Descends(t, u, s)
    requires (forall x | x in s :: x in all) && forall x | x in s' :: x in all
    ensures Lineage(texts, pool', all)
  {
    hide Descends;
    forall t | t in texts ensures exists w | w in pool' :: Descends(t, w, all) {
      if t in pool' {
        ItselfDescends(t, t, all);
      } else {
        var u :| u in mid && Descends(t, u, s);
        var w :| w in pool && Descends(u, w, s');
        DescendsChain(t, u, w, s, s', all);
      }
    }
  }

  lemma LineageMore(texts: seq<Text>, pool: seq<Text>, s: seq<Text>, pool': seq<Text>, all: seq<Text>)
    requires Lineage(texts, pool, s) && (forall w | w in pool :: w in pool') && forall x | x in s :: x in all
    ensures Lineage(texts, pool', all)
  {
    hide Descends;
    forall t | t in texts ensures exists u | u in texts :: Descends(t, u, all) { ItselfDescends(t, t, all); }
    LineageChain(texts, texts, pool, all, s, pool', all);
  }

  /** All labels, and what was moved. */
  predicate AllFrom(labels: seq<Label>, moved: seq<Text>, pool: seq<Text>, s: seq<Text>) {
    Lineage(moved, pool, s) && forall j | 0 <= j < |labels| :: Lineage(labels[j].texts, pool, s)
  }

  function Tail(obsolete: seq<Text>, dst: Db): seq<Text> {
    if |dst.obsolete| <= |obsolete| then obsolete[|dst.obsolete|..] else []
  }

  lemma FoundLineage(s: Label, d: Label, rank: nat -> nat, mode: Mode, asked: nat, pool: seq<Text>, s': seq<Text>,
                     pool': seq<Text>, all: seq<Text>)
    requires mode.update && Lineage(d.texts, pool, s') && pool' == pool + Added(s, d, rank, mode, asked) && all == s' + s.texts
    ensures var u := UpdateLabel(s, d, rank, mode, asked);
            Lineage(u.dest.texts, pool', all) && Lineage(u.obsolete, pool', all)
  {
    hide UpdateLabel, Added, Descends;
    var u := UpdateLabel(s, d, rank, mode, asked);
    forall t | t in u.dest.texts ensures t in pool' || exists w | w in d.texts :: Descends(t, w, s.texts) {
      LabelLineage(s, d, rank, mode, asked, t);
    }
    LineageChain(u.dest.texts, d.texts, pool, s.texts, s', pool', all);
    LabelConserves(s, d, rank, mode, asked);
    forall t | t in u.obsolete ensures exists w | w in d.texts :: Descends(t, w, s.texts) {
      var k :| 0 <= k < |u.obsolete| && u.obsolete[k] == t;
      assert ComesFrom(u.obsolete[k], d.texts);
      var j :| 0 <= j < |d.texts| && t.(retranslate := false) == d.texts[j].(retranslate := false);
      ItselfDescends(t, d.texts[j], s.texts);
    }
    LineageChain(u.obsolete, d.texts, pool, s.texts, s', pool', all);
  }

  lemma VisitLineage(p: Progress, s: Label, rank: nat -> nat, run: Run, moved: seq<Text>, pool: seq<Text>, s': seq<Text>)
    returns (more: seq<Text>)
    requires Shaped(p) && run.update && AllFrom(p.labels, moved, pool, s')
    ensures var q := Visit(p, s, rank, run);
            q.obsolete == p.obsolete + more && AllFrom(q.labels, moved + more, pool + AddedAt(p, s, rank, run), s' + s.texts)
  {
    hide UpdateLabel, Lineage, Added;
    var q, j := Visit(p, s, rank, run), Lookup(p.labels, s.name);
    var pool', all := pool + AddedAt(p, s, rank, run), s' + s.texts;
    LineageMore(moved, pool, s', pool', all);
    more := [];
    if j >= 0 {
      var u := UpdateLabel(s, p.labels[j], rank, ModeFor(p, run), p.asked);
      more := u.obsolete;
      FoundLineage(s, p.labels[j], rank, ModeFor(p, run), p.asked, pool, s', pool', all);
    } else {
      ClonesLineage(CloneLabel(s).texts, pool', all);
      LineageOfNothing(pool', all);
    }
    LineageSum(moved, more, pool', all);
    forall k | 0 <= k < |q.labels| ensures Lineage(q.labels[k].texts, pool', all) {
      if k < |p.labels| && k != j { LineageMore(p.labels[k].texts, pool, s', pool', all); }
    }
  }

  lemma ClonesLineage(texts: seq<Text>, pool: seq<Text>, s: seq<Text>)
    requires forall t | t in texts :: t in pool
    ensures Lineage(texts, pool, s)
  {
    hide Descends;
    forall t | t in texts ensures exists w | w in pool :: Descends(t, w, s) { ItselfDescends(t, t, s); }
  }

  lemma LineageOfNothing(pool: seq<Text>, s: seq<Text>)
    ensures Lineage([], pool, s)
  {
  }

  lemma LineageSum(a: seq<Text>, b: seq<Text>, pool: seq<Text>, s: seq<Text>)
    requires Lineage(a, pool, s) && Lineage(b, pool, s)
    ensures Lineage(a + b, pool, s)
  {
    hide Descends;
  }

  lemma {:induction false} VisitsLineage(src: seq<Label>, n: nat, dst: Db, ranks: seq<nat -> nat>, run: Run)
    returns (moved: seq<Text>)
    requires n <= |src| == |ranks| && run.update
    ensures var p, pool := VisitAll(src, n, dst, ranks, run), AllTexts(dst.labels, |dst.labels|) + AddedBy(src, n, dst, ranks, run);
            p.obsolete == dst.obsolete + moved && AllFrom(p.labels, moved, pool, AllTexts(src, n))
  {
    hide Visit, AddedAt, Lineage;
    var was := AllTexts(dst.labels, |dst.labels|);
    if n == 0 {
      moved := [];
      LineageOfNothing(was + [], []);
      forall j | 0 <= j < |dst.labels| ensures Lineage(dst.labels[j].texts, was + [], []) {
        forall t | t in dst.labels[j].texts ensures t in was + [] { InAllTexts(dst.labels, j, t, |dst.labels|); }
        ClonesLineage(dst.labels[j].texts, was + [], []);
      }
    } else {
      var p, added := VisitAll(src, n - 1, dst, ranks, run), AddedBy(src, n - 1, dst, ranks, run);
      var before := VisitsLineage(src, n - 1, dst, ranks, run);
      var more := VisitLineage(p, src[n - 1], ranks[n - 1], run, before, was + added, AllTexts(src, n - 1));
      moved := before + more;
      assert (was + added) + AddedAt(p, src[n - 1], ranks[n - 1], run)
          == was + (added + AddedAt(p, src[n - 1], ranks[n - 1], run));
      assert (dst.obsolete + before) + more == dst.obsolete + moved;
    }
  }

  /** Whatever is in the database or the new part of the obsolete list in the end. */
  lemma UpdateLineage(src: seq<Label>, dst: Db, ranks: seq<nat -> nat>, run: Run)
    requires |ranks| == |src| && run.update
    ensures var db, pool := UpdateDb(src, dst, ranks, run).db,
                            AllTexts(dst.labels, |dst.labels|) + AddedBy(src, |src|, dst, ranks, run);
            && Lineage(AllTexts(db.labels, |db.labels|), pool, AllTexts(src, |src|))
            && dst.obsolete <= db.obsolete && Lineage(Tail(db.obsolete, dst), pool, AllTexts(src, |src|))
  {
    hide Visit, AddedAt, Descends;
    var p, pool, s := VisitAll(src, |src|, dst, ranks, run),
                      AllTexts(dst.labels, |dst.labels|) + AddedBy(src, |src|, dst, ranks, run), AllTexts(src, |src|);
    var moved := VisitsLineage(src, |src|, dst, ranks, run);
    var n := |p.labels|;
    var out, gone := Select(p.labels, p.done, true, n), TextsOf(p.labels, p.done, false, n);
    SelectIsWhere(p.labels, p.done, true, n);
    forall t | t in AllTexts(out, |out|) ensures exists w | w in pool :: Descends(t, w, s) {
      var j := OfAllTexts(out, t, |out|);
      assert out[j] == p.labels[Where(p.done, true, n)[j]];
    }
    forall t | t in gone ensures exists w | w in pool :: Descends(t, w, s) {
      var _ := OfTexts(p.labels, p.done, t, n);
    }
    assert p.obsolete + gone == dst.obsolete + (moved + gone);
  }

  // With distinct source keys no label is updated twice.

  /** The texts of unprocessed labels and the moved ones are texts of the destination as they were. */
  predicate Parts(labels: seq<Label>, done: seq<bool>, moved: seq<Text>, was: seq<Text>)
    requires |labels| == |done|
  {
    multiset(Unmarked(TextsOf(labels, done, false, |labels|))) + multiset(Unmarked(moved)) <= multiset(Unmarked(was))
  }

  lemma UnmarkedSum(a: seq<Text>, b: seq<Text>)
    ensures Unmarked(a + b) == Unmarked(a) + Unmarked(b)
    ensures multiset(Unmarked(a + b)) == multiset(Unmarked(a)) + multiset(Unmarked(b))
  {
    assert Unmarked(a + b) == Unmarked(a) + Unmarked(b);
  }

  lemma {:induction false} TextsOfBehind(labels: seq<Label>, done: seq<bool>, j: nat, l: Label, n: nat)
    requires n <= j < |labels| == |done|
    ensures TextsOf(labels[j := l], done[j := true], false, n) == TextsOf(labels, done, false, n)
  {
    if n > 0 { TextsOfBehind(labels, done, j, l, n - 1); }
  }

  /** Processing label j takes its texts away from the unprocessed ones. */
  lemma {:induction false} TextsOfTaken(labels: seq<Label>, done: seq<bool>, j: nat, l: Label, n: nat)
    requires j < n <= |labels| == |done| && !done[j]
    ensures multiset(Unmarked(TextsOf(labels[j := l], done[j := true], false, n))) + multiset(Unmarked(labels[j].texts))
         == multiset(Unmarked(TextsOf(labels, done, false, n)))
  {
    hide Unmarked;
    var now, was, ts := TextsOf(labels[j := l], done[j := true], false, n - 1), TextsOf(labels, done, false, n - 1), labels[n - 1].texts;
    if j == n - 1 {
      TextsOfBehind(labels, done, j, l, n - 1);
      UnmarkedSum(was, ts);
      assert now + [] == now;
    } else {
      TextsOfTaken(labels, done, j, l, n - 1);
      UnmarkedSum(now, ts);
      UnmarkedSum(was, ts);
      assert now + [] == now && was + [] == was;
    }
  }

  lemma {:induction false} TextsOfPush(labels: seq<Label>, done: seq<bool>, l: Label, n: nat)
    requires n <= |labels| == |done|
    ensures TextsOf(labels + [l], done + [true], false, n) == TextsOf(labels, done, false, n)
  {
    if n > 0 { TextsOfPush(labels, done, l, n - 1); }
  }

  /** Every processed label is found by one of the first n source names. */
  predicate DoneIsFound(src: seq<Label>, n: nat, p: Progress)
    requires n <= |src| && Shaped(p)
  {
    forall j | 0 <= j < |p.labels| && p.done[j] :: exists i | 0 <= i < n :: Lookup(p.labels, src[i].name) == j
  }

  lemma DoneVisit(src: seq<Label>, n: nat, p: Progress, rank: nat -> nat, run: Run)
    requires n < |src| && Shaped(p) && DoneIsFound(src, n, p)
    ensures DoneIsFound(src, n + 1, Visit(p, src[n], rank, run))
  {
    hide UpdateLabel, SameKey;
    var q, l := Visit(p, src[n], rank, run), Lookup(p.labels, src[n].name);
    VisitExtends(p, src[n], rank, run);
    SameKeyAsItself(src[n].name);
    if l < 0 { LookupStays(p.labels, q.labels, src[n].name, |p.labels|); } else { LookupExtends(p.labels, q.labels, src[n].name); }
    forall j | 0 <= j < |q.labels| && q.done[j] ensures exists i | 0 <= i < n + 1 :: Lookup(q.labels, src[i].name) == j {
      if j < |p.labels| && p.done[j] {
        var i :| 0 <= i < n && Lookup(p.labels, src[i].name) == j;
        LookupExtends(p.labels, q.labels, src[i].name);
      } else {
        assert Lookup(q.labels, src[n].name) == j;
      }
    }
  }

  lemma FoundIsUndone(src: seq<Label>, n: nat, p: Progress)
    requires n < |src| && Shaped(p) && DoneIsFound(src, n, p) && DistinctNames(src) && Lookup(p.labels, src[n].name) >= 0
    ensures !p.done[Lookup(p.labels, src[n].name)]
  {
    var j := Lookup(p.labels, src[n].name);
    if p.done[j] {
      var i :| 0 <= i < n && Lookup(p.labels, src[i].name) == j;
      LookupsDiffer(src, i, n, p.labels);
    }
  }

  lemma PartsMove<T>(undone: multiset<T>, left: multiset<T>, d: multiset<T>, more: multiset<T>, moved: multiset<T>, was: multiset<T>)
    requires left + d == undone && more <= d && undone + moved <= was
    ensures left + (moved + more) <= was
  {
  }

  lemma VisitParts(src: seq<Label>, n: nat, p: Progress, rank: nat -> nat, run: Run, moved: seq<Text>, was: seq<Text>)
    returns (more: seq<Text>)
    requires n < |src| && Shaped(p) && DoneIsFound(src, n, p) && DistinctNames(src) && run.update
    requires Parts(p.labels, p.done, moved, was)
    ensures var q := Visit(p, src[n], rank, run);
            q.obsolete == p.obsolete + more && Parts(q.labels, q.done, moved + more, was)
  {
    hide UpdateLabel, Unmarked, DoneIsFound, DistinctNames;
    var s, size := src[n], |p.labels|;
    var j := Lookup(p.labels, s.name);
    more := [];
    if j >= 0 {
      FoundIsUndone(src, n, p);
      var d := p.labels[j];
      var u := UpdateLabel(s, d, rank, ModeFor(p, run), p.asked);
      more := u.obsolete;
      MovedFromLabel(s, d, rank, ModeFor(p, run), p.asked);
      TextsOfTaken(p.labels, p.done, j, u.dest, size);
      UnmarkedSum(moved, more);
      PartsMove(multiset(Unmarked(TextsOf(p.labels, p.done, false, size))),
                multiset(Unmarked(TextsOf(p.labels[j := u.dest], p.done[j := true], false, size))),
                multiset(Unmarked(d.texts)), multiset(Unmarked(more)), multiset(Unmarked(moved)), multiset(Unmarked(was)));
    } else {
      TextsOfPush(p.labels, p.done, CloneLabel(s), size);
      assert TextsOf(p.labels, p.done, false, size) + [] == TextsOf(p.labels, p.done, false, size);
      assert moved + more == moved && p.obsolete + more == p.obsolete;
    }
  }

  lemma {:induction false} VisitsParts(src: seq<Label>, n: nat, dst: Db, ranks: seq<nat -> nat>, run: Run)
    returns (moved: seq<Text>)
    requires n <= |src| == |ranks| && DistinctNames(src) && run.update
    ensures var p := VisitAll(src, n, dst, ranks, run);
            && p.obsolete == dst.obsolete + moved && DoneIsFound(src, n, p)
            && Parts(p.labels, p.done, moved, AllTexts(dst.labels, |dst.labels|))
  {
    hide Visit, Unmarked, DistinctNames;
    if n == 0 {
      moved := [];
      UndoneTexts(dst.labels, |dst.labels|);
      UnmarkedSum(AllTexts(dst.labels, |dst.labels|), []);
      assert AllTexts(dst.labels, |dst.labels|) + [] == AllTexts(dst.labels, |dst.labels|);
      assert Parts(dst.labels, Start(dst).done, [], AllTexts(dst.labels, |dst.labels|));
    } else {
      hide DoneIsFound, Parts;
      var p := VisitAll(src, n - 1, dst, ranks, run);
      var before := VisitsParts(src, n - 1, dst, ranks, run);
      DoneVisit(src, n - 1, p, ranks[n - 1], run);
      var more := VisitParts(src, n - 1, p, ranks[n - 1], run, before, AllTexts(dst.labels, |dst.labels|));
      moved := before + more;
      assert (dst.obsolete + before) + more == dst.obsolete + moved;
    }
  }

  lemma {:induction false} UndoneTexts(labels: seq<Label>, n: nat)
    requires n <= |labels|
    ensures TextsOf(labels, seq(|labels|, j => false), false, n) == AllTexts(labels, n)
  {
    if n > 0 { UndoneTexts(labels, n - 1); }
  }

  /** With distinct source keys, what is moved to the obsolete list is, mark aside, what the destination held, each text once. */
  lemma MovedTextsAreKept(src: seq<Label>, dst: Db, ranks: seq<nat -> nat>, run: Run)
    requires |ranks| == |src| && DistinctNames(src) && run.update
    ensures multiset(Unmarked(Tail(UpdateDb(src, dst, ranks, run).db.obsolete, dst)))
         <= multiset(Unmarked(AllTexts(dst.labels, |dst.labels|)))
  {
    hide Visit, Unmarked, DistinctNames;
    var p := VisitAll(src, |src|, dst, ranks, run);
    var moved := VisitsParts(src, |src|, dst, ranks, run);
    var gone := TextsOf(p.labels, p.done, false, |p.labels|);
    assert p.obsolete + gone == dst.obsolete + (moved + gone);
    UnmarkedSum(moved, gone);
  }

  /** Each of some texts is, up to its mark, one of all. */
  lemma AmongThem(some: seq<Text>, all: seq<Text>, x: Text)
    requires multiset(Unmarked(some)) <= multiset(Unmarked(all)) && x in some
    ensures ComesFrom(x, all)
  {
    var k :| 0 <= k < |some| && some[k] == x;
    assert Unmarked(some)[k] in multiset(Unmarked(all));
    var j :| 0 <= j < |all| && Unmarked(all)[j] == Unmarked(some)[k];
  }

  /**
   * Conservation, for every user: with skips, cancels and fatal errors, every text of the
   * destination is afterwards in the destination or at the end of the obsolete list with all its
   * translations; the only other texts are clones of source texts, new_strings of them; the
   * obsolete list grew by exactly deleted_strings. No text gets a string or wave that neither it
   * nor a source text had, and with distinct source keys the texts at the end of the obsolete
   * list are texts of the destination as they were, up to the retranslate mark (BabylonChains says
   * of all sources when this is so).
   */
  lemma UpdateDbConserves(src: seq<Label>, dst: Db, ranks: seq<nat -> nat>, run: Run)
    requires |ranks| == |src| && run.update
    ensures var r, added := UpdateDb(src, dst, ranks, run), AddedBy(src, |src|, dst, ranks, run);
            var was, moved := AllTexts(dst.labels, |dst.labels|), Tail(r.db.obsolete, dst);
            && Balanced(r.db.labels, r.db.obsolete, r.info, dst, added)
            && Lineage(AllTexts(r.db.labels, |r.db.labels|), was + added, AllTexts(src, |src|))
            && Lineage(moved, was + added, AllTexts(src, |src|))
            && (DistinctNames(src) ==> multiset(Unmarked(moved)) <= multiset(Unmarked(was)))
  {
    UpdateBalances(src, dst, ranks, run);
    UpdateLineage(src, dst, ranks, run);
    if DistinctNames(src) { MovedTextsAreKept(src, dst, ranks, run); }
  }

  lemma UpdateBalances(src: seq<Label>, dst: Db, ranks: seq<nat -> nat>, run: Run)
    requires |ranks| == |src| && run.update
    ensures var r := UpdateDb(src, dst, ranks, run);
            Balanced(r.db.labels, r.db.obsolete, r.info, dst, AddedBy(src, |src|, dst, ranks, run))
  {
    VisitsBalance(src, |src|, dst, ranks, run);
    var p := VisitAll(src, |src|, dst, ranks, run);
    SweepMoves(p.labels, p.done, |p.labels|);
    HoldSum(p.obsolete, TextsOf(p.labels, p.done, false, |p.labels|));
  }

  const NO_TEXT := Text("", "", 0, false, [])

  function OneLabel(name: string, texts: seq<Text>): Label { Label(name, "", "", "", "", 0, texts) }

  lemma AllDropped(s: Label, d: Label, rank: nat -> nat, mode: Mode, asked: nat)
    requires s.texts == [] && mode.update
    ensures var u := UpdateLabel(s, d, rank, mode, asked); u.obsolete == d.texts && u.asked == asked
  {
    var m := Unmatched(0, |d.texts|);
    assert RefreshAll([], d.texts, m.dst, true) == d.texts;
    SelectAll(d.texts, m.DstMarks(), false, |d.texts|);
    assert d.texts[..|d.texts|] == d.texts;
  }

  lemma TwoVisits(a: Label, b: Label, dst: Db, ranks: seq<nat -> nat>, run: Run)
    requires |ranks| == 2
    ensures VisitAll([a, b], 2, dst, ranks, run) == Visit(Visit(Start(dst), a, ranks[0], run), b, ranks[1], run)
  {
    hide Visit;
    var src := [a, b];
    assert VisitAll(src, 0, dst, ranks, run) == Start(dst);
    assert VisitAll(src, 1, dst, ranks, run) == Visit(Start(dst), a, ranks[0], run);
  }

  lemma FirstCloned(a: Label, rank: nat -> nat, run: Run)
    requires run.update
    ensures var p := Visit(Start(Db([], [])), a, rank, run);
            p.labels == [CloneLabel(a)] && p.done == [true] && p.obsolete == [] && p.asked == 0
  {
    assert FindLabel([], a.name, 0) == -1;
  }

  lemma EmptyDrops(p: Progress, b: Label, rank: nat -> nat, run: Run)
    requires Shaped(p) && |p.labels| == 1 && p.done == [true] && SameKey(p.labels[0].name, b.name) && b.texts == [] && run.update
    ensures var q := Visit(p, b, rank, run);
            |q.labels| == 1 && q.done == [true] && q.obsolete == p.obsolete + p.labels[0].texts && q.asked == p.asked
  {
    hide UpdateLabel, SameKey;
    assert FindLabel(p.labels, b.name, 0) == -1 && Lookup(p.labels, b.name) == 0;
    AllDropped(b, p.labels[0], rank, ModeFor(p, run), p.asked);
  }

  /**
   * Two source labels of one key, the second without texts: a text is cloned for the first and
   * dropped for the second, so it stands in the obsolete list although the destination never had it.
   */
  lemma ClonedThenDropped(t: Text, ranks: seq<nat -> nat>, run: Run)
    requires |ranks| == 2 && run.update
    ensures var r := UpdateDb([OneLabel("a", [t]), OneLabel("a", [])], Db([], []), ranks, run);
            r.db.obsolete == [CloneText(t)] && r.asked == 0
  {
    hide Visit, SameKey;
    var a, b, dst := OneLabel("a", [t]), OneLabel("a", []), Db([], []);
    TwoVisits(a, b, dst, ranks, run);
    FirstCloned(a, ranks[0], run);
    SameKeyAsItself("a");
    var p1 := Visit(Start(dst), a, ranks[0], run);
    assert CloneLabel(a).texts == [CloneText(t)];
    EmptyDrops(p1, b, ranks[1], run);
    var p2 := Visit(p1, b, ranks[1], run);
    assert TextsOf(p2.labels, p2.done, false, 0) == [] && TextsOf(p2.labels, p2.done, false, 1) == [];
  }
}
