/** What a second run of UpdateDB finds straight after a complete update. */
module BabylonRepeat {
  import opened TextKeys
  import opened Selections
  import opened BabylonLabel
  import opened BabylonLabelLaws
  import opened BabylonDatabase
  import opened BabylonDatabaseLaws

  // ---------------------------------------------------------------------------------------
  // One label
  // ---------------------------------------------------------------------------------------

  /** No text carries a retranslate mark. */
  predicate Unset(ts: seq<Text>) {
    forall j | 0 <= j < |ts| :: !ts[j].retranslate
  }

  lemma FinishUnsets(s: Label, d: Label, w: Session, mode: Mode)
    requires mode.update && w.m.Fits(|s.texts|, |w.d|)
    ensures Unset(Finish(s, d, w, mode).dest.texts)
  {
    hide Tally;
    var marks, refreshed := w.m.DstMarks(), RefreshAll(s.texts, w.d, w.m.dst, true);
    var kept := Select(refreshed, marks, true, |w.d|);
    SelectIsWhere(refreshed, marks, true, |w.d|);
    forall j | 0 <= j < |kept| ensures !kept[j].retranslate {
      assert kept[j] == refreshed[Where(marks, true, |w.d|)[j]];
    }
  }

  /** A finished update leaves no mark: matched texts lose theirs and clones have none. */
  lemma UpdateUnsets(s: Label, d: Label, rank: nat -> nat, mode: Mode, asked: nat)
    requires mode.update && UpdateLabel(s, d, rank, mode, asked).code == Ok
    ensures Unset(UpdateLabel(s, d, rank, mode, asked).dest.texts)
  {
    hide Finish;
    var w := FinishedSession(s, d, rank, mode, asked);
    FinishUnsets(s, d, w, mode);
  }

  lemma {:induction false} NoneMarked(d: seq<Text>, dst: seq<int>, n: nat)
    requires n <= |dst| == |d| && Unset(d)
    ensures Marked(d, dst, n) == 0
  {
    if n > 0 { NoneMarked(d, dst, n - 1); }
  }

  /** Nothing is counted for a complete match of equal texts without marks. */
  lemma NothingTallied(s: Label, d: Label, w: Session)
    requires w.m.Fits(|s.texts|, |w.d|) && FullMatch(s.texts, w.d, w.m) && SameMetadata(s, d) && Unset(w.d)
    ensures Tally(s, d, w) == NO_INFO
  {
    TallyIsZero(s, d, w);
    NoneMarked(w.d, w.m.dst, |w.d|);
  }

  lemma NothingMerged(s: seq<Text>, w: Session, update: bool)
    requires w.m.Fits(|s|, |w.d|) && FullMatch(s, w.d, w.m) && Unset(w.d)
    ensures Merged(s, w, update) == w.d && Dropped(s, w, update) == []
  {
    assert forall j | 0 <= j < |w.d| :: Refresh(w.d[j], s[w.m.dst[j]], update) == w.d[j];
    assert RefreshAll(s, w.d, w.m.dst, update) == w.d;
    SelectAll(w.d, w.m.DstMarks(), true, |w.d|);
    SelectAll(s, w.m.SrcMarks(), true, |s|);
    assert w.d[..|w.d|] == w.d;
    assert Clones(s, w.m.SrcMarks(), |s|) == [];
  }

  /** A label that agrees with its source, without marks, is left exactly as it is. */
  lemma AgreeingLabelIsIdle(s: Label, d: Label, rank: nat -> nat, mode: Mode, asked: nat)
    requires Converged(s, d) && DistinctKeys(s.texts) && Unset(d.texts)
    ensures UpdateLabel(s, d, rank, mode, asked) == Outcome(Ok, d, [], NO_INFO, asked)
  {
    hide Merged, Dropped, Tally, MatchEqual, DistinctKeys;
    ConvergedMatches(s, d, rank);
    var w := Session(MatchEqual(s.texts, d.texts, rank, |s.texts|).value, d.texts, asked);
    AskNothing(w, 0, mode);
    NothingMerged(s.texts, w, mode.update);
    NothingTallied(s, d, w);
  }

  /** Against a label that agrees with it, a source label that repeats a key is a fatal error. */
  lemma RepeatedKeyIsFatal(s: Label, d: Label, rank: nat -> nat, mode: Mode, asked: nat)
    requires Converged(s, d) && !DistinctKeys(s.texts)
    ensures UpdateLabel(s, d, rank, mode, asked) == Outcome(Fatal, d, [], NO_INFO, asked)
  {
    hide DistinctKeys;
    var first := MatchEqual(s.texts, d.texts, rank, |s.texts|);
    if first.Some? {
      MatchEqualIsFind(s.texts, d.texts, rank, |s.texts|);
      forall i | 0 <= i < |s.texts| ensures first.value.src[i] >= 0 {
        var j := ViewInDest(s, d, i);
        FindSomething(d.texts, rank, s.texts[i].str, |d.texts|, j);
      }
      MatchedKeysDistinct(s.texts, d.texts, rank);
    }
  }

  // ---------------------------------------------------------------------------------------
  // A complete update leaves no mark
  // ---------------------------------------------------------------------------------------

  predicate DoneUnset(p: Progress)
    requires Shaped(p)
  {
    forall j | 0 <= j < |p.labels| && p.done[j] :: Unset(p.labels[j].texts)
  }

  lemma VisitUnsets(p: Progress, s: Label, rank: nat -> nat, run: Run)
    requires Shaped(p) && DoneUnset(p) && run.update
    requires Visit(p, s, rank, run).info.skippedLabels == p.info.skippedLabels
    ensures DoneUnset(Visit(p, s, rank, run))
  {
    hide UpdateLabel, Unset;
    var j := Lookup(p.labels, s.name);
    if j >= 0 {
      UpdateUnsets(s, p.labels[j], rank, ModeFor(p, run), p.asked);
    } else {
      CloneUnset(s);
    }
  }

  lemma CloneUnset(s: Label)
    ensures Unset(CloneLabel(s).texts)
  {
  }

  lemma {:induction false} VisitsUnset(src: seq<Label>, n: nat, dst: Db, ranks: seq<nat -> nat>, run: Run)
    requires n <= |src| == |ranks| && run.update && VisitAll(src, n, dst, ranks, run).info.skippedLabels == 0
    ensures DoneUnset(VisitAll(src, n, dst, ranks, run))
  {
    hide Visit, Unset;
    if n > 0 {
      var p := SkipFree(src, n, dst, ranks, run);
      VisitsUnset(src, n - 1, dst, ranks, run);
      VisitUnsets(p, src[n - 1], ranks[n - 1], run);
    }
  }

  /** The labels are the source's, converged, and no text carries a mark. */
  predicate Settled(src: seq<Label>, labels: seq<Label>) {
    KeyConverged(src, labels) && forall j | 0 <= j < |labels| :: Unset(labels[j].texts)
  }

  lemma CompleteIsSettled(src: seq<Label>, dst: Db, ranks: seq<nat -> nat>, run: Run)
    requires |ranks| == |src| && DistinctNames(src) && run.update
    requires run.multiText || forall j | 0 <= j < |dst.labels| :: |dst.labels[j].texts| <= 1
    requires UpdateDb(src, dst, ranks, run).info.skippedLabels == 0
    ensures Settled(src, UpdateDb(src, dst, ranks, run).db.labels)
  {
    hide Visit, Unset, KeyConverged, DistinctNames;
    UpdateDbConvergesByKey(src, dst, ranks, run);
    VisitsUnset(src, |src|, dst, ranks, run);
    var p := VisitAll(src, |src|, dst, ranks, run);
    var out, n := Select(p.labels, p.done, true, |p.labels|), |p.labels|;
    SelectIsWhere(p.labels, p.done, true, n);
    forall j | 0 <= j < |out| ensures Unset(out[j].texts) {
      assert out[j] == p.labels[Where(p.done, true, n)[j]];
    }
  }

  // ---------------------------------------------------------------------------------------
  // The second run
  // ---------------------------------------------------------------------------------------

  /** How many of the first n source labels repeat a text key. */
  function Repeaters(src: seq<Label>, n: nat): nat
    requires n <= |src|
  {
    if n == 0 then 0 else Repeaters(src, n - 1) + Bump(!DistinctKeys(src[n - 1].texts))
  }

  function OnlySkips(n: nat): Info { NO_INFO.(skippedLabels := n, changes := n) }

  /** A run on a settled database after n source labels. */
  predicate AtRest(src: seq<Label>, n: nat, db: Db, p: Progress)
    requires n <= |src| && Shaped(p)
  {
    && p.labels == db.labels && p.obsolete == db.obsolete && p.asked == 0 && !p.skipAll
    && p.info == OnlySkips(Repeaters(src, n))
    && forall j | 0 <= j < |db.labels| :: p.done[j] <==> Reached(src, n, db.labels, j)
  }

  /** The source label finds its label. */
  lemma FindsItsOwn(src: seq<Label>, labels: seq<Label>, i: nat)
    requires Settled(src, labels) && i < |src|
    ensures var j := Lookup(labels, src[i].name); j >= 0 && Converged(src[i], labels[j]) && Unset(labels[j].texts)
  {
    hide SameKey, Converged, Unset;
    assert KeyServed(src[i], labels);
    var j :| 0 <= j < |labels| && SameKey(labels[j].name, src[i].name) && Converged(src[i], labels[j]);
    FindOnly(labels, src[i].name, j, |labels|);
  }

  /** A visit to an agreeing label, which only counts a skip if the source label repeats a key. */
  lemma VisitAgreeing(p: Progress, s: Label, rank: nat -> nat, run: Run)
    requires Shaped(p) && !p.skipAll && Lookup(p.labels, s.name) >= 0
    requires var d := p.labels[Lookup(p.labels, s.name)]; Converged(s, d) && Unset(d.texts)
    ensures var skip := Bump(!DistinctKeys(s.texts));
            Visit(p, s, rank, run) == p.(done := p.done[Lookup(p.labels, s.name) := true],
                                         info := p.info.(skippedLabels := p.info.skippedLabels + skip,
                                                         changes := p.info.changes + skip))
  {
    hide UpdateLabel, DistinctKeys, Converged, Unset, FindLabel;
    var j, mode := Lookup(p.labels, s.name), ModeFor(p, run);
    if DistinctKeys(s.texts) {
      AgreeingLabelIsIdle(s, p.labels[j], rank, mode, p.asked);
    } else {
      RepeatedKeyIsFatal(s, p.labels[j], rank, mode, p.asked);
    }
    assert p.obsolete + [] == p.obsolete && p.labels[j := p.labels[j]] == p.labels;
  }

  lemma RestVisit(src: seq<Label>, n: nat, db: Db, p: Progress, rank: nat -> nat, run: Run)
    requires n < |src| && Shaped(p) && AtRest(src, n, db, p) && Settled(src, db.labels)
    ensures AtRest(src, n + 1, db, Visit(p, src[n], rank, run))
  {
    hide Visit, Lookup, DistinctKeys, Converged, Settled, Unset, Reached;
    FindsItsOwn(src, db.labels, n);
    VisitAgreeing(p, src[n], rank, run);
    DoneStep(src, n, db.labels, p.done, Visit(p, src[n], rank, run).done);
  }

  lemma {:induction false} RestVisits(src: seq<Label>, n: nat, db: Db, ranks: seq<nat -> nat>, run: Run)
    requires n <= |src| == |ranks| && Settled(src, db.labels)
    ensures AtRest(src, n, db, VisitAll(src, n, db, ranks, run))
  {
    hide Visit, Settled;
    if n > 0 {
      hide AtRest;
      RestVisits(src, n - 1, db, ranks, run);
      RestVisit(src, n - 1, db, VisitAll(src, n - 1, db, ranks, run), ranks[n - 1], run);
    }
  }

  lemma {:induction false} NothingSwept(labels: seq<Label>, done: seq<bool>, n: nat)
    requires n <= |labels| == |done| && forall j | 0 <= j < n :: done[j]
    ensures TextsOf(labels, done, false, n) == [] && SweepInfo(labels, done, n) == NO_INFO
  {
    if n > 0 { NothingSwept(labels, done, n - 1); }
  }

  lemma SettledStays(src: seq<Label>, db: Db, ranks: seq<nat -> nat>, run: Run)
    requires |src| == |ranks| && Settled(src, db.labels)
    ensures UpdateDb(src, db, ranks, run) == DbOutcome(db, OnlySkips(Repeaters(src, |src|)), 0)
  {
    hide Visit, Unset, KeyServed, SameKey;
    RestVisits(src, |src|, db, ranks, run);
    var p, n := VisitAll(src, |src|, db, ranks, run), |db.labels|;
    forall j | 0 <= j < n ensures p.done[j] {
      assert KeyWanted(db.labels[j], src);
      ReachedIsWanted(src, db.labels, j);
    }
    NothingSwept(p.labels, p.done, n);
    SelectAll(p.labels, p.done, true, n);
    assert p.labels[..n] == p.labels && p.obsolete + [] == p.obsolete;
  }

  /**
   * Straight after a complete update any further run with the same source, update or check, asks
   * nothing and leaves the database exactly as it is, marks included. All it counts is a skip for
   * each source label that repeats a text key.
   */
  lemma SecondRunIsIdle(src: seq<Label>, dst: Db, ranks: seq<nat -> nat>, run: Run,
                        ranks': seq<nat -> nat>, run': Run)
    requires |ranks| == |src| == |ranks'| && DistinctNames(src) && run.update
    requires run.multiText || forall j | 0 <= j < |dst.labels| :: |dst.labels[j].texts| <= 1
    requires UpdateDb(src, dst, ranks, run).info.skippedLabels == 0
    ensures var db := UpdateDb(src, dst, ranks, run).db;
            UpdateDb(src, db, ranks', run') == DbOutcome(db, OnlySkips(Repeaters(src, |src|)), 0)
  {
    hide *;
    CompleteIsSettled(src, dst, ranks, run);
    SettledStays(src, UpdateDb(src, dst, ranks, run).db, ranks', run');
  }

  lemma {:induction false} NoRepeaters(src: seq<Label>, n: nat)
    requires n <= |src|
    ensures Repeaters(src, n) == 0 <==> forall i | 0 <= i < n :: DistinctKeys(src[i].texts)
  {
    hide DistinctKeys;
    if n > 0 { NoRepeaters(src, n - 1); }
  }
}
