/**
 * When an update moves only old texts to the obsolete list although several source labels are one
 * key: exactly, for every destination and every user.
 */
module BabylonChains {
  import opened Options
  import opened TextKeys
  import opened Selections
  import opened BabylonLabel
  import opened BabylonLabelLaws
  import opened BabylonDatabase
  import opened BabylonDatabaseLaws
  import opened BabylonConservation

  // ---------------------------------------------------------------------------------------
  // At most one text
  // ---------------------------------------------------------------------------------------

  /** In single-text mode every label has at most one text. */
  predicate Slim(labels: seq<Label>, multiText: bool) {
    multiText || forall j | 0 <= j < |labels| :: |labels[j].texts| <= 1
  }

  lemma ConvergedSize(s: Label, d: Label)
    requires Converged(s, d)
    ensures |d.texts| == |s.texts|
  {
    assert |multiset(Views(s.texts))| == |s.texts| && |multiset(Views(d.texts))| == |d.texts|;
  }

  /** In single-text mode a label gets no second text. */
  lemma UpdateStaysSlim(s: Label, d: Label, rank: nat -> nat, mode: Mode, asked: nat)
    requires |s.texts| <= 1 && |d.texts| <= 1
    ensures |UpdateLabel(s, d, rank, mode, asked).dest.texts| <= 1
  {
    hide UpdateLabel, Converged;
    var r := UpdateLabel(s, d, rank, mode, asked);
    if r.code != Ok {
      SkipIsHarmless(s, d, rank, mode, asked);
      assert |Unmarked(r.dest.texts)| == |Unmarked(d.texts)|;
    } else if mode.update {
      UpdateConverges(s, d, rank, mode, asked);
      ConvergedSize(s, r.dest);
    } else {
      DryRunClearsMarks(s, d, rank, mode, asked);
    }
  }

  lemma VisitStaysSlim(p: Progress, s: Label, rank: nat -> nat, run: Run)
    requires Shaped(p) && Slim(p.labels, run.multiText) && (run.multiText || |s.texts| <= 1)
    ensures Slim(Visit(p, s, rank, run).labels, run.multiText)
  {
    hide UpdateLabel;
    var j := Lookup(p.labels, s.name);
    if j >= 0 && !run.multiText { UpdateStaysSlim(s, p.labels[j], rank, ModeFor(p, run), p.asked); }
  }

  lemma {:induction false} VisitsStaySlim(src: seq<Label>, n: nat, dst: Db, ranks: seq<nat -> nat>, run: Run)
    requires n <= |src| == |ranks| && Slim(dst.labels, run.multiText) && Slim(src, run.multiText)
    ensures Slim(VisitAll(src, n, dst, ranks, run).labels, run.multiText)
  {
    hide Visit;
    if n > 0 {
      VisitsStaySlim(src, n - 1, dst, ranks, run);
      VisitStaysSlim(VisitAll(src, n - 1, dst, ranks, run), src[n - 1], ranks[n - 1], run);
    }
  }

  // ---------------------------------------------------------------------------------------
  // A source label against a destination label that agrees with an earlier one
  // ---------------------------------------------------------------------------------------

  /** s repeats a key that c holds: a fatal error. */
  predicate Refused(s: Label, c: Label) {
    exists i, k | 0 <= i < k < |s.texts| :: SameKey(s.texts[i].str, s.texts[k].str) && HasKey(c.texts, s.texts[i].str)
  }

  /** The keys of c are distinct, and s has them all. */
  predicate Covers(s: Label, c: Label) {
    DistinctKeys(c.texts) && forall j | 0 <= j < |c.texts| :: HasKey(s.texts, c.texts[j].str)
  }

  lemma SameHolding(c: Label, d: Label, key: string)
    requires Converged(c, d)
    ensures HasKey(c.texts, key) <==> HasKey(d.texts, key)
  {
    hide SameKey, Converged;
    if HasKey(c.texts, key) {
      var i :| 0 <= i < |c.texts| && SameKey(c.texts[i].str, key);
      var j := ViewInDest(c, d, i);
      assert d.texts[j].str == c.texts[i].str;
    }
    if HasKey(d.texts, key) {
      var j :| 0 <= j < |d.texts| && SameKey(d.texts[j].str, key);
      var i := ViewInSource(c, d, j);
      assert c.texts[i].str == d.texts[j].str;
    }
  }

  /** A matched pair is found from both sides. */
  lemma MatchedPair(s: seq<Text>, d: seq<Text>, rank: nat -> nat, j: nat) returns (i: nat)
    requires var m := MatchEqual(s, d, rank, |s|); m.Some? && j < |d| && m.value.dst[j] >= 0
    ensures i < |s| && MatchEqual(s, d, rank, |s|).value.src[i] == j == Find(d, rank, s[i].str, |d|)
    ensures SameKey(d[j].str, s[i].str)
  {
    MatchEqualIsFind(s, d, rank, |s|);
    i := MatchEqual(s, d, rank, |s|).value.dst[j];
  }

  /** Source texts that are matched find different texts. */
  lemma MatchedApart(s: seq<Text>, d: seq<Text>, rank: nat -> nat, i: nat, k: nat)
    requires MatchEqual(s, d, rank, |s|).Some? && i < k < |s| && Find(d, rank, s[i].str, |d|) >= 0
    ensures Find(d, rank, s[i].str, |d|) != Find(d, rank, s[k].str, |d|)
  {
    hide Find, MatchEqual;
    MatchEqualIsFind(s, d, rank, |s|);
    var m := MatchEqual(s, d, rank, |s|).value;
    assert m.dst[m.src[i]] == i;
    if m.src[k] >= 0 { assert m.dst[m.src[k]] == k; }
  }

  lemma MatchedIsNotRefused(s: Label, d: Label, rank: nat -> nat)
    requires MatchEqual(s.texts, d.texts, rank, |s.texts|).Some?
    ensures !Refused(s, d)
  {
    hide SameKey, MatchEqual, Find;
    forall i, k | 0 <= i < k < |s.texts| && SameKey(s.texts[i].str, s.texts[k].str)
      ensures !HasKey(d.texts, s.texts[i].str)
    {
      FindByKey(d.texts, rank, s.texts[i].str, s.texts[k].str, |d.texts|);
      forall j | 0 <= j < |d.texts| ensures !SameKey(d.texts[j].str, s.texts[i].str) {
        if SameKey(d.texts[j].str, s.texts[i].str) {
          FindSomething(d.texts, rank, s.texts[i].str, |d.texts|, j);
          MatchedApart(s.texts, d.texts, rank, i, k);
        }
      }
    }
  }

  /** Equal strings fail to pair up exactly when the source label repeats a key the destination label holds. */
  lemma RefusedIsFatal(s: Label, d: Label, rank: nat -> nat)
    ensures MatchEqual(s.texts, d.texts, rank, |s.texts|).None? <==> Refused(s, d)
  {
    var first := MatchEqual(s.texts, d.texts, rank, |s.texts|);
    if first.Some? {
      MatchedIsNotRefused(s, d, rank);
    } else {
      MatchEqualIsFind(s.texts, d.texts, rank, |s.texts|);
      CollisionIsRefused(s, d, rank);
    }
  }

  lemma CollisionIsRefused(s: Label, d: Label, rank: nat -> nat)
    requires Collision(s.texts, d.texts, rank, |s.texts|)
    ensures Refused(s, d)
  {
    var i, k :| 0 <= i < k < |s.texts| && Find(d.texts, rank, s.texts[i].str, |d.texts|) >= 0
      && Find(d.texts, rank, s.texts[i].str, |d.texts|) == Find(d.texts, rank, s.texts[k].str, |d.texts|);
    assert SameKey(s.texts[i].str, s.texts[k].str);
  }

  /** What matters of the label a destination label agrees with. */
  lemma RefusedAlike(s: Label, c: Label, d: Label)
    requires Converged(c, d)
    ensures Refused(s, c) <==> Refused(s, d)
  {
    hide SameKey, Converged, HasKey;
    forall i | 0 <= i < |s.texts| ensures HasKey(c.texts, s.texts[i].str) <==> HasKey(d.texts, s.texts[i].str) {
      SameHolding(c, d, s.texts[i].str);
    }
  }

  /** Every text of d is matched, exactly when s covers the label d agrees with. */
  lemma CoveredIsMatched(s: Label, c: Label, d: Label, rank: nat -> nat)
    requires Converged(c, d) && !Refused(s, c)
    ensures var m := MatchEqual(s.texts, d.texts, rank, |s.texts|); m.Some? && (m.value.AllDstMatched() <==> Covers(s, c))
  {
    hide Converged, Refused, MatchEqual;
    RefusedAlike(s, c, d);
    RefusedIsFatal(s, d, rank);
    var m := MatchEqual(s.texts, d.texts, rank, |s.texts|).value;
    if Covers(s, c) {
      forall j | 0 <= j < |d.texts| ensures m.dst[j] >= 0 { CoveredText(s, c, d, rank, j); }
    }
    if m.AllDstMatched() {
      forall j | 0 <= j < |c.texts| ensures HasKey(s.texts, c.texts[j].str) {
        var l := ViewInDest(c, d, j);
        var i := MatchedPair(s.texts, d.texts, rank, l);
      }
      MatchedIsDistinct(s, c, d, rank);
    }
  }

  lemma CoveredText(s: Label, c: Label, d: Label, rank: nat -> nat, j: nat)
    requires Converged(c, d) && Covers(s, c) && j < |d.texts|
    requires MatchEqual(s.texts, d.texts, rank, |s.texts|).Some?
    ensures MatchEqual(s.texts, d.texts, rank, |s.texts|).value.dst[j] >= 0
  {
    hide Converged;
    MatchEqualIsFind(s.texts, d.texts, rank, |s.texts|);
    var l := ViewInSource(c, d, j);
    assert HasKey(s.texts, c.texts[l].str);
    var i :| 0 <= i < |s.texts| && SameKey(s.texts[i].str, c.texts[l].str);
    FindSomething(d.texts, rank, s.texts[i].str, |d.texts|, j);
    OneKeyOnePlace(c, d, Find(d.texts, rank, s.texts[i].str, |d.texts|), j);
  }

  /** Two places of c are two places of d. */
  lemma PlacesInDest(c: Label, d: Label, i: nat, k: nat) returns (j: nat, l: nat)
    requires Converged(c, d) && i < k < |c.texts|
    ensures j != l && j < |d.texts| && l < |d.texts|
    ensures d.texts[j].str == c.texts[i].str && d.texts[l].str == c.texts[k].str
  {
    j := ViewInDest(c, d, i);
    l := ViewInDest(c, d, k);
    if j == l {
      var v := Views(c.texts)[i];
      TwoPlacesCount(Views(c.texts), i, k);
      TwoPlaces(Views(d.texts), v);
      j, l :| 0 <= j < l < |Views(d.texts)| && Views(d.texts)[j] == v && Views(d.texts)[l] == v;
    }
  }

  lemma MatchedIsDistinct(s: Label, c: Label, d: Label, rank: nat -> nat)
    requires Converged(c, d) && MatchEqual(s.texts, d.texts, rank, |s.texts|).Some?
    requires MatchEqual(s.texts, d.texts, rank, |s.texts|).value.AllDstMatched()
    ensures DistinctKeys(c.texts)
  {
    hide Converged, MatchEqual;
    forall i, k | 0 <= i < k < |c.texts| ensures !SameKey(c.texts[i].str, c.texts[k].str) {
      var j, l := PlacesInDest(c, d, i, k);
      var a := MatchedPair(s.texts, d.texts, rank, j);
      var b := MatchedPair(s.texts, d.texts, rank, l);
      if SameKey(c.texts[i].str, c.texts[k].str) {
        FindByKey(d.texts, rank, s.texts[a].str, s.texts[b].str, |d.texts|);
      }
    }
  }

  /** A refused label leaves the destination label alone. */
  lemma RefusedVisit(s: Label, c: Label, d: Label, rank: nat -> nat, mode: Mode, asked: nat)
    requires Converged(c, d) && Refused(s, c)
    ensures UpdateLabel(s, d, rank, mode, asked) == Outcome(Fatal, d, [], NO_INFO, asked)
  {
    hide Refused, Converged;
    RefusedAlike(s, c, d);
    RefusedIsFatal(s, d, rank);
  }

  /** A label that covers it takes its place without a question, and drops nothing. */
  lemma CoveringVisit(s: Label, c: Label, d: Label, rank: nat -> nat, mode: Mode, asked: nat)
    requires Converged(c, d) && !Refused(s, c) && Covers(s, c) && mode.update
    ensures var u := UpdateLabel(s, d, rank, mode, asked); u.code == Ok && u.obsolete == [] && Converged(s, u.dest)
  {
    hide Refused, Converged, Covers, MatchEqual;
    CoveredIsMatched(s, c, d, rank);
    var w := Session(MatchEqual(s.texts, d.texts, rank, |s.texts|).value, d.texts, asked);
    AskNothing(w, 0, mode);
    FinishConverges(s, d, w, mode);
    SelectAll(RefreshAll(s.texts, d.texts, w.m.dst, true), w.m.DstMarks(), true, |d.texts|);
  }

  /** The user finds no match for anything from the next dialog on. */
  ghost predicate FindsNoMatch(answers: nat -> Answer, asked: nat) {
    forall k: nat | k >= asked :: answers(k) == NoMatch
  }

  lemma {:induction false} NoMatchKeeps(w: Session, i: nat, mode: Mode)
    requires i <= |w.m.src| && |w.m.dst| == |w.d|
    requires mode.update && !mode.skip && mode.multiText && FindsNoMatch(mode.answers, w.asked)
    ensures var r := AskFrom(w, i, mode); r.0 == Ok && r.1.m == w.m && r.1.d == w.d
    decreases |w.m.src| - i
  {
    if i < |w.m.src| && !w.m.AllDstMatched() {
      if w.m.src[i] >= 0 { NoMatchKeeps(w, i + 1, mode); } else { NoMatchKeeps(w.(asked := w.asked + 1), i + 1, mode); }
    }
  }

  /** With that user every label that is not refused is merged. */
  lemma NoMatchVisit(s: Label, d: Label, rank: nat -> nat, mode: Mode, asked: nat) returns (w: Session)
    requires mode.update && !mode.skip && mode.multiText && FindsNoMatch(mode.answers, asked) && !Refused(s, d)
    ensures MatchEqual(s.texts, d.texts, rank, |s.texts|) == Some(w.m) && w.d == d.texts && w.m.Paired(|s.texts|, |w.d|)
    ensures var u := UpdateLabel(s, d, rank, mode, asked); u == Finish(s, d, w, mode) && Converged(s, u.dest)
  {
    hide Refused, Converged, Merged, Dropped, Tally, AskFrom;
    RefusedIsFatal(s, d, rank);
    var start := Session(MatchEqual(s.texts, d.texts, rank, |s.texts|).value, d.texts, asked);
    NoMatchKeeps(start, 0, mode);
    w := AskFrom(start, 0, mode).1;
    UpdateConverges(s, d, rank, mode, asked);
  }

  /** A label that does not cover it can drop a text that agrees with a text of c. */
  lemma UncoveringVisit(s: Label, c: Label, d: Label, rank: nat -> nat, mode: Mode, asked: nat) returns (t: Text, i: nat)
    requires mode.update && !mode.skip && mode.multiText && FindsNoMatch(mode.answers, asked)
    requires Converged(c, d) && !Refused(s, c) && !Covers(s, c)
    ensures t in UpdateLabel(s, d, rank, mode, asked).obsolete && i < |c.texts| && t.str == c.texts[i].str
  {
    hide Refused, Converged, Covers, MatchEqual;
    RefusedAlike(s, c, d);
    CoveredIsMatched(s, c, d, rank);
    var w := NoMatchVisit(s, d, rank, mode, asked);
    var j :| 0 <= j < |d.texts| && w.m.dst[j] < 0;
    var refreshed, marks := RefreshAll(s.texts, d.texts, w.m.dst, true), w.m.DstMarks();
    SelectIsWhere(refreshed, marks, false, |marks|);
    var k := WhereFindsAll(marks, false, |marks|, j);
    t := d.texts[j];
    assert Select(refreshed, marks, false, |marks|)[k] == t;
    i := ViewInSource(c, d, j);
  }

  // ---------------------------------------------------------------------------------------
  // Chains of source labels of one key
  // ---------------------------------------------------------------------------------------

  /** All earlier labels of its key have texts, so the user can skip them. */
  predicate CanStart(src: seq<Label>, i: nat)
    requires i < |src|
  {
    forall l | 0 <= l < i && SameKey(src[l].name, src[i].name) :: src[l].texts != []
  }

  /**
   * Source label c can be the one that the destination label of its key agrees with after n source
   * labels: it was merged at its turn, into a label the user had kept until then or behind another
   * one, and all later ones of its key were refused, or skipped when there is one text to a label.
   */
  predicate Possible(src: seq<Label>, multiText: bool, n: nat, c: nat)
    requires n <= |src|
    decreases n
  {
    c < n &&
    if c == n - 1 then
      CanStart(src, c)
      || exists b | 0 <= b < c ::
           Possible(src, multiText, c, b) && SameKey(src[c].name, src[b].name) && !Refused(src[c], src[b])
    else
      && Possible(src, multiText, n - 1, c)
      && (SameKey(src[n - 1].name, src[c].name) ==> !multiText || Refused(src[n - 1], src[c]))
  }

  /** s drops no text of a label that agrees with c. */
  predicate Spares(s: Label, c: Label, multiText: bool) {
    if multiText then Refused(s, c) || Covers(s, c) else s.texts != [] || c.texts == []
  }

  /** Whatever a destination label can agree with, the next source label of its key spares it. */
  predicate Safe(src: seq<Label>, multiText: bool) {
    forall n, c | 0 <= c < n < |src| && Possible(src, multiText, n, c) && SameKey(src[n].name, src[c].name) ::
      Spares(src[n], src[c], multiText)
  }

  /** Destination label j has the key of source label c and agrees with it after n source labels. */
  predicate At(src: seq<Label>, multiText: bool, n: nat, labels: seq<Label>, j: nat, c: nat)
    requires n <= |src|
  {
    c < n && Possible(src, multiText, n, c) && Lookup(labels, src[c].name) == j < |labels| && Converged(src[c], labels[j])
  }

  predicate Agrees(src: seq<Label>, multiText: bool, n: nat, labels: seq<Label>, j: nat)
    requires n <= |src|
  {
    exists c | 0 <= c < n :: At(src, multiText, n, labels, j, c)
  }

  /**
   * After n source labels: touched labels agree with a source label, and the source labels of the
   * key of any other all have texts.
   */
  predicate Chained(src: seq<Label>, multiText: bool, n: nat, p: Progress, touched: seq<bool>)
    requires n <= |src| && Shaped(p)
  {
    && |touched| == |p.labels|
    && (forall j | 0 <= j < |touched| && touched[j] :: p.done[j] && Agrees(src, multiText, n, p.labels, j))
    && forall l | 0 <= l < n :: FoundOrSkipped(src[l], p.labels, touched)
  }

  predicate FoundOrSkipped(s: Label, labels: seq<Label>, touched: seq<bool>)
    requires |touched| == |labels|
  {
    var j := Lookup(labels, s.name);
    j >= 0 && (!touched[j] ==> s.texts != [])
  }

  /** Two names that find one label are one key. */
  lemma OneKey(labels: seq<Label>, a: string, b: string)
    requires Lookup(labels, a) == Lookup(labels, b) >= 0
    ensures SameKey(a, b)
  {
    assert SameKey(labels[Lookup(labels, a)].name, a) && SameKey(labels[Lookup(labels, b)].name, b);
  }

  /** Source label n has dealt with label j; the other labels are as before. */
  lemma ChainedNext(src: seq<Label>, multiText: bool, n: nat, p: Progress, touched: seq<bool>,
                    q: Progress, now: seq<bool>, j: nat)
    requires n < |src| && Shaped(p) && Shaped(q) && Chained(src, multiText, n, p, touched)
    requires NamesExtend(p.labels, q.labels) && |now| == |q.labels| && Lookup(q.labels, src[n].name) == j
    requires |q.labels| > |p.labels| ==> |q.labels| == |p.labels| + 1 && j == |p.labels|
    requires forall k | 0 <= k < |p.labels| && k != j ::
               now[k] == touched[k] && q.labels[k] == p.labels[k] && q.done[k] == p.done[k]
    requires now[j] ==> q.done[j] && Agrees(src, multiText, n + 1, q.labels, j)
    requires !now[j] ==> src[n].texts != [] && j < |p.labels| && !touched[j]
    ensures Chained(src, multiText, n + 1, q, now)
  {
    hide SameKey, Converged, CanStart, Refused;
    forall k | 0 <= k < |now| && now[k] ensures q.done[k] && Agrees(src, multiText, n + 1, q.labels, k) {
      if k != j {
        var c :| 0 <= c < n && At(src, multiText, n, p.labels, k, c);
        LookupExtends(p.labels, q.labels, src[c].name);
        if SameKey(src[n].name, src[c].name) { LookupByKey(q.labels, src[n].name, src[c].name, |q.labels|); }
        assert At(src, multiText, n + 1, q.labels, k, c);
      }
    }
    forall l | 0 <= l < n + 1 ensures FoundOrSkipped(src[l], q.labels, now) {
      if l < n {
        assert FoundOrSkipped(src[l], p.labels, touched);
        LookupExtends(p.labels, q.labels, src[l].name);
      }
    }
  }

  /** A destination label that no source label has touched so far, or none at all. */
  lemma UntouchedStarts(src: seq<Label>, multiText: bool, n: nat, p: Progress, touched: seq<bool>)
    requires n < |src| && Shaped(p) && Chained(src, multiText, n, p, touched)
    requires var j := Lookup(p.labels, src[n].name); j < 0 || !touched[j]
    ensures Possible(src, multiText, n + 1, n)
  {
    hide SameKey, At;
    forall l | 0 <= l < n && SameKey(src[l].name, src[n].name) ensures src[l].texts != [] {
      LookupByKey(p.labels, src[l].name, src[n].name, |p.labels|);
      assert FoundOrSkipped(src[l], p.labels, touched);
    }
  }

  // ---------------------------------------------------------------------------------------
  // Safe sources keep old texts
  // ---------------------------------------------------------------------------------------

  /** Replacing a touched label leaves the texts of the others alone. */
  lemma {:induction false} TextsOfAside(labels: seq<Label>, marks: seq<bool>, j: nat, l: Label, n: nat)
    requires n <= |labels| == |marks| && j < |labels| && marks[j]
    ensures TextsOf(labels[j := l], marks, false, n) == TextsOf(labels, marks, false, n)
  {
    if n > 0 { TextsOfAside(labels, marks, j, l, n - 1); }
  }

  /** Replacing texts by texts that differ in marks alone. */
  lemma {:induction false} TextsOfUnmarked(labels: seq<Label>, marks: seq<bool>, j: nat, l: Label, n: nat)
    requires n <= |labels| == |marks| && j < |labels| && Unmarked(l.texts) == Unmarked(labels[j].texts)
    ensures Unmarked(TextsOf(labels[j := l], marks, false, n)) == Unmarked(TextsOf(labels, marks, false, n))
  {
    hide Unmarked;
    if n > 0 {
      TextsOfUnmarked(labels, marks, j, l, n - 1);
      UnmarkedSum(TextsOf(labels, marks, false, n - 1), if marks[n - 1] == false then labels[n - 1].texts else []);
      UnmarkedSum(TextsOf(labels[j := l], marks, false, n - 1),
                  if marks[n - 1] == false then labels[j := l][n - 1].texts else []);
    }
  }

  /** More marks, fewer texts. */
  lemma {:induction false} FewerTexts(labels: seq<Label>, touched: seq<bool>, done: seq<bool>, n: nat)
    requires n <= |labels| == |touched| == |done| && forall j | 0 <= j < |touched| && touched[j] :: done[j]
    ensures multiset(Unmarked(TextsOf(labels, done, false, n))) <= multiset(Unmarked(TextsOf(labels, touched, false, n)))
  {
    hide Unmarked;
    if n > 0 {
      FewerTexts(labels, touched, done, n - 1);
      UnmarkedSum(TextsOf(labels, done, false, n - 1), if done[n - 1] == false then labels[n - 1].texts else []);
      UnmarkedSum(TextsOf(labels, touched, false, n - 1), if touched[n - 1] == false then labels[n - 1].texts else []);
      NothingUnmarked();
    }
  }

  lemma NothingUnmarked()
    ensures multiset(Unmarked([])) == multiset{}
  {
  }

  /** The destination lacks the label: it is cloned. */
  lemma ChainNew(src: seq<Label>, n: nat, p: Progress, touched: seq<bool>, rank: nat -> nat, run: Run,
                 moved: seq<Text>, was: seq<Text>)
    requires n < |src| && Shaped(p) && Chained(src, run.multiText, n, p, touched) && Parts(p.labels, touched, moved, was)
    requires run.update && Lookup(p.labels, src[n].name) < 0
    ensures var q, now := Visit(p, src[n], rank, run), touched + [true];
            q.obsolete == p.obsolete && Chained(src, run.multiText, n + 1, q, now) && Parts(q.labels, now, moved, was)
  {
    hide SameKey, Converged, Possible, Chained, Unmarked, FindLabel;
    var s, q, size := src[n], Visit(p, src[n], rank, run), |p.labels|;
    ChainedSizes(src, run.multiText, n, p, touched);
    UntouchedStarts(src, run.multiText, n, p, touched);
    CloneConverged(s);
    SameKeyAsItself(s.name);
    AppendedIsFound(p.labels, CloneLabel(s), s.name);
    assert At(src, run.multiText, n + 1, q.labels, size, n);
    ChainedNext(src, run.multiText, n, p, touched, q, touched + [true], size);
    TextsOfPush(p.labels, touched, CloneLabel(s), size);
    assert TextsOf(p.labels, touched, false, size) + [] == TextsOf(p.labels, touched, false, size);
  }

  lemma ChainedSizes(src: seq<Label>, multiText: bool, n: nat, p: Progress, touched: seq<bool>)
    requires n <= |src| && Shaped(p) && Chained(src, multiText, n, p, touched)
    ensures |touched| == |p.labels| == |p.done|
  {
  }

  lemma AppendedIsFound(labels: seq<Label>, l: Label, name: string)
    requires Lookup(labels, name) < 0 && SameKey(l.name, name)
    ensures Lookup(labels + [l], name) == |labels|
  {
    hide SameKey;
    LookupStays(labels, labels + [l], name, |labels|);
  }

  /** The first visit that counts: the label is merged, or the user skips it. */
  lemma ChainFirst(src: seq<Label>, n: nat, p: Progress, touched: seq<bool>, rank: nat -> nat, run: Run,
                   moved: seq<Text>, was: seq<Text>) returns (now: seq<bool>, more: seq<Text>)
    requires n < |src| && Shaped(p) && Chained(src, run.multiText, n, p, touched) && Parts(p.labels, touched, moved, was)
    requires run.update && Slim(p.labels, run.multiText)
    requires var j := Lookup(p.labels, src[n].name); j >= 0 && !touched[j]
    ensures var q := Visit(p, src[n], rank, run);
            && q.obsolete == p.obsolete + more
            && Chained(src, run.multiText, n + 1, q, now) && Parts(q.labels, now, moved + more, was)
  {
    hide SameKey, Converged, Possible, Chained, Unmarked, FindLabel, UpdateLabel;
    var s, q, j, size := src[n], Visit(p, src[n], rank, run), Lookup(p.labels, src[n].name), |p.labels|;
    var d, mode := p.labels[j], ModeFor(p, run);
    var u := UpdateLabel(s, d, rank, mode, p.asked);
    ChainedSizes(src, run.multiText, n, p, touched);
    UpdateKeepsName(s, d, rank, mode, p.asked);
    LookupExtends(p.labels, q.labels, s.name);
    more := u.obsolete;
    if u.code == Ok {
      now := touched[j := true];
      UntouchedStarts(src, run.multiText, n, p, touched);
      UpdateConverges(s, d, rank, mode, p.asked);
      assert At(src, run.multiText, n + 1, q.labels, j, n);
      ChainedNext(src, run.multiText, n, p, touched, q, now, j);
      MovedFromLabel(s, d, rank, mode, p.asked);
      TextsOfTaken(p.labels, touched, j, u.dest, size);
      UnmarkedSum(moved, more);
      PartsMove(multiset(Unmarked(TextsOf(p.labels, touched, false, size))),
                multiset(Unmarked(TextsOf(q.labels, now, false, size))),
                multiset(Unmarked(d.texts)), multiset(Unmarked(more)), multiset(Unmarked(moved)), multiset(Unmarked(was)));
    } else {
      now := touched;
      if s.texts == [] { NoTextsNoSkip(s, d, rank, mode, p.asked); }
      ChainedNext(src, run.multiText, n, p, touched, q, now, j);
      SkipIsHarmless(s, d, rank, mode, p.asked);
      TextsOfUnmarked(p.labels, touched, j, u.dest, size);
      assert moved + more == moved;
    }
  }

  /** In single-text mode a user who does not skip matches the only text to the only text. */
  lemma LoneSession(s: Label, d: Label, rank: nat -> nat, mode: Mode, asked: nat) returns (w: Session)
    requires !mode.multiText && |s.texts| == |d.texts| == 1 && UpdateLabel(s, d, rank, mode, asked).code == Ok
    ensures w.m.Fits(1, |w.d|) && |w.d| == 1 && w.m.AllDstMatched()
    ensures UpdateLabel(s, d, rank, mode, asked) == Finish(s, d, w, mode)
  {
    hide MatchEqual, Finish, Where;
    var m := MatchEqual(s.texts, d.texts, rank, 1).value;
    var start := Session(m, d.texts, asked);
    AskKeepsFit(start, 0, mode, 1, 1);
    w := AskFrom(start, 0, mode).1;
    if !m.AllDstMatched() {
      assert m.src[0] < 0;
      var target, mark :| Dialog(mode.answers(asked), false, m.DstMarks()) == Go(target, mark);
      assert w == AskFrom(Settle(start, 0, target, mark), 1, mode).1;
    }
  }

  lemma LoneTextStays(s: Label, d: Label, rank: nat -> nat, mode: Mode, asked: nat)
    requires mode.update && !mode.multiText && |s.texts| == |d.texts| == 1 && UpdateLabel(s, d, rank, mode, asked).code == Ok
    ensures UpdateLabel(s, d, rank, mode, asked).obsolete == []
  {
    hide UpdateLabel, Merged, Tally;
    var w := LoneSession(s, d, rank, mode, asked);
    SelectAll(RefreshAll(s.texts, w.d, w.m.dst, true), w.m.DstMarks(), true, 1);
  }

  lemma NothingMovedFromNothing(s: Label, d: Label, rank: nat -> nat, mode: Mode, asked: nat)
    requires mode.update && d.texts == []
    ensures UpdateLabel(s, d, rank, mode, asked).obsolete == []
  {
    hide UpdateLabel;
    var gone := UpdateLabel(s, d, rank, mode, asked).obsolete;
    MovedFromLabel(s, d, rank, mode, asked);
    assert |multiset(Unmarked(gone))| == |gone| && multiset(Unmarked(d.texts)) == multiset{};
  }

  /** One text to a label: what a visit leaves agrees with s or, when the user skips, with c. */
  lemma SparedLoneText(s: Label, c: Label, d: Label, rank: nat -> nat, mode: Mode, asked: nat)
    requires mode.update && !mode.multiText && Converged(c, d) && Spares(s, c, false) && |s.texts| <= 1 && |d.texts| <= 1
    ensures var u := UpdateLabel(s, d, rank, mode, asked);
            u.obsolete == [] && !Refused(s, c) && (Converged(s, u.dest) || Converged(c, u.dest))
  {
    hide UpdateLabel, Converged;
    var u := UpdateLabel(s, d, rank, mode, asked);
    ConvergedSize(c, d);
    if u.code == Ok {
      UpdateConverges(s, d, rank, mode, asked);
      if d.texts == [] { NothingMovedFromNothing(s, d, rank, mode, asked); } else { LoneTextStays(s, d, rank, mode, asked); }
    } else {
      SkipIsHarmless(s, d, rank, mode, asked);
      MarksDoNotMatter(c, d, u.dest);
    }
  }

  /** A visit that is spared drops nothing, and leaves a label that agrees with s or still with c. */
  lemma SparedVisit(s: Label, c: Label, d: Label, rank: nat -> nat, mode: Mode, asked: nat)
    requires mode.update && Converged(c, d) && Spares(s, c, mode.multiText)
    requires mode.multiText || (|s.texts| <= 1 && |d.texts| <= 1)
    ensures var u := UpdateLabel(s, d, rank, mode, asked);
            && u.obsolete == []
            && ((Converged(s, u.dest) && !Refused(s, c)) || (Converged(c, u.dest) && (!mode.multiText || Refused(s, c))))
  {
    hide UpdateLabel, Converged, Refused, Covers;
    if !mode.multiText {
      SparedLoneText(s, c, d, rank, mode, asked);
    } else if Refused(s, c) {
      RefusedVisit(s, c, d, rank, mode, asked);
    } else {
      CoveringVisit(s, c, d, rank, mode, asked);
    }
  }

  lemma FoundVisit(p: Progress, s: Label, rank: nat -> nat, run: Run, j: nat)
    requires Shaped(p) && Lookup(p.labels, s.name) == j
    ensures var q, u := Visit(p, s, rank, run), UpdateLabel(s, p.labels[j], rank, ModeFor(p, run), p.asked);
            && q.labels == p.labels[j := u.dest] && q.done == p.done[j := true] && q.obsolete == p.obsolete + u.obsolete
            && u.dest.name == p.labels[j].name
  {
    hide UpdateLabel, FindLabel;
    UpdateKeepsName(s, p.labels[j], rank, ModeFor(p, run), p.asked);
  }

  /** A later visit: a safe source drops nothing. */
  lemma ChainAgain(src: seq<Label>, n: nat, p: Progress, touched: seq<bool>, rank: nat -> nat, run: Run,
                   moved: seq<Text>, was: seq<Text>)
    requires n < |src| && Shaped(p) && Chained(src, run.multiText, n, p, touched) && Parts(p.labels, touched, moved, was)
    requires run.update && Safe(src, run.multiText) && Slim(p.labels, run.multiText) && Slim(src, run.multiText)
    requires var j := Lookup(p.labels, src[n].name); j >= 0 && touched[j]
    ensures var q := Visit(p, src[n], rank, run);
            && q.obsolete == p.obsolete
            && Chained(src, run.multiText, n + 1, q, touched) && Parts(q.labels, touched, moved, was)
  {
    hide SameKey, Converged, CanStart, Refused, Spares, Unmarked, FindLabel, UpdateLabel, Visit, Parts;
    var s, q, j := src[n], Visit(p, src[n], rank, run), Lookup(p.labels, src[n].name);
    var d, mode := p.labels[j], ModeFor(p, run);
    var u := UpdateLabel(s, d, rank, mode, p.asked);
    assert Agrees(src, run.multiText, n, p.labels, j);
    var c :| 0 <= c < n && At(src, run.multiText, n, p.labels, j, c);
    OneKey(p.labels, s.name, src[c].name);
    FoundVisit(p, s, rank, run, j);
    LookupExtends(p.labels, q.labels, s.name);
    LookupExtends(p.labels, q.labels, src[c].name);
    SparedVisit(s, src[c], d, rank, mode, p.asked);
    if Converged(s, u.dest) && !Refused(s, src[c]) {
      assert At(src, run.multiText, n + 1, q.labels, j, n);
    } else {
      assert At(src, run.multiText, n + 1, q.labels, j, c);
    }
    ChainedNext(src, run.multiText, n, p, touched, q, touched, j);
    PartsAside(p.labels, touched, j, u.dest, moved, was);
    assert p.obsolete + [] == p.obsolete;
  }

  lemma PartsAside(labels: seq<Label>, touched: seq<bool>, j: nat, l: Label, moved: seq<Text>, was: seq<Text>)
    requires |labels| == |touched| && j < |labels| && touched[j] && Parts(labels, touched, moved, was)
    ensures Parts(labels[j := l], touched, moved, was)
  {
    TextsOfAside(labels, touched, j, l, |labels|);
  }

  lemma ChainVisit(src: seq<Label>, n: nat, p: Progress, touched: seq<bool>, rank: nat -> nat, run: Run,
                   moved: seq<Text>, was: seq<Text>) returns (now: seq<bool>, more: seq<Text>)
    requires n < |src| && Shaped(p) && Chained(src, run.multiText, n, p, touched) && Parts(p.labels, touched, moved, was)
    requires run.update && Safe(src, run.multiText) && Slim(p.labels, run.multiText) && Slim(src, run.multiText)
    ensures var q := Visit(p, src[n], rank, run);
            && q.obsolete == p.obsolete + more
            && Chained(src, run.multiText, n + 1, q, now) && Parts(q.labels, now, moved + more, was)
  {
    ChainedSizes(src, run.multiText, n, p, touched);
    hide *;
    var j := Lookup(p.labels, src[n].name);
    now, more := touched, [];
    assert moved + [] == moved && p.obsolete + [] == p.obsolete;
    if j < 0 {
      ChainNew(src, n, p, touched, rank, run, moved, was);
      now := touched + [true];
    } else if touched[j] {
      ChainAgain(src, n, p, touched, rank, run, moved, was);
    } else {
      now, more := ChainFirst(src, n, p, touched, rank, run, moved, was);
    }
  }

  lemma ChainStart(src: seq<Label>, multiText: bool, dst: Db)
    ensures var p, was := Start(dst), AllTexts(dst.labels, |dst.labels|);
            Chained(src, multiText, 0, p, p.done) && Parts(p.labels, p.done, [], was)
  {
    hide Unmarked;
    var was := AllTexts(dst.labels, |dst.labels|);
    UndoneTexts(dst.labels, |dst.labels|);
    UnmarkedSum(was, []);
    assert was + [] == was;
  }

  lemma {:induction false} ChainVisits(src: seq<Label>, n: nat, dst: Db, ranks: seq<nat -> nat>, run: Run)
    returns (touched: seq<bool>, moved: seq<Text>)
    requires n <= |src| == |ranks| && run.update && Safe(src, run.multiText)
    requires Slim(dst.labels, run.multiText) && Slim(src, run.multiText)
    ensures var p := VisitAll(src, n, dst, ranks, run);
            && p.obsolete == dst.obsolete + moved && Chained(src, run.multiText, n, p, touched)
            && Parts(p.labels, touched, moved, AllTexts(dst.labels, |dst.labels|))
  {
    hide Visit, Safe, Slim, Chained, Parts, AllTexts;
    if n == 0 {
      touched, moved := Start(dst).done, [];
      ChainStart(src, run.multiText, dst);
      assert dst.obsolete + [] == dst.obsolete;
    } else {
      var p := VisitAll(src, n - 1, dst, ranks, run);
      var before, past := ChainVisits(src, n - 1, dst, ranks, run);
      VisitsStaySlim(src, n - 1, dst, ranks, run);
      var more;
      touched, more := ChainVisit(src, n - 1, p, before, ranks[n - 1], run, past, AllTexts(dst.labels, |dst.labels|));
      moved := past + more;
      assert (dst.obsolete + past) + more == dst.obsolete + moved;
    }
  }

  /** What an update moves are texts of the destination, as they were up to their marks, each at most once. */
  predicate KeepsOldTexts(src: seq<Label>, dst: Db, ranks: seq<nat -> nat>, run: Run)
    requires |src| == |ranks|
  {
    multiset(Unmarked(Tail(UpdateDb(src, dst, ranks, run).db.obsolete, dst)))
    <= multiset(Unmarked(AllTexts(dst.labels, |dst.labels|)))
  }

  lemma SafeKeepsOldTexts(src: seq<Label>, dst: Db, ranks: seq<nat -> nat>, run: Run)
    requires |src| == |ranks| && run.update && Safe(src, run.multiText)
    requires Slim(dst.labels, run.multiText) && Slim(src, run.multiText)
    ensures KeepsOldTexts(src, dst, ranks, run)
  {
    hide Visit, Unmarked, Safe, Agrees, FoundOrSkipped;
    var p := VisitAll(src, |src|, dst, ranks, run);
    var touched, moved := ChainVisits(src, |src|, dst, ranks, run);
    var gone := TextsOf(p.labels, p.done, false, |p.labels|);
    FewerTexts(p.labels, touched, p.done, |p.labels|);
    assert p.obsolete + gone == dst.obsolete + (moved + gone);
    UnmarkedSum(moved, gone);
  }

  // ---------------------------------------------------------------------------------------
  // Users that agree on the dialogs of a run
  // ---------------------------------------------------------------------------------------

  predicate AnswerAlike(a: nat -> Answer, b: nat -> Answer, n: nat) {
    forall k: nat | k < n :: a(k) == b(k)
  }

  lemma {:induction false} AskAlike(w: Session, i: nat, mode: Mode, others: nat -> Answer)
    requires i <= |w.m.src| && |w.m.dst| == |w.d|
    requires AnswerAlike(mode.answers, others, AskFrom(w, i, mode).1.asked)
    ensures AskFrom(w, i, mode) == AskFrom(w, i, mode.(answers := others))
    decreases |w.m.src| - i
  {
    if i < |w.m.src| && !w.m.AllDstMatched() {
      if w.m.src[i] >= 0 {
        AskAlike(w, i + 1, mode, others);
      } else if mode.update && !mode.skip {
        AskOnlyMarks(w, i, mode);
        match Dialog(mode.answers(w.asked), mode.multiText, w.m.DstMarks())
        case Stop(_) => assert mode.answers(w.asked) == others(w.asked);
        case Go(target, mark) =>
          AskOnlyMarks(Settle(w, i, target, mark), i + 1, mode);
          assert mode.answers(w.asked) == others(w.asked);
          AskAlike(Settle(w, i, target, mark), i + 1, mode, others);
      }
    }
  }

  lemma UpdateAlike(s: Label, d: Label, rank: nat -> nat, mode: Mode, others: nat -> Answer, asked: nat)
    requires AnswerAlike(mode.answers, others, UpdateLabel(s, d, rank, mode, asked).asked)
    ensures UpdateLabel(s, d, rank, mode, asked) == UpdateLabel(s, d, rank, mode.(answers := others), asked)
  {
    hide Merged, Dropped, Tally, MatchEqual, AskFrom, AnswerAlike;
    var first := MatchEqual(s.texts, d.texts, rank, |s.texts|);
    if first.Some? { AskAlike(Session(first.value, d.texts, asked), 0, mode, others); }
  }

  lemma AskedGrows(s: Label, d: Label, rank: nat -> nat, mode: Mode, asked: nat)
    ensures UpdateLabel(s, d, rank, mode, asked).asked >= asked
  {
    hide Merged, Dropped, Tally, MatchEqual, AskFrom;
    var first := MatchEqual(s.texts, d.texts, rank, |s.texts|);
    if first.Some? { AskOnlyMarks(Session(first.value, d.texts, asked), 0, mode); }
  }

  lemma VisitAsks(p: Progress, s: Label, rank: nat -> nat, run: Run)
    requires Shaped(p)
    ensures Visit(p, s, rank, run).asked >= p.asked && p.obsolete <= Visit(p, s, rank, run).obsolete
  {
    hide UpdateLabel;
    var j := Lookup(p.labels, s.name);
    if j >= 0 { AskedGrows(s, p.labels[j], rank, ModeFor(p, run), p.asked); }
  }

  lemma VisitAlike(p: Progress, s: Label, rank: nat -> nat, run: Run, others: nat -> Answer)
    requires Shaped(p) && AnswerAlike(run.answers, others, Visit(p, s, rank, run).asked)
    ensures Visit(p, s, rank, run) == Visit(p, s, rank, run.(answers := others))
  {
    hide UpdateLabel, AnswerAlike;
    var j := Lookup(p.labels, s.name);
    if j >= 0 { UpdateAlike(s, p.labels[j], rank, ModeFor(p, run), others, p.asked); }
  }

  lemma {:induction false} VisitsAlike(src: seq<Label>, n: nat, dst: Db, ranks: seq<nat -> nat>, run: Run,
                                       others: nat -> Answer)
    requires n <= |src| == |ranks| && AnswerAlike(run.answers, others, VisitAll(src, n, dst, ranks, run).asked)
    ensures VisitAll(src, n, dst, ranks, run) == VisitAll(src, n, dst, ranks, run.(answers := others))
  {
    hide Visit;
    if n > 0 {
      var p := VisitAll(src, n - 1, dst, ranks, run);
      VisitAsks(p, src[n - 1], ranks[n - 1], run);
      VisitsAlike(src, n - 1, dst, ranks, run, others);
      VisitAlike(p, src[n - 1], ranks[n - 1], run, others);
    }
  }

  lemma {:induction false} VisitsGrow(src: seq<Label>, n: nat, m: nat, dst: Db, ranks: seq<nat -> nat>, run: Run)
    requires n <= m <= |src| == |ranks|
    ensures var p, q := VisitAll(src, n, dst, ranks, run), VisitAll(src, m, dst, ranks, run);
            p.asked <= q.asked && p.obsolete <= q.obsolete
  {
    hide Visit;
    if n < m {
      VisitsGrow(src, n, m - 1, dst, ranks, run);
      VisitAsks(VisitAll(src, m - 1, dst, ranks, run), src[m - 1], ranks[m - 1], run);
    }
  }

  // ---------------------------------------------------------------------------------------
  // Other sources do not
  // ---------------------------------------------------------------------------------------

  /** A user who skips the first n dialogs and finds no match from then on. */
  function Patience(n: nat): nat -> Answer { (k: nat) => if k < n then Skip else NoMatch }

  const SKIPPING := Run(true, true, (k: nat) => Skip)

  /** A database with one label of that name, which holds one text. */
  function Bait(name: string, t: Text): Db { Db([OneLabel(name, [t])], []) }

  /** The user who skips what the first i source labels ask. */
  function Trap(src: seq<Label>, i: nat, dst: Db, ranks: seq<nat -> nat>): Run
    requires i <= |src| == |ranks|
  {
    Run(true, true, Patience(VisitAll(src, i, dst, ranks, SKIPPING).asked))
  }

  /** t is longer than every source text. */
  predicate Longer(t: Text, src: seq<Label>) {
    forall i, k | 0 <= i < |src| && 0 <= k < |src[i].texts| :: |src[i].texts[k].str| < |t.str|
  }

  lemma NotHeld(s: Label, t: Text)
    requires forall k | 0 <= k < |s.texts| :: |s.texts[k].str| < |t.str|
    ensures forall k | 0 <= k < |s.texts| :: !HasKey([t], s.texts[k].str)
  {
  }

  lemma {:induction false} NeverCancels(w: Session, i: nat, mode: Mode)
    requires i <= |w.m.src| && |w.m.dst| == |w.d| && forall k: nat :: mode.answers(k) != Cancel
    ensures AskFrom(w, i, mode).0 != Cancelled
    decreases |w.m.src| - i
  {
    if i < |w.m.src| && !w.m.AllDstMatched() {
      if w.m.src[i] >= 0 {
        NeverCancels(w, i + 1, mode);
      } else if mode.update && !mode.skip {
        match Dialog(mode.answers(w.asked), mode.multiText, w.m.DstMarks())
        case Stop(_) =>
        case Go(target, mark) => NeverCancels(Settle(w, i, target, mark), i + 1, mode);
      }
    }
  }

  lemma NobodyCancels(p: Progress, s: Label, rank: nat -> nat, run: Run)
    requires Shaped(p) && !p.skipAll && forall k: nat :: run.answers(k) != Cancel
    ensures !Visit(p, s, rank, run).skipAll
  {
    hide Merged, Dropped, Tally, MatchEqual, AskFrom;
    var j := Lookup(p.labels, s.name);
    if j >= 0 {
      var first := MatchEqual(s.texts, p.labels[j].texts, rank, |s.texts|);
      if first.Some? { NeverCancels(Session(first.value, p.labels[j].texts, p.asked), 0, ModeFor(p, run)); }
    }
  }

  /** The first label has that key, and nobody cancelled. */
  predicate Leads(p: Progress, name: string)
    requires Shaped(p)
  {
    Lookup(p.labels, name) == 0 && !p.skipAll
  }

  lemma StillLeads(p: Progress, name: string, s: Label, rank: nat -> nat, run: Run)
    requires Shaped(p) && Leads(p, name) && forall k: nat :: run.answers(k) != Cancel
    ensures Leads(Visit(p, s, rank, run), name)
    ensures !SameKey(s.name, name) ==> Visit(p, s, rank, run).labels[0] == p.labels[0]
    ensures SameKey(s.name, name) ==> Lookup(p.labels, s.name) == 0
  {
    hide SameKey, UpdateLabel, FindLabel;
    var q := Visit(p, s, rank, run);
    VisitExtends(p, s, rank, run);
    LookupExtends(p.labels, q.labels, name);
    NobodyCancels(p, s, rank, run);
    if SameKey(s.name, name) { LookupByKey(p.labels, s.name, name, |p.labels|); }
    if Lookup(p.labels, s.name) == 0 { OneKey(p.labels, s.name, name); }
  }

  /** A label with texts meets the bait, and the user skips it. */
  lemma SkippedVisit(s: Label, d: Label, t: Text, rank: nat -> nat, mode: Mode, asked: nat)
    requires d.texts == [t] && s.texts != [] && forall k | 0 <= k < |s.texts| :: |s.texts[k].str| < |t.str|
    requires mode.update && !mode.skip && mode.answers(asked) == Skip
    ensures UpdateLabel(s, d, rank, mode, asked).dest == d
  {
    hide SameKey, Find;
    NotHeld(s, t);
    RefusedIsFatal(s, d, rank);
    MatchEqualIsFind(s.texts, d.texts, rank, |s.texts|);
    var m := MatchEqual(s.texts, d.texts, rank, |s.texts|).value;
    if m.dst[0] >= 0 { var i := MatchedPair(s.texts, d.texts, rank, 0); }
    assert m.src[0] < 0;
    assert d.(texts := [t]) == d;
  }

  /** Until source label i the bait stays as it is. */
  lemma {:induction false} BaitStays(src: seq<Label>, n: nat, i: nat, name: string, t: Text, ranks: seq<nat -> nat>)
    requires n <= i < |src| == |ranks| && CanStart(src, i) && SameKey(src[i].name, name) && Longer(t, src)
    ensures var p := VisitAll(src, n, Bait(name, t), ranks, SKIPPING); Leads(p, name) && p.labels[0].texts == [t]
  {
    hide Visit;
    if n == 0 {
      BaitLeads(name, t);
    } else {
      hide SameKey, FindLabel;
      BaitStays(src, n - 1, i, name, t, ranks);
      var p := VisitAll(src, n - 1, Bait(name, t), ranks, SKIPPING);
      StillLeads(p, name, src[n - 1], ranks[n - 1], SKIPPING);
      if SameKey(src[n - 1].name, name) {
        KeysMeet(src[n - 1].name, name, src[i].name);
        BaitVisit(p, src[n - 1], t, ranks[n - 1]);
      }
    }
  }

  lemma KeysMeet(a: string, b: string, c: string)
    requires SameKey(a, b) && SameKey(c, b)
    ensures SameKey(a, c)
  {
  }

  lemma BaitLeads(name: string, t: Text)
    ensures Leads(Start(Bait(name, t)), name)
  {
    assert FindLabel(Bait(name, t).labels, name, 0) == -1;
  }

  lemma BaitVisit(p: Progress, s: Label, t: Text, rank: nat -> nat)
    requires Shaped(p) && !p.skipAll && Lookup(p.labels, s.name) == 0 && p.labels[0].texts == [t] && s.texts != []
    requires forall k | 0 <= k < |s.texts| :: |s.texts[k].str| < |t.str|
    ensures Visit(p, s, rank, SKIPPING).labels[0].texts == [t]
  {
    hide UpdateLabel, FindLabel;
    SkippedVisit(s, p.labels[0], t, rank, ModeFor(p, SKIPPING), p.asked);
  }

  lemma TrapWaits(src: seq<Label>, i: nat, dst: Db, ranks: seq<nat -> nat>)
    requires i <= |src| == |ranks|
    ensures var run := Trap(src, i, dst, ranks);
            && VisitAll(src, i, dst, ranks, run) == VisitAll(src, i, dst, ranks, SKIPPING)
            && FindsNoMatch(run.answers, VisitAll(src, i, dst, ranks, run).asked)
            && forall k: nat :: run.answers(k) != Cancel
  {
    hide VisitAll;
    VisitsAlike(src, i, dst, ranks, SKIPPING, Trap(src, i, dst, ranks).answers);
  }

  lemma MergedVisit(p: Progress, s: Label, rank: nat -> nat, run: Run)
    requires Shaped(p) && !p.skipAll && Lookup(p.labels, s.name) == 0 && !Refused(s, p.labels[0])
    requires run.update && run.multiText && FindsNoMatch(run.answers, p.asked)
    ensures Converged(s, Visit(p, s, rank, run).labels[0])
  {
    hide UpdateLabel, FindLabel, Converged, Refused;
    var _ := NoMatchVisit(s, p.labels[0], rank, ModeFor(p, run), p.asked);
  }

  lemma KeptVisit(p: Progress, s: Label, c: Label, rank: nat -> nat, run: Run)
    requires Shaped(p) && Lookup(p.labels, s.name) == 0 && Converged(c, p.labels[0]) && Refused(s, c)
    ensures Visit(p, s, rank, run).labels[0] == p.labels[0]
  {
    hide UpdateLabel, FindLabel, Converged, Refused;
    RefusedVisit(s, c, p.labels[0], rank, ModeFor(p, run), p.asked);
  }

  /** After n source labels the bait agrees with source label c, and the user has begun to find no match. */
  predicate Caught(src: seq<Label>, n: nat, i: nat, c: nat, name: string, dst: Db, ranks: seq<nat -> nat>)
    requires n <= |src| == |ranks| && i <= |src| && c < |src|
  {
    var run := Trap(src, i, dst, ranks);
    var p := VisitAll(src, n, dst, ranks, run);
    i < n && Leads(p, name) && Converged(src[c], p.labels[0])
  }

  /** The next source label is one that the trap lets in. */
  lemma CaughtNext(src: seq<Label>, n: nat, i: nat, b: nat, c: nat, name: string, dst: Db, ranks: seq<nat -> nat>)
    requires n < |src| == |ranks| && i < |src| && b < |src| && c < |src| && Caught(src, n, i, b, name, dst, ranks)
    requires c == if SameKey(src[n].name, name) && !Refused(src[n], src[b]) then n else b
    ensures Caught(src, n + 1, i, c, name, dst, ranks)
  {
    hide Visit, Converged, Refused, SameKey, Lookup;
    var run := Trap(src, i, dst, ranks);
    var p := VisitAll(src, n, dst, ranks, run);
    TrapWaits(src, i, dst, ranks);
    VisitsGrow(src, i, n, dst, ranks, run);
    StillLeads(p, name, src[n], ranks[n], run);
    if SameKey(src[n].name, name) {
      if Refused(src[n], src[b]) {
        KeptVisit(p, src[n], src[b], ranks[n], run);
      } else {
        RefusedAlike(src[n], src[b], p.labels[0]);
        MergedVisit(p, src[n], ranks[n], run);
      }
    }
  }

  lemma CaughtFirst(src: seq<Label>, i: nat, name: string, t: Text, ranks: seq<nat -> nat>)
    requires i < |src| == |ranks| && CanStart(src, i) && SameKey(src[i].name, name) && Longer(t, src)
    ensures Caught(src, i + 1, i, i, name, Bait(name, t), ranks)
  {
    hide Visit, Converged, SameKey, Lookup, HasKey, Bait;
    var dst := Bait(name, t);
    var run := Trap(src, i, dst, ranks);
    var p := VisitAll(src, i, dst, ranks, run);
    TrapWaits(src, i, dst, ranks);
    BaitStays(src, i, i, name, t, ranks);
    StillLeads(p, name, src[i], ranks[i], run);
    NotHeld(src[i], t);
    MergedVisit(p, src[i], ranks[i], run);
  }

  /** Every source label that the destination can agree with is one it comes to agree with. */
  lemma {:induction false} PossibleIsCaught(src: seq<Label>, n: nat, c: nat, name: string, t: Text, ranks: seq<nat -> nat>)
    returns (i: nat)
    requires n <= |src| == |ranks| && Possible(src, true, n, c) && SameKey(src[c].name, name) && Longer(t, src)
    ensures i < |src| && Caught(src, n, i, c, name, Bait(name, t), ranks)
    decreases n
  {
    hide Caught, Bait, Refused;
    if c == n - 1 {
      if CanStart(src, c) {
        i := c;
        CaughtFirst(src, c, name, t, ranks);
      } else {
        var b :| 0 <= b < c && Possible(src, true, c, b) && SameKey(src[c].name, src[b].name) && !Refused(src[c], src[b]);
        i := PossibleIsCaught(src, c, b, name, t, ranks);
        CaughtNext(src, c, i, b, c, name, Bait(name, t), ranks);
      }
    } else {
      i := PossibleIsCaught(src, n - 1, c, name, t, ranks);
      CaughtNext(src, n - 1, i, c, c, name, Bait(name, t), ranks);
    }
  }

  lemma LongText(src: seq<Label>) returns (t: Text)
    ensures Longer(t, src)
  {
    var str := "";
    var i := 0;
    while i < |src|
      invariant 0 <= i <= |src|
      invariant forall l, k | 0 <= l < i && 0 <= k < |src[l].texts| :: |src[l].texts[k].str| <= |str|
    {
      var j := 0;
      while j < |src[i].texts|
        invariant 0 <= j <= |src[i].texts|
        invariant forall l, k | 0 <= l < i && 0 <= k < |src[l].texts| :: |src[l].texts[k].str| <= |str|
        invariant forall k | 0 <= k < j :: |src[i].texts[k].str| <= |str|
      {
        if |src[i].texts[j].str| > |str| { str := src[i].texts[j].str; }
        j := j + 1;
      }
      i := i + 1;
    }
    t := NO_TEXT.(str := str + "x");
  }

  /** A text in the obsolete list that the destination never had. */
  lemma NewText(src: seq<Label>, dst: Db, ranks: seq<nat -> nat>, run: Run, t: Text)
    requires |src| == |ranks| && run.update && dst.obsolete == [] && t in VisitAll(src, |src|, dst, ranks, run).obsolete
    requires forall x | x in AllTexts(dst.labels, |dst.labels|) :: x.str != t.str
    ensures !KeepsOldTexts(src, dst, ranks, run)
  {
    hide VisitAll, TextsOf, AllTexts, Unmarked;
    var out := UpdateDb(src, dst, ranks, run).db.obsolete;
    assert t in out && Tail(out, dst) == out;
    if KeepsOldTexts(src, dst, ranks, run) { AmongThem(out, AllTexts(dst.labels, |dst.labels|), t); }
  }

  /** A source that is not safe, and a user and a destination that show it. */
  lemma UnsafeLosesOldTexts(src: seq<Label>) returns (dst: Db, ranks: seq<nat -> nat>, run: Run)
    requires !Safe(src, true)
    ensures |ranks| == |src| && run.update && run.multiText && !KeepsOldTexts(src, dst, ranks, run)
  {
    var n, c :| 0 <= c < n < |src| && Possible(src, true, n, c) && SameKey(src[n].name, src[c].name)
      && !Spares(src[n], src[c], true);
    dst, ranks, run := CaughtLosesOldTexts(src, n, c);
  }

  lemma CaughtLosesOldTexts(src: seq<Label>, n: nat, c: nat) returns (dst: Db, ranks: seq<nat -> nat>, run: Run)
    requires c < n < |src| && Possible(src, true, n, c) && SameKey(src[n].name, src[c].name) && !Spares(src[n], src[c], true)
    ensures |ranks| == |src| && run.update && run.multiText && !KeepsOldTexts(src, dst, ranks, run)
  {
    hide Visit, Converged, Refused, Covers, SameKey, Lookup, KeepsOldTexts, Longer, Possible, UpdateLabel;
    var bait := LongText(src);
    var name := src[c].name;
    ranks := seq(|src|, _ => (k: nat) => k);
    SameKeyAsItself(name);
    var i := PossibleIsCaught(src, n, c, name, bait, ranks);
    dst := Bait(name, bait);
    run := Trap(src, i, dst, ranks);
    var p := VisitAll(src, n, dst, ranks, run);
    TrapWaits(src, i, dst, ranks);
    VisitsGrow(src, i, n, dst, ranks, run);
    StillLeads(p, name, src[n], ranks[n], run);
    var t, k := UncoveringVisit(src[n], src[c], p.labels[0], ranks[n], ModeFor(p, run), p.asked);
    DroppedVisit(p, src[n], ranks[n], run, t);
    VisitsGrow(src, n + 1, |src|, dst, ranks, run);
    BaitTexts(name, bait);
    ShorterThanBait(src, c, k, bait);
    NewText(src, dst, ranks, run, t);
  }

  lemma DroppedVisit(p: Progress, s: Label, rank: nat -> nat, run: Run, t: Text)
    requires Shaped(p) && Lookup(p.labels, s.name) == 0
    requires t in UpdateLabel(s, p.labels[0], rank, ModeFor(p, run), p.asked).obsolete
    ensures t in Visit(p, s, rank, run).obsolete
  {
    hide UpdateLabel;
  }

  lemma BaitTexts(name: string, t: Text)
    ensures Bait(name, t).obsolete == [] && AllTexts(Bait(name, t).labels, |Bait(name, t).labels|) == [t]
  {
    assert AllTexts(Bait(name, t).labels, 0) == [];
  }

  lemma ShorterThanBait(src: seq<Label>, c: nat, k: nat, t: Text)
    requires Longer(t, src) && c < |src| && k < |src[c].texts|
    ensures src[c].texts[k].str != t.str
  {
  }

  // ---------------------------------------------------------------------------------------
  // The same with one text to a label
  // ---------------------------------------------------------------------------------------

  const EAGER := Run(true, false, (k: nat) => Plain)

  lemma EagerAsks(w: Session, mode: Mode)
    requires |w.m.src| <= 1 && |w.m.dst| == |w.d| && mode == Mode(true, false, false, EAGER.answers)
    ensures AskFrom(w, 0, mode).0 == Ok
  {
    if |w.m.src| == 1 && !w.m.AllDstMatched() && w.m.src[0] < 0 {
      assert Dialog(mode.answers(w.asked), false, w.m.DstMarks()) == Go(0, None);
    }
  }

  lemma EagerFinishes(s: Label, d: Label, rank: nat -> nat, mode: Mode, asked: nat)
    requires mode == Mode(true, false, false, EAGER.answers) && |s.texts| <= 1 && |d.texts| <= 1
    ensures UpdateLabel(s, d, rank, mode, asked).code == Ok && Converged(s, UpdateLabel(s, d, rank, mode, asked).dest)
  {
    hide MatchEqual, AskFrom, Merged, Dropped, Tally, Converged;
    NothingFatal(s, d, rank);
    EagerAsks(Session(MatchEqual(s.texts, d.texts, rank, |s.texts|).value, d.texts, asked), mode);
    UpdateConverges(s, d, rank, mode, asked);
  }

  /** Label j is the one with that key and agrees with c. */
  predicate HeldAt(p: Progress, name: string, c: Label, j: nat)
    requires Shaped(p)
  {
    j < |p.labels| && Lookup(p.labels, name) == j && Converged(c, p.labels[j])
  }

  lemma EagerVisit(p: Progress, s: Label, rank: nat -> nat) returns (j: nat)
    requires Shaped(p) && !p.skipAll && Slim(p.labels, false) && |s.texts| <= 1
    ensures var q := Visit(p, s, rank, EAGER); HeldAt(q, s.name, s, j)
  {
    hide UpdateLabel, FindLabel, Converged, SameKey;
    var q := Visit(p, s, rank, EAGER);
    VisitExtends(p, s, rank, EAGER);
    SameKeyAsItself(s.name);
    if Lookup(p.labels, s.name) >= 0 {
      j := Lookup(p.labels, s.name);
      LookupExtends(p.labels, q.labels, s.name);
      EagerFinishes(s, p.labels[j], rank, ModeFor(p, EAGER), p.asked);
    } else {
      j := |p.labels|;
      CloneConverged(s);
      AppendedIsFound(p.labels, CloneLabel(s), s.name);
    }
  }

  lemma OtherVisit(p: Progress, name: string, c: Label, j: nat, s: Label, rank: nat -> nat, run: Run)
    requires Shaped(p) && HeldAt(p, name, c, j) && !SameKey(s.name, name)
    ensures HeldAt(Visit(p, s, rank, run), name, c, j)
  {
    hide UpdateLabel, FindLabel, Converged, SameKey;
    VisitExtends(p, s, rank, run);
    LookupExtends(p.labels, Visit(p, s, rank, run).labels, name);
    if Lookup(p.labels, s.name) == j { OneKey(p.labels, s.name, name); }
  }

  lemma {:induction false} NobodyEagerCancels(src: seq<Label>, n: nat, dst: Db, ranks: seq<nat -> nat>)
    requires n <= |src| == |ranks|
    ensures !VisitAll(src, n, dst, ranks, EAGER).skipAll
  {
    hide Visit;
    if n > 0 {
      NobodyEagerCancels(src, n - 1, dst, ranks);
      NobodyCancels(VisitAll(src, n - 1, dst, ranks, EAGER), src[n - 1], ranks[n - 1], EAGER);
    }
  }

  /** From source label c to the next one of its key the destination agrees with c. */
  lemma {:induction false} HeldUntil(src: seq<Label>, c: nat, n: nat, dst: Db, ranks: seq<nat -> nat>) returns (j: nat)
    requires c < n <= |src| == |ranks| && Slim(src, false) && Slim(dst.labels, false)
    requires forall m | c < m < n :: !SameKey(src[m].name, src[c].name)
    ensures HeldAt(VisitAll(src, n, dst, ranks, EAGER), src[c].name, src[c], j)
  {
    hide Visit, HeldAt;
    var p := VisitAll(src, n - 1, dst, ranks, EAGER);
    if c == n - 1 {
      NobodyEagerCancels(src, c, dst, ranks);
      VisitsStaySlim(src, c, dst, ranks, EAGER);
      j := EagerVisit(p, src[c], ranks[c]);
    } else {
      j := HeldUntil(src, c, n - 1, dst, ranks);
      OtherVisit(p, src[c].name, src[c], j, src[n - 1], ranks[n - 1], EAGER);
    }
  }

  /** An empty label behind one of its key with a text: then there are two such with none of the key between. */
  lemma {:induction false} ClosestPair(src: seq<Label>, c: nat, n: nat) returns (b: nat, m: nat)
    requires c < n < |src| && SameKey(src[n].name, src[c].name) && src[n].texts == [] && src[c].texts != []
    ensures b < m < |src| && SameKey(src[m].name, src[b].name) && src[m].texts == [] && src[b].texts != []
    ensures forall k | b < k < m :: !SameKey(src[k].name, src[b].name)
    decreases n - c
  {
    b, m := c, n;
    if k :| c < k < n && SameKey(src[k].name, src[c].name) {
      if src[k].texts == [] { b, m := ClosestPair(src, c, k); } else { b, m := ClosestPair(src, k, n); }
    }
  }

  lemma EmptyVisitDrops(p: Progress, s: Label, rank: nat -> nat, j: nat, t: Text)
    requires Shaped(p) && Lookup(p.labels, s.name) == j < |p.labels| && s.texts == [] && t in p.labels[j].texts
    ensures t in Visit(p, s, rank, EAGER).obsolete
  {
    hide UpdateLabel, FindLabel;
    AllDropped(s, p.labels[j], rank, ModeFor(p, EAGER), p.asked);
  }

  lemma UnsafeLosesLoneTexts(src: seq<Label>) returns (dst: Db, ranks: seq<nat -> nat>, run: Run)
    requires !Safe(src, false) && Slim(src, false)
    ensures |ranks| == |src| && run.update && !run.multiText && Slim(dst.labels, false)
    ensures !KeepsOldTexts(src, dst, ranks, run)
  {
    hide Visit, Converged, SameKey, Lookup, FindLabel, KeepsOldTexts, Possible;
    var k, i :| 0 <= i < k < |src| && Possible(src, false, k, i) && SameKey(src[k].name, src[i].name)
      && !Spares(src[k], src[i], false);
    var c, n := ClosestPair(src, i, k);
    dst, ranks, run := Db([], []), seq(|src|, _ => (k: nat) => k), EAGER;
    var j := HeldUntil(src, c, n, dst, ranks);
    var p := VisitAll(src, n, dst, ranks, run);
    LookupByKey(p.labels, src[n].name, src[c].name, |p.labels|);
    ConvergedSize(src[c], p.labels[j]);
    var t := p.labels[j].texts[0];
    FoundAlike(p.labels, src[n].name, src[c].name);
    EmptyVisitDrops(p, src[n], ranks[n], j, t);
    VisitsGrow(src, n + 1, |src|, dst, ranks, run);
    NewText(src, dst, ranks, run, t);
  }

  lemma FoundAlike(labels: seq<Label>, a: string, b: string)
    requires SameKey(a, b)
    ensures Lookup(labels, a) == Lookup(labels, b)
  {
    LookupByKey(labels, a, b, |labels|);
  }

  /**
   * Conservation of values is exact: an update moves nothing but old texts to the obsolete list,
   * whatever the destination, the bin orders and the user, if and only if the source is safe.
   */
  lemma KeepsOldTextsExactly(src: seq<Label>, multiText: bool)
    requires Slim(src, multiText)
    ensures Safe(src, multiText) <==>
            forall dst: Db, ranks: seq<nat -> nat>, run: Run
              | |ranks| == |src| && run.update && run.multiText == multiText && Slim(dst.labels, multiText) ::
              KeepsOldTexts(src, dst, ranks, run)
  {
    hide KeepsOldTexts, Slim;
    if Safe(src, multiText) {
      forall dst: Db, ranks: seq<nat -> nat>, run: Run
        | |ranks| == |src| && run.update && run.multiText == multiText && Slim(dst.labels, multiText)
        ensures KeepsOldTexts(src, dst, ranks, run)
      {
        SafeKeepsOldTexts(src, dst, ranks, run);
      }
    } else if multiText {
      var dst, ranks, run := UnsafeLosesOldTexts(src);
      SlimByMode(dst.labels);
    } else {
      var dst, ranks, run := UnsafeLosesLoneTexts(src);
    }
  }

  lemma SlimByMode(labels: seq<Label>)
    ensures Slim(labels, true)
  {
  }
}
