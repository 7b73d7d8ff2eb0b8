/** What one UpdateLabel call guarantees, for every pair of labels and every user. */
module BabylonLabelLaws {
  import opened Options
  import opened TextKeys
  import opened Selections
  import opened BabylonLabel

  /** What a text means to the game: its string, and its wave ignoring case. */
  type View = (string, string)

  function ViewOf(t: Text): View { (t.str, Fold(t.wave)) }

  function Views(ts: seq<Text>): seq<View> {
    seq(|ts|, i requires 0 <= i < |ts| => ViewOf(ts[i]))
  }

  predicate SameMetadata(s: Label, d: Label) {
    && SameIgnoringCase(s.comment, d.comment) && SameIgnoringCase(s.context, d.context)
    && SameIgnoringCase(s.speaker, d.speaker) && SameIgnoringCase(s.listener, d.listener)
    && s.maxLen == d.maxLen
  }

  /** The labels hold the same strings with the same waves, equally often, and the same metadata. */
  predicate Converged(s: Label, d: Label) {
    multiset(Views(s.texts)) == multiset(Views(d.texts)) && SameMetadata(s, d)
  }

  /** No two texts of the list are one key. */
  predicate DistinctKeys(ts: seq<Text>) {
    forall i, k | 0 <= i < k < |ts| :: !SameKey(ts[i].str, ts[k].str)
  }

  /** The list holds that key. */
  predicate HasKey(ts: seq<Text>, key: string) {
    exists j | 0 <= j < |ts| :: SameKey(ts[j].str, key)
  }

  /** A label without its retranslate marks. */
  function Unmarked(ts: seq<Text>): seq<Text> {
    seq(|ts|, i requires 0 <= i < |ts| => ts[i].(retranslate := false))
  }

  // ---------------------------------------------------------------------------------------
  // A mutual matching pairs off the matched elements of both sides
  // ---------------------------------------------------------------------------------------

  /** Source elements matched to one of the first n destination elements. */
  function Below(src: seq<int>, n: nat): seq<bool> {
    seq(|src|, i requires 0 <= i < |src| => 0 <= src[i] < n)
  }

  lemma BelowStep(m: Matching, ns: nat, nd: nat, j: nat)
    requires m.Paired(ns, nd) && j < nd
    ensures m.dst[j] < 0 ==> Below(m.src, j + 1) == Below(m.src, j)
    ensures m.dst[j] >= 0 ==> !Below(m.src, j)[m.dst[j]] && Below(m.src, j + 1) == Below(m.src, j)[m.dst[j] := true]
  {
  }

  lemma PairedSizes(m: Matching, ns: nat, nd: nat)
    requires m.Paired(ns, nd)
    ensures |m.src| == ns && |m.dst| == |m.DstMarks()| == nd && forall j | 0 <= j < nd :: m.dst[j] < ns
    ensures forall j | 0 <= j < nd :: m.DstMarks()[j] <==> m.dst[j] >= 0
    ensures forall n: nat :: |Below(m.src, n)| == ns
  {
  }

  /** Destination element j and its source element come off both sides. */
  lemma PairOff<T>(a: seq<T>, b: seq<T>, m: Matching, j: nat)
    requires j < |b| && m.Paired(|a|, |b|) && (m.dst[j] >= 0 ==> b[j] == a[m.dst[j]])
    requires multiset(Select(b, m.DstMarks(), true, j)) == multiset(Select(a, Below(m.src, j), true, |a|))
    ensures multiset(Select(b, m.DstMarks(), true, j + 1)) == multiset(Select(a, Below(m.src, j + 1), true, |a|))
  {
    hide Select, Below, Matching.Paired, Matching.DstMarks;
    PairedSizes(m, |a|, |b|);
    var marks, below := m.DstMarks(), Below(m.src, j);
    SelectStep(b, marks, true, j + 1);
    BelowStep(m, |a|, |b|, j);
    if m.dst[j] >= 0 { SelectFlip(a, below, m.dst[j], |a|); }
  }

  lemma NothingPaired<T>(a: seq<T>, b: seq<T>, m: Matching)
    requires m.Paired(|a|, |b|)
    ensures Select(b, m.DstMarks(), true, 0) == [] && Select(a, Below(m.src, 0), true, |a|) == []
  {
    SelectAll(a, Below(m.src, 0), false, |a|);
  }

  lemma {:induction false} PairedOff<T>(a: seq<T>, b: seq<T>, m: Matching, n: nat)
    requires n <= |b| && m.Paired(|a|, |b|)
    requires forall j | 0 <= j < |b| && m.dst[j] >= 0 :: b[j] == a[m.dst[j]]
    ensures multiset(Select(b, m.DstMarks(), true, n)) == multiset(Select(a, Below(m.src, n), true, |a|))
  {
    hide *;
    if n == 0 {
      NothingPaired(a, b, m);
    } else {
      PairedOff(a, b, m, n - 1);
      PairOff(a, b, m, n - 1);
    }
  }

  lemma BelowAll(m: Matching, ns: nat, nd: nat)
    requires m.Fits(ns, nd)
    ensures Below(m.src, nd) == m.SrcMarks()
  {
  }

  lemma MatchedPartsAgree<T>(a: seq<T>, b: seq<T>, m: Matching)
    requires m.Paired(|a|, |b|)
    requires forall j | 0 <= j < |b| && m.dst[j] >= 0 :: b[j] == a[m.dst[j]]
    ensures multiset(Select(b, m.DstMarks(), true, |b|)) == multiset(Select(a, m.SrcMarks(), true, |a|))
  {
    hide Select;
    PairedOff(a, b, m, |b|);
    BelowAll(m, |a|, |b|);
  }

  // ---------------------------------------------------------------------------------------
  // Convergence
  // ---------------------------------------------------------------------------------------

  lemma {:induction false} AskKeepsPairs(w: Session, i: nat, mode: Mode, ns: nat, nd: nat)
    requires i <= ns && nd == |w.d| && w.m.Paired(ns, nd)
    requires mode.multiText || nd <= 1
    ensures AskFrom(w, i, mode).1.m.Paired(ns, nd)
    decreases ns - i
  {
    if i < ns && !w.m.AllDstMatched() {
      if w.m.src[i] >= 0 {
        AskKeepsPairs(w, i + 1, mode, ns, nd);
      } else if mode.update && !mode.skip {
        match Dialog(mode.answers(w.asked), mode.multiText, w.m.DstMarks())
        case Stop(_) =>
        case Go(target, mark) =>
          if target >= 0 { BindFits(w.m, ns, nd, i, target); }
          AskKeepsPairs(Settle(w, i, target, mark), i + 1, mode, ns, nd);
      }
    }
  }

  lemma ViewsOfSum(a: seq<Text>, b: seq<Text>)
    ensures Views(a + b) == Views(a) + Views(b)
  {
  }

  lemma SelectViews(ts: seq<Text>, marks: seq<bool>, want: bool)
    requires |ts| == |marks|
    ensures Views(Select(ts, marks, want, |ts|)) == Select(Views(ts), marks, want, |ts|)
  {
    SelectImage(ts, Views(ts), ViewOf, marks, want, |ts|);
  }

  lemma CloneViews(s: seq<Text>, marks: seq<bool>)
    requires |s| == |marks|
    ensures Views(Clones(s, marks, |s|)) == Select(Views(s), marks, false, |s|)
  {
    SelectViews(s, marks, false);
  }

  /** The matched texts and the clones together are the source texts. */
  lemma FinishConverges(s: Label, d: Label, w: Session, mode: Mode)
    requires mode.update && w.m.Paired(|s.texts|, |w.d|)
    ensures Converged(s, Finish(s, d, w, mode).dest)
  {
    var st := s.texts;
    var refreshed := RefreshAll(st, w.d, w.m.dst, true);
    var a, b := Views(st), Views(refreshed);
    forall j | 0 <= j < |b| && w.m.dst[j] >= 0 ensures b[j] == a[w.m.dst[j]] {
      assert refreshed[j] == Refresh(w.d[j], st[w.m.dst[j]], true);
    }
    MatchedPartsAgree(a, b, w.m);
    var kept, clones := Select(refreshed, w.m.DstMarks(), true, |w.d|), Clones(st, w.m.SrcMarks(), |st|);
    SelectViews(refreshed, w.m.DstMarks(), true);
    CloneViews(st, w.m.SrcMarks());
    calc {
      multiset(Views(kept + clones));
      { ViewsOfSum(kept, clones); }
      multiset(Views(kept)) + multiset(Views(clones));
      multiset(Select(b, w.m.DstMarks(), true, |b|)) + multiset(Select(a, w.m.SrcMarks(), false, |a|));
      multiset(Select(a, w.m.SrcMarks(), true, |a|)) + multiset(Select(a, w.m.SrcMarks(), false, |a|));
      { SelectSplit(a, w.m.SrcMarks(), |a|); }
      multiset(a[..|a|]);
      { assert a[..|a|] == a; }
      multiset(a);
    }
  }

  /** Whatever the user answers, a call that finishes leaves the destination label equal to its source. */
  lemma UpdateConverges(s: Label, d: Label, rank: nat -> nat, mode: Mode, asked: nat)
    requires mode.update && (mode.multiText || |d.texts| <= 1)
    requires UpdateLabel(s, d, rank, mode, asked).code == Ok
    ensures Converged(s, UpdateLabel(s, d, rank, mode, asked).dest)
  {
    var start := Session(MatchEqual(s.texts, d.texts, rank, |s.texts|).value, d.texts, asked);
    AskKeepsFit(start, 0, mode, |s.texts|, |d.texts|);
    AskKeepsPairs(start, 0, mode, |s.texts|, |d.texts|);
    FinishConverges(s, d, AskFrom(start, 0, mode).1, mode);
  }

  // ---------------------------------------------------------------------------------------
  // Skips
  // ---------------------------------------------------------------------------------------

  /** Asking changes retranslate marks of destination texts and nothing else. */
  lemma {:induction false} AskOnlyMarks(w: Session, i: nat, mode: Mode)
    requires i <= |w.m.src| && |w.m.dst| == |w.d|
    ensures Unmarked(AskFrom(w, i, mode).1.d) == Unmarked(w.d)
    ensures !mode.update || mode.skip ==> AskFrom(w, i, mode).1 == w
    ensures AskFrom(w, i, mode).1.asked >= w.asked
    decreases |w.m.src| - i
  {
    if i < |w.m.src| && !w.m.AllDstMatched() {
      if w.m.src[i] >= 0 {
        AskOnlyMarks(w, i + 1, mode);
      } else if mode.update && !mode.skip {
        match Dialog(mode.answers(w.asked), mode.multiText, w.m.DstMarks())
        case Stop(_) =>
        case Go(target, mark) =>
          var next := Settle(w, i, target, mark);
          assert Unmarked(next.d) == Unmarked(w.d);
          AskOnlyMarks(next, i + 1, mode);
      }
    }
  }

  /**
   * A call that does not return IDOK keeps every string, wave, revision, translation and
   * metadata field, moves nothing to the obsolete list and counts nothing. It may leave
   * retranslate marks behind that the user set before stopping.
   */
  lemma SkipIsHarmless(s: Label, d: Label, rank: nat -> nat, mode: Mode, asked: nat)
    requires UpdateLabel(s, d, rank, mode, asked).code != Ok
    ensures var r := UpdateLabel(s, d, rank, mode, asked);
            && r.dest == d.(texts := r.dest.texts) && Unmarked(r.dest.texts) == Unmarked(d.texts)
            && r.obsolete == [] && r.info == NO_INFO
            && (!mode.update || mode.skip ==> r.dest == d)
  {
    var first := MatchEqual(s.texts, d.texts, rank, |s.texts|);
    if first.Some? {
      AskOnlyMarks(Session(first.value, d.texts, asked), 0, mode);
    }
  }

  /** The call can finish without a dialog: equal strings pair up one side completely. */
  predicate NeedsNoQuestion(s: Label, d: Label, rank: nat -> nat) {
    var first := MatchEqual(s.texts, d.texts, rank, |s.texts|);
    first.Some? && (first.value.AllDstMatched() || forall i | 0 <= i < |s.texts| :: first.value.src[i] >= 0)
  }

  lemma {:induction false} AskNothing(w: Session, i: nat, mode: Mode)
    requires i <= |w.m.src| && |w.m.dst| == |w.d|
    requires w.m.AllDstMatched() || forall k | i <= k < |w.m.src| :: w.m.src[k] >= 0
    ensures AskFrom(w, i, mode) == (Ok, w)
    decreases |w.m.src| - i
  {
    if i < |w.m.src| && !w.m.AllDstMatched() { AskNothing(w, i + 1, mode); }
  }

  lemma {:induction false} AskSomething(w: Session, i: nat, k: nat, mode: Mode)
    requires i <= k < |w.m.src| && |w.m.dst| == |w.d|
    requires !w.m.AllDstMatched() && w.m.src[k] < 0
    requires !mode.update || mode.skip
    ensures AskFrom(w, i, mode) == (Skipped, w)
    decreases k - i
  {
    if w.m.src[i] >= 0 { AskSomething(w, i + 1, k, mode); }
  }

  /**
   * With skip set (after a cancel) or in a dry run nobody is asked; a label that needs no
   * question is merged exactly as it would have been, any other is left alone.
   */
  lemma SkipStillMerges(s: Label, d: Label, rank: nat -> nat, mode: Mode, asked: nat)
    requires !mode.update || mode.skip
    ensures var r := UpdateLabel(s, d, rank, mode, asked);
            && r.asked == asked
            && (r.code == Ok <==> NeedsNoQuestion(s, d, rank))
            && (NeedsNoQuestion(s, d, rank) ==>
                  forall other: nat -> Answer :: r == UpdateLabel(s, d, rank, Mode(mode.update, false, mode.multiText, other), asked))
            && (!NeedsNoQuestion(s, d, rank) ==> r.dest == d)
  {
    var first := MatchEqual(s.texts, d.texts, rank, |s.texts|);
    if first.Some? {
      var w := Session(first.value, d.texts, asked);
      AskOnlyMarks(w, 0, mode);
      if NeedsNoQuestion(s, d, rank) {
        AskNothing(w, 0, mode);
        forall other: nat -> Answer
          ensures UpdateLabel(s, d, rank, mode, asked)
               == UpdateLabel(s, d, rank, Mode(mode.update, false, mode.multiText, other), asked)
        {
          AskNothing(w, 0, Mode(mode.update, false, mode.multiText, other));
        }
      } else {
        var k :| 0 <= k < |s.texts| && first.value.src[k] < 0;
        AskSomething(w, 0, k, mode);
      }
    }
  }

  // ---------------------------------------------------------------------------------------
  // Conservation
  // ---------------------------------------------------------------------------------------

  /** The part of a text no update ever rewrites; it identifies the text through a merge. */
  function Cargo(t: Text): seq<Translation> { t.translations }

  function Cargos(ts: seq<Text>): seq<seq<Translation>> {
    seq(|ts|, i requires 0 <= i < |ts| => Cargo(ts[i]))
  }

  lemma SelectCargos(ts: seq<Text>, marks: seq<bool>, want: bool)
    requires |ts| == |marks|
    ensures Cargos(Select(ts, marks, want, |ts|)) == Select(Cargos(ts), marks, want, |ts|)
  {
    SelectImage(ts, Cargos(ts), Cargo, marks, want, |ts|);
  }

  lemma CargosOfSum(a: seq<Text>, b: seq<Text>)
    ensures Cargos(a + b) == Cargos(a) + Cargos(b)
  {
  }

  /** The clones an updating call adds: the source texts left without a match. */
  function Added(s: Label, d: Label, rank: nat -> nat, mode: Mode, asked: nat): seq<Text> {
    var r := UpdateLabel(s, d, rank, mode, asked);
    if r.code == Ok && mode.update && |r.dest.texts| >= r.info.newStrings
    then r.dest.texts[|r.dest.texts| - r.info.newStrings..] else []
  }

  /** The list holds t, up to its retranslate mark. */
  predicate ComesFrom(t: Text, ts: seq<Text>) {
    exists j | 0 <= j < |ts| :: t.(retranslate := false) == ts[j].(retranslate := false)
  }

  /**
   * Conservation for one label: with the clones taken away, the texts of the label afterwards
   * and the texts moved to the obsolete list are the texts the label had. The counters say how
   * many moved and how many were cloned.
   */
  lemma LabelConserves(s: Label, d: Label, rank: nat -> nat, mode: Mode, asked: nat)
    requires mode.update
    ensures var r := UpdateLabel(s, d, rank, mode, asked);
            && |r.obsolete| == r.info.deletedStrings
            && |Added(s, d, rank, mode, asked)| == r.info.newStrings
            && |r.dest.texts| + r.info.deletedStrings == |d.texts| + r.info.newStrings
            && multiset(Cargos(r.dest.texts)) + multiset(Cargos(r.obsolete))
               == multiset(Cargos(d.texts)) + multiset(Cargos(Added(s, d, rank, mode, asked)))
            && (forall k | 0 <= k < |r.obsolete| :: ComesFrom(r.obsolete[k], d.texts))
            && (forall t | t in Added(s, d, rank, mode, asked) :: exists i | 0 <= i < |s.texts| :: t == CloneText(s.texts[i]))
  {
    hide Finish, AskFrom, MatchEqual, Cargos;
    var r := UpdateLabel(s, d, rank, mode, asked);
    if r.code == Ok {
      var w := FinishedSession(s, d, rank, mode, asked);
      FinishConserves(s, d, w, mode);
      ClonesComeFromSource(s.texts, w.m.SrcMarks());
      SameCargos(w.d, d.texts);
      forall k | 0 <= k < |r.obsolete| ensures ComesFrom(r.obsolete[k], d.texts) {
        ObsoleteComesFromDest(s, d, w, mode, k);
      }
    } else {
      SkipIsHarmless(s, d, rank, mode, asked);
      SameCargos(r.dest.texts, d.texts);
      EmptyCargos();
    }
  }

  lemma EmptyCargos()
    ensures Cargos([]) == []
  {
  }

  lemma SameCargos(a: seq<Text>, b: seq<Text>)
    requires Unmarked(a) == Unmarked(b)
    ensures Cargos(a) == Cargos(b)
  {
    assert Cargos(a) == Cargos(Unmarked(a)) && Cargos(b) == Cargos(Unmarked(b));
  }

  /** The session a successful call finishes with. */
  lemma FinishedSession(s: Label, d: Label, rank: nat -> nat, mode: Mode, asked: nat) returns (w: Session)
    requires UpdateLabel(s, d, rank, mode, asked).code == Ok
    ensures w.m.Fits(|s.texts|, |w.d|) && Unmarked(w.d) == Unmarked(d.texts) && |w.d| == |d.texts|
    ensures UpdateLabel(s, d, rank, mode, asked) == Finish(s, d, w, mode)
  {
    hide Finish;
    var start := Session(MatchEqual(s.texts, d.texts, rank, |s.texts|).value, d.texts, asked);
    w := AskFrom(start, 0, mode).1;
    AskKeepsFit(start, 0, mode, |s.texts|, |d.texts|);
    AskOnlyMarks(start, 0, mode);
  }

  lemma ObsoleteComesFromDest(s: Label, d: Label, w: Session, mode: Mode, k: nat)
    requires mode.update && w.m.Fits(|s.texts|, |w.d|) && Unmarked(w.d) == Unmarked(d.texts)
    requires k < |Finish(s, d, w, mode).obsolete|
    ensures ComesFrom(Finish(s, d, w, mode).obsolete[k], d.texts)
  {
    ObsoleteIsUntouched(s, w, k);
    var j :| 0 <= j < |w.d| && Dropped(s.texts, w, true)[k] == w.d[j];
    assert Unmarked(w.d)[j] == Unmarked(d.texts)[j];
  }

  lemma ClonesComeFromSource(s: seq<Text>, marks: seq<bool>)
    requires |s| == |marks|
    ensures forall t | t in Clones(s, marks, |s|) :: exists i | 0 <= i < |s| :: t == CloneText(s[i])
  {
    SelectIsWhere(s, marks, false, |s|);
    forall t | t in Clones(s, marks, |s|) ensures exists i | 0 <= i < |s| :: t == CloneText(s[i]) {
      var p :| 0 <= p < |Clones(s, marks, |s|)| && Clones(s, marks, |s|)[p] == t;
      assert t == CloneText(s[Where(marks, false, |s|)[p]]);
    }
  }

  lemma ObsoleteIsUntouched(s: Label, w: Session, k: nat)
    requires w.m.Fits(|s.texts|, |w.d|) && k < |Dropped(s.texts, w, true)|
    ensures exists j | 0 <= j < |w.d| :: Dropped(s.texts, w, true)[k] == w.d[j]
  {
    var marks := w.m.DstMarks();
    SelectIsWhere(RefreshAll(s.texts, w.d, w.m.dst, true), marks, false, |w.d|);
    var j := Where(marks, false, |w.d|)[k];
    assert !marks[j];
  }

  lemma MergedCounts(s: Label, d: Label, w: Session)
    requires w.m.Fits(|s.texts|, |w.d|)
    ensures |Dropped(s.texts, w, true)| == Tally(s, d, w).deletedStrings
    ensures |Clones(s.texts, w.m.SrcMarks(), |s.texts|)| == Tally(s, d, w).newStrings
    ensures |Merged(s.texts, w, true)| + |Dropped(s.texts, w, true)| == |w.d| + |Clones(s.texts, w.m.SrcMarks(), |s.texts|)|
  {
    var marks := w.m.DstMarks();
    var refreshed := RefreshAll(s.texts, w.d, w.m.dst, true);
    SelectIsWhere(refreshed, marks, true, |w.d|);
    SelectIsWhere(refreshed, marks, false, |w.d|);
    SelectIsWhere(s.texts, w.m.SrcMarks(), false, |s.texts|);
    CountSplit(marks, |w.d|);
  }

  lemma FinishConserves(s: Label, d: Label, w: Session, mode: Mode)
    requires mode.update && w.m.Fits(|s.texts|, |w.d|)
    ensures var r := Finish(s, d, w, mode);
            && |r.obsolete| == r.info.deletedStrings
            && |r.dest.texts| >= r.info.newStrings
            && |r.dest.texts| + r.info.deletedStrings == |w.d| + r.info.newStrings
            && r.dest.texts[|r.dest.texts| - r.info.newStrings..] == Clones(s.texts, w.m.SrcMarks(), |s.texts|)
            && multiset(Cargos(r.dest.texts)) + multiset(Cargos(r.obsolete))
               == multiset(Cargos(w.d)) + multiset(Cargos(Clones(s.texts, w.m.SrcMarks(), |s.texts|)))
  {
    hide Tally, Select;
    MergedCounts(s, d, w);
    var marks := w.m.DstMarks();
    var refreshed := RefreshAll(s.texts, w.d, w.m.dst, true);
    var kept, clones := Select(refreshed, marks, true, |w.d|), Clones(s.texts, w.m.SrcMarks(), |s.texts|);
    SelectSplit(Cargos(refreshed), marks, |w.d|);
    SelectCargos(refreshed, marks, true);
    SelectCargos(refreshed, marks, false);
    CargosOfSum(kept, clones);
    assert (kept + clones)[|kept|..] == clones;
    assert Cargos(refreshed)[..|w.d|] == Cargos(refreshed) == Cargos(w.d);
  }

  // ---------------------------------------------------------------------------------------
  // Lineage
  // ---------------------------------------------------------------------------------------

  /** Some text of the list has that string and, ignoring case, that wave. */
  predicate Looks(t: Text, s: seq<Text>) {
    exists i | 0 <= i < |s| :: t.str == s[i].str && SameIgnoringCase(t.wave, s[i].wave)
  }

  /** t is what updates from source texts s make of was: its translations, and its value or the looks of a source text. */
  predicate Descends(t: Text, was: Text, s: seq<Text>) {
    && t.translations == was.translations && t.revision >= was.revision
    && (t.(retranslate := false) == was.(retranslate := false) || Looks(t, s))
  }

  /** Every text of the list descends from one of the pool. */
  predicate Lineage(texts: seq<Text>, pool: seq<Text>, s: seq<Text>) {
    forall t | t in texts :: exists w | w in pool :: Descends(t, w, s)
  }

  lemma RefreshDescends(t: Text, s: seq<Text>, i: nat, was: Text)
    requires i < |s| && t.(retranslate := false) == was.(retranslate := false)
    ensures Descends(Refresh(t, s[i], true), was, s)
  {
    assert Looks(Refresh(t, s[i], true), s);
  }

  lemma SameButMark(a: seq<Text>, b: seq<Text>, j: nat)
    requires Unmarked(a) == Unmarked(b) && j < |a|
    ensures j < |b| && a[j].(retranslate := false) == b[j].(retranslate := false)
  {
    assert |Unmarked(a)| == |a| && |Unmarked(b)| == |b|;
    assert Unmarked(a)[j] == Unmarked(b)[j];
  }

  /** After an update every text of the label descends from one it had, or is one of the clones. */
  lemma LabelLineage(s: Label, d: Label, rank: nat -> nat, mode: Mode, asked: nat, t: Text)
    requires mode.update && t in UpdateLabel(s, d, rank, mode, asked).dest.texts
    ensures t in Added(s, d, rank, mode, asked) || exists w | w in d.texts :: Descends(t, w, s.texts)
  {
    hide Finish, AskFrom, MatchEqual, Descends;
    var r := UpdateLabel(s, d, rank, mode, asked);
    if r.code == Ok {
      var w := FinishedSession(s, d, rank, mode, asked);
      FinishConserves(s, d, w, mode);
      KeptDescends(s, d, w, mode, t);
    } else {
      SkipIsHarmless(s, d, rank, mode, asked);
      var j :| 0 <= j < |r.dest.texts| && r.dest.texts[j] == t;
      SameButMark(r.dest.texts, d.texts, j);
      ItselfDescends(t, d.texts[j], s.texts);
    }
  }

  lemma ItselfDescends(t: Text, was: Text, s: seq<Text>)
    requires t.(retranslate := false) == was.(retranslate := false)
    ensures Descends(t, was, s)
  {
  }

  lemma KeptDescends(s: Label, d: Label, w: Session, mode: Mode, t: Text)
    requires mode.update && w.m.Fits(|s.texts|, |w.d|) && Unmarked(w.d) == Unmarked(d.texts)
    requires t in Finish(s, d, w, mode).dest.texts
    ensures t in Clones(s.texts, w.m.SrcMarks(), |s.texts|) || exists was | was in d.texts :: Descends(t, was, s.texts)
  {
    hide Descends, Refresh;
    var marks, refreshed := w.m.DstMarks(), RefreshAll(s.texts, w.d, w.m.dst, true);
    if t in Select(refreshed, marks, true, |w.d|) {
      SelectIsWhere(refreshed, marks, true, |w.d|);
      var p :| 0 <= p < |Select(refreshed, marks, true, |w.d|)| && Select(refreshed, marks, true, |w.d|)[p] == t;
      var j := Where(marks, true, |w.d|)[p];
      SameButMark(w.d, d.texts, j);
      RefreshDescends(w.d[j], s.texts, w.m.dst[j], d.texts[j]);
    }
  }

  /** What an update moves to the obsolete list are texts of the label as they were, each at most once. */
  lemma MovedFromLabel(s: Label, d: Label, rank: nat -> nat, mode: Mode, asked: nat)
    requires mode.update
    ensures multiset(Unmarked(UpdateLabel(s, d, rank, mode, asked).obsolete)) <= multiset(Unmarked(d.texts))
  {
    hide Finish, AskFrom, MatchEqual, Select;
    var r := UpdateLabel(s, d, rank, mode, asked);
    if r.code == Ok {
      var w := FinishedSession(s, d, rank, mode, asked);
      DroppedParts(s, d, w, mode);
    } else {
      SkipIsHarmless(s, d, rank, mode, asked);
      assert Unmarked([]) == [];
    }
  }

  lemma DroppedParts(s: Label, d: Label, w: Session, mode: Mode)
    requires mode.update && w.m.Fits(|s.texts|, |w.d|)
    ensures multiset(Unmarked(Finish(s, d, w, mode).obsolete)) <= multiset(Unmarked(w.d))
  {
    var marks, refreshed := w.m.DstMarks(), RefreshAll(s.texts, w.d, w.m.dst, true);
    var was := Unmarked(w.d);
    SelectImage(refreshed, was, (t: Text) => t.(retranslate := false), marks, false, |w.d|);
    assert Unmarked(Select(refreshed, marks, false, |w.d|)) == Select(was, marks, false, |w.d|);
    SelectSplit(was, marks, |w.d|);
    assert was[..|w.d|] == was;
  }

  // ---------------------------------------------------------------------------------------
  // The dry run
  // ---------------------------------------------------------------------------------------

  /** A finished call clears the retranslate mark of text j: equal strings match it. */
  predicate Unmarks(s: Label, d: Label, rank: nat -> nat, j: nat)
    requires j < |d.texts|
  {
    NeedsNoQuestion(s, d, rank) && MatchEqual(s.texts, d.texts, rank, |s.texts|).value.dst[j] >= 0
  }

  /** The texts after a dry run, one by one. */
  lemma DryRunTexts(s: Label, d: Label, rank: nat -> nat, mode: Mode, asked: nat)
    requires !mode.update
    ensures var r := UpdateLabel(s, d, rank, mode, asked);
            && r.dest == d.(texts := r.dest.texts) && Unmarked(r.dest.texts) == Unmarked(d.texts)
            && r.obsolete == [] && r.asked == asked && |r.dest.texts| == |d.texts|
            && forall j | 0 <= j < |d.texts| ::
                 r.dest.texts[j].retranslate <==> d.texts[j].retranslate && !Unmarks(s, d, rank, j)
  {
    hide NeedsNoQuestion, MatchEqual, Tally;
    var first := MatchEqual(s.texts, d.texts, rank, |s.texts|);
    SkipStillMerges(s, d, rank, mode, asked);
    NoQuestionMatches(s, d, rank);
    if first.Some? {
      AskOnlyMarks(Session(first.value, d.texts, asked), 0, mode);
    }
  }

  lemma NoQuestionMatches(s: Label, d: Label, rank: nat -> nat)
    ensures NeedsNoQuestion(s, d, rank) ==> MatchEqual(s.texts, d.texts, rank, |s.texts|).Some?
  {
  }

  /**
   * A dry run asks nobody and moves nothing. Of the label it changes the retranslate marks alone: it
   * clears those of matched texts when it finishes.
   */
  lemma DryRunClearsMarks(s: Label, d: Label, rank: nat -> nat, mode: Mode, asked: nat)
    requires !mode.update
    ensures var r := UpdateLabel(s, d, rank, mode, asked);
            && r.dest == d.(texts := r.dest.texts) && Unmarked(r.dest.texts) == Unmarked(d.texts)
            && r.obsolete == [] && r.asked == asked && |r.dest.texts| == |d.texts|
            && (forall j | 0 <= j < |d.texts| ::
                  r.dest.texts[j].retranslate <==> d.texts[j].retranslate && !Unmarks(s, d, rank, j))
            && (r.dest == d <==> forall j | 0 <= j < |d.texts| && d.texts[j].retranslate :: !Unmarks(s, d, rank, j))
  {
    hide *;
    var r := UpdateLabel(s, d, rank, mode, asked);
    DryRunTexts(s, d, rank, mode, asked);
    assert r.dest == d.(texts := r.dest.texts);
    if forall j | 0 <= j < |d.texts| && d.texts[j].retranslate :: !Unmarks(s, d, rank, j) {
      SameMarks(d.texts, r.dest.texts);
    }
  }

  lemma {:induction false} FindUnmarked(a: seq<Text>, b: seq<Text>, rank: nat -> nat, key: string, n: nat)
    requires Unmarked(a) == Unmarked(b) && n <= |a|
    ensures n <= |b| && Find(a, rank, key, n) == Find(b, rank, key, n)
  {
    assert |a| == |Unmarked(a)| == |b|;
    if n > 0 {
      FindUnmarked(a, b, rank, key, n - 1);
      assert Unmarked(a)[n - 1].str == Unmarked(b)[n - 1].str;
    }
  }

  /** Matching does not look at retranslate marks. */
  lemma {:induction false} MatchUnmarked(s: seq<Text>, a: seq<Text>, b: seq<Text>, rank: nat -> nat, n: nat)
    requires Unmarked(a) == Unmarked(b) && n <= |s|
    ensures |a| == |b| && MatchEqual(s, a, rank, n) == MatchEqual(s, b, rank, n)
  {
    hide Find;
    assert |a| == |Unmarked(a)| == |b|;
    if n > 0 {
      MatchUnmarked(s, a, b, rank, n - 1);
      FindUnmarked(a, b, rank, s[n - 1].str, |a|);
    }
  }

  /** Texts that differ in marks alone, and have the same marks, are the same. */
  lemma SameMarks(a: seq<Text>, b: seq<Text>)
    requires Unmarked(a) == Unmarked(b) && |a| == |b|
    requires forall j | 0 <= j < |a| :: a[j].retranslate == b[j].retranslate
    ensures a == b
  {
    forall j | 0 <= j < |a| ensures a[j] == b[j] {
      assert Unmarked(a)[j] == Unmarked(b)[j];
    }
  }

  /** A label that agrees with its source but carries a mark: a check clears the mark. */
  lemma CheckClearsMark(rank: nat -> nat, mode: Mode)
    requires !mode.update
    ensures var s := Label("A", "", "", "", "", 0, [Text("x", "", 0, false, [])]);
            var d := s.(texts := [Text("x", "", 0, true, [])]);
            var r := UpdateLabel(s, d, rank, mode, 0);
            r.code == Ok && r.info.changes == 0 && r.dest == s && s != d
  {
    var s := Label("A", "", "", "", "", 0, [Text("x", "", 0, false, [])]);
    var d := s.(texts := [Text("x", "", 0, true, [])]);
    assert Find(d.texts, rank, "x", 0) == -1 && Find(d.texts, rank, "x", 1) == 0;
    assert MatchEqual(s.texts, d.texts, rank, 0) == Some(Unmatched(1, 1));
    assert MatchEqual(s.texts, d.texts, rank, 1) == Some(Unmatched(1, 1).Bind(0, 0));
    DryRunClearsMarks(s, d, rank, mode, 0);
    SkipStillMerges(s, d, rank, mode, 0);
    assert Unmarked(d.texts) == s.texts;
    CleanIsFullMatch(s, d, rank, mode);
  }

  /** A call that finds nothing to do and nothing to ask. */
  predicate Clean(s: Label, d: Label, rank: nat -> nat, mode: Mode) {
    var r := UpdateLabel(s, d, rank, mode, 0);
    r.code == Ok && r.info.changes == 0
  }

  /** The bin search depends on the key alone. */
  lemma {:induction false} FindByKey(d: seq<Text>, rank: nat -> nat, a: string, b: string, n: nat)
    requires n <= |d| && SameKey(a, b)
    ensures Find(d, rank, a, n) == Find(d, rank, b, n)
  {
    if n > 0 { FindByKey(d, rank, a, b, n - 1); }
  }

  lemma {:induction false} FindSomething(d: seq<Text>, rank: nat -> nat, key: string, n: nat, j: nat)
    requires j < n <= |d| && SameKey(d[j].str, key)
    ensures Find(d, rank, key, n) >= 0
  {
    if j < n - 1 { FindSomething(d, rank, key, n - 1, j); }
  }

  /** Two of the first n source texts reach the same destination text. */
  predicate Collision(s: seq<Text>, d: seq<Text>, rank: nat -> nat, n: nat)
    requires n <= |s|
  {
    exists i, k | 0 <= i < k < n ::
      Find(d, rank, s[i].str, |d|) >= 0 && Find(d, rank, s[i].str, |d|) == Find(d, rank, s[k].str, |d|)
  }

  /** Equal strings pair up through the bin search, unless two source texts reach the same text. */
  lemma {:induction false} MatchEqualIsFind(s: seq<Text>, d: seq<Text>, rank: nat -> nat, n: nat)
    requires n <= |s|
    ensures var r := MatchEqual(s, d, rank, n);
            && (r.Some? ==> forall i | 0 <= i < n :: r.value.src[i] == Find(d, rank, s[i].str, |d|))
            && (r.None? ==> Collision(s, d, rank, n))
  {
    hide Find;
    if n > 0 {
      MatchEqualIsFind(s, d, rank, n - 1);
      var before := MatchEqual(s, d, rank, n - 1);
      var j := Find(d, rank, s[n - 1].str, |d|);
      if before.Some? && j >= 0 && before.value.dst[j] >= 0 {
        var i := before.value.dst[j];
        assert before.value.src[i] == j;
        assert Find(d, rank, s[i].str, |d|) == Find(d, rank, s[n - 1].str, |d|);
      }
    }
  }

  lemma CollisionRepeatsKey(s: seq<Text>, d: seq<Text>, rank: nat -> nat)
    requires Collision(s, d, rank, |s|)
    ensures !DistinctKeys(s)
  {
    var i, k :| 0 <= i < k < |s| && Find(d, rank, s[i].str, |d|) >= 0
      && Find(d, rank, s[i].str, |d|) == Find(d, rank, s[k].str, |d|);
    assert SameKey(s[i].str, s[k].str);
  }

  lemma {:induction false} NoEdits(s: seq<Text>, d: seq<Text>, dst: seq<int>, n: nat)
    requires n <= |dst| == |d| && forall j | 0 <= j < |d| :: dst[j] < |s|
    ensures StringEdits(s, d, dst, n) + WaveEdits(s, d, dst, n) == 0 <==>
            forall j | 0 <= j < n && dst[j] >= 0 :: ViewOf(d[j]) == ViewOf(s[dst[j]])
  {
    if n > 0 { NoEdits(s, d, dst, n - 1); }
  }

  lemma {:induction false} NoneLeft(marks: seq<bool>, n: nat)
    requires n <= |marks|
    ensures Count(marks, false, n) == 0 <==> forall i | 0 <= i < n :: marks[i]
  {
    if n > 0 { NoneLeft(marks, n - 1); }
  }

  /** Every text of both sides is matched, and every pair looks the same. */
  predicate FullMatch(s: seq<Text>, d: seq<Text>, m: Matching)
    requires m.Fits(|s|, |d|)
  {
    && (forall i | 0 <= i < |s| :: m.src[i] >= 0)
    && m.AllDstMatched()
    && (forall j | 0 <= j < |d| && m.dst[j] >= 0 :: ViewOf(d[j]) == ViewOf(s[m.dst[j]]))
  }

  lemma TallyIsZero(s: Label, d: Label, w: Session)
    requires w.m.Fits(|s.texts|, |w.d|)
    ensures Tally(s, d, w).changes == 0 <==> FullMatch(s.texts, w.d, w.m) && SameMetadata(s, d)
  {
    NoEdits(s.texts, w.d, w.m.dst, |w.d|);
    NoneLeft(w.m.DstMarks(), |w.d|);
    NoneLeft(w.m.SrcMarks(), |s.texts|);
    assert forall i | 0 <= i < |s.texts| :: w.m.SrcMarks()[i] <==> w.m.src[i] >= 0;
    assert forall j | 0 <= j < |w.d| :: w.m.DstMarks()[j] <==> w.m.dst[j] >= 0;
  }

  /** Clean, spelled out on the matching of equal strings. */
  lemma CleanIsFullMatch(s: Label, d: Label, rank: nat -> nat, mode: Mode)
    requires !mode.update
    ensures var m := MatchEqual(s.texts, d.texts, rank, |s.texts|);
            Clean(s, d, rank, mode) <==> m.Some? && FullMatch(s.texts, d.texts, m.value) && SameMetadata(s, d)
  {
    var first := MatchEqual(s.texts, d.texts, rank, |s.texts|);
    if first.Some? {
      var w := Session(first.value, d.texts, 0);
      if NeedsNoQuestion(s, d, rank) {
        AskNothing(w, 0, mode);
        TallyIsZero(s, d, w);
      } else {
        var k :| 0 <= k < |s.texts| && first.value.src[k] < 0;
        AskSomething(w, 0, k, mode);
      }
    }
  }

  lemma FullMatchViews(s: seq<Text>, d: seq<Text>, m: Matching)
    requires m.Paired(|s|, |d|) && FullMatch(s, d, m)
    ensures multiset(Views(s)) == multiset(Views(d))
  {
    var a, b := Views(s), Views(d);
    MatchedPartsAgree(a, b, m);
    SelectAll(a, m.SrcMarks(), true, |a|);
    SelectAll(b, m.DstMarks(), true, |b|);
    assert a[..|a|] == a && b[..|b|] == b;
  }

  /** Source texts that are all matched have distinct keys: one key reaches one destination text. */
  lemma MatchedKeysDistinct(s: seq<Text>, d: seq<Text>, rank: nat -> nat)
    requires var m := MatchEqual(s, d, rank, |s|); m.Some? && forall i | 0 <= i < |s| :: m.value.src[i] >= 0
    ensures DistinctKeys(s)
  {
    var m := MatchEqual(s, d, rank, |s|).value;
    MatchEqualIsFind(s, d, rank, |s|);
    forall i, k | 0 <= i < k < |s| ensures m.src[i] != m.src[k] {
      assert m.dst[m.src[i]] == i && m.dst[m.src[k]] == k;
    }
    forall i, k | 0 <= i < k < |s| ensures !SameKey(s[i].str, s[k].str) {
      if SameKey(s[i].str, s[k].str) { FindByKey(d, rank, s[i].str, s[k].str, |d|); }
    }
  }

  /** A clean label agrees with its source, and its source has no key twice. */
  lemma CleanConverged(s: Label, d: Label, rank: nat -> nat, mode: Mode)
    requires !mode.update && Clean(s, d, rank, mode)
    ensures Converged(s, d) && DistinctKeys(s.texts)
  {
    CleanIsFullMatch(s, d, rank, mode);
    FullMatchViews(s.texts, d.texts, MatchEqual(s.texts, d.texts, rank, |s.texts|).value);
    MatchedKeysDistinct(s.texts, d.texts, rank);
  }

  /** An element that occurs twice occurs at two places. */
  lemma {:induction false} TwoPlaces<T>(xs: seq<T>, x: T)
    requires multiset(xs)[x] >= 2
    ensures exists i, k | 0 <= i < k < |xs| :: xs[i] == x && xs[k] == x
  {
    var n := |xs| - 1;
    assert xs == xs[..n] + [xs[n]];
    if xs[n] == x {
      assert x in multiset(xs[..n]);
      var i :| 0 <= i < n && xs[i] == x;
      assert 0 <= i < n < |xs|;
    } else {
      TwoPlaces(xs[..n], x);
      var i, k :| 0 <= i < k < n && xs[..n][i] == x && xs[..n][k] == x;
      assert xs[i] == x && xs[k] == x;
    }
  }

  lemma TwoPlacesCount<T>(xs: seq<T>, i: nat, k: nat)
    requires i < k < |xs| && xs[i] == xs[k]
    ensures multiset(xs)[xs[i]] >= 2
  {
    assert xs == xs[..k] + [xs[k]] + xs[k + 1..];
    assert xs[..k][i] in multiset(xs[..k]);
  }

  lemma RepeatedViewRepeatsKey(ts: seq<Text>, v: View)
    requires multiset(Views(ts))[v] >= 2
    ensures !DistinctKeys(ts)
  {
    TwoPlaces(Views(ts), v);
    var a, b :| 0 <= a < b < |Views(ts)| && Views(ts)[a] == v && Views(ts)[b] == v;
    assert SameKey(ts[a].str, ts[b].str);
  }

  lemma ViewInDest(s: Label, d: Label, i: nat) returns (j: nat)
    requires Converged(s, d) && i < |s.texts|
    ensures j < |d.texts| && ViewOf(d.texts[j]) == ViewOf(s.texts[i])
  {
    assert Views(s.texts)[i] in multiset(Views(d.texts));
    j :| 0 <= j < |Views(d.texts)| && Views(d.texts)[j] == Views(s.texts)[i];
  }

  lemma ViewInSource(s: Label, d: Label, j: nat) returns (i: nat)
    requires Converged(s, d) && j < |d.texts|
    ensures i < |s.texts| && ViewOf(d.texts[j]) == ViewOf(s.texts[i])
  {
    assert Views(d.texts)[j] in multiset(Views(s.texts));
    i :| 0 <= i < |Views(s.texts)| && Views(s.texts)[i] == Views(d.texts)[j];
  }

  /** With distinct keys in the source, one view cannot stand twice in a converged destination. */
  lemma OneViewOnePlace(s: Label, d: Label, j: nat, l: nat)
    requires Converged(s, d) && DistinctKeys(s.texts) && j < l < |d.texts|
    ensures ViewOf(d.texts[j]) != ViewOf(d.texts[l])
  {
    if ViewOf(d.texts[j]) == ViewOf(d.texts[l]) {
      TwoPlacesCount(Views(d.texts), j, l);
      RepeatedViewRepeatsKey(s.texts, Views(d.texts)[j]);
    }
  }

  /** Texts of a converged destination that are one key are one text. */
  lemma OneKeyOnePlace(s: Label, d: Label, j: nat, l: nat)
    requires Converged(s, d) && DistinctKeys(s.texts) && j < |d.texts| && l < |d.texts|
    requires SameKey(d.texts[j].str, d.texts[l].str)
    ensures j == l
  {
    var i := ViewInSource(s, d, j);
    var k := ViewInSource(s, d, l);
    assert SameKey(s.texts[i].str, s.texts[k].str) && SameKey(s.texts[k].str, s.texts[i].str);
    assert i == k;
    if j < l { OneViewOnePlace(s, d, j, l); }
    if l < j { OneViewOnePlace(s, d, l, j); }
  }

  /** In a converged label with distinct keys the bin search hits the text with the same view. */
  lemma FindHitsTwin(s: Label, d: Label, rank: nat -> nat, i: nat) returns (j: nat)
    requires Converged(s, d) && DistinctKeys(s.texts) && i < |s.texts|
    ensures j < |d.texts| && Find(d.texts, rank, s.texts[i].str, |d.texts|) == j
    ensures ViewOf(d.texts[j]) == ViewOf(s.texts[i])
  {
    j := ViewInDest(s, d, i);
    assert SameKey(d.texts[j].str, s.texts[i].str);
    FindSomething(d.texts, rank, s.texts[i].str, |d.texts|, j);
    OneKeyOnePlace(s, d, Find(d.texts, rank, s.texts[i].str, |d.texts|), j);
  }

  lemma NothingFatal(s: Label, d: Label, rank: nat -> nat)
    requires DistinctKeys(s.texts)
    ensures MatchEqual(s.texts, d.texts, rank, |s.texts|).Some?
  {
    MatchEqualIsFind(s.texts, d.texts, rank, |s.texts|);
    if Collision(s.texts, d.texts, rank, |s.texts|) { CollisionRepeatsKey(s.texts, d.texts, rank); }
  }

  /** Every destination text of a converged label is matched, to a source text that looks the same. */
  lemma DestTwinMatched(s: Label, d: Label, rank: nat -> nat, j: nat)
    requires Converged(s, d) && DistinctKeys(s.texts) && j < |d.texts|
    ensures var m := MatchEqual(s.texts, d.texts, rank, |s.texts|);
            m.Some? && m.value.dst[j] >= 0 && ViewOf(d.texts[j]) == ViewOf(s.texts[m.value.dst[j]])
  {
    NothingFatal(s, d, rank);
    MatchEqualIsFind(s.texts, d.texts, rank, |s.texts|);
    var i := ViewInSource(s, d, j);
    var f := FindHitsTwin(s, d, rank, i);
    assert SameKey(d.texts[f].str, d.texts[j].str);
    OneKeyOnePlace(s, d, f, j);
  }

  /** A converged label with distinct keys is matched completely, text by equal text. */
  lemma ConvergedMatches(s: Label, d: Label, rank: nat -> nat)
    requires Converged(s, d) && DistinctKeys(s.texts)
    ensures var m := MatchEqual(s.texts, d.texts, rank, |s.texts|); m.Some? && FullMatch(s.texts, d.texts, m.value)
  {
    NothingFatal(s, d, rank);
    MatchEqualIsFind(s.texts, d.texts, rank, |s.texts|);
    var m := MatchEqual(s.texts, d.texts, rank, |s.texts|).value;
    forall i | 0 <= i < |s.texts| ensures m.src[i] >= 0 {
      var _ := FindHitsTwin(s, d, rank, i);
    }
    forall j | 0 <= j < |d.texts| ensures m.dst[j] >= 0 && ViewOf(d.texts[j]) == ViewOf(s.texts[m.dst[j]]) {
      DestTwinMatched(s, d, rank, j);
    }
  }

  lemma ConvergedClean(s: Label, d: Label, rank: nat -> nat, mode: Mode)
    requires !mode.update && Converged(s, d) && DistinctKeys(s.texts)
    ensures Clean(s, d, rank, mode)
  {
    ConvergedMatches(s, d, rank);
    CleanIsFullMatch(s, d, rank, mode);
  }

  /** The check of one label is exact: it reports nothing if and only if the labels agree and no source key repeats. */
  lemma CheckIsExact(s: Label, d: Label, rank: nat -> nat, mode: Mode)
    requires !mode.update
    ensures Clean(s, d, rank, mode) <==> Converged(s, d) && DistinctKeys(s.texts)
  {
    if Clean(s, d, rank, mode) { CleanConverged(s, d, rank, mode); }
    if Converged(s, d) && DistinctKeys(s.texts) { ConvergedClean(s, d, rank, mode); }
  }
}
