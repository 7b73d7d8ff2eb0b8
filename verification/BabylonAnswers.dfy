/** What the user's answers make of a label, spelled out answer by answer and text by text. */
module BabylonAnswers {
  import opened Options
  import opened TextKeys
  import opened Selections
  import opened BabylonLabel
  import opened BabylonLabelLaws

  // ---------------------------------------------------------------------------------------
  // Equal texts
  // ---------------------------------------------------------------------------------------

  /** Of the destination texts that are one key with source text i, text j comes first in the text bin. */
  predicate Hits(s: seq<Text>, d: seq<Text>, rank: nat -> nat, i: nat, j: nat)
    requires i < |s| && j < |d|
  {
    SameKey(d[j].str, s[i].str) && Foremost(d, rank, s[i].str, j, |d|)
  }

  /** Of the first n texts with that key none comes before text j. */
  predicate Foremost(d: seq<Text>, rank: nat -> nat, key: string, j: nat, n: nat)
    requires n <= |d|
  {
    forall l | 0 <= l < n && SameKey(d[l].str, key) :: rank(j) < rank(l) || (rank(j) == rank(l) && j <= l)
  }

  /** equal[j] is the source text that hits destination text j, or -1. */
  predicate EqualTexts(s: seq<Text>, d: seq<Text>, rank: nat -> nat, equal: seq<int>) {
    && |equal| == |d| && (forall j | 0 <= j < |d| :: -1 <= equal[j] < |s|)
    && forall i, j | 0 <= i < |s| && 0 <= j < |d| :: equal[j] == i <==> Hits(s, d, rank, i, j)
  }

  lemma {:induction false} FindIsForemost(d: seq<Text>, rank: nat -> nat, key: string, n: nat)
    requires n <= |d|
    ensures var f := Find(d, rank, key, n);
            if f < 0 then forall l | 0 <= l < n :: !SameKey(d[l].str, key)
            else SameKey(d[f].str, key) && Foremost(d, rank, key, f, n)
  {
    hide SameKey;
    if n > 0 { FindIsForemost(d, rank, key, n - 1); }
  }

  lemma HitsFind(s: seq<Text>, d: seq<Text>, rank: nat -> nat, i: nat, j: nat)
    requires i < |s| && j < |d|
    ensures Hits(s, d, rank, i, j) <==> Find(d, rank, s[i].str, |d|) == j
  {
    hide SameKey, Find;
    FindIsForemost(d, rank, s[i].str, |d|);
  }

  /** The first loop of UpdateLabel pairs each text with the source text that hits it. */
  lemma MatchEqualHits(s: seq<Text>, d: seq<Text>, rank: nat -> nat)
    requires MatchEqual(s, d, rank, |s|).Some?
    ensures EqualTexts(s, d, rank, MatchEqual(s, d, rank, |s|).value.dst)
  {
    hide MatchEqual, Find, Hits;
    var m := MatchEqual(s, d, rank, |s|).value;
    MatchEqualIsFind(s, d, rank, |s|);
    forall i, j | 0 <= i < |s| && 0 <= j < |d| ensures m.dst[j] == i <==> Hits(s, d, rank, i, j) {
      HitsFind(s, d, rank, i, j);
    }
  }

  // ---------------------------------------------------------------------------------------
  // The conversation
  // ---------------------------------------------------------------------------------------

  /** One dialog: the source text it is about, the answer, and the destination text that picks (or -1). */
  datatype Turn = Turn(src: nat, target: int, answer: Answer)

  predicate Stops(a: Answer) { a.Cancel? || a.Skip? }

  /** The last dialog that picked destination text j, or -1. */
  function LastTurn(log: seq<Turn>, j: nat): (r: int)
    ensures -1 <= r < |log| && (r >= 0 ==> log[r].target == j)
  {
    if log == [] then -1
    else if log[|log| - 1].target == j then |log| - 1
    else LastTurn(log[..|log| - 1], j)
  }

  /** The source text destination text j is matched to. */
  function Partner(equal: seq<int>, log: seq<Turn>, j: nat): int
    requires j < |equal|
  {
    var k := LastTurn(log, j);
    if k >= 0 then log[k].src else equal[j]
  }

  predicate Free(equal: seq<int>, log: seq<Turn>, j: nat)
    requires j < |equal|
  {
    equal[j] < 0 && LastTurn(log, j) < 0
  }

  /** How many of the first n destination texts are still without a partner. */
  function FreeBefore(equal: seq<int>, log: seq<Turn>, n: nat): nat
    requires n <= |equal|
  {
    if n == 0 then 0 else FreeBefore(equal, log, n - 1) + if Free(equal, log, n - 1) then 1 else 0
  }

  /**
   * The retranslate mark an answer leaves on the text it picks. Where labels hold many texts, the match
   * dialog sets it to the state of its box; otherwise Match sets it, NoMatch clears it, and Plain leaves it.
   */
  function MarkOf(a: Answer, was: bool, multiText: bool): bool {
    match a
    case Match(_, box) => if multiText then box else true
    case NoMatch => false
    case _ => was
  }

  /** The retranslate mark of text j after the dialogs. */
  function MarkAfter(was: bool, log: seq<Turn>, j: nat, multiText: bool): bool {
    if log == [] then was
    else
      var t, before := log[|log| - 1], MarkAfter(was, log[..|log| - 1], j, multiText);
      if t.target == j then MarkOf(t.answer, before, multiText) else before
  }

  /**
   * What an answer picks. In a label of many texts it is the row of the list of texts still without a
   * partner, and nothing when the list is shorter; in a label of one text it is that text.
   */
  predicate Picks(equal: seq<int>, log: seq<Turn>, t: Turn, multiText: bool) {
    && -1 <= t.target < |equal|
    && match t.answer
       case Cancel => t.target == -1
       case Skip => t.target == -1
       case Match(row, _) =>
         if !multiText then t.target == 0
         else if t.target < 0 then FreeBefore(equal, log, |equal|) <= row
         else Free(equal, log, t.target) && FreeBefore(equal, log, t.target) == row
       case _ => t.target == if multiText then -1 else 0
  }

  predicate Asked(log: seq<Turn>, i: nat) { exists k | 0 <= k < |log| :: log[k].src == i }

  predicate Answered(log: seq<Turn>, i: nat) { exists k | 0 <= k < |log| :: log[k].src == i && log[k].target >= 0 }

  /** Dialog k is about a source text without an equal one, while some destination text is free. */
  predicate TurnFits(equal: seq<int>, ns: nat, log: seq<Turn>, k: nat, mode: Mode, asked: nat)
    requires k < |log|
  {
    && log[k].src < ns && log[k].src !in equal && log[k].answer == mode.answers(asked + k)
    && FreeBefore(equal, log[..k], |equal|) > 0 && Picks(equal, log[..k], log[k], mode.multiText)
  }

  /** The dialogs in order: about the source texts in their order, none left out, and none behind a stop. */
  predicate Talk(equal: seq<int>, ns: nat, log: seq<Turn>, mode: Mode, asked: nat) {
    && (forall k | 0 <= k < |log| :: TurnFits(equal, ns, log, k, mode, asked))
    && InTurn(log) && NoneLeftOut(equal, log) && (!mode.update || mode.skip ==> log == [])
  }

  predicate InTurn(log: seq<Turn>) {
    forall k, l | 0 <= k < l < |log| :: log[k].src < log[l].src && !Stops(log[k].answer)
  }

  predicate NoneLeftOut(equal: seq<int>, log: seq<Turn>) {
    forall i, k | 0 <= k < |log| && 0 <= i < log[k].src && i !in equal :: Asked(log, i)
  }

  /** No text is left to ask about: the destination has none, or the source has none. */
  predicate TalkedOut(equal: seq<int>, ns: nat, log: seq<Turn>) {
    FreeBefore(equal, log, |equal|) == 0 || forall i | 0 <= i < ns && i !in equal :: Asked(log, i)
  }

  /** What the dialogs return. */
  predicate Concludes(equal: seq<int>, ns: nat, log: seq<Turn>, code: Code) {
    && (code == Cancelled <==> log != [] && log[|log| - 1].answer.Cancel?)
    && (code == Ok <==> (log == [] || !Stops(log[|log| - 1].answer)) && TalkedOut(equal, ns, log))
    && code != Fatal
  }

  /** The session after the dialogs. */
  predicate Describes(m: Matching, d: seq<Text>, asked: nat, multiText: bool, log: seq<Turn>, w: Session) {
    && |w.d| == |d| == |m.dst| == |w.m.dst| && |w.m.src| == |m.src| && w.asked == asked + |log|
    && (forall j | 0 <= j < |d| :: w.m.dst[j] == Partner(m.dst, log, j))
    && (forall j | 0 <= j < |d| :: w.d[j] == d[j].(retranslate := MarkAfter(d[j].retranslate, log, j, multiText)))
    && (forall i | 0 <= i < |m.src| :: w.m.src[i] >= 0 <==> m.src[i] >= 0 || Answered(log, i))
  }

  lemma Push(log: seq<Turn>, t: Turn, j: nat, was: bool, multiText: bool)
    ensures LastTurn(log + [t], j) == if t.target == j then |log| else LastTurn(log, j)
    ensures var before := MarkAfter(was, log, j, multiText);
            MarkAfter(was, log + [t], j, multiText) == if t.target == j then MarkOf(t.answer, before, multiText) else before
  {
    assert (log + [t])[..|log|] == log;
  }

  lemma AnsweredPush(log: seq<Turn>, t: Turn, i: nat)
    ensures Answered(log + [t], i) <==> Answered(log, i) || (t.src == i && t.target >= 0)
    ensures Asked(log + [t], i) <==> Asked(log, i) || t.src == i
  {
    var all := log + [t];
    assert all[|log|] == t;
    if Answered(log, i) {
      var k :| 0 <= k < |log| && log[k].src == i && log[k].target >= 0;
      assert all[k] == log[k];
    }
    if Asked(log, i) {
      var k :| 0 <= k < |log| && log[k].src == i;
      assert all[k] == log[k];
    }
  }

  /** Row p of the list of marked positions has p of them before it. */
  lemma {:induction false} WhereRow(marks: seq<bool>, want: bool, n: nat, p: nat)
    requires n <= |marks| && p < |Where(marks, want, n)|
    ensures Count(marks, want, Where(marks, want, n)[p]) == p
  {
    if p < |Where(marks, want, n - 1)| {
      WhereRow(marks, want, n - 1, p);
    } else {
      WhereSize(marks, want, n - 1);
    }
  }

  lemma {:induction false} WhereSize(marks: seq<bool>, want: bool, n: nat)
    requires n <= |marks|
    ensures |Where(marks, want, n)| == Count(marks, want, n)
  {
    if n > 0 { WhereSize(marks, want, n - 1); }
  }

  lemma MarksAreFree(m: Matching, d: seq<Text>, asked: nat, multiText: bool, log: seq<Turn>, w: Session, j: nat)
    requires Describes(m, d, asked, multiText, log, w) && j < |d|
    ensures |w.m.DstMarks()| == |d| && (w.m.DstMarks()[j] <==> !Free(m.dst, log, j))
  {
  }

  lemma {:induction false} CountFree(m: Matching, d: seq<Text>, asked: nat, multiText: bool, log: seq<Turn>, w: Session, n: nat)
    requires Describes(m, d, asked, multiText, log, w) && n <= |d|
    ensures |w.m.DstMarks()| == |d| && Count(w.m.DstMarks(), false, n) == FreeBefore(m.dst, log, n)
  {
    if n > 0 {
      CountFree(m, d, asked, multiText, log, w, n - 1);
      hide Free;
      MarksAreFree(m, d, asked, multiText, log, w, n - 1);
    }
  }

  lemma AllMatchedIsNoneFree(m: Matching, d: seq<Text>, asked: nat, multiText: bool, log: seq<Turn>, w: Session)
    requires Describes(m, d, asked, multiText, log, w)
    ensures w.m.AllDstMatched() <==> FreeBefore(m.dst, log, |d|) == 0
  {
    CountFree(m, d, asked, multiText, log, w, |d|);
    NoneLeft(w.m.DstMarks(), |d|);
    assert forall j | 0 <= j < |d| :: w.m.DstMarks()[j] <==> w.m.dst[j] >= 0;
  }

  /** The dialog picks as its answer says. */
  lemma DialogPicks(m: Matching, d: seq<Text>, asked: nat, multiText: bool, log: seq<Turn>, w: Session, i: nat, a: Answer)
    requires Describes(m, d, asked, multiText, log, w) && |d| > 0
    ensures match Dialog(a, multiText, w.m.DstMarks())
            case Stop(code) => Stops(a) && (code == Cancelled <==> a.Cancel?) && code != Ok
                               && Picks(m.dst, log, Turn(i, -1, a), multiText)
            case Go(target, mark) =>
              && !Stops(a) && Picks(m.dst, log, Turn(i, target, a), multiText)
              && (target >= 0 ==> forall was: bool ::
                    MarkOf(a, was, multiText) == if mark.Some? then mark.value else was)
  {
    hide Describes, FreeBefore, Free;
    DescribesSizes(m, d, asked, multiText, log, w);
    var marks, n := w.m.DstMarks(), |d|;
    if a.Match? && multiText {
      CountFree(m, d, asked, multiText, log, w, n);
      WhereSize(marks, false, n);
      var rows := Where(marks, false, n);
      if a.row < |rows| {
        WhereRow(marks, false, n, a.row);
        CountFree(m, d, asked, multiText, log, w, rows[a.row]);
        MarksAreFree(m, d, asked, multiText, log, w, rows[a.row]);
      }
    }
  }

  lemma DescribesSizes(m: Matching, d: seq<Text>, asked: nat, multiText: bool, log: seq<Turn>, w: Session)
    requires Describes(m, d, asked, multiText, log, w)
    ensures |w.d| == |d| == |m.dst| == |w.m.dst| == |w.m.DstMarks()| && |w.m.src| == |m.src| && w.asked == asked + |log|
  {
  }

  /** One more dialog that picks nothing. */
  lemma DescribesIdle(m: Matching, d: seq<Text>, asked: nat, multiText: bool, log: seq<Turn>, w: Session, t: Turn)
    requires Describes(m, d, asked, multiText, log, w) && t.target < 0
    ensures Describes(m, d, asked, multiText, log + [t], w.(asked := w.asked + 1))
  {
    hide LastTurn, MarkAfter, Answered;
    forall j | 0 <= j < |d|
      ensures Partner(m.dst, log + [t], j) == Partner(m.dst, log, j)
      ensures MarkAfter(d[j].retranslate, log + [t], j, multiText) == MarkAfter(d[j].retranslate, log, j, multiText)
    {
      Push(log, t, j, d[j].retranslate, multiText);
    }
    forall i | 0 <= i < |m.src| ensures Answered(log + [t], i) <==> Answered(log, i) { AnsweredPush(log, t, i); }
  }

  /** One more dialog that picks a text. */
  lemma DescribesSettled(m: Matching, d: seq<Text>, asked: nat, multiText: bool, log: seq<Turn>, w: Session,
                         t: Turn, mark: Option<bool>)
    requires Describes(m, d, asked, multiText, log, w) && 0 <= t.target < |d| && t.src < |m.src|
    requires forall was: bool :: MarkOf(t.answer, was, multiText) == if mark.Some? then mark.value else was
    ensures Describes(m, d, asked, multiText, log + [t], Settle(w, t.src, t.target, mark))
  {
    hide LastTurn, MarkAfter, Answered, MarkOf;
    var v := Settle(w, t.src, t.target, mark);
    forall j | 0 <= j < |d|
      ensures v.m.dst[j] == Partner(m.dst, log + [t], j)
      ensures v.d[j] == d[j].(retranslate := MarkAfter(d[j].retranslate, log + [t], j, multiText))
    {
      Push(log, t, j, d[j].retranslate, multiText);
    }
    forall i | 0 <= i < |m.src| ensures v.m.src[i] >= 0 <==> m.src[i] >= 0 || Answered(log + [t], i) {
      AnsweredPush(log, t, i);
    }
  }

  /** Source texts before i without an equal one have been asked about, and no dialog stopped. */
  predicate Upto(equal: seq<int>, log: seq<Turn>, i: nat) {
    && (forall k | 0 <= k < |log| :: log[k].src < i && !Stops(log[k].answer))
    && forall x | 0 <= x < i && x !in equal :: Asked(log, x)
  }

  /** Source texts without a partner are those that hit nothing. */
  lemma LonelyIsUnmatched(m: Matching, ns: nat, nd: nat, i: nat)
    requires m.Paired(ns, nd) && i < ns
    ensures i in m.dst <==> m.src[i] >= 0
  {
    if i in m.dst {
      var j :| 0 <= j < nd && m.dst[j] == i;
    }
    if m.src[i] >= 0 { assert m.dst[m.src[i]] == i; }
  }

  lemma TurnsPush(equal: seq<int>, ns: nat, log: seq<Turn>, mode: Mode, asked: nat, t: Turn)
    requires forall k | 0 <= k < |log| :: TurnFits(equal, ns, log, k, mode, asked)
    requires t.src < ns && t.src !in equal && t.answer == mode.answers(asked + |log|)
    requires FreeBefore(equal, log, |equal|) > 0 && Picks(equal, log, t, mode.multiText)
    ensures forall k | 0 <= k < |log + [t]| :: TurnFits(equal, ns, log + [t], k, mode, asked)
  {
    hide FreeBefore, Picks;
    var all := log + [t];
    forall k | 0 <= k < |all| ensures TurnFits(equal, ns, all, k, mode, asked) {
      if k < |log| {
        assert TurnFits(equal, ns, log, k, mode, asked) && all[..k] == log[..k] && all[k] == log[k];
      } else {
        assert all[..k] == log;
      }
    }
  }

  lemma UptoPush(equal: seq<int>, log: seq<Turn>, t: Turn)
    requires Upto(equal, log, t.src) && !Stops(t.answer)
    ensures Upto(equal, log + [t], t.src + 1)
  {
    hide Asked, Stops;
    forall x | 0 <= x < t.src + 1 && x !in equal ensures Asked(log + [t], x) { AnsweredPush(log, t, x); }
  }

  lemma NoneLeftOutPush(equal: seq<int>, log: seq<Turn>, t: Turn)
    requires Upto(equal, log, t.src) && InTurn(log)
    ensures NoneLeftOut(equal, log + [t]) && InTurn(log + [t])
  {
    hide Asked, Stops;
    var all := log + [t];
    forall i, k | 0 <= k < |all| && 0 <= i < all[k].src && i !in equal ensures Asked(all, i) {
      assert i < t.src;
      AnsweredPush(log, t, i);
    }
    InTurnPush(equal, log, t);
  }

  lemma InTurnPush(equal: seq<int>, log: seq<Turn>, t: Turn)
    requires Upto(equal, log, t.src) && InTurn(log)
    ensures InTurn(log + [t])
  {
    hide Asked, Stops;
  }

  lemma TalkPush(equal: seq<int>, ns: nat, log: seq<Turn>, mode: Mode, asked: nat, t: Turn)
    requires Talk(equal, ns, log, mode, asked) && Upto(equal, log, t.src) && mode.update && !mode.skip
    requires t.src < ns && t.src !in equal && t.answer == mode.answers(asked + |log|)
    requires FreeBefore(equal, log, |equal|) > 0 && Picks(equal, log, t, mode.multiText)
    ensures Talk(equal, ns, log + [t], mode, asked)
    ensures !Stops(t.answer) ==> Upto(equal, log + [t], t.src + 1)
  {
    hide FreeBefore, Picks, TurnFits, InTurn, NoneLeftOut, Upto, Stops;
    TurnsPush(equal, ns, log, mode, asked, t);
    NoneLeftOutPush(equal, log, t);
    if !Stops(t.answer) { UptoPush(equal, log, t); }
  }

  lemma UptoNext(equal: seq<int>, log: seq<Turn>, i: nat)
    requires Upto(equal, log, i) && i in equal
    ensures Upto(equal, log, i + 1)
  {
  }

  /** The second loop of UpdateLabel is a conversation. */
  lemma {:induction false} Converse(m: Matching, d: seq<Text>, log: seq<Turn>, w: Session, i: nat, mode: Mode, asked: nat)
    returns (full: seq<Turn>)
    requires m.Paired(|m.src|, |d|) && i <= |m.src| && Describes(m, d, asked, mode.multiText, log, w)
    requires Talk(m.dst, |m.src|, log, mode, asked) && Upto(m.dst, log, i)
    ensures var r := AskFrom(w, i, mode);
            && Describes(m, d, asked, mode.multiText, full, r.1) && Talk(m.dst, |m.src|, full, mode, asked)
            && Concludes(m.dst, |m.src|, full, r.0)
    decreases |m.src| - i
  {
    hide Describes, Talk, FreeBefore, Picks, Upto, TalkedOut, Stops, Settle, Matching.AllDstMatched, Matching.Paired;
    DescribesSizes(m, d, asked, mode.multiText, log, w);
    AllMatchedIsNoneFree(m, d, asked, mode.multiText, log, w);
    full := log;
    if i == |m.src| || w.m.AllDstMatched() {
      UptoEnds(m.dst, |m.src|, log, i);
    } else {
      LonelyIsUnmatched(m, |m.src|, |d|, i);
      NotAnsweredYet(m, d, asked, mode.multiText, log, w, i);
      if w.m.src[i] >= 0 {
        UptoNext(m.dst, log, i);
        full := Converse(m, d, log, w, i + 1, mode, asked);
      } else if !mode.update || mode.skip {
        NobodyAsked(m.dst, |m.src|, log, mode, asked, i);
      } else {
        full := ConverseOn(m, d, log, w, i, mode, asked);
      }
    }
  }

  /** The loop asks about source text i. */
  lemma {:induction false} ConverseOn(m: Matching, d: seq<Text>, log: seq<Turn>, w: Session, i: nat, mode: Mode, asked: nat)
    returns (full: seq<Turn>)
    requires m.Paired(|m.src|, |d|) && i < |m.src| && Describes(m, d, asked, mode.multiText, log, w)
    requires Talk(m.dst, |m.src|, log, mode, asked) && Upto(m.dst, log, i) && i !in m.dst
    requires |w.m.src| == |m.src| && |w.m.dst| == |w.d|
    requires mode.update && !mode.skip && !w.m.AllDstMatched() && w.m.src[i] < 0 && FreeBefore(m.dst, log, |m.dst|) > 0
    ensures var r := AskFrom(w, i, mode);
            && Describes(m, d, asked, mode.multiText, full, r.1) && Talk(m.dst, |m.src|, full, mode, asked)
            && Concludes(m.dst, |m.src|, full, r.0)
    decreases |m.src| - i, 0
  {
    hide Describes, Talk, FreeBefore, Picks, Upto, TalkedOut, Settle, Matching.AllDstMatched, Matching.Paired, Stops, Dialog;
    DescribesSizes(m, d, asked, mode.multiText, log, w);
    var a := mode.answers(w.asked);
    SomeFree(m.dst, log);
    DialogPicks(m, d, asked, mode.multiText, log, w, i, a);
    match Dialog(a, mode.multiText, w.m.DstMarks())
    case Stop(code) =>
      var t := Turn(i, -1, a);
      full := log + [t];
      TalkPush(m.dst, |m.src|, log, mode, asked, t);
      DescribesIdle(m, d, asked, mode.multiText, log, w, t);
      StopConcludes(m.dst, |m.src|, full, code);
    case Go(target, mark) =>
      var t := Turn(i, target, a);
      TalkPush(m.dst, |m.src|, log, mode, asked, t);
      SettleDescribes(m, d, asked, mode.multiText, log, w, t, mark);
      full := Converse(m, d, log + [t], Settle(w, i, target, mark), i + 1, mode, asked);
  }

  lemma SomeFree(equal: seq<int>, log: seq<Turn>)
    requires FreeBefore(equal, log, |equal|) > 0
    ensures |equal| > 0
  {
  }

  lemma StopConcludes(equal: seq<int>, ns: nat, log: seq<Turn>, code: Code)
    requires log != [] && Stops(log[|log| - 1].answer) && (code == Cancelled <==> log[|log| - 1].answer.Cancel?)
    requires code != Ok && code != Fatal
    ensures Concludes(equal, ns, log, code)
  {
    hide TalkedOut;
  }

  lemma SettleDescribes(m: Matching, d: seq<Text>, asked: nat, multiText: bool, log: seq<Turn>, w: Session,
                        t: Turn, mark: Option<bool>)
    requires Describes(m, d, asked, multiText, log, w) && t.target < |d| && t.src < |m.src|
    requires |w.m.src| == |m.src| && |w.d| == |w.m.dst| == |d|
    requires t.target >= 0 ==> forall was: bool :: MarkOf(t.answer, was, multiText) == if mark.Some? then mark.value else was
    ensures Describes(m, d, asked, multiText, log + [t], Settle(w, t.src, t.target, mark))
  {
    hide Describes;
    if t.target >= 0 {
      DescribesSettled(m, d, asked, multiText, log, w, t, mark);
    } else {
      DescribesIdle(m, d, asked, multiText, log, w, t);
    }
  }

  lemma NotAnsweredYet(m: Matching, d: seq<Text>, asked: nat, multiText: bool, log: seq<Turn>, w: Session, i: nat)
    requires Describes(m, d, asked, multiText, log, w) && i < |m.src| && Upto(m.dst, log, i)
    ensures |w.m.src| == |m.src| && (w.m.src[i] >= 0 <==> m.src[i] >= 0)
  {
  }

  lemma UptoEnds(equal: seq<int>, ns: nat, log: seq<Turn>, i: nat)
    requires Upto(equal, log, i) && (i == ns || FreeBefore(equal, log, |equal|) == 0)
    ensures Concludes(equal, ns, log, Ok)
  {
    hide FreeBefore, Asked;
  }

  lemma NobodyAsked(equal: seq<int>, ns: nat, log: seq<Turn>, mode: Mode, asked: nat, i: nat)
    requires Talk(equal, ns, log, mode, asked) && (!mode.update || mode.skip) && i < ns && i !in equal
    requires FreeBefore(equal, log, |equal|) > 0
    ensures Concludes(equal, ns, log, Skipped)
  {
    hide FreeBefore;
    assert log == [] && !Asked(log, i);
  }

  lemma NothingSaid(m: Matching, d: seq<Text>, asked: nat, mode: Mode)
    requires |m.dst| == |d|
    ensures Describes(m, d, asked, mode.multiText, [], Session(m, d, asked))
    ensures Talk(m.dst, |m.src|, [], mode, asked) && Upto(m.dst, [], 0)
  {
  }

  // ---------------------------------------------------------------------------------------
  // The label afterwards
  // ---------------------------------------------------------------------------------------

  ghost predicate Kept(equal: seq<int>, log: seq<Turn>, kept: seq<nat>) {
    Ascending(kept, 0, |equal|) && forall j: nat :: j in kept <==> j < |equal| && Partner(equal, log, j) >= 0
  }

  ghost predicate Gone(equal: seq<int>, log: seq<Turn>, gone: seq<nat>) {
    Ascending(gone, 0, |equal|) && forall j: nat :: j in gone <==> j < |equal| && Partner(equal, log, j) < 0
  }

  ghost predicate Copies(equal: seq<int>, log: seq<Turn>, ns: nat, added: seq<nat>) {
    Ascending(added, 0, ns) && forall i: nat :: i in added <==> i < ns && i !in equal && !Answered(log, i)
  }

  predicate Edited(s: seq<Text>, d: seq<Text>, equal: seq<int>, log: seq<Turn>, j: nat)
    requires j < |d| == |equal| && Partner(equal, log, j) < |s|
  {
    Partner(equal, log, j) >= 0 && d[j].str != s[Partner(equal, log, j)].str
  }

  predicate Rewaved(s: seq<Text>, d: seq<Text>, equal: seq<int>, log: seq<Turn>, j: nat)
    requires j < |d| == |equal| && Partner(equal, log, j) < |s|
  {
    Partner(equal, log, j) >= 0 && !SameIgnoringCase(d[j].wave, s[Partner(equal, log, j)].wave)
  }

  ghost predicate AreEdited(s: seq<Text>, d: seq<Text>, equal: seq<int>, log: seq<Turn>, edited: seq<nat>)
    requires |equal| == |d| && forall j | 0 <= j < |d| :: Partner(equal, log, j) < |s|
  {
    Ascending(edited, 0, |d|) && forall j: nat :: j in edited <==> j < |d| && Edited(s, d, equal, log, j)
  }

  ghost predicate AreRewaved(s: seq<Text>, d: seq<Text>, equal: seq<int>, log: seq<Turn>, rewaved: seq<nat>)
    requires |equal| == |d| && forall j | 0 <= j < |d| :: Partner(equal, log, j) < |s|
  {
    Ascending(rewaved, 0, |d|) && forall j: nat :: j in rewaved <==> j < |d| && Rewaved(s, d, equal, log, j)
  }

  /**
   * The account of a call that returns IDOK: the equal texts, the dialogs, the destination texts with and
   * without a partner, the source texts without one, and the destination texts whose string or whose wave
   * differs from their partner's.
   */
  datatype Account = Account(equal: seq<int>, log: seq<Turn>, kept: seq<nat>, gone: seq<nat>, added: seq<nat>,
                             edited: seq<nat>, rewaved: seq<nat>)
  {
    /** Its lists are what they say. */
    ghost predicate Tells(s: seq<Text>, d: seq<Text>) {
      && |equal| == |d| && (forall j | 0 <= j < |d| :: Partner(equal, log, j) < |s|)
      && Kept(equal, log, kept) && Gone(equal, log, gone) && Copies(equal, log, |s|, added)
      && AreEdited(s, d, equal, log, edited) && AreRewaved(s, d, equal, log, rewaved)
    }

    /** Whether text j carries the retranslate mark when the dialogs have ended. */
    predicate Marked(d: seq<Text>, j: nat, multiText: bool)
      requires j < |d|
    {
      MarkAfter(d[j].retranslate, log, j, multiText)
    }
  }

  /**
   * An updated text: its partner's string and wave, though a wave that differs in case alone stays; the
   * revision one higher exactly when it was marked; no mark; its own translations.
   */
  predicate Brought(now: Text, was: Text, from: Text, marked: bool) {
    && now.str == from.str && SameIgnoringCase(now.wave, from.wave) && (now.wave == was.wave || now.wave == from.wave)
    && (SameIgnoringCase(was.wave, from.wave) ==> now.wave == was.wave)
    && now.revision == was.revision + (if marked then 1 else 0)
    && !now.retranslate && now.translations == was.translations
  }

  /** A copied text: the same but for the mark. */
  predicate Copied(now: Text, from: Text) {
    && now.str == from.str && now.wave == from.wave && now.revision == from.revision
    && !now.retranslate && now.translations == from.translations
  }

  /** A metadata field changes when it differs beyond case. */
  predicate Replaced(now: string, was: string, from: string) {
    now == if SameIgnoringCase(was, from) then was else from
  }

  /**
   * The label after an update: the texts with a partner in their order, brought up to date, then copies of
   * the source texts without one in theirs; dropped are the texts without a partner, as they were.
   */
  ghost predicate Renews(s: Label, d: Label, multiText: bool, x: Account, after: Label, dropped: seq<Text>) {
    && x.Tells(s.texts, d.texts) && |after.texts| == |x.kept| + |x.added|
    && (forall p | 0 <= p < |x.kept| ::
          var j := x.kept[p];
          Brought(after.texts[p], d.texts[j], s.texts[Partner(x.equal, x.log, j)], x.Marked(d.texts, j, multiText)))
    && (forall q | 0 <= q < |x.added| :: Copied(after.texts[|x.kept| + q], s.texts[x.added[q]]))
    && dropped == Pick(d.texts, x.gone)
    && after.name == d.name && Replaced(after.comment, d.comment, s.comment)
    && Replaced(after.context, d.context, s.context) && Replaced(after.speaker, d.speaker, s.speaker)
    && Replaced(after.listener, d.listener, s.listener) && after.maxLen == s.maxLen
  }

  /** What a finished call counts. */
  ghost predicate Counted(s: Label, d: Label, multiText: bool, x: Account, info: Info) {
    && x.Tells(s.texts, d.texts)
    && info.newStrings == |x.added| && info.deletedStrings == |x.gone|
    && info.modifiedStrings == |x.edited| && info.updatedWaves == |x.rewaved|
    && info.updatedComments == (if SameIgnoringCase(s.comment, d.comment) then 0 else 1)
    && info.updatedContexts == (if SameIgnoringCase(s.context, d.context) then 0 else 1)
    && info.updatedSpeakers == (if SameIgnoringCase(s.speaker, d.speaker) then 0 else 1)
    && info.updatedListeners == (if SameIgnoringCase(s.listener, d.listener) then 0 else 1)
    && info.updatedMaxLen == (if s.maxLen == d.maxLen then 0 else 1)
    && info.newLabels == info.deletedLabels == info.skippedLabels == 0
    && info.changes == info.newStrings + info.deletedStrings + info.modifiedStrings + info.updatedWaves
                       + info.updatedComments + info.updatedContexts + info.updatedSpeakers + info.updatedListeners
                       + info.updatedMaxLen
    && info.modifiedLabels == (if info.changes > 0 || HasMark(d, multiText, x) then 1 else 0)
  }

  /** Some text with a partner is marked for retranslation when the dialogs have ended. */
  ghost predicate HasMark(d: Label, multiText: bool, x: Account)
    requires Ascending(x.kept, 0, |d.texts|)
  {
    exists p | 0 <= p < |x.kept| :: x.Marked(d.texts, x.kept[p], multiText)
  }

  lemma {:induction false} MarkStays(log: seq<Turn>, j: nat, was: bool, multiText: bool)
    requires LastTurn(log, j) < 0
    ensures MarkAfter(was, log, j, multiText) == was
  {
    if log != [] { MarkStays(log[..|log| - 1], j, was, multiText); }
  }

  /** The positions with a mark. */
  lemma Positions(marks: seq<bool>, want: bool) returns (at: seq<nat>)
    ensures Ascending(at, 0, |marks|) && |at| == Count(marks, want, |marks|) && at == Where(marks, want, |marks|)
    ensures forall j: nat :: j in at <==> j < |marks| && marks[j] == want
  {
    at := SelectPicks(marks, marks, want);
    WhereSize(marks, want, |marks|);
  }

  /** The session of a finished call and its account belong together. */
  ghost predicate Settled(s: Label, d: Label, multiText: bool, w: Session, x: Account) {
    && x.Tells(s.texts, d.texts) && w.m.Fits(|s.texts|, |d.texts|) && |w.d| == |d.texts|
    && (forall j | 0 <= j < |d.texts| ::
          && w.m.dst[j] == Partner(x.equal, x.log, j)
          && w.d[j] == d.texts[j].(retranslate := x.Marked(d.texts, j, multiText)))
    && x.kept == Where(w.m.DstMarks(), true, |d.texts|) && x.gone == Where(w.m.DstMarks(), false, |d.texts|)
    && x.added == Where(w.m.SrcMarks(), false, |s.texts|)
  }

  lemma PartnersFit(s: Label, d: Label, mode: Mode, asked: nat, m: Matching, log: seq<Turn>, w: Session)
    requires Describes(m, d.texts, asked, mode.multiText, log, w)
    requires m.Paired(|s.texts|, |d.texts|) && w.m.Fits(|s.texts|, |d.texts|)
    ensures |m.dst| == |d.texts| == |w.d| == |w.m.dst| && |w.m.src| == |s.texts|
    ensures forall j | 0 <= j < |d.texts| :: Partner(m.dst, log, j) == w.m.dst[j] < |s.texts|
    ensures forall i | 0 <= i < |s.texts| :: w.m.src[i] >= 0 <==> i in m.dst || Answered(log, i)
    ensures forall j | 0 <= j < |d.texts| ::
              w.d[j] == d.texts[j].(retranslate := MarkAfter(d.texts[j].retranslate, log, j, mode.multiText))
  {
    hide Partner, Answered, MarkAfter;
    forall i | 0 <= i < |s.texts| ensures i in m.dst <==> m.src[i] >= 0 {
      LonelyIsUnmatched(m, |s.texts|, |d.texts|, i);
    }
  }

  /** The texts with and without a partner. */
  lemma PartnerLists(equal: seq<int>, log: seq<Turn>, m: Matching) returns (kept: seq<nat>, gone: seq<nat>)
    requires |m.dst| == |equal| && forall j | 0 <= j < |equal| :: Partner(equal, log, j) == m.dst[j]
    ensures Kept(equal, log, kept) && kept == Where(m.DstMarks(), true, |equal|)
    ensures Gone(equal, log, gone) && gone == Where(m.DstMarks(), false, |equal|)
  {
    hide Partner, Count, Where;
    kept := Positions(m.DstMarks(), true);
    gone := Positions(m.DstMarks(), false);
  }

  lemma AddedList(equal: seq<int>, log: seq<Turn>, m: Matching) returns (added: seq<nat>)
    requires forall i | 0 <= i < |m.src| :: m.src[i] >= 0 <==> i in equal || Answered(log, i)
    ensures Copies(equal, log, |m.src|, added) && added == Where(m.SrcMarks(), false, |m.src|)
  {
    hide Answered, Count, Where;
    added := Positions(m.SrcMarks(), false);
  }

  lemma EditLists(s: seq<Text>, d: seq<Text>, equal: seq<int>, log: seq<Turn>) returns (edited: seq<nat>, rewaved: seq<nat>)
    requires |equal| == |d| && forall j | 0 <= j < |d| :: Partner(equal, log, j) < |s|
    ensures AreEdited(s, d, equal, log, edited) && AreRewaved(s, d, equal, log, rewaved)
  {
    hide Edited, Rewaved, Partner, Count, Where;
    edited := Positions(seq(|d|, j requires 0 <= j < |d| => Edited(s, d, equal, log, j)), true);
    rewaved := Positions(seq(|d|, j requires 0 <= j < |d| => Rewaved(s, d, equal, log, j)), true);
  }

  /** The account of a session. */
  lemma Accounted(s: Label, d: Label, mode: Mode, asked: nat, m: Matching, log: seq<Turn>, w: Session) returns (x: Account)
    requires Describes(m, d.texts, asked, mode.multiText, log, w)
    requires m.Paired(|s.texts|, |d.texts|) && w.m.Fits(|s.texts|, |d.texts|)
    ensures x.equal == m.dst && x.log == log && Settled(s, d, mode.multiText, w, x)
  {
    hide Describes, Partner, MarkAfter, Answered, Kept, Gone, Copies, AreEdited, AreRewaved, Where, Matching.Paired;
    PartnersFit(s, d, mode, asked, m, log, w);
    var kept, gone := PartnerLists(m.dst, log, w.m);
    var added := AddedList(m.dst, log, w.m);
    var edited, rewaved := EditLists(s.texts, d.texts, m.dst, log);
    x := Account(m.dst, log, kept, gone, added, edited, rewaved);
  }

  lemma RefreshBrings(t: Text, was: Text, from: Text, marked: bool)
    requires t == was.(retranslate := marked)
    ensures Brought(Refresh(t, from, true), was, from, marked)
  {
  }

  /** The texts a finished update keeps, copies and drops. */
  lemma FinishTexts(s: Label, d: Label, multiText: bool, w: Session, x: Account)
    requires Settled(s, d, multiText, w, x)
    ensures var after, dropped := Merged(s.texts, w, true), Dropped(s.texts, w, true);
            && |after| == |x.kept| + |x.added|
            && (forall p | 0 <= p < |x.kept| ::
                  var j := x.kept[p];
                  0 <= j < |d.texts| && w.m.dst[j] >= 0 && after[p] == Refresh(w.d[j], s.texts[w.m.dst[j]], true))
            && (forall q | 0 <= q < |x.added| ::
                  0 <= x.added[q] < |s.texts| && after[|x.kept| + q] == CloneText(s.texts[x.added[q]]))
            && |dropped| == |x.gone|
            && (forall p | 0 <= p < |x.gone| ::
                  0 <= x.gone[p] < |d.texts| && w.m.dst[x.gone[p]] < 0 && dropped[p] == w.d[x.gone[p]])
  {
    hide Select, Where, Refresh, CloneText, Account.Tells, Account.Marked, Partner, Count;
    var refreshed, n := RefreshAll(s.texts, w.d, w.m.dst, true), |d.texts|;
    assert |w.m.DstMarks()| == n && |w.m.SrcMarks()| == |s.texts|;
    SelectIsWhere(refreshed, w.m.DstMarks(), true, n);
    SelectIsWhere(refreshed, w.m.DstMarks(), false, n);
    SelectIsWhere(s.texts, w.m.SrcMarks(), false, |s.texts|);
  }

  lemma UnpartneredStays(s: Label, d: Label, multiText: bool, w: Session, x: Account, j: nat)
    requires Settled(s, d, multiText, w, x) && j < |d.texts| && w.m.dst[j] < 0
    ensures w.d[j] == d.texts[j]
  {
    hide Account.Tells, MarkAfter;
    MarkStays(x.log, j, d.texts[j].retranslate, multiText);
  }

  /** A finished update leaves what the account says. */
  lemma FinishRenews(s: Label, d: Label, w: Session, mode: Mode, x: Account)
    requires Settled(s, d, mode.multiText, w, x) && mode.update
    ensures Renews(s, d, mode.multiText, x, Finish(s, d, w, mode).dest, Finish(s, d, w, mode).obsolete)
  {
    hide Refresh, Brought, CloneText, Partner, Account.Marked, Account.Tells, Merged, Dropped, Tally, SameIgnoringCase;
    GoneFits(s, d, x);
    FinishTexts(s, d, mode.multiText, w, x);
    var after, dropped := Merged(s.texts, w, true), Dropped(s.texts, w, true);
    forall p | 0 <= p < |x.kept|
      ensures var j := x.kept[p];
              Brought(after[p], d.texts[j], s.texts[Partner(x.equal, x.log, j)], x.Marked(d.texts, j, mode.multiText))
    {
      var j := x.kept[p];
      RefreshBrings(w.d[j], d.texts[j], s.texts[w.m.dst[j]], x.Marked(d.texts, j, mode.multiText));
    }
    forall q | 0 <= q < |x.added| ensures Copied(after[|x.kept| + q], s.texts[x.added[q]]) {
      CloneCopies(s.texts[x.added[q]]);
    }
    forall p | 0 <= p < |x.gone| ensures dropped[p] == d.texts[x.gone[p]] {
      UnpartneredStays(s, d, mode.multiText, w, x, x.gone[p]);
    }
    SameFold(s, d);
  }

  lemma GoneFits(s: Label, d: Label, x: Account)
    requires x.Tells(s.texts, d.texts)
    ensures Ascending(x.gone, 0, |d.texts|) && Ascending(x.kept, 0, |d.texts|) && Ascending(x.added, 0, |s.texts|)
    ensures |x.equal| == |d.texts| && forall j | 0 <= j < |d.texts| :: Partner(x.equal, x.log, j) < |s.texts|
    ensures forall p | 0 <= p < |x.kept| :: x.kept[p] < |d.texts| && Partner(x.equal, x.log, x.kept[p]) >= 0
  {
    hide Partner;
    assert forall p | 0 <= p < |x.kept| :: x.kept[p] in x.kept;
  }

  lemma SameFold(s: Label, d: Label)
    ensures SameIgnoringCase(s.comment, d.comment) == SameIgnoringCase(d.comment, s.comment)
    ensures SameIgnoringCase(s.context, d.context) == SameIgnoringCase(d.context, s.context)
    ensures SameIgnoringCase(s.speaker, d.speaker) == SameIgnoringCase(d.speaker, s.speaker)
    ensures SameIgnoringCase(s.listener, d.listener) == SameIgnoringCase(d.listener, s.listener)
  {
  }

  lemma CloneCopies(t: Text)
    ensures Copied(CloneText(t), t)
  {
  }

  // ---------------------------------------------------------------------------------------
  // The counters
  // ---------------------------------------------------------------------------------------

  lemma {:induction false} EditsCounted(s: seq<Text>, d: seq<Text>, dst: seq<int>, edits: seq<bool>, waves: seq<bool>, n: nat)
    requires n <= |dst| == |d| == |edits| == |waves| && forall j | 0 <= j < |d| :: dst[j] < |s|
    requires forall j | 0 <= j < |d| :: edits[j] <==> dst[j] >= 0 && d[j].str != s[dst[j]].str
    requires forall j | 0 <= j < |d| :: waves[j] <==> dst[j] >= 0 && !SameIgnoringCase(d[j].wave, s[dst[j]].wave)
    ensures StringEdits(s, d, dst, n) == Count(edits, true, n) && WaveEdits(s, d, dst, n) == Count(waves, true, n)
  {
    hide SameIgnoringCase;
    if n > 0 { EditsCounted(s, d, dst, edits, waves, n - 1); }
  }

  lemma {:induction false} SomeMarked(d: seq<Text>, dst: seq<int>, n: nat)
    requires n <= |dst| == |d|
    ensures Marked(d, dst, n) > 0 <==> exists j | 0 <= j < n :: dst[j] >= 0 && d[j].retranslate
  {
    if n > 0 { SomeMarked(d, dst, n - 1); }
  }

  /** Two lists hold the same positions. */
  ghost predicate SameElements(a: seq<nat>, b: seq<nat>) { forall j :: j in a <==> j in b }

  /** Two ascending lists of the same positions are the same. */
  lemma {:induction false} SamePositions(a: seq<nat>, b: seq<nat>, n: nat)
    requires Ascending(a, 0, n) && Ascending(b, 0, n) && SameElements(a, b)
    ensures a == b
    decreases |a|
  {
    hide Ascending, SameElements;
    EmptyAlike(a, b);
    if a != [] {
      var x, y := a[..|a| - 1], b[..|b| - 1];
      LastAlike(a, b, n);
      AscendingPop(a, n);
      AscendingPop(b, n);
      SamePositions(x, y, n);
      assert a == x + [a[|a| - 1]] && b == y + [b[|b| - 1]];
    }
  }

  lemma EmptyAlike(a: seq<nat>, b: seq<nat>)
    requires SameElements(a, b)
    ensures a == [] <==> b == []
  {
    SomePosition(a);
    SomePosition(b);
  }

  lemma AscendingPop(a: seq<nat>, n: nat)
    requires Ascending(a, 0, n) && a != []
    ensures Ascending(a[..|a| - 1], 0, n)
  {
  }

  /** Both end in the greatest position, and hold the same before it. */
  lemma LastAlike(a: seq<nat>, b: seq<nat>, n: nat)
    requires Ascending(a, 0, n) && Ascending(b, 0, n) && SameElements(a, b) && a != [] && b != []
    ensures a[|a| - 1] == b[|b| - 1] && SameElements(a[..|a| - 1], b[..|b| - 1])
  {
    hide Ascending;
    var p, q := a[|a| - 1], b[|b| - 1];
    assert p in a && q in b;
    LastIsGreatest(a, n, q);
    LastIsGreatest(b, n, p);
    var x, y := a[..|a| - 1], b[..|b| - 1];
    forall j ensures j in x <==> j in y {
      AllButLast(a, n, j);
      AllButLast(b, n, j);
    }
  }

  lemma SomePosition(a: seq<nat>)
    ensures a != [] ==> exists j :: j in a
  {
    if a != [] { assert a[0] in a; }
  }

  lemma LastIsGreatest(a: seq<nat>, n: nat, j: nat)
    requires Ascending(a, 0, n) && j in a
    ensures j <= a[|a| - 1]
  {
  }

  lemma AllButLast(a: seq<nat>, n: nat, j: nat)
    requires Ascending(a, 0, n) && a != []
    ensures j in a[..|a| - 1] <==> j in a && j != a[|a| - 1]
  {
    if j in a && j != a[|a| - 1] {
      var p :| 0 <= p < |a| && a[p] == j;
      assert a[..|a| - 1][p] == j;
    }
  }

  /** The edits a finished call counts are those of the account. */
  lemma EditsTold(s: Label, d: Label, multiText: bool, w: Session, x: Account)
    requires Settled(s, d, multiText, w, x)
    ensures StringEdits(s.texts, w.d, w.m.dst, |w.d|) == |x.edited|
    ensures WaveEdits(s.texts, w.d, w.m.dst, |w.d|) == |x.rewaved|
  {
    hide Partner, Account.Marked, SameIgnoringCase, Count, Where, StringEdits, WaveEdits;
    var n, st, dt := |d.texts|, s.texts, d.texts;
    var edits := seq(n, j requires 0 <= j < n => Edited(st, dt, x.equal, x.log, j));
    var waves := seq(n, j requires 0 <= j < n => Rewaved(st, dt, x.equal, x.log, j));
    EditsCounted(st, w.d, w.m.dst, edits, waves, n);
    hide Edited, Rewaved;
    var edited := Positions(edits, true);
    var rewaved := Positions(waves, true);
    SamePositions(edited, x.edited, n);
    SamePositions(rewaved, x.rewaved, n);
  }

  lemma MarksTold(s: Label, d: Label, multiText: bool, w: Session, x: Account)
    requires Settled(s, d, multiText, w, x)
    ensures Ascending(x.kept, 0, |d.texts|) && (Marked(w.d, w.m.dst, |w.d|) > 0 <==> HasMark(d, multiText, x))
  {
    hide Partner, Account.Marked, Where, AreEdited, AreRewaved, Copies, Gone;
    SomeMarked(w.d, w.m.dst, |w.d|);
    if HasMark(d, multiText, x) {
      var p :| 0 <= p < |x.kept| && x.Marked(d.texts, x.kept[p], multiText);
      assert x.kept[p] in x.kept;
      assert w.m.dst[x.kept[p]] >= 0 && w.d[x.kept[p]].retranslate;
    }
    if exists j | 0 <= j < |w.d| :: w.m.dst[j] >= 0 && w.d[j].retranslate {
      var j :| 0 <= j < |w.d| && w.m.dst[j] >= 0 && w.d[j].retranslate;
      assert j in x.kept;
      var p :| 0 <= p < |x.kept| && x.kept[p] == j;
      assert x.Marked(d.texts, x.kept[p], multiText);
    }
  }

  /** A finished call counts what the account says. */
  lemma FinishCounts(s: Label, d: Label, w: Session, mode: Mode, x: Account)
    requires Settled(s, d, mode.multiText, w, x)
    ensures Counted(s, d, mode.multiText, x, Finish(s, d, w, mode).info)
  {
    hide Account.Tells, Partner, SameIgnoringCase, HasMark, Merged, Dropped, Account.Marked, Count, Where;
    EditsTold(s, d, mode.multiText, w, x);
    MarksTold(s, d, mode.multiText, w, x);
    WhereSize(w.m.DstMarks(), false, |w.d|);
    WhereSize(w.m.SrcMarks(), false, |s.texts|);
  }

  // ---------------------------------------------------------------------------------------
  // The whole call
  // ---------------------------------------------------------------------------------------

  /**
   * The conversation of a call without a fatal error: its dialogs in order, what they conclude, and how
   * many there were.
   */
  ghost predicate Conversation(s: Label, d: Label, rank: nat -> nat, mode: Mode, asked: nat, equal: seq<int>,
                               log: seq<Turn>, code: Code, asked': nat)
  {
    && EqualTexts(s.texts, d.texts, rank, equal) && Talk(equal, |s.texts|, log, mode, asked)
    && Concludes(equal, |s.texts|, log, code) && asked' == asked + |log|
  }

  /** The session of a call without a fatal error. */
  lemma Conversed(s: Label, d: Label, rank: nat -> nat, mode: Mode, asked: nat)
    returns (m: Matching, log: seq<Turn>, w: Session, code: Code)
    requires UpdateLabel(s, d, rank, mode, asked).code != Fatal
    ensures MatchEqual(s.texts, d.texts, rank, |s.texts|) == Some(m) && m.Paired(|s.texts|, |d.texts|)
    ensures AskFrom(Session(m, d.texts, asked), 0, mode) == (code, w) && w.m.Fits(|s.texts|, |d.texts|)
    ensures Describes(m, d.texts, asked, mode.multiText, log, w)
    ensures Conversation(s, d, rank, mode, asked, m.dst, log, code, w.asked)
  {
    hide Describes, Talk, Concludes, EqualTexts, MatchEqual, AskFrom, Finish;
    m := MatchEqual(s.texts, d.texts, rank, |s.texts|).value;
    var start := Session(m, d.texts, asked);
    MatchEqualHits(s.texts, d.texts, rank);
    NothingSaid(m, d.texts, asked, mode);
    log := Converse(m, d.texts, [], start, 0, mode, asked);
    AskKeepsFit(start, 0, mode, |s.texts|, |d.texts|);
    code, w := AskFrom(start, 0, mode).0, AskFrom(start, 0, mode).1;
    DescribesSizes(m, d.texts, asked, mode.multiText, log, w);
  }

  /**
   * Every call without a fatal error, told by its dialogs. One that returns IDOK counts what its account
   * says and, when it updates, leaves the label the account says. Any other keeps the label but for the
   * marks the answers left, and counts and drops nothing.
   */
  lemma UpdateLabelTold(s: Label, d: Label, rank: nat -> nat, mode: Mode, asked: nat) returns (x: Account)
    requires UpdateLabel(s, d, rank, mode, asked).code != Fatal
    ensures var r := UpdateLabel(s, d, rank, mode, asked);
            && Conversation(s, d, rank, mode, asked, x.equal, x.log, r.code, r.asked)
            && (r.code == Ok ==> Counted(s, d, mode.multiText, x, r.info))
            && (r.code == Ok && mode.update ==> Renews(s, d, mode.multiText, x, r.dest, r.obsolete))
            && (r.code != Ok ==> r.info == NO_INFO && r.obsolete == [] && Remarked(d, mode.multiText, x.log, r.dest))
  {
    hide Describes, Finish, MatchEqual, AskFrom, Conversation, Counted, Renews, Settled;
    var m, log, w, code := Conversed(s, d, rank, mode, asked);
    DescribesSizes(m, d.texts, asked, mode.multiText, log, w);
    x := Accounted(s, d, mode, asked, m, log, w);
    if code == Ok {
      FinishCounts(s, d, w, mode, x);
      if mode.update { FinishRenews(s, d, w, mode, x); }
    } else {
      MarksLeftBehind(m, d, asked, mode.multiText, log, w);
    }
    FinishIs(s, d, w, mode);
  }

  lemma FinishIs(s: Label, d: Label, w: Session, mode: Mode)
    requires w.m.Fits(|s.texts|, |w.d|)
    ensures Finish(s, d, w, mode).code == Ok && Finish(s, d, w, mode).asked == w.asked
  {
  }

  /** The label with the marks the dialogs leave. */
  predicate Remarked(d: Label, multiText: bool, log: seq<Turn>, after: Label) {
    && after == d.(texts := after.texts) && |after.texts| == |d.texts|
    && forall j | 0 <= j < |d.texts| ::
         after.texts[j] == d.texts[j].(retranslate := MarkAfter(d.texts[j].retranslate, log, j, multiText))
  }

  lemma MarksLeftBehind(m: Matching, d: Label, asked: nat, multiText: bool, log: seq<Turn>, w: Session)
    requires Describes(m, d.texts, asked, multiText, log, w)
    ensures Remarked(d, multiText, log, d.(texts := w.d))
  {
  }

  /** Two source texts hit the same destination text. */
  predicate Clash(s: seq<Text>, d: seq<Text>, rank: nat -> nat) {
    exists i, k, j | 0 <= i < k < |s| && 0 <= j < |d| :: Hits(s, d, rank, i, j) && Hits(s, d, rank, k, j)
  }

  lemma MatchClashes(s: seq<Text>, d: seq<Text>, rank: nat -> nat)
    ensures MatchEqual(s, d, rank, |s|).None? <==> Clash(s, d, rank)
  {
    hide Hits, Find, MatchEqual;
    MatchEqualIsFind(s, d, rank, |s|);
    if MatchEqual(s, d, rank, |s|).Some? { MatchEqualHits(s, d, rank); }
    if Collision(s, d, rank, |s|) {
      var i, k :| 0 <= i < k < |s| && Find(d, rank, s[i].str, |d|) >= 0
        && Find(d, rank, s[i].str, |d|) == Find(d, rank, s[k].str, |d|);
      var j := Find(d, rank, s[i].str, |d|);
      HitsFind(s, d, rank, i, j);
      HitsFind(s, d, rank, k, j);
    }
  }

  /** The fatal error comes exactly when two source texts hit the same text; it changes and asks nothing. */
  lemma FatalExactly(s: Label, d: Label, rank: nat -> nat, mode: Mode, asked: nat)
    ensures var r := UpdateLabel(s, d, rank, mode, asked);
            && (r.code == Fatal <==> Clash(s.texts, d.texts, rank))
            && (r.code == Fatal ==> r == Outcome(Fatal, d, [], NO_INFO, asked))
  {
    hide Clash, MatchEqual, AskFrom, Merged, Dropped, Tally;
    MatchClashes(s.texts, d.texts, rank);
  }
}
