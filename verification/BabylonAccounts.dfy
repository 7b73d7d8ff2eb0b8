/** What the user's answers make of a whole database, label by label. */
module BabylonAccounts {
  import opened Options
  import opened TextKeys
  import opened Selections
  import opened BabylonLabel
  import opened BabylonDatabase
  import opened BabylonDatabaseLaws
  import opened BabylonAnswers
  import BabylonChains

  // ---------------------------------------------------------------------------------------
  // A label stays put
  // ---------------------------------------------------------------------------------------

  /** A visit to a source label of another key leaves label q alone. */
  lemma VisitLeaves(p: Progress, s: Label, rank: nat -> nat, run: Run, q: nat)
    requires Shaped(p) && q < |p.labels| && !SameKey(p.labels[q].name, s.name)
    ensures var v := Visit(p, s, rank, run);
            |v.labels| == |v.done| > q && v.labels[q] == p.labels[q] && v.done[q] == p.done[q]
  {
    hide UpdateLabel, SameKey;
  }

  /** No source label from m to n is the key of that name. */
  predicate NobodyCalls(src: seq<Label>, m: nat, n: nat, name: string)
    requires m <= n <= |src|
  {
    forall k | m <= k < n :: !SameKey(name, src[k].name)
  }

  /** Between visits to its key a label stays as it is. */
  lemma {:induction false} VisitsLeave(src: seq<Label>, m: nat, n: nat, dst: Db, ranks: seq<nat -> nat>, run: Run, q: nat)
    requires m <= n <= |src| == |ranks| && q < |VisitAll(src, m, dst, ranks, run).labels|
    requires NobodyCalls(src, m, n, VisitAll(src, m, dst, ranks, run).labels[q].name)
    ensures var p, v := VisitAll(src, m, dst, ranks, run), VisitAll(src, n, dst, ranks, run);
            |v.labels| == |v.done| > q && v.labels[q] == p.labels[q] && v.done[q] == p.done[q]
  {
    hide Visit, SameKey;
    if m < n {
      VisitsLeave(src, m, n - 1, dst, ranks, run, q);
      VisitLeaves(VisitAll(src, n - 1, dst, ranks, run), src[n - 1], ranks[n - 1], run, q);
    }
  }

  /** A processed label survives the sweep. */
  lemma SweepKeeps(p: Progress, q: nat) returns (k: nat)
    requires Shaped(p) && q < |p.labels| && p.done[q]
    ensures k < |Sweep(p, true).db.labels| && Sweep(p, true).db.labels[k] == p.labels[q]
    ensures p.obsolete <= Sweep(p, true).db.obsolete
  {
    SelectIsWhere(p.labels, p.done, true, |p.labels|);
    k := WhereFindsAll(p.done, true, |p.labels|, q);
  }

  /** With distinct names only source label i is the key of a label it finds. */
  lemma OneCaller(src: seq<Label>, i: nat, name: string)
    requires DistinctNames(src) && i < |src| && SameKey(name, src[i].name)
    ensures NobodyCalls(src, 0, i, name) && NobodyCalls(src, i + 1, |src|, name)
  {
    hide SameKey, DistinctNames;
    forall k | 0 <= k < |src| && k != i ensures !SameKey(name, src[k].name) {
      if SameKey(name, src[k].name) {
        SameKeysMeet(name, src[i].name, src[k].name);
        KeysDiffer(src, i, k);
      }
    }
  }

  lemma SameKeysMeet(a: string, b: string, c: string)
    requires SameKey(a, b) && SameKey(a, c)
    ensures SameKey(b, c)
  {
  }

  // ---------------------------------------------------------------------------------------
  // Cancelling
  // ---------------------------------------------------------------------------------------

  /** The user pressed Cancel in one of the first n dialogs. */
  predicate Cancelling(answers: nat -> Answer, n: nat) {
    exists k | 0 <= k < n :: answers(k).Cancel?
  }

  lemma TalkCancels(equal: seq<int>, ns: nat, log: seq<Turn>, mode: Mode, asked: nat, code: Code)
    requires Talk(equal, ns, log, mode, asked) && Concludes(equal, ns, log, code)
    ensures Cancelling(mode.answers, asked + |log|) <==> Cancelling(mode.answers, asked) || code == Cancelled
  {
    hide Picks, FreeBefore, NoneLeftOut, TalkedOut;
    forall k | 0 <= k < |log| ensures log[k].answer == mode.answers(asked + k) {
      assert TurnFits(equal, ns, log, k, mode, asked);
    }
    if Cancelling(mode.answers, asked + |log|) {
      var k :| 0 <= k < asked + |log| && mode.answers(k).Cancel?;
      if k >= asked { assert log[k - asked].answer.Cancel?; }
    }
    if code == Cancelled { assert mode.answers(asked + |log| - 1).Cancel?; }
  }

  lemma UpdateCancels(s: Label, d: Label, rank: nat -> nat, mode: Mode, asked: nat)
    ensures var r := UpdateLabel(s, d, rank, mode, asked);
            Cancelling(mode.answers, r.asked) <==> Cancelling(mode.answers, asked) || r.code == Cancelled
  {
    hide Talk, Concludes, Counted, Renews, Remarked, Finish, MatchEqual, AskFrom;
    var r := UpdateLabel(s, d, rank, mode, asked);
    FatalExactly(s, d, rank, mode, asked);
    if r.code != Fatal {
      var x := UpdateLabelTold(s, d, rank, mode, asked);
      TalkCancels(x.equal, |s.texts|, x.log, mode, asked, r.code);
    }
  }

  lemma VisitCancels(p: Progress, s: Label, rank: nat -> nat, run: Run)
    requires Shaped(p) && (p.skipAll <==> Cancelling(run.answers, p.asked))
    ensures var v := Visit(p, s, rank, run); v.skipAll <==> Cancelling(run.answers, v.asked)
  {
    hide UpdateLabel, Cancelling;
    var j := Lookup(p.labels, s.name);
    if j >= 0 { UpdateCancels(s, p.labels[j], rank, ModeFor(p, run), p.asked); }
  }

  /** Dialogs are skipped exactly from the first Cancel on. */
  lemma {:induction false} SkipsAfterCancel(src: seq<Label>, n: nat, dst: Db, ranks: seq<nat -> nat>, run: Run)
    requires n <= |src| == |ranks|
    ensures var p := VisitAll(src, n, dst, ranks, run); p.skipAll <==> Cancelling(run.answers, p.asked)
  {
    hide Visit, Cancelling;
    if n > 0 {
      SkipsAfterCancel(src, n - 1, dst, ranks, run);
      VisitCancels(VisitAll(src, n - 1, dst, ranks, run), src[n - 1], ranks[n - 1], run);
    } else {
      NoCancelYet(run.answers);
    }
  }

  lemma NoCancelYet(answers: nat -> Answer)
    ensures !Cancelling(answers, 0)
  {
  }

  // ---------------------------------------------------------------------------------------
  // The whole run
  // ---------------------------------------------------------------------------------------

  /**
   * What one source label did to the destination label it found: nothing after a fatal error; after a
   * finished conversation what the account says; otherwise no more than marks.
   */
  ghost predicate Told(s: Label, d: Label, rank: nat -> nat, mode: Mode, asked: nat, x: Account, code: Code,
                       after: Label, dropped: seq<Text>, asked': nat)
  {
    if Clash(s.texts, d.texts, rank) then code == Fatal && after == d && dropped == [] && asked' == asked
    else
      && Conversation(s, d, rank, mode, asked, x.equal, x.log, code, asked')
      && if code == Ok then Renews(s, d, mode.multiText, x, after, dropped)
         else Remarked(d, mode.multiText, x.log, after) && dropped == []
  }

  lemma UpdateTold(s: Label, d: Label, rank: nat -> nat, mode: Mode, asked: nat) returns (x: Account)
    requires mode.update
    ensures var r := UpdateLabel(s, d, rank, mode, asked);
            Told(s, d, rank, mode, asked, x, r.code, r.dest, r.obsolete, r.asked)
  {
    hide UpdateLabel, Clash, Conversation, Renews, Remarked, Counted;
    FatalExactly(s, d, rank, mode, asked);
    if Clash(s.texts, d.texts, rank) {
      x := Account([], [], [], [], [], [], []);
    } else {
      x := UpdateLabelTold(s, d, rank, mode, asked);
    }
  }

  /** A label as a copy of a source label. */
  predicate CopiedLabel(now: Label, s: Label) {
    && now == s.(texts := now.texts) && |now.texts| == |s.texts|
    && forall i | 0 <= i < |s.texts| :: Copied(now.texts[i], s.texts[i])
  }

  /** The destination label that source label i finds is as it was, and in its place. */
  lemma FoundAsItWas(src: seq<Label>, i: nat, dst: Db, ranks: seq<nat -> nat>, run: Run)
    requires i < |src| == |ranks| && DistinctNames(src) && Lookup(dst.labels, src[i].name) >= 0
    ensures var j, p := Lookup(dst.labels, src[i].name), VisitAll(src, i, dst, ranks, run);
            j < |p.labels| && Lookup(p.labels, src[i].name) == j && p.labels[j] == dst.labels[j]
  {
    hide Visit, SameKey;
    var j, p := Lookup(dst.labels, src[i].name), VisitAll(src, i, dst, ranks, run);
    VisitsName(src, i, dst, ranks, run);
    LookupExtends(dst.labels, p.labels, src[i].name);
    OneCaller(src, i, dst.labels[j].name);
    assert VisitAll(src, 0, dst, ranks, run) == Start(dst);
    VisitsLeave(src, 0, i, dst, ranks, run, j);
  }

  /** A label that no destination label answers to is not found later either. */
  lemma StillNew(src: seq<Label>, i: nat, dst: Db, ranks: seq<nat -> nat>, run: Run)
    requires i < |src| == |ranks| && DistinctNames(src) && Lookup(dst.labels, src[i].name) < 0
    ensures Lookup(VisitAll(src, i, dst, ranks, run).labels, src[i].name) < 0
  {
    hide Visit, SameKey, VisitAll, DistinctNames;
    var p := VisitAll(src, i, dst, ranks, run);
    VisitsName(src, i, dst, ranks, run);
    var j := Lookup(p.labels, src[i].name);
    if 0 <= j < |dst.labels| {
      LookupStays(dst.labels, p.labels, src[i].name, |dst.labels|);
      LookupHits(p.labels, src[i].name, j, |dst.labels|);
    }
    if j >= |dst.labels| {
      var k :| 0 <= k < i && p.labels[j].name == src[k].name;
      KeysDiffer(src, k, i);
    }
  }

  /**
   * An update of a database from source labels with distinct names, told source label by source label.
   * Dialogs are numbered through the run and stop at the first Cancel. The label that answers to the name
   * of source label i ends up as its conversation says, and what it dropped stands in the obsolete list;
   * where there is none, a copy of the source label is added.
   */
  lemma UpdateDbTold(src: seq<Label>, dst: Db, ranks: seq<nat -> nat>, run: Run, i: nat)
    returns (x: Account, code: Code, dropped: seq<Text>, k: nat, at: nat)
    requires i < |src| == |ranks| && DistinctNames(src) && run.update
    ensures var r, j := UpdateDb(src, dst, ranks, run), Lookup(dst.labels, src[i].name);
            var from, to := VisitAll(src, i, dst, ranks, run).asked, VisitAll(src, i + 1, dst, ranks, run).asked;
            && k < |r.db.labels| && at + |dropped| <= |r.db.obsolete| && r.db.obsolete[at..at + |dropped|] == dropped
            && (r.info.skippedLabels == 0 ==> code == Ok)
            && (if j >= 0
                then Told(src[i], dst.labels[j], ranks[i], Mode(true, Cancelling(run.answers, from), run.multiText, run.answers),
                          from, x, code, r.db.labels[k], dropped, to)
                else CopiedLabel(r.db.labels[k], src[i]) && to == from)
  {
    hide *;
    var p, q := VisitAll(src, i, dst, ranks, run), VisitAll(src, i + 1, dst, ranks, run);
    var last := VisitAll(src, |src|, dst, ranks, run);
    var j := Lookup(dst.labels, src[i].name);
    var place: nat;
    if j >= 0 {
      FoundAsItWas(src, i, dst, ranks, run);
      SkipsAfterCancel(src, i, dst, ranks, run);
      x, code, dropped := FoundTurn(src, i, dst, ranks, run);
      place := j;
    } else {
      StillNew(src, i, dst, ranks, run);
      NewTurn(src, i, dst, ranks, run);
      SameKeyAsItself(src[i].name);
      x, code, dropped := Account([], [], [], [], [], [], []), Ok, [];
      place := |p.labels|;
    }
    OneCaller(src, i, q.labels[place].name);
    VisitsLeave(src, i + 1, |src|, dst, ranks, run, place);
    BabylonChains.VisitsGrow(src, i + 1, |src|, dst, ranks, run);
    k := SweepKeeps(last, place);
    at := |p.obsolete|;
    UpdateSweeps(src, dst, ranks, run);
    SkipsCounted(src, i, dst, ranks, run);
    SweepSkipsNothing(last, true);
  }

  lemma SkipsCounted(src: seq<Label>, i: nat, dst: Db, ranks: seq<nat -> nat>, run: Run)
    requires i < |src| == |ranks|
    ensures VisitAll(src, |src|, dst, ranks, run).info.skippedLabels >= VisitAll(src, i + 1, dst, ranks, run).info.skippedLabels
  {
    SkipsMount(src, i + 1, |src|, dst, ranks, run);
  }

  lemma {:induction false} SkipsMount(src: seq<Label>, m: nat, n: nat, dst: Db, ranks: seq<nat -> nat>, run: Run)
    requires m <= n <= |src| == |ranks|
    ensures VisitAll(src, n, dst, ranks, run).info.skippedLabels >= VisitAll(src, m, dst, ranks, run).info.skippedLabels
  {
    hide Visit;
    if m < n {
      SkipsMount(src, m, n - 1, dst, ranks, run);
      SkipsGrow(VisitAll(src, n - 1, dst, ranks, run), src[n - 1], ranks[n - 1], run);
    }
  }

  lemma SweepSkipsNothing(p: Progress, update: bool)
    requires Shaped(p)
    ensures Sweep(p, update).info.skippedLabels == p.info.skippedLabels
  {
    SweptLabels(p.labels, p.done, |p.labels|);
  }

  /** The sweep counts the unprocessed labels and nothing about the others. */
  lemma {:induction false} SweptLabels(labels: seq<Label>, done: seq<bool>, n: nat)
    requires n <= |labels| == |done|
    ensures var c := SweepInfo(labels, done, n);
            && c.deletedLabels == Count(done, false, n) && c.changes == c.deletedStrings
            && c == NO_INFO.(deletedLabels := c.deletedLabels, deletedStrings := c.deletedStrings, changes := c.changes)
  {
    if n > 0 { SweptLabels(labels, done, n - 1); }
  }

  lemma UpdateSweeps(src: seq<Label>, dst: Db, ranks: seq<nat -> nat>, run: Run)
    requires |src| == |ranks|
    ensures UpdateDb(src, dst, ranks, run) == Sweep(VisitAll(src, |src|, dst, ranks, run), run.update)
  {
  }

  /** The turn of a source label whose name the destination knows. */
  lemma FoundTurn(src: seq<Label>, i: nat, dst: Db, ranks: seq<nat -> nat>, run: Run)
    returns (x: Account, code: Code, dropped: seq<Text>)
    requires i < |src| == |ranks| && run.update
    requires var j, p := Lookup(dst.labels, src[i].name), VisitAll(src, i, dst, ranks, run);
             && 0 <= j < |p.labels| && Lookup(p.labels, src[i].name) == j && p.labels[j] == dst.labels[j]
             && (p.skipAll <==> Cancelling(run.answers, p.asked))
    ensures var j, p, q := Lookup(dst.labels, src[i].name), VisitAll(src, i, dst, ranks, run), VisitAll(src, i + 1, dst, ranks, run);
            && |q.labels| == |q.done| > j && q.done[j] && q.obsolete == p.obsolete + dropped
            && q.labels[j].name == dst.labels[j].name
            && q.info.skippedLabels == p.info.skippedLabels + (if code == Ok then 0 else 1)
            && Told(src[i], dst.labels[j], ranks[i], Mode(true, Cancelling(run.answers, p.asked), run.multiText, run.answers),
                    p.asked, x, code, q.labels[j], dropped, q.asked)
  {
    hide UpdateLabel, Told, Cancelling;
    var p, j := VisitAll(src, i, dst, ranks, run), Lookup(dst.labels, src[i].name);
    var u := UpdateLabel(src[i], p.labels[j], ranks[i], ModeFor(p, run), p.asked);
    x := UpdateTold(src[i], p.labels[j], ranks[i], ModeFor(p, run), p.asked);
    UpdateKeepsName(src[i], p.labels[j], ranks[i], ModeFor(p, run), p.asked);
    LabelAddsUp(src[i], p.labels[j], ranks[i], ModeFor(p, run), p.asked);
    code, dropped := u.code, u.obsolete;
  }

  /** The turn of a source label whose name is new. */
  lemma NewTurn(src: seq<Label>, i: nat, dst: Db, ranks: seq<nat -> nat>, run: Run)
    requires i < |src| == |ranks| && run.update && Lookup(VisitAll(src, i, dst, ranks, run).labels, src[i].name) < 0
    ensures var p, q := VisitAll(src, i, dst, ranks, run), VisitAll(src, i + 1, dst, ranks, run);
            var n := |p.labels|;
            && |q.labels| == |q.done| == n + 1 && q.done[n] && q.obsolete == p.obsolete && q.asked == p.asked
            && q.labels[n].name == src[i].name && CopiedLabel(q.labels[n], src[i])
  {
    hide UpdateLabel;
  }

  // ---------------------------------------------------------------------------------------
  // Finding labels
  // ---------------------------------------------------------------------------------------

  lemma {:induction false} FindIsFirst(labels: seq<Label>, name: string, n: nat)
    requires n <= |labels|
    ensures var r := FindLabel(labels, name, n);
            if r < 0 then NobodyNamed(labels, name, n) else SameKey(labels[r].name, name) && NobodyNamed(labels, name, r)
  {
    hide SameKey;
    if n > 0 { FindIsFirst(labels, name, n - 1); }
  }

  /** None of the first n labels is the key of that name. */
  predicate NobodyNamed(labels: seq<Label>, name: string, n: nat)
    requires n <= |labels|
  {
    forall j | 0 <= j < n :: !SameKey(labels[j].name, name)
  }

  /** A name finds the first label of its key, and nothing only when there is none. */
  lemma LookupIsFirst(labels: seq<Label>, name: string, j: nat)
    requires j < |labels|
    ensures Lookup(labels, name) == j <==> SameKey(labels[j].name, name) && NobodyNamed(labels, name, j)
    ensures Lookup(labels, name) < 0 <==> NobodyNamed(labels, name, |labels|)
  {
    hide SameKey;
    FindIsFirst(labels, name, |labels|);
  }

  // ---------------------------------------------------------------------------------------
  // Labels no source label finds
  // ---------------------------------------------------------------------------------------

  /** Which destination labels have been found after n source labels, and how many were new. */
  predicate Tracked(src: seq<Label>, n: nat, dst: Db, p: Progress) {
    && n <= |src| && |p.labels| == |p.done| >= |dst.labels|
    && (forall j | 0 <= j < |dst.labels| :: p.done[j] <==> Reached(src, n, dst.labels, j))
    && (forall j | 0 <= j < |dst.labels| && !p.done[j] :: p.labels[j] == dst.labels[j])
    && (forall j | |dst.labels| <= j < |p.labels| :: p.done[j])
  }

  lemma TrackedStep(src: seq<Label>, n: nat, dst: Db, p: Progress, rank: nat -> nat, run: Run)
    requires n < |src| && Shaped(p) && Tracked(src, n, dst, p) && Named(src, n, dst, p)
    ensures Tracked(src, n + 1, dst, Visit(p, src[n], rank, run))
  {
    hide UpdateLabel, SameKey, Reached, CloneLabel;
    var name := src[n].name;
    SameLookup(src, n, dst, p, name);
    forall j | 0 <= j < |dst.labels|
      ensures Reached(src, n + 1, dst.labels, j) <==> Reached(src, n, dst.labels, j) || Lookup(dst.labels, name) == j
    {
      ReachedStep(src, n + 1, dst.labels, j);
    }
  }

  /** Of the destination's own labels a name finds the same one throughout. */
  lemma SameLookup(src: seq<Label>, n: nat, dst: Db, p: Progress, name: string)
    requires n <= |src| && Named(src, n, dst, p)
    ensures Lookup(dst.labels, name) >= 0 ==> Lookup(p.labels, name) == Lookup(dst.labels, name)
    ensures Lookup(dst.labels, name) < 0 ==> !(0 <= Lookup(p.labels, name) < |dst.labels|)
  {
    hide SameKey;
    var j := Lookup(p.labels, name);
    if Lookup(dst.labels, name) >= 0 { LookupExtends(dst.labels, p.labels, name); }
    if 0 <= j < |dst.labels| {
      LookupStays(dst.labels, p.labels, name, |dst.labels|);
      LookupHits(p.labels, name, j, |dst.labels|);
    }
  }

  lemma {:induction false} VisitsTracked(src: seq<Label>, n: nat, dst: Db, ranks: seq<nat -> nat>, run: Run)
    requires n <= |src| == |ranks|
    ensures Tracked(src, n, dst, VisitAll(src, n, dst, ranks, run))
  {
    hide Visit, Tracked, Named;
    if n == 0 {
      NothingTracked(src, dst);
    } else {
      VisitsTracked(src, n - 1, dst, ranks, run);
      VisitsName(src, n - 1, dst, ranks, run);
      TrackedStep(src, n - 1, dst, VisitAll(src, n - 1, dst, ranks, run), ranks[n - 1], run);
    }
  }

  lemma NothingTracked(src: seq<Label>, dst: Db)
    ensures Tracked(src, 0, dst, Start(dst))
  {
  }

  /** The texts of an unmarked label stand together among the texts of the unmarked labels. */
  lemma {:induction false} TextsTogether(labels: seq<Label>, marks: seq<bool>, n: nat, j: nat) returns (at: nat)
    requires j < n <= |labels| == |marks| && !marks[j]
    ensures at + |labels[j].texts| <= |TextsOf(labels, marks, false, n)|
    ensures TextsOf(labels, marks, false, n)[at..at + |labels[j].texts|] == labels[j].texts
  {
    var before := TextsOf(labels, marks, false, n - 1);
    if j == n - 1 {
      at := |before|;
    } else {
      at := TextsTogether(labels, marks, n - 1, j);
      assert before <= TextsOf(labels, marks, false, n);
      assert TextsOf(labels, marks, false, n)[at..at + |labels[j].texts|] == before[at..at + |labels[j].texts|];
    }
  }

  /** A label that no source label finds is removed, and its texts stand in the obsolete list as they were. */
  lemma UnreachedIsSwept(src: seq<Label>, dst: Db, ranks: seq<nat -> nat>, run: Run, j: nat) returns (at: nat)
    requires |src| == |ranks| && run.update && j < |dst.labels| && !Reached(src, |src|, dst.labels, j)
    ensures var r, n := UpdateDb(src, dst, ranks, run), |dst.labels[j].texts|;
            at + n <= |r.db.obsolete| && r.db.obsolete[at..at + n] == dst.labels[j].texts
  {
    hide VisitAll, SweepInfo, Select, Reached;
    var p := VisitAll(src, |src|, dst, ranks, run);
    VisitsTracked(src, |src|, dst, ranks, run);
    at := TextsTogether(p.labels, p.done, |p.labels|, j);
    var swept := TextsOf(p.labels, p.done, false, |p.labels|);
    assert (p.obsolete + swept)[|p.obsolete| + at..|p.obsolete| + at + |dst.labels[j].texts|]
        == swept[at..at + |dst.labels[j].texts|];
    at := |p.obsolete| + at;
  }

  // ---------------------------------------------------------------------------------------
  // Counters
  // ---------------------------------------------------------------------------------------

  /** What the result of UpdateDB adds up: labels that are removed or merely modified do not count. */
  predicate AddsUp(c: Info) {
    c.changes == c.newStrings + c.deletedStrings + c.modifiedStrings + c.updatedWaves + c.updatedComments
                 + c.updatedContexts + c.updatedSpeakers + c.updatedListeners + c.updatedMaxLen
                 + c.newLabels + c.skippedLabels
  }

  lemma LabelAddsUp(s: Label, d: Label, rank: nat -> nat, mode: Mode, asked: nat)
    ensures var c := UpdateLabel(s, d, rank, mode, asked).info;
            AddsUp(c) && c.newLabels == c.deletedLabels == c.skippedLabels == 0
  {
    hide Finish, MatchEqual, AskFrom, Conversation, Renews, Remarked, Account.Tells, SameIgnoringCase;
    var r := UpdateLabel(s, d, rank, mode, asked);
    FatalExactly(s, d, rank, mode, asked);
    if r.code != Fatal { var x := UpdateLabelTold(s, d, rank, mode, asked); }
  }

  lemma AddAddsUp(a: Info, b: Info)
    requires AddsUp(a) && AddsUp(b)
    ensures AddsUp(Add(a, b)) && Add(a, b).newLabels == a.newLabels + b.newLabels
    ensures Add(a, b).deletedLabels == a.deletedLabels + b.deletedLabels
  {
  }

  lemma TurnCounts(texts: nat, code: Code)
    ensures AddsUp(NewLabelCount(texts)) && NewLabelCount(texts).newLabels == 1 && NewLabelCount(texts).deletedLabels == 0
    ensures AddsUp(SkipCount(code)) && SkipCount(code).newLabels == SkipCount(code).deletedLabels == 0
  {
  }

  lemma VisitAddsUp(p: Progress, s: Label, rank: nat -> nat, run: Run)
    requires Shaped(p) && AddsUp(p.info) && p.info.deletedLabels == 0
    ensures var c := Visit(p, s, rank, run).info;
            && AddsUp(c) && c.deletedLabels == 0
            && c.newLabels == p.info.newLabels + if Lookup(p.labels, s.name) < 0 then 1 else 0
  {
    hide UpdateLabel, AddsUp, Add, NewLabelCount, SkipCount;
    var j := Lookup(p.labels, s.name);
    if j >= 0 {
      var u := UpdateLabel(s, p.labels[j], rank, ModeFor(p, run), p.asked);
      LabelAddsUp(s, p.labels[j], rank, ModeFor(p, run), p.asked);
      TurnCounts(0, u.code);
      AddAddsUp(p.info, u.info);
      AddAddsUp(Add(p.info, u.info), SkipCount(u.code));
    } else {
      TurnCounts(|s.texts|, Ok);
      AddAddsUp(p.info, NewLabelCount(|s.texts|));
    }
  }

  lemma {:induction false} VisitsAddUp(src: seq<Label>, n: nat, dst: Db, ranks: seq<nat -> nat>, run: Run)
    requires n <= |src| == |ranks|
    ensures var c := VisitAll(src, n, dst, ranks, run).info; AddsUp(c) && c.deletedLabels == 0
  {
    hide Visit;
    if n > 0 {
      VisitsAddUp(src, n - 1, dst, ranks, run);
      VisitAddsUp(VisitAll(src, n - 1, dst, ranks, run), src[n - 1], ranks[n - 1], run);
    }
  }

  /** How many of the first n destination labels no source label finds. */
  function Unreached(src: seq<Label>, dst: seq<Label>, n: nat): nat {
    if n == 0 then 0 else Unreached(src, dst, n - 1) + if Reached(src, |src|, dst, n - 1) then 0 else 1
  }

  /** How many of the first n source labels find no destination label. */
  function Newcomers(src: seq<Label>, dst: seq<Label>, n: nat): nat
    requires n <= |src|
  {
    if n == 0 then 0 else Newcomers(src, dst, n - 1) + if Lookup(dst, src[n - 1].name) < 0 then 1 else 0
  }

  lemma {:induction false} UnreachedCount(src: seq<Label>, dst: Db, p: Progress, n: nat)
    requires Tracked(src, |src|, dst, p) && n <= |p.labels|
    ensures Count(p.done, false, n) == Unreached(src, dst.labels, if n < |dst.labels| then n else |dst.labels|)
  {
    hide Reached;
    if n > 0 { UnreachedCount(src, dst, p, n - 1); }
  }

  lemma {:induction false} NewcomersCount(src: seq<Label>, n: nat, dst: Db, ranks: seq<nat -> nat>, run: Run)
    requires n <= |src| == |ranks| && DistinctNames(src)
    ensures VisitAll(src, n, dst, ranks, run).info.newLabels == Newcomers(src, dst.labels, n)
  {
    hide Visit, SameKey;
    if n > 0 {
      NewcomersCount(src, n - 1, dst, ranks, run);
      VisitsAddUp(src, n - 1, dst, ranks, run);
      VisitAddsUp(VisitAll(src, n - 1, dst, ranks, run), src[n - 1], ranks[n - 1], run);
      if Lookup(dst.labels, src[n - 1].name) < 0 {
        StillNew(src, n - 1, dst, ranks, run);
      } else {
        FoundAsItWas(src, n - 1, dst, ranks, run);
      }
    }
  }

  /**
   * The result of an update or a check is the sum of its counters. Removed are the labels no source label
   * finds, new the source labels that find none (with distinct source names).
   */
  lemma UpdateDbCounts(src: seq<Label>, dst: Db, ranks: seq<nat -> nat>, run: Run)
    requires |src| == |ranks|
    ensures var c := UpdateDb(src, dst, ranks, run).info;
            && AddsUp(c) && c.deletedLabels == Unreached(src, dst.labels, |dst.labels|)
            && (DistinctNames(src) ==> c.newLabels == Newcomers(src, dst.labels, |src|))
  {
    hide VisitAll, Select, SweepInfo, Tracked, SameKey, Unreached, Newcomers;
    var p := VisitAll(src, |src|, dst, ranks, run);
    VisitsAddUp(src, |src|, dst, ranks, run);
    VisitsTracked(src, |src|, dst, ranks, run);
    TrackedSizes(src, dst, p);
    SweptLabels(p.labels, p.done, |p.labels|);
    UnreachedCount(src, dst, p, |p.labels|);
    if DistinctNames(src) { NewcomersCount(src, |src|, dst, ranks, run); }
  }

  lemma TrackedSizes(src: seq<Label>, dst: Db, p: Progress)
    requires Tracked(src, |src|, dst, p)
    ensures |p.labels| >= |dst.labels|
  {
  }
}
