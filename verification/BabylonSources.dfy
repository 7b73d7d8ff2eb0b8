/**
 * What UpdateDB guarantees in the dialog, which lets it run only on a source in which TransDB::Errors
 * finds nothing (Core/Tools/Babylon/BabylonDlg.cpp:1310-1317 and 1382): for one run, and for every history of runs.
 */
module BabylonSources {
  import opened TextKeys
  import opened Selections
  import opened BabylonLabel
  import opened BabylonLabelLaws
  import opened BabylonDatabase
  import opened BabylonDatabaseLaws
  import opened BabylonConservation
  import opened BabylonChains
  import opened BabylonErrors
  import opened BabylonRepeat

  /** TransDB::Errors returns 0. */
  predicate Accepted(src: seq<Label>, multiText: bool) { Errors(src, multiText, |src|) == 0 }

  lemma AcceptedIsSound(src: seq<Label>, multiText: bool)
    requires Accepted(src, multiText)
    ensures DistinctNames(src) && Repeaters(src, |src|) == 0
    ensures multiText || forall i | 0 <= i < |src| :: |src[i].texts| <= 1
  {
    hide DistinctNames, DistinctKeys, TooLong;
    NoErrorsExactly(src, multiText);
    NoRepeaters(src, |src|);
  }

  /**
   * An update from an accepted source. Whatever the user answers, the obsolete list gets texts of the
   * destination as they were, up to their marks, each at most once. If no label is skipped, the
   * destination then has exactly the source's labels as the bins compare names, and by their very
   * names if and only if it did not spell one differently; and any further run with this source asks
   * nothing, counts nothing and leaves everything as it is.
   */
  lemma AcceptedUpdate(src: seq<Label>, multiText: bool, dst: Db, ranks: seq<nat -> nat>, run: Run,
                       ranks': seq<nat -> nat>, run': Run)
    requires |ranks| == |src| == |ranks'| && Accepted(src, multiText) && run.update
    ensures var r := UpdateDb(src, dst, ranks, run);
            && KeepsOldTexts(src, dst, ranks, run)
            && (Slim(dst.labels, run.multiText) && r.info.skippedLabels == 0 ==>
                  && KeyConverged(src, r.db.labels)
                  && (ConvergedDb(src, r.db.labels) <==> SpelledAlike(src, dst.labels))
                  && UpdateDb(src, r.db, ranks', run') == DbOutcome(r.db, NO_INFO, 0))
  {
    hide UpdateDb, Unmarked, AllTexts, Tail, KeyConverged, ConvergedDb, SpelledAlike, DistinctNames, Accepted;
    AcceptedIsSound(src, multiText);
    MovedTextsAreKept(src, dst, ranks, run);
    if Slim(dst.labels, run.multiText) && UpdateDb(src, dst, ranks, run).info.skippedLabels == 0 {
      UpdateDbConvergesByKey(src, dst, ranks, run);
      UpdateDbConvergesExactly(src, dst, ranks, run);
      SecondRunIsIdle(src, dst, ranks, run, ranks', run');
    }
  }

  // ---------------------------------------------------------------------------------------
  // Histories
  // ---------------------------------------------------------------------------------------

  /** One call of UpdateDB in a history: a source, the bin orders it meets, update or check, the user. */
  datatype Turn = Turn(src: seq<Label>, ranks: seq<nat -> nat>, update: bool, answers: nat -> Answer)

  predicate Ranked(turns: seq<Turn>) { forall k | 0 <= k < |turns| :: |turns[k].ranks| == |turns[k].src| }

  predicate AllAccepted(turns: seq<Turn>, multiText: bool) {
    forall k | 0 <= k < |turns| :: Accepted(turns[k].src, multiText)
  }

  function Take(db: Db, t: Turn, multiText: bool): DbOutcome
    requires |t.ranks| == |t.src|
  {
    UpdateDb(t.src, db, t.ranks, Run(t.update, multiText, t.answers))
  }

  /** The destination after the first n turns. */
  function After(db: Db, turns: seq<Turn>, multiText: bool, n: nat): Db
    requires n <= |turns| && Ranked(turns)
  {
    if n == 0 then db else Take(After(db, turns, multiText, n - 1), turns[n - 1], multiText).db
  }

  /** No two labels are one key, and in single-text mode each has at most one text. */
  predicate InOrder(labels: seq<Label>, multiText: bool) {
    DistinctNames(labels) && Slim(labels, multiText)
  }

  lemma SelectStaysSlim(labels: seq<Label>, done: seq<bool>, multiText: bool)
    requires |labels| == |done| && Slim(labels, multiText)
    ensures Slim(Select(labels, done, true, |labels|), multiText)
  {
    SelectIsWhere(labels, done, true, |labels|);
  }

  /** Labels that differ in marks alone have the same names and sizes. */
  lemma MarksKeepOrder(a: seq<Label>, b: seq<Label>, multiText: bool)
    requires SameLabelsButMarks(a, b) && InOrder(a, multiText)
    ensures InOrder(b, multiText)
  {
    hide SameKey;
    forall j | 0 <= j < |b| ensures b[j].name == a[j].name && |b[j].texts| == |a[j].texts| {
      assert SameButMarks(a[j], b[j]) && |Unmarked(a[j].texts)| == |Unmarked(b[j].texts)|;
    }
  }

  lemma TurnKeepsOrder(db: Db, t: Turn, multiText: bool)
    requires |t.ranks| == |t.src| && Accepted(t.src, multiText) && InOrder(db.labels, multiText)
    ensures InOrder(Take(db, t, multiText).db.labels, multiText)
  {
    hide Visit, Accepted, DistinctNames, Select, DoneFirst, Named, SameLabelsButMarks;
    var run, n := Run(t.update, multiText, t.answers), |t.src|;
    var p := VisitAll(t.src, n, db, t.ranks, run);
    AcceptedIsSound(t.src, multiText);
    VisitsStaySlim(t.src, n, db, t.ranks, run);
    if t.update {
      VisitsName(t.src, n, db, t.ranks, run);
      SweptNamesDistinct(p);
      SelectStaysSlim(p.labels, p.done, multiText);
    } else {
      CheckDbIsExact(t.src, db, t.ranks, run);
      MarksKeepOrder(db.labels, p.labels, multiText);
    }
  }

  /** A database in order stays so over every history of accepted sources. */
  lemma {:induction false} HistoryKeepsOrder(db: Db, turns: seq<Turn>, multiText: bool, n: nat)
    requires n <= |turns| && Ranked(turns) && AllAccepted(turns, multiText) && InOrder(db.labels, multiText)
    ensures InOrder(After(db, turns, multiText, n).labels, multiText)
  {
    hide Take, InOrder, Accepted;
    if n > 0 {
      HistoryKeepsOrder(db, turns, multiText, n - 1);
      TurnKeepsOrder(After(db, turns, multiText, n - 1), turns[n - 1], multiText);
    }
  }

  /**
   * In every history of updates and checks with accepted sources, on a database that was in order, a
   * complete update leaves exactly the source's labels, as the bins compare names, and every run with
   * the same source straight after it is idle.
   */
  lemma HistoryConverges(db: Db, turns: seq<Turn>, multiText: bool, n: nat, ranks: seq<nat -> nat>, run: Run)
    requires n < |turns| && Ranked(turns) && AllAccepted(turns, multiText) && InOrder(db.labels, multiText)
    requires var t := turns[n];
             t.update && |ranks| == |t.src| && Take(After(db, turns, multiText, n), t, multiText).info.skippedLabels == 0
    ensures var now := After(db, turns, multiText, n + 1);
            KeyConverged(turns[n].src, now.labels) && UpdateDb(turns[n].src, now, ranks, run) == DbOutcome(now, NO_INFO, 0)
  {
    hide UpdateDb, Accepted, KeyConverged, DistinctNames, Unmarked, AllTexts;
    HistoryKeepsOrder(db, turns, multiText, n);
    var t := turns[n];
    AcceptedUpdate(t.src, multiText, After(db, turns, multiText, n), t.ranks, Run(true, multiText, t.answers), ranks, run);
  }

  /** The text is a clone of a text of the source. */
  predicate CloneFrom(t: Text, src: seq<Label>) {
    exists i, k | 0 <= i < |src| && 0 <= k < |src[i].texts| :: t == CloneText(src[i].texts[k])
  }

  /** The database holds the text, up to its mark. */
  predicate Holds(labels: seq<Label>, t: Text) { ComesFrom(t, AllTexts(labels, |labels|)) }

  lemma {:induction false} MarksKeepHold(a: seq<Label>, b: seq<Label>, n: nat)
    requires SameLabelsButMarks(a, b) && n <= |a|
    ensures Hold(AllTexts(a, n)) == Hold(AllTexts(b, n))
  {
    hide Unmarked;
    if n > 0 {
      MarksKeepHold(a, b, n - 1);
      assert SameButMarks(a[n - 1], b[n - 1]);
      SameCargos(a[n - 1].texts, b[n - 1].texts);
      HoldSum(AllTexts(a, n - 1), a[n - 1].texts);
      HoldSum(AllTexts(b, n - 1), b[n - 1].texts);
    }
  }

  /** One turn keeps the books and only adds to the obsolete list. */
  lemma TurnConserves(db: Db, t: Turn, multiText: bool) returns (added: seq<Text>)
    requires |t.ranks| == |t.src|
    ensures var now := Take(db, t, multiText).db;
            && Hold(AllTexts(now.labels, |now.labels|)) + Hold(now.obsolete)
               == Hold(AllTexts(db.labels, |db.labels|)) + Hold(db.obsolete) + Hold(added)
            && db.obsolete <= now.obsolete
    ensures forall x | x in added :: CloneFrom(x, t.src)
  {
    hide UpdateDb, AllTexts, Hold, AddedBy, SameLabelsButMarks;
    var run := Run(t.update, multiText, t.answers);
    if t.update {
      UpdateBalances(t.src, db, t.ranks, run);
      added := AddedBy(t.src, |t.src|, db, t.ranks, run);
      forall x | x in added ensures CloneFrom(x, t.src) {
        var i, k := AddedAreClones(t.src, |t.src|, db, t.ranks, run, x);
      }
    } else {
      CheckDbIsExact(t.src, db, t.ranks, run);
      MarksKeepHold(db.labels, UpdateDb(t.src, db, t.ranks, run).db.labels, |db.labels|);
      SameSizes(db.labels, UpdateDb(t.src, db, t.ranks, run).db.labels);
      NothingHeld();
      added := [];
    }
  }

  lemma SameSizes(a: seq<Label>, b: seq<Label>)
    requires SameLabelsButMarks(a, b)
    ensures |a| == |b|
  {
  }

  lemma NothingHeld()
    ensures Hold([]) == multiset{}
  {
  }

  /** What an accepted turn moves to the obsolete list stood in the database, with that value up to the mark. */
  lemma TurnMovesOldTexts(db: Db, t: Turn, multiText: bool, x: Text)
    requires |t.ranks| == |t.src| && Accepted(t.src, multiText)
    requires x in Tail(Take(db, t, multiText).db.obsolete, db)
    ensures Holds(db.labels, x)
  {
    hide UpdateDb, AllTexts, DistinctNames, Accepted, SameLabelsButMarks;
    var run := Run(t.update, multiText, t.answers);
    if t.update {
      AcceptedIsSound(t.src, multiText);
      MovedTextsAreKept(t.src, db, t.ranks, run);
      AmongThem(Tail(UpdateDb(t.src, db, t.ranks, run).db.obsolete, db), AllTexts(db.labels, |db.labels|), x);
    } else {
      CheckDbIsExact(t.src, db, t.ranks, run);
    }
  }

  /** Whatever n turns moved to the obsolete list stood in the database before one of them, up to its mark. */
  predicate MovesOldTexts(db: Db, turns: seq<Turn>, multiText: bool, n: nat)
    requires n <= |turns| && Ranked(turns)
  {
    forall x | x in Tail(After(db, turns, multiText, n).obsolete, db) ::
      exists k | 0 <= k < n :: Holds(After(db, turns, multiText, k).labels, x)
  }

  /**
   * From accepted sources the obsolete list only ever gets texts that stood in the database before
   * some turn, with that value up to the mark.
   */
  lemma {:induction false} HistoryMovesOldTexts(db: Db, turns: seq<Turn>, multiText: bool, n: nat)
    requires n <= |turns| && Ranked(turns) && AllAccepted(turns, multiText)
    ensures db.obsolete <= After(db, turns, multiText, n).obsolete && MovesOldTexts(db, turns, multiText, n)
  {
    hide Take, Holds, Accepted;
    if n > 0 {
      var was, now := After(db, turns, multiText, n - 1), After(db, turns, multiText, n);
      HistoryMovesOldTexts(db, turns, multiText, n - 1);
      var _ := TurnConserves(was, turns[n - 1], multiText);
      assert Tail(now.obsolete, db) == Tail(was.obsolete, db) + Tail(now.obsolete, was);
      forall x | x in Tail(now.obsolete, db)
        ensures exists k | 0 <= k < n :: Holds(After(db, turns, multiText, k).labels, x)
      {
        if x in Tail(now.obsolete, was) { TurnMovesOldTexts(was, turns[n - 1], multiText, x); }
      }
    }
  }

  /**
   * Over every history of updates and checks, whatever the sources and the answers, no translation is
   * lost: those in the database and in the obsolete list are the ones at the start and those of clones
   * of source texts. The obsolete list only grows.
   */
  lemma {:induction false} HistoryConserves(db: Db, turns: seq<Turn>, multiText: bool, n: nat) returns (added: seq<Text>)
    requires n <= |turns| && Ranked(turns)
    ensures var now := After(db, turns, multiText, n);
            && Hold(AllTexts(now.labels, |now.labels|)) + Hold(now.obsolete)
               == Hold(AllTexts(db.labels, |db.labels|)) + Hold(db.obsolete) + Hold(added)
            && db.obsolete <= now.obsolete
    ensures forall x | x in added :: exists k | 0 <= k < n :: CloneFrom(x, turns[k].src)
  {
    hide Take, AllTexts, Hold, CloneFrom;
    if n == 0 {
      NothingHeld();
      added := [];
    } else {
      var before := HistoryConserves(db, turns, multiText, n - 1);
      var more := TurnConserves(After(db, turns, multiText, n - 1), turns[n - 1], multiText);
      added := before + more;
      HoldSum(before, more);
    }
  }
}
