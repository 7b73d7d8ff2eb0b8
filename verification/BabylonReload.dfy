/**
 * TransDB::Errors on objects, and what CBabylonDlg::OnReload does once both databases are loaded
 * (Core/Tools/Babylon/BabylonDlg.cpp:1310-1434).
 */
module BabylonReload {
  import opened TextKeys
  import opened Selections
  import opened BabylonLabel
  import opened BabylonLabelLaws
  import opened BabylonDatabase
  import opened BabylonDatabaseLaws
  import opened BabylonObjects
  import opened BabylonUpdate
  import opened BabylonErrors
  import opened BabylonSources

  // ---------------------------------------------------------------------------------------
  // Errors
  // ---------------------------------------------------------------------------------------

  /** Bin::Get on the bin of one label's texts. */
  method FindKey(bin: seq<TextObject>, key: string) returns (found: bool)
    ensures found == HasKey(Values(bin), key)
  {
    hide SameKey;
    ghost var values := Values(bin);
    var k := 0;
    while k < |bin|
      invariant 0 <= k <= |bin| && forall i | 0 <= i < k :: !SameKey(values[i].str, key)
    {
      assert values[k].str == bin[k].str;
      if SameKey(bin[k].str, key) { return true; }
      k := k + 1;
    }
    found := false;
  }

  lemma FirstValues(texts: seq<TextObject>, n: nat)
    requires n <= |texts|
    ensures Values(texts[..n]) == Values(texts)[..n]
  {
  }

  lemma TextErrorsStep(l: LabelObject, n: nat)
    requires n < |l.texts|
    ensures var t := l.texts[n];
            TextErrors(l.Value(), n + 1) == TextErrors(l.Value(), n) + Bump(HasKey(Values(l.texts[..n]), t.str))
                                            + Bump(l.maxLen != 0 && |t.str| > l.maxLen)
  {
    hide HasKey;
    LabelValue(l);
    FirstValues(l.texts, n);
  }

  lemma Bumps()
    ensures Bump(true) == 1 && Bump(false) == 0
  {
  }

  /** The inner loop: the texts of one label. */
  method CountTextErrors(l: LabelObject) returns (errors: nat)
    ensures errors == TextErrors(l.Value(), |l.texts|)
  {
    hide *;
    Bumps();
    var bin: seq<TextObject> := [];
    errors := 0;
    var n := 0;
    NoTextsYet(l);
    while n < |l.texts|
      invariant 0 <= n <= |l.texts| && bin == l.texts[..n] && errors == TextErrors(l.Value(), n)
    {
      var t := l.texts[n];
      TextErrorsStep(l, n);
      var again := FindKey(bin, t.str);
      if again { errors := errors + 1; }
      bin := bin + [t];
      if l.maxLen != 0 && |t.str| > l.maxLen { errors := errors + 1; }
      n := n + 1;
    }
  }

  lemma NoTextsYet(l: LabelObject)
    ensures |Values(l.texts)| == |l.Value().texts| == |l.texts| && TextErrors(l.Value(), 0) == 0
  {
  }

  lemma FindAmongFirst(labels: seq<LabelObject>, n: nat, name: string)
    requires n <= |labels|
    ensures BabylonDatabase.FindLabel(LabelValues(labels[..n]), name, n)
         == BabylonDatabase.FindLabel(LabelValues(labels), name, n)
  {
    LabelValuesAll(labels);
    LabelValuesAll(labels[..n]);
    LookupStays(LabelValues(labels[..n]), LabelValues(labels), name, n);
  }

  lemma ErrorsStep(labels: seq<LabelObject>, multiText: bool, n: nat)
    requires n < |labels| && |LabelValues(labels)| == |labels| && |LabelValues(labels[..n])| == n
    requires |labels[n].Value().texts| == |labels[n].texts|
    ensures var values, l := LabelValues(labels), labels[n];
            BabylonErrors.Errors(values, multiText, n + 1)
            == BabylonErrors.Errors(values, multiText, n) + Bump(!multiText && |l.texts| > 1)
               + Bump(BabylonDatabase.FindLabel(LabelValues(labels[..n]), l.name, n) >= 0) + TextErrors(l.Value(), |l.texts|)
  {
    hide BabylonDatabase.FindLabel, LabelValues, TextErrors;
    LabelValuesAt(labels, n);
    LabelValue(labels[n]);
    FindAmongFirst(labels, n, labels[n].name);
  }

  /** What one label adds, with the labels before it in the bin. */
  method CountLabelErrors(l: LabelObject, bin: seq<LabelObject>, multiText: bool) returns (errors: nat)
    ensures |LabelValues(bin)| == |bin| && |l.Value().texts| == |l.texts|
    ensures errors == Bump(!multiText && |l.texts| > 1)
                      + Bump(BabylonDatabase.FindLabel(LabelValues(bin), l.name, |bin|) >= 0)
                      + TextErrors(l.Value(), |l.texts|)
  {
    hide *;
    Bumps();
    errors := 0;
    if !multiText && |l.texts| > 1 { errors := errors + 1; }
    var existing := BabylonUpdate.FindLabel(bin, l.name);
    if existing >= 0 { errors := errors + 1; }
    ghost var before, theirs := LabelValues(bin), TextsIn(bin);
    var inTexts := CountTextErrors(l);
    assert TextsIn(bin) == theirs && LabelValues(bin) == before;
    NoTextsYet(l);
    errors := errors + inTexts;
  }

  /** TransDB::Errors; the label bin is filled as the labels are looked at. */
  method Errors(db: Database) returns (errors: nat)
    ensures |LabelValues(db.labels)| == |db.labels|
    ensures errors == BabylonErrors.Errors(LabelValues(db.labels), db.multiText, |db.labels|)
  {
    hide *;
    var labels := db.labels;
    ghost var texts := TextsIn(labels);
    var bin: seq<LabelObject> := [];
    errors := 0;
    var n := 0;
    NoLabelsYet(labels, db.multiText);
    while n < |labels|
      invariant 0 <= n <= |labels| && bin == labels[..n]
      invariant errors == BabylonErrors.Errors(LabelValues(labels), db.multiText, n)
    {
      ghost var values := LabelValues(labels);
      var more := CountLabelErrors(labels[n], bin, db.multiText);
      assert TextsIn(labels) == texts && LabelValues(labels) == values;
      ErrorsStep(labels, db.multiText, n);
      errors := errors + more;
      bin := bin + [labels[n]];
      n := n + 1;
    }
  }

  lemma NoLabelsYet(labels: seq<LabelObject>, multiText: bool)
    ensures |LabelValues(labels)| == |labels| && BabylonErrors.Errors(LabelValues(labels), multiText, 0) == 0
  {
  }

  // ---------------------------------------------------------------------------------------
  // Reload
  // ---------------------------------------------------------------------------------------

  /** Both turns come from the source; an update is made after a check that found changes, if the user agrees. */
  predicate CheckThenUpdate(turns: seq<Turn>, src: seq<Label>, update: bool) {
    && |turns| == (if update then 2 else 1)
    && (forall k | 0 <= k < |turns| :: turns[k].src == src && |turns[k].ranks| == |src| && turns[k].update == (k == 1))
  }

  lemma AfterNothing(db: Db, multiText: bool)
    ensures Ranked([]) && After(db, [], multiText, 0) == db
  {
  }

  lemma AfterCheck(db: Db, src: seq<Label>, t: Turn, multiText: bool)
    requires t.src == src && |t.ranks| == |src| && !t.update
    ensures Ranked([t]) && After(db, [t], multiText, 1) == Take(db, t, multiText).db
    ensures CheckThenUpdate([t], src, false)
  {
    hide BabylonDatabase.UpdateDb;
    assert After(db, [t], multiText, 0) == db;
  }

  lemma AfterBoth(db: Db, src: seq<Label>, t: Turn, u: Turn, multiText: bool)
    requires t.src == u.src == src && |t.ranks| == |u.ranks| == |src| && !t.update && u.update
    ensures Ranked([t, u]) && CheckThenUpdate([t, u], src, true)
    ensures After(db, [t, u], multiText, 2) == Take(Take(db, t, multiText).db, u, multiText).db
  {
    hide BabylonDatabase.UpdateDb;
    assert After(db, [t, u], multiText, 0) == db;
    assert After(db, [t, u], multiText, 1) == Take(db, t, multiText).db;
  }

  /** A check adds nothing to the obsolete list, so every text is still in a label. */
  lemma CheckLosesNothing(db: Database, texts: set<TextObject>, obsolete: seq<TextObject>)
    requires NothingLost(db, texts, obsolete) && |db.obsolete| == |obsolete|
    ensures db.obsolete == obsolete && texts <= TextsIn(db.labels)
  {
  }

  lemma FewerLost(db: Database, texts: set<TextObject>, more: set<TextObject>, obsolete: seq<TextObject>)
    requires NothingLost(db, more, obsolete) && texts <= more
    ensures NothingLost(db, texts, obsolete)
  {
  }

  lemma NothingLostYet(db: Database)
    ensures NothingLost(db, TextsIn(db.labels), db.obsolete)
  {
  }

  lemma StillThere(db: Database, texts: set<TextObject>)
    requires texts <= TextsIn(db.labels)
    ensures NothingLost(db, texts, db.obsolete)
  {
  }

  lemma TakeIs(db: Db, t: Turn, multiText: bool)
    requires |t.ranks| == |t.src|
    ensures Take(db, t, multiText) == BabylonDatabase.UpdateDb(t.src, db, t.ranks, Run(t.update, multiText, t.answers))
  {
  }

  lemma BothAccepted(turns: seq<Turn>, src: seq<Label>, multiText: bool)
    requires BabylonErrors.Errors(src, multiText, |src|) == 0 && forall k | 0 <= k < |turns| :: turns[k].src == src
    ensures AllAccepted(turns, multiText)
  {
  }

  lemma ObsoleteStays(src: seq<Label>, dst: Db, ranks: seq<nat -> nat>, run: Run)
    requires |ranks| == |src| && !run.update
    ensures |BabylonDatabase.UpdateDb(src, dst, ranks, run).db.obsolete| == |dst.obsolete|
  {
    CheckDbIsExact(src, dst, ranks, run);
  }

  lemma ObsoleteSize(db: Database)
    ensures |DbValue(db).obsolete| == |db.obsolete|
  {
  }

  /** UpdateDB with update FALSE: no text leaves the labels. */
  method Check(source: Database, destination: Database, answers: nat -> Answer, ghost src: seq<Label>, ghost dst: Db)
    returns (changes: nat, ghost t: Turn)
    requires source != destination && WellOwned(source.labels) && Valid(destination)
    requires forall l | l in source.labels :: l !in destination.labels
    requires src == LabelValues(source.labels) && dst == DbValue(destination)
    modifies source.labels`processed, TextsIn(source.labels)`matched
    modifies destination`labels, destination`textBin, destination`obsolete, destination.labels, TextsIn(destination.labels)
    ensures t.src == src && |t.ranks| == |src| && !t.update
    ensures Valid(destination) && DbValue(destination) == Take(dst, t, destination.multiText).db
    ensures WellOwned(source.labels) && LabelValues(source.labels) == src
    ensures TextsIn(source.labels) == old(TextsIn(source.labels))
    ensures forall i | 0 <= i < |destination.labels| ::
              destination.labels[i] !in source.labels
              && (destination.labels[i] in old(destination.labels) || fresh(destination.labels[i]))
    ensures old(TextsIn(destination.labels)) <= TextsIn(destination.labels)
    ensures fresh(TextsIn(destination.labels) - old(TextsIn(destination.labels)))
    ensures destination.obsolete == old(destination.obsolete)
  {
    hide *;
    ghost var texts, obsolete, mine := TextsIn(destination.labels), destination.obsolete, TextsIn(source.labels);
    ObsoleteSize(destination);
    ghost var ranks, o;
    changes, ranks, o := BabylonUpdate.UpdateDb(source, destination, false, answers);
    t := Turn(src, ranks, false, answers);
    TakeIs(dst, t, destination.multiText);
    ObsoleteStays(src, dst, ranks, Run(false, destination.multiText, answers));
    ObsoleteSize(destination);
    CheckLosesNothing(destination, texts, obsolete);
    assert TextsIn(source.labels) == mine;
  }

  /** CBabylonDlg::OnUpdate. */
  method Update(source: Database, destination: Database, answers: nat -> Answer, ghost src: seq<Label>, ghost dst: Db,
                ghost texts: set<TextObject>)
    returns (ghost t: Turn)
    requires source != destination && WellOwned(source.labels) && Valid(destination)
    requires forall l | l in source.labels :: l !in destination.labels
    requires src == LabelValues(source.labels) && dst == DbValue(destination) && texts <= TextsIn(destination.labels)
    modifies source.labels`processed, TextsIn(source.labels)`matched
    modifies destination`labels, destination`textBin, destination`obsolete, destination.labels, TextsIn(destination.labels)
    ensures t.src == src && |t.ranks| == |src| && t.update
    ensures Valid(destination) && DbValue(destination) == Take(dst, t, destination.multiText).db
    ensures WellOwned(source.labels) && LabelValues(source.labels) == src
    ensures NothingLost(destination, texts, old(destination.obsolete))
  {
    hide *;
    ghost var more, obsolete := TextsIn(destination.labels), destination.obsolete;
    var _, ranks, _ := BabylonUpdate.UpdateDb(source, destination, true, answers);
    t := Turn(src, ranks, true, answers);
    TakeIs(dst, t, destination.multiText);
    FewerLost(destination, texts, more, obsolete);
  }

  /**
   * CBabylonDlg::OnReload behind the loading, and OnUpdate: the errors of the source are counted; if
   * there are none the destination is checked, and if the check finds changes and the user agrees it
   * is updated. turns are the calls of UpdateDB that were made.
   */
  method Reload(source: Database, destination: Database, agree: bool, answers: nat -> Answer)
    returns (errors: nat, changes: nat, ghost turns: seq<Turn>)
    requires source != destination && WellOwned(source.labels) && Valid(destination)
    requires forall l | l in source.labels :: l !in destination.labels
    modifies source.labels`processed, TextsIn(source.labels)`matched
    modifies destination`labels, destination`textBin, destination`obsolete, destination.labels, TextsIn(destination.labels)
    ensures var src := old(LabelValues(source.labels)); errors == BabylonErrors.Errors(src, source.multiText, |src|)
    ensures errors > 0 ==> turns == [] && changes == 0
    ensures errors == 0 ==> AllAccepted(turns, source.multiText)
                            && CheckThenUpdate(turns, old(LabelValues(source.labels)), changes > 0 && agree)
    ensures Ranked(turns) && DbValue(destination) == After(old(DbValue(destination)), turns, destination.multiText, |turns|)
    ensures Valid(destination) && WellOwned(source.labels) && LabelValues(source.labels) == old(LabelValues(source.labels))
    ensures NothingLost(destination, old(TextsIn(destination.labels)), old(destination.obsolete))
  {
    hide *;
    ghost var src, dst, multiText := LabelValues(source.labels), DbValue(destination), destination.multiText;
    ghost var texts, mine := TextsIn(destination.labels), TextsIn(source.labels);
    NothingLostYet(destination);
    AfterNothing(dst, multiText);
    errors := Errors(source);
    assert TextsIn(destination.labels) == texts && TextsIn(source.labels) == mine;
    assert LabelValues(source.labels) == src && DbValue(destination) == dst;
    changes, turns := 0, [];
    if errors == 0 {
      ghost var check;
      changes, check := Check(source, destination, answers, src, dst);
      turns := [check];
      AfterCheck(dst, src, check, multiText);
      StillThere(destination, texts);
      if changes > 0 && agree {
        ghost var update := Update(source, destination, answers, src, DbValue(destination), texts);
        turns := [check, update];
        AfterBoth(dst, src, check, update, multiText);
      }
      BothAccepted(turns, src, source.multiText);
    }
  }
}
