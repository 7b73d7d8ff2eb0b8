/** CBabylonDlg::UpdateDB of Core/Tools/Babylon/BabylonDlg.cpp on the objects of two databases. */
module BabylonUpdate {
  import opened TextKeys
  import opened Selections
  import opened BabylonLabel
  import opened BabylonLabelLaws
  import opened BabylonDatabase
  import opened BabylonDatabaseLaws
  import opened BabylonConservation
  import opened BabylonObjects

  /** The texts of the labels. */
  ghost function TextsIn(labels: seq<LabelObject>): (r: set<TextObject>)
    reads labels`texts
    ensures forall l | l in labels :: forall t | t in l.texts :: t in r
    ensures forall t | t in r :: exists l :: l in labels && t in l.texts
  {
    if labels == [] then {}
    else
      var rest, last := labels[..|labels| - 1], labels[|labels| - 1];
      assert forall l | l in labels :: l in rest || l == last;
      TextsIn(rest) + set t | t in last.texts
  }

  ghost function LabelValues(labels: seq<LabelObject>): (r: seq<Label>)
    reads labels`comment, labels`context, labels`speaker, labels`listener, labels`maxLen, labels`texts,
          TextsIn(labels)`str, TextsIn(labels)`wave, TextsIn(labels)`revision, TextsIn(labels)`retranslate,
          TextsIn(labels)`translations
    ensures |r| == |labels|
  {
    if labels == [] then [] else LabelValues(labels[..|labels| - 1]) + [labels[|labels| - 1].Value()]
  }

  lemma {:induction false} LabelValuesAt(labels: seq<LabelObject>, i: nat)
    requires i < |labels|
    ensures LabelValues(labels)[i] == labels[i].Value()
  {
    hide LabelObject.Value;
    if i < |labels| - 1 { LabelValuesAt(labels[..|labels| - 1], i); }
  }

  /** The texts of each label. */
  ghost function Lists(labels: seq<LabelObject>): (r: seq<seq<TextObject>>)
    reads labels`texts
    ensures |r| == |labels| && forall i | 0 <= i < |r| :: r[i] == labels[i].texts
  {
    if labels == [] then [] else Lists(labels[..|labels| - 1]) + [labels[|labels| - 1].texts]
  }

  lemma ListsAre(labels: seq<LabelObject>, lists: seq<seq<TextObject>>)
    requires |lists| == |labels| && forall i | 0 <= i < |labels| :: labels[i].texts == lists[i]
    ensures Lists(labels) == lists
  {
  }

  /** The values of all texts. */
  ghost function TextValues(labels: seq<LabelObject>): map<TextObject, Text>
    reads labels`texts, TextsIn(labels)`str, TextsIn(labels)`wave, TextsIn(labels)`revision, TextsIn(labels)`retranslate,
          TextsIn(labels)`translations
  {
    map t | t in TextsIn(labels) :: t.Value()
  }

  predicate DistinctLabels(labels: seq<LabelObject>) {
    forall i, j | 0 <= i < j < |labels| :: labels[i] != labels[j]
  }

  /** The labels are different and own their texts. */
  ghost predicate WellOwned(labels: seq<LabelObject>)
    reads labels`texts, TextsIn(labels)`owner
  {
    DistinctLabels(labels)
    && forall l | l in labels :: Owned(l)
  }

  /** The database is consistent: its bin holds the texts of its labels, and obsolete texts have no label. */
  ghost predicate Valid(db: Database)
    reads db`labels, db`textBin, db`obsolete, db.labels`texts, TextsIn(db.labels)`owner, db.textBin`owner, db.obsolete`owner
  {
    && WellOwned(db.labels) && Distinct(db.textBin)
    && (forall t | t in db.textBin :: t.owner != null && t.owner in db.labels && t in t.owner.texts)
    && (forall l | l in db.labels :: forall t | t in l.texts :: t in db.textBin)
    && forall t | t in db.obsolete :: t.owner == null
  }

  ghost function DbValue(db: Database): Db
    reads db`labels, db`obsolete, db.labels`comment, db.labels`context, db.labels`speaker, db.labels`listener,
          db.labels`maxLen, db.labels`texts, TextsIn(db.labels)`str, TextsIn(db.labels)`wave, TextsIn(db.labels)`revision,
          TextsIn(db.labels)`retranslate, TextsIn(db.labels)`translations,
          db.obsolete`str, db.obsolete`wave, db.obsolete`revision, db.obsolete`retranslate, db.obsolete`translations
  {
    Db(LabelValues(db.labels), Values(db.obsolete))
  }

  // ---------------------------------------------------------------------------------------
  // Labels
  // ---------------------------------------------------------------------------------------

  lemma LabelValuesAll(labels: seq<LabelObject>)
    ensures |LabelValues(labels)| == |labels| && forall i | 0 <= i < |labels| :: LabelValues(labels)[i] == labels[i].Value()
  {
    forall i | 0 <= i < |labels| ensures LabelValues(labels)[i] == labels[i].Value() { LabelValuesAt(labels, i); }
  }

  /** The labels have these values. */
  lemma LabelValuesAre(labels: seq<LabelObject>, values: seq<Label>)
    requires |values| == |labels| && forall i | 0 <= i < |labels| :: labels[i].Value() == values[i]
    ensures LabelValues(labels) == values
  {
    LabelValuesAll(labels);
  }

  lemma {:induction false} FoundStays(labels: seq<Label>, name: string, i: nat, n: nat)
    requires i < n <= |labels| && BabylonDatabase.FindLabel(labels, name, i) < 0 && SameKey(labels[i].name, name)
    ensures BabylonDatabase.FindLabel(labels, name, n) == i
  {
    hide SameKey;
    if i < n - 1 { FoundStays(labels, name, i, n - 1); }
  }

  /** TransDB::FindLabel */
  method FindLabel(labels: seq<LabelObject>, name: string) returns (j: int)
    ensures j == BabylonDatabase.FindLabel(LabelValues(labels), name, |labels|)
  {
    hide SameKey;
    ghost var lv := LabelValues(labels);
    LabelValuesAll(labels);
    var i := 0;
    while i < |labels|
      invariant 0 <= i <= |labels| && BabylonDatabase.FindLabel(lv, name, i) < 0
    {
      assert labels[i].Value() == lv[i];
      if SameKey(labels[i].name, name) {
        FoundStays(lv, name, i, |labels|);
        return i;
      }
      i := i + 1;
    }
    j := -1;
  }

  /** AddText of a clone, to a label that is not yet in a database. */
  method AddClone(l: LabelObject, t: TextObject) returns (x: TextObject)
    modifies l`texts
    ensures fresh(x) && l.texts == old(l.texts) + [x] && x.Value() == CloneText(t.Value()) && x.owner == l
  {
    x := new TextObject.Clone(t);
    l.texts := l.texts + [x];
    x.owner := l;
  }

  /** BabylonLabel::Clone with its texts, not yet in a database. */
  method CloneLabelObject(l: LabelObject) returns (c: LabelObject)
    ensures fresh(c) && c.Value() == CloneLabel(l.Value()) && Owned(c) && !c.processed
    ensures forall t | t in c.texts :: fresh(t)
  {
    hide *;
    c := new LabelObject.CloneFields(l);
    NoTexts(c.texts);
    ClonesEmpty(l.texts);
    var i := 0;
    while i < |l.texts|
      invariant 0 <= i <= |l.texts| && Distinct(c.texts)
      invariant forall t | t in c.texts :: fresh(t) && t.owner == c
      invariant Values(c.texts) == CloneValues(Values(l.texts), i)
      modifies c`texts
    {
      ghost var texts := c.texts;
      var t := AddClone(c, l.texts[i]);
      assert t !in texts;
      DistinctPush(texts, t);
      ValuesPush(texts, t);
      CloneValuesStep(Values(l.texts), i);
      i := i + 1;
    }
    LabelValue(l);
    LabelValue(c);
    CloneIs(l.Value());
    OwnedIs(c);
  }

  function CloneValues(texts: seq<Text>, n: nat): seq<Text>
    requires n <= |texts|
  {
    seq(n, i requires 0 <= i < n => CloneText(texts[i]))
  }

  lemma CloneValuesStep(texts: seq<Text>, n: nat)
    requires n < |texts|
    ensures CloneValues(texts, n + 1) == CloneValues(texts, n) + [CloneText(texts[n])]
  {
  }

  lemma ClonesEmpty(texts: seq<TextObject>)
    ensures |Values(texts)| == |texts| && CloneValues(Values(texts), 0) == []
  {
  }

  lemma CloneIs(l: Label)
    ensures CloneLabel(l) == Label(l.name, l.comment, l.context, l.speaker, l.listener, l.maxLen,
                                   CloneValues(l.texts, |l.texts|))
  {
    hide CloneText;
    assert CloneLabel(l).texts == CloneValues(l.texts, |l.texts|);
  }

  lemma OwnedIs(l: LabelObject)
    requires Distinct(l.texts) && forall t | t in l.texts :: t.owner == l
    ensures Owned(l)
  {
  }

  lemma LabelValuesPush(labels: seq<LabelObject>, l: LabelObject)
    ensures LabelValues(labels + [l]) == LabelValues(labels) + [l.Value()]
  {
  }

  /** TransDB::AddLabel, which also puts the label's texts into the bin. */
  method AddLabel(db: Database, l: LabelObject)
    requires Valid(db) && l !in db.labels && Owned(l) && forall t | t in l.texts :: t !in db.textBin
    modifies db`labels, db`textBin
    ensures Valid(db) && db.labels == old(db.labels) + [l]
  {
    db.labels := db.labels + [l];
    db.textBin := db.textBin + l.texts;
    DistinctJoin(old(db.textBin), l.texts);
    assert forall k | k in db.labels :: k in old(db.labels) || k == l;
  }

  // ---------------------------------------------------------------------------------------
  // Where the texts are
  // ---------------------------------------------------------------------------------------

  /** Text t still is in the list or in one of the lists of the labels. */
  predicate Somewhere(t: TextObject, lists: seq<seq<TextObject>>, tail: seq<TextObject>) {
    t in tail || exists i | 0 <= i < |lists| :: t in lists[i]
  }

  /** The texts have, marks aside, the values they had in the beginning. */
  predicate KeepValues(texts: seq<TextObject>, values: seq<Text>, was: map<TextObject, Text>) {
    |values| == |texts| &&
    forall k | 0 <= k < |texts| ::
      texts[k] in was && values[k].(retranslate := false) == was[texts[k]].(retranslate := false)
  }

  /**
   * The texts the destination had in the beginning, with their values, when the update has come to
   * state p: each still is in a label or at the end of the obsolete list. When no label is updated
   * twice, those in the obsolete list and those of unprocessed labels are as they were.
   */
  predicate Traced(lists: seq<seq<TextObject>>, tail: seq<TextObject>, p: Progress, dst: Db, was: map<TextObject, Text>,
                   once: bool)
  {
    && |lists| == |p.labels| == |p.done| && dst.obsolete <= p.obsolete
    && (forall t | t in was :: Somewhere(t, lists, tail))
    && (once ==> KeepValues(tail, Tail(p.obsolete, dst), was))
    && (once ==> forall i | 0 <= i < |lists| && !p.done[i] :: KeepValues(lists[i], p.labels[i].texts, was))
  }

  lemma {:induction false} SelectKeeps(texts: seq<TextObject>, values: seq<Text>, was: map<TextObject, Text>, marks: seq<bool>, n: nat)
    requires n <= |texts| == |marks| && KeepValues(texts, values, was)
    ensures KeepValues(Select(texts, marks, false, n), Select(values, marks, false, n), was)
  {
    if n > 0 { SelectKeeps(texts, values, was, marks, n - 1); }
  }

  lemma KeepUnmarked(texts: seq<TextObject>, values: seq<Text>, others: seq<Text>, was: map<TextObject, Text>)
    requires KeepValues(texts, values, was) && Unmarked(values) == Unmarked(others)
    ensures KeepValues(texts, others, was)
  {
    assert |Unmarked(values)| == |Unmarked(others)|;
    forall k | 0 <= k < |texts| ensures others[k].(retranslate := false) == values[k].(retranslate := false) {
      assert Unmarked(values)[k] == Unmarked(others)[k];
    }
  }

  lemma KeepSum(a: seq<TextObject>, b: seq<TextObject>, x: seq<Text>, y: seq<Text>, was: map<TextObject, Text>)
    requires KeepValues(a, x, was) && KeepValues(b, y, was)
    ensures KeepValues(a + b, x + y, was)
  {
  }

  lemma StillSomewhere(lists: seq<seq<TextObject>>, tail: seq<TextObject>, j: nat, now: seq<TextObject>, stay: seq<bool>, t: TextObject)
    requires j < |lists| && |stay| == |lists[j]| && Somewhere(t, lists, tail)
    requires forall i | 0 <= i < |lists[j]| && stay[i] :: lists[j][i] in now
    ensures Somewhere(t, lists[j := now], tail + Select(lists[j], stay, false, |stay|))
  {
    hide Select;
    var lists' := lists[j := now];
    if t !in tail {
      var i :| 0 <= i < |lists| && t in lists[i];
      if i == j {
        SelectedBefore(lists[j], stay, false, |stay|);
        var k :| 0 <= k < |lists[j]| && lists[j][k] == t;
        assert stay[k] ==> t in lists'[j];
      } else {
        assert t in lists'[i];
      }
    }
  }

  /** Label j is updated: its texts stay or go to the end of the obsolete list. */
  lemma TraceFound(lists: seq<seq<TextObject>>, tail: seq<TextObject>, p: Progress, dst: Db, was: map<TextObject, Text>, once: bool,
                   j: nat, now: seq<TextObject>, stay: seq<bool>, q: Progress, more: seq<Text>)
    requires Traced(lists, tail, p, dst, was, once) && j < |lists| && (once ==> !p.done[j])
    requires |stay| == |lists[j]| == |p.labels[j].texts| && q.obsolete == p.obsolete + more
    requires forall i | 0 <= i < |lists[j]| && stay[i] :: lists[j][i] in now
    requires Unmarked(more) == Unmarked(Select(p.labels[j].texts, stay, false, |stay|))
    requires |q.labels| == |q.done| == |p.labels| && q.done == p.done[j := true]
    requires forall i | 0 <= i < |p.labels| && i != j :: q.labels[i] == p.labels[i]
    ensures Traced(lists[j := now], tail + Select(lists[j], stay, false, |stay|), q, dst, was, once)
  {
    hide Unmarked, KeepValues, Somewhere, Select;
    var gone := Select(lists[j], stay, false, |stay|);
    forall t | t in was ensures Somewhere(t, lists[j := now], tail + gone) {
      StillSomewhere(lists, tail, j, now, stay, t);
    }
    if once {
      SelectKeeps(lists[j], p.labels[j].texts, was, stay, |stay|);
      KeepUnmarked(gone, Select(p.labels[j].texts, stay, false, |stay|), more, was);
      KeepSum(tail, gone, Tail(p.obsolete, dst), more, was);
      assert Tail(q.obsolete, dst) == Tail(p.obsolete, dst) + more;
    }
  }

  /** A label is appended. */
  lemma TraceNew(lists: seq<seq<TextObject>>, tail: seq<TextObject>, p: Progress, dst: Db, was: map<TextObject, Text>, once: bool,
                 lists': seq<seq<TextObject>>, q: Progress)
    requires Traced(lists, tail, p, dst, was, once) && q.obsolete == p.obsolete && lists <= lists'
    requires |q.labels| == |q.done| == |lists'| && p.labels <= q.labels && p.done <= q.done
    requires forall j | |p.done| <= j < |q.done| :: q.done[j]
    ensures Traced(lists', tail, q, dst, was, once)
  {
    hide KeepValues;
    forall t | t in was ensures Somewhere(t, lists', tail) {
      assert Somewhere(t, lists, tail);
      if t !in tail {
        var i :| 0 <= i < |lists| && t in lists[i];
        assert t in lists'[i];
      }
    }
  }

  /** The texts of the unprocessed labels among the first n. */
  function ListsOf(lists: seq<seq<TextObject>>, done: seq<bool>, n: nat): seq<TextObject>
    requires n <= |lists| == |done|
  {
    if n == 0 then [] else if done[n - 1] then ListsOf(lists, done, n - 1) else ListsOf(lists, done, n - 1) + lists[n - 1]
  }

  lemma {:induction false} ListsKeep(lists: seq<seq<TextObject>>, p: Progress, was: map<TextObject, Text>, n: nat)
    requires n <= |lists| == |p.labels| == |p.done|
    requires forall i | 0 <= i < |lists| && !p.done[i] :: KeepValues(lists[i], p.labels[i].texts, was)
    ensures KeepValues(ListsOf(lists, p.done, n), TextsOf(p.labels, p.done, false, n), was)
  {
    if n > 0 {
      ListsKeep(lists, p, was, n - 1);
      assert TextsOf(p.labels, p.done, false, n - 1) + [] == TextsOf(p.labels, p.done, false, n - 1);
      if !p.done[n - 1] {
        KeepSum(ListsOf(lists, p.done, n - 1), lists[n - 1], TextsOf(p.labels, p.done, false, n - 1), p.labels[n - 1].texts, was);
      }
    }
  }

  lemma {:induction false} InListsOf(lists: seq<seq<TextObject>>, done: seq<bool>, i: nat, t: TextObject, n: nat)
    requires i < n <= |lists| == |done| && !done[i] && t in lists[i]
    ensures t in ListsOf(lists, done, n)
  {
    if i < n - 1 { InListsOf(lists, done, i, t, n - 1); }
  }

  /** The sweep moves the texts of unprocessed labels behind the others. */
  lemma TraceSwept(lists: seq<seq<TextObject>>, tail: seq<TextObject>, p: Progress, dst: Db, was: map<TextObject, Text>, once: bool)
    requires Traced(lists, tail, p, dst, was, once)
    ensures |lists| == |p.done| == |p.labels|
    ensures var gone := ListsOf(lists, p.done, |lists|);
            && (forall t | t in was :: t in tail + gone || exists i | 0 <= i < |lists| && p.done[i] :: t in lists[i])
            && (once ==> KeepValues(tail + gone, Tail(p.obsolete + TextsOf(p.labels, p.done, false, |lists|), dst), was))
  {
    hide KeepValues;
    var gone, more := ListsOf(lists, p.done, |lists|), TextsOf(p.labels, p.done, false, |lists|);
    forall t | t in was ensures t in tail + gone || exists i | 0 <= i < |lists| && p.done[i] :: t in lists[i] {
      assert Somewhere(t, lists, tail);
      if t !in tail {
        var i :| 0 <= i < |lists| && t in lists[i];
        if !p.done[i] { InListsOf(lists, p.done, i, t, |lists|); }
      }
    }
    if once {
      ListsKeep(lists, p, was, |lists|);
      KeepSum(tail, gone, Tail(p.obsolete, dst), more, was);
      assert Tail(p.obsolete + more, dst) == Tail(p.obsolete, dst) + more;
    }
  }

  /** What the destination was in the beginning; once says that no label is updated twice. */
  datatype Origin = Origin(dst: Db, obsolete: seq<TextObject>, was: map<TextObject, Text>, once: bool)

  /** The database in state p is traced back to its origin, and the old obsolete texts are still there. */
  ghost predicate TracedBack(db: Database, p: Progress, origin: Origin)
    reads db`labels, db`obsolete, db.labels`texts
  {
    && |origin.obsolete| <= |db.obsolete| && db.obsolete[..|origin.obsolete|] == origin.obsolete
    && Traced(Lists(db.labels), db.obsolete[|origin.obsolete|..], p, origin.dst, origin.was, origin.once)
  }

  /** If no label is updated twice, source label s is not about to. */
  predicate FirstTime(p: Progress, s: Label, once: bool)
    requires Shaped(p)
  {
    var j := BabylonDatabase.FindLabel(p.labels, s.name, |p.labels|);
    once && j >= 0 ==> !p.done[j]
  }

  lemma TracedBackIs(db: Database, p: Progress, origin: Origin, lists: seq<seq<TextObject>>, obsolete: seq<TextObject>)
    requires lists == Lists(db.labels) && obsolete == db.obsolete
    ensures TracedBack(db, p, origin) <==>
            && |origin.obsolete| <= |obsolete| && obsolete[..|origin.obsolete|] == origin.obsolete
            && Traced(lists, obsolete[|origin.obsolete|..], p, origin.dst, origin.was, origin.once)
  {
  }

  /** The step of TraceFound on the whole obsolete list. */
  lemma TraceKnown(lists: seq<seq<TextObject>>, obsolete: seq<TextObject>, p: Progress, s: Label, origin: Origin,
                   j: nat, now: seq<TextObject>, nowObsolete: seq<TextObject>, stay: seq<bool>, q: Progress, o: Outcome)
    requires Shaped(p) && BabylonDatabase.FindLabel(p.labels, s.name, |p.labels|) == j && FirstTime(p, s, origin.once)
    requires |origin.obsolete| <= |obsolete| && obsolete[..|origin.obsolete|] == origin.obsolete
    requires Traced(lists, obsolete[|origin.obsolete|..], p, origin.dst, origin.was, origin.once) && j < |lists|
    requires |stay| == |lists[j]| == |p.labels[j].texts| && Parted(lists[j], now, obsolete, nowObsolete, stay)
    requires Unmarked(o.obsolete) == Unmarked(Select(p.labels[j].texts, stay, false, |stay|))
    requires q.labels == p.labels[j := o.dest] && q.done == p.done[j := true] && q.obsolete == p.obsolete + o.obsolete
    ensures |origin.obsolete| <= |nowObsolete| && nowObsolete[..|origin.obsolete|] == origin.obsolete
    ensures Traced(lists[j := now], nowObsolete[|origin.obsolete|..], q, origin.dst, origin.was, origin.once)
  {
    hide Traced, Unmarked, Select;
    var tail, gone := obsolete[|origin.obsolete|..], Select(lists[j], stay, false, |stay|);
    TraceFound(lists, tail, p, origin.dst, origin.was, origin.once, j, now, stay, q, o.obsolete);
    assert nowObsolete[|origin.obsolete|..] == tail + gone;
  }

  // ---------------------------------------------------------------------------------------
  // One source label
  // ---------------------------------------------------------------------------------------

  /** The database is in the state of the progress. */
  ghost predicate InState(db: Database, p: Progress)
    reads db`labels, db`obsolete, db.labels`comment, db.labels`context, db.labels`speaker, db.labels`listener,
          db.labels`maxLen, db.labels`texts, TextsIn(db.labels)`str, TextsIn(db.labels)`wave, TextsIn(db.labels)`revision,
          TextsIn(db.labels)`retranslate, TextsIn(db.labels)`translations, db.labels`processed,
          db.obsolete`str, db.obsolete`wave, db.obsolete`revision, db.obsolete`retranslate, db.obsolete`translations
  {
    && LabelValues(db.labels) == p.labels && Values(db.obsolete) == p.obsolete && |p.done| == |p.labels|
    && forall i | 0 <= i < |p.done| && i < |db.labels| :: db.labels[i].processed == p.done[i]
  }

  /** What lies outside label dlabel, whose texts are texts. */
  ghost predicate Beside(db: Database, dlabel: LabelObject, bin: seq<TextObject>, obsolete: seq<TextObject>, texts: seq<TextObject>)
    reads db`labels, db.labels`texts, TextsIn(db.labels)`owner, bin`owner, obsolete`owner
  {
    && DistinctLabels(db.labels)
    && (forall l | l in db.labels && l != dlabel ::
          Owned(l) && forall t | t in l.texts :: t in bin && t !in texts)
    && (forall t | t in bin && t !in texts ::
          t.owner != null && t.owner != dlabel && t.owner in db.labels && t in t.owner.texts)
    && forall t | t in obsolete :: t.owner == null && t !in texts
  }

  lemma BesideStart(db: Database, dlabel: LabelObject)
    requires Valid(db) && dlabel in db.labels
    ensures Owned(dlabel) && Binned(db.textBin, dlabel, dlabel.texts)
    ensures Beside(db, dlabel, db.textBin, db.obsolete, dlabel.texts)
  {
  }

  lemma BesideEnd(db: Database, dlabel: LabelObject, bin: seq<TextObject>, obsolete: seq<TextObject>, texts: seq<TextObject>)
    requires Beside(db, dlabel, bin, obsolete, texts) && dlabel in db.labels
    requires Moved(bin, db.textBin, obsolete, db.obsolete, texts, dlabel)
    ensures Valid(db)
  {
    forall t | t in db.obsolete ensures t.owner == null {
      var k :| 0 <= k < |db.obsolete| && db.obsolete[k] == t;
      if k < |obsolete| {
        assert obsolete[k] == t;
      } else {
        assert t == db.obsolete[|obsolete|..][k - |obsolete|];
      }
    }
  }

  /** UpdateLabel on a label of the database, which stays consistent; other labels and old obsolete texts are kept. */
  method UpdateIn(slabel: LabelObject, dlabel: LabelObject, db: Database, mode: Mode, asked: nat)
    returns (code: Code, info: Info, nowAsked: nat, ghost o: Outcome, ghost stay: seq<bool>)
    requires Valid(db) && Owned(slabel) && slabel !in db.labels && dlabel in db.labels
    modifies slabel.texts`matched, dlabel`comment, dlabel`context, dlabel`speaker, dlabel`listener, dlabel`maxLen,
             dlabel`texts, dlabel.texts, db`textBin, db`obsolete
    ensures o == BabylonLabel.UpdateLabel(old(slabel.Value()), old(dlabel.Value()),
                                          old(Places(db.textBin, dlabel.texts)), mode, asked)
    ensures code == o.code && info == o.info && nowAsked == o.asked && dlabel.Value() == o.dest
    ensures Valid(db) && slabel.Value() == old(slabel.Value())
    ensures |old(db.obsolete)| <= |db.obsolete| && db.obsolete[..|old(db.obsolete)|] == old(db.obsolete)
    ensures Values(db.obsolete[|old(db.obsolete)|..]) == o.obsolete && Values(old(db.obsolete)) == old(Values(db.obsolete))
    ensures forall i | 0 <= i < |db.labels| && db.labels[i] != dlabel :: LabelKept(db.labels[i])
    ensures forall t | t in dlabel.texts :: t in old(dlabel.texts) || fresh(t)
    ensures |stay| == |old(dlabel.texts)| == |old(Values(dlabel.texts))|
    ensures Parted(old(dlabel.texts), dlabel.texts, old(db.obsolete), db.obsolete, stay)
    ensures Unmarked(o.obsolete) == Unmarked(Select(old(Values(dlabel.texts)), stay, false, |stay|))
  {
    hide *;
    ghost var bin, obsolete, texts := db.textBin, db.obsolete, dlabel.texts;
    BesideStart(db, dlabel);
    BesideApart(db, dlabel, bin, obsolete, texts);
    code, info, nowAsked, o, stay := BabylonObjects.UpdateLabel(slabel, dlabel, db, mode, asked);
    BesideEnd(db, dlabel, bin, obsolete, texts);
    forall i | 0 <= i < |db.labels| && db.labels[i] != dlabel ensures LabelKept(db.labels[i]) {
      LabelIsKept(db.labels[i]);
    }
    TextsKept(obsolete);
    MovedObsolete(bin, db.textBin, obsolete, db.obsolete, texts, dlabel);
  }

  twostate lemma LabelIsKept(l: LabelObject)
    requires l.comment == old(l.comment) && l.context == old(l.context) && l.speaker == old(l.speaker)
             && l.listener == old(l.listener) && l.maxLen == old(l.maxLen) && l.texts == old(l.texts)
    requires forall t | t in l.texts ::
               && t.str == old(t.str) && t.wave == old(t.wave) && t.revision == old(t.revision)
               && t.retranslate == old(t.retranslate) && t.translations == old(t.translations) && t.owner == old(t.owner)
    ensures LabelKept(l)
  {
    forall k | 0 <= k < |l.texts| ensures TextKept(l.texts[k]) { assert l.texts[k] in l.texts; }
  }

  /** The same, in terms of the values of the labels. */
  method UpdateAt(slabel: LabelObject, dlabel: LabelObject, db: Database, mode: Mode, asked: nat,
                  ghost j: nat, ghost was: seq<Label>, ghost gone: seq<Text>)
    returns (code: Code, info: Info, nowAsked: nat, ghost o: Outcome, ghost stay: seq<bool>)
    requires Valid(db) && Owned(slabel) && slabel !in db.labels && j < |db.labels| && dlabel == db.labels[j]
    requires was == LabelValues(db.labels) && gone == Values(db.obsolete)
    modifies slabel.texts`matched, dlabel`comment, dlabel`context, dlabel`speaker, dlabel`listener, dlabel`maxLen,
             dlabel`texts, dlabel.texts, db`textBin, db`obsolete
    ensures j < |was| && o == BabylonLabel.UpdateLabel(old(slabel.Value()), was[j],
                                                       old(Places(db.textBin, dlabel.texts)), mode, asked)
    ensures code == o.code && info == o.info && nowAsked == o.asked
    ensures Valid(db) && slabel.Value() == old(slabel.Value())
    ensures LabelValues(db.labels) == was[j := o.dest] && Values(db.obsolete) == gone + o.obsolete
    ensures fresh(TextsIn(db.labels) - old(TextsIn(db.labels)))
    ensures j < |old(Lists(db.labels))| && Lists(db.labels) == old(Lists(db.labels))[j := dlabel.texts]
    ensures |stay| == |old(Lists(db.labels))[j]| == |was[j].texts|
    ensures Parted(old(Lists(db.labels))[j], dlabel.texts, old(db.obsolete), db.obsolete, stay)
    ensures Unmarked(o.obsolete) == Unmarked(Select(was[j].texts, stay, false, |stay|))
  {
    hide *;
    ghost var obsolete, lists := db.obsolete, Lists(db.labels);
    ValidDistinct(db);
    LabelValuesAll(db.labels);
    LabelValue(dlabel);
    code, info, nowAsked, o, stay := UpdateIn(slabel, dlabel, db, mode, asked);
    forall i | 0 <= i < |db.labels| && i != j ensures db.labels[i].Value() == was[i] && db.labels[i].texts == lists[i] {
      KeptLabel(db.labels[i]);
    }
    ListsAre(db.labels, lists[j := dlabel.texts]);
    LabelValuesAre(db.labels, was[j := o.dest]);
    assert db.obsolete == obsolete + db.obsolete[|obsolete|..];
    ValuesJoin(obsolete, db.obsolete[|obsolete|..]);
  }

  /** Texts whose fields are as they were have the same values. */
  twostate lemma TextsKept(texts: seq<TextObject>)
    requires forall t | t in texts ::
               && t.str == old(t.str) && t.wave == old(t.wave) && t.revision == old(t.revision)
               && t.retranslate == old(t.retranslate) && t.translations == old(t.translations)
    ensures Values(texts) == old(Values(texts))
  {
    forall k | 0 <= k < |texts| ensures texts[k].Value() == old(texts[k].Value()) { assert texts[k] in texts; }
  }

  lemma MovedObsolete(bin: seq<TextObject>, now: seq<TextObject>, obsolete: seq<TextObject>, nowObsolete: seq<TextObject>,
                      texts: seq<TextObject>, l: LabelObject)
    requires Moved(bin, now, obsolete, nowObsolete, texts, l)
    ensures |obsolete| <= |nowObsolete| && nowObsolete == obsolete + nowObsolete[|obsolete|..]
  {
  }

  /** The values of all labels, field by field. */
  lemma LabelParts(labels: seq<LabelObject>)
    ensures |LabelValues(labels)| == |labels|
    ensures forall i | 0 <= i < |labels| ::
              var l := labels[i];
              LabelValues(labels)[i]
              == Label(l.name, l.comment, l.context, l.speaker, l.listener, l.maxLen, Values(l.texts))
  {
    LabelValuesAll(labels);
  }

  lemma BesideApart(db: Database, dlabel: LabelObject, bin: seq<TextObject>, obsolete: seq<TextObject>, texts: seq<TextObject>)
    requires Beside(db, dlabel, bin, obsolete, texts)
    ensures forall i, k | 0 <= i < k < |db.labels| :: db.labels[i] != db.labels[k]
    ensures forall i | 0 <= i < |db.labels| && db.labels[i] != dlabel :: forall t | t in db.labels[i].texts :: t !in texts
    ensures forall t | t in obsolete :: t !in texts
  {
  }

  lemma AtIs(db: Database, p: Progress)
    ensures InState(db, p) <==>
            && LabelValues(db.labels) == p.labels && Values(db.obsolete) == p.obsolete
            && |p.done| == |p.labels|
            && forall i | 0 <= i < |p.done| && i < |db.labels| :: db.labels[i].processed == p.done[i]
    ensures |LabelValues(db.labels)| == |db.labels|
  {
  }

  lemma VisitFound(p: Progress, s: Label, rank: nat -> nat, run: Run, j: nat)
    requires Shaped(p) && BabylonDatabase.FindLabel(p.labels, s.name, |p.labels|) == j
    ensures j < |p.labels| == |p.done|
    ensures var o := BabylonLabel.UpdateLabel(s, p.labels[j], rank, ModeFor(p, run), p.asked);
            Visit(p, s, rank, run)
            == Progress(p.labels[j := o.dest], p.done[j := true], p.obsolete + o.obsolete,
                        Add(Add(p.info, o.info), SkipCount(o.code)), o.asked, p.skipAll || o.code == Cancelled)
  {
    hide BabylonLabel.UpdateLabel;
  }

  lemma VisitNew(p: Progress, s: Label, rank: nat -> nat, run: Run)
    requires Shaped(p) && BabylonDatabase.FindLabel(p.labels, s.name, |p.labels|) < 0
    ensures var info := Add(p.info, NewLabelCount(|s.texts|));
            Visit(p, s, rank, run)
            == if run.update then p.(labels := p.labels + [CloneLabel(s)], done := p.done + [true], info := info)
               else p.(info := info)
  {
  }

  /** UpdateAt for source label s, with the trace of the texts. */
  method UpdateTraced(slabel: LabelObject, dlabel: LabelObject, db: Database, mode: Mode, asked: nat,
                      ghost j: nat, ghost run: Run, ghost p: Progress, ghost s: Label, ghost rank: nat -> nat, ghost origin: Origin)
    returns (code: Code, info: Info, nowAsked: nat, ghost o: Outcome)
    requires Valid(db) && Owned(slabel) && slabel !in db.labels && j < |db.labels| && dlabel == db.labels[j]
    requires s == slabel.Value()
    requires LabelValues(db.labels) == p.labels && Values(db.obsolete) == p.obsolete
    requires Shaped(p) && TracedBack(db, p, origin) && FirstTime(p, s, origin.once)
    requires BabylonDatabase.FindLabel(p.labels, s.name, |p.labels|) == j < |p.labels|
    requires mode == ModeFor(p, run) && asked == p.asked && rank == Places(db.textBin, dlabel.texts)
    modifies slabel.texts`matched, dlabel`comment, dlabel`context, dlabel`speaker, dlabel`listener, dlabel`maxLen,
             dlabel`texts, dlabel.texts, db`textBin, db`obsolete
    ensures o == BabylonLabel.UpdateLabel(s, p.labels[j], rank, mode, asked)
    ensures code == o.code && info == o.info && nowAsked == o.asked
    ensures Valid(db) && slabel.Value() == s
    ensures LabelValues(db.labels) == p.labels[j := o.dest] && Values(db.obsolete) == p.obsolete + o.obsolete
    ensures fresh(TextsIn(db.labels) - old(TextsIn(db.labels)))
    ensures TracedBack(db, Visit(p, s, rank, run), origin)
  {
    hide *;
    ghost var lists, obsolete := Lists(db.labels), db.obsolete;
    TracedBackIs(db, p, origin, lists, obsolete);
    VisitFound(p, s, rank, run, j);
    ghost var stay;
    code, info, nowAsked, o, stay := UpdateAt(slabel, dlabel, db, mode, asked, j, p.labels, p.obsolete);
    ghost var q := Visit(p, s, rank, run);
    TraceKnown(lists, obsolete, p, s, origin, j, dlabel.texts, db.obsolete, stay, q, o);
    TracedBackIs(db, q, origin, Lists(db.labels), db.obsolete);
  }

  /** The turn of the loop for a label the destination has, as label j. */
  method VisitKnown(slabel: LabelObject, db: Database, j: nat, run: Run, info: Info, asked: nat, skipAll: bool,
                    ghost p: Progress, ghost s: Label, ghost origin: Origin)
    returns (nowInfo: Info, nowAsked: nat, nowSkip: bool, ghost rank: nat -> nat, ghost q: Progress)
    requires Valid(db) && Owned(slabel) && slabel !in db.labels && j < |db.labels|
    requires s == slabel.Value() && InState(db, p) && info == p.info && asked == p.asked && skipAll == p.skipAll
    requires Shaped(p) && TracedBack(db, p, origin) && FirstTime(p, s, origin.once)
    requires |p.done| == |p.labels| && BabylonDatabase.FindLabel(p.labels, s.name, |p.labels|) == j
    modifies slabel.texts`matched, db.labels[j], db.labels[j].texts, db`textBin, db`obsolete
    ensures q == Visit(p, s, rank, run) && InState(db, q) && Valid(db) && slabel.Value() == s
    ensures nowInfo == q.info && nowAsked == q.asked && nowSkip == q.skipAll
    ensures fresh(TextsIn(db.labels) - old(TextsIn(db.labels)))
    ensures TracedBack(db, q, origin)
  {
    hide *;
    AtIs(db, p);
    ShapedIs(p);
    rank := Places(db.textBin, db.labels[j].texts);
    VisitFound(p, s, rank, run, j);
    ValidDistinct(db);
    db.labels[j].processed := true;
    var code, more;
    ghost var o;
    ModeIs(p, run);
    code, more, nowAsked, o := UpdateTraced(slabel, db.labels[j], db, Mode(run.update, skipAll, run.multiText, run.answers),
                                            asked, j, run, p, s, rank, origin);
    nowSkip := skipAll || code == Cancelled;
    nowInfo := Add(info, more);
    nowInfo := Add(nowInfo, SkipCount(code));
    q := Visit(p, s, rank, run);
    AtIs(db, q);
  }

  lemma ShapedIs(p: Progress)
    ensures Shaped(p) <==> |p.done| == |p.labels|
  {
  }

  lemma ModeIs(p: Progress, run: Run)
    ensures ModeFor(p, run) == Mode(run.update, p.skipAll, run.multiText, run.answers)
  {
  }

  lemma ValidDistinct(db: Database)
    requires Valid(db)
    ensures forall i, k | 0 <= i < k < |db.labels| :: db.labels[i] != db.labels[k]
  {
  }

  /** The turn of the loop for a label the destination does not have. */
  method VisitUnknown(slabel: LabelObject, db: Database, run: Run, info: Info, ghost p: Progress, ghost s: Label,
                      ghost rank: nat -> nat, ghost origin: Origin)
    returns (nowInfo: Info, ghost q: Progress)
    requires Valid(db) && s == slabel.Value() && InState(db, p) && info == p.info && TracedBack(db, p, origin)
    requires |p.done| == |p.labels| && BabylonDatabase.FindLabel(p.labels, s.name, |p.labels|) < 0
    modifies db`labels, db`textBin
    ensures q == Visit(p, s, rank, run) && InState(db, q) && Valid(db) && slabel.Value() == s
    ensures nowInfo == q.info && q.asked == p.asked && q.skipAll == p.skipAll
    ensures forall i | 0 <= i < |db.labels| :: db.labels[i] in old(db.labels) || fresh(db.labels[i])
    ensures fresh(TextsIn(db.labels) - old(TextsIn(db.labels)))
    ensures TracedBack(db, q, origin)
  {
    hide *;
    AtIs(db, p);
    ShapedIs(p);
    ghost var lists, obsolete := Lists(db.labels), db.obsolete;
    TracedBackIs(db, p, origin, lists, obsolete);
    VisitNew(p, s, rank, run);
    LabelValue(slabel);
    nowInfo := Add(info, NewLabelCount(|slabel.texts|));
    q := Visit(p, s, rank, run);
    if run.update { AddCloneOf(slabel, db, p.labels, p.obsolete); }
    AtIs(db, q);
    TracedBackIs(db, q, origin, Lists(db.labels), obsolete);
    TraceNew(lists, obsolete[|origin.obsolete|..], p, origin.dst, origin.was, origin.once, Lists(db.labels), q);
  }

  /** A clone of the source label joins the database. */
  method AddCloneOf(slabel: LabelObject, db: Database, ghost was: seq<Label>, ghost gone: seq<Text>)
    requires Valid(db) && was == LabelValues(db.labels) && gone == Values(db.obsolete)
    modifies db`labels, db`textBin
    ensures Valid(db) && slabel.Value() == old(slabel.Value()) && Values(db.obsolete) == gone
    ensures LabelValues(db.labels) == was + [CloneLabel(slabel.Value())]
    ensures |db.labels| == |old(db.labels)| + 1 && db.labels[|old(db.labels)|].processed
    ensures forall i | 0 <= i < |old(db.labels)| ::
              db.labels[i] == old(db.labels)[i] && db.labels[i].processed == old(db.labels[i].processed)
    ensures forall i | 0 <= i < |db.labels| :: db.labels[i] in old(db.labels) || fresh(db.labels[i])
    ensures fresh(TextsIn(db.labels) - old(TextsIn(db.labels)))
    ensures old(Lists(db.labels)) <= Lists(db.labels)
  {
    hide *;
    var clone := CloneBeside(slabel, db, was, gone);
    JoinLabel(db, clone, was);
  }

  /** A processed clone that is not yet in the database, which stays as it is. */
  method CloneBeside(slabel: LabelObject, db: Database, ghost was: seq<Label>, ghost gone: seq<Text>) returns (clone: LabelObject)
    requires Valid(db) && was == LabelValues(db.labels) && gone == Values(db.obsolete)
    ensures fresh(clone) && clone.Value() == CloneLabel(slabel.Value()) && Owned(clone) && clone.processed
    ensures clone !in db.labels && (forall t | t in clone.texts :: fresh(t)) && forall t | t in clone.texts :: t !in db.textBin
    ensures Valid(db) && LabelValues(db.labels) == was
    ensures Values(db.obsolete) == gone && slabel.Value() == old(slabel.Value())
  {
    hide *;
    ghost var labels, bin := db.labels, db.textBin;
    ValidIs(db);
    LabelParts(labels);
    clone := CloneLabelObject(slabel);
    assert clone !in labels && forall t | t in bin :: t !in clone.texts;
    clone.processed := true;
    ValidIs(db);
    forall i | 0 <= i < |labels| ensures labels[i].Value() == was[i] { LabelValue(labels[i]); }
    LabelValuesAre(labels, was);
  }

  /** AddLabel, and what the labels are then. */
  method JoinLabel(db: Database, l: LabelObject, ghost was: seq<Label>)
    requires Valid(db) && was == LabelValues(db.labels)
    requires l !in db.labels && Owned(l) && forall t | t in l.texts :: t !in db.textBin
    modifies db`labels, db`textBin
    ensures Valid(db) && db.labels == old(db.labels) + [l] && LabelValues(db.labels) == was + [l.Value()]
    ensures forall t | t in TextsIn(db.labels) :: t in old(TextsIn(db.labels)) || t in l.texts
  {
    hide *;
    ghost var labels := db.labels;
    LabelParts(labels);
    TextsInPush(labels, l);
    AddLabel(db, l);
    forall i | 0 <= i < |labels| ensures labels[i].Value() == was[i] { LabelValue(labels[i]); }
    LabelValuesAre(db.labels, was + [l.Value()]);
  }

  /** Valid, spelled out. */
  lemma ValidIs(db: Database)
    ensures Valid(db) <==>
            && (forall i, k | 0 <= i < k < |db.labels| :: db.labels[i] != db.labels[k])
            && (forall l | l in db.labels :: Owned(l)) && Distinct(db.textBin)
            && (forall t | t in db.textBin :: t.owner != null && t.owner in db.labels && t in t.owner.texts)
            && (forall l | l in db.labels :: forall t | t in l.texts :: t in db.textBin)
            && forall t | t in db.obsolete :: t.owner == null
  {
  }

  lemma TextsInPush(labels: seq<LabelObject>, l: LabelObject)
    ensures forall t | t in TextsIn(labels + [l]) :: t in TextsIn(labels) || t in l.texts
  {
  }

  /** Two databases share neither labels nor texts. */
  lemma TextsApart(src: seq<LabelObject>, db: Database)
    requires WellOwned(src) && Valid(db) && forall l | l in src :: l !in db.labels
    ensures forall l | l in src :: forall t | t in l.texts :: t !in TextsIn(db.labels)
    ensures forall l | l in src :: Owned(l)
  {
  }

  /** One turn of the loop over the source labels, as far as the destination is concerned. */
  method VisitDestination(slabel: LabelObject, db: Database, run: Run, info: Info, asked: nat, skipAll: bool,
                          ghost p: Progress, ghost s: Label, ghost origin: Origin)
    returns (nowInfo: Info, nowAsked: nat, nowSkip: bool, ghost rank: nat -> nat, ghost q: Progress)
    requires Valid(db) && Owned(slabel) && slabel !in db.labels && s == slabel.Value() && InState(db, p) && Shaped(p)
    requires TracedBack(db, p, origin) && FirstTime(p, s, origin.once)
    requires info == p.info && asked == p.asked && skipAll == p.skipAll
    modifies slabel.texts`matched, db`labels, db`textBin, db`obsolete, db.labels, TextsIn(db.labels)
    ensures Shaped(q) && q == Visit(p, s, rank, run) && InState(db, q) && Valid(db)
    ensures nowInfo == q.info && nowAsked == q.asked && nowSkip == q.skipAll
    ensures forall i | 0 <= i < |db.labels| :: db.labels[i] in old(db.labels) || fresh(db.labels[i])
    ensures fresh(TextsIn(db.labels) - old(TextsIn(db.labels)))
    ensures TracedBack(db, q, origin)
  {
    hide *;
    ShapedIs(p);
    AtIs(db, p);
    LabelValue(slabel);
    var j := FindLabel(db.labels, slabel.name);
    if j >= 0 {
      InTexts(db.labels, j);
      nowInfo, nowAsked, nowSkip, rank, q := VisitKnown(slabel, db, j, run, info, asked, skipAll, p, s, origin);
    } else {
      rank := Places([], []);
      nowAsked, nowSkip := asked, skipAll;
      nowInfo, q := VisitUnknown(slabel, db, run, info, p, s, rank, origin);
    }
    AtIs(db, q);
    ShapedIs(q);
  }

  /** One turn of the loop over the source labels, which stay as they are. */
  method VisitLabel(slabel: LabelObject, db: Database, run: Run, info: Info, asked: nat, skipAll: bool,
                    ghost src: seq<LabelObject>, ghost n: nat, ghost p: Progress, ghost sv: seq<Label>, ghost origin: Origin)
    returns (nowInfo: Info, nowAsked: nat, nowSkip: bool, ghost rank: nat -> nat, ghost q: Progress)
    requires n < |src| && slabel == src[n] && WellOwned(src) && Valid(db) && forall l | l in src :: l !in db.labels
    requires sv == LabelValues(src) && InState(db, p) && Shaped(p)
    requires info == p.info && asked == p.asked && skipAll == p.skipAll
    requires TracedBack(db, p, origin) && n < |sv| && FirstTime(p, sv[n], origin.once)
    modifies slabel`processed, slabel.texts`matched, db`labels, db`textBin, db`obsolete, db.labels, TextsIn(db.labels)
    ensures n < |sv| && Shaped(q) && q == Visit(p, sv[n], rank, run) && InState(db, q) && Valid(db)
    ensures nowInfo == q.info && nowAsked == q.asked && nowSkip == q.skipAll
    ensures WellOwned(src) && LabelValues(src) == sv && forall l | l in src :: l !in db.labels
    ensures forall i | 0 <= i < |db.labels| :: db.labels[i] in old(db.labels) || fresh(db.labels[i])
    ensures fresh(TextsIn(db.labels) - old(TextsIn(db.labels)))
    ensures TracedBack(db, q, origin)
  {
    hide *;
    TextsApart(src, db);
    LabelValuesAll(src);
    nowInfo, nowAsked, nowSkip, rank, q := VisitDestination(slabel, db, run, info, asked, skipAll, p, sv[n], origin);
    AtIs(db, q);
    slabel.processed := true;
    AtIs(db, q);
    assert forall i | 0 <= i < |src| :: src[i] in src;
    AllKept(src);
    LabelsKept(src);
  }

  /** A text, and a label with its texts, are as they were. */
  twostate predicate TextKept(t: TextObject)
    reads t
  {
    && t.str == old(t.str) && t.wave == old(t.wave) && t.revision == old(t.revision)
    && t.retranslate == old(t.retranslate) && t.translations == old(t.translations) && t.owner == old(t.owner)
  }

  twostate predicate LabelKept(l: LabelObject)
    reads l, l.texts
  {
    && l.comment == old(l.comment) && l.context == old(l.context) && l.speaker == old(l.speaker)
    && l.listener == old(l.listener) && l.maxLen == old(l.maxLen) && l.texts == old(l.texts)
    && forall k | 0 <= k < |l.texts| :: TextKept(l.texts[k])
  }

  twostate lemma KeptLabel(l: LabelObject)
    requires LabelKept(l)
    ensures l.Value() == old(l.Value()) && Owned(l) == old(Owned(l)) && l.texts == old(l.texts)
  {
    assert forall k | 0 <= k < |l.texts| :: TextKept(l.texts[k]) && l.texts[k].Value() == old(l.texts[k].Value());
    assert Values(l.texts) == old(Values(l.texts));
    assert forall k | 0 <= k < |l.texts| :: l.texts[k].owner == old(l.texts[k].owner);
  }

  /** Labels that are kept own the same texts and have the same values. */
  twostate lemma LabelsKept(labels: seq<LabelObject>)
    requires forall i | 0 <= i < |labels| :: LabelKept(labels[i])
    ensures LabelValues(labels) == old(LabelValues(labels)) && WellOwned(labels) == old(WellOwned(labels))
  {
    hide LabelValues, LabelObject.Value, LabelKept, Owned, TextsIn;
    forall i | 0 <= i < |labels| ensures labels[i].Value() == old(labels[i].Value()) && Owned(labels[i]) == old(Owned(labels[i])) {
      KeptLabel(labels[i]);
    }
    OldLabelValues(labels);
    LabelValuesAre(labels, old(LabelValues(labels)));
  }

  twostate lemma {:induction false} OldLabelValues(labels: seq<LabelObject>)
    ensures |old(LabelValues(labels))| == |labels|
    ensures forall i | 0 <= i < |labels| :: old(LabelValues(labels))[i] == old(labels[i].Value())
  {
    hide LabelObject.Value;
    if labels != [] { OldLabelValues(labels[..|labels| - 1]); }
  }

  twostate lemma AllKept(labels: seq<LabelObject>)
    requires forall i | 0 <= i < |labels| ::
               var l := labels[i];
               && l.comment == old(l.comment) && l.context == old(l.context) && l.speaker == old(l.speaker)
               && l.listener == old(l.listener) && l.maxLen == old(l.maxLen) && l.texts == old(l.texts)
    requires forall l | l in labels :: forall t | t in l.texts ::
               && t.str == old(t.str) && t.wave == old(t.wave) && t.revision == old(t.revision)
               && t.retranslate == old(t.retranslate) && t.translations == old(t.translations) && t.owner == old(t.owner)
    ensures forall i | 0 <= i < |labels| :: LabelKept(labels[i])
  {
    forall i, k | 0 <= i < |labels| && 0 <= k < |labels[i].texts| ensures TextKept(labels[i].texts[k]) {
      assert labels[i] in labels && labels[i].texts[k] in labels[i].texts;
    }
  }

  lemma InTexts(labels: seq<LabelObject>, j: nat)
    requires j < |labels|
    ensures labels[j] in labels && forall t | t in labels[j].texts :: t in TextsIn(labels)
  {
  }

  // ---------------------------------------------------------------------------------------
  // Labels no source label has
  // ---------------------------------------------------------------------------------------

  /** Remove and AddObsolete of the first text of a label. */
  method MoveToObsolete(db: Database, l: LabelObject, t: TextObject)
    requires Valid(db) && l in db.labels && l.texts != [] && t == l.texts[0]
    modifies l`texts, t`owner, db`textBin, db`obsolete
    ensures Valid(db) && l.texts == old(l.texts)[1..] && db.obsolete == old(db.obsolete) + [t]
  {
    hide *;
    ghost var texts, bin := l.texts, db.textBin;
    ValidIs(db);
    FirstText(l, t);
    NotElsewhere(db, l, t);
    BinWithout(bin, t);
    RemoveText(l, db, t);
    db.obsolete := db.obsolete + [t];
    RestOwned(l, texts);
    ValidIs(db);
  }

  lemma FirstText(l: LabelObject, t: TextObject)
    requires Owned(l) && l.texts != [] && t == l.texts[0]
    ensures Without(l.texts, t) == l.texts[1..] && t !in l.texts[1..] && t.owner == l
    ensures Distinct(l.texts[1..]) && forall x | x in l.texts[1..] :: x in l.texts && x.owner == l
    ensures forall x | x in l.texts && x != t :: x in l.texts[1..]
  {
    assert l.texts == [t] + l.texts[1..];
    DistinctCons(t, l.texts[1..]);
  }

  lemma NotElsewhere(db: Database, l: LabelObject, t: TextObject)
    requires Valid(db) && t.owner == l
    ensures forall x | x in db.labels && x != l :: t !in x.texts
  {
  }

  lemma BinWithout(bin: seq<TextObject>, t: TextObject)
    requires Distinct(bin)
    ensures Distinct(Without(bin, t)) && forall x :: x in Without(bin, t) <==> x in bin && x != t
  {
    WithoutDistinct(bin, t);
  }

  lemma RestOwned(l: LabelObject, texts: seq<TextObject>)
    requires Distinct(l.texts) && forall t | t in l.texts :: t.owner == l
    ensures Owned(l)
  {
  }

  /** The inner loop: the texts of an obsolete label. */
  method SweepTexts(db: Database, l: LabelObject, update: bool) returns (count: nat)
    requires Valid(db) && l in db.labels
    modifies l`texts, l.texts`owner, db`textBin, db`obsolete
    ensures Valid(db) && count == |old(l.texts)|
    ensures update ==> l.texts == [] && db.obsolete == old(db.obsolete) + old(l.texts)
    ensures !update ==> l.texts == old(l.texts) && db.obsolete == old(db.obsolete)
  {
    hide *;
    var texts := l.texts;
    var i := 0;
    while i < |texts|
      invariant 0 <= i <= |texts| && Valid(db)
      invariant update ==> l.texts == texts[i..] && db.obsolete == old(db.obsolete) + texts[..i]
      invariant !update ==> l.texts == texts && db.obsolete == old(db.obsolete)
    {
      if update {
        assert texts[i..][0] == texts[i] && texts[i..][1..] == texts[i + 1..] && texts[..i + 1] == texts[..i] + [texts[i]];
        MoveToObsolete(db, l, texts[i]);
        assert db.obsolete == old(db.obsolete) + (texts[..i] + [texts[i]]);
      }
      i := i + 1;
    }
    count := i;
    assert texts[..i] == texts && texts[i..] == [];
  }

  /** BabylonLabel::Remove of a label without texts. */
  method RemoveLabel(db: Database, l: LabelObject)
    requires Valid(db) && l in db.labels && l.texts == []
    modifies db`labels
    ensures Valid(db) && db.labels == Without(old(db.labels), l)
  {
    hide *;
    ValidIs(db);
    LabelsWithout(db.labels, l);
    db.labels := Without(db.labels, l);
    ValidIs(db);
  }

  lemma {:induction false} LabelsWithout(labels: seq<LabelObject>, l: LabelObject)
    requires DistinctLabels(labels)
    ensures var r := Without(labels, l); DistinctLabels(r) && forall x | x in labels && x != l :: x in r
  {
    if labels != [] {
      LabelsCons(labels[0], labels[1..]);
      LabelsWithout(labels[1..], l);
      assert labels == [labels[0]] + labels[1..];
      if labels[0] != l { LabelsCons(labels[0], Without(labels[1..], l)); }
    }
  }

  lemma LabelsCons(l: LabelObject, labels: seq<LabelObject>)
    ensures DistinctLabels([l] + labels) <==> l !in labels && DistinctLabels(labels)
  {
    var all := [l] + labels;
    assert forall k | 0 <= k < |labels| :: all[k + 1] == labels[k];
    if DistinctLabels(all) { assert forall k | 0 < k < |all| :: all[0] != all[k]; }
  }

  lemma SelectLabels(labels: seq<LabelObject>, done: seq<bool>, j: nat)
    requires j < |labels| == |done| && DistinctLabels(labels)
    ensures labels[j] in labels[j..]
    ensures done[j] ==> Select(labels, done, true, j) + labels[j..] == Select(labels, done, true, j + 1) + labels[j + 1..]
    ensures !done[j] ==>
              Without(Select(labels, done, true, j) + labels[j..], labels[j])
              == Select(labels, done, true, j + 1) + labels[j + 1..]
  {
    var a := Select(labels, done, true, j);
    assert labels[j..] == [labels[j]] + labels[j + 1..];
    assert labels[j..][0] == labels[j];
    assert a + ([labels[j]] + labels[j + 1..]) == (a + [labels[j]]) + labels[j + 1..];
    if !done[j] {
      SelectedBefore(labels, done, true, j);
      WithoutMiddle(a, labels[j], labels[j + 1..]);
    }
  }

  lemma SweepStep(p: Progress, j: nat)
    requires Shaped(p) && j < |p.labels|
    ensures |p.done| == |p.labels|
    ensures TextsOf(p.labels, p.done, false, j + 1)
         == if p.done[j] then TextsOf(p.labels, p.done, false, j) else TextsOf(p.labels, p.done, false, j) + p.labels[j].texts
    ensures SweepInfo(p.labels, p.done, j + 1)
         == if p.done[j] then SweepInfo(p.labels, p.done, j)
            else Add(SweepInfo(p.labels, p.done, j), SweptCount(|p.labels[j].texts|))
  {
    assert TextsOf(p.labels, p.done, false, j) + [] == TextsOf(p.labels, p.done, false, j);
  }

  lemma SweepStart(labels: seq<LabelObject>, p: Progress)
    requires Shaped(p) && |labels| == |p.labels|
    ensures |p.done| == |p.labels| && Select(labels, p.done, true, 0) + labels[0..] == labels
    ensures p.obsolete + TextsOf(p.labels, p.done, false, 0) == p.obsolete
    ensures Add(p.info, SweepInfo(p.labels, p.done, 0)) == p.info
  {
  }

  lemma AddMore(a: Info, b: Info, c: Info)
    ensures Add(Add(a, b), c) == Add(a, Add(b, c))
  {
  }

  /** One turn of the sweep: label j, which has position at in what is left of the list. */
  method SweepLabel(db: Database, l: LabelObject, update: bool, info: Info, ghost gone: seq<Text>)
    returns (nowInfo: Info)
    requires Valid(db) && l in db.labels && gone == Values(db.obsolete)
    modifies db`labels, db`textBin, db`obsolete, l`texts, l.texts`owner
    ensures Valid(db) && nowInfo == Add(info, SweptCount(|old(l.texts)|))
    ensures update ==> db.labels == Without(old(db.labels), l) && Values(db.obsolete) == gone + Values(old(l.texts))
    ensures update ==> db.obsolete == old(db.obsolete) + old(l.texts)
    ensures !update ==> db.labels == old(db.labels) && db.obsolete == old(db.obsolete) && l.texts == old(l.texts)
                        && Values(db.obsolete) == gone
  {
    hide *;
    ghost var texts, obsolete := l.texts, db.obsolete;
    var count := SweepTexts(db, l, update);
    if update {
      RemoveLabel(db, l);
      ValuesJoin(obsolete, texts);
    }
    nowInfo := Add(info, SweptCount(count));
  }

  /** SweepLabel on label j of a list leaves the others as they are. */
  method SweepApart(db: Database, l: LabelObject, update: bool, info: Info, ghost gone: seq<Text>,
                    ghost labels: seq<LabelObject>, ghost j: nat)
    returns (nowInfo: Info)
    requires Valid(db) && j < |labels| && l == labels[j] && DistinctLabels(labels) && l in db.labels
    requires gone == Values(db.obsolete)
    modifies db`labels, db`textBin, db`obsolete, l`texts, l.texts`owner
    ensures Valid(db) && nowInfo == Add(info, SweptCount(|old(l.texts)|))
    ensures update ==> db.labels == Without(old(db.labels), l) && Values(db.obsolete) == gone + old(Values(l.texts))
    ensures !update ==> db.labels == old(db.labels) && Values(db.obsolete) == gone
    ensures db.obsolete == old(db.obsolete) + if update then old(l.texts) else []
    ensures forall k | 0 <= k < |labels| && (k != j || !update) ::
              labels[k].Value() == old(labels[k].Value()) && labels[k].texts == old(labels[k].texts)
  {
    hide *;
    LabelPairs(labels);
    LabelParts(labels);
    LabelValuesAll(labels);
    nowInfo := SweepLabel(db, l, update, info, gone);
    LabelParts(labels);
    LabelValuesAll(labels);
  }

  lemma LabelPairs(labels: seq<LabelObject>)
    requires DistinctLabels(labels)
    ensures forall i, k | 0 <= i < |labels| && 0 <= k < |labels| && i != k :: labels[i] != labels[k]
  {
  }

  /** The values of the labels that are kept. */
  lemma {:induction false} KeptValues(labels: seq<LabelObject>, done: seq<bool>, values: seq<Label>, n: nat)
    requires n <= |labels| == |done| == |values|
    requires forall k | 0 <= k < n && done[k] :: labels[k].Value() == values[k]
    ensures LabelValues(Select(labels, done, true, n)) == Select(values, done, true, n)
  {
    hide LabelObject.Value;
    if n > 0 {
      KeptValues(labels, done, values, n - 1);
      if done[n - 1] { LabelValuesPush(Select(labels, done, true, n - 1), labels[n - 1]); }
    }
  }

  lemma SweepIs(p: Progress, update: bool)
    requires Shaped(p)
    ensures |p.done| == |p.labels|
    ensures var n := |p.labels|;
            BabylonDatabase.Sweep(p, update)
            == DbOutcome(if update
                         then Db(Select(p.labels, p.done, true, n), p.obsolete + TextsOf(p.labels, p.done, false, n))
                         else Db(p.labels, p.obsolete),
                         Add(p.info, SweepInfo(p.labels, p.done, n)), p.asked)
  {
  }

  /** The database when the sweep has passed j of its labels. */
  ghost predicate Swept(db: Database, labels: seq<LabelObject>, p: Progress, j: nat, update: bool)
    reads db`labels, db`obsolete, db.obsolete`str, db.obsolete`wave, db.obsolete`revision, db.obsolete`retranslate,
          db.obsolete`translations, labels`comment, labels`context, labels`speaker, labels`listener, labels`maxLen,
          labels`texts, TextsIn(labels)`str, TextsIn(labels)`wave, TextsIn(labels)`revision,
          TextsIn(labels)`retranslate, TextsIn(labels)`translations
  {
    && DistinctLabels(labels) && |labels| == |p.labels| == |p.done| && j <= |labels|
    && (forall k | 0 <= k < |labels| && (k >= j || p.done[k] || !update) :: labels[k].Value() == p.labels[k])
    && db.labels == (if update then Select(labels, p.done, true, j) + labels[j..] else labels)
    && Values(db.obsolete) == if update then p.obsolete + TextsOf(p.labels, p.done, false, j) else p.obsolete
  }

  lemma SweptSpelled(db: Database, labels: seq<LabelObject>, p: Progress, j: nat, update: bool)
    ensures Swept(db, labels, p, j, update) <==>
            && DistinctLabels(labels) && |labels| == |p.labels| == |p.done| && j <= |labels|
            && (forall k | 0 <= k < |labels| && (k >= j || p.done[k] || !update) :: labels[k].Value() == p.labels[k])
            && db.labels == (if update then Select(labels, p.done, true, j) + labels[j..] else labels)
            && Values(db.obsolete) == if update then p.obsolete + TextsOf(p.labels, p.done, false, j) else p.obsolete
  {
    hide LabelObject.Value, Values, TextsOf, Select, DistinctLabels;
  }

  lemma SweptBegins(db: Database, p: Progress, update: bool)
    requires InState(db, p) && Shaped(p) && Valid(db)
    ensures Swept(db, db.labels, p, 0, update) && |db.labels| == |p.labels| == |p.done|
    ensures forall k | 0 <= k < |p.done| :: db.labels[k].processed == p.done[k]
    ensures Add(p.info, SweepInfo(p.labels, p.done, 0)) == p.info
  {
    hide *;
    AtIs(db, p);
    ShapedIs(p);
    ValidDistinct(db);
    DistinctAre(db.labels);
    LabelValuesAll(db.labels);
    SweepStart(db.labels, p);
    SweptIs(db, db.labels, p, update);
  }

  lemma SweptIs(db: Database, labels: seq<LabelObject>, p: Progress, update: bool)
    requires DistinctLabels(labels) && |labels| == |p.labels| == |p.done| && db.labels == labels
    requires forall k | 0 <= k < |labels| :: labels[k].Value() == p.labels[k]
    requires Select(labels, p.done, true, 0) + labels[0..] == labels && Values(db.obsolete) == p.obsolete
    requires p.obsolete + TextsOf(p.labels, p.done, false, 0) == p.obsolete
    ensures Swept(db, labels, p, 0, update)
  {
    hide Select, TextsOf, LabelObject.Value, DistinctLabels, LabelValues, Values;
  }

  lemma SweptEnds(db: Database, labels: seq<LabelObject>, p: Progress, update: bool)
    requires Shaped(p) && Swept(db, labels, p, |labels|, update)
    ensures DbValue(db) == BabylonDatabase.Sweep(p, update).db && |labels| == |p.labels|
  {
    hide Select, TextsOf, SweepInfo, LabelObject.Value;
    var n := |labels|;
    assert Select(labels, p.done, true, n) + labels[n..] == Select(labels, p.done, true, n);
    if update { KeptValues(labels, p.done, p.labels, n); } else { LabelValuesAre(labels, p.labels); }
  }

  /** A processed label is passed. */
  lemma SweptPasses(db: Database, labels: seq<LabelObject>, p: Progress, j: nat, update: bool)
    requires Shaped(p) && Swept(db, labels, p, j, update) && j < |labels|
    ensures |p.done| == |labels|
    ensures p.done[j] ==> Swept(db, labels, p, j + 1, update)
  {
    hide Select, TextsOf, SweepInfo, LabelObject.Value;
    SweepStep(p, j);
    SelectLabels(labels, p.done, j);
  }

  /** One turn of the sweep, for a label that is not processed. */
  method SweepTurn(db: Database, l: LabelObject, update: bool, info: Info, ghost labels: seq<LabelObject>, ghost j: nat,
                   ghost p: Progress)
    returns (nowInfo: Info)
    requires Valid(db) && Shaped(p) && Swept(db, labels, p, j, update) && j < |labels| && l == labels[j]
    requires j < |p.done| && !p.done[j]
    modifies db`labels, db`textBin, db`obsolete, l`texts, l.texts`owner
    ensures Valid(db) && Swept(db, labels, p, j + 1, update)
    ensures |p.labels| > j && nowInfo == Add(info, SweptCount(|p.labels[j].texts|))
    ensures forall k | 0 <= k < |labels| && (k != j || !update) :: labels[k].texts == old(labels[k].texts)
    ensures db.obsolete == old(db.obsolete) + if update then old(l.texts) else []
  {
    hide *;
    SweptSpelled(db, labels, p, j, update);
    ShapedIs(p);
    SweepStep(p, j);
    SelectLabels(labels, p.done, j);
    LabelValue(l);
    nowInfo := SweepApart(db, l, update, info, Values(db.obsolete), labels, j);
    SweptSpelled(db, labels, p, j + 1, update);
  }

  /** The loop that removes the labels no source label has. */
  method SweepLabels(db: Database, update: bool, info: Info, ghost p: Progress) returns (nowInfo: Info, ghost r: DbOutcome)
    requires Valid(db) && InState(db, p) && Shaped(p) && info == p.info
    modifies db`labels, db`textBin, db`obsolete, db.labels`texts, TextsIn(db.labels)`owner
    ensures Valid(db) && r == BabylonDatabase.Sweep(p, update) && nowInfo == r.info && DbValue(db) == r.db
    ensures SweptAway(old(db.labels), old(Lists(db.labels)), p.done, old(db.obsolete), db, update)
    ensures forall t | t in TextsIn(db.labels) :: t in old(TextsIn(db.labels))
    ensures forall l | l in db.labels :: l in old(db.labels)
  {
    hide *;
    var labels := db.labels;
    ghost var lists, obsolete := Lists(labels), db.obsolete;
    SweptBegins(db, p, update);
    ListsStart(lists, p.done, obsolete);
    nowInfo := info;
    var j := 0;
    while j < |labels|
      invariant 0 <= j <= |labels| && Valid(db) && Swept(db, labels, p, j, update)
      invariant |lists| == |labels| == |p.done|
      invariant forall k | 0 <= k < |labels| && (k >= j || p.done[k] || !update) :: labels[k].texts == lists[k]
      invariant db.obsolete == obsolete + if update then ListsOf(lists, p.done, j) else []
      invariant nowInfo == Add(p.info, SweepInfo(p.labels, p.done, j))
    {
      SweptPasses(db, labels, p, j, update);
      SweepStep(p, j);
      ListsStep(lists, p.done, j);
      if !labels[j].processed {
        InTexts(labels, j);
        AddMore(p.info, SweepInfo(p.labels, p.done, j), SweptCount(|p.labels[j].texts|));
        nowInfo := SweepTurn(db, labels[j], update, nowInfo, labels, j, p);
      }
      j := j + 1;
    }
    SweepIs(p, update);
    r := BabylonDatabase.Sweep(p, update);
    SweptEnds(db, labels, p, update);
    SweptLeaves(db, labels, p, update);
    SweptAwayIs(labels, lists, p.done, obsolete, db, update);
    SweptTexts(db.labels, labels, lists, p.done, update, old(TextsIn(db.labels)));
  }

  /** What the sweep does to the lists of texts: kept labels keep theirs, the others are in the obsolete list. */
  ghost predicate SweptAway(labels: seq<LabelObject>, lists: seq<seq<TextObject>>, done: seq<bool>, obsolete: seq<TextObject>,
                            db: Database, update: bool)
    reads db`labels, db`obsolete, labels`texts
  {
    && |labels| == |lists| == |done|
    && db.obsolete == obsolete + (if update then ListsOf(lists, done, |lists|) else [])
    && forall k | 0 <= k < |labels| && (done[k] || !update) :: labels[k] in db.labels && labels[k].texts == lists[k]
  }

  lemma SweptAwayIs(labels: seq<LabelObject>, lists: seq<seq<TextObject>>, done: seq<bool>, obsolete: seq<TextObject>,
                    db: Database, update: bool)
    requires |labels| == |lists| == |done|
    requires db.obsolete == obsolete + if update then ListsOf(lists, done, |lists|) else []
    requires forall k | 0 <= k < |labels| && (done[k] || !update) :: labels[k] in db.labels && labels[k].texts == lists[k]
    ensures SweptAway(labels, lists, done, obsolete, db, update)
  {
  }

  lemma ListsStep(lists: seq<seq<TextObject>>, done: seq<bool>, n: nat)
    requires n < |lists| == |done|
    ensures ListsOf(lists, done, n + 1) == ListsOf(lists, done, n) + if done[n] then [] else lists[n]
  {
    assert ListsOf(lists, done, n) + [] == ListsOf(lists, done, n);
  }

  lemma ListsStart(lists: seq<seq<TextObject>>, done: seq<bool>, obsolete: seq<TextObject>)
    requires |lists| == |done|
    ensures obsolete + ListsOf(lists, done, 0) == obsolete && obsolete + [] == obsolete
  {
  }

  /** Which labels are left. */
  lemma SweptLeaves(db: Database, labels: seq<LabelObject>, p: Progress, update: bool)
    requires Swept(db, labels, p, |labels|, update)
    ensures |p.done| == |labels| && db.labels == if update then Select(labels, p.done, true, |labels|) else labels
    ensures forall k | 0 <= k < |labels| && (p.done[k] || !update) :: labels[k] in db.labels
    ensures forall l | l in db.labels :: l in labels
  {
    hide *;
    SweptSpelled(db, labels, p, |labels|, update);
    if update {
      assert db.labels == Select(labels, p.done, true, |labels|);
      SelectedBefore(labels, p.done, true, |labels|);
    }
  }

  /** The sweep gives no label another text. */
  lemma SweptTexts(now: seq<LabelObject>, labels: seq<LabelObject>, lists: seq<seq<TextObject>>, done: seq<bool>, update: bool,
                   texts: set<TextObject>)
    requires |labels| == |lists| == |done| && forall k | 0 <= k < |lists| :: forall t | t in lists[k] :: t in texts
    requires forall k | 0 <= k < |labels| && (done[k] || !update) :: labels[k].texts == lists[k]
    requires now == if update then Select(labels, done, true, |labels|) else labels
    ensures forall t | t in TextsIn(now) :: t in texts
  {
    SelectIsWhere(labels, done, true, |labels|);
    forall t | t in TextsIn(now) ensures t in texts {
      var l :| l in now && t in l.texts;
      var i :| 0 <= i < |now| && now[i] == l;
      var k := if update then Where(done, true, |labels|)[i] else i;
      assert t in lists[k];
    }
  }

  lemma DistinctAre(labels: seq<LabelObject>)
    requires forall i, k | 0 <= i < k < |labels| :: labels[i] != labels[k]
    ensures DistinctLabels(labels)
  {
  }

  // ---------------------------------------------------------------------------------------
  // UpdateDB
  // ---------------------------------------------------------------------------------------

  /** VisitAll looks at the first n source labels only. */
  lemma {:induction false} VisitAllPrefix(src: seq<Label>, more: seq<Label>, n: nat, dst: Db, ranks: seq<nat -> nat>,
                                          others: seq<nat -> nat>, run: Run)
    requires n <= |src| == |ranks| && n <= |more| == |others|
    requires forall i | 0 <= i < n :: src[i] == more[i] && ranks[i] == others[i]
    ensures VisitAll(src, n, dst, ranks, run) == VisitAll(more, n, dst, others, run)
  {
    hide Visit;
    if n > 0 { VisitAllPrefix(src, more, n - 1, dst, ranks, others, run); }
  }

  lemma VisitAllMore(src: seq<Label>, n: nat, dst: Db, ranks: seq<nat -> nat>, rank: nat -> nat, run: Run)
    requires n < |src| && |ranks| == n
    ensures VisitAll(src[..n + 1], n + 1, dst, ranks + [rank], run)
         == Visit(VisitAll(src[..n], n, dst, ranks, run), src[n], rank, run)
  {
    hide Visit;
    VisitAllPrefix(src[..n], src[..n + 1], n, dst, ranks, ranks + [rank], run);
  }

  /** ClearProcessed of a database. */
  method ClearProcessed(labels: seq<LabelObject>)
    modifies labels`processed
    ensures forall l | l in labels :: !l.processed
  {
    var i := 0;
    while i < |labels|
      invariant 0 <= i <= |labels| && forall k | 0 <= k < i :: !labels[k].processed
    {
      labels[i].processed := false;
      i := i + 1;
    }
  }

  lemma AtStart(db: Database)
    requires forall l | l in db.labels :: !l.processed
    ensures InState(db, Start(DbValue(db))) && Shaped(Start(DbValue(db)))
    ensures var p := Start(DbValue(db)); p.info == NO_INFO && p.asked == 0 && !p.skipAll
  {
    hide LabelObject.Value;
  }

  lemma UpdateDbIs(src: seq<Label>, dst: Db, ranks: seq<nat -> nat>, run: Run)
    requires |ranks| == |src|
    ensures VisitAll(src[..0], 0, dst, [], run) == Start(dst)
    ensures src[..|src|] == src
    ensures BabylonDatabase.UpdateDb(src, dst, ranks, run)
         == BabylonDatabase.Sweep(VisitAll(src[..|src|], |src|, dst, ranks, run), run.update)
  {
    hide Visit, BabylonDatabase.Sweep;
    assert src[..|src|] == src;
  }

  lemma VisitNone(src: seq<Label>, dst: Db, run: Run)
    ensures VisitAll(src[..0], 0, dst, [], run) == Start(dst)
  {
  }

  /** The loop over the source labels. */
  method VisitLabels(src: seq<LabelObject>, db: Database, run: Run, ghost sv: seq<Label>, ghost dst: Db, ghost origin: Origin)
    returns (info: Info, ghost ranks: seq<nat -> nat>, ghost p: Progress)
    requires WellOwned(src) && Valid(db) && (forall l | l in src :: l !in db.labels) && sv == LabelValues(src)
    requires InState(db, Start(dst)) && TracedBack(db, Start(dst), origin) && (origin.once ==> DistinctNames(sv))
    modifies src`processed, TextsIn(src)`matched
    modifies db`labels, db`textBin, db`obsolete, db.labels, TextsIn(db.labels)
    ensures |src| == |sv| == |ranks| && p == VisitAll(sv[..|src|], |src|, dst, ranks, run) && info == p.info
    ensures Valid(db) && InState(db, p) && Shaped(p) && WellOwned(src) && LabelValues(src) == sv
    ensures forall l | l in src :: l !in db.labels
    ensures forall i | 0 <= i < |db.labels| :: db.labels[i] in old(db.labels) || fresh(db.labels[i])
    ensures fresh(TextsIn(db.labels) - old(TextsIn(db.labels)))
    ensures TracedBack(db, p, origin)
  {
    hide *;
    ghost var mine := TextsIn(src);
    forall i | 0 <= i < |src| ensures forall t | t in src[i].texts :: t in mine { InTexts(src, i); }
    LabelValuesAll(src);
    VisitNone(sv, dst, run);
    StartIs(dst);
    p, ranks := Start(dst), [];
    NothingDone(sv, dst);
    var asked, skipAll := 0, false;
    info := NO_INFO;
    var n := 0;
    while n < |src|
      invariant 0 <= n <= |src| == |sv| && |ranks| == n
      invariant Valid(db) && InState(db, p) && Shaped(p) && p == VisitAll(sv[..n], n, dst, ranks, run)
      invariant DoneIsFound(sv, n, p) && TracedBack(db, p, origin)
      invariant info == p.info && asked == p.asked && skipAll == p.skipAll
      invariant WellOwned(src) && LabelValues(src) == sv && forall l | l in src :: l !in db.labels
      invariant forall i | 0 <= i < |db.labels| :: db.labels[i] in old(db.labels) || fresh(db.labels[i])
      invariant fresh(TextsIn(db.labels) - old(TextsIn(db.labels)))
      invariant forall i | 0 <= i < |src| :: src[i].texts == old(src[i].texts)
    {
      ghost var rank, q;
      if origin.once { ItsFirstTime(sv, n, p); } else { NotOnce(p, sv[n]); }
      info, asked, skipAll, rank, q := VisitLabel(src[n], db, run, info, asked, skipAll, src, n, p, sv, origin);
      DoneVisit(sv, n, p, rank, run);
      VisitAllMore(sv, n, dst, ranks, rank, run);
      ranks, p := ranks + [rank], q;
      n := n + 1;
    }
  }

  lemma NothingDone(src: seq<Label>, dst: Db)
    ensures DoneIsFound(src, 0, Start(dst))
  {
  }

  lemma ItsFirstTime(src: seq<Label>, n: nat, p: Progress)
    requires n < |src| && Shaped(p) && DoneIsFound(src, n, p) && DistinctNames(src)
    ensures FirstTime(p, src[n], true)
  {
    hide DoneIsFound, DistinctNames;
    if Lookup(p.labels, src[n].name) >= 0 { FoundIsUndone(src, n, p); }
  }

  lemma NotOnce(p: Progress, s: Label)
    requires Shaped(p)
    ensures FirstTime(p, s, false)
  {
  }

  /** The sweep leaves the source as it is. */
  method SweepBeside(src: seq<LabelObject>, db: Database, update: bool, info: Info, ghost p: Progress, ghost sv: seq<Label>)
    returns (nowInfo: Info, ghost r: DbOutcome)
    requires Valid(db) && InState(db, p) && Shaped(p) && info == p.info
    requires WellOwned(src) && (forall l | l in src :: l !in db.labels) && sv == LabelValues(src)
    modifies db`labels, db`textBin, db`obsolete, db.labels`texts, TextsIn(db.labels)`owner
    ensures Valid(db) && r == BabylonDatabase.Sweep(p, update) && nowInfo == r.info && DbValue(db) == r.db
    ensures WellOwned(src) && LabelValues(src) == sv
    ensures SweptAway(old(db.labels), old(Lists(db.labels)), p.done, old(db.obsolete), db, update)
    ensures forall t | t in TextsIn(db.labels) :: t in old(TextsIn(db.labels))
    ensures forall l | l in db.labels :: l in old(db.labels)
  {
    hide *;
    TextsApart(src, db);
    nowInfo, r := SweepLabels(db, update, info, p);
    assert forall i | 0 <= i < |src| :: src[i] in src;
    AllKept(src);
    LabelsKept(src);
  }

  lemma StartIs(dst: Db)
    ensures var p := Start(dst); Shaped(p) && p.info == NO_INFO && p.asked == 0 && !p.skipAll
  {
  }

  /** Each of the texts is in a label of the database or in the new part of its obsolete list, which keeps the old part. */
  ghost predicate NothingLost(db: Database, texts: set<TextObject>, obsolete: seq<TextObject>)
    reads db`labels, db`obsolete, db.labels`texts
  {
    && |obsolete| <= |db.obsolete| && db.obsolete[..|obsolete|] == obsolete
    && forall t | t in texts :: t in TextsIn(db.labels) || t in db.obsolete[|obsolete|..]
  }

  /** From place n on the obsolete list holds nothing but texts that had, marks aside, the values they have. */
  ghost predicate MovedAsTheyWere(db: Database, was: map<TextObject, Text>, n: nat)
    reads db`obsolete, db.obsolete`str, db.obsolete`wave, db.obsolete`revision, db.obsolete`retranslate,
          db.obsolete`translations
  {
    forall k | n <= k < |db.obsolete| ::
      var t := db.obsolete[k];
      t in was && t.Value().(retranslate := false) == was[t].(retranslate := false)
  }

  /** Both databases at the start of the run. */
  method ClearBoth(src: seq<LabelObject>, db: Database, ghost origin: Origin)
    requires WellOwned(src) && Valid(db)
    requires origin.dst == DbValue(db) && origin.obsolete == db.obsolete && origin.was == TextValues(db.labels)
    modifies src`processed, db.labels`processed
    ensures WellOwned(src) && Valid(db) && LabelValues(src) == old(LabelValues(src))
    ensures InState(db, Start(origin.dst)) && TracedBack(db, Start(origin.dst), origin)
    ensures |origin.dst.obsolete| == |origin.obsolete| && origin.was.Keys == TextsIn(db.labels) == old(TextsIn(db.labels))
  {
    hide *;
    ghost var theirs, ours := TextsIn(db.labels), TextsIn(src);
    ClearProcessed(src);
    ClearProcessed(db.labels);
    assert TextsIn(db.labels) == theirs && TextsIn(src) == ours;
    AtStart(db);
    TraceStart(db, origin);
  }

  /**
   * CBabylonDlg::UpdateDB. ranks are the orders in which the text bin held the texts of the labels
   * that were updated, one for every source label; o is what the functional UpdateDb says it does.
   * No text is lost: each is afterwards in a label or at the end of the obsolete list, and in the
   * labels all others are new. If no two source names are one key, the end of the obsolete list
   * holds nothing but texts of the destination, as they were up to their marks.
   */
  method UpdateDb(source: Database, destination: Database, update: bool, answers: nat -> Answer)
    returns (changes: nat, ghost ranks: seq<nat -> nat>, ghost o: DbOutcome)
    requires source != destination && WellOwned(source.labels) && Valid(destination)
    requires forall l | l in source.labels :: l !in destination.labels
    modifies source.labels`processed, TextsIn(source.labels)`matched
    modifies destination`labels, destination`textBin, destination`obsolete, destination.labels, TextsIn(destination.labels)
    ensures |ranks| == |source.labels|
    ensures |old(LabelValues(source.labels))| == |source.labels|
    ensures o == BabylonDatabase.UpdateDb(old(LabelValues(source.labels)), old(DbValue(destination)), ranks,
                                          Run(update, destination.multiText, answers))
    ensures Valid(destination) && DbValue(destination) == o.db && changes == o.info.changes
    ensures WellOwned(source.labels) && LabelValues(source.labels) == old(LabelValues(source.labels))
    ensures NothingLost(destination, old(TextsIn(destination.labels)), old(destination.obsolete))
    ensures fresh(TextsIn(destination.labels) - old(TextsIn(destination.labels)))
    ensures forall l | l in destination.labels :: l !in source.labels && (l in old(destination.labels) || fresh(l))
    ensures DistinctNames(old(LabelValues(source.labels))) ==>
              MovedAsTheyWere(destination, old(TextValues(destination.labels)), |old(destination.obsolete)|)
  {
    hide *;
    var src, run := source.labels, Run(update, destination.multiText, answers);
    ghost var sv, dst := LabelValues(src), DbValue(destination);
    ghost var origin := Origin(dst, destination.obsolete, TextValues(destination.labels), DistinctNames(sv));
    ClearBoth(src, destination, origin);
    var info;
    ghost var p;
    info, ranks, p := VisitLabels(src, destination, run, sv, dst, origin);
    UpdateDbIs(sv, dst, ranks, run);
    ghost var labels, lists, obsolete := destination.labels, Lists(destination.labels), destination.obsolete;
    TracedBackIs(destination, p, origin, lists, obsolete);
    info, o := SweepBeside(src, destination, update, info, p, sv);
    changes := info.changes;
    TraceEnd(destination, origin, labels, lists, obsolete, p, update, o.db);
  }

  lemma TraceStart(db: Database, origin: Origin)
    requires Valid(db) && origin.dst == DbValue(db) && origin.obsolete == db.obsolete
    requires origin.was == TextValues(db.labels)
    ensures origin.was.Keys == TextsIn(db.labels)
    ensures TracedBack(db, Start(DbValue(db)), origin) && |origin.dst.obsolete| == |origin.obsolete|
  {
    hide Valid, LabelObject.Value, KeepValues, LabelValues, Values;
    var lists, p := Lists(db.labels), Start(DbValue(db));
    assert db.obsolete[|db.obsolete|..] == [] && Tail(p.obsolete, origin.dst) == [];
    forall t | t in origin.was ensures Somewhere(t, lists, []) {
      var l :| l in db.labels && t in l.texts;
      var i :| 0 <= i < |db.labels| && db.labels[i] == l;
      assert t in lists[i];
    }
    NothingKept(origin.was);
    forall i | 0 <= i < |lists| ensures KeepValues(lists[i], p.labels[i].texts, origin.was) {
      LabelValuesAt(db.labels, i);
      LabelValue(db.labels[i]);
      InTexts(db.labels, i);
      OwnValues(lists[i], origin.was);
    }
  }

  lemma NothingKept(was: map<TextObject, Text>)
    ensures KeepValues([], [], was)
  {
  }

  lemma OwnValues(texts: seq<TextObject>, was: map<TextObject, Text>)
    requires forall t | t in texts :: t in was && was[t] == t.Value()
    ensures KeepValues(texts, Values(texts), was)
  {
  }

  lemma TraceEnd(db: Database, origin: Origin, labels: seq<LabelObject>, lists: seq<seq<TextObject>>, obsolete: seq<TextObject>,
                 p: Progress, update: bool, out: Db)
    requires |origin.obsolete| <= |obsolete| && obsolete[..|origin.obsolete|] == origin.obsolete
    requires Traced(lists, obsolete[|origin.obsolete|..], p, origin.dst, origin.was, origin.once)
    requires Shaped(p) && SweptAway(labels, lists, p.done, obsolete, db, update)
    requires DbValue(db) == out == BabylonDatabase.Sweep(p, update).db && |origin.dst.obsolete| == |origin.obsolete|
    ensures NothingLost(db, origin.was.Keys, origin.obsolete)
    ensures origin.once ==> MovedAsTheyWere(db, origin.was, |origin.obsolete|)
  {
    hide KeepValues, Select, TextsOf, SweepInfo, LabelValues;
    var n, tail := |origin.obsolete|, obsolete[|origin.obsolete|..];
    TraceSwept(lists, tail, p, origin.dst, origin.was, origin.once);
    var gone := if update then ListsOf(lists, p.done, |lists|) else [];
    assert db.obsolete[n..] == tail + gone;
    forall t | t in origin.was ensures t in TextsIn(db.labels) || t in db.obsolete[n..] {
      if update {
        if t !in tail + gone {
          var i :| 0 <= i < |lists| && p.done[i] && t in lists[i];
          assert labels[i] in db.labels && t in labels[i].texts;
        }
      } else {
        assert Somewhere(t, lists, tail);
        if t !in tail {
          var i :| 0 <= i < |lists| && t in lists[i];
          assert labels[i] in db.labels && t in labels[i].texts;
        }
      }
    }
    if origin.once {
      var values := Tail(out.obsolete, origin.dst);
      assert KeepValues(db.obsolete[n..], values, origin.was) by {
        assert tail + [] == tail;
      }
      assert Values(db.obsolete) == out.obsolete;
      EndValues(db.obsolete, n, values, origin.was);
    }
  }

  lemma EndValues(texts: seq<TextObject>, n: nat, values: seq<Text>, was: map<TextObject, Text>)
    requires n <= |texts| && values == Values(texts)[n..] && KeepValues(texts[n..], values, was)
    ensures forall k | n <= k < |texts| ::
              texts[k] in was && texts[k].Value().(retranslate := false) == was[texts[k]].(retranslate := false)
  {
    forall k | n <= k < |texts|
      ensures texts[k] in was && texts[k].Value().(retranslate := false) == was[texts[k]].(retranslate := false)
    {
      assert texts[n..][k - n] == texts[k] && values[k - n] == texts[k].Value();
    }
  }
}
