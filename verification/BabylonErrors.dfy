/** TransDB::Errors of Core/Tools/Babylon/TransDB.cpp on values: what the source database must pass before it is merged. */
module BabylonErrors {
  import opened TextKeys
  import opened BabylonLabel
  import opened BabylonLabelLaws
  import opened BabylonDatabase
  import opened BabylonDatabaseLaws

  predicate TooLong(l: Label, t: Text) { l.maxLen != 0 && |t.str| > l.maxLen }

  /** What the first n texts of a label count. */
  function TextErrors(l: Label, n: nat): nat
    requires n <= |l.texts|
  {
    if n == 0 then 0
    else
      var t := l.texts[n - 1];
      TextErrors(l, n - 1) + Bump(HasKey(l.texts[..n - 1], t.str)) + Bump(TooLong(l, t))
  }

  /** What the first n labels count. */
  function Errors(labels: seq<Label>, multiText: bool, n: nat): nat
    requires n <= |labels|
  {
    if n == 0 then 0
    else
      var l := labels[n - 1];
      Errors(labels, multiText, n - 1) + Bump(!multiText && |l.texts| > 1)
      + Bump(FindLabel(labels, l.name, n - 1) >= 0) + TextErrors(l, |l.texts|)
  }

  /** What the count looks for in one label. */
  predicate SoundLabel(l: Label, multiText: bool) {
    && (multiText || |l.texts| <= 1) && DistinctKeys(l.texts)
    && forall k | 0 <= k < |l.texts| :: !TooLong(l, l.texts[k])
  }

  predicate Sound(labels: seq<Label>, multiText: bool) {
    DistinctNames(labels) && forall i | 0 <= i < |labels| :: SoundLabel(labels[i], multiText)
  }

  lemma {:induction false} NoTextErrors(l: Label, n: nat)
    requires n <= |l.texts|
    ensures TextErrors(l, n) == 0 <==>
            DistinctKeys(l.texts[..n]) && forall k | 0 <= k < n :: !TooLong(l, l.texts[k])
  {
    hide SameKey, TooLong;
    if n > 0 {
      NoTextErrors(l, n - 1);
      var before, all := l.texts[..n - 1], l.texts[..n];
      assert forall k | 0 <= k < n - 1 :: all[k] == before[k] == l.texts[k];
      if DistinctKeys(all) {
        assert forall k | 0 <= k < n - 1 :: !SameKey(all[k].str, all[n - 1].str);
      }
    }
  }

  lemma NextIsUnknown(labels: seq<Label>, n: nat)
    requires n < |labels| && DistinctNames(labels[..n + 1])
    ensures FindLabel(labels, labels[n].name, n) < 0
  {
    hide SameKey, DistinctNames;
    var all, r := labels[..n + 1], FindLabel(labels, labels[n].name, n);
    assert forall k | 0 <= k <= n :: all[k] == labels[k];
    if r >= 0 { KeysDiffer(all, r, n); }
  }

  /** Label n joins n labels of distinct keys. */
  lemma DistinctWithNext(labels: seq<Label>, n: nat)
    requires n < |labels|
    ensures DistinctNames(labels[..n + 1]) <==> DistinctNames(labels[..n]) && FindLabel(labels, labels[n].name, n) < 0
  {
    hide SameKey;
    var before, all, r := labels[..n], labels[..n + 1], FindLabel(labels, labels[n].name, n);
    assert forall k | 0 <= k < n :: all[k] == before[k] == labels[k];
    if DistinctNames(all) { NextIsUnknown(labels, n); }
    if r < 0 {
      forall k | 0 <= k < n ensures !SameKey(all[k].name, all[n].name) {
        if SameKey(labels[k].name, labels[n].name) { LookupHits(labels, labels[n].name, k, n); }
      }
    }
  }

  lemma {:induction false} NoErrors(labels: seq<Label>, multiText: bool, n: nat)
    requires n <= |labels|
    ensures Errors(labels, multiText, n) == 0 <==>
            DistinctNames(labels[..n]) && forall i | 0 <= i < n :: SoundLabel(labels[i], multiText)
  {
    hide DistinctNames, DistinctKeys, TooLong;
    if n == 0 {
      NoLabels();
    } else {
      var l := labels[n - 1];
      NoErrors(labels, multiText, n - 1);
      DistinctWithNext(labels, n - 1);
      NoTextErrors(l, |l.texts|);
      assert l.texts[..|l.texts|] == l.texts;
    }
  }

  lemma NoLabels()
    ensures DistinctNames([])
  {
  }

  /**
   * The count is 0 if and only if no two labels are one key, no label repeats a text key, no text is
   * longer than its label allows, and in single-text mode no label has two texts.
   */
  lemma NoErrorsExactly(labels: seq<Label>, multiText: bool)
    ensures Errors(labels, multiText, |labels|) == 0 <==> Sound(labels, multiText)
  {
    NoErrors(labels, multiText, |labels|);
    assert labels[..|labels|] == labels;
  }
}
