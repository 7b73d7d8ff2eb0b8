/** The sorted lookup table of GameTextManager: init, fetch and the list of missing texts. */
module LookupTable {
  import opened RamFile
  import opened StripSpaces
  import opened CsfFormat
  import opened LookupOrder
  import Sorting

  /** The labels behind a table of indices into info, in table order. */
  function LabelsOf(lut: seq<nat>, info: seq<Entry>): seq<seq<Byte>>
    requires forall i | 0 <= i < |lut| :: lut[i] < |info|
  {
    seq(|lut|, i requires 0 <= i < |lut| => info[lut[i]].name)
  }

  predicate Indexes(lut: seq<nat>, info: seq<Entry>) {
    forall i | 0 <= i < |lut| :: lut[i] < |info|
  }

  /** A table of all entries, each once, by key: what qsort leaves (ISO/IEC 9899:2011, section 7.22.5.2). */
  predicate SortedTable(lut: seq<nat>, info: seq<Entry>) {
    Indexes(lut, info) && Ordered(LabelsOf(lut, info)) && multiset(lut) == multiset(Identity(|info|))
  }

  function Identity(n: nat): seq<nat> { seq(n, i => i) }

  // ---------------------------------------------------------------------------------------
  // qsort, of which only the contract is used
  // ---------------------------------------------------------------------------------------

  /** compareLUT on two elements of the table. */
  function Before(info: seq<Entry>): (nat, nat) -> bool {
    (x: nat, y: nat) => y >= |info| || (x < |info| && Compare(info[x].name, info[y].name) <= 0)
  }

  lemma BeforeRanks(info: seq<Entry>)
    ensures Sorting.Ranks(Before(info))
  {
    hide Compare;
    var le := Before(info);
    forall x: nat, y: nat ensures le(x, y) || le(y, x) {
      if x < |info| && y < |info| { CompareFlips(info[x].name, info[y].name); }
    }
    forall x: nat, y: nat, z: nat | le(x, y) && le(y, z) ensures le(x, z) {
      if x < |info| && y < |info| && z < |info| { CompareChains(info[x].name, info[y].name, info[z].name); }
    }
  }

  lemma SortedLabels(lut: seq<nat>, info: seq<Entry>)
    requires Indexes(lut, info)
    ensures var r := Sorting.Sort(lut, Before(info));
            && |r| == |lut| && multiset(r) == multiset(lut)
            && Indexes(r, info) && Ordered(LabelsOf(r, info))
  {
    hide Compare;
    BeforeRanks(info);
    Sorting.SortSorts(lut, Before(info));
    var r := Sorting.Sort(lut, Before(info));
    forall i | 0 <= i < |r| ensures r[i] < |info| {
      assert r[i] in multiset(lut);
    }
  }

  method QSort(lut: array<nat>, info: seq<Entry>)
    requires Indexes(lut[..], info)
    modifies lut
    ensures Indexes(lut[..], info) && Ordered(LabelsOf(lut[..], info)) && multiset(lut[..]) == multiset(old(lut[..]))
  {
    var sorted := Sorting.Sort(lut[..], Before(info));
    SortedLabels(lut[..], info);
    forall i | 0 <= i < lut.Length {
      lut[i] := sorted[i];
    }
    assert lut[..] == sorted;
  }

  /** bsearch (section 7.22.5.1): some element that compares equal to the key, or -1. */
  method BSearch(lut: array<nat>, info: seq<Entry>, key: seq<Byte>) returns (r: int)
    requires Indexes(lut[..], info) && Ordered(LabelsOf(lut[..], info))
    ensures -1 <= r < lut.Length
    ensures r >= 0 ==> SameLabel(info[lut[r]].name, key)
    ensures r < 0 ==> forall i | 0 <= i < lut.Length :: !SameLabel(info[lut[i]].name, key)
  {
    hide Compare, SameLabel;
    var labels := LabelsOf(lut[..], info);
    var lo, hi := 0, lut.Length;
    while lo < hi
      invariant 0 <= lo <= hi <= lut.Length
      invariant forall i | 0 <= i < lo :: Compare(key, labels[i]) > 0
      invariant forall i | hi <= i < lut.Length :: Compare(key, labels[i]) < 0
    {
      var mid := (lo + hi) / 2;
      var c := Compare(key, labels[mid]);
      if c == 0 {
        CompareZero(key, labels[mid]);
        SameLabelFlips(key, labels[mid]);
        return mid;
      }
      forall i | 0 <= i < lut.Length
        ensures c > 0 && i <= mid ==> Compare(key, labels[i]) > 0
        ensures c < 0 && i >= mid ==> Compare(key, labels[i]) < 0
      {
        Outside(key, labels, mid, i);
      }
      if c < 0 { hi := mid; } else { lo := mid + 1; }
    }
    forall i | 0 <= i < lut.Length ensures !SameLabel(info[lut[i]].name, key) {
      CompareZero(key, labels[i]);
      SameLabelFlips(key, labels[i]);
    }
    r := -1;
  }

  lemma SameLabelFlips(a: seq<Byte>, b: seq<Byte>)
    ensures SameLabel(a, b) <==> SameLabel(b, a)
  {
  }

  /** The key lies on one side of mid, so it lies on that side of everything beyond. */
  lemma Outside(key: seq<Byte>, labels: seq<seq<Byte>>, mid: nat, i: nat)
    requires Ordered(labels) && mid < |labels| && i < |labels|
    ensures Compare(key, labels[mid]) > 0 && i <= mid ==> Compare(key, labels[i]) > 0
    ensures Compare(key, labels[mid]) < 0 && i >= mid ==> Compare(key, labels[i]) < 0
  {
    hide Compare;
    CompareFlips(key, labels[mid]);
    CompareFlips(key, labels[i]);
    if i < mid && Compare(key, labels[i]) <= 0 { CompareChains(key, labels[i], labels[mid]); }
    if mid < i && Compare(key, labels[mid]) < 0 { CompareChains(key, labels[mid], labels[i]); }
  }

  // ---------------------------------------------------------------------------------------
  // Missing texts
  // ---------------------------------------------------------------------------------------

  const MISSING: seq<Wide> := [77, 73, 83, 83, 73, 78, 71, 58, 32, 39]
  const QUOTE: Wide := 39

  /** swprintf(tmp, 256, L"MISSING: '%hs'", label): at most 255 characters. */
  function Missing(key: seq<Byte>): seq<Wide> {
    var s := MISSING + seq(|key|, i requires 0 <= i < |key| => key[i] as Wide) + [QUOTE];
    if |s| <= 255 then s else s[..255]
  }

  /** The characters of a narrow string as wide ones. */
  function Letters(s: string): seq<Wide>
    requires forall i | 0 <= i < |s| :: s[i] < 128 as char
  {
    seq(|s|, i requires 0 <= i < |s| => s[i] as Wide)
  }

  /** The message names the label, and is cut behind 255 characters. */
  lemma MissingNamesLabel(key: seq<Byte>)
    ensures |key| <= 244 ==>
              && |Missing(key)| == |key| + 11 && Missing(key)[..10] == Letters("MISSING: '")
              && (forall i | 0 <= i < |key| :: Missing(key)[10 + i] == key[i]) && Missing(key)[10 + |key|] == 39
    ensures |key| > 244 ==>
              && |Missing(key)| == 255 && Missing(key)[..10] == Letters("MISSING: '")
              && forall i | 0 <= i < 245 :: Missing(key)[10 + i] == (if i < |key| then key[i] else 39)
  {
  }

  /** Labels of at most 244 characters have different messages. */
  lemma MissingDiffers(a: seq<Byte>, b: seq<Byte>)
    requires |a| <= 244 && |b| <= 244 && Missing(a) == Missing(b)
    ensures a == b
  {
    hide Missing;
    MissingNamesLabel(a);
    MissingNamesLabel(b);
    forall i | 0 <= i < |a| ensures a[i] == b[i] {
      assert Missing(a)[10 + i] == a[i] && Missing(b)[10 + i] == b[i];
    }
  }

  predicate NoDuplicates<T(==)>(xs: seq<T>) {
    forall i, j | 0 <= i < j < |xs| :: xs[i] != xs[j]
  }

  /** What a failed fetch does to the list. */
  function Remember(list: seq<seq<Wide>>, text: seq<Wide>): seq<seq<Wide>> {
    if text in list then list else [text] + list
  }

  function RememberAll(list: seq<seq<Wide>>, labels: seq<seq<Byte>>): seq<seq<Wide>> {
    if labels == [] then list
    else Remember(RememberAll(list, labels[..|labels| - 1]), Missing(labels[|labels| - 1]))
  }

  /** Over any sequence of failed fetches the list holds exactly their messages, each once. */
  lemma {:induction false} MissingListIsExact(labels: seq<seq<Byte>>)
    ensures NoDuplicates(RememberAll([], labels))
    ensures forall t :: t in RememberAll([], labels) <==> exists i | 0 <= i < |labels| :: Missing(labels[i]) == t
  {
    hide Missing;
    if labels != [] {
      var n := |labels| - 1;
      MissingListIsExact(labels[..n]);
      var list := RememberAll([], labels[..n]);
      forall t ensures t in RememberAll([], labels) <==> exists i | 0 <= i < |labels| :: Missing(labels[i]) == t {
        if t in RememberAll([], labels) {
          if t in list {
            var i :| 0 <= i < n && Missing(labels[..n][i]) == t;
            assert Missing(labels[i]) == t;
          } else {
            assert Missing(labels[n]) == t;
          }
        }
        if exists i | 0 <= i < |labels| :: Missing(labels[i]) == t {
          var i :| 0 <= i < |labels| && Missing(labels[i]) == t;
          if i < n { assert Missing(labels[..n][i]) == t; }
        }
      }
    }
  }

  // ---------------------------------------------------------------------------------------
  // The manager
  // ---------------------------------------------------------------------------------------

  /** Some entry of the table has the key, ignoring case. */
  predicate Known(key: seq<Byte>, info: seq<Entry>) {
    exists i | 0 <= i < |info| :: SameLabel(info[i].name, key)
  }

  class GameTextStore {
    /** m_stringInfo and m_stringLUT; null until a successful init. */
    var info: array?<Entry>
    var lut: array?<nat>
    /** m_noStringList, newest first. */
    var noStringList: seq<seq<Wide>>
    /** m_failed */
    const failed: seq<Wide>

    ghost predicate Valid()
      reads this, info, lut
    {
      && (info == null <==> lut == null)
      && (info != null ==> lut.Length == info.Length && SortedTable(lut[..], info[..]))
      && NoDuplicates(noStringList)
    }

    constructor (failed: seq<Wide>)
      ensures Valid() && info == null && noStringList == [] && this.failed == failed
    {
      info, lut, noStringList := null, null, [];
      this.failed := failed;
    }

    /** The end of init, once the string file has been parsed into table; an empty table builds nothing. */
    method Init(table: seq<Entry>)
      requires Valid() && info == null
      modifies this`info, this`lut
      ensures Valid() && noStringList == old(noStringList)
      ensures if table == [] then info == null
              else info != null && fresh(info) && fresh(lut) && info[..] == table && SortedTable(lut[..], table)
    {
      hide Ordered, NoDuplicates;
      if |table| == 0 { return; }
      info := new Entry[|table|](i requires 0 <= i < |table| => table[i]);
      assert info[..] == table;
      var index := new nat[|table|](i => 0);
      var i := 0;
      while i < |table|
        invariant 0 <= i <= |table|
        invariant forall k | 0 <= k < i :: index[k] == k
        modifies index
      {
        index[i] := i;
        i := i + 1;
      }
      ghost var before := index[..];
      assert before == Identity(|table|);
      QSort(index, table);
      assert SortedTable(index[..], table);
      lut := index;
      assert info[..] == table;
    }

    method Fetch(key: seq<Byte>) returns (text: seq<Wide>)
      requires Valid()
      modifies this`noStringList
      ensures Valid()
      ensures info == null ==> text == failed && noStringList == old(noStringList)
      ensures info != null && Known(key, info[..]) ==>
                && noStringList == old(noStringList)
                && exists i | 0 <= i < info.Length :: SameLabel(info[i].name, key) && text == info[i].text
      ensures info != null && !Known(key, info[..]) ==>
                text == Missing(key) && noStringList == Remember(old(noStringList), text)
    {
      hide SameLabel, Ordered, Missing;
      if info == null { return failed; }
      var r := BSearch(lut, info[..], key);
      if r < 0 {
        UnknownEverywhere(lut[..], info[..], key);
        text := Missing(key);
        var k := 0;
        while k < |noStringList|
          invariant 0 <= k <= |noStringList| && text !in noStringList[..k]
        {
          if noStringList[k] == text { return; }
          k := k + 1;
        }
        assert noStringList[..k] == noStringList;
        noStringList := [text] + noStringList;
      } else {
        assert lut[r] == lut[..][r];
        assert SameLabel(info[..][lut[r]].name, key);
        text := info[lut[r]].text;
      }
    }
  }

  /** A table that holds every entry and no match means no entry matches. */
  lemma UnknownEverywhere(lut: seq<nat>, info: seq<Entry>, key: seq<Byte>)
    requires SortedTable(lut, info) && forall i | 0 <= i < |lut| :: !SameLabel(info[lut[i]].name, key)
    ensures !Known(key, info)
  {
    hide SameLabel, Ordered;
    forall k | 0 <= k < |info| ensures !SameLabel(info[k].name, key) {
      assert Identity(|info|)[k] == k;
      assert k in multiset(Identity(|info|));
      assert k in lut;
    }
  }
}
