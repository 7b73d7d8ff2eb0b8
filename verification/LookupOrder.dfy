/** The label order of GameTextManager (Core/Tools/Autorun/GameText.cpp): stricmp. */
module LookupOrder {
  import opened RamFile

  function FoldByte(c: Byte): Byte { if 65 <= c <= 90 then c + 32 else c }

  function FoldBytes(s: seq<Byte>): seq<Byte> { seq(|s|, i requires 0 <= i < |s| => FoldByte(s[i])) }

  predicate SameLabel(a: seq<Byte>, b: seq<Byte>) { FoldBytes(a) == FoldBytes(b) }

  /** The same byte but for the case of an ASCII letter. */
  predicate CaseApart(x: Byte, y: Byte) {
    x == y || (65 <= x <= 90 && y == x + 32) || (65 <= y <= 90 && x == y + 32)
  }

  lemma SameLabelExactly(a: seq<Byte>, b: seq<Byte>)
    ensures SameLabel(a, b) <==> |a| == |b| && forall i | 0 <= i < |a| :: CaseApart(a[i], b[i])
  {
    assert |FoldBytes(a)| == |a| && |FoldBytes(b)| == |b|;
    if FoldBytes(a) == FoldBytes(b) {
      forall i | 0 <= i < |a| ensures CaseApart(a[i], b[i]) {
        assert FoldBytes(a)[i] == FoldBytes(b)[i];
      }
    }
  }

  /** compareLUT: the sign of stricmp. */
  function Compare(a: seq<Byte>, b: seq<Byte>): (r: int)
    ensures -1 <= r <= 1
  {
    if a == [] then (if b == [] then 0 else -1)
    else if b == [] then 1
    else if FoldByte(a[0]) < FoldByte(b[0]) then -1
    else if FoldByte(a[0]) > FoldByte(b[0]) then 1
    else Compare(a[1..], b[1..])
  }

  lemma {:induction false} CompareZero(a: seq<Byte>, b: seq<Byte>)
    ensures Compare(a, b) == 0 <==> SameLabel(a, b)
  {
    if a != [] && b != [] {
      CompareZero(a[1..], b[1..]);
      assert FoldBytes(a) == [FoldByte(a[0])] + FoldBytes(a[1..]);
      assert FoldBytes(b) == [FoldByte(b[0])] + FoldBytes(b[1..]);
      assert FoldBytes(a)[1..] == FoldBytes(a[1..]) && FoldBytes(b)[1..] == FoldBytes(b[1..]);
    } else {
      assert |FoldBytes(a)| == |a| && |FoldBytes(b)| == |b|;
    }
  }

  /** Labels are compared at their first difference; a label comes before every longer one that starts like it. */
  lemma {:induction false} CompareAt(a: seq<Byte>, b: seq<Byte>, k: nat)
    requires k <= |a| && k <= |b| && forall i | 0 <= i < k :: CaseApart(a[i], b[i])
    ensures k == |a| < |b| ==> Compare(a, b) == -1
    ensures k == |b| < |a| ==> Compare(a, b) == 1
    ensures k < |a| && k < |b| && !CaseApart(a[k], b[k]) ==>
              FoldByte(a[k]) != FoldByte(b[k]) && Compare(a, b) == if FoldByte(a[k]) < FoldByte(b[k]) then -1 else 1
    decreases k
  {
    if k > 0 {
      assert FoldByte(a[0]) == FoldByte(b[0]);
      CompareAt(a[1..], b[1..], k - 1);
    }
  }

  lemma {:induction false} CompareFlips(a: seq<Byte>, b: seq<Byte>)
    ensures Compare(a, b) == -Compare(b, a)
  {
    if a != [] && b != [] { CompareFlips(a[1..], b[1..]); }
  }

  lemma {:induction false} CompareChains(a: seq<Byte>, b: seq<Byte>, c: seq<Byte>)
    requires Compare(a, b) <= 0 && Compare(b, c) <= 0
    ensures Compare(a, c) <= 0
    ensures Compare(a, c) == 0 ==> Compare(a, b) == 0 && Compare(b, c) == 0
  {
    if a != [] && b != [] && c != [] && FoldByte(a[0]) == FoldByte(b[0]) == FoldByte(c[0]) {
      CompareChains(a[1..], b[1..], c[1..]);
    }
  }

  /** Labels in ascending order. */
  predicate Ordered(labels: seq<seq<Byte>>) {
    forall i, j | 0 <= i < j < |labels| :: Compare(labels[i], labels[j]) <= 0
  }
}
