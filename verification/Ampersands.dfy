/** Fix_Single_Ampersands and Fix_Double_Ampersands (Core/Tools/Autorun/Utils.cpp), the char versions. */
module Ampersands {
  import opened RamFile
  import opened StringFileParser

  const MAX_PATH := 260
  const AMP: Byte := 38

  /** toupper of the "C" locale. */
  function ToUpper(c: Byte): Byte { if 97 <= c <= 122 then c - 32 else c }

  function Case(c: Byte, upper: bool): Byte { if upper then ToUpper(c) else c }

  /** Every ampersand twice. */
  function Doubled(s: seq<Byte>, upper: bool): seq<Byte> {
    if s == [] then []
    else (if s[0] == AMP then [AMP, AMP] else [Case(s[0], upper)]) + Doubled(s[1..], upper)
  }

  /** Every pair of ampersands once, from the left. */
  function Halved(s: seq<Byte>, upper: bool): seq<Byte> {
    if s == [] then []
    else if |s| >= 2 && s[0] == AMP && s[1] == AMP then [AMP] + Halved(s[2..], upper)
    else [Case(s[0], upper)] + Halved(s[1..], upper)
  }

  function AllCase(s: seq<Byte>, upper: bool): seq<Byte> {
    seq(|s|, i requires 0 <= i < |s| => Case(s[i], upper))
  }

  // ---------------------------------------------------------------------------------------
  // Round trips
  // ---------------------------------------------------------------------------------------

  /** Fix_Double_Ampersands undoes Fix_Single_Ampersands; a change of case in either direction stays. */
  lemma {:induction false} HalvingUndoesDoubling(s: seq<Byte>, upper1: bool, upper2: bool)
    ensures Halved(Doubled(s, upper1), upper2) == AllCase(s, upper1 || upper2)
    ensures !upper1 && !upper2 ==> Halved(Doubled(s, upper1), upper2) == s
  {
    if s != [] {
      HalvingUndoesDoubling(s[1..], upper1, upper2);
      var rest, all := Doubled(s[1..], upper1), Doubled(s, upper1);
      assert AllCase(s, upper1 || upper2) == [Case(s[0], upper1 || upper2)] + AllCase(s[1..], upper1 || upper2);
      if s[0] == AMP {
        assert all[2..] == rest;
      } else {
        assert all[1..] == rest && all[0] == Case(s[0], upper1) != AMP;
      }
    }
  }

  lemma {:induction false} DoubledJoin(a: seq<Byte>, b: seq<Byte>, upper: bool)
    ensures Doubled(a + b, upper) == Doubled(a, upper) + Doubled(b, upper)
  {
    if a == [] {
      assert a + b == b;
    } else {
      assert (a + b)[1..] == a[1..] + b;
      DoubledJoin(a[1..], b, upper);
    }
  }

  /** Character by character: an ampersand comes out twice, any other once. */
  lemma DoublesEach(a: seq<Byte>, c: Byte, b: seq<Byte>, upper: bool)
    ensures Doubled(a + [c] + b, upper)
         == Doubled(a, upper) + (if c == 38 then [38, 38] else [Case(c, upper)]) + Doubled(b, upper)
    ensures Doubled([], upper) == []
  {
    DoubledJoin(a + [c], b, upper);
    DoubledJoin(a, [c], upper);
    assert [c][1..] == [];
  }

  /** Changing case leaves no small letter and changes nothing but small letters. */
  lemma CaseExactly(s: seq<Byte>)
    ensures AllCase(s, false) == s && |AllCase(s, true)| == |s|
    ensures forall i | 0 <= i < |s| ::
              var c := AllCase(s, true)[i]; !(97 <= c <= 122) && (c == s[i] || (97 <= s[i] <= 122 && c == s[i] - 32))
  {
  }

  /** Ampersands come in pairs, from the left. */
  predicate Paired(t: seq<Byte>) {
    t == [] || (if t[0] == AMP then |t| >= 2 && t[1] == AMP && Paired(t[2..]) else Paired(t[1..]))
  }

  /** The other round trip works exactly on texts whose ampersands are paired. */
  lemma {:induction false} DoublingUndoesHalving(t: seq<Byte>)
    ensures Doubled(Halved(t, false), false) == t <==> Paired(t)
  {
    if t != [] {
      var h := Halved(t, false);
      if |t| >= 2 && t[0] == AMP && t[1] == AMP {
        DoublingUndoesHalving(t[2..]);
        assert h[1..] == Halved(t[2..], false);
        var d := Doubled(Halved(t[2..], false), false);
        assert Doubled(h, false) == [AMP, AMP] + d && ([AMP, AMP] + d)[2..] == d;
        assert t == [AMP, AMP] + t[2..];
      } else {
        DoublingUndoesHalving(t[1..]);
        assert h[1..] == Halved(t[1..], false);
        var d := Doubled(Halved(t[1..], false), false);
        if t[0] == AMP {
          assert Doubled(h, false) == [AMP, AMP] + d;
          assert Doubled(h, false)[1] == AMP;
        } else {
          assert Doubled(h, false) == [t[0]] + d && ([t[0]] + d)[1..] == d;
          assert t == [t[0]] + t[1..];
        }
      }
    }
  }

  lemma {:induction false} DoubledGrows(s: seq<Byte>, upper: bool)
    ensures |s| <= |Doubled(s, upper)| <= 2 * |s|
    ensures 0 !in s ==> 0 !in Doubled(s, upper)
  {
    if s != [] {
      DoubledGrows(s[1..], upper);
      if 0 !in s { assert s[0] in s && 0 !in s[1..]; }
    }
  }

  lemma {:induction false} HalvedShrinks(s: seq<Byte>, upper: bool)
    ensures |Halved(s, upper)| <= |s|
    ensures 0 !in s ==> 0 !in Halved(s, upper)
  {
    if s != [] {
      if |s| >= 2 && s[0] == AMP && s[1] == AMP {
        HalvedShrinks(s[2..], upper);
      } else {
        HalvedShrinks(s[1..], upper);
      }
      if 0 !in s { assert s[0] in s && 0 !in s[1..] && (|s| >= 2 ==> 0 !in s[2..]); }
    }
  }

  // ---------------------------------------------------------------------------------------
  // In place
  // ---------------------------------------------------------------------------------------

  /** strcpy and lstrcpy. */
  method CopyString(to: array<Byte>, from: array<Byte>, ghost s: seq<Byte>)
    requires Has(from[..], s) && |s| < to.Length && to != from
    modifies to
    ensures Has(to[..], s)
  {
    HasChars(from[..], s);
    assert forall k | 0 <= k <= |s| :: from[k] == from[..][k];
    var i := 0;
    while from[i] != 0
      invariant 0 <= i <= |s| && to[..i] == s[..i]
      decreases |s| - i
    {
      to[i] := from[i];
      i := i + 1;
    }
    to[i] := 0;
  }

  lemma DoubledStep(s: seq<Byte>, upper: bool)
    requires s != []
    ensures Doubled(s, upper) == (if s[0] == AMP then [AMP, AMP] else [Case(s[0], upper)]) + Doubled(s[1..], upper)
  {
  }

  lemma HalvedStep(s: seq<Byte>, upper: bool)
    requires s != []
    ensures Halved(s, upper) == if |s| >= 2 && s[0] == AMP && s[1] == AMP then [AMP] + Halved(s[2..], upper)
                                else [Case(s[0], upper)] + Halved(s[1..], upper)
  {
  }

  /** One or two more characters of the result. */
  lemma Append(was: seq<Byte>, more: seq<Byte>, now: seq<Byte>, rest: seq<Byte>, all: seq<Byte>)
    requires was + (more + rest) == all && |now| == |was| + |more| && now[..|was|] == was && now[|was|..] == more
    ensures now + rest == all && |now| <= |all|
  {
    assert now == was + more;
    assert was + (more + rest) == (was + more) + rest;
  }

  /** pszTemp[i] = c, where rest is still to come. */
  method Put(pszTemp: array<Byte>, i: nat, c: Byte, ghost rest: seq<Byte>, ghost all: seq<Byte>)
    requires i < |all| < pszTemp.Length && pszTemp[..i] + ([c] + rest) == all
    requires forall k | i <= k < pszTemp.Length :: pszTemp[k] == 0
    modifies pszTemp
    ensures pszTemp[..i + 1] + rest == all
    ensures forall k | i + 1 <= k < pszTemp.Length :: pszTemp[k] == 0
  {
    ghost var was := pszTemp[..i];
    pszTemp[i] := c;
    Append(was, [c], pszTemp[..i + 1], rest, all);
  }

  /** Fix_Single_Ampersands, for a text whose doubled form fits the buffers. */
  method FixSingleAmpersands(pszString: array<Byte>, upperCase: bool, ghost s: seq<Byte>)
    requires Has(pszString[..], s)
    requires |Doubled(s, upperCase)| < MAX_PATH && |Doubled(s, upperCase)| < pszString.Length
    modifies pszString
    ensures Has(pszString[..], Doubled(s, upperCase))
  {
    hide Doubled, ToUpper;
    ghost var all := Doubled(s, upperCase);
    DoubledGrows(s, upperCase);
    var pszOld := new Byte[MAX_PATH](i => 0);
    CopyString(pszOld, pszString, s);
    HasChars(pszOld[..], s);
    HasChars(pszString[..], s);
    assert forall k | 0 <= k <= |s| :: pszOld[k] == pszOld[..][k];
    var pszTemp := new Byte[MAX_PATH](i => 0);
    var letter, i := 0, 0;
    assert s[0..] == s && pszTemp[..0] == [];
    while pszOld[letter] != 0
      invariant 0 <= letter <= |s| && 0 <= i <= |all|
      invariant pszTemp[..i] + Doubled(s[letter..], upperCase) == all
      invariant forall k | i <= k < MAX_PATH :: pszTemp[k] == 0
      decreases |s| - letter
      modifies pszTemp
    {
      ghost var was, rest := pszTemp[..i], Doubled(s[letter + 1..], upperCase);
      DoubledStep(s[letter..], upperCase);
      assert s[letter..][1..] == s[letter + 1..];
      if pszOld[letter] == AMP {
        assert |was + ([AMP, AMP] + rest)| == |all| && [AMP, AMP] + rest == [AMP] + ([AMP] + rest);
        Put(pszTemp, i, AMP, [AMP] + rest, all);
        Put(pszTemp, i + 1, AMP, rest, all);
        i := i + 2;
      } else {
        assert |was + ([Case(s[letter], upperCase)] + rest)| == |all|;
        Put(pszTemp, i, if upperCase then ToUpper(pszOld[letter]) else pszOld[letter], rest, all);
        i := i + 1;
      }
      letter := letter + 1;
    }
    DoubledEnd(s[letter..], upperCase);
    assert pszTemp[..i] == all;
    CopyString(pszString, pszTemp, all);
  }

  lemma DoubledEnd(s: seq<Byte>, upper: bool)
    ensures s == [] ==> Doubled(s, upper) == [] && Halved(s, upper) == []
  {
  }

  /** Fix_Double_Ampersands, for a text that fits the buffers. */
  method FixDoubleAmpersands(pszString: array<Byte>, upperCase: bool, ghost s: seq<Byte>)
    requires Has(pszString[..], s) && |s| < MAX_PATH
    modifies pszString
    ensures Has(pszString[..], Halved(s, upperCase))
  {
    hide Halved, ToUpper;
    ghost var all := Halved(s, upperCase);
    HalvedShrinks(s, upperCase);
    var pszOld := new Byte[MAX_PATH](i => 0);
    CopyString(pszOld, pszString, s);
    HasChars(pszOld[..], s);
    HasChars(pszString[..], s);
    assert forall k | 0 <= k <= |s| :: pszOld[k] == pszOld[..][k];
    var pszTemp := new Byte[MAX_PATH](i => 0);
    var letter, i := 0, 0;
    assert s[0..] == s && pszTemp[..0] == [];
    while pszOld[letter] != 0
      invariant 0 <= letter <= |s| && 0 <= i <= |all|
      invariant pszTemp[..i] + Halved(s[letter..], upperCase) == all
      invariant forall k | i <= k < MAX_PATH :: pszTemp[k] == 0
      decreases |s| - letter
      modifies pszTemp
    {
      ghost var was, t := pszTemp[..i], s[letter..];
      HalvedStep(t, upperCase);
      assert t[1..] == s[letter + 1..] && (letter + 2 <= |s| ==> t[2..] == s[letter + 2..]);
      if pszOld[letter] == AMP && pszOld[letter + 1] == AMP {
        ghost var rest := Halved(s[letter + 2..], upperCase);
        assert |was + ([AMP] + rest)| == |all|;
        Put(pszTemp, i, AMP, rest, all);
        letter := letter + 2;
      } else {
        ghost var rest := Halved(s[letter + 1..], upperCase);
        assert |was + ([Case(s[letter], upperCase)] + rest)| == |all|;
        Put(pszTemp, i, if upperCase then ToUpper(pszOld[letter]) else pszOld[letter], rest, all);
        letter := letter + 1;
      }
      i := i + 1;
    }
    DoubledEnd(s[letter..], upperCase);
    assert pszTemp[..i] == all;
    CopyString(pszString, pszTemp, all);
  }
}
