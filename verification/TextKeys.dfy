/** How the C runtime and the Babylon hash bins (Core/Tools/Babylon/bin.cpp) compare strings. */
module TextKeys {
  /** wcsicmp and stricmp fold only the ASCII letters in the "C" locale. */
  function FoldChar(c: char): char {
    if 'A' <= c <= 'Z' then (c as int + 32) as char else c
  }

  function Fold(s: string): string {
    seq(|s|, i requires 0 <= i < |s| => FoldChar(s[i]))
  }

  /** Bin::calc_hash: the plain sum of the code units. */
  function CharSum(s: string): nat {
    if s == [] then 0 else CharSum(s[..|s| - 1]) + s[|s| - 1] as nat
  }

  /**
   * BinItem::Same: two strings are the same key when their lengths and hashes agree and they
   * are equal ignoring case. It is coarser than equality: "aB" and "Ab" are one key.
   */
  predicate SameKey(a: string, b: string) {
    |a| == |b| && CharSum(a) == CharSum(b) && Fold(a) == Fold(b)
  }

  predicate SameIgnoringCase(a: string, b: string) {
    Fold(a) == Fold(b)
  }

  lemma SwappedCaseIsOneKey()
    ensures "aB" != "Ab" && SameKey("aB", "Ab")
  {
    assert "aB"[..1] == "a" && "Ab"[..1] == "A" && "a"[..0] == "" && "A"[..0] == "";
    assert CharSum("a") == 97 && CharSum("A") == 65;
    assert CharSum("aB") == 163 && CharSum("Ab") == 163;
    assert Fold("aB") == "ab" == Fold("Ab");
  }

  /** y is the small letter of the capital x. */
  predicate Lowered(x: char, y: char) { 'A' <= x <= 'Z' && y as int == x as int + 32 }

  /** How many of the first n places hold a capital in a and its small letter in b. */
  function Lowers(a: string, b: string, n: nat): nat
    requires n <= |a| && n <= |b|
  {
    if n == 0 then 0 else Lowers(a, b, n - 1) + if Lowered(a[n - 1], b[n - 1]) then 1 else 0
  }

  /** Place by place the same character, but for the case of ASCII letters. */
  predicate CaseApart(a: string, b: string) {
    |a| == |b| && forall i | 0 <= i < |a| :: a[i] == b[i] || Lowered(a[i], b[i]) || Lowered(b[i], a[i])
  }

  lemma FoldsApart(a: string, b: string)
    ensures SameIgnoringCase(a, b) <==> CaseApart(a, b)
  {
    assert |Fold(a)| == |a| && |Fold(b)| == |b|;
    if Fold(a) == Fold(b) {
      forall i | 0 <= i < |a| ensures a[i] == b[i] || Lowered(a[i], b[i]) || Lowered(b[i], a[i]) {
        assert Fold(a)[i] == Fold(b)[i];
      }
    }
  }

  lemma {:induction false} SumsDiffer(a: string, b: string, n: nat)
    requires CaseApart(a, b) && n <= |a|
    ensures CharSum(a[..n]) as int - CharSum(b[..n]) as int == 32 * (Lowers(b, a, n) as int - Lowers(a, b, n) as int)
  {
    if n == 0 {
      assert a[..0] == b[..0];
    } else {
      SumsDiffer(a, b, n - 1);
      assert a[..n][..n - 1] == a[..n - 1] && b[..n][..n - 1] == b[..n - 1];
    }
  }

  /**
   * Two strings are one key exactly when they differ only in the case of ASCII letters and as many
   * letters are capital in the one alone as in the other alone.
   */
  lemma SameKeyExactly(a: string, b: string)
    ensures SameKey(a, b) <==> CaseApart(a, b) && Lowers(a, b, |a|) == Lowers(b, a, |a|)
  {
    hide CharSum, Fold;
    FoldsApart(a, b);
    if CaseApart(a, b) {
      SumsDiffer(a, b, |a|);
      assert a[..|a|] == a && b[..|b|] == b;
    }
  }
}
