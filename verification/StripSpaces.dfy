/**
 * GameTextManager::stripSpaces (Core/Tools/Autorun/GameText.cpp): in-place removal of
 * superfluous spaces from a zero-terminated wide string.
 */
module StripSpaces {
  import opened Selections

  /** A 16-bit WideChar. */
  type Wide = x: int | 0 <= x < 0x1_0000

  const SPACE: Wide := 32
  const NEWLINE: Wide := 10
  const TAB: Wide := 9

  /** The C string a buffer holds: what stands before the first zero. */
  function CString<T(==)>(s: seq<T>, zero: T): seq<T> {
    if s == [] || s[0] == zero then [] else [s[0]] + CString(s[1..], zero)
  }

  predicate Break(c: Wide) { c == NEWLINE || c == TAB }

  /** A character a space may stand next to. */
  predicate Solid(c: Wide) { c != SPACE && !Break(c) }

  /** After the spaces that follow position i comes a solid character. */
  predicate Followed(s: seq<Wide>, i: nat)
    requires i < |s|
    decreases |s| - i
  {
    i + 1 < |s| && if s[i + 1] == SPACE then Followed(s, i + 1) else Solid(s[i + 1])
  }

  /** What stays: everything but spaces, and the first space of a run between two solid characters. */
  predicate Stays(s: seq<Wide>, i: nat)
    requires i < |s|
  {
    s[i] != SPACE || (i > 0 && Solid(s[i - 1]) && Followed(s, i))
  }

  function StayMarks(s: seq<Wide>): seq<bool> {
    seq(|s|, i requires 0 <= i < |s| => Stays(s, i))
  }

  /** What stripSpaces is for, position by position. */
  function Strip(s: seq<Wide>): seq<Wide> {
    Select(s, StayMarks(s), true, |s|)
  }

  // ---------------------------------------------------------------------------------------
  // Stripping one character at a time
  // ---------------------------------------------------------------------------------------

  /** s ends in a run of spaces that a solid character precedes. */
  predicate Pending(s: seq<Wide>) {
    && |s| > 1 && s[|s| - 1] == SPACE
    && (Solid(s[|s| - 2]) || Pending(s[..|s| - 1]))
  }

  /** Everything after position i is spaces. */
  predicate SpacesAfter(s: seq<Wide>, i: nat)
    requires i < |s|
  {
    forall k | i < k < |s| :: s[k] == SPACE
  }

  lemma {:induction false} FollowedExtends(s: seq<Wide>, c: Wide, i: nat)
    requires i < |s|
    ensures Followed(s + [c], i) <==> Followed(s, i) || (SpacesAfter(s, i) && Solid(c))
    decreases |s| - i
  {
    if i + 1 < |s| {
      if s[i + 1] == SPACE { FollowedExtends(s, c, i + 1); }
    } else {
      assert (s + [c])[i + 1] == c;
    }
  }

  lemma {:induction false} SelectAgrees<T>(a: seq<T>, b: seq<T>, m: seq<bool>, l: seq<bool>, n: nat)
    requires n <= |a| == |m| && n <= |b| == |l|
    requires forall i | 0 <= i < n :: a[i] == b[i] && m[i] == l[i]
    ensures Select(a, m, true, n) == Select(b, l, true, n)
  {
    if n > 0 { SelectAgrees(a, b, m, l, n - 1); }
  }

  /** A trailing space, or a break, decides nothing about the characters before it. */
  lemma StripKeeps(s: seq<Wide>, c: Wide)
    requires !Solid(c)
    ensures Strip(s + [c]) == Strip(s) + (if c == SPACE then [] else [c])
  {
    var t := s + [c];
    forall i | 0 <= i < |s| ensures Stays(t, i) == Stays(s, i) {
      FollowedExtends(s, c, i);
    }
    SelectAgrees(t, s, StayMarks(t), StayMarks(s), |s|);
  }

  /** The space that waits at the end of s, in a pending string. */
  lemma {:induction false} PendingStart(s: seq<Wide>) returns (k: nat)
    requires Pending(s)
    ensures 0 < k < |s| && Solid(s[k - 1]) && forall i | k <= i < |s| :: s[i] == SPACE
  {
    if Solid(s[|s| - 2]) {
      k := |s| - 1;
    } else {
      k := PendingStart(s[..|s| - 1]);
    }
  }

  lemma {:induction false} PendingFrom(s: seq<Wide>, k: nat)
    requires 0 < k < |s| && Solid(s[k - 1]) && forall i | k <= i < |s| :: s[i] == SPACE
    ensures Pending(s)
  {
    if k < |s| - 1 { PendingFrom(s[..|s| - 1], k); }
  }

  lemma {:induction false} SelectNone<T>(xs: seq<T>, marks: seq<bool>, k: nat, n: nat)
    requires k <= n <= |xs| == |marks| && forall i | k <= i < n :: !marks[i]
    ensures Select(xs, marks, true, n) == Select(xs, marks, true, k)
  {
    if k < n { SelectNone(xs, marks, k, n - 1); }
  }

  /** A solid character releases the pending space. */
  lemma StripSolid(s: seq<Wide>, c: Wide)
    requires Solid(c)
    ensures Strip(s + [c]) == Strip(s) + (if Pending(s) then [SPACE] else []) + [c]
  {
    var t := s + [c];
    var old', new' := StayMarks(s), StayMarks(t);
    if Pending(s) {
      var k := PendingStart(s);
      forall i | 0 <= i < k ensures new'[i] == old'[i] {
        FollowedExtends(s, c, i);
        assert s[k - 1] != SPACE;
      }
      FollowedExtends(s, c, k);
      forall i | k <= i < |s| ensures !old'[i] && (new'[i] <==> i == k) {
        NeverFollowed(s, k, i);
      }
      SelectAgrees(t, s, new', old', k);
      SelectNone(s, old', k, |s|);
      SelectNone(t, new', k + 1, |s|);
    } else {
      forall i | 0 <= i < |s| ensures new'[i] == old'[i] {
        FollowedExtends(s, c, i);
        if s[i] == SPACE && i > 0 && Solid(s[i - 1]) && SpacesAfter(s, i) { PendingFrom(s, i); }
      }
      SelectAgrees(t, s, new', old', |s|);
    }
  }

  lemma {:induction false} NeverFollowed(s: seq<Wide>, k: nat, i: nat)
    requires k <= i < |s| && forall l | k <= l < |s| :: s[l] == SPACE
    ensures !Followed(s, i)
    decreases |s| - i
  {
    if i + 1 < |s| { NeverFollowed(s, k, i + 1); }
  }

  // ---------------------------------------------------------------------------------------
  // What a stripped string looks like
  // ---------------------------------------------------------------------------------------

  /** No leading, trailing or doubled space, and none next to a newline or tab. */
  predicate Tidy(s: seq<Wide>) {
    forall i | 0 <= i < |s| && s[i] == SPACE ::
      0 < i < |s| - 1 && Solid(s[i - 1]) && Solid(s[i + 1])
  }

  lemma {:induction false} StripIsTidy(s: seq<Wide>)
    ensures Tidy(Strip(s))
    ensures Pending(s) || (s != [] && Solid(s[|s| - 1])) ==> Strip(s) != [] && Solid(Strip(s)[|Strip(s)| - 1])
  {
    if s != [] {
      var p, c := s[..|s| - 1], s[|s| - 1];
      assert s == p + [c];
      StripIsTidy(p);
      if Solid(c) { StripSolid(p, c); } else { StripKeeps(p, c); }
    }
  }

  /** A tidy string is left alone; so a second run changes nothing. */
  lemma TidyIsFixed(s: seq<Wide>)
    requires Tidy(s)
    ensures Strip(s) == s
  {
    SelectAll(s, StayMarks(s), true, |s|);
    assert s[..|s|] == s;
  }

  lemma PendingPush(s: seq<Wide>, c: Wide)
    ensures Pending(s + [c]) <==> c == SPACE && s != [] && (Solid(s[|s| - 1]) || Pending(s))
  {
    assert (s + [c])[..|s|] == s;
  }

  /** Two texts to which stripping does the same whatever follows. */
  predicate Alike(s: seq<Wide>, t: seq<Wide>) {
    && Strip(s) == Strip(t) && Pending(s) == Pending(t)
    && (s != [] && Solid(s[|s| - 1]) <==> t != [] && Solid(t[|t| - 1]))
  }

  lemma {:induction false} AlikeExtends(s: seq<Wide>, t: seq<Wide>, b: seq<Wide>)
    requires Alike(s, t)
    ensures Alike(s + b, t + b)
  {
    hide Alike;
    if b == [] {
      assert s + b == s && t + b == t;
    } else {
      var n := |b| - 1;
      AlikeExtends(s, t, b[..n]);
      assert s + b == (s + b[..n]) + [b[n]] && t + b == (t + b[..n]) + [b[n]];
      AlikePush(s + b[..n], t + b[..n], b[n]);
    }
  }

  lemma AlikePush(s: seq<Wide>, t: seq<Wide>, c: Wide)
    requires Alike(s, t)
    ensures Alike(s + [c], t + [c])
  {
    hide Strip, Pending;
    PendingOnly(s);
    PendingOnly(t);
    PendingPush(s, c);
    PendingPush(t, c);
    if Solid(c) {
      StripSolid(s, c);
      StripSolid(t, c);
    } else {
      StripKeeps(s, c);
      StripKeeps(t, c);
    }
  }

  /**
   * A space that does not stand between two solid characters makes no difference. With TidyIsFixed this
   * says what every text becomes: take such spaces away until none is left.
   */
  lemma RedundantSpaceGoes(a: seq<Wide>, b: seq<Wide>)
    requires a == [] || b == [] || !Solid(a[|a| - 1]) || !Solid(b[0])
    ensures Strip(a + [SPACE] + b) == Strip(a + b)
  {
    hide Strip, Pending;
    var s := a + [SPACE];
    StripKeeps(a, SPACE);
    PendingPush(a, SPACE);
    if b == [] {
      assert s + b == s && a + b == a;
    } else if a == [] || !Solid(a[|a| - 1]) {
      PendingOnly(a);
      AlikeExtends(s, a, b);
    } else {
      assert s + b == (s + [b[0]]) + b[1..] && a + b == (a + [b[0]]) + b[1..];
      StripKeeps(s, b[0]);
      StripKeeps(a, b[0]);
      PendingPush(s, b[0]);
      PendingPush(a, b[0]);
      AlikeExtends(s + [b[0]], a + [b[0]], b[1..]);
    }
  }

  lemma PendingOnly(a: seq<Wide>)
    ensures Pending(a) ==> a != [] && a[|a| - 1] == SPACE
  {
  }

  lemma StripTwice(s: seq<Wide>)
    ensures Strip(Strip(s)) == Strip(s)
  {
    StripIsTidy(s);
    TidyIsFixed(Strip(s));
  }

  /** The characters that are not spaces. */
  function Ink(s: seq<Wide>): seq<Wide> {
    if s == [] then []
    else if s[|s| - 1] == SPACE then Ink(s[..|s| - 1])
    else Ink(s[..|s| - 1]) + [s[|s| - 1]]
  }

  lemma InkPush(s: seq<Wide>, c: Wide)
    ensures Ink(s + [c]) == if c == SPACE then Ink(s) else Ink(s) + [c]
  {
    assert (s + [c])[..|s|] == s;
  }

  /** Nothing but spaces is removed and the order stays. */
  lemma {:induction false} StripKeepsInk(s: seq<Wide>)
    ensures Ink(Strip(s)) == Ink(s)
  {
    if s != [] {
      var p, c := s[..|s| - 1], s[|s| - 1];
      assert s == p + [c];
      StripKeepsInk(p);
      InkPush(p, c);
      if Solid(c) {
        StripSolid(p, c);
        InkPush(Strip(p), SPACE);
        InkPush(Strip(p) + (if Pending(p) then [SPACE] else []), c);
        assert Strip(p) + [] == Strip(p);
      } else {
        StripKeeps(p, c);
        InkPush(Strip(p), c);
        assert Strip(p) + [] == Strip(p);
      }
    }
  }

  // ---------------------------------------------------------------------------------------
  // The pointer loop
  // ---------------------------------------------------------------------------------------

  /** The buffer holds the C string text. */
  predicate Holds(buffer: seq<Wide>, text: seq<Wide>) {
    |text| < |buffer| && buffer[..|text|] == text && buffer[|text|] == 0 && 0 !in text
  }

  lemma {:induction false} StripWithoutZero(s: seq<Wide>)
    requires 0 !in s
    ensures 0 !in Strip(s)
  {
    if s != [] {
      var p, c := s[..|s| - 1], s[|s| - 1];
      assert s == p + [c];
      StripWithoutZero(p);
      if Solid(c) { StripSolid(p, c); } else { StripKeeps(p, c); }
    }
  }

  /** Where the loop stands: in a run to be skipped, behind a solid character, or behind a space that may go again. */
  datatype Place = Skipping | Word | Gap

  function PlaceOf(text: seq<Wide>): Place {
    if Pending(text) then Gap else if text != [] && Solid(text[|text| - 1]) then Word else Skipping
  }

  /** What the loop has written after reading text: the stripped text, and the space that may go again. */
  function Written(text: seq<Wide>): seq<Wide> {
    Strip(text) + if Pending(text) then [SPACE] else []
  }

  lemma WrittenStart()
    ensures Written([]) == [] && PlaceOf([]) == Skipping
  {
  }

  lemma WrittenEnd(text: seq<Wide>)
    ensures Written(text) == Strip(text) + (if PlaceOf(text) == Gap then [SPACE] else [])
  {
  }

  lemma WrittenPush(text: seq<Wide>, c: Wide)
    ensures c == SPACE && PlaceOf(text) == Word ==> Written(text + [c]) == Written(text) + [c] && PlaceOf(text + [c]) == Gap
    ensures c == SPACE && PlaceOf(text) != Word ==> Written(text + [c]) == Written(text) && PlaceOf(text + [c]) == PlaceOf(text)
    ensures Break(c) ==> Written(text + [c]) == Strip(text) + [c] && PlaceOf(text + [c]) == Skipping
    ensures Solid(c) ==> Written(text + [c]) == Written(text) + [c] && PlaceOf(text + [c]) == Word
  {
    var t := text + [c];
    assert t[..|t| - 1] == text;
    if Solid(c) { StripSolid(text, c); } else { StripKeeps(text, c); }
    assert Strip(text) + [] == Strip(text);
    if text != [] && text[|text| - 1] == SPACE && !Pending(text) { assert !Pending(t); }
  }

  /** *str++ = ch */
  method Emit(buffer: array<Wide>, str: nat, ch: Wide) returns (next: nat)
    requires str < buffer.Length
    modifies buffer
    ensures next == str + 1
    ensures buffer[..next] == old(buffer[..str]) + [ch]
    ensures forall k | next <= k < buffer.Length :: buffer[k] == old(buffer[k])
  {
    buffer[str] := ch;
    next := str + 1;
  }

  /** The loop of stripSpaces; the write cursor never passes the read cursor. */
  method Squeeze(buffer: array<Wide>, ghost text: seq<Wide>) returns (str: nat, last: Wide)
    requires Holds(buffer[..], text)
    modifies buffer
    ensures str <= |text| && buffer[..str] == Written(text) && (last == SPACE <==> PlaceOf(text) == Gap)
    ensures forall k | |text| <= k < buffer.Length :: buffer[k] == old(buffer[k])
  {
    hide Strip, Written, PlaceOf;
    WrittenStart();
    var ptr := 0;
    str, last := 0, 0;
    var skipAll := true;
    ghost var seen: seq<Wide> := [];
    while buffer[ptr] != 0
      invariant 0 <= str <= ptr == |seen| <= |text| && seen == text[..ptr]
      invariant forall k | ptr <= k < |text| :: buffer[k] == text[k] && buffer[k] != 0
      invariant forall k | |text| <= k < buffer.Length :: buffer[k] == old(buffer[k])
      invariant buffer[..str] == Written(seen)
      invariant last == SPACE <==> PlaceOf(seen) == Gap
      invariant skipAll <==> PlaceOf(seen) == Skipping
      decreases |text| - ptr
    {
      var ch := buffer[ptr];
      ptr := ptr + 1;
      WrittenPush(seen, ch);
      WrittenEnd(seen);
      ghost var was := seen;
      seen := seen + [ch];
      if ch == SPACE && (last == SPACE || skipAll) {
        continue;
      }
      skipAll := ch == NEWLINE || ch == TAB;
      if skipAll && last == SPACE {
        str := str - 1;
        assert buffer[..str] == Strip(was);
      }
      assert buffer[..str] + [ch] == Written(seen);
      str := Emit(buffer, str, ch);
      last := ch;
    }
    assert ptr == |text| && seen == text;
  }

  /** GameTextManager::stripSpaces on the buffer that holds text. */
  method StripInPlace(buffer: array<Wide>, ghost text: seq<Wide>)
    requires Holds(buffer[..], text)
    modifies buffer
    ensures Holds(buffer[..], Strip(text))
    ensures forall k | |text| < k < buffer.Length :: buffer[k] == old(buffer[k])
  {
    hide Strip, Written, PlaceOf;
    var str, last := Squeeze(buffer, text);
    WrittenEnd(text);
    if last == SPACE { str := str - 1; }
    assert buffer[..str] == Strip(text);
    buffer[str] := 0;
    StripWithoutZero(text);
  }
}
