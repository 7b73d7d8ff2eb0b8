/** When the include-guard rewriters change a header, and which of its lines they take out. */
module GuardChoices {
  import opened Options
  import opened Selections
  import opened Directives
  import opened IncludeGuards
  import opened GuardLaws

  // ---------------------------------------------------------------------------------------
  // When they change a header
  // ---------------------------------------------------------------------------------------

  /** The guard that starts first in the window, with its first #define and the #endif that closes it. */
  ghost predicate FirstGuard(lines: seq<Line>, g: Guard, search: Search) {
    && g.open < search.window && g.open < g.define < |lines| && g.define <= g.open + search.lookahead
    && Guards(lines, g.open, g.define) && GuardMacro(lines[g.open]) == Some(g.macro)
    && MatchEndif(lines, g.define + 1, 1) == Some(g.close)
    && forall k | 0 <= k < g.open :: !StartsGuard(lines, k, search)
  }

  /** No guard starts in the window. */
  ghost predicate NoGuard(lines: seq<Line>, search: Search) {
    forall k | 0 <= k < |lines| && k < search.window :: !StartsGuard(lines, k, search)
  }

  /** The first line behind the test that cannot be skipped is the only one that can be its #define. */
  lemma DefineIsOnly(lines: seq<Line>, i: nat, a: nat, b: nat)
    requires i < a < |lines| && i < b < |lines| && Guards(lines, i, a) && Guards(lines, i, b)
    ensures a == b
  {
    assert !(a < b) && !(b < a);
  }

  lemma GuardAtIs(lines: seq<Line>, i: nat, search: Search)
    requires i < |lines| && GuardAt(lines, i, search).Some?
    ensures var g := GuardAt(lines, i, search).value;
            && g.open == i < g.define <= LastLook(i, search, |lines|) && Guards(lines, i, g.define)
            && GuardMacro(lines[i]) == Some(g.macro) && MatchEndif(lines, g.define + 1, 1) == Some(g.close)
  {
    hide MatchEndif, Skippable, IsBlank;
    FoundDefine(lines, i + 1, LastLook(i, search, |lines|), GuardMacro(lines[i]).value);
  }

  lemma {:induction false} FoundIsAt(lines: seq<Line>, i: nat, search: Search)
    requires i <= Window(search, |lines|) && FindGuard(lines, i, search).Some?
    ensures var g := FindGuard(lines, i, search).value; g.open < |lines| && GuardAt(lines, g.open, search) == Some(g)
    decreases |lines| - i
  {
    hide GuardAt;
    if GuardAt(lines, i, search).None? { FoundIsAt(lines, i + 1, search); }
  }

  /** find_guard finds the first guard, and nothing only when there is none. */
  lemma FindGuardExactly(lines: seq<Line>, search: Search)
    ensures FindGuard(lines, 0, search).None? <==> NoGuard(lines, search)
    ensures forall g :: FindGuard(lines, 0, search) == Some(g) <==> FirstGuard(lines, g, search)
  {
    hide FindGuard, GuardAt, Guards, MatchEndif;
    FindGuardIsFirst(lines, 0, search);
    var r := FindGuard(lines, 0, search);
    if r.Some? {
      FoundIsAt(lines, 0, search);
      GuardAtIs(lines, r.value.open, search);
      assert FirstGuard(lines, r.value, search);
    }
    forall g | FirstGuard(lines, g, search) ensures r == Some(g) {
      assert StartsGuard(lines, g.open, search);
      assert r.Some? && !(g.open < r.value.open) && !(r.value.open < g.open);
      DefineIsOnly(lines, g.open, g.define, r.value.define);
    }
  }

  /** A line between the #define and the #endif that is neither blank nor a comment. */
  predicate HasContent(lines: seq<Line>, g: Guard) {
    exists k | g.define < k < g.close :: k < |lines| && !IsBlank(lines[k]) && !lines[k].comment
  }

  /**
   * What remove_guard_from_text decides: it leaves a header without #pragma once alone, then one
   * without a guard, then one whose guard has no content, and changes any other.
   */
  lemma RemoveDecides(lines: seq<Line>)
    ensures (forall l | l in lines :: l.kind != Once) ==> RemoveGuard(lines) == Unchanged("no #pragma once")
    ensures (exists l | l in lines :: l.kind == Once) && NoGuard(lines, Search(150, 10)) ==>
              RemoveGuard(lines) == Unchanged("no classic guard detected")
    ensures forall g | (exists l | l in lines :: l.kind == Once) && FirstGuard(lines, g, Search(150, 10)) ::
              if HasContent(lines, g) then RemoveGuard(lines).Changed?
              else RemoveGuard(lines) == Unchanged("guard region has no content (macro wrapper)")
  {
    hide FindGuard, FirstGuard, NoGuard, Kept, Doomed;
    FindGuardExactly(lines, REMOVER);
  }

  /** replace_guard_with_pragma_once: the same for a header that has #pragma once. */
  lemma ReplaceDecides(lines: seq<Line>)
    ensures (exists l | l in lines :: l.kind == Once) ==> ReplaceGuard(lines) == Unchanged("already has #pragma once")
    ensures (forall l | l in lines :: l.kind != Once) && NoGuard(lines, Search(200, 12)) ==>
              ReplaceGuard(lines) == Unchanged("no classic guard detected")
    ensures forall g | (forall l | l in lines :: l.kind != Once) && FirstGuard(lines, g, Search(200, 12)) ::
              if HasContent(lines, g) then ReplaceGuard(lines).Changed?
              else ReplaceGuard(lines) == Unchanged("guard region has no content (macro wrapper)")
  {
    hide FindGuard, FirstGuard, NoGuard, Kept, Doomed, InsertionIndex;
    FindGuardExactly(lines, REPLACER);
  }

  // ---------------------------------------------------------------------------------------
  // Which lines go
  // ---------------------------------------------------------------------------------------

  /** The guard's three lines, and the blank lines behind its #define, above its test and above its #endif. */
  predicate Goes(lines: seq<Line>, g: Guard, i: nat)
    requires i < |lines|
  {
    || i == g.open || i == g.define || i == g.close
    || (IsBlank(lines[i]) && (i == g.define + 1 || i + 1 == g.open || i + 1 == g.close))
  }

  lemma DoomedGoes(lines: seq<Line>, g: Guard, i: nat)
    requires IsGuard(lines, g) && i < |lines|
    ensures i in Doomed(lines, g) <==> Goes(lines, g, i)
  {
    hide MatchEndif;
  }

  lemma AscendingFits(at: seq<nat>, low: nat, high: nat)
    requires Ascending(at, low, high)
    ensures forall p | 0 <= p < |at| :: at[p] < high
  {
  }

  lemma PickPush(lines: seq<Line>, a: nat, rest: seq<nat>, low: nat, high: nat)
    requires a < low <= high <= |lines| && Ascending(rest, low, high)
    ensures Ascending([a] + rest, a, high) && Pick(lines, [a] + rest) == [lines[a]] + Pick(lines, rest)
  {
    assert Pick(lines, [a] + rest) == [lines[a]] + Pick(lines, rest);
  }

  /** at lists what is not doomed from a to b. */
  ghost predicate Spared(at: seq<nat>, doomed: set<int>, a: nat, b: nat) {
    forall i: nat :: i in at <==> a <= i < b && i !in doomed
  }

  lemma SparedPush(rest: seq<nat>, doomed: set<int>, a: nat, b: nat)
    requires a < b && Spared(rest, doomed, a + 1, b)
    ensures Spared(if a in doomed then rest else [a] + rest, doomed, a, b)
  {
    assert forall i: nat :: i in [a] + rest <==> i == a || i in rest;
  }

  /** The kept lines are those that are not doomed, in order. */
  lemma {:induction false} KeptAre(lines: seq<Line>, doomed: set<int>, a: nat, b: nat) returns (at: seq<nat>)
    requires a <= b <= |lines|
    ensures Ascending(at, a, b) && Kept(lines, doomed, a, b) == Pick(lines, at) && Spared(at, doomed, a, b)
    decreases b - a
  {
    hide Ascending, Pick, Spared;
    if a == b {
      at := NothingKept(lines, doomed, a);
    } else {
      at := KeptAre(lines, doomed, a + 1, b);
      SparedPush(at, doomed, a, b);
      if a in doomed {
        AscendingFrom(at, a, a + 1, b);
      } else {
        PickPush(lines, a, at, a + 1, b);
        at := [a] + at;
      }
    }
  }

  lemma NothingKept(lines: seq<Line>, doomed: set<int>, a: nat) returns (at: seq<nat>)
    requires a <= |lines|
    ensures Ascending(at, a, a) && [] == Pick(lines, at) && Spared(at, doomed, a, a)
  {
    at := [];
  }

  lemma AscendingFrom(at: seq<nat>, low: nat, from: nat, high: nat)
    requires low <= from && Ascending(at, from, high)
    ensures Ascending(at, low, high)
  {
  }

  lemma InSuffix(at: seq<nat>, low: nat, high: nat, x: nat, i: nat)
    requires Ascending(at, low, high) && x <= |at|
    ensures Ascending(at[x..], low, high) && (i in at[x..] <==> i in at && x < |at| && at[x] <= i)
  {
    if i in at && x < |at| && at[x] <= i {
      var p :| 0 <= p < |at| && at[p] == i;
      assert p >= x && at[x..][p - x] == i;
    }
  }

  lemma InPrefix(at: seq<nat>, low: nat, high: nat, y: nat, i: nat)
    requires Ascending(at, low, high) && y <= |at|
    ensures Ascending(at[..y], low, high) && (i in at[..y] <==> i in at && y > 0 && i <= at[y - 1])
  {
    if i in at && y > 0 && i <= at[y - 1] {
      var p :| 0 <= p < |at| && at[p] == i;
      assert p < y && at[..y][p] == i;
    }
  }

  lemma {:induction false} TrimStartCuts(lines: seq<Line>) returns (x: nat)
    ensures x <= |lines| && TrimStart(lines) == lines[x..]
    ensures (forall k | 0 <= k < x :: IsBlank(lines[k])) && (x < |lines| ==> !IsBlank(lines[x]))
  {
    x := 0;
    if lines != [] && IsBlank(lines[0]) {
      var y := TrimStartCuts(lines[1..]);
      x := y + 1;
      assert forall k | 0 < k < |lines| :: lines[k] == lines[1..][k - 1];
    }
  }

  lemma {:induction false} TrimEndCuts(lines: seq<Line>) returns (y: nat)
    ensures y <= |lines| && TrimEnd(lines) == lines[..y]
    ensures (forall k | y <= k < |lines| :: IsBlank(lines[k])) && (y > 0 ==> !IsBlank(lines[y - 1]))
  {
    y := |lines|;
    if lines != [] && IsBlank(lines[|lines| - 1]) { y := TrimEndCuts(lines[..|lines| - 1]); }
  }

  /** Some line from a to b stays and is not blank. */
  predicate InkStays(lines: seq<Line>, g: Guard, a: int, b: int) {
    exists i | a <= i <= b :: 0 <= i < |lines| && !Goes(lines, g, i) && !IsBlank(lines[i])
  }

  /** Without its leading blank lines a selection keeps what has ink at or before it. */
  lemma CutFront(lines: seq<Line>, g: Guard, at: seq<nat>, low: nat, high: nat) returns (x: nat)
    requires high <= |lines| && Ascending(at, low, high) && forall i: nat :: i in at <==> low <= i < high && !Goes(lines, g, i)
    ensures x <= |at| && TrimStart(Pick(lines, at)) == Pick(lines, at[x..]) && Ascending(at[x..], low, high)
    ensures forall i: nat :: i in at[x..] <==> i in at && InkStays(lines, g, low, i)
  {
    hide Goes;
    x := TrimStartCuts(Pick(lines, at));
    assert Pick(lines, at)[x..] == Pick(lines, at[x..]);
    if x < |at| { assert !IsBlank(Pick(lines, at)[x]) && at[x] in at; }
    assert forall k | 0 <= k < x :: IsBlank(lines[at[k]]) by {
      assert forall k | 0 <= k < x :: Pick(lines, at)[k] == lines[at[k]];
    }
    InSuffix(at, low, high, x, 0);
    forall i: nat ensures i in at[x..] <==> i in at && InkStays(lines, g, low, i) {
      hide Ascending, Pick;
      InSuffix(at, low, high, x, i);
      if i in at && InkStays(lines, g, low, i) { InkAtOrBehind(lines, g, at, low, high, x, i); }
    }
  }

  lemma InkAtOrBehind(lines: seq<Line>, g: Guard, at: seq<nat>, low: nat, high: nat, x: nat, i: nat)
    requires high <= |lines| && Ascending(at, low, high) && x <= |at| && i < high && InkStays(lines, g, low, i)
    requires forall k: nat :: k in at <==> low <= k < high && !Goes(lines, g, k)
    requires forall k | 0 <= k < x :: IsBlank(lines[at[k]])
    ensures x < |at| && at[x] <= i
  {
    hide Goes;
    var a :| low <= a <= i && 0 <= a < |lines| && !Goes(lines, g, a) && !IsBlank(lines[a]);
    assert a in at;
    var q :| 0 <= q < |at| && at[q] == a;
    assert x <= q;
  }

  /** Without its trailing blank lines a selection with all the ink keeps what has ink at or behind it. */
  lemma CutBack(lines: seq<Line>, g: Guard, at: seq<nat>, low: nat, high: nat) returns (y: nat)
    requires high <= |lines| && Ascending(at, low, high) && forall i | i in at :: low <= i < high && !Goes(lines, g, i)
    requires forall i: nat | low <= i < high && !Goes(lines, g, i) && !IsBlank(lines[i]) :: i in at
    ensures y <= |at| && TrimEnd(Pick(lines, at)) == Pick(lines, at[..y]) && Ascending(at[..y], low, high)
    ensures forall i: nat :: i in at[..y] <==> i in at && InkStays(lines, g, i, high - 1)
  {
    hide Goes;
    y := TrimEndCuts(Pick(lines, at));
    assert Pick(lines, at)[..y] == Pick(lines, at[..y]);
    if y > 0 { assert !IsBlank(Pick(lines, at)[y - 1]) && at[y - 1] in at; }
    assert forall k | y <= k < |at| :: IsBlank(lines[at[k]]) by {
      assert forall k | y <= k < |at| :: Pick(lines, at)[k] == lines[at[k]];
    }
    InPrefix(at, low, high, y, 0);
    forall i: nat ensures i in at[..y] <==> i in at && InkStays(lines, g, i, high - 1) {
      hide Ascending, Pick;
      InPrefix(at, low, high, y, i);
      if i in at && InkStays(lines, g, i, high - 1) { InkAtOrBefore(lines, g, at, low, high, y, i); }
    }
  }

  lemma InkAtOrBefore(lines: seq<Line>, g: Guard, at: seq<nat>, low: nat, high: nat, y: nat, i: nat)
    requires high <= |lines| && Ascending(at, low, high) && y <= |at| && low <= i && InkStays(lines, g, i, high - 1)
    requires forall k: nat | low <= k < high && !Goes(lines, g, k) && !IsBlank(lines[k]) :: k in at
    requires forall k | y <= k < |at| :: IsBlank(lines[at[k]])
    ensures y > 0 && i <= at[y - 1]
  {
    hide Goes;
    var b :| i <= b <= high - 1 && 0 <= b < |lines| && !Goes(lines, g, b) && !IsBlank(lines[b]);
    assert b in at;
    var q :| 0 <= q < |at| && at[q] == b;
    assert q < y;
  }

  lemma KeptStay(lines: seq<Line>, g: Guard, a: nat, b: nat) returns (at: seq<nat>)
    requires IsGuard(lines, g) && a <= b <= |lines|
    ensures Ascending(at, a, b) && Kept(lines, Doomed(lines, g), a, b) == Pick(lines, at)
    ensures forall i: nat :: i in at <==> a <= i < b && !Goes(lines, g, i)
  {
    hide Kept, Doomed, IsGuard, Goes;
    at := KeptAre(lines, Doomed(lines, g), a, b);
    forall i: nat ensures i in at <==> a <= i < b && !Goes(lines, g, i) {
      if i < |lines| { DoomedGoes(lines, g, i); }
    }
  }

  /**
   * A changed header keeps, in order, exactly the lines that do not go and have a line with ink that
   * stays at or before them and one at or behind them: blank lines at both ends are trimmed.
   */
  lemma RemoveTakesExactly(lines: seq<Line>) returns (at: seq<nat>)
    requires RemoveGuard(lines).Changed?
    ensures Ascending(at, 0, |lines|) && RemoveGuard(lines).lines == Pick(lines, at)
    ensures var g, n := FindGuard(lines, 0, REMOVER).value, |lines|;
            forall i: nat :: i in at <==>
              i < n && !Goes(lines, g, i) && InkStays(lines, g, 0, i) && InkStays(lines, g, i, n - 1)
  {
    hide Kept, Doomed, IsGuard, FindGuard, Goes, Pick, Ascending, HasOnce;
    var g, n := FindGuard(lines, 0, REMOVER).value, |lines|;
    at := KeptStay(lines, g, 0, n);
    var x := CutFront(lines, g, at, 0, n);
    forall i: nat | i < n && !Goes(lines, g, i) && !IsBlank(lines[i]) ensures i in at[x..] {
      assert InkStays(lines, g, 0, i);
    }
    at := at[x..];
    var y := CutBack(lines, g, at, 0, n);
    at := at[..y];
  }

  /** The lines of the result before and behind the pragma: the same, with the pragma where the guard began. */
  lemma ReplaceTakesExactly(lines: seq<Line>) returns (front: seq<nat>, back: seq<nat>)
    requires ReplaceGuard(lines).Changed?
    ensures var g, n := FindGuard(lines, 0, REPLACER).value, |lines|;
            && g.open < n && Ascending(front, 0, g.open) && Ascending(back, g.open, n)
            && ReplaceGuard(lines).lines == Pick(lines, front) + [PRAGMA_ONCE] + Pick(lines, back)
            && (forall i: nat :: i in front <==> i < g.open && !Goes(lines, g, i) && InkStays(lines, g, 0, i))
            && forall i: nat :: i in back <==> g.open <= i < n && !Goes(lines, g, i) && InkStays(lines, g, i, n - 1)
  {
    hide Kept, Doomed, IsGuard, FindGuard, Goes, Pick, Ascending, HasOnce, InsertionIndex;
    var g, n := FindGuard(lines, 0, REPLACER).value, |lines|;
    GuardInside(lines, g);
    PragmaSplits(lines, g);
    front := KeptStay(lines, g, 0, g.open);
    var x := CutFront(lines, g, front, 0, g.open);
    back := KeptStay(lines, g, g.open, n);
    var y := CutBack(lines, g, back, g.open, n);
    AscendingFits(front, 0, g.open);
    AscendingFits(back, g.open, n);
    TrimAround(Pick(lines, front), PRAGMA_ONCE, Pick(lines, back));
    front, back := front[x..], back[..y];
  }

  /** The pragma stands between the lines kept before the guard and those kept from it on. */
  lemma PragmaSplits(lines: seq<Line>, g: Guard)
    requires ReplaceGuard(lines).Changed? && IsGuard(lines, g) && FindGuard(lines, 0, REPLACER) == Some(g)
    ensures var doomed := Doomed(lines, g);
            ReplaceGuard(lines).lines == TrimEnd(TrimStart(Kept(lines, doomed, 0, g.open) + [PRAGMA_ONCE]
                                                           + Kept(lines, doomed, g.open, |lines|)))
  {
    hide Kept, IsGuard, FindGuard, InsertionIndex, HasOnce, Doomed;
    GuardInside(lines, g);
    var doomed := Doomed(lines, g);
    DoomedLines(lines, g);
    var k :| g.define + 1 <= k < g.close && !Skippable(lines[k]);
    InsertionIsAtGuard(lines, doomed, g.open, 0, 0, k);
    KeptJoin(lines, doomed, 0, g.open, |lines|);
    var a, b := Kept(lines, doomed, 0, g.open), Kept(lines, doomed, g.open, |lines|);
    assert (a + b)[..|a|] == a && (a + b)[|a|..] == b;
  }

  lemma TrimAround(a: seq<Line>, l: Line, b: seq<Line>)
    requires !IsBlank(l)
    ensures TrimEnd(TrimStart(a + [l] + b)) == TrimStart(a) + [l] + TrimEnd(b)
  {
    TrimFront(a, [l] + b);
    assert a + [l] + b == a + ([l] + b);
    TrimBack(TrimStart(a) + [l], b);
    assert TrimStart(a) + ([l] + b) == (TrimStart(a) + [l]) + b;
  }

  lemma {:induction false} TrimFront(a: seq<Line>, b: seq<Line>)
    requires b != [] && !IsBlank(b[0])
    ensures TrimStart(a + b) == TrimStart(a) + b
  {
    if a == [] {
      assert a + b == b;
    } else if IsBlank(a[0]) {
      TrimFront(a[1..], b);
      assert (a + b)[1..] == a[1..] + b;
    }
  }

  lemma {:induction false} TrimBack(a: seq<Line>, b: seq<Line>)
    requires a != [] && !IsBlank(a[|a| - 1])
    ensures TrimEnd(a + b) == a + TrimEnd(b)
  {
    if b == [] {
      assert a + b == a;
    } else if IsBlank(b[|b| - 1]) {
      TrimBack(a, b[..|b| - 1]);
      assert (a + b)[..|a + b| - 1] == a + b[..|b| - 1];
    }
  }
}
