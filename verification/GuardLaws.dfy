/** What the include-guard rewriters keep: the lines, the nesting of directives, and their meaning. */
module GuardLaws {
  import opened Options
  import opened Directives
  import opened IncludeGuards

  // ---------------------------------------------------------------------------------------
  // The lines that are left
  // ---------------------------------------------------------------------------------------

  lemma {:induction false} KeptInk(lines: seq<Line>, doomed: set<int>, a: nat, b: nat)
    requires a <= b <= |lines| && forall k | a <= k < b && k in doomed :: IsBlank(lines[k])
    ensures Ink(Kept(lines, doomed, a, b)) == Ink(lines[a..b])
    decreases b - a
  {
    if a < b {
      KeptInk(lines, doomed, a + 1, b);
      assert lines[a..b] == [lines[a]] + lines[a + 1..b];
      InkJoin([lines[a]], lines[a + 1..b]);
      InkJoin(if a in doomed then [] else [lines[a]], Kept(lines, doomed, a + 1, b));
    }
  }

  lemma {:induction false} TrimStartInk(lines: seq<Line>)
    ensures Ink(TrimStart(lines)) == Ink(lines)
  {
    if lines != [] && IsBlank(lines[0]) {
      TrimStartInk(lines[1..]);
      assert Ink(lines) == Ink(lines[1..]);
    }
  }

  lemma {:induction false} TrimEndInk(lines: seq<Line>)
    ensures Ink(TrimEnd(lines)) == Ink(lines)
  {
    if lines != [] && IsBlank(lines[|lines| - 1]) {
      var rest := lines[..|lines| - 1];
      TrimEndInk(rest);
      assert lines == rest + [lines[|lines| - 1]];
      InkJoin(rest, [lines[|lines| - 1]]);
      InkOfBlanks([lines[|lines| - 1]]);
      assert Ink(rest) + [] == Ink(rest);
    }
  }

  /** The lines around and inside a guard. */
  function Front(lines: seq<Line>, g: Guard): seq<Line>
    requires IsGuard(lines, g)
  {
    lines[..g.open]
  }

  function Between(lines: seq<Line>, g: Guard): seq<Line>
    requires IsGuard(lines, g)
  {
    lines[g.open + 1..g.define]
  }

  function Body(lines: seq<Line>, g: Guard): seq<Line>
    requires IsGuard(lines, g)
  {
    lines[g.define + 1..g.close]
  }

  function Back(lines: seq<Line>, g: Guard): seq<Line>
    requires IsGuard(lines, g)
  {
    lines[g.close + 1..]
  }

  /** The lines with extra ones in place of the guard's test, #define and #endif. */
  function Rewritten(lines: seq<Line>, g: Guard, extra: seq<Line>): seq<Line>
    requires IsGuard(lines, g)
  {
    Front(lines, g) + extra + (Between(lines, g) + Body(lines, g)) + Back(lines, g)
  }

  lemma DoomedLines(lines: seq<Line>, g: Guard)
    requires IsGuard(lines, g)
    ensures g.open in Doomed(lines, g) && g.define in Doomed(lines, g) && g.close in Doomed(lines, g)
    ensures forall k | 0 <= k < |lines| && k in Doomed(lines, g) && k != g.open && k != g.define && k != g.close ::
              IsBlank(lines[k])
  {
    hide MatchEndif, IsBlank;
  }

  lemma KeptSkips(lines: seq<Line>, doomed: set<int>, i: nat)
    requires i < |lines| && i in doomed
    ensures Kept(lines, doomed, i, |lines|) == Kept(lines, doomed, i + 1, |lines|)
  {
  }

  /** What is kept before and from the guard on. */
  lemma KeptParts(lines: seq<Line>, g: Guard)
    requires IsGuard(lines, g)
    ensures var doomed := Doomed(lines, g);
            && Ink(Kept(lines, doomed, 0, g.open)) == Ink(Front(lines, g))
            && Ink(Kept(lines, doomed, g.open, |lines|)) == Ink((Between(lines, g) + Body(lines, g)) + Back(lines, g))
  {
    hide *;
    var doomed, n := Doomed(lines, g), |lines|;
    GuardInside(lines, g);
    DoomedLines(lines, g);
    PartsAre(lines, g);
    KeptInk(lines, doomed, 0, g.open);
    KeptInk(lines, doomed, g.open + 1, g.define);
    KeptInk(lines, doomed, g.define + 1, g.close);
    KeptInk(lines, doomed, g.close + 1, n);
    KeptSkips(lines, doomed, g.open);
    KeptJoin(lines, doomed, g.open + 1, g.define, n);
    KeptSkips(lines, doomed, g.define);
    KeptJoin(lines, doomed, g.define + 1, g.close, n);
    KeptSkips(lines, doomed, g.close);
    var b, c, z := Kept(lines, doomed, g.open + 1, g.define), Kept(lines, doomed, g.define + 1, g.close),
                   Kept(lines, doomed, g.close + 1, n);
    InkJoin(b, c + z);
    InkJoin(c, z);
    InkJoin(Between(lines, g) + Body(lines, g), Back(lines, g));
    InkJoin(Between(lines, g), Body(lines, g));
    assert Ink(b) + (Ink(c) + Ink(z)) == (Ink(b) + Ink(c)) + Ink(z);
  }

  lemma PartsAre(lines: seq<Line>, g: Guard)
    requires IsGuard(lines, g)
    ensures Front(lines, g) == lines[0..g.open] && Between(lines, g) == lines[g.open + 1..g.define]
    ensures Body(lines, g) == lines[g.define + 1..g.close] && Back(lines, g) == lines[g.close + 1..|lines|]
  {
    hide MatchEndif;
  }

  /** One line of InsertionIndex and of Kept. */
  lemma InsertionStep(lines: seq<Line>, doomed: set<int>, open: nat, i: nat, count: nat)
    requires i < open < |lines|
    ensures InsertionIndex(lines, doomed, open, i, count)
         == InsertionIndex(lines, doomed, open, i + 1, if i in doomed then count else count + 1)
    ensures |Kept(lines, doomed, i, open)| == |Kept(lines, doomed, i + 1, open)| + if i in doomed then 0 else 1
  {
  }

  /** The insertion point is behind all lines kept before the guard. */
  lemma {:induction false} InsertionIsAtGuard(lines: seq<Line>, doomed: set<int>, open: nat, i: nat, count: nat, k: nat)
    requires i <= open <= k < |lines| && k !in doomed
    ensures InsertionIndex(lines, doomed, open, i, count) == count + |Kept(lines, doomed, i, open)|
    decreases open - i
  {
    hide *;
    if i < open {
      InsertionStep(lines, doomed, open, i, count);
      InsertionIsAtGuard(lines, doomed, open, i + 1, if i in doomed then count else count + 1, k);
    } else {
      InsertionHere(lines, doomed, open, i, count, k);
      KeptNothing(lines, doomed, i);
    }
  }

  lemma KeptNothing(lines: seq<Line>, doomed: set<int>, i: nat)
    requires i <= |lines|
    ensures Kept(lines, doomed, i, i) == []
  {
  }

  lemma {:induction false} InsertionHere(lines: seq<Line>, doomed: set<int>, open: nat, i: nat, count: nat, k: nat)
    requires open <= i <= k < |lines| && k !in doomed
    ensures InsertionIndex(lines, doomed, open, i, count) == count
    decreases k - i
  {
    if i in doomed { InsertionHere(lines, doomed, open, i + 1, count, k); }
  }

  lemma GuardInside(lines: seq<Line>, g: Guard)
    requires IsGuard(lines, g)
    ensures g.open < g.define < g.close < |lines|
  {
  }

  /** remove_guard_from_text: every line but the guard's three and blank ones is left, in order. */
  lemma RemoveKeepsLines(lines: seq<Line>)
    requires RemoveGuard(lines).Changed?
    ensures var g := FindGuard(lines, 0, REMOVER).value;
            Ink(RemoveGuard(lines).lines) == Ink(Rewritten(lines, g, []))
  {
    hide Kept, Ink, Doomed, IsGuard, FindGuard, Front, Between, Body, Back, HasSubstance, HasOnce;
    var g := FindGuard(lines, 0, REMOVER).value;
    GuardInside(lines, g);
    var doomed := Doomed(lines, g);
    var kept := Kept(lines, doomed, 0, |lines|);
    TrimStartInk(kept);
    TrimEndInk(TrimStart(kept));
    KeptJoin(lines, doomed, 0, g.open, |lines|);
    InkJoin(Kept(lines, doomed, 0, g.open), Kept(lines, doomed, g.open, |lines|));
    KeptParts(lines, g);
    var inner := Between(lines, g) + Body(lines, g);
    assert Rewritten(lines, g, []) == Front(lines, g) + (inner + Back(lines, g));
    InkJoin(Front(lines, g), inner + Back(lines, g));
  }

  /** replace_guard_with_pragma_once: the same, with one #pragma once where the guard began. */
  lemma ReplaceKeepsLines(lines: seq<Line>)
    requires ReplaceGuard(lines).Changed?
    ensures var g := FindGuard(lines, 0, REPLACER).value;
            Ink(ReplaceGuard(lines).lines) == Ink(Rewritten(lines, g, [PRAGMA_ONCE]))
  {
    hide Kept, Ink, Doomed, IsGuard, FindGuard, Front, Between, Body, Back, HasOnce, InsertionIndex;
    var g := FindGuard(lines, 0, REPLACER).value;
    GuardInside(lines, g);
    var doomed := Doomed(lines, g);
    var kept := Kept(lines, doomed, 0, |lines|);
    var at := InsertionIndex(lines, doomed, g.open, 0, 0);
    var a, b := Kept(lines, doomed, 0, g.open), Kept(lines, doomed, g.open, |lines|);
    var k :| g.define + 1 <= k < g.close && !Skippable(lines[k]);
    DoomedLines(lines, g);
    InsertionIsAtGuard(lines, doomed, g.open, 0, 0, k);
    KeptJoin(lines, doomed, 0, g.open, |lines|);
    assert kept[..at] == a && kept[at..] == b;
    var all := kept[..at] + [PRAGMA_ONCE] + kept[at..];
    TrimStartInk(all);
    TrimEndInk(TrimStart(all));
    KeptParts(lines, g);
    InkJoin(a + [PRAGMA_ONCE], b);
    InkJoin(a, [PRAGMA_ONCE]);
    var inner := Between(lines, g) + Body(lines, g);
    assert Rewritten(lines, g, [PRAGMA_ONCE]) == (Front(lines, g) + [PRAGMA_ONCE]) + (inner + Back(lines, g));
    InkJoin(Front(lines, g) + [PRAGMA_ONCE], inner + Back(lines, g));
    InkJoin(Front(lines, g), [PRAGMA_ONCE]);
  }

  /** The number of #pragma once lines. */
  function OnceCount(lines: seq<Line>): nat {
    if lines == [] then 0 else (if lines[0].kind == Once then 1 else 0) + OnceCount(lines[1..])
  }

  lemma {:induction false} OnceJoin(a: seq<Line>, b: seq<Line>)
    ensures OnceCount(a + b) == OnceCount(a) + OnceCount(b)
  {
    if a == [] {
      assert a + b == b;
    } else {
      assert (a + b)[1..] == a[1..] + b;
      OnceJoin(a[1..], b);
    }
  }

  lemma {:induction false} OnceOfInk(lines: seq<Line>)
    ensures OnceCount(Ink(lines)) == OnceCount(lines)
  {
    if lines != [] {
      OnceOfInk(lines[1..]);
      OnceJoin(if IsBlank(lines[0]) then [] else [lines[0]], Ink(lines[1..]));
    }
  }

  lemma {:induction false} NoOnce(lines: seq<Line>)
    requires forall l | l in lines :: l.kind != Once
    ensures OnceCount(lines) == 0
  {
    if lines != [] {
      assert lines[0] in lines;
      NoOnce(lines[1..]);
    }
  }

  /** A replaced guard leaves exactly one #pragma once. */
  lemma ReplaceAddsOnePragma(lines: seq<Line>)
    requires ReplaceGuard(lines).Changed?
    ensures OnceCount(ReplaceGuard(lines).lines) == 1
  {
    hide Ink, ReplaceGuard, FindGuard, IsGuard;
    Replaced(lines);
    var g := FindGuard(lines, 0, REPLACER).value;
    GuardInside(lines, g);
    var all := Rewritten(lines, g, [PRAGMA_ONCE]);
    ReplaceKeepsLines(lines);
    OnceOfInk(ReplaceGuard(lines).lines);
    OnceOfInk(all);
    var front, rest := Front(lines, g), (Between(lines, g) + Body(lines, g)) + Back(lines, g);
    assert all == (front + [PRAGMA_ONCE]) + rest;
    OnceJoin(front + [PRAGMA_ONCE], rest);
    OnceJoin(front, [PRAGMA_ONCE]);
    NoOnce(front);
    NoOnce(rest);
  }

  lemma Replaced(lines: seq<Line>)
    requires ReplaceGuard(lines).Changed?
    ensures FindGuard(lines, 0, REPLACER).Some? && !HasOnce(lines)
  {
  }

  // ---------------------------------------------------------------------------------------
  // Nesting
  // ---------------------------------------------------------------------------------------

  /** The directives nest (section 6.10.1 of ISO/IEC 9899:2011), however the tests come out. */
  predicate WellNested(lines: seq<Line>) { ShapeAfter(Open([]), lines) == Open([]) }

  lemma {:induction false} ShapedJoin(s: Shape, a: seq<Line>, b: seq<Line>)
    ensures ShapeAfter(s, a + b) == ShapeAfter(ShapeAfter(s, a), b)
    decreases |a|
  {
    hide Reshape;
    if a == [] {
      assert a + b == b;
    } else {
      assert (a + b)[1..] == a[1..] + b;
      ShapedJoin(Reshape(s, a[0]), a[1..], b);
    }
  }

  lemma ShapedOne(s: Shape, l: Line)
    ensures ShapeAfter(s, [l]) == Reshape(s, l)
  {
    assert [l][1..] == [];
  }

  /** A turn on a stack is a turn on the same stack with more below it. */
  lemma TurnOnTop(base: seq<bool>, u: seq<bool>, l: Line)
    requires Reshape(Open(u), l).Open?
    ensures Reshape(Open(base + u), l) == Open(base + Reshape(Open(u), l).lasts)
  {
    if u != [] {
      assert (base + u)[..|base + u| - 1] == base + u[..|u| - 1];
      assert base + (u[..|u| - 1] + [true]) == (base + u[..|u| - 1]) + [true];
    }
    assert base + (u + [false]) == (base + u) + [false];
  }

  lemma {:induction false} ShapedOnTop(base: seq<bool>, u: seq<bool>, lines: seq<Line>)
    requires ShapeAfter(Open(u), lines).Open?
    ensures ShapeAfter(Open(base + u), lines) == Open(base + ShapeAfter(Open(u), lines).lasts)
    decreases |lines|
  {
    hide Reshape;
    if lines != [] {
      if Reshape(Open(u), lines[0]).Bad? { ShapeOfBad(lines[1..]); }
      TurnOnTop(base, u, lines[0]);
      ShapedOnTop(base, Reshape(Open(u), lines[0]).lasts, lines[1..]);
    }
  }

  lemma TurnRises(s: Shape, l: Line)
    requires Reshape(s, l).Open?
    ensures s.Open? && |Reshape(s, l).lasts| == |s.lasts| + Rise(l)
  {
  }

  lemma {:induction false} ShapedRises(s: Shape, lines: seq<Line>)
    requires ShapeAfter(s, lines).Open?
    ensures s.Open? && |ShapeAfter(s, lines).lasts| == |s.lasts| + Level(lines)
    decreases |lines|
  {
    hide Reshape;
    if lines != [] {
      ShapedRises(Reshape(s, lines[0]), lines[1..]);
      TurnRises(s, lines[0]);
    }
  }

  /** The lines inside the guard's conditional. */
  function Inner(lines: seq<Line>, g: Guard): seq<Line>
    requires IsGuard(lines, g)
  {
    lines[g.open + 1..g.close]
  }

  /** The guard's #define does not matter to the shape of its lines. */
  lemma InnerShape(s: Shape, lines: seq<Line>, g: Guard)
    requires IsGuard(lines, g)
    ensures ShapeAfter(s, Inner(lines, g)) == ShapeAfter(s, Between(lines, g) + Body(lines, g))
  {
    hide Reshape;
    assert Inner(lines, g) == Between(lines, g) + ([lines[g.define]] + Body(lines, g));
    ShapedJoin(s, Between(lines, g), [lines[g.define]] + Body(lines, g));
    ShapedJoin(ShapeAfter(s, Between(lines, g)), [lines[g.define]], Body(lines, g));
    ShapedOne(ShapeAfter(s, Between(lines, g)), lines[g.define]);
    ReshapeBlank(ShapeAfter(s, Between(lines, g)), lines[g.define]);
    ShapedJoin(s, Between(lines, g), Body(lines, g));
  }

  /** The shape before, inside and after the guard, in the old lines. */
  lemma OldShape(lines: seq<Line>, g: Guard)
    requires IsGuard(lines, g)
    ensures var front := ShapeAfter(Open([]), Front(lines, g));
            ShapeAfter(Open([]), lines)
            == ShapeAfter(Reshape(ShapeAfter(Reshape(front, lines[g.open]), Inner(lines, g)), lines[g.close]), Back(lines, g))
  {
    hide Reshape;
    var test, end := [lines[g.open]], [lines[g.close]];
    assert lines == Front(lines, g) + (test + (Inner(lines, g) + (end + Back(lines, g))));
    var front := ShapeAfter(Open([]), Front(lines, g));
    ShapedJoin(Open([]), Front(lines, g), test + (Inner(lines, g) + (end + Back(lines, g))));
    ShapedJoin(front, test, Inner(lines, g) + (end + Back(lines, g)));
    ShapedOne(front, lines[g.open]);
    ShapedJoin(Reshape(front, lines[g.open]), Inner(lines, g), end + Back(lines, g));
    var inner := ShapeAfter(Reshape(front, lines[g.open]), Inner(lines, g));
    ShapedJoin(inner, end, Back(lines, g));
    ShapedOne(inner, lines[g.close]);
  }

  /** The same for the rewritten lines. */
  lemma NewShape(lines: seq<Line>, g: Guard, extra: seq<Line>)
    requires IsGuard(lines, g) && forall l | l in extra :: !IsConditional(l)
    ensures ShapeAfter(Open([]), Rewritten(lines, g, extra))
         == ShapeAfter(ShapeAfter(ShapeAfter(Open([]), Front(lines, g)), Inner(lines, g)), Back(lines, g))
  {
    hide Reshape;
    var front, inner := Front(lines, g), Between(lines, g) + Body(lines, g);
    assert Rewritten(lines, g, extra) == front + (extra + (inner + Back(lines, g)));
    var s := ShapeAfter(Open([]), front);
    ShapedJoin(Open([]), front, extra + (inner + Back(lines, g)));
    ShapedJoin(s, extra, inner + Back(lines, g));
    ShapedPlain(s, extra);
    ShapedJoin(s, inner, Back(lines, g));
    InnerShape(s, lines, g);
  }

  lemma {:induction false} ShapedPlain(s: Shape, lines: seq<Line>)
    requires forall l | l in lines :: !IsConditional(l)
    ensures ShapeAfter(s, lines) == s
    decreases |lines|
  {
    hide Reshape;
    if lines != [] {
      assert lines[0] in lines;
      ReshapeBlank(s, lines[0]);
      ShapedPlain(s, lines[1..]);
    }
  }

  /** If the lines inside the guard nest among themselves, the rewritten lines nest exactly when the old ones did. */
  lemma NestedGuardKeepsNesting(lines: seq<Line>, g: Guard, extra: seq<Line>)
    requires IsGuard(lines, g) && forall l | l in extra :: !IsConditional(l)
    requires WellNested(Inner(lines, g))
    ensures WellNested(Rewritten(lines, g, extra)) <==> WellNested(lines)
  {
    hide ShapeAfter, Reshape, IsGuard;
    GuardIsTest(lines, g);
    OldShape(lines, g);
    NewShape(lines, g, extra);
    var front := ShapeAfter(Open([]), Front(lines, g));
    if front.Bad? {
      ShapeOfBad(Inner(lines, g));
      TurnBad(lines[g.open]);
      TurnBad(lines[g.close]);
    } else {
      OpenClose(front.lasts, lines[g.open], lines[g.close]);
      ShapedOnTop(front.lasts, [], Inner(lines, g));
      ShapedOnTop(front.lasts + [false], [], Inner(lines, g));
      assert front.lasts + [] == front.lasts && front.lasts + [false] + [] == front.lasts + [false];
    }
  }

  lemma GuardIsTest(lines: seq<Line>, g: Guard)
    requires IsGuard(lines, g)
    ensures g.open < g.close < |lines| && lines[g.open].kind.If? && lines[g.close].kind == Endif
  {
  }

  lemma TurnBad(l: Line)
    ensures Reshape(Bad, l) == Bad
  {
  }

  lemma OpenClose(lasts: seq<bool>, test: Line, end: Line)
    requires test.kind.If? && end.kind == Endif
    ensures Reshape(Open(lasts), test) == Open(lasts + [false]) && Reshape(Open(lasts + [false]), end) == Open(lasts)
  {
    assert (lasts + [false])[..|lasts|] == lasts;
  }

  /** The inner lines of a guard whose #endif closes it are level. */
  lemma InnerIsLevel(lines: seq<Line>, g: Guard)
    requires IsGuard(lines, g) && Balanced(Between(lines, g))
    ensures Balanced(Inner(lines, g)) && Closes(lines, g.open, g.close)
  {
    hide Level, MatchEndif;
    MatchEndifCloses(lines, g.open, g.define);
    LevelStep(lines, g.open, g.close + 1);
    LevelSplit(lines, g.open + 1, g.close, g.close + 1);
    LevelStep(lines, g.close, g.close + 1);
    NoLevel(lines[g.close + 1..g.close + 1]);
    var inner := Inner(lines, g);
    forall j | 0 <= j <= |inner| ensures Level(inner[..j]) >= 0 {
      LevelStep(lines, g.open, g.open + 1 + j);
      SlicePrefix(lines, g.open + 1, g.close, j);
    }
  }

  lemma SlicePrefix(lines: seq<Line>, a: nat, b: nat, j: nat)
    requires a + j <= b <= |lines|
    ensures lines[a..b][..j] == lines[a..a + j]
  {
  }

  /** No #else or #elif belongs to the conditional around the lines itself. */
  ghost predicate NoOwnBranch(lines: seq<Line>) {
    forall k | 0 <= k < |lines| && IsBranch(lines[k]) :: Level(lines[..k]) != 0
  }

  /** One line of OwnBranches. */
  lemma TurnInside(base: seq<bool>, u: seq<bool>, l: Line)
    requires Reshape(Open(base + u), l).Open? && |u| + Rise(l) >= 0
    ensures Reshape(Open(u), l).Open? <==> !(IsBranch(l) && u == [])
  {
    if u != [] { assert (base + u)[|base + u| - 1] == u[|u| - 1]; }
  }

  /**
   * Balanced lines inside well-nested ones nest among themselves exactly when no #else or #elif
   * reaches below them.
   */
  lemma {:induction false} OwnBranches(base: seq<bool>, u: seq<bool>, lines: seq<Line>)
    requires ShapeAfter(Open(base + u), lines).Open?
    requires forall j | 0 <= j <= |lines| :: |u| + Level(lines[..j]) >= 0
    ensures ShapeAfter(Open(u), lines).Open?
       <==> forall k | 0 <= k < |lines| && IsBranch(lines[k]) :: |u| + Level(lines[..k]) != 0
    decreases |lines|
  {
    hide Reshape, Level;
    if lines != [] {
      var l, rest := lines[0], lines[1..];
      forall j | 0 <= j <= |rest| ensures Level(lines[..j + 1]) == Rise(l) + Level(rest[..j]) {
        LevelStep(lines, 0, j + 1);
        assert lines[0..j + 1] == lines[..j + 1] && lines[0 + 1..j + 1] == rest[..j];
      }
      NoLevel(lines[..0]);
      NoLevel(rest[..0]);
      if Reshape(Open(base + u), l).Bad? { ShapeOfBad(rest); }
      assert |u| + Level(lines[..1]) >= 0;
      TurnInside(base, u, l);
      if Reshape(Open(u), l).Open? {
        var v := Reshape(Open(u), l).lasts;
        TurnOnTop(base, u, l);
        TurnRises(Open(u), l);
        forall j | 0 <= j <= |rest| ensures |v| + Level(rest[..j]) >= 0 {
          assert |u| + Level(lines[..j + 1]) >= 0;
        }
        OwnBranches(base, v, rest);
        if ShapeAfter(Open(v), rest).Open? {
          forall k | 0 <= k < |lines| && IsBranch(lines[k]) ensures |u| + Level(lines[..k]) != 0 {
            if k > 0 { assert rest[k - 1] == lines[k]; }
          }
        } else {
          var k :| 0 <= k < |rest| && IsBranch(rest[k]) && |v| + Level(rest[..k]) == 0;
          assert lines[k + 1] == rest[k] && |u| + Level(lines[..k + 1]) == 0;
        }
      } else {
        ShapeOfBad(rest);
        assert IsBranch(lines[0]) && |u| + Level(lines[..0]) == 0;
      }
    }
  }

  /** No #else belongs to the conditional around the lines itself. */
  ghost predicate NoOwnElse(lines: seq<Line>) {
    forall k | 0 <= k < |lines| && lines[k].kind == Else :: Level(lines[..k]) != 0
  }

  /** The lines behind a guard have an #else or #elif of the conditional around it, depth conditionals further out. */
  predicate BranchFollows(lines: seq<Line>, depth: nat)
    decreases |lines|
  {
    lines != [] &&
    ((depth == 0 && IsBranch(lines[0]))
     || (depth + Rise(lines[0]) >= 0 && BranchFollows(lines[1..], depth + Rise(lines[0]))))
  }

  /** The conditional around the guard can take the guard's own branches: it is open, without an #else before or behind. */
  ghost predicate TakesBranches(lasts: seq<bool>, inner: seq<Line>, back: seq<Line>) {
    lasts != [] && !lasts[|lasts| - 1] && (NoOwnElse(inner) || !BranchFollows(back, 0))
  }

  lemma LevelShift(lines: seq<Line>)
    requires lines != []
    ensures forall j | 0 <= j < |lines| :: Level(lines[..j + 1]) == Rise(lines[0]) + Level(lines[1..][..j])
    ensures Level(lines[..0]) == 0
  {
    NoLevel(lines[..0]);
    forall j | 0 <= j < |lines| ensures Level(lines[..j + 1]) == Rise(lines[0]) + Level(lines[1..][..j]) {
      LevelStep(lines, 0, j + 1);
      assert lines[0..j + 1] == lines[..j + 1] && lines[0 + 1..j + 1] == lines[1..][..j];
    }
  }

  /** One turn above a conditional that stays open. */
  lemma TurnAbove(base: seq<bool>, b: bool, u: seq<bool>, l: Line) returns (c: bool, v: seq<bool>)
    requires Reshape(Open(base + [b] + u), l).Open? && |u| + Rise(l) >= 0
    ensures Reshape(Open(base + [b] + u), l) == Open(base + [c] + v) && |v| == |u| + Rise(l)
    ensures c == (b || (u == [] && l.kind == Else)) && (u == [] && IsBranch(l) ==> !b)
    ensures forall a, d | !(u == [] && IsBranch(l)) :: Reshape(Open(a + [d] + u), l) == Open(a + [d] + v)
  {
    if u == [] {
      assert base + [b] + u == base + [b];
      c, v := b || l.kind == Else, if l.kind.If? then [false] else [];
      TurnOnLast(base, b, l);
      forall a, d | !IsBranch(l) ensures Reshape(Open(a + [d] + u), l) == Open(a + [d] + v) {
        TurnOnLast(a, d, l);
        assert a + [d] + [] == a + [d];
      }
    } else {
      hide Reshape;
      c := b;
      TurnOpen(base + [b], u, l);
      v := Reshape(Open(u), l).lasts;
      TurnOnTop(base + [b], u, l);
      TurnRises(Open(u), l);
      forall a, d ensures Reshape(Open(a + [d] + u), l) == Open(a + [d] + v) { TurnOnTop(a + [d], u, l); }
    }
  }

  lemma TurnOpen(base: seq<bool>, u: seq<bool>, l: Line)
    requires u != [] && Reshape(Open(base + u), l).Open?
    ensures Reshape(Open(u), l).Open?
  {
    assert (base + u)[|base + u| - 1] == u[|u| - 1];
  }

  lemma TurnOnLast(base: seq<bool>, b: bool, l: Line)
    requires l.kind != Endif
    ensures Reshape(Open(base + [b]), l)
         == if l.kind.If? then Open(base + [b] + [false]) else if IsBranch(l) && b then Bad
            else Open(base + [b || l.kind == Else])
  {
    assert (base + [b])[..|base|] == base;
  }

  /** Lines that close no conditional around them: whether that conditional has had its #else afterwards. */
  lemma {:induction false} LastTells(b: bool, u: seq<bool>, lines: seq<Line>)
    requires ShapeAfter(Open([] + [b] + u), lines).Open?
    requires forall j | 0 <= j <= |lines| :: |u| + Level(lines[..j]) >= 0
    ensures var lasts := ShapeAfter(Open([] + [b] + u), lines).lasts;
            && lasts != []
            && (lasts[0] <==> b || exists k | 0 <= k < |lines| && lines[k].kind == Else :: |u| + Level(lines[..k]) == 0)
    decreases |lines|
  {
    hide Reshape, Level;
    if lines != [] {
      var l, rest := lines[0], lines[1..];
      LevelShift(lines);
      if Reshape(Open([] + [b] + u), l).Bad? { ShapeOfBad(rest); }
      assert |u| + Level(lines[..0 + 1]) >= 0;
      NoLevel(rest[..0]);
      var c, v := TurnAbove([], b, u, l);
      forall j | 0 <= j <= |rest| ensures |v| + Level(rest[..j]) >= 0 {
        assert |u| + Level(lines[..j + 1]) >= 0;
      }
      LastTells(c, v, rest);
      if k :| 0 <= k < |rest| && rest[k].kind == Else && |v| + Level(rest[..k]) == 0 {
        assert lines[k + 1] == rest[k] && |u| + Level(lines[..k + 1]) == 0;
      }
      if k :| 0 <= k < |lines| && lines[k].kind == Else && |u| + Level(lines[..k]) == 0 {
        if k == 0 { assert c; } else { assert rest[k - 1] == lines[k] && |v| + Level(rest[..k - 1]) == 0; }
      }
    }
  }

  /** After an #else no branch of the same conditional may follow. */
  lemma {:induction false} LastBlocks(base: seq<bool>, u: seq<bool>, lines: seq<Line>, k: nat)
    requires k < |lines| && IsBranch(lines[k]) && |u| + Level(lines[..k]) == 0
    requires forall j | 0 <= j <= k :: |u| + Level(lines[..j]) >= 0
    ensures ShapeAfter(Open(base + [true] + u), lines).Bad?
    decreases k
  {
    hide Level;
    var l, rest := lines[0], lines[1..];
    LevelShift(lines);
    if k == 0 {
      assert u == [] && base + [true] + u == base + [true];
      ShapeOfBad(rest);
    } else if Reshape(Open(base + [true] + u), l).Bad? {
      ShapeOfBad(rest);
    } else {
      hide Reshape;
      NoLevel(rest[..0]);
      assert |u| + Level(lines[..0 + 1]) >= 0;
      var c, v := TurnAbove(base, true, u, l);
      forall j | 0 <= j <= k - 1 ensures |v| + Level(rest[..j]) >= 0 {
        assert |u| + Level(lines[..j + 1]) >= 0;
      }
      assert |u| + Level(lines[..(k - 1) + 1]) == 0 && rest[k - 1] == lines[k];
      LastBlocks(base, v, rest, k - 1);
    }
  }

  /** An #else before them matters to lines that nest without it exactly when they have a branch of that conditional. */
  lemma {:induction false} ElseBefore(base: seq<bool>, u: seq<bool>, lines: seq<Line>)
    requires ShapeAfter(Open(base + [false] + u), lines) == Open([])
    ensures ShapeAfter(Open(base + [true] + u), lines) == Open([]) <==> !BranchFollows(lines, |u|)
    decreases |lines|
  {
    hide Reshape;
    OneLeft(base, u);
    if lines != [] {
      var l, rest := lines[0], lines[1..];
      if Reshape(Open(base + [false] + u), l).Bad? { ShapeOfBad(rest); }
      if u == [] && IsBranch(l) {
        BranchAfterElse(base, u, l);
        ShapeOfBad(rest);
      } else if |u| + Rise(l) >= 0 {
        var c, v := TurnAbove(base, false, u, l);
        assert Reshape(Open(base + [true] + u), l) == Open(base + [true] + v);
        ElseBefore(base, v, rest);
      } else {
        LastCloses(base, u, l);
      }
    }
  }

  lemma OneLeft(base: seq<bool>, u: seq<bool>)
    ensures base + [false] + u != []
  {
  }

  lemma BranchAfterElse(base: seq<bool>, u: seq<bool>, l: Line)
    requires u == [] && IsBranch(l)
    ensures Reshape(Open(base + [true] + u), l) == Bad
  {
    assert base + [true] + u == base + [true];
  }

  lemma LastCloses(base: seq<bool>, u: seq<bool>, l: Line)
    requires |u| + Rise(l) < 0
    ensures Reshape(Open(base + [true] + u), l) == Reshape(Open(base + [false] + u), l)
  {
    assert base + [true] + u == base + [true] && base + [false] + u == base + [false];
    assert (base + [true])[..|base|] == base == (base + [false])[..|base|];
  }

  /** What the lines inside the guard do to the conditional around it, when they have branches of their own. */
  lemma BranchesInside(lasts: seq<bool>, inner: seq<Line>, back: seq<Line>)
    requires ShapeAfter(Open(lasts + [false]), inner).Open? && Balanced(inner) && !NoOwnBranch(inner)
    requires ShapeAfter(Open(lasts), back) == Open([])
    ensures ShapeAfter(ShapeAfter(Open(lasts), inner), back) == Open([]) <==> TakesBranches(lasts, inner, back)
  {
    hide Reshape, Level;
    var k :| 0 <= k < |inner| && IsBranch(inner[k]) && Level(inner[..k]) == 0;
    assert inner[..|inner|] == inner;
    if lasts == [] {
      assert lasts + [false] == [false] + [];
      OwnBranches([false], [], inner);
      ShapeOfBad(back);
    } else {
      var n := |lasts| - 1;
      var base, top := lasts[..n], lasts[n];
      assert lasts == base + [top] && base + [top] + [] == lasts;
      if top {
        LastBlocks(base, [], inner, k);
        ShapeOfBad(back);
      } else {
        OwnBranches(lasts, [false], inner);
        ShapedRises(Open([false]), inner);
        assert [] + [false] + [] == [false];
        LastTells(false, [], inner);
        ShapedOnTop(base, [false], inner);
        var x := ShapeAfter(Open([false]), inner).lasts[0];
        assert ShapeAfter(Open([false]), inner).lasts == [x] && base + [x] + [] == base + [x];
        if x { ElseBefore(base, [], back); }
      }
    }
  }

  /**
   * Guard rewriting keeps structure. When the directives nest and the lines between the test and its
   * #define are balanced, the #endif taken out is the one that closes the test, and the result nests
   * exactly when the guard has no #else or #elif of its own, or the conditional around it can take them.
   */
  lemma GuardKeepsStructure(lines: seq<Line>, g: Guard, extra: seq<Line>)
    requires IsGuard(lines, g) && forall l | l in extra :: !IsConditional(l)
    requires WellNested(lines) && Balanced(Between(lines, g))
    ensures Closes(lines, g.open, g.close) && ShapeAfter(Open([]), Front(lines, g)).Open?
    ensures WellNested(Rewritten(lines, g, extra)) <==>
            NoOwnBranch(Inner(lines, g))
            || TakesBranches(ShapeAfter(Open([]), Front(lines, g)).lasts, Inner(lines, g), Back(lines, g))
  {
    hide Reshape, IsGuard, Level, ShapeAfter;
    InnerIsLevel(lines, g);
    OldShape(lines, g);
    NewShape(lines, g, extra);
    GuardIsTest(lines, g);
    var front, inner := ShapeAfter(Open([]), Front(lines, g)), Inner(lines, g);
    if front.Bad? {
      TurnBad(lines[g.open]);
      ShapeOfBad(inner);
      TurnBad(lines[g.close]);
      ShapeOfBad(Back(lines, g));
    }
    OpenClose(front.lasts, lines[g.open], lines[g.close]);
    var base := front.lasts + [false];
    if ShapeAfter(Open(base), inner).Bad? {
      TurnBad(lines[g.close]);
      ShapeOfBad(Back(lines, g));
    }
    assert base + [] == base;
    OwnBranches(base, [], inner);
    if NoOwnBranch(inner) {
      ShapedRises(Open([]), inner);
      NestedGuardKeepsNesting(lines, g, extra);
    } else {
      InnerCloses(front.lasts, inner, lines[g.close]);
      BranchesInside(front.lasts, inner, Back(lines, g));
    }
  }

  /** Behind the inner lines the guard's #endif closes the guard's test. */
  lemma InnerCloses(lasts: seq<bool>, inner: seq<Line>, end: Line)
    requires ShapeAfter(Open(lasts + [false]), inner).Open? && Balanced(inner) && end.kind == Endif
    ensures Reshape(ShapeAfter(Open(lasts + [false]), inner), end) == Open(lasts)
  {
    hide Level, ShapeAfter;
    assert inner[..|inner|] == inner;
    OwnBranches(lasts, [false], inner);
    ShapedRises(Open([false]), inner);
    ShapedOnTop(lasts, [false], inner);
    var x := ShapeAfter(Open([false]), inner).lasts;
    assert (lasts + x)[..|lasts|] == lasts;
  }

  lemma NestingOfInk(a: seq<Line>, b: seq<Line>)
    requires Ink(a) == Ink(b)
    ensures WellNested(a) <==> WellNested(b)
  {
    ShapeOfInk(Open([]), a);
    ShapeOfInk(Open([]), b);
  }

  /** No directive sits between the guard's test and its #define. */
  ghost predicate PlainBetween(lines: seq<Line>, g: Guard)
    requires IsGuard(lines, g)
  {
    forall l | l in Between(lines, g) :: !IsConditional(l)
  }

  /** The structure theorem for remove_guard_from_text. */
  lemma RemoveKeepsStructure(lines: seq<Line>)
    requires RemoveGuard(lines).Changed? && WellNested(lines)
    requires PlainBetween(lines, FindGuard(lines, 0, REMOVER).value)
    ensures var g, result := FindGuard(lines, 0, REMOVER).value, RemoveGuard(lines).lines;
            && Closes(lines, g.open, g.close) && ShapeAfter(Open([]), Front(lines, g)).Open?
            && (WellNested(result) <==>
                  NoOwnBranch(Inner(lines, g))
                  || TakesBranches(ShapeAfter(Open([]), Front(lines, g)).lasts, Inner(lines, g), Back(lines, g)))
  {
    hide RemoveGuard, IsGuard, ShapeAfter, Level, NoOwnBranch, TakesBranches;
    Removed(lines);
    var g := FindGuard(lines, 0, REMOVER).value;
    GuardInside(lines, g);
    PlainIsBalanced(Between(lines, g));
    GuardKeepsStructure(lines, g, []);
    RemoveKeepsLines(lines);
    NestingOfInk(RemoveGuard(lines).lines, Rewritten(lines, g, []));
  }

  lemma Removed(lines: seq<Line>)
    requires RemoveGuard(lines).Changed?
    ensures FindGuard(lines, 0, REMOVER).Some?
  {
  }

  /** The structure theorem for replace_guard_with_pragma_once. */
  lemma ReplaceKeepsStructure(lines: seq<Line>)
    requires ReplaceGuard(lines).Changed? && WellNested(lines)
    requires PlainBetween(lines, FindGuard(lines, 0, REPLACER).value)
    ensures var g, result := FindGuard(lines, 0, REPLACER).value, ReplaceGuard(lines).lines;
            && Closes(lines, g.open, g.close) && ShapeAfter(Open([]), Front(lines, g)).Open?
            && (WellNested(result) <==>
                  NoOwnBranch(Inner(lines, g))
                  || TakesBranches(ShapeAfter(Open([]), Front(lines, g)).lasts, Inner(lines, g), Back(lines, g)))
  {
    hide ReplaceGuard, IsGuard, ShapeAfter, Level, NoOwnBranch, TakesBranches;
    Replaced(lines);
    var g := FindGuard(lines, 0, REPLACER).value;
    GuardInside(lines, g);
    PlainIsBalanced(Between(lines, g));
    GuardKeepsStructure(lines, g, [PRAGMA_ONCE]);
    ReplaceKeepsLines(lines);
    NestingOfInk(ReplaceGuard(lines).lines, Rewritten(lines, g, [PRAGMA_ONCE]));
  }

  // ---------------------------------------------------------------------------------------
  // Where structure is lost
  // ---------------------------------------------------------------------------------------

  const A_TEST := Line(If(NotDefined("A")), false, "#ifndef A")
  const A_DEFINE := Line(Define("A"), false, "#define A")
  const CODE := Line(Plain, false, "int x;")
  const ELSE := Line(Else, false, "#else")
  const END := Line(Endif, false, "#endif")
  const COMMENTED_END := Line(Endif, true, "#endif /* A */")
  const OTHER := Line(If(OtherTest), false, "#if B")

  /** A guard with an #else of its own loses its nesting. */
  lemma OwnElseBreaks()
    ensures var lines := [PRAGMA_ONCE, A_TEST, A_DEFINE, CODE, ELSE, CODE, END];
            && WellNested(lines)
            && RemoveGuard(lines).Changed? && !WellNested(RemoveGuard(lines).lines)
  {
    hide FindGuard, RemoveGuard, WellNested;
    var lines := [PRAGMA_ONCE, A_TEST, A_DEFINE, CODE, ELSE, CODE, END];
    Nest7(lines);
    Found7(lines);
    Outside7(lines);
    RemoveKeepsStructure(lines);
  }

  lemma Found7(lines: seq<Line>)
    requires lines == [PRAGMA_ONCE, A_TEST, A_DEFINE, CODE, ELSE, CODE, END]
    ensures FindGuard(lines, 0, REMOVER) == Some(Guard(1, 2, "A", 6)) && RemoveGuard(lines).Changed?
  {
    hide Kept, Doomed;
    assert MatchEndif(lines, 4, 1) == MatchEndif(lines, 5, 1) == MatchEndif(lines, 6, 1) == Some(6);
    assert FindDefine(lines, 2, 6, "A") == Some(2);
    assert GuardAt(lines, 1, REMOVER) == Some(Guard(1, 2, "A", 6));
    assert FindGuard(lines, 0, REMOVER) == FindGuard(lines, 1, REMOVER) == Some(Guard(1, 2, "A", 6));
    assert lines[0] in lines && HasOnce(lines);
    assert !Skippable(lines[3]);
  }

  lemma Outside7(lines: seq<Line>)
    requires lines == [PRAGMA_ONCE, A_TEST, A_DEFINE, CODE, ELSE, CODE, END] && IsGuard(lines, Guard(1, 2, "A", 6))
    ensures var g := Guard(1, 2, "A", 6);
            ShapeAfter(Open([]), Front(lines, g)) == Open([]) && PlainBetween(lines, g) && !NoOwnBranch(Inner(lines, g))
  {
    hide ShapeAfter, Level;
    var g := Guard(1, 2, "A", 6);
    assert Front(lines, g) == [PRAGMA_ONCE];
    ShapedPlain(Open([]), Front(lines, g));
    var inner := Inner(lines, g);
    assert inner == [A_DEFINE, CODE, ELSE, CODE];
    assert IsBranch(inner[2]) && inner[..2] == [A_DEFINE, CODE];
    PlainIsLevel([A_DEFINE, CODE]);
  }

  lemma Nest7(lines: seq<Line>)
    requires lines == [PRAGMA_ONCE, A_TEST, A_DEFINE, CODE, ELSE, CODE, END]
    ensures WellNested(lines)
  {
    var s := Open([false]);
    assert Reshape(Open([]), A_TEST) == s && Reshape(s, ELSE) == Open([true]) && Reshape(Open([true]), END) == Open([]);
    assert lines[1..][1..] == lines[2..] && lines[2..][1..] == lines[3..] && lines[3..][1..] == lines[4..];
    assert lines[4..][1..] == lines[5..] && lines[5..][1..] == lines[6..] && lines[6..][1..] == [];
    assert ShapeAfter(Open([]), lines) == ShapeAfter(Open([]), lines[1..]) == ShapeAfter(s, lines[2..]);
    assert ShapeAfter(s, lines[2..]) == ShapeAfter(s, lines[3..]) == ShapeAfter(s, lines[4..]);
    assert ShapeAfter(s, lines[4..]) == ShapeAfter(Open([true]), lines[5..]) == ShapeAfter(Open([true]), lines[6..]) == Open([]);
  }

  /** An #endif that ends in a comment is skipped on the way to the #define; then the wrong #endif is taken out. */
  lemma CommentedEndifMisleads()
    ensures var lines := [OTHER, A_TEST, COMMENTED_END, A_DEFINE, CODE, END];
            && FindGuard(lines, 0, REPLACER) == Some(Guard(1, 3, "A", 5))
            && !Closes(lines, 1, 5) && Closes(lines, 0, 5)
  {
    var lines := [OTHER, A_TEST, COMMENTED_END, A_DEFINE, CODE, END];
    assert MatchEndif(lines, 4, 1) == MatchEndif(lines, 5, 1) == Some(5);
    assert FindDefine(lines, 2, 5, "A") == FindDefine(lines, 3, 5, "A") == Some(3);
    assert GuardAt(lines, 1, REPLACER) == Some(Guard(1, 3, "A", 5));
    assert FindGuard(lines, 0, REPLACER) == FindGuard(lines, 1, REPLACER) == Some(Guard(1, 3, "A", 5));
    NoLevel(lines[6..6]);
    LevelStep(lines, 5, 6);
    LevelStep(lines, 4, 6);
    LevelStep(lines, 3, 6);
    LevelStep(lines, 2, 6);
    LevelStep(lines, 1, 6);
    LevelStep(lines, 0, 6);
    forall j | 0 < j <= 5 ensures Level(lines[0..j]) > 0 {
      LevelSplit(lines, 0, j, 6);
      if j == 5 { LevelStep(lines, 5, 6); }
    }
    LevelSplit(lines, 1, 3, 6);
  }

  // ---------------------------------------------------------------------------------------
  // Meaning
  // ---------------------------------------------------------------------------------------

  /** The old lines, with extra ones before the guard and without the guard's #define. */
  function Undefined(lines: seq<Line>, g: Guard, extra: seq<Line>): seq<Line>
    requires IsGuard(lines, g)
  {
    Front(lines, g) + extra
    + ([lines[g.open]] + (Between(lines, g) + Body(lines, g)) + [lines[g.close]])
    + Back(lines, g)
  }

  /** The guard's test is true where it stands behind the front of the header and the extra lines. */
  predicate TestHolds(p: Pass, lines: seq<Line>, g: Guard, extra: seq<Line>, truth: Tests)
    requires IsGuard(lines, g)
  {
    var q := Run(p, Front(lines, g) + extra, truth);
    q.Pass? ==> truth(q.out, lines[g.open])
  }

  /**
   * The first inclusion of a header means the same without its guard: when the guard's test holds, the
   * rewritten lines let through what the old lines let through, apart from the guard's #define.
   */
  lemma GuardKeepsMeaning(p: Pass, lines: seq<Line>, g: Guard, extra: seq<Line>, truth: Tests)
    requires IsGuard(lines, g) && WellNested(Inner(lines, g)) && TestHolds(p, lines, g, extra, truth)
    ensures Run(p, Rewritten(lines, g, extra), truth) == Run(p, Undefined(lines, g, extra), truth)
  {
    hide Step, IsGuard, ShapeAfter;
    GuardInside(lines, g);
    GuardIsTest(lines, g);
    var front, inner := Front(lines, g) + extra, Between(lines, g) + Body(lines, g);
    InnerShape(Open([]), lines, g);
    var q := Run(p, front, truth);
    Unwrap(q, lines[g.open], inner, lines[g.close], truth);
    RunJoin(p, front, inner, truth);
    RunJoin(p, front + inner, Back(lines, g), truth);
    var wrapped := [lines[g.open]] + inner + [lines[g.close]];
    RunJoin(p, front, wrapped, truth);
    RunJoin(p, front + wrapped, Back(lines, g), truth);
  }

  lemma RunOfInk(p: Pass, a: seq<Line>, b: seq<Line>, truth: Tests)
    requires Ink(a) == Ink(b)
    ensures Run(p, a, truth) == Run(p, b, truth)
  {
    RunInk(p, a, truth);
    RunInk(p, b, truth);
  }

  /** The meaning theorem for both scripts. */
  lemma RewritersKeepMeaning(lines: seq<Line>, truth: Tests)
    ensures RemoveGuard(lines).Changed? ==>
              var g := FindGuard(lines, 0, REMOVER).value;
              (WellNested(Inner(lines, g)) && TestHolds(START, lines, g, [], truth) ==>
                 Run(START, RemoveGuard(lines).lines, truth) == Run(START, Undefined(lines, g, []), truth))
    ensures ReplaceGuard(lines).Changed? ==>
              var g := FindGuard(lines, 0, REPLACER).value;
              (WellNested(Inner(lines, g)) && TestHolds(START, lines, g, [PRAGMA_ONCE], truth) ==>
                 Run(START, ReplaceGuard(lines).lines, truth) == Run(START, Undefined(lines, g, [PRAGMA_ONCE]), truth))
  {
    hide RemoveGuard, ReplaceGuard, WellNested, Undefined, Rewritten, IsGuard, Run, TestHolds;
    if RemoveGuard(lines).Changed? {
      Removed(lines);
      var g := FindGuard(lines, 0, REMOVER).value;
      GuardInside(lines, g);
      RemoveKeepsLines(lines);
      RunOfInk(START, RemoveGuard(lines).lines, Rewritten(lines, g, []), truth);
      if WellNested(Inner(lines, g)) && TestHolds(START, lines, g, [], truth) { GuardKeepsMeaning(START, lines, g, [], truth); }
    }
    if ReplaceGuard(lines).Changed? {
      Replaced(lines);
      var g := FindGuard(lines, 0, REPLACER).value;
      GuardInside(lines, g);
      ReplaceKeepsLines(lines);
      RunOfInk(START, ReplaceGuard(lines).lines, Rewritten(lines, g, [PRAGMA_ONCE]), truth);
      if WellNested(Inner(lines, g)) && TestHolds(START, lines, g, [PRAGMA_ONCE], truth) {
        GuardKeepsMeaning(START, lines, g, [PRAGMA_ONCE], truth);
      }
    }
  }
}
