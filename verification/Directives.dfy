/**
 * Lines of a C header as the scripts under scripts/cpp classify them, and conditional inclusion
 * (ISO/IEC 9899:2011, section 6.10.1).
 */
module Directives {
  /** A test of #if, #ifdef or #ifndef: the two forms the scripts look for, and all others. */
  datatype Test = NotDefined(macro: string) | MscVer | OtherTest

  datatype Kind =
    | Blank
    | If(test: Test)
    | Elif
    | Else
    | Endif
    | Define(macro: string)
    | Once
    | Plain

  /** A line. A directive may also look like a comment: is_comment_or_blank takes every line that ends in a comment. */
  datatype Line = Line(kind: Kind, comment: bool, text: string)

  const PRAGMA_ONCE := Line(Once, false, "#pragma once")
  const EMPTY_LINE := Line(Blank, false, "")

  predicate IsBlank(l: Line) { l.kind == Blank }

  predicate IsConditional(l: Line) { l.kind.If? || l.kind.Elif? || l.kind.Else? || l.kind.Endif? }

  /** The lines that are not blank. */
  function Ink(lines: seq<Line>): seq<Line> {
    if lines == [] then [] else (if IsBlank(lines[0]) then [] else [lines[0]]) + Ink(lines[1..])
  }

  lemma {:induction false} InkJoin(a: seq<Line>, b: seq<Line>)
    ensures Ink(a + b) == Ink(a) + Ink(b)
  {
    if a == [] {
      assert a + b == b;
    } else {
      assert (a + b)[1..] == a[1..] + b;
      InkJoin(a[1..], b);
    }
  }

  lemma {:induction false} InkOfBlanks(a: seq<Line>)
    requires forall l | l in a :: IsBlank(l)
    ensures Ink(a) == []
  {
    if a != [] { InkOfBlanks(a[1..]); }
  }

  // ---------------------------------------------------------------------------------------
  // Conditional inclusion
  // ---------------------------------------------------------------------------------------

  /**
   * An open conditional: whether the group around it is processed, whether its current group is,
   * whether one of its tests was true, and whether its #else came.
   */
  datatype Frame = Frame(outer: bool, live: bool, taken: bool, last: bool)

  /** The preprocessor between two lines: the open conditionals and the lines it let through. Broken after a bad directive. */
  datatype Pass = Pass(stack: seq<Frame>, out: seq<Line>) | Broken

  const START := Pass([], [])

  predicate Live(stack: seq<Frame>) { stack == [] || stack[|stack| - 1].live }

  function Pop(stack: seq<Frame>): seq<Frame>
    requires stack != []
  {
    stack[..|stack| - 1]
  }

  /** How a test comes out behind the lines let through so far. */
  type Tests = (seq<Line>, Line) -> bool

  /** One line. */
  function Step(p: Pass, l: Line, truth: Tests): Pass {
    if p.Broken? then Broken
    else
      var on := truth(p.out, l);
      match l.kind
      case Blank => p
      case If(_) => Pass(p.stack + [Frame(Live(p.stack), Live(p.stack) && on, on, false)], p.out)
      case Elif =>
        if p.stack == [] || p.stack[|p.stack| - 1].last then Broken
        else
          var f := p.stack[|p.stack| - 1];
          Pass(Pop(p.stack) + [Frame(f.outer, f.outer && !f.taken && on, f.taken || on, false)], p.out)
      case Else =>
        if p.stack == [] || p.stack[|p.stack| - 1].last then Broken
        else
          var f := p.stack[|p.stack| - 1];
          Pass(Pop(p.stack) + [Frame(f.outer, f.outer && !f.taken, true, true)], p.out)
      case Endif => if p.stack == [] then Broken else Pass(Pop(p.stack), p.out)
      case _ => if Live(p.stack) then Pass(p.stack, p.out + [l]) else p
  }

  function Run(p: Pass, lines: seq<Line>, truth: Tests): Pass
    decreases |lines|
  {
    if lines == [] then p else Run(Step(p, lines[0], truth), lines[1..], truth)
  }

  /** The conditionals of the lines nest properly. */
  predicate Nests(lines: seq<Line>, truth: Tests) {
    Run(START, lines, truth).Pass? && Run(START, lines, truth).stack == []
  }

  lemma {:induction false} RunJoin(p: Pass, a: seq<Line>, b: seq<Line>, truth: Tests)
    ensures Run(p, a + b, truth) == Run(Run(p, a, truth), b, truth)
    decreases |a|
  {
    hide Step;
    if a == [] {
      assert a + b == b;
    } else {
      assert (a + b)[1..] == a[1..] + b;
      RunJoin(Step(p, a[0], truth), a[1..], b, truth);
    }
  }

  lemma {:induction false} RunBroken(lines: seq<Line>, truth: Tests)
    ensures Run(Broken, lines, truth) == Broken
  {
    if lines != [] { RunBroken(lines[1..], truth); }
  }

  /** Blank lines do nothing. */
  lemma {:induction false} RunInk(p: Pass, lines: seq<Line>, truth: Tests)
    ensures Run(p, Ink(lines), truth) == Run(p, lines, truth)
    decreases |lines|
  {
    hide Step;
    if lines != [] {
      StepBlank(p, lines[0], truth);
      if IsBlank(lines[0]) {
        RunInk(p, lines[1..], truth);
        assert Ink(lines) == Ink(lines[1..]);
      } else {
        RunInk(Step(p, lines[0], truth), lines[1..], truth);
        assert Ink(lines)[0] == lines[0] && ([lines[0]] + Ink(lines[1..]))[1..] == Ink(lines[1..]);
      }
    }
  }

  lemma StepBlank(p: Pass, l: Line, truth: Tests)
    ensures IsBlank(l) ==> Step(p, l, truth) == p
  {
  }

  lemma RunOne(p: Pass, l: Line, truth: Tests)
    ensures Run(p, [l], truth) == Step(p, l, truth)
  {
    assert [l][1..] == [];
  }

  // ---------------------------------------------------------------------------------------
  // Levels
  // ---------------------------------------------------------------------------------------

  function Rise(l: Line): int { if l.kind.If? then 1 else if l.kind.Endif? then -1 else 0 }

  /** How many more conditionals the lines open than they close. */
  function Level(lines: seq<Line>): int {
    if lines == [] then 0 else Rise(lines[0]) + Level(lines[1..])
  }

  lemma {:induction false} LevelJoin(a: seq<Line>, b: seq<Line>)
    ensures Level(a + b) == Level(a) + Level(b)
  {
    if a == [] {
      assert a + b == b;
    } else {
      assert (a + b)[1..] == a[1..] + b;
      LevelJoin(a[1..], b);
    }
  }

  // ---------------------------------------------------------------------------------------
  // Nesting without the tests
  // ---------------------------------------------------------------------------------------

  predicate IsBranch(l: Line) { l.kind.Elif? || l.kind.Else? }

  /** For each open conditional, whether its #else came; Bad after a directive out of place. */
  datatype Shape = Open(lasts: seq<bool>) | Bad

  function Reshape(s: Shape, l: Line): Shape {
    if s.Bad? then Bad
    else
      match l.kind
      case If(_) => Open(s.lasts + [false])
      case Elif => if s.lasts == [] || s.lasts[|s.lasts| - 1] then Bad else s
      case Else =>
        if s.lasts == [] || s.lasts[|s.lasts| - 1] then Bad else Open(s.lasts[..|s.lasts| - 1] + [true])
      case Endif => if s.lasts == [] then Bad else Open(s.lasts[..|s.lasts| - 1])
      case _ => s
  }

  function ShapeAfter(s: Shape, lines: seq<Line>): Shape
    decreases |lines|
  {
    if lines == [] then s else ShapeAfter(Reshape(s, lines[0]), lines[1..])
  }

  function Lasts(u: seq<Frame>): (r: seq<bool>)
    ensures |r| == |u|
  {
    seq(|u|, i requires 0 <= i < |u| => u[i].last)
  }

  function ShapeOf(p: Pass): Shape {
    match p
    case Broken => Bad
    case Pass(stack, _) => Open(Lasts(stack))
  }

  lemma ShapeStep(p: Pass, l: Line, truth: Tests)
    ensures ShapeOf(Step(p, l, truth)) == Reshape(ShapeOf(p), l)
  {
  }

  lemma {:induction false} ShapeOfRun(p: Pass, lines: seq<Line>, truth: Tests)
    ensures ShapeOf(Run(p, lines, truth)) == ShapeAfter(ShapeOf(p), lines)
    decreases |lines|
  {
    hide Step, Reshape, ShapeOf;
    if lines != [] {
      ShapeStep(p, lines[0], truth);
      ShapeOfRun(Step(p, lines[0], truth), lines[1..], truth);
    }
  }

  lemma {:induction false} ShapeOfInk(s: Shape, lines: seq<Line>)
    ensures ShapeAfter(s, Ink(lines)) == ShapeAfter(s, lines)
    decreases |lines|
  {
    hide Reshape;
    if lines != [] {
      ReshapeBlank(s, lines[0]);
      if IsBlank(lines[0]) {
        ShapeOfInk(s, lines[1..]);
        assert Ink(lines) == Ink(lines[1..]);
      } else {
        ShapeOfInk(Reshape(s, lines[0]), lines[1..]);
        assert Ink(lines)[0] == lines[0] && Ink(lines)[1..] == Ink(lines[1..]);
      }
    }
  }

  lemma ReshapeBlank(s: Shape, l: Line)
    ensures !IsConditional(l) ==> Reshape(s, l) == s
  {
  }

  // ---------------------------------------------------------------------------------------
  // Nested text inside other text
  // ---------------------------------------------------------------------------------------

  /** Conditionals in a group that is not processed. */
  predicate Dead(u: seq<Frame>) { forall f | f in u :: !f.outer && !f.live }

  lemma LastsPush(u: seq<Frame>, f: Frame)
    ensures Lasts(u + [f]) == Lasts(u) + [f.last]
    ensures Dead(u) && !f.outer && !f.live ==> Dead(u + [f])
  {
  }

  lemma LastsPop(u: seq<Frame>)
    requires u != []
    ensures Lasts(u) != [] && Lasts(Pop(u)) == Lasts(u)[..|Lasts(u)| - 1] && Lasts(u)[|Lasts(u)| - 1] == u[|u| - 1].last
    ensures Dead(u) ==> Dead(Pop(u)) && !u[|u| - 1].outer && !u[|u| - 1].live
  {
  }

  lemma TopOf(a: seq<Frame>, u: seq<Frame>)
    ensures u != [] ==>
              && a + u != [] && (a + u)[|a + u| - 1] == u[|u| - 1] && Pop(a + u) == a + Pop(u)
              && Live(a + u) == u[|u| - 1].live
    ensures u == [] ==> a + u == a
    ensures forall f :: (a + u) + [f] == a + (u + [f])
    ensures u != [] ==> forall f :: (a + Pop(u)) + [f] == a + (Pop(u) + [f])
  {
  }

  /** The conditionals a text opens above those around it, and what is let through, after line l. */
  function Above(live: bool, u: seq<Frame>, out: seq<Line>, l: Line, truth: Tests): Pass {
    var now := if u == [] then live else u[|u| - 1].live;
    match l.kind
    case If(_) => Pass(u + [Frame(now, now && truth(out, l), truth(out, l), false)], out)
    case Elif =>
      if u == [] then Broken
      else
        var f := u[|u| - 1];
        Pass(Pop(u) + [Frame(f.outer, f.outer && !f.taken && truth(out, l), f.taken || truth(out, l), false)], out)
    case Else =>
      if u == [] then Broken else Pass(Pop(u) + [Frame(u[|u| - 1].outer, u[|u| - 1].outer && !u[|u| - 1].taken, true, true)], out)
    case Endif => if u == [] then Broken else Pass(Pop(u), out)
    case _ => Pass(u, if now && !IsBlank(l) then out + [l] else out)
  }

  lemma AboveShape(live: bool, u: seq<Frame>, out: seq<Line>, l: Line, truth: Tests)
    requires Reshape(Open(Lasts(u)), l).Open?
    ensures Above(live, u, out, l, truth).Pass?
    ensures Reshape(Open(Lasts(u)), l) == Open(Lasts(Above(live, u, out, l, truth).stack))
    ensures !live && Dead(u) ==> Above(live, u, out, l, truth).out == out && Dead(Above(live, u, out, l, truth).stack)
  {
    var v := Above(live, u, out, l, truth);
    hide Dead, Lasts, Pop;
    if u != [] { LastsPop(u); }
    if l.kind.If? {
      LastsPush(u, v.stack[|v.stack| - 1]);
    } else if l.kind.Elif? || l.kind.Else? {
      LastsPush(Pop(u), v.stack[|v.stack| - 1]);
    }
  }

  /** What a text does above other conditionals depends on whether they are processed, and on nothing else of them. */
  lemma StepAbove(a: seq<Frame>, u: seq<Frame>, out: seq<Line>, l: Line, truth: Tests)
    requires Reshape(Open(Lasts(u)), l).Open?
    ensures var v := Above(Live(a), u, out, l, truth);
            v.Pass? && Step(Pass(a + u, out), l, truth) == Pass(a + v.stack, v.out)
  {
    hide Live, Pop, Dead;
    TopOf(a, u);
  }

  /** A text above two stacks that are both processed, or both not. */
  lemma {:induction false} RunAbove(a: seq<Frame>, b: seq<Frame>, u: seq<Frame>, out: seq<Line>, lines: seq<Line>, truth: Tests)
    returns (v: seq<Frame>, more: seq<Line>)
    requires Live(a) == Live(b) && ShapeAfter(Open(Lasts(u)), lines).Open?
    ensures ShapeAfter(Open(Lasts(u)), lines) == Open(Lasts(v))
    ensures Run(Pass(a + u, out), lines, truth) == Pass(a + v, more)
    ensures Run(Pass(b + u, out), lines, truth) == Pass(b + v, more)
    ensures !Live(a) && Dead(u) ==> more == out
    decreases |lines|
  {
    hide Step, Above, Live, Dead, Reshape, Lasts;
    if lines == [] {
      v, more := u, out;
    } else {
      if Reshape(Open(Lasts(u)), lines[0]).Bad? { ShapeOfBad(lines[1..]); }
      AboveShape(Live(a), u, out, lines[0], truth);
      StepAbove(a, u, out, lines[0], truth);
      StepAbove(b, u, out, lines[0], truth);
      var next := Above(Live(a), u, out, lines[0], truth);
      v, more := RunAbove(a, b, next.stack, next.out, lines[1..], truth);
    }
  }

  lemma {:induction false} ShapeOfBad(lines: seq<Line>)
    ensures ShapeAfter(Bad, lines) == Bad
  {
    if lines != [] { ShapeOfBad(lines[1..]); }
  }

  /** A nested text leaves the conditionals around it alone; where they are not processed it does nothing. */
  lemma NestedText(a: seq<Frame>, b: seq<Frame>, out: seq<Line>, lines: seq<Line>, truth: Tests) returns (more: seq<Line>)
    requires Live(a) == Live(b) && ShapeAfter(Open([]), lines) == Open([])
    ensures Run(Pass(a, out), lines, truth) == Pass(a, more) && Run(Pass(b, out), lines, truth) == Pass(b, more)
    ensures !Live(a) ==> more == out
  {
    var v;
    assert Lasts([]) == [] && a + [] == a && b + [] == b;
    v, more := RunAbove(a, b, [], out, lines, truth);
    assert |Lasts(v)| == |v|;
  }

  /**
   * A nested text may be taken out of a conditional of its own: the conditionals around it do not
   * notice, and nothing changes at all when the test comes out true where it stands.
   */
  lemma Unwrap(p: Pass, test: Line, inner: seq<Line>, endif: Line, truth: Tests)
    requires test.kind.If? && endif.kind == Endif && ShapeAfter(Open([]), inner) == Open([])
    ensures p.Broken? ==> Run(p, [test] + inner + [endif], truth) == Run(p, inner, truth) == Broken
    ensures p.Pass? ==>
              && Run(p, inner, truth).Pass? && Run(p, inner, truth).stack == p.stack
              && Run(p, [test] + inner + [endif], truth)
                 == if truth(p.out, test) then Run(p, inner, truth) else p
  {
    hide Live;
    RunJoin(p, [test] + inner, [endif], truth);
    RunJoin(p, [test], inner, truth);
    RunOne(p, test, truth);
    RunOne(Run(p, [test] + inner, truth), endif, truth);
    if p.Broken? {
      RunBroken(inner, truth);
      RunBroken([test] + inner + [endif], truth);
    } else {
      var on := truth(p.out, test);
      var inside := p.stack + [Frame(Live(p.stack), Live(p.stack) && on, on, false)];
      TopOf(p.stack, [inside[|inside| - 1]]);
      assert Pop(inside) == p.stack;
      var _ := NestedText(p.stack, p.stack, p.out, inner, truth);
      var _ := NestedText(inside, if on then p.stack else inside, p.out, inner, truth);
    }
  }
}
