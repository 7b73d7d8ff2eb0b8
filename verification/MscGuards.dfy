/** scripts/cpp/remove_mscver_from_pragma.py: takes _MSC_VER conditionals off #pragma once. */
module MscGuards {
  import opened Options
  import opened Directives

  /** RE_IF */
  predicate IsMsc(l: Line) { l.kind == If(MscVer) }

  /** The first line from j on that is not blank. */
  function SkipBlanks(lines: seq<Line>, j: nat): (r: nat)
    requires j <= |lines|
    ensures j <= r <= |lines| && (r < |lines| ==> !IsBlank(lines[r]))
    ensures forall k | j <= k < r :: IsBlank(lines[k])
    decreases |lines| - j
  {
    if j < |lines| && IsBlank(lines[j]) then SkipBlanks(lines, j + 1) else j
  }

  /** A block: its #pragma once and its #endif. */
  datatype Block = Block(once: nat, endif: nat)

  /** The block whose conditional starts at line i. */
  function BlockAt(lines: seq<Line>, i: nat): (r: Option<Block>)
    requires i < |lines|
    ensures r.Some? ==> i < r.value.once < r.value.endif < |lines|
  {
    if !IsMsc(lines[i]) then None
    else
      var once := SkipBlanks(lines, i + 1);
      if once == |lines| || lines[once].kind != Once then None
      else
        var endif := SkipBlanks(lines, once + 1);
        if endif == |lines| || lines[endif].kind != Endif then None else Some(Block(once, endif))
  }

  /** The lines with the block at i replaced by its #pragma once. */
  function Splice(lines: seq<Line>, i: nat, b: Block): (r: seq<Line>)
    requires i < b.once < b.endif < |lines|
    ensures |r| < |lines| && |r| == |lines| - (b.endif - i)
  {
    lines[..i] + [lines[b.once]] + lines[b.endif + 1..]
  }

  /**
   * The scan from line i on. After a splice it goes back one line, so the number of lines comes first in
   * the measure.
   */
  function Unguard(lines: seq<Line>, i: nat): seq<Line>
    requires i <= |lines|
    decreases |lines|, |lines| - i
  {
    if i == |lines| then lines
    else
      match BlockAt(lines, i)
      case None => Unguard(lines, i + 1)
      case Some(b) => Unguard(Splice(lines, i, b), if i > 0 then i - 1 else 0)
  }

  /** The two inner loops: the block that starts at line i. */
  method FindBlock(lines: seq<Line>, i: nat) returns (r: Option<Block>)
    requires i < |lines|
    ensures r == BlockAt(lines, i)
  {
    if !IsMsc(lines[i]) { return None; }
    var j: nat := i + 1;
    while j < |lines| && IsBlank(lines[j])
      invariant i < j <= |lines| && SkipBlanks(lines, j) == SkipBlanks(lines, i + 1)
    {
      j := j + 1;
    }
    if j >= |lines| || lines[j].kind != Once { return None; }
    var pragmaIdx := j;
    j := j + 1;
    while j < |lines| && IsBlank(lines[j])
      invariant pragmaIdx < j <= |lines| && SkipBlanks(lines, j) == SkipBlanks(lines, pragmaIdx + 1)
    {
      j := j + 1;
    }
    if j >= |lines| || lines[j].kind != Endif { return None; }
    r := Some(Block(pragmaIdx, j));
  }

  /** unguard_msc_pragma_once, on the lines of the text. */
  method UnguardMscPragmaOnce(text: seq<Line>) returns (lines: seq<Line>, changed: bool)
    ensures lines == Unguard(text, 0)
    ensures changed <==> lines != text
  {
    hide BlockAt;
    lines := text;
    var i: nat := 0;
    changed := false;
    while i < |lines|
      invariant i <= |lines| <= |text| && Unguard(lines, i) == Unguard(text, 0)
      invariant changed <==> |lines| < |text|
      invariant !changed ==> lines == text
      decreases |lines|, |lines| - i
    {
      var found := FindBlock(lines, i);
      if found.None? {
        i := i + 1;
        continue;
      }
      var newLines := lines[..i];
      newLines := newLines + [lines[found.value.once]];
      newLines := newLines + lines[found.value.endif + 1..];
      lines := newLines;
      changed := true;
      i := if i > 0 then i - 1 else 0;
    }
  }

  // ---------------------------------------------------------------------------------------
  // Meaning
  // ---------------------------------------------------------------------------------------

  lemma BlockInk(lines: seq<Line>, i: nat)
    requires i < |lines| && BlockAt(lines, i).Some?
    ensures var b := BlockAt(lines, i).value;
            && lines[i].kind == If(MscVer) && lines[b.once].kind == Once && lines[b.endif].kind == Endif
            && Ink(lines[i + 1..b.endif]) == [lines[b.once]]
  {
    var b := BlockAt(lines, i).value;
    var x, y := lines[i + 1..b.once], lines[b.once + 1..b.endif];
    assert lines[i + 1..b.endif] == x + ([lines[b.once]] + y);
    InkJoin(x, [lines[b.once]] + y);
    InkJoin([lines[b.once]], y);
    InkOfBlanks(x);
    InkOfBlanks(y);
  }

  lemma OnceNests(l: Line)
    requires l.kind == Once
    ensures ShapeAfter(Open([]), [l]) == Open([])
  {
    assert [l][1..] == [];
  }

  /** One splice: the same open conditionals, and the same lines if the test is true where it stands. */
  lemma SpliceKeeps(p: Pass, lines: seq<Line>, i: nat, truth: Tests)
    requires i < |lines| && BlockAt(lines, i).Some?
    ensures var now := Run(p, Splice(lines, i, BlockAt(lines, i).value), truth);
            && ShapeOf(now) == ShapeOf(Run(p, lines, truth))
            && ((forall out :: truth(out, lines[i])) ==> now == Run(p, lines, truth))
  {
    hide Step, BlockAt, ShapeOf, ShapeAfter, Run, Splice, Ink;
    var b := BlockAt(lines, i).value;
    var q, inner := Run(p, lines[..i], truth), lines[i + 1..b.endif];
    var front, block, back := lines[..i], [lines[i]] + inner + [lines[b.endif]], lines[b.endif + 1..];
    assert block == lines[i..b.endif + 1];
    assert lines == front + lines[i..b.endif + 1] + back;
    SpliceIs(lines, i, b);
    BlockKeeps(q, lines, i, truth);
    RunJoin(p, front + block, back, truth);
    RunJoin(p, front, block, truth);
    RunJoin(p, front + [lines[b.once]], back, truth);
    RunJoin(p, front, [lines[b.once]], truth);
    ShapeOfRun(Run(q, [lines[b.once]], truth), back, truth);
    ShapeOfRun(Run(q, block, truth), back, truth);
  }

  /** The block itself, against its #pragma once. */
  lemma BlockKeeps(q: Pass, lines: seq<Line>, i: nat, truth: Tests)
    requires i < |lines| && BlockAt(lines, i).Some?
    ensures var b := BlockAt(lines, i).value;
            var once, block := Run(q, [lines[b.once]], truth), Run(q, [lines[i]] + lines[i + 1..b.endif] + [lines[b.endif]], truth);
            && ShapeOf(once) == ShapeOf(block)
            && ((forall out :: truth(out, lines[i])) ==> once == block)
  {
    hide Step, BlockAt, ShapeOf, ShapeAfter, Run, Ink;
    var b := BlockAt(lines, i).value;
    BlockInk(lines, i);
    var inner, once := lines[i + 1..b.endif], lines[b.once];
    RunInk(q, inner, truth);
    OnceNests(once);
    ShapeOfInk(Open([]), inner);
    Unwrap(q, lines[i], inner, lines[b.endif], truth);
    SameShape(q, inner, [lines[i]] + inner + [lines[b.endif]], truth);
  }

  /** Runs that leave the same open conditionals leave the same shape. */
  lemma SameShape(q: Pass, a: seq<Line>, b: seq<Line>, truth: Tests)
    requires Run(q, a, truth).Broken? <==> Run(q, b, truth).Broken?
    requires Run(q, a, truth).Pass? ==> Run(q, a, truth).stack == Run(q, b, truth).stack
    ensures ShapeOf(Run(q, a, truth)) == ShapeOf(Run(q, b, truth))
  {
  }

  /** Every recognised _MSC_VER test is true, wherever it stands. */
  ghost predicate Msvc(lines: seq<Line>, truth: Tests) {
    forall l, out | l in lines && IsMsc(l) :: truth(out, l)
  }

  /** Taking the guards off keeps directives as nested as they were, whatever the compiler. */
  lemma {:induction false} UnguardKeepsNesting(lines: seq<Line>, i: nat, truth: Tests)
    requires i <= |lines|
    ensures ShapeOf(Run(START, Unguard(lines, i), truth)) == ShapeOf(Run(START, lines, truth))
    ensures Nests(Unguard(lines, i), truth) <==> Nests(lines, truth)
    decreases |lines|, |lines| - i
  {
    hide Run, BlockAt, Splice;
    if i < |lines| {
      match BlockAt(lines, i) {
        case None => UnguardKeepsNesting(lines, i + 1, truth);
        case Some(b) =>
          SpliceKeeps(START, lines, i, truth);
          UnguardKeepsNesting(Splice(lines, i, b), if i > 0 then i - 1 else 0, truth);
      }
    }
    NestingByShape(lines, truth);
    NestingByShape(Unguard(lines, i), truth);
  }

  lemma NestingByShape(lines: seq<Line>, truth: Tests)
    ensures Nests(lines, truth) <==> ShapeOf(Run(START, lines, truth)) == Open([])
  {
  }

  /** For a compiler whose _MSC_VER tests are all true the lines let through stay the same. */
  lemma {:induction false} UnguardKeepsMeaning(p: Pass, lines: seq<Line>, i: nat, truth: Tests)
    requires i <= |lines| && Msvc(lines, truth)
    ensures Run(p, Unguard(lines, i), truth) == Run(p, lines, truth)
    decreases |lines|, |lines| - i
  {
    hide Run, BlockAt;
    if i < |lines| {
      match BlockAt(lines, i) {
        case None => UnguardKeepsMeaning(p, lines, i + 1, truth);
        case Some(b) =>
          SpliceKeeps(p, lines, i, truth);
          BlockTest(lines, i);
          UnguardKeepsMeaning(p, Splice(lines, i, b), if i > 0 then i - 1 else 0, truth);
      }
    }
  }

  lemma BlockTest(lines: seq<Line>, i: nat)
    requires i < |lines|
    ensures BlockAt(lines, i).Some? ==> IsMsc(lines[i])
  {
  }

  // ---------------------------------------------------------------------------------------
  // What is left
  // ---------------------------------------------------------------------------------------

  /** The lines that are neither blank nor conditionals. */
  function Contents(lines: seq<Line>): seq<Line> {
    if lines == [] then []
    else (if IsBlank(lines[0]) || IsConditional(lines[0]) then [] else [lines[0]]) + Contents(lines[1..])
  }

  lemma {:induction false} ContentsJoin(a: seq<Line>, b: seq<Line>)
    ensures Contents(a + b) == Contents(a) + Contents(b)
  {
    if a == [] {
      assert a + b == b;
    } else {
      assert (a + b)[1..] == a[1..] + b;
      ContentsJoin(a[1..], b);
    }
  }

  lemma {:induction false} ContentsOfInk(lines: seq<Line>)
    ensures Contents(Ink(lines)) == Contents(lines)
  {
    if lines != [] {
      ContentsOfInk(lines[1..]);
      ContentsJoin(if IsBlank(lines[0]) then [] else [lines[0]], Ink(lines[1..]));
      if !IsBlank(lines[0]) { assert [lines[0]][1..] == []; }
    }
  }

  lemma ContentsOfOne(l: Line)
    ensures Contents([l]) == if IsBlank(l) || IsConditional(l) then [] else [l]
  {
    assert [l][1..] == [];
  }

  /** A block has the contents of its #pragma once. */
  lemma BlockContents(lines: seq<Line>, i: nat)
    requires i < |lines| && BlockAt(lines, i).Some?
    ensures var b := BlockAt(lines, i).value;
            Contents([lines[i]] + lines[i + 1..b.endif] + [lines[b.endif]]) == Contents([lines[b.once]])
  {
    hide Contents, BlockAt, Ink;
    var b := BlockAt(lines, i).value;
    var inner := lines[i + 1..b.endif];
    BlockInk(lines, i);
    ContentsOfInk(inner);
    ContentsOfOne(lines[i]);
    ContentsOfOne(lines[b.endif]);
    ContentsJoin([lines[i]] + inner, [lines[b.endif]]);
    ContentsJoin([lines[i]], inner);
    assert [] + Contents(inner) + [] == Contents(inner);
  }

  lemma SpliceIs(lines: seq<Line>, i: nat, b: Block)
    requires i < b.once < b.endif < |lines|
    ensures Splice(lines, i, b) == lines[..i] + [lines[b.once]] + lines[b.endif + 1..]
  {
  }

  lemma SpliceContents(lines: seq<Line>, i: nat, b: Block)
    requires i < |lines| && BlockAt(lines, i) == Some(b)
    ensures Contents(Splice(lines, i, b)) == Contents(lines)
  {
    hide Contents, BlockAt, Splice;
    BlockContents(lines, i);
    var front, once, back := lines[..i], [lines[b.once]], lines[b.endif + 1..];
    var block := [lines[i]] + lines[i + 1..b.endif] + [lines[b.endif]];
    assert block == lines[i..b.endif + 1];
    assert lines == front + lines[i..b.endif + 1] + back;
    SpliceIs(lines, i, b);
    ContentsJoin(front + block, back);
    ContentsJoin(front, block);
    ContentsJoin(front + once, back);
    ContentsJoin(front, once);
  }

  /** Every line that is neither blank nor a conditional survives, in order. */
  lemma {:induction false} UnguardKeepsContents(lines: seq<Line>, i: nat)
    requires i <= |lines|
    ensures Contents(Unguard(lines, i)) == Contents(lines)
    decreases |lines|, |lines| - i
  {
    hide BlockAt, Contents, Splice;
    if i < |lines| {
      match BlockAt(lines, i) {
        case None => UnguardKeepsContents(lines, i + 1);
        case Some(b) =>
          SpliceContents(lines, i, b);
          UnguardKeepsContents(Splice(lines, i, b), if i > 0 then i - 1 else 0);
      }
    }
  }

  /** No block starts before line i. */
  predicate NoBlock(lines: seq<Line>, i: nat)
    requires i <= |lines|
  {
    forall k | 0 <= k < i :: BlockAt(lines, k).None?
  }

  /** Behind blank lines from e on stands an #endif; the result is the line after it. */
  function ClosedAt(lines: seq<Line>, e: nat): (r: Option<nat>)
    requires e <= |lines|
    ensures r.Some? ==> e < r.value <= |lines|
  {
    var f := SkipBlanks(lines, e);
    if f < |lines| && lines[f].kind == Endif then Some(f + 1) else None
  }

  /**
   * Where the nest at line m ends, if the scan takes it off its #pragma once: the pragma itself, or a
   * recognised test with a nest and an #endif. Behind a blank line only the bare pragma is a nest.
   */
  function NestEnd(lines: seq<Line>, m: nat): (r: Option<nat>)
    requires m <= |lines|
    ensures r.Some? ==> m < r.value <= |lines|
    decreases |lines| - m
  {
    if m == |lines| then None
    else if lines[m].kind == Once then Some(m + 1)
    else if !IsMsc(lines[m]) then None
    else
      var n := SkipBlanks(lines, m + 1);
      if n < |lines| && (n == m + 1 || lines[n].kind == Once) && NestEnd(lines, n).Some?
      then ClosedAt(lines, NestEnd(lines, n).value) else None
  }

  /**
   * A recognised test, at least one blank line, a nest that starts with a test of its own, blank lines
   * and an #endif.
   */
  predicate Hides(lines: seq<Line>, m: nat)
    requires m < |lines|
  {
    var n := SkipBlanks(lines, m + 1);
    && IsMsc(lines[m]) && m + 1 < n < |lines| && IsMsc(lines[n])
    && NestEnd(lines, n).Some? && ClosedAt(lines, NestEnd(lines, n).value).Some?
  }

  /** What the scan at line i will leave behind: a block it has passed, or one a blank line hides. */
  predicate LeavesBlock(lines: seq<Line>, i: nat)
    requires i <= |lines|
  {
    (exists m | 0 <= m < i :: BlockAt(lines, m).Some?) || exists m | 0 <= m < |lines| :: Hides(lines, m)
  }

  /** r is lines with the block from line i to line e replaced by its #pragma once. */
  predicate Spliced(lines: seq<Line>, i: nat, e: nat, r: seq<Line>) {
    && i < e < |lines| && |r| == |lines| - (e - i)
    && IsMsc(lines[i]) && BlockAt(lines, i).Some? && BlockAt(lines, i).value.endif == e
    && r[i].kind == Once
    && (forall k | 0 <= k < i :: r[k] == lines[k])
    && forall k | e < k < |lines| :: r[k - (e - i)] == lines[k]
  }

  lemma SpliceIsSpliced(lines: seq<Line>, i: nat)
    requires i < |lines| && BlockAt(lines, i).Some?
    ensures Spliced(lines, i, BlockAt(lines, i).value.endif, Splice(lines, i, BlockAt(lines, i).value))
  {
  }

  lemma {:induction false} SkipAbove(lines: seq<Line>, i: nat, e: nat, r: seq<Line>, j: nat)
    requires Spliced(lines, i, e, r) && j <= i
    ensures SkipBlanks(lines, j) == SkipBlanks(r, j) <= i
    decreases i - j
  {
    if j < i { SkipAbove(lines, i, e, r, j + 1); }
  }

  lemma {:induction false} SkipBehind(lines: seq<Line>, i: nat, e: nat, r: seq<Line>, j: nat)
    requires Spliced(lines, i, e, r) && e < j <= |lines|
    ensures SkipBlanks(r, j - (e - i)) == SkipBlanks(lines, j) - (e - i)
    decreases |lines| - j
  {
    if j < |lines| { SkipBehind(lines, i, e, r, j + 1); }
  }

  /** Where line k, or the end of the text, stands after the splice. */
  function PlaceAfter(k: nat, i: nat, e: nat): (r: nat)
    requires k <= i < e || i < e < k
  {
    if k <= i then k else k - (e - i)
  }

  /** The same place before and after the splice, or none in both texts. */
  predicate Moves(was: Option<nat>, now: Option<nat>, i: nat, e: nat) {
    match was
    case None => now == None
    case Some(k) => (k <= i < e || i < e < k) && now == Some(PlaceAfter(k, i, e))
  }

  lemma ClosedSpliced(lines: seq<Line>, i: nat, e: nat, r: seq<Line>, j: nat)
    requires Spliced(lines, i, e, r) && (j <= i || e < j <= |lines|)
    ensures Moves(ClosedAt(lines, j), ClosedAt(r, PlaceAfter(j, i, e)), i, e)
  {
    hide SkipBlanks, BlockAt;
    if j <= i { SkipAbove(lines, i, e, r, j); } else { SkipBehind(lines, i, e, r, j); }
  }

  /** A blank line in front of the block hides it. */
  predicate HiddenFrom(lines: seq<Line>, i: nat, e: nat, p: nat) {
    p + 1 < i < e < |lines| && IsMsc(lines[p]) && SkipBlanks(lines, p + 1) == i && ClosedAt(lines, e + 1).Some?
  }

  /** The nest at the spliced line itself ends behind the block. */
  lemma NestOfBlock(lines: seq<Line>, i: nat, e: nat, r: seq<Line>)
    requires Spliced(lines, i, e, r)
    ensures NestEnd(lines, i) == Some(e + 1) && NestEnd(r, i) == Some(i + 1)
  {
    var once := SkipBlanks(lines, i + 1);
    assert NestEnd(lines, once) == Some(once + 1);
  }

  /** NestEnd of a test, where n is the next line that is not blank. */
  lemma NestOfTest(lines: seq<Line>, m: nat, n: nat)
    requires m < |lines| && IsMsc(lines[m]) && n == SkipBlanks(lines, m + 1)
    ensures n <= |lines|
    ensures NestEnd(lines, m)
         == if n < |lines| && (n == m + 1 || lines[n].kind == Once) && NestEnd(lines, n).Some?
            then ClosedAt(lines, NestEnd(lines, n).value) else None
  {
  }

  lemma NestOfOther(lines: seq<Line>, m: nat)
    requires m <= |lines| && (m < |lines| ==> !IsMsc(lines[m]))
    ensures NestEnd(lines, m) == if m < |lines| && lines[m].kind == Once then Some(m + 1) else None
  {
  }

  lemma SplicedLine(lines: seq<Line>, i: nat, e: nat, r: seq<Line>, m: nat)
    requires Spliced(lines, i, e, r) && (m < i || e < m <= |lines|)
    ensures i < e < |lines| && PlaceAfter(m, i, e) <= |r| && (PlaceAfter(m, i, e) < |r| <==> m < |lines|)
    ensures m < |lines| ==> r[PlaceAfter(m, i, e)] == lines[m]
  {
  }

  lemma SkipSpliced(lines: seq<Line>, i: nat, e: nat, r: seq<Line>, m: nat)
    requires Spliced(lines, i, e, r) && (m < i || e < m < |lines|)
    ensures var n := SkipBlanks(lines, m + 1);
            (n <= i || e < n <= |lines|) && PlaceAfter(m, i, e) < |r| && SkipBlanks(r, PlaceAfter(m, i, e) + 1) == PlaceAfter(n, i, e)
  {
    if m < i { SkipAbove(lines, i, e, r, m + 1); } else { SkipBehind(lines, i, e, r, m + 1); }
  }

  /** When no blank line hides the block, a splice moves the ends of nests and nothing else. */
  lemma {:induction false} NestSpliced(lines: seq<Line>, i: nat, e: nat, r: seq<Line>, m: nat)
    requires Spliced(lines, i, e, r) && (m <= i || e < m <= |lines|)
    requires forall p | 0 <= p < i :: !HiddenFrom(lines, i, e, p)
    ensures i < e && PlaceAfter(m, i, e) <= |r| && Moves(NestEnd(lines, m), NestEnd(r, PlaceAfter(m, i, e)), i, e)
    decreases |lines| - m
  {
    if m == i {
      NestOfBlock(lines, i, e, r);
    } else {
      SplicedLine(lines, i, e, r, m);
      if m < |lines| && IsMsc(lines[m]) {
        NestBehindTest(lines, i, e, r, m);
      } else {
        NestOfOther(lines, m);
        NestOfOther(r, PlaceAfter(m, i, e));
      }
    }
  }

  lemma {:induction false} NestBehindTest(lines: seq<Line>, i: nat, e: nat, r: seq<Line>, m: nat)
    requires Spliced(lines, i, e, r) && (m < i || e < m < |lines|) && IsMsc(lines[m])
    requires forall p | 0 <= p < i :: !HiddenFrom(lines, i, e, p)
    ensures i < e && PlaceAfter(m, i, e) <= |r| && Moves(NestEnd(lines, m), NestEnd(r, PlaceAfter(m, i, e)), i, e)
    decreases |lines| - m, 0
  {
    hide NestEnd, ClosedAt, SkipBlanks, BlockAt;
    var n := SkipBlanks(lines, m + 1);
    SkipSpliced(lines, i, e, r, m);
    SplicedLine(lines, i, e, r, m);
    NestOfTest(lines, m, n);
    NestOfTest(r, PlaceAfter(m, i, e), PlaceAfter(n, i, e));
    NestSpliced(lines, i, e, r, n);
    if NestEnd(lines, n).Some? { ClosedSpliced(lines, i, e, r, NestEnd(lines, n).value); }
    if n == i {
      NestOfBlock(lines, i, e, r);
      ClosedSpliced(lines, i, e, r, e + 1);
      assert !HiddenFrom(lines, i, e, m);
    } else {
      SplicedLine(lines, i, e, r, n);
    }
  }

  lemma HidesIs(lines: seq<Line>, m: nat, n: nat)
    requires m < |lines| && n == SkipBlanks(lines, m + 1)
    ensures n <= |lines|
    ensures Hides(lines, m) <==>
            && IsMsc(lines[m]) && m + 1 < n < |lines| && IsMsc(lines[n])
            && NestEnd(lines, n).Some? && ClosedAt(lines, NestEnd(lines, n).value).Some?
  {
  }

  /** Other tests hide a block before the splice exactly when they hide one after it. */
  lemma HidesSpliced(lines: seq<Line>, i: nat, e: nat, r: seq<Line>, m: nat)
    requires Spliced(lines, i, e, r) && (m < i || e < m < |lines|)
    requires forall p | 0 <= p < i :: !HiddenFrom(lines, i, e, p)
    ensures i < e && PlaceAfter(m, i, e) < |r| && (Hides(lines, m) <==> Hides(r, PlaceAfter(m, i, e)))
  {
    hide NestEnd, ClosedAt, SkipBlanks, BlockAt, Hides;
    var n := SkipBlanks(lines, m + 1);
    SkipSpliced(lines, i, e, r, m);
    SplicedLine(lines, i, e, r, m);
    HidesIs(lines, m, n);
    HidesIs(r, PlaceAfter(m, i, e), PlaceAfter(n, i, e));
    NestSpliced(lines, i, e, r, n);
    if NestEnd(lines, n).Some? { ClosedSpliced(lines, i, e, r, NestEnd(lines, n).value); }
    if n == i {
      NestOfBlock(lines, i, e, r);
      assert !HiddenFrom(lines, i, e, m);
    } else {
      SplicedLine(lines, i, e, r, n);
    }
  }

  lemma BlockIs(lines: seq<Line>, k: nat, n: nat)
    requires k < |lines| && n == SkipBlanks(lines, k + 1)
    ensures n <= |lines|
    ensures BlockAt(lines, k).Some? <==>
            IsMsc(lines[k]) && n < |lines| && lines[n].kind == Once && ClosedAt(lines, n + 1).Some?
  {
  }

  /** Blocks more than one line above the splice stay blocks, and no new ones arise there. */
  lemma BlockSpliced(lines: seq<Line>, i: nat, e: nat, r: seq<Line>, k: nat)
    requires Spliced(lines, i, e, r) && k < i
    requires forall p | 0 <= p < i :: !HiddenFrom(lines, i, e, p)
    ensures BlockAt(lines, k).Some? ==> k + 1 < i
    ensures k + 1 < i ==> (BlockAt(lines, k).Some? <==> BlockAt(r, k).Some?)
  {
    hide NestEnd, ClosedAt, SkipBlanks, BlockAt;
    var n := SkipBlanks(lines, k + 1);
    SkipSpliced(lines, i, e, r, k);
    BlockIs(lines, k, n);
    BlockIs(r, k, n);
    SplicedLine(lines, i, e, r, k);
    if n < i {
      SplicedLine(lines, i, e, r, n);
      ClosedSpliced(lines, i, e, r, n + 1);
    } else {
      ClosedSpliced(lines, i, e, r, e + 1);
      assert !HiddenFrom(lines, i, e, k);
    }
  }

  /** Inside the block, and at the pragma it leaves, nothing is hidden. */
  lemma NothingHiddenInside(lines: seq<Line>, i: nat, e: nat, r: seq<Line>, m: nat)
    requires Spliced(lines, i, e, r) && i <= m <= e
    ensures !Hides(lines, m) && !Hides(r, i)
  {
  }

  /** A blank line in front of the block: the test there hides it, and is passed once the block is gone. */
  lemma HiddenLeaves(lines: seq<Line>, i: nat, e: nat, r: seq<Line>, p: nat)
    requires Spliced(lines, i, e, r) && HiddenFrom(lines, i, e, p)
    ensures LeavesBlock(lines, i) && LeavesBlock(r, i - 1)
  {
    hide NestEnd, ClosedAt, SkipBlanks, BlockAt, Hides;
    NestOfBlock(lines, i, e, r);
    SkipAbove(lines, i, e, r, p + 1);
    SplicedLine(lines, i, e, r, p);
    ClosedSpliced(lines, i, e, r, e + 1);
    HidesIs(lines, p, i);
    BlockIs(r, p, i);
    assert Hides(lines, p) && BlockAt(r, p).Some?;
  }

  /** A splice does not change what will be left. */
  lemma SpliceLeaves(lines: seq<Line>, i: nat, e: nat, r: seq<Line>)
    requires Spliced(lines, i, e, r)
    ensures i <= |lines| && i <= |r| && (LeavesBlock(lines, i) <==> LeavesBlock(r, if i > 0 then i - 1 else 0))
  {
    hide BlockAt, Hides, HiddenFrom;
    var back := if i > 0 then i - 1 else 0;
    if p: nat :| p < i && HiddenFrom(lines, i, e, p) {
      HiddenAbove(lines, i, e, p);
      HiddenLeaves(lines, i, e, r, p);
    } else {
      if LeavesBlock(lines, i) {
        if m: nat :| m < i && BlockAt(lines, m).Some? {
          BlockSpliced(lines, i, e, r, m);
        } else {
          var m: nat :| m < |lines| && Hides(lines, m);
          if i <= m <= e { NothingHiddenInside(lines, i, e, r, m); }
          HidesSpliced(lines, i, e, r, m);
        }
      }
      if LeavesBlock(r, back) {
        if m: nat :| m < back && BlockAt(r, m).Some? {
          BlockSpliced(lines, i, e, r, m);
        } else {
          var m: nat :| m < |r| && Hides(r, m);
          var was := if m < i then m else m + (e - i);
          if m == i { NothingHiddenInside(lines, i, e, r, i); }
          HidesSpliced(lines, i, e, r, was);
        }
      }
    }
  }

  lemma HiddenAbove(lines: seq<Line>, i: nat, e: nat, p: nat)
    requires HiddenFrom(lines, i, e, p)
    ensures p + 1 < i
  {
  }

  /** A nest that starts with a test holds a block. */
  lemma {:induction false} NestHoldsBlock(lines: seq<Line>, n: nat) returns (k: nat)
    requires n < |lines| && IsMsc(lines[n]) && NestEnd(lines, n).Some?
    ensures n <= k < |lines| && BlockAt(lines, k).Some?
    decreases |lines| - n
  {
    var next := SkipBlanks(lines, n + 1);
    if lines[next].kind == Once {
      BlockIs(lines, n, next);
      k := n;
    } else {
      k := NestHoldsBlock(lines, next);
    }
  }

  /** At the end of the scan a block is left exactly when one was passed. */
  lemma LeavesAtEnd(lines: seq<Line>)
    ensures LeavesBlock(lines, |lines|) <==> !NoBlock(lines, |lines|)
  {
    hide BlockAt, NestEnd, ClosedAt;
    if m: nat :| m < |lines| && Hides(lines, m) {
      var _ := NestHoldsBlock(lines, SkipBlanks(lines, m + 1));
    }
  }

  lemma {:induction false} ScanLeaves(lines: seq<Line>, i: nat)
    requires i <= |lines|
    ensures NoBlock(Unguard(lines, i), |Unguard(lines, i)|) <==> !LeavesBlock(lines, i)
    decreases |lines|, |lines| - i
  {
    hide BlockAt, Splice, Hides, NoBlock;
    if i == |lines| {
      LeavesAtEnd(lines);
    } else {
      match BlockAt(lines, i) {
        case None => ScanLeaves(lines, i + 1);
        case Some(b) =>
          SpliceIsSpliced(lines, i);
          SpliceLeaves(lines, i, b.endif, Splice(lines, i, b));
          ScanLeaves(Splice(lines, i, b), if i > 0 then i - 1 else 0);
      }
    }
  }

  /**
   * One run leaves no guarded #pragma once behind if and only if no blank line hides one: no
   * recognised test is followed by a blank line and a nest that starts with a test.
   */
  lemma NothingLeftExactly(lines: seq<Line>)
    ensures NoBlock(Unguard(lines, 0), |Unguard(lines, 0)|) <==> forall m | 0 <= m < |lines| :: !Hides(lines, m)
  {
    ScanLeaves(lines, 0);
  }

  /** No recognised test has a blank line right behind it. */
  predicate Tight(lines: seq<Line>) {
    forall k | 0 <= k < |lines| - 1 && IsMsc(lines[k]) :: !IsBlank(lines[k + 1])
  }

  /** In particular, nothing is left when no test has a blank line right behind it. */
  lemma NothingLeftWhenTight(lines: seq<Line>)
    requires Tight(lines)
    ensures NoBlock(Unguard(lines, 0), |Unguard(lines, 0)|)
  {
    hide NestEnd, Unguard, BlockAt;
    NothingLeftExactly(lines);
    forall m | 0 <= m < |lines| ensures !Hides(lines, m) {
      if IsMsc(lines[m]) && m + 1 < |lines| { assert SkipBlanks(lines, m + 1) == m + 1; }
    }
  }

  const MSC := Line(If(MscVer), false, "#ifdef _MSC_VER")
  const END := Line(Endif, false, "#endif")

  /** With a blank line behind an outer test, one run leaves that test's block behind. */
  lemma BlankHidesBlock()
    ensures var lines := [MSC, EMPTY_LINE, MSC, PRAGMA_ONCE, END, END];
            Unguard(lines, 0) == [MSC, EMPTY_LINE, PRAGMA_ONCE, END] && BlockAt(Unguard(lines, 0), 0).Some?
  {
    var lines := [MSC, EMPTY_LINE, MSC, PRAGMA_ONCE, END, END];
    assert SkipBlanks(lines, 1) == SkipBlanks(lines, 2) == 2;
    assert BlockAt(lines, 0).None? && BlockAt(lines, 1).None?;
    assert SkipBlanks(lines, 3) == 3 && SkipBlanks(lines, 4) == 4;
    assert BlockAt(lines, 2) == Some(Block(3, 4));
    var r := Splice(lines, 2, Block(3, 4));
    assert r == [MSC, EMPTY_LINE, PRAGMA_ONCE, END];
    assert BlockAt(r, 1).None? && BlockAt(r, 2).None? && BlockAt(r, 3).None?;
    assert Unguard(lines, 0) == Unguard(lines, 1) == Unguard(lines, 2) == Unguard(r, 1);
    assert Unguard(r, 1) == Unguard(r, 2) == Unguard(r, 3) == Unguard(r, 4) == r;
    assert SkipBlanks(r, 1) == SkipBlanks(r, 2) == 2 && SkipBlanks(r, 3) == 3;
  }
}
