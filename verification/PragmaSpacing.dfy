/** scripts/cpp/harmonize_linebreaks_pragmaonce.py: one blank line before and after #pragma once. */
module PragmaSpacing {
  import opened Directives

  /** How many blank lines stand directly above line i. */
  function BlanksAbove(lines: seq<Line>, i: nat): (r: nat)
    requires i <= |lines|
    ensures r <= i && (r < i ==> !IsBlank(lines[i - r - 1]))
    ensures forall k | i - r <= k < i :: IsBlank(lines[k])
  {
    if i > 0 && IsBlank(lines[i - 1]) then 1 + BlanksAbove(lines, i - 1) else 0
  }

  /** How many blank lines follow from line k on. */
  function BlanksFrom(lines: seq<Line>, k: nat): (r: nat)
    requires k <= |lines|
    ensures k + r <= |lines| && (k + r < |lines| ==> !IsBlank(lines[k + r]))
    ensures forall m | k <= m < k + r :: IsBlank(lines[m])
    decreases |lines| - k
  {
    if k < |lines| && IsBlank(lines[k]) then 1 + BlanksFrom(lines, k + 1) else 0
  }

  /** The lines, the cursor i and pragma_idxs. */
  datatype Cursor = Cursor(lines: seq<Line>, i: nat, marks: seq<int>)

  /** [p + step if p >= least else p for p in pragma_idxs] */
  function Shift(marks: seq<int>, least: int, step: int): seq<int> {
    seq(|marks|, k requires 0 <= k < |marks| => if marks[k] >= least then marks[k] + step else marks[k])
  }

  /** The part before the pragma: one blank line when anything stands above, none otherwise. */
  function Before(c: Cursor): (r: Cursor)
    requires c.i < |c.lines|
    ensures r.i < |r.lines| && |r.lines| - r.i == |c.lines| - c.i
    ensures r.lines[r.i..] == c.lines[c.i..]
  {
    var b: int := BlanksAbove(c.lines, c.i);
    if b < c.i then
      if b > 1 then Cursor(c.lines[..c.i - b] + c.lines[c.i - 1..], c.i - (b - 1), c.marks)
      else if b == 0 then
        Cursor(c.lines[..c.i] + [EMPTY_LINE] + c.lines[c.i..], c.i + 1, Shift(c.marks, c.i, 1))
      else c
    else if b > 0 then Cursor(c.lines[b..], 0, Shift(c.marks, 0, -b))
    else c
  }

  /** The part after the pragma: exactly one blank line. */
  function After(c: Cursor): (r: Cursor)
    requires c.i < |c.lines|
    ensures r.i == c.i + 2 <= |r.lines| && |r.lines| - r.i < |c.lines| - c.i
  {
    var a := BlanksFrom(c.lines, c.i + 1);
    if a == 1 then c.(i := c.i + 2)
    else Cursor(c.lines[..c.i + 1] + [EMPTY_LINE] + c.lines[c.i + 1 + a..], c.i + 2, c.marks)
  }

  function Turn(c: Cursor): Cursor
    requires c.i < |c.lines|
  {
    After(Before(c))
  }

  /** The loop: lines are inserted and deleted, but every turn leaves fewer lines behind the cursor. */
  function Normalize(c: Cursor): seq<Line>
    requires c.i <= |c.lines|
    decreases |c.lines| - c.i
  {
    if c.i == |c.lines| then c.lines
    else if c.i in c.marks then Normalize(Turn(c))
    else Normalize(c.(i := c.i + 1))
  }

  /** The indices of the #pragma once lines from line i on. */
  function Onces(lines: seq<Line>, i: nat): seq<int>
    requires i <= |lines|
    decreases |lines| - i
  {
    if i == |lines| then [] else (if lines[i].kind == Once then [i] else []) + Onces(lines, i + 1)
  }

  function Start(lines: seq<Line>): Cursor { Cursor(lines, 0, Onces(lines, 0)) }

  // ---------------------------------------------------------------------------------------
  // The script
  // ---------------------------------------------------------------------------------------

  /** The loop that counts upwards. */
  method CountAbove(lines: seq<Line>, i: nat) returns (blanksBefore: nat, j: int)
    requires i < |lines|
    ensures blanksBefore == BlanksAbove(lines, i) && j == i - 1 - blanksBefore
  {
    j := i - 1;
    blanksBefore := 0;
    while j >= 0 && IsBlank(lines[j])
      invariant -1 <= j < i && blanksBefore == i - 1 - j
      invariant BlanksAbove(lines, i) == blanksBefore + BlanksAbove(lines, j + 1)
    {
      blanksBefore := blanksBefore + 1;
      j := j - 1;
    }
  }

  method CountBelow(lines: seq<Line>, i: nat) returns (blanksAfter: nat)
    requires i < |lines|
    ensures blanksAfter == BlanksFrom(lines, i + 1)
  {
    var k := i + 1;
    blanksAfter := 0;
    while k < |lines| && IsBlank(lines[k])
      invariant k == i + 1 + blanksAfter <= |lines|
      invariant BlanksFrom(lines, i + 1) == blanksAfter + BlanksFrom(lines, k)
    {
      blanksAfter := blanksAfter + 1;
      k := k + 1;
    }
  }

  /** Before, by the number of blank lines above. */
  lemma BeforeCounts(c: Cursor, b: nat)
    requires c.i < |c.lines| && b == BlanksAbove(c.lines, c.i)
    ensures b <= c.i && (b > 0 ==> IsBlank(c.lines[c.i - 1])) && (b == 0 < c.i ==> !IsBlank(c.lines[c.i - 1]))
    ensures 1 < b < c.i ==> Before(c) == Cursor(c.lines[..c.i - b] + c.lines[c.i - 1..], c.i - (b - 1), c.marks)
    ensures b == 0 < c.i ==>
              Before(c) == Cursor(c.lines[..c.i] + [EMPTY_LINE] + c.lines[c.i..], c.i + 1, Shift(c.marks, c.i, 1))
    ensures b == 1 < c.i || b == c.i == 0 ==> Before(c) == c
    ensures b == c.i > 0 ==> Before(c) == Cursor(c.lines[b..], 0, Shift(c.marks, 0, -(b as int)))
  {
    hide BlanksAbove;
  }

  /** The part of the loop body that looks above. */
  method SpaceAbove(text: seq<Line>, at: nat, idxs: seq<int>)
    returns (lines: seq<Line>, i: nat, pragmaIdxs: seq<int>, changed: bool)
    requires at < |text|
    ensures Cursor(lines, i, pragmaIdxs) == Before(Cursor(text, at, idxs))
    ensures !changed ==> lines == text
  {
    hide *;
    lines, i, pragmaIdxs, changed := text, at, idxs, false;
    var blanksBefore, j := CountAbove(lines, i);
    BeforeCounts(Cursor(text, at, idxs), blanksBefore);
    if j >= 0 {
      if blanksBefore > 1 {
        lines := lines[..i - blanksBefore] + lines[i - 1..];
        i := i - (blanksBefore - 1);
        changed := true;
        assert lines[i - 1] == text[at - 1];
      }
      if i - 1 < 0 || !IsBlank(lines[i - 1]) {
        lines := lines[..i] + [EMPTY_LINE] + lines[i..];
        i := i + 1;
        pragmaIdxs := Shift(pragmaIdxs, i - 1, 1);
        changed := true;
      }
    } else if blanksBefore > 0 {
      lines := lines[..i - blanksBefore] + lines[i..];
      i := i - blanksBefore;
      pragmaIdxs := Shift(pragmaIdxs, i, -(blanksBefore as int));
      changed := true;
      assert lines == text[blanksBefore..];
    }
  }

  lemma AfterCounts(c: Cursor, a: nat)
    requires c.i < |c.lines| && a == BlanksFrom(c.lines, c.i + 1)
    ensures c.i + 1 + a <= |c.lines|
    ensures a == 1 ==> After(c) == c.(i := c.i + 2)
    ensures a != 1 ==> After(c) == Cursor(c.lines[..c.i + 1] + [EMPTY_LINE] + c.lines[c.i + 1 + a..], c.i + 2, c.marks)
  {
    hide BlanksFrom;
  }

  /** The part of the loop body that looks below. */
  method SpaceBelow(text: seq<Line>, at: nat, ghost idxs: seq<int>) returns (lines: seq<Line>, i: nat, changed: bool)
    requires at < |text|
    ensures Cursor(lines, i, idxs) == After(Cursor(text, at, idxs))
    ensures !changed ==> lines == text
  {
    hide *;
    lines, i, changed := text, at, false;
    var blanksAfter := CountBelow(lines, i);
    AfterCounts(Cursor(text, at, idxs), blanksAfter);
    if blanksAfter != 1 {
      if blanksAfter > 0 {
        lines := lines[..i + 1] + lines[i + 1 + blanksAfter..];
        changed := true;
      }
      lines := lines[..i + 1] + [EMPTY_LINE] + lines[i + 1..];
      changed := true;
      assert lines == text[..i + 1] + [EMPTY_LINE] + text[i + 1 + blanksAfter..];
    }
    i := i + 2;
  }

  /** normalize_pragma_once_spacing, on the lines of the text. */
  method NormalizePragmaOnceSpacing(text: seq<Line>) returns (lines: seq<Line>, changed: bool)
    ensures lines == Normalize(Start(text))
    ensures !changed ==> lines == text
  {
    hide Before, After;
    lines := text;
    var pragmaIdxs := Onces(lines, 0);
    changed := false;
    if pragmaIdxs == [] {
      NoMoreVisits(Start(text));
      return;
    }
    var i: nat := 0;
    while i < |lines|
      invariant i <= |lines| && Normalize(Cursor(lines, i, pragmaIdxs)) == Normalize(Start(text))
      invariant !changed ==> lines == text
      decreases |lines| - i
    {
      if i in pragmaIdxs {
        var above, below;
        TurnShrinks(Cursor(lines, i, pragmaIdxs));
        lines, i, pragmaIdxs, above := SpaceAbove(lines, i, pragmaIdxs);
        lines, i, below := SpaceBelow(lines, i, pragmaIdxs);
        changed := changed || above || below;
        continue;
      }
      i := i + 1;
    }
  }

  lemma TurnShrinks(c: Cursor)
    requires c.i < |c.lines|
    ensures Turn(c).i <= |Turn(c).lines| && |Turn(c).lines| - Turn(c).i < |c.lines| - c.i
  {
  }

  /** When no mark lies ahead, nothing changes any more. */
  lemma {:induction false} NoMoreVisits(c: Cursor)
    requires c.i <= |c.lines| && forall m | m in c.marks :: !(c.i <= m < |c.lines|)
    ensures Normalize(c) == c.lines
    decreases |c.lines| - c.i
  {
    if c.i < |c.lines| { NoMoreVisits(c.(i := c.i + 1)); }
  }

  // ---------------------------------------------------------------------------------------
  // Lines are kept
  // ---------------------------------------------------------------------------------------

  /** Blank lines inside a list may be replaced by any others. */
  lemma InkOfMiddle(front: seq<Line>, blanks: seq<Line>, other: seq<Line>, back: seq<Line>)
    requires (forall l | l in blanks :: IsBlank(l)) && forall l | l in other :: IsBlank(l)
    ensures Ink(front + blanks + back) == Ink(front + other + back)
  {
    InkJoin(front + blanks, back);
    InkJoin(front, blanks);
    InkJoin(front + other, back);
    InkJoin(front, other);
    InkOfBlanks(blanks);
    InkOfBlanks(other);
  }

  /** Before, as a change of the blank lines above. */
  lemma BeforeAround(c: Cursor, b: nat) returns (above: seq<Line>)
    requires c.i < |c.lines| && b == BlanksAbove(c.lines, c.i)
    ensures b <= c.i && Before(c).lines == c.lines[..c.i - b] + above + c.lines[c.i..]
    ensures forall l | l in above :: IsBlank(l)
  {
    hide *;
    BeforeCounts(c, b);
    EmptyIsBlank();
    if b == c.i {
      above := [];
      BeforeFirst(c, b);
    } else if b == 0 {
      above := [EMPTY_LINE];
    } else {
      above := [c.lines[c.i - 1]];
      BeforeSome(c, b);
    }
  }

  lemma BeforeFirst(c: Cursor, b: nat)
    requires c.i < |c.lines| && b == BlanksAbove(c.lines, c.i) == c.i
    ensures Before(c).lines == c.lines[..c.i - b] + [] + c.lines[c.i..]
  {
    hide *;
    BeforeCounts(c, b);
    assert c.lines[..0] + [] + c.lines[c.i..] == c.lines[c.i..];
    assert c.lines[0..] == c.lines;
  }

  lemma BeforeSome(c: Cursor, b: nat)
    requires c.i < |c.lines| && 0 < b == BlanksAbove(c.lines, c.i) < c.i
    ensures Before(c).lines == c.lines[..c.i - b] + [c.lines[c.i - 1]] + c.lines[c.i..]
  {
    hide *;
    BeforeCounts(c, b);
    LineAndRest(c.lines, c.i - 1);
    FrontMiddle(c.lines[..c.i - b], c.lines[c.i - 1], c.lines[c.i..]);
    FrontAndRest(c.lines, c.i - 1);
  }

  lemma FrontAndRest(lines: seq<Line>, i: nat)
    requires i <= |lines|
    ensures lines == lines[..i] + lines[i..]
  {
  }

  lemma LineAndRest(lines: seq<Line>, k: nat)
    requires k < |lines|
    ensures lines[k..] == [lines[k]] + lines[k + 1..]
  {
  }

  lemma FrontMiddle(front: seq<Line>, l: Line, back: seq<Line>)
    ensures front + ([l] + back) == front + [l] + back
  {
  }

  lemma BeforeInk(c: Cursor)
    requires c.i < |c.lines|
    ensures Ink(Before(c).lines) == Ink(c.lines)
  {
    hide *;
    var b := BlanksAbove(c.lines, c.i);
    var above := BeforeAround(c, b);
    InThree(c.lines, c.i - b, c.i);
    InkOfMiddle(c.lines[..c.i - b], c.lines[c.i - b..c.i], above, c.lines[c.i..]);
  }

  lemma EmptyIsBlank()
    ensures IsBlank(EMPTY_LINE)
  {
  }

  lemma InThree(lines: seq<Line>, i: nat, j: nat)
    requires i <= j <= |lines|
    ensures lines == lines[..i] + lines[i..j] + lines[j..]
  {
  }

  lemma AfterInk(c: Cursor)
    requires c.i < |c.lines|
    ensures Ink(After(c).lines) == Ink(c.lines)
  {
    hide *;
    var a := BlanksFrom(c.lines, c.i + 1);
    AfterCounts(c, a);
    EmptyIsBlank();
    var front, blanks, back := c.lines[..c.i + 1], c.lines[c.i + 1..c.i + 1 + a], c.lines[c.i + 1 + a..];
    InThree(c.lines, c.i + 1, c.i + 1 + a);
    InkOfMiddle(front, blanks, [EMPTY_LINE], back);
  }

  /** The lines that are not blank stay, in order, for every input. */
  lemma {:induction false} SpacingKeepsLines(c: Cursor)
    requires c.i <= |c.lines|
    ensures Ink(Normalize(c)) == Ink(c.lines)
    decreases |c.lines| - c.i
  {
    hide Ink, Before, After;
    if c.i < |c.lines| {
      if c.i in c.marks {
        BeforeInk(c);
        AfterInk(Before(c));
        SpacingKeepsLines(Turn(c));
      } else {
        SpacingKeepsLines(c.(i := c.i + 1));
      }
    }
  }

  // ---------------------------------------------------------------------------------------
  // What the cursor has passed
  // ---------------------------------------------------------------------------------------

  /** A turn behind a line that is not blank leaves everything up to that line alone. */
  lemma TurnBehindWall(c: Cursor, wall: nat)
    requires wall < c.i < |c.lines| && !IsBlank(c.lines[wall])
    ensures var r := Turn(c); wall < r.i <= |r.lines| && r.lines[..wall + 1] == c.lines[..wall + 1]
  {
    var b := BlanksAbove(c.lines, c.i);
    assert b < c.i - wall;
    var d := Before(c);
    assert d.i > wall && d.lines[..wall + 1] == c.lines[..wall + 1];
    assert After(d).lines[..d.i + 1] == d.lines[..d.i + 1];
    assert After(d).lines[..wall + 1] == After(d).lines[..d.i + 1][..wall + 1];
  }

  lemma {:induction false} PassedIsFinal(c: Cursor, wall: nat)
    requires wall < c.i <= |c.lines| && !IsBlank(c.lines[wall])
    ensures |Normalize(c)| > wall && Normalize(c)[..wall + 1] == c.lines[..wall + 1]
    decreases |c.lines| - c.i
  {
    hide Turn;
    if c.i < |c.lines| {
      if c.i in c.marks {
        TurnBehindWall(c, wall);
        TurnShrinks(c);
        assert Turn(c).lines[wall] == Turn(c).lines[..wall + 1][wall];
        PassedIsFinal(Turn(c), wall);
      } else {
        PassedIsFinal(c.(i := c.i + 1), wall);
      }
    }
  }

  /** Line q has exactly one blank line behind it. */
  predicate SpacedBelow(lines: seq<Line>, q: nat) {
    q + 1 < |lines| && IsBlank(lines[q + 1]) && (q + 2 < |lines| ==> !IsBlank(lines[q + 2]))
  }

  /** Line q has exactly one blank line above it, and something above that; or it is the first line. */
  predicate SpacedAbove(lines: seq<Line>, q: nat, contentAbove: bool) {
    q < |lines| && !IsBlank(lines[q])
    && if contentAbove then q >= 2 && IsBlank(lines[q - 1]) && !IsBlank(lines[q - 2]) else q == 0
  }

  lemma BeforeSpaces(c: Cursor)
    requires c.i < |c.lines| && !IsBlank(c.lines[c.i])
    ensures var d := Before(c);
            d.lines[d.i] == c.lines[c.i] && SpacedAbove(d.lines, d.i, BlanksAbove(c.lines, c.i) < c.i)
  {
    var d := Before(c);
    assert d.lines[d.i] == d.lines[d.i..][0] == c.lines[c.i..][0];
  }

  lemma AfterSpaces(d: Cursor)
    requires d.i < |d.lines|
    ensures var r := After(d); SpacedBelow(r.lines, d.i) && forall k | 0 <= k <= d.i :: r.lines[k] == d.lines[k]
  {
  }

  /** A turn at a line spaces it. */
  lemma TurnSpaces(c: Cursor)
    requires c.i < |c.lines| && !IsBlank(c.lines[c.i])
    ensures var r := Turn(c);
            && r.i >= 2 && SpacedBelow(r.lines, r.i - 2)
            && SpacedAbove(r.lines, r.i - 2, BlanksAbove(c.lines, c.i) < c.i)
            && r.lines[r.i - 2] == c.lines[c.i]
  {
    hide Before, After, BlanksAbove;
    BeforeSpaces(c);
    AfterSpaces(Before(c));
  }

  /** Spacing that the cursor has passed stays. */
  lemma SpacingIsFinal(c: Cursor, q: nat, contentAbove: bool)
    requires q + 2 == c.i <= |c.lines| && SpacedBelow(c.lines, q) && SpacedAbove(c.lines, q, contentAbove)
    ensures SpacedBelow(Normalize(c), q) && SpacedAbove(Normalize(c), q, contentAbove)
    ensures Normalize(c)[q] == c.lines[q]
  {
    hide Normalize, Turn;
    if c.i == |c.lines| {
      NoMoreVisits(c);
    } else {
      var d := if c.i in c.marks then Turn(c) else c.(i := c.i + 1);
      if c.i in c.marks { TurnHere(c); }
      NormalizeStep(c);
      PassedIsFinal(d, q + 2);
      assert forall k | 0 <= k <= q + 2 :: Normalize(c)[k] == Normalize(c)[..q + 3][k] == c.lines[..q + 3][k];
    }
  }

  lemma NormalizeStep(c: Cursor)
    requires c.i < |c.lines|
    ensures Turn(c).i <= |Turn(c).lines|
    ensures Normalize(c) == if c.i in c.marks then Normalize(Turn(c)) else Normalize(c.(i := c.i + 1))
  {
    hide Turn;
    TurnShrinks(c);
  }

  /** A turn at a line with one blank line above it, below other text, leaves everything up to it alone. */
  lemma TurnHere(c: Cursor)
    requires 2 <= c.i < |c.lines| && !IsBlank(c.lines[c.i]) && IsBlank(c.lines[c.i - 1]) && !IsBlank(c.lines[c.i - 2])
    ensures var r := Turn(c); c.i < r.i <= |r.lines| && r.lines[..c.i + 1] == c.lines[..c.i + 1]
  {
    assert BlanksAbove(c.lines, c.i) == 1 + BlanksAbove(c.lines, c.i - 1) == 1;
  }

  /** Line p is the first #pragma once. */
  predicate FirstOnce(lines: seq<Line>, p: nat) {
    p < |lines| && lines[p].kind == Once && forall k | 0 <= k < p :: lines[k].kind != Once
  }

  /** Line p is the only #pragma once. */
  predicate OnlyOnce(lines: seq<Line>, p: nat) {
    FirstOnce(lines, p) && forall k | p < k < |lines| :: lines[k].kind != Once
  }

  /** pragma_idxs are the indices of the #pragma once lines. */
  lemma {:induction false} OncesAreAll(lines: seq<Line>, i: nat)
    requires i <= |lines|
    ensures forall m: int :: m in Onces(lines, i) <==> i <= m < |lines| && lines[m].kind == Once
    decreases |lines| - i
  {
    if i < |lines| { OncesAreAll(lines, i + 1); }
  }

  lemma {:induction false} OncesOfOne(lines: seq<Line>, p: nat, i: nat)
    requires OnlyOnce(lines, p) && i <= |lines|
    ensures Onces(lines, i) == if i <= p then [p] else []
    decreases |lines| - i
  {
    if i < |lines| { OncesOfOne(lines, p, i + 1); }
  }

  lemma {:induction false} SkipTo(c: Cursor, p: nat)
    requires c.i <= p < |c.lines| && p in c.marks && forall m | c.i <= m < p :: m !in c.marks
    ensures Turn(c.(i := p)).i <= |Turn(c.(i := p)).lines| && Normalize(c) == Normalize(Turn(c.(i := p)))
    decreases p - c.i
  {
    hide Turn;
    TurnShrinks(c.(i := p));
    if c.i < p { SkipTo(c.(i := c.i + 1), p); }
  }

  /**
   * Exactly one blank line follows the first #pragma once, and exactly one precedes it when anything
   * stands above it; otherwise it becomes the first line. This holds whatever follows.
   */
  lemma FirstPragmaIsSpaced(lines: seq<Line>, p: nat) returns (q: nat)
    requires FirstOnce(lines, p)
    ensures var r := Normalize(Start(lines));
            && q < |r| && r[q] == lines[p]
            && SpacedBelow(r, q) && SpacedAbove(r, q, exists k :: 0 <= k < p && !IsBlank(lines[k]))
  {
    hide Normalize, Onces, BlanksAbove, Turn;
    OncesAreAll(lines, 0);
    SkipTo(Start(lines), p);
    var c := Start(lines).(i := p);
    TurnSpaces(c);
    AnythingAbove(lines, p);
    q := Turn(c).i - 2;
    SpacingIsFinal(Turn(c), q, BlanksAbove(lines, p) < p);
  }

  lemma AnythingAbove(lines: seq<Line>, p: nat)
    requires p <= |lines|
    ensures BlanksAbove(lines, p) < p <==> exists k :: 0 <= k < p && !IsBlank(lines[k])
  {
    var b := BlanksAbove(lines, p);
    if b < p { assert !IsBlank(lines[p - b - 1]); }
  }

  // ---------------------------------------------------------------------------------------
  // Whether everything else is left untouched
  // ---------------------------------------------------------------------------------------

  /** The lines once the pragma at line p is spaced, and nothing else is touched. */
  function Spaced(lines: seq<Line>, p: nat): seq<Line>
    requires p < |lines|
  {
    Turn(Cursor(lines, p, [p])).lines
  }

  /** Spacing a line replaces the blank lines next to it, and nothing else. */
  lemma SpacedTouchesOnlyGaps(lines: seq<Line>, p: nat) returns (above: seq<Line>, below: Line)
    requires p < |lines|
    ensures Spaced(lines, p) == lines[..p - BlanksAbove(lines, p)] + above + [lines[p]] + [below]
                                + lines[p + (1 + BlanksFrom(lines, p + 1))..]
    ensures (forall l | l in above :: IsBlank(l)) && IsBlank(below)
    ensures above == if BlanksAbove(lines, p) == p then [] else if BlanksAbove(lines, p) == 0 then [EMPTY_LINE] else [lines[p - 1]]
    ensures below == if BlanksFrom(lines, p + 1) == 1 then lines[p + 1] else EMPTY_LINE
  {
    hide *;
    above := BeforeInParts(lines, p);
    below := AfterInParts(lines, p, Before(Cursor(lines, p, [p])), 1 + BlanksFrom(lines, p + 1));
    SpacedIs(lines, p);
  }

  lemma AfterInParts(lines: seq<Line>, p: nat, d: Cursor, k: nat) returns (below: Line)
    requires p < |lines| && d.i < |d.lines| && d.lines[d.i..] == lines[p..] && k == 1 + BlanksFrom(lines, p + 1)
    ensures After(d).lines == d.lines[..d.i] + [lines[p]] + [below] + lines[p + k..]
    ensures IsBlank(below) && below == if k == 2 then lines[p + 1] else EMPTY_LINE
  {
    hide *;
    SameEnd(lines, p, d.lines, d.i, 0);
    SameEnd(lines, p, d.lines, d.i, 1);
    SameBlanks(lines, p + 1, d.lines, d.i + 1);
    SameEnd(lines, p, d.lines, d.i, k);
    below := AfterIs(d, k);
  }

  lemma SpacedIs(lines: seq<Line>, p: nat)
    requires p < |lines|
    ensures Spaced(lines, p) == After(Before(Cursor(lines, p, [p]))).lines
  {
  }

  lemma BeforeInParts(lines: seq<Line>, p: nat) returns (above: seq<Line>)
    requires p < |lines|
    ensures var b, d := BlanksAbove(lines, p), Before(Cursor(lines, p, [p]));
            && d.i < |d.lines| && d.lines[..d.i] == lines[..p - b] + above && d.lines[d.i..] == lines[p..]
            && (forall l | l in above :: IsBlank(l))
            && above == if b == p then [] else if b == 0 then [EMPTY_LINE] else [lines[p - 1]]
  {
    hide BlanksAbove;
    var b := BlanksAbove(lines, p);
    above := if b == p then [] else if b == 0 then [EMPTY_LINE] else [lines[p - 1]];
    var d := Before(Cursor(lines, p, [p]));
    assert d.lines[..d.i] == lines[..p - b] + above;
  }

  lemma AfterIs(d: Cursor, k: nat) returns (below: Line)
    requires d.i < |d.lines| && k == 1 + BlanksFrom(d.lines, d.i + 1)
    ensures After(d).lines == d.lines[..d.i] + [d.lines[d.i]] + [below] + d.lines[d.i + k..]
    ensures IsBlank(below) && below == if k == 2 then d.lines[d.i + 1] else EMPTY_LINE
  {
    hide BlanksFrom;
    below := if BlanksFrom(d.lines, d.i + 1) == 1 then d.lines[d.i + 1] else EMPTY_LINE;
  }

  lemma SameEnd(lines: seq<Line>, p: nat, other: seq<Line>, q: nat, k: nat)
    requires p + k <= |lines| && q <= |other| && lines[p..] == other[q..]
    ensures q + k <= |other| && lines[p + k..] == other[q + k..]
    ensures p + k < |lines| ==> q + k < |other| && lines[p + k] == other[q + k]
  {
    assert lines[p + k..] == lines[p..][k..] && other[q + k..] == other[q..][k..];
    if p + k < |lines| { assert lines[p + k] == lines[p..][k] && other[q + k] == other[q..][k]; }
  }

  /** Lists that end alike have equally many blank lines there. */
  lemma {:induction false} SameBlanks(lines: seq<Line>, p: nat, other: seq<Line>, q: nat)
    requires p <= |lines| && q <= |other| && lines[p..] == other[q..]
    ensures BlanksFrom(lines, p) == BlanksFrom(other, q)
    decreases |lines| - p
  {
    if p < |lines| {
      SameEnd(lines, p, other, q, 0);
      SameEnd(lines, p, other, q, 1);
      SameBlanks(lines, p + 1, other, q + 1);
    }
  }

  /**
   * Deleting blank lines above the pragma does not correct its recorded index. The index is still ahead
   * when at least three of them stood there, below other text.
   */
  predicate Stale(lines: seq<Line>, p: nat)
    requires p < |lines|
  {
    3 <= BlanksAbove(lines, p) < p && p < |Spaced(lines, p)|
  }

  /** What a turn does to the cursor and its mark. */
  lemma TurnMoves(c: Cursor)
    requires c.i < |c.lines| && c.marks == [c.i]
    ensures var b, r := BlanksAbove(c.lines, c.i), Turn(c);
            && (b == c.i ==> r.i == 2 && r.marks == [0])
            && (b == 0 && c.i > 0 ==> r.i == c.i + 3 && r.marks == [c.i + 1])
            && (1 <= b < c.i ==> r.i == c.i - b + 3 && r.marks == [c.i])
  {
    hide BlanksAbove, BlanksFrom;
  }

  /** Line p has one blank line above it and one below, or is one of three empty lines. */
  predicate HasRoom(lines: seq<Line>, p: nat)
    requires p < |lines|
  {
    var a, b := BlanksAbove(lines, p), BlanksFrom(lines, p + 1);
    (a == 1 && b == 1) || (a + b == 2 && forall k | p - a <= k <= p + b :: lines[k] == EMPTY_LINE)
  }

  /** Below other text, spacing changes nothing exactly when the line has room already. */
  lemma RoomIsSpaced(lines: seq<Line>, p: nat)
    requires p < |lines| && BlanksAbove(lines, p) < p
    ensures Spaced(lines, p) == lines <==> HasRoom(lines, p)
  {
    hide *;
    var a, b := BlanksAbove(lines, p), BlanksFrom(lines, p + 1);
    var r := Spaced(lines, p);
    RoomIs(lines, p, a, b);
    var above, below := SpacedParts(lines, p, a, b);
    if a + b == 2 {
      SamePlaces(lines, p, a, b, above, below, r);
    }
  }

  lemma RoomIs(lines: seq<Line>, p: nat, a: nat, b: nat)
    requires p < |lines| && a == BlanksAbove(lines, p) && b == BlanksFrom(lines, p + 1)
    ensures a <= p && p + b < |lines|
    ensures HasRoom(lines, p) <==>
            (a == 1 && b == 1) || (a + b == 2 && forall k | p - a <= k <= p + b :: lines[k] == EMPTY_LINE)
  {
  }

  /** SpacedTouchesOnlyGaps, with the two blank lines named. */
  lemma SpacedParts(lines: seq<Line>, p: nat, a: nat, b: nat) returns (above: Line, below: Line)
    requires p < |lines| && a == BlanksAbove(lines, p) < p && b == BlanksFrom(lines, p + 1)
    ensures p + 1 + b <= |lines|
    ensures Spaced(lines, p) == lines[..p - a] + [above, lines[p], below] + lines[p + (1 + b)..]
    ensures above == if a == 0 then EMPTY_LINE else lines[p - 1]
    ensures below == if b == 1 then lines[p + 1] else EMPTY_LINE
  {
    hide *;
    above := if a == 0 then EMPTY_LINE else lines[p - 1];
    var gap;
    gap, below := SpacedTouchesOnlyGaps(lines, p);
    assert lines[..p - a] + [above, lines[p], below] == (lines[..p - a] + [above]) + [lines[p]] + [below];
  }

  /** Three lines in place of three. */
  lemma SamePlaces(lines: seq<Line>, p: nat, a: nat, b: nat, above: Line, below: Line, r: seq<Line>)
    requires a + b == 2 && a <= p && p + b < |lines|
    requires r == lines[..p - a] + [above, lines[p], below] + lines[p + (1 + b)..]
    ensures r == lines <==> lines[p - a] == above && lines[p - a + 1] == lines[p] && lines[p + b] == below
  {
    assert r[p - a] == above && r[p - a + 1] == lines[p] && r[p - a + 2] == below;
    if lines[p - a] == above && lines[p - a + 1] == lines[p] && lines[p + b] == below {
      assert lines == lines[..p - a] + lines[p - a..p + b + 1] + lines[p + (1 + b)..];
      assert lines[p - a..p + b + 1] == [above, lines[p], below];
    }
  }

  /**
   * Everything but the pragma's spacing is left untouched exactly when its index is not stale, or
   * the line that now has this index has room already.
   */
  lemma UntouchedExactly(lines: seq<Line>, p: nat)
    requires OnlyOnce(lines, p)
    ensures Normalize(Start(lines)) == Spaced(lines, p)
       <==> !Stale(lines, p) || HasRoom(Spaced(lines, p), p)
  {
    hide Normalize, BlanksAbove;
    var c := Cursor(lines, p, [p]);
    OncesOfOne(lines, p, 0);
    SkipTo(Start(lines), p);
    TurnShrinks(c);
    TurnMoves(c);
    TurnSpaces(c);
    var d := Turn(c);
    if !Stale(lines, p) {
      NoMoreVisits(d);
    } else {
      SkipTo(d, p);
      SecondTurn(d, p);
      FewAbove(d.lines, p, d.i - 2);
      RoomIsSpaced(d.lines, p);
    }
  }

  /** The turn at the stale index, and all that follow. */
  lemma SecondTurn(d: Cursor, p: nat)
    requires 2 <= d.i <= p < |d.lines| && d.marks == [p] && !IsBlank(d.lines[d.i - 2])
    requires Turn(d.(i := p)).i <= |Turn(d.(i := p)).lines|
    ensures Normalize(Turn(d.(i := p))) == d.lines <==> Spaced(d.lines, p) == d.lines
  {
    hide Normalize, BlanksAbove, Turn;
    var c := d.(i := p);
    TurnMoves(c);
    var b := BlanksAbove(d.lines, p);
    FewAbove(d.lines, p, d.i - 2);
    if b <= 2 {
      NoMoreVisits(Turn(c));
    } else {
      SecondTurnMoves(d, p);
      SecondTurnCuts(d, p);
    }
  }

  lemma FewAbove(lines: seq<Line>, p: nat, q: nat)
    requires q < p < |lines| && !IsBlank(lines[q])
    ensures BlanksAbove(lines, p) < p - q
  {
  }

  /** After three blank lines or more, the second turn leaves a shorter gap. */
  lemma SecondTurnMoves(d: Cursor, p: nat)
    requires p < |d.lines| && d.marks == [p] && 3 <= BlanksAbove(d.lines, p) < p
    ensures var c, b := d.(i := p), BlanksAbove(d.lines, p);
            var e, h := Turn(c), p - b - 1;
            && e.i == h + 4 <= |e.lines| && e.marks == [p]
            && e.lines[h + 2] == d.lines[p]
            && (IsBlank(d.lines[p]) ==> IsBlank(e.lines[h + 1]) && IsBlank(e.lines[h + 2]) && IsBlank(e.lines[h + 3]))
            && (h + 4 < |e.lines| ==> !IsBlank(e.lines[h + 4]))
            && e.lines[..h + 1] == d.lines[..h + 1] && Spaced(d.lines, p) == e.lines && |e.lines| < |d.lines|
            && (forall k | h < k < p :: IsBlank(d.lines[k])) && !IsBlank(d.lines[h])
  {
    hide BlanksAbove, BlanksFrom;
    var c, b := d.(i := p), BlanksAbove(d.lines, p);
    var f, h := Before(c), p - b - 1;
    assert f.i == h + 2 && f.lines == d.lines[..h + 1] + d.lines[p - 1..];
    assert f.lines[h + 1] == d.lines[p - 1] && f.lines[h + 2] == d.lines[p];
    AfterSpaces(f);
    assert After(f).lines[..h + 1] == f.lines[..h + 1];
    assert After(f).marks == [p];
  }

  /** So the end result differs from the lines before the second turn. */
  lemma SecondTurnCuts(d: Cursor, p: nat)
    requires p < |d.lines| && d.marks == [p] && 3 <= BlanksAbove(d.lines, p) < p
    requires Turn(d.(i := p)).i <= |Turn(d.(i := p)).lines|
    ensures Normalize(Turn(d.(i := p))) != d.lines
  {
    hide Normalize, BlanksAbove, Turn;
    SecondTurnMoves(d, p);
    var e, h := Turn(d.(i := p)), p - BlanksAbove(d.lines, p) - 1;
    if !IsBlank(d.lines[p]) {
      PassedIsFinal(e, h + 2);
      assert Normalize(e)[h + 2] == Normalize(e)[..h + 3][h + 2] == e.lines[..h + 3][h + 2];
    } else if |e.lines| == h + 4 {
      NoMoreVisits(e);
    } else if p == h + 4 {
      ThirdTurn(e, h);
    } else {
      NormalizeStep(e);
      PassedIsFinal(e.(i := h + 5), h + 4);
      assert Normalize(e)[h + 4] == Normalize(e)[..h + 5][h + 4] == e.lines[..h + 5][h + 4];
    }
  }

  /** The turn at a line below three blank ones. */
  lemma ThirdTurn(e: Cursor, h: nat)
    requires e.i == h + 4 < |e.lines| && e.marks == [e.i] && !IsBlank(e.lines[h]) && !IsBlank(e.lines[h + 4])
    requires IsBlank(e.lines[h + 1]) && IsBlank(e.lines[h + 2]) && IsBlank(e.lines[h + 3])
    ensures |Normalize(e)| > h + 2 && !IsBlank(Normalize(e)[h + 2])
  {
    hide Normalize, Turn;
    assert BlanksAbove(e.lines, h + 2) == 1 + BlanksAbove(e.lines, h + 1) == 1;
    assert BlanksAbove(e.lines, h + 4) == 1 + BlanksAbove(e.lines, h + 3) == 2 + BlanksAbove(e.lines, h + 2);
    TurnShrinks(e);
    TurnMoves(e);
    TurnSpaces(e);
    NormalizeStep(e);
    PassedIsFinal(Turn(e), h + 2);
    assert Normalize(e)[h + 2] == Normalize(e)[..h + 3][h + 2] == Turn(e).lines[..h + 3][h + 2];
  }

  const CODE := Line(Plain, false, "int x;")

  /** With three blank lines above the pragma, other lines are pulled apart. */
  lemma ThreeBlanksPullApart()
    ensures var lines := [CODE, EMPTY_LINE, EMPTY_LINE, EMPTY_LINE, PRAGMA_ONCE, EMPTY_LINE, CODE, CODE];
            && OnlyOnce(lines, 4)
            && Spaced(lines, 4) == [CODE, EMPTY_LINE, PRAGMA_ONCE, EMPTY_LINE, CODE, CODE]
            && Normalize(Start(lines)) != Spaced(lines, 4)
  {
    hide *;
    var lines := [CODE, EMPTY_LINE, EMPTY_LINE, EMPTY_LINE, PRAGMA_ONCE, EMPTY_LINE, CODE, CODE];
    Pulled(lines);
    PulledOnce(lines);
    PulledTwice(Spaced(lines, 4));
    UntouchedExactly(lines, 4);
  }

  lemma Pulled(lines: seq<Line>)
    requires lines == [CODE, EMPTY_LINE, EMPTY_LINE, EMPTY_LINE, PRAGMA_ONCE, EMPTY_LINE, CODE, CODE]
    ensures OnlyOnce(lines, 4)
    ensures BlanksAbove(lines, 4) == 3 && |Spaced(lines, 4)| == 6 ==> Stale(lines, 4)
  {
    hide BlanksAbove, BlanksFrom, Turn;
  }

  lemma PulledOnce(lines: seq<Line>)
    requires lines == [CODE, EMPTY_LINE, EMPTY_LINE, EMPTY_LINE, PRAGMA_ONCE, EMPTY_LINE, CODE, CODE]
    ensures BlanksAbove(lines, 4) == 3
    ensures Spaced(lines, 4) == [CODE, EMPTY_LINE, PRAGMA_ONCE, EMPTY_LINE, CODE, CODE]
  {
    hide Spaced;
    assert BlanksAbove(lines, 2) == 1 + BlanksAbove(lines, 1) == 1;
    assert BlanksAbove(lines, 4) == 1 + BlanksAbove(lines, 3) == 2 + BlanksAbove(lines, 2) == 3;
    SpacedExactly(lines);
  }

  lemma SpacedExactly(lines: seq<Line>)
    requires lines == [CODE, EMPTY_LINE, EMPTY_LINE, EMPTY_LINE, PRAGMA_ONCE, EMPTY_LINE, CODE, CODE]
    requires BlanksAbove(lines, 4) == 3
    ensures Spaced(lines, 4) == [CODE, EMPTY_LINE, PRAGMA_ONCE, EMPTY_LINE, CODE, CODE]
  {
    hide BlanksAbove;
    var d := Before(Cursor(lines, 4, [4]));
    assert d == Cursor([CODE, EMPTY_LINE, PRAGMA_ONCE, EMPTY_LINE, CODE, CODE], 2, [4]);
    assert BlanksFrom(d.lines, 3) == 1 + BlanksFrom(d.lines, 4) == 1;
  }

  lemma PulledTwice(once: seq<Line>)
    requires once == [CODE, EMPTY_LINE, PRAGMA_ONCE, EMPTY_LINE, CODE, CODE]
    ensures !HasRoom(once, 4)
  {
    hide BlanksAbove;
    OneAbove(once);
    assert BlanksFrom(once, 5) == 0;
  }

  lemma OneAbove(once: seq<Line>)
    requires once == [CODE, EMPTY_LINE, PRAGMA_ONCE, EMPTY_LINE, CODE, CODE]
    ensures BlanksAbove(once, 4) == 1
  {
    assert BlanksAbove(once, 4) == 1 + BlanksAbove(once, 3) == 1;
  }
}
