/** What scripts/cpp/harmonize_linebreaks_pragmaonce.py does to several #pragma once lines. */
module PragmaRuns {
  import opened Directives
  import opened PragmaSpacing

  predicate Pragma(lines: seq<Line>, m: int) { 0 <= m < |lines| && lines[m].kind == Once }

  /** One blank line follows, and at most one stands above, or nothing but blank lines does. */
  predicate Roomy(lines: seq<Line>, m: nat)
    requires m < |lines|
  {
    SpacedBelow(lines, m) && (BlanksAbove(lines, m) <= 1 || BlanksAbove(lines, m) == m)
  }

  /** Exactly one blank line follows, and exactly one stands above, below other text, unless it is the first line. */
  predicate WellSpaced(lines: seq<Line>, m: nat) {
    SpacedBelow(lines, m) && (m == 0 || SpacedAbove(lines, m, true))
  }

  /** The marks ahead are the pragmas, which have room below; the pragmas behind the cursor are spaced. */
  ghost predicate OnCourse(c: Cursor) {
    && c.i <= |c.lines| && (forall m | c.i <= m :: m in c.marks <==> Pragma(c.lines, m))
    && (forall m | c.i <= m && Pragma(c.lines, m) :: Roomy(c.lines, m))
    && (forall m | 0 <= m < c.i && Pragma(c.lines, m) :: WellSpaced(c.lines, m))
  }

  lemma SpacedBelowIsOne(lines: seq<Line>, m: nat)
    requires m < |lines|
    ensures SpacedBelow(lines, m) <==> m + 1 < |lines| && BlanksFrom(lines, m + 1) == 1
  {
  }

  lemma StepOver(c: Cursor)
    requires OnCourse(c) && c.i < |c.lines| && c.i !in c.marks
    ensures OnCourse(c.(i := c.i + 1))
  {
    hide Roomy, WellSpaced;
  }

  /** A turn at a pragma that has one blank line on both sides, or stands first. */
  lemma TurnRests(c: Cursor)
    requires OnCourse(c) && Pragma(c.lines, c.i) && (BlanksAbove(c.lines, c.i) == 1 < c.i || c.i == 0)
    ensures OnCourse(Turn(c))
  {
    hide BlanksAbove, Before, After, BlanksFrom;
    assert Roomy(c.lines, c.i);
    SpacedBelowIsOne(c.lines, c.i);
    BeforeCounts(c, BlanksAbove(c.lines, c.i));
    AfterCounts(c, 1);
    assert Turn(c) == c.(i := c.i + 2);
    if c.i > 0 { OneAbove(c.lines, c.i); }
  }

  lemma OneAbove(lines: seq<Line>, m: nat)
    requires m < |lines| && BlanksAbove(lines, m) == 1 < m && !IsBlank(lines[m])
    ensures SpacedAbove(lines, m, true)
  {
  }

  /** Below a line that is not blank, the blank lines above are counted alike. */
  lemma {:induction false} AboveMoves(lines: seq<Line>, other: seq<Line>, q: nat, r: nat, m: nat)
    requires q < m <= |lines| && r < |other| && lines[q..] == other[r..] && !IsBlank(lines[q])
    ensures r + (m - q) <= |other| && BlanksAbove(lines, m) == BlanksAbove(other, r + (m - q))
    decreases m
  {
    assert |lines| - q == |other| - r;
    assert lines[m - 1] == lines[q..][m - 1 - q] && other[r + (m - q) - 1] == other[r..][m - 1 - q];
    if m - 1 > q { AboveMoves(lines, other, q, r, m - 1); }
  }

  /** A line has room where it stands, when the lines from q on have moved to r, behind one that is not blank. */
  lemma RoomMoves(lines: seq<Line>, other: seq<Line>, q: nat, r: nat, m: nat)
    requires q + 1 < m < |lines| && r < |other| && lines[q..] == other[r..] && !IsBlank(lines[q])
    requires Roomy(lines, m) && !IsBlank(lines[m])
    ensures var k := r + (m - q); k < |other| && other[k] == lines[m] && Roomy(other, k)
  {
    hide BlanksAbove;
    var k := r + (m - q);
    assert |lines| - q == |other| - r;
    assert forall x | q <= x < |lines| :: lines[x] == lines[q..][x - q] == other[r..][x - q] == other[r + (x - q)];
    AboveMoves(lines, other, q, r, m);
    AboveShort(lines, q, m);
  }

  lemma AboveShort(lines: seq<Line>, q: nat, m: nat)
    requires q < m <= |lines| && !IsBlank(lines[q])
    ensures BlanksAbove(lines, m) < m - q
  {
  }

  lemma TurnInsertsIs(c: Cursor)
    requires OnCourse(c) && Pragma(c.lines, c.i) && BlanksAbove(c.lines, c.i) == 0 < c.i
    ensures Turn(c) == Cursor(c.lines[..c.i] + [EMPTY_LINE] + c.lines[c.i..], c.i + 3, Shift(c.marks, c.i, 1))
    ensures !IsBlank(c.lines[c.i - 1]) && c.i + 1 < |c.lines| && IsBlank(c.lines[c.i + 1])
    ensures c.i + 2 < |c.lines| ==> !IsBlank(c.lines[c.i + 2])
  {
    hide BlanksAbove, Before, After;
    assert Roomy(c.lines, c.i);
    SpacedBelowIsOne(c.lines, c.i);
    BeforeCounts(c, 0);
    var d := Before(c);
    assert d.lines[d.i + 1..] == c.lines[c.i + 1..];
    SameBlanks(c.lines, c.i + 1, d.lines, d.i + 1);
    AfterCounts(d, 1);
  }

  lemma ShiftedMark(marks: seq<int>, least: int, step: int, m: int)
    requires m >= least + (if step > 0 then step else 0) && m - step >= least
    ensures m in Shift(marks, least, step) <==> m - step in marks
  {
    var s := Shift(marks, least, step);
    if m - step in marks {
      var k :| 0 <= k < |marks| && marks[k] == m - step;
      assert s[k] == m;
    }
    if m in s {
      var k :| 0 <= k < |s| && s[k] == m;
      assert marks[k] == m - step;
    }
  }

  lemma InsertedBehind(c: Cursor, m: nat)
    requires OnCourse(c) && Pragma(c.lines, c.i) && BlanksAbove(c.lines, c.i) == 0 < c.i
    requires m < Turn(c).i && Pragma(Turn(c).lines, m)
    ensures WellSpaced(Turn(c).lines, m)
  {
    hide BlanksAbove, Before, After, BlanksFrom, Roomy, Turn;
    var i, lines, d := c.i, c.lines, Turn(c);
    TurnInsertsIs(c);
    assert forall x | 0 <= x < i :: d.lines[x] == lines[x];
    assert forall x | i < x < |d.lines| :: d.lines[x] == lines[x - 1];
    assert d.lines[i] == EMPTY_LINE;
    if m < i { assert Pragma(lines, m) && WellSpaced(lines, m); }
  }

  /** The lines from the pragma on, one further down. */
  ghost predicate Lowered(c: Cursor, d: Cursor) {
    && c.i < |c.lines| && |d.lines| == |c.lines| + 1 && d.i == c.i + 3 <= |d.lines| && d.marks == Shift(c.marks, c.i, 1)
    && d.lines[c.i + 1..] == c.lines[c.i..] && forall x | c.i < x < |d.lines| :: d.lines[x] == c.lines[x - 1]
  }

  lemma LoweredMarks(c: Cursor, d: Cursor, m: nat)
    requires OnCourse(c) && Lowered(c, d) && d.i <= m
    ensures m in d.marks <==> Pragma(d.lines, m)
    ensures Pragma(d.lines, m) ==> Pragma(c.lines, m - 1)
  {
    hide Roomy, WellSpaced, Shift;
    ShiftedMark(c.marks, c.i, 1, m);
    assert m - 1 in c.marks <==> Pragma(c.lines, m - 1);
  }

  /** A turn that puts a blank line above the pragma. */
  lemma TurnInserts(c: Cursor)
    requires OnCourse(c) && Pragma(c.lines, c.i) && BlanksAbove(c.lines, c.i) == 0 < c.i
    ensures OnCourse(Turn(c))
  {
    hide BlanksAbove, BlanksFrom, Roomy, WellSpaced, Turn, Shift;
    var d := Turn(c);
    TurnInsertsIs(c);
    assert Lowered(c, d);
    forall m | d.i <= m ensures m in d.marks <==> Pragma(d.lines, m) { LoweredMarks(c, d, m); }
    forall m | d.i <= m && Pragma(d.lines, m) ensures Roomy(d.lines, m) {
      LoweredMarks(c, d, m);
      RoomMoves(c.lines, d.lines, c.i, c.i + 1, m - 1);
    }
    forall m | 0 <= m < d.i && Pragma(d.lines, m) ensures WellSpaced(d.lines, m) { InsertedBehind(c, m); }
  }

  /** A turn that takes away the blank lines at the top. */
  lemma TurnDeletes(c: Cursor)
    requires OnCourse(c) && Pragma(c.lines, c.i) && BlanksAbove(c.lines, c.i) == c.i > 0
    ensures OnCourse(Turn(c))
  {
    hide BlanksAbove, Before, After, BlanksFrom, Roomy, WellSpaced;
    var i, lines, d := c.i, c.lines, Turn(c);
    TurnDeletesIs(c);
    assert d.lines[0..] == lines[i..];
    assert forall x | 0 <= x < |d.lines| :: d.lines[x] == lines[x + i];
    forall m | d.i <= m ensures m in d.marks <==> Pragma(d.lines, m) {
      DeletedMark(c.marks, i, m);
      assert Pragma(d.lines, m) <==> Pragma(lines, m + i);
    }
    forall m | d.i <= m && Pragma(d.lines, m) ensures Roomy(d.lines, m) {
      assert Pragma(lines, m + i);
      RoomMoves(lines, d.lines, i, 0, m + i);
    }
    forall m | 0 <= m < d.i && Pragma(d.lines, m) ensures WellSpaced(d.lines, m) { SpacedAtTop(d.lines); }
  }

  lemma TurnDeletesIs(c: Cursor)
    requires OnCourse(c) && Pragma(c.lines, c.i) && BlanksAbove(c.lines, c.i) == c.i > 0
    ensures Turn(c) == Cursor(c.lines[c.i..], 2, Shift(c.marks, 0, -(c.i as int)))
    ensures c.i + 1 < |c.lines| && IsBlank(c.lines[c.i + 1]) && (c.i + 2 < |c.lines| ==> !IsBlank(c.lines[c.i + 2]))
  {
    hide BlanksAbove, Before, After;
    assert Roomy(c.lines, c.i);
    SpacedBelowIsOne(c.lines, c.i);
    BeforeCounts(c, c.i);
    var d := Before(c);
    assert d.lines[1..] == c.lines[c.i + 1..];
    SameBlanks(c.lines, c.i + 1, d.lines, 1);
    AfterCounts(d, 1);
  }

  lemma DeletedMark(marks: seq<int>, i: nat, m: nat)
    ensures m in Shift(marks, 0, -(i as int)) <==> m + i in marks
  {
    var s := Shift(marks, 0, -(i as int));
    if m + i in marks {
      var k :| 0 <= k < |marks| && marks[k] == m + i;
      assert s[k] == m;
    }
    if m in s {
      var k :| 0 <= k < |s| && s[k] == m;
      assert marks[k] == m + i;
    }
  }

  lemma SpacedAtTop(lines: seq<Line>)
    requires |lines| >= 2 && IsBlank(lines[1]) && (|lines| > 2 ==> !IsBlank(lines[2]))
    ensures WellSpaced(lines, 0)
  {
  }

  lemma {:induction false} StaysOnCourse(c: Cursor)
    requires OnCourse(c)
    ensures forall m | Pragma(Normalize(c), m) :: WellSpaced(Normalize(c), m)
    decreases |c.lines| - c.i
  {
    hide BlanksAbove, Before, After, Roomy, WellSpaced, Turn;
    if c.i < |c.lines| {
      if c.i in c.marks {
        TurnShrinks(c);
        TurnOnCourse(c);
        StaysOnCourse(Turn(c));
      } else {
        StepOver(c);
        StaysOnCourse(c.(i := c.i + 1));
      }
    }
  }

  lemma TurnOnCourse(c: Cursor)
    requires OnCourse(c) && c.i < |c.lines| && c.i in c.marks
    ensures OnCourse(Turn(c))
  {
    hide WellSpaced, Turn, SpacedBelow;
    assert Pragma(c.lines, c.i) && Roomy(c.lines, c.i);
    var b := BlanksAbove(c.lines, c.i);
    if c.i == 0 || b == 1 < c.i {
      TurnRests(c);
    } else if b == 0 {
      TurnInserts(c);
    } else {
      TurnDeletes(c);
    }
  }

  /**
   * When every #pragma once has one blank line below it and no more than one above (or stands first),
   * every one of them ends up with exactly one on both sides, or as the first line.
   */
  lemma SeveralAreSpaced(lines: seq<Line>)
    requires forall m | Pragma(lines, m) :: Roomy(lines, m)
    ensures forall m | Pragma(Normalize(Start(lines)), m) :: WellSpaced(Normalize(Start(lines)), m)
  {
    hide Onces, Normalize, Roomy, WellSpaced;
    OncesAreAll(lines, 0);
    StaysOnCourse(Start(lines));
  }

  lemma FirstTurn(a: Line, b: Line)
    requires a.kind == b.kind == Plain
    ensures Turn(Cursor([PRAGMA_ONCE, a, PRAGMA_ONCE, b], 0, [0, 2]))
         == Cursor([PRAGMA_ONCE, EMPTY_LINE, a, PRAGMA_ONCE, b], 2, [0, 2])
  {
    var lines := [PRAGMA_ONCE, a, PRAGMA_ONCE, b];
    assert BlanksAbove(lines, 0) == 0 && BlanksFrom(lines, 1) == 0;
    assert lines[..1] + [EMPTY_LINE] + lines[1..] == [PRAGMA_ONCE, EMPTY_LINE, a, PRAGMA_ONCE, b];
  }

  lemma NextTurn(a: Line, b: Line)
    requires a.kind == b.kind == Plain
    ensures Turn(Cursor([PRAGMA_ONCE, EMPTY_LINE, a, PRAGMA_ONCE, b], 2, [0, 2]))
         == Cursor([PRAGMA_ONCE, EMPTY_LINE, a, EMPTY_LINE, PRAGMA_ONCE, b], 4, [0, 2])
  {
    var lines := [PRAGMA_ONCE, EMPTY_LINE, a, PRAGMA_ONCE, b];
    assert BlanksAbove(lines, 0) == 0 && BlanksAbove(lines, 1) == 0 && BlanksAbove(lines, 2) == 1;
    assert BlanksFrom(lines, 3) == 0;
    assert lines[..3] + [EMPTY_LINE] + lines[3..] == [PRAGMA_ONCE, EMPTY_LINE, a, EMPTY_LINE, PRAGMA_ONCE, b];
  }

  lemma OncesAt(a: Line, b: Line)
    requires a.kind == b.kind == Plain
    ensures Onces([PRAGMA_ONCE, a, PRAGMA_ONCE, b], 0) == [0, 2]
  {
    var lines := [PRAGMA_ONCE, a, PRAGMA_ONCE, b];
    assert Onces(lines, 4) == [] && Onces(lines, 3) == [] && Onces(lines, 2) == [2] && Onces(lines, 1) == [2];
  }

  /**
   * Without that room it may fail: the blank line put below the first pragma moves the second one past
   * its recorded index, so the second is never looked at.
   */
  lemma SecondIsMissed(a: Line, b: Line)
    requires a.kind == b.kind == Plain
    ensures var r := Normalize(Start([PRAGMA_ONCE, a, PRAGMA_ONCE, b]));
            r == [PRAGMA_ONCE, EMPTY_LINE, a, EMPTY_LINE, PRAGMA_ONCE, b] && !WellSpaced(r, 4)
  {
    hide Turn, Onces, Normalize;
    OncesAt(a, b);
    FirstTurn(a, b);
    NextTurn(a, b);
    var start := Start([PRAGMA_ONCE, a, PRAGMA_ONCE, b]);
    NormalizeStep(start);
    NormalizeStep(Turn(start));
    NoMoreVisits(Turn(Turn(start)));
  }
}
