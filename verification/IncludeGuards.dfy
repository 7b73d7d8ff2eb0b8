/**
 * The include-guard rewriters scripts/cpp/remove_include_guards_pragma.py and
 * scripts/cpp/replace_include_guards_with_pragma.py, which share find_guard and match_endif.
 */
module IncludeGuards {
  import opened Options
  import opened Directives

  /** How far find_guard looks for a test, and behind it for its #define. */
  datatype Search = Search(window: nat, lookahead: nat)

  const REMOVER := Search(150, 10)
  const REPLACER := Search(200, 12)

  /** is_comment_or_blank */
  predicate Skippable(l: Line) { IsBlank(l) || l.comment }

  // ---------------------------------------------------------------------------------------
  // match_endif
  // ---------------------------------------------------------------------------------------

  function MatchEndif(lines: seq<Line>, k: nat, depth: nat): (r: Option<nat>)
    requires k <= |lines| && depth > 0
    ensures r.Some? ==> k <= r.value < |lines| && lines[r.value].kind == Endif
    decreases |lines| - k
  {
    if k == |lines| then None
    else if lines[k].kind.If? then MatchEndif(lines, k + 1, depth + 1)
    else if lines[k].kind != Endif then MatchEndif(lines, k + 1, depth)
    else if depth == 1 then Some(k)
    else MatchEndif(lines, k + 1, depth - 1)
  }

  method MatchEndifLoop(lines: seq<Line>, start: nat, initialDepth: nat) returns (r: Option<nat>)
    requires start <= |lines| && initialDepth > 0
    ensures r == MatchEndif(lines, start, initialDepth)
  {
    var depth := initialDepth;
    for k := start to |lines|
      invariant depth > 0 && MatchEndif(lines, k, depth) == MatchEndif(lines, start, initialDepth)
    {
      if lines[k].kind.If? {
        depth := depth + 1;
      } else if lines[k].kind == Endif {
        depth := depth - 1;
        if depth == 0 { return Some(k); }
      }
    }
    r := None;
  }

  lemma LevelStep(lines: seq<Line>, k: nat, j: nat)
    requires k < j <= |lines|
    ensures Level(lines[k..j]) == Rise(lines[k]) + Level(lines[k + 1..j])
  {
    assert lines[k..j][1..] == lines[k + 1..j];
  }

  lemma LevelSplit(lines: seq<Line>, a: nat, b: nat, c: nat)
    requires a <= b <= c <= |lines|
    ensures Level(lines[a..c]) == Level(lines[a..b]) + Level(lines[b..c])
  {
    assert lines[a..c] == lines[a..b] + lines[b..c];
    LevelJoin(lines[a..b], lines[b..c]);
  }

  /** match_endif stops where the depth first comes down to zero. */
  lemma {:induction false} MatchEndifLevel(lines: seq<Line>, k: nat, depth: nat)
    requires k <= |lines| && depth > 0
    ensures var r := MatchEndif(lines, k, depth);
            && (r.Some? ==> depth + Level(lines[k..r.value + 1]) == 0)
            && forall j | k <= j <= if r.Some? then r.value else |lines| :: depth + Level(lines[k..j]) > 0
    decreases |lines| - k
  {
    hide Level;
    var r := MatchEndif(lines, k, depth);
    NoLevel(lines[k..k]);
    if k < |lines| {
      var next := depth + Rise(lines[k]);
      if next > 0 { MatchEndifLevel(lines, k + 1, next); }
      NoLevel(lines[k + 1..k + 1]);
      forall j | k < j <= |lines| ensures depth + Level(lines[k..j]) == next + Level(lines[k + 1..j]) {
        LevelStep(lines, k, j);
      }
    }
  }

  lemma NoLevel(lines: seq<Line>)
    requires lines == []
    ensures Level(lines) == 0
  {
  }

  /** Line close is the #endif of the conditional that line open begins. */
  ghost predicate Closes(lines: seq<Line>, open: nat, close: nat) {
    && open < close < |lines| && lines[open].kind.If? && lines[close].kind == Endif
    && Level(lines[open..close + 1]) == 0
    && forall j | open < j <= close :: Level(lines[open..j]) > 0
  }

  /** The lines open and close their conditionals among themselves. */
  ghost predicate Balanced(lines: seq<Line>) {
    Level(lines) == 0 && forall j | 0 <= j <= |lines| :: Level(lines[..j]) >= 0
  }

  /**
   * match_endif started behind the #define finds the #endif of the guard's test, exactly when the
   * lines between the test and the #define are balanced.
   */
  lemma MatchEndifCloses(lines: seq<Line>, open: nat, define: nat)
    requires open < define < |lines| && lines[open].kind.If? && lines[define].kind.Define?
    requires MatchEndif(lines, define + 1, 1).Some?
    ensures Closes(lines, open, MatchEndif(lines, define + 1, 1).value) <==> Balanced(lines[open + 1..define])
  {
    hide Level;
    var close := MatchEndif(lines, define + 1, 1).value;
    var between := lines[open + 1..define];
    MatchEndifLevel(lines, define + 1, 1);
    forall j | define < j <= close + 1
      ensures Level(lines[open..j]) == 1 + Level(between) + Level(lines[define + 1..j])
    {
      LevelStep(lines, open, j);
      LevelSplit(lines, open + 1, define, j);
      LevelStep(lines, define, j);
    }
    forall j | open < j <= define
      ensures Level(lines[open..j]) == 1 + Level(between[..j - open - 1])
    {
      LevelStep(lines, open, j);
      assert lines[open + 1..j] == between[..j - open - 1];
    }
    assert between[..|between|] == between;
    if Balanced(between) {
      assert forall j | open < j <= define :: Level(lines[open..j]) > 0;
    }
    if Closes(lines, open, close) {
      forall i | 0 <= i <= |between| ensures Level(between[..i]) >= 0 {
        assert Level(lines[open..open + 1 + i]) > 0;
      }
    }
  }

  /** Without directives between the test and its #define, the lines there are balanced. */
  lemma {:induction false} PlainIsBalanced(lines: seq<Line>)
    requires forall l | l in lines :: !IsConditional(l)
    ensures Balanced(lines)
  {
    forall j | 0 <= j <= |lines| ensures Level(lines[..j]) == 0 {
      PlainIsLevel(lines[..j]);
    }
    assert lines[..|lines|] == lines;
  }

  lemma {:induction false} PlainIsLevel(lines: seq<Line>)
    requires forall l | l in lines :: !IsConditional(l)
    ensures Level(lines) == 0
  {
    if lines != [] {
      assert lines[0] in lines;
      PlainIsLevel(lines[1..]);
    }
  }

  // ---------------------------------------------------------------------------------------
  // find_guard
  // ---------------------------------------------------------------------------------------

  /** The macro of an #ifndef or #if !defined line. */
  function GuardMacro(l: Line): Option<string> {
    match l.kind
    case If(NotDefined(macro)) => Some(macro)
    case _ => None
  }

  /** The #define of the macro behind comments and blank lines, no further than last. */
  function FindDefine(lines: seq<Line>, j: nat, last: int, macro: string): (r: Option<nat>)
    requires last < |lines|
    ensures r.Some? ==> j <= r.value <= last && lines[r.value].kind == Define(macro)
    ensures r.Some? ==> forall k | j <= k < r.value :: Skippable(lines[k])
    decreases last - j
  {
    if j > last then None
    else if Skippable(lines[j]) then FindDefine(lines, j + 1, last, macro)
    else if lines[j].kind == Define(macro) then Some(j)
    else None
  }

  datatype Guard = Guard(open: nat, define: nat, macro: string, close: nat)

  predicate IsGuard(lines: seq<Line>, g: Guard) {
    && g.open < g.define < g.close < |lines|
    && lines[g.open].kind == If(NotDefined(g.macro)) && lines[g.define].kind == Define(g.macro)
    && MatchEndif(lines, g.define + 1, 1) == Some(g.close)
    && forall k | g.open < k < g.define :: Skippable(lines[k])
  }

  /** The guard that starts at line i. */
  function GuardAt(lines: seq<Line>, i: nat, search: Search): (r: Option<Guard>)
    requires i < |lines|
    ensures r.Some? ==> r.value.open == i && IsGuard(lines, r.value)
  {
    match GuardMacro(lines[i])
    case None => None
    case Some(macro) =>
      match FindDefine(lines, i + 1, LastLook(i, search, |lines|), macro)
      case None => None
      case Some(define) =>
        match MatchEndif(lines, define + 1, 1)
        case None => None
        case Some(close) => Some(Guard(i, define, macro, close))
  }

  /** min(i + lookahead, n - 1) */
  function LastLook(i: nat, search: Search, n: nat): int {
    if i + search.lookahead < n - 1 then i + search.lookahead else n - 1
  }

  function Window(search: Search, n: nat): nat { if search.window < n then search.window else n }

  /** The first guard from line i on. */
  function FindGuard(lines: seq<Line>, i: nat, search: Search): (r: Option<Guard>)
    requires i <= Window(search, |lines|)
    ensures r.Some? ==> r.value.open >= i && IsGuard(lines, r.value)
    decreases |lines| - i
  {
    if i == Window(search, |lines|) then None
    else if GuardAt(lines, i, search).Some? then GuardAt(lines, i, search)
    else FindGuard(lines, i + 1, search)
  }

  /**
   * Line i starts a guard: its test is of a macro that the first line behind it that is neither blank
   * nor a comment defines, no further than the lookahead, and an #endif follows at depth zero.
   */
  ghost predicate StartsGuard(lines: seq<Line>, i: nat, search: Search)
    requires i < |lines|
  {
    exists define | i < define < |lines| && define <= i + search.lookahead :: Guards(lines, i, define)
  }

  predicate Guards(lines: seq<Line>, i: nat, define: nat)
    requires i < define < |lines|
  {
    && !Skippable(lines[define]) && (forall k | i < k < define :: Skippable(lines[k]))
    && GuardMacro(lines[i]).Some? && lines[define].kind == Define(GuardMacro(lines[i]).value)
    && MatchEndif(lines, define + 1, 1).Some?
  }

  /** FindDefine looks at the first line that cannot be skipped. */
  lemma {:induction false} FindDefineIs(lines: seq<Line>, j: nat, last: int, macro: string, define: nat)
    requires j <= define <= last < |lines|
    requires !Skippable(lines[define]) && forall k | j <= k < define :: Skippable(lines[k])
    ensures FindDefine(lines, j, last, macro) == if lines[define].kind == Define(macro) then Some(define) else None
    decreases define - j
  {
    if j < define { FindDefineIs(lines, j + 1, last, macro, define); }
  }

  lemma {:induction false} FoundDefine(lines: seq<Line>, j: nat, last: int, macro: string)
    requires last < |lines| && FindDefine(lines, j, last, macro).Some?
    ensures !Skippable(lines[FindDefine(lines, j, last, macro).value])
    decreases last - j
  {
    if Skippable(lines[j]) { FoundDefine(lines, j + 1, last, macro); }
  }

  lemma GuardAtStarts(lines: seq<Line>, i: nat, search: Search)
    requires i < |lines| && GuardAt(lines, i, search).Some?
    ensures StartsGuard(lines, i, search)
  {
    hide MatchEndif, Skippable;
    var last, macro := LastLook(i, search, |lines|), GuardMacro(lines[i]).value;
    FoundDefine(lines, i + 1, last, macro);
    assert Guards(lines, i, FindDefine(lines, i + 1, last, macro).value);
  }

  lemma GuardAtFinds(lines: seq<Line>, i: nat, search: Search, define: nat)
    requires i < define < |lines| && define <= i + search.lookahead && Guards(lines, i, define)
    ensures GuardAt(lines, i, search).Some?
  {
    hide MatchEndif, FindDefine, Skippable;
    FindDefineIs(lines, i + 1, LastLook(i, search, |lines|), GuardMacro(lines[i]).value, define);
  }

  lemma GuardAtExactly(lines: seq<Line>, i: nat, search: Search)
    requires i < |lines|
    ensures GuardAt(lines, i, search).Some? <==> StartsGuard(lines, i, search)
  {
    hide GuardAt, Guards;
    if GuardAt(lines, i, search).Some? { GuardAtStarts(lines, i, search); }
    if StartsGuard(lines, i, search) {
      var define :| i < define < |lines| && define <= i + search.lookahead && Guards(lines, i, define);
      GuardAtFinds(lines, i, search, define);
    }
  }

  /** The guard that is found is the first that starts in the window; when none is found, none starts there. */
  lemma {:induction false} FindGuardIsFirst(lines: seq<Line>, i: nat, search: Search)
    requires i <= Window(search, |lines|)
    ensures var r, n := FindGuard(lines, i, search), Window(search, |lines|);
            match r
            case Some(g) => g.open < n && StartsGuard(lines, g.open, search) && forall k | i <= k < g.open :: !StartsGuard(lines, k, search)
            case None => forall k | i <= k < n :: !StartsGuard(lines, k, search)
    decreases |lines| - i
  {
    hide GuardAt, StartsGuard;
    if i < Window(search, |lines|) {
      GuardAtExactly(lines, i, search);
      if GuardAt(lines, i, search).None? { FindGuardIsFirst(lines, i + 1, search); }
    }
  }

  method FindGuardLoop(lines: seq<Line>, search: Search) returns (r: Option<Guard>)
    ensures r == FindGuard(lines, 0, search)
  {
    var n := |lines|;
    for i := 0 to Window(search, n)
      invariant FindGuard(lines, i, search) == FindGuard(lines, 0, search)
    {
      var macro := GuardMacro(lines[i]);
      if macro.None? { continue; }
      var j, maxLookahead, found := i + 1, LastLook(i, search, n), None;
      while j <= maxLookahead
        invariant i < j && found.None?
        invariant FindDefine(lines, j, maxLookahead, macro.value) == FindDefine(lines, i + 1, maxLookahead, macro.value)
      {
        if Skippable(lines[j]) {
          j := j + 1;
          continue;
        }
        if lines[j].kind == Define(macro.value) { found := Some(j); }
        break;
      }
      if found.None? { continue; }
      var close := MatchEndifLoop(lines, found.value + 1, 1);
      if close.None? { continue; }
      return Some(Guard(i, found.value, macro.value, close.value));
    }
    r := None;
  }

  // ---------------------------------------------------------------------------------------
  // Rewriting
  // ---------------------------------------------------------------------------------------

  /** A line between the #define and the #endif that is neither blank nor a comment. */
  predicate HasSubstance(lines: seq<Line>, start: nat, end: nat)
    requires end <= |lines|
  {
    exists k | start <= k < end :: !Skippable(lines[k])
  }

  method HasSubstanceLoop(lines: seq<Line>, start: nat, end: nat) returns (r: bool)
    requires start <= end <= |lines|
    ensures r == HasSubstance(lines, start, end)
  {
    for k := start to end
      invariant forall i | start <= i < k :: Skippable(lines[i])
    {
      if !Skippable(lines[k]) { return true; }
    }
    r := false;
  }

  /** The lines both scripts take out: the guard and the blank lines next to it. */
  function Doomed(lines: seq<Line>, g: Guard): set<int>
    requires IsGuard(lines, g)
  {
    {g.open, g.define, g.close}
    + (if IsBlank(lines[g.define + 1]) then {g.define + 1} else {})
    + (if g.open > 0 && IsBlank(lines[g.open - 1]) then {g.open - 1} else {})
    + (if IsBlank(lines[g.close - 1]) then {g.close - 1} else {})
  }

  /** The lines from a to b that are not doomed. */
  function Kept(lines: seq<Line>, doomed: set<int>, a: nat, b: nat): seq<Line>
    requires a <= b <= |lines|
    decreases b - a
  {
    if a == b then [] else (if a in doomed then [] else [lines[a]]) + Kept(lines, doomed, a + 1, b)
  }

  function TrimStart(lines: seq<Line>): seq<Line> {
    if lines != [] && IsBlank(lines[0]) then TrimStart(lines[1..]) else lines
  }

  function TrimEnd(lines: seq<Line>): seq<Line> {
    if lines != [] && IsBlank(lines[|lines| - 1]) then TrimEnd(lines[..|lines| - 1]) else lines
  }

  datatype Outcome = Changed(lines: seq<Line>) | Unchanged(reason: string)

  predicate HasOnce(lines: seq<Line>) { exists l | l in lines :: l.kind == Once }

  const NO_GUARD := "no classic guard detected"
  const WRAPPER := "guard region has no content (macro wrapper)"

  /** remove_guard_from_text */
  function RemoveGuard(lines: seq<Line>): Outcome {
    if !HasOnce(lines) then Unchanged("no #pragma once")
    else
      match FindGuard(lines, 0, REMOVER)
      case None => Unchanged(NO_GUARD)
      case Some(g) =>
        if !HasSubstance(lines, g.define + 1, g.close) then Unchanged(WRAPPER)
        else Changed(TrimEnd(TrimStart(Kept(lines, Doomed(lines, g), 0, |lines|))))
  }

  /** replace_guard_with_pragma_once */
  function ReplaceGuard(lines: seq<Line>): Outcome {
    if HasOnce(lines) then Unchanged("already has #pragma once")
    else
      match FindGuard(lines, 0, REPLACER)
      case None => Unchanged(NO_GUARD)
      case Some(g) =>
        if !HasSubstance(lines, g.define + 1, g.close) then Unchanged(WRAPPER)
        else
          var kept := Kept(lines, Doomed(lines, g), 0, |lines|);
          var at := InsertionIndex(lines, Doomed(lines, g), g.open, 0, 0);
          Changed(TrimEnd(TrimStart(kept[..at] + [PRAGMA_ONCE] + kept[at..])))
  }

  /** How many lines are kept before the first one kept from open on; 0 when none is. */
  function InsertionIndex(lines: seq<Line>, doomed: set<int>, open: nat, i: nat, count: nat): (r: nat)
    requires i <= |lines|
    ensures r <= count + |Kept(lines, doomed, i, |lines|)|
    decreases |lines| - i
  {
    if i == |lines| then 0
    else if i in doomed then InsertionIndex(lines, doomed, open, i + 1, count)
    else if i >= open then count
    else InsertionIndex(lines, doomed, open, i + 1, count + 1)
  }

  lemma {:induction false} KeptJoin(lines: seq<Line>, doomed: set<int>, a: nat, b: nat, c: nat)
    requires a <= b <= c <= |lines|
    ensures Kept(lines, doomed, a, c) == Kept(lines, doomed, a, b) + Kept(lines, doomed, b, c)
    decreases b - a
  {
    if a < b { KeptJoin(lines, doomed, a + 1, b, c); }
  }

  /** The two loops that pop blank lines off the ends of a list. */
  method TrimLoop(lines: seq<Line>) returns (r: seq<Line>)
    ensures r == TrimEnd(TrimStart(lines))
  {
    r := lines;
    while r != [] && IsBlank(r[0])
      invariant TrimStart(r) == TrimStart(lines)
      decreases |r|
    {
      r := r[1..];
    }
    while r != [] && IsBlank(r[|r| - 1])
      invariant TrimEnd(r) == TrimEnd(TrimStart(lines))
      decreases |r|
    {
      r := r[..|r| - 1];
    }
  }

  /** The set of indices to remove, and the list without them. */
  method DropGuard(lines: seq<Line>, g: Guard) returns (doomed: set<int>, kept: seq<Line>)
    requires IsGuard(lines, g)
    ensures doomed == Doomed(lines, g) && kept == Kept(lines, doomed, 0, |lines|)
  {
    hide MatchEndif, IsBlank;
    doomed := {g.open, g.define};
    if g.define + 1 < |lines| && IsBlank(lines[g.define + 1]) { doomed := doomed + {g.define + 1}; }
    if g.open - 1 >= 0 && IsBlank(lines[g.open - 1]) { doomed := doomed + {g.open - 1}; }
    doomed := doomed + {g.close};
    if g.close - 1 >= 0 && IsBlank(lines[g.close - 1]) { doomed := doomed + {g.close - 1}; }
    kept := [];
    for i := 0 to |lines|
      invariant kept == Kept(lines, doomed, 0, i)
    {
      KeptJoin(lines, doomed, 0, i, i + 1);
      if i !in doomed { kept := kept + [lines[i]]; }
    }
  }

  /** remove_guard_from_text, on the lines of the text. */
  method RemoveGuardFromText(lines: seq<Line>) returns (r: Outcome)
    ensures r == RemoveGuard(lines)
  {
    if !HasOnce(lines) { return Unchanged("no #pragma once"); }
    var found := FindGuardLoop(lines, REMOVER);
    if found.None? { return Unchanged(NO_GUARD); }
    var g := found.value;
    var substance := HasSubstanceLoop(lines, g.define + 1, g.close);
    if !substance { return Unchanged(WRAPPER); }
    var doomed, kept := DropGuard(lines, g);
    kept := TrimLoop(kept);
    r := Changed(kept);
  }

  /** replace_guard_with_pragma_once, on the lines of the text. */
  method ReplaceGuardWithPragmaOnce(lines: seq<Line>) returns (r: Outcome)
    ensures r == ReplaceGuard(lines)
  {
    hide InsertionIndex;
    if HasOnce(lines) { return Unchanged("already has #pragma once"); }
    var found := FindGuardLoop(lines, REPLACER);
    if found.None? { return Unchanged(NO_GUARD); }
    var g := found.value;
    var substance := HasSubstanceLoop(lines, g.define + 1, g.close);
    if !substance { return Unchanged(WRAPPER); }
    var doomed, kept := DropGuard(lines, g);
    var at := InsertionLoop(lines, doomed, g.open);
    kept := kept[..at] + [PRAGMA_ONCE] + kept[at..];
    kept := TrimLoop(kept);
    r := Changed(kept);
  }

  /** The loop that counts the lines kept before the insertion point. */
  method InsertionLoop(lines: seq<Line>, doomed: set<int>, open: nat) returns (at: nat)
    ensures at == InsertionIndex(lines, doomed, open, 0, 0)
  {
    var count := 0;
    for i := 0 to |lines|
      invariant 0 <= count && InsertionIndex(lines, doomed, open, i, count) == InsertionIndex(lines, doomed, open, 0, 0)
    {
      if i in doomed { continue; }
      if i >= open { return count; }
      count := count + 1;
    }
    at := 0;
  }
}
