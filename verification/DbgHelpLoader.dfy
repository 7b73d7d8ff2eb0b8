/**
 * The reference-counted loader of dbghelp.dll (Dependencies/DbgHelp/DbgHelpLoader.cpp). Every
 * call holds the lock, so a call is one step. What the operating system answers is a parameter.
 */
module DbgHelpSteps {
  import opened Options

  /** Process handles in the order of std::less. */
  type Handle = nat

  /** The calls made into the operating system and the library, as far as they succeeded. */
  datatype Event = LoadLibrary | Initialize(h: Handle) | Cleanup(h: Handle) | FreeLibrary

  /** What the operating system answers while DbgHelpLoader::load runs. */
  datatype Os = Os(alloc: bool, directory: bool, system: bool, local: bool,
                   hasInitialize: bool, hasCleanup: bool, hasRest: bool)

  /**
   * The loader's globals. processes is None for the null pointer; initialize and cleanup say
   * whether SymInitializePtr and SymCleanupPtr are set. trace is the history of real calls.
   */
  datatype State = State(processes: Option<set<Handle>>, loaded: bool, references: int, failed: bool,
                         initialize: bool, cleanup: bool, fromSystem: bool, trace: seq<Event>)

  const INITIAL := State(None, false, 0, false, false, false, false, [])

  function Open(s: State): set<Handle> {
    match s.processes
    case None => {}
    case Some(open) => open
  }

  predicate IsLeast(m: Handle, s: set<Handle>) {
    m in s && forall h | h in s :: m <= h
  }

  lemma {:induction false} LeastExists(s: set<Handle>) returns (m: Handle)
    requires s != {}
    ensures IsLeast(m, s)
    decreases s
  {
    m :| m in s;
    var first, rest := m, s - {m};
    assert forall h | h in s :: h == first || h in rest;
    if rest != {} {
      var k := LeastExists(rest);
      if k < m { m := k; }
    }
  }

  /** *InitializedProcesses->begin() */
  ghost function Least(s: set<Handle>): (m: Handle)
    requires s != {}
    ensures IsLeast(m, s)
  {
    assert exists m :: IsLeast(m, s) by { var m := LeastExists(s); }
    var m :| IsLeast(m, s);
    m
  }

  lemma LeastUnique(a: Handle, b: Handle, s: set<Handle>)
    requires IsLeast(a, s) && IsLeast(b, s)
    ensures a == b
  {
  }

  /** DbgHelp::SymInitialize; ok is the answer of the real function. */
  function SymInitialize(s: State, h: Handle, ok: bool): (State, bool) {
    if s.processes.None? then (s, false)
    else if h in s.processes.value then (s, true)
    else if s.initialize && ok then
      (s.(processes := Some(s.processes.value + {h}), trace := s.trace + [Initialize(h)]), true)
    else (s, false)
  }

  /** DbgHelp::SymCleanup; ok is the answer of the real function. */
  function SymCleanup(s: State, h: Handle, ok: bool): (State, bool) {
    if s.processes.None? || h !in s.processes.value then (s, false)
    else
      var left := s.(processes := Some(s.processes.value - {h}));
      if s.cleanup then (left.(trace := s.trace + [Cleanup(h)]), ok) else (left, false)
  }

  /** The loop of freeResources. */
  ghost function CleanAll(s: State): State
    decreases Open(s)
  {
    if Open(s) == {} then s else CleanAll(SymCleanup(s, Least(Open(s)), true).0)
  }

  ghost function FreeResources(s: State): State {
    var c := CleanAll(s);
    c.(loaded := false, initialize := false, cleanup := false, fromSystem := false,
       trace := if c.loaded then c.trace + [FreeLibrary] else c.trace)
  }

  /** The part of load that only the first call reaches. */
  ghost function FirstLoad(p: State, os: Os): (State, bool) {
    if !os.directory || (!os.system && !os.local) then (p.(failed := true), false)
    else
      var q := p.(loaded := true, fromSystem := p.fromSystem || os.system, trace := p.trace + [LoadLibrary],
                  initialize := os.hasInitialize, cleanup := os.hasCleanup);
      if os.hasInitialize && os.hasCleanup && os.hasRest then (q, true) else (Failed(q), false)
  }

  /** A function of the library is missing. */
  ghost function Failed(s: State): State { FreeResources(s).(failed := true) }

  /** DbgHelpLoader::load. */
  ghost function Load(s: State, os: Os): (State, bool) {
    if s.processes.None? && !os.alloc then (s, false)
    else
      var p := s.(processes := Some(Open(s)), references := s.references + 1);
      if s.failed then (p, false)
      else if p.references > 1 then (p, true)
      else FirstLoad(p, os)
  }

  /** DbgHelpLoader::unload. */
  ghost function Unload(s: State): State {
    if s.processes.None? then s
    else
      var p := s.(references := s.references - 1);
      if p.references != 0 then p
      else FreeResources(p).(failed := false, processes := None)
  }

  // ---------------------------------------------------------------------------------------
  // What every run keeps
  // ---------------------------------------------------------------------------------------

  datatype Call = CallLoad(os: Os) | CallUnload | CallInitialize(h: Handle, ok: bool) | CallCleanup(h: Handle, ok: bool)

  ghost function Step(s: State, c: Call): State {
    match c
    case CallLoad(os) => Load(s, os).0
    case CallUnload => Unload(s)
    case CallInitialize(h, ok) => SymInitialize(s, h, ok).0
    case CallCleanup(h, ok) => SymCleanup(s, h, ok).0
  }

  ghost function Run(calls: seq<Call>): State {
    if calls == [] then INITIAL else Step(Run(calls[..|calls| - 1]), calls[|calls| - 1])
  }

  /** What dbghelp.dll expects: the library's own view of a history, or None for a broken one. */
  datatype Library = Library(loaded: bool, open: set<Handle>)

  function Observe(l: Option<Library>, e: Event): Option<Library> {
    if l.None? then None
    else
      match e
      case LoadLibrary => if l.value.loaded then None else Some(Library(true, {}))
      case Initialize(h) => if l.value.loaded && h !in l.value.open then Some(Library(true, l.value.open + {h})) else None
      case Cleanup(h) => if l.value.loaded && h in l.value.open then Some(Library(true, l.value.open - {h})) else None
      case FreeLibrary => if l.value.loaded && l.value.open == {} then Some(Library(false, {})) else None
  }

  /** Replays a history: loads and frees alternate, a handle is open from its Initialize to its Cleanup, nothing is open when freed. */
  function Replay(trace: seq<Event>): Option<Library> {
    if trace == [] then Some(Library(false, {}))
    else Observe(Replay(trace[..|trace| - 1]), trace[|trace| - 1])
  }

  ghost predicate Inv(s: State) {
    && s.references >= 0
    && (s.processes.Some? <==> s.references > 0)
    && (s.references > 0 ==> s.failed != s.loaded)
    && (s.references == 0 ==> !s.failed && !s.loaded && !s.fromSystem)
    && (s.initialize <==> s.loaded) && (s.cleanup <==> s.loaded)
    && (s.fromSystem ==> s.loaded)
    && Replay(s.trace) == Some(Library(s.loaded, Open(s)))
    && (Open(s) != {} ==> s.loaded)
  }

  lemma ReplayStep(trace: seq<Event>, e: Event)
    ensures Replay(trace + [e]) == Observe(Replay(trace), e)
  {
    assert (trace + [e])[..|trace|] == trace;
  }

  /** Cleaning up closes every open handle exactly once and changes nothing else. */
  lemma {:induction false} CleanAllCloses(s: State)
    requires Replay(s.trace) == Some(Library(s.loaded, Open(s))) && (Open(s) != {} ==> s.loaded && s.cleanup)
    ensures var c := CleanAll(s);
            && c == s.(processes := c.processes, trace := c.trace)
            && Open(c) == {} && (c.processes.Some? <==> s.processes.Some?)
            && Replay(c.trace) == Some(Library(s.loaded, {}))
            && (Open(s) == {} ==> c == s)
    decreases Open(s)
  {
    if Open(s) != {} {
      var h := Least(Open(s));
      ReplayStep(s.trace, Cleanup(h));
      CleanAllCloses(SymCleanup(s, h, true).0);
    }
  }

  lemma FreeResourcesResets(s: State)
    requires Replay(s.trace) == Some(Library(s.loaded, Open(s))) && (Open(s) != {} ==> s.loaded && s.cleanup)
    ensures var f := FreeResources(s);
            && !f.loaded && !f.initialize && !f.cleanup && !f.fromSystem && Open(f) == {}
            && f.references == s.references && f.failed == s.failed && (f.processes.Some? <==> s.processes.Some?)
            && Replay(f.trace) == Some(Library(false, {}))
  {
    CleanAllCloses(s);
    ReplayStep(CleanAll(s).trace, FreeLibrary);
  }

  /** load keeps the invariant and returns true exactly when the module is loaded afterwards. */
  lemma LoadKeepsInv(s: State, os: Os)
    requires Inv(s)
    ensures Inv(Load(s, os).0) && (Load(s, os).1 <==> Load(s, os).0.loaded)
  {
    if (s.processes.Some? || os.alloc) && !s.failed && s.references == 0 && os.directory && (os.system || os.local) {
      ReplayStep(s.trace, LoadLibrary);
      var p := s.(processes := Some(Open(s)), references := 1);
      var q := p.(loaded := true, fromSystem := p.fromSystem || os.system, trace := p.trace + [LoadLibrary],
                  initialize := os.hasInitialize, cleanup := os.hasCleanup);
      FreeResourcesResets(q);
    }
  }

  lemma UnloadKeepsInv(s: State)
    requires Inv(s)
    ensures Inv(Unload(s))
  {
    if s.processes.Some? && s.references == 1 {
      FreeResourcesResets(s.(references := 0));
    }
  }

  lemma StepKeepsInv(s: State, c: Call)
    requires Inv(s)
    ensures Inv(Step(s, c))
  {
    match c
    case CallLoad(os) => LoadKeepsInv(s, os);
    case CallUnload => UnloadKeepsInv(s);
    case CallInitialize(h, ok) => ReplayStep(s.trace, Initialize(h));
    case CallCleanup(h, ok) => ReplayStep(s.trace, Cleanup(h));
  }

  /**
   * The loader invariant, over every sequence of calls and every answer of the operating system:
   * the process set exists exactly while the count is positive; a positive count means exactly
   * one of failed and loaded; a zero count means everything is reset; and the library has seen a
   * proper history, with exactly the handles of the process set open.
   */
  lemma {:induction false} RunKeepsInv(calls: seq<Call>)
    ensures Inv(Run(calls))
  {
    if calls != [] {
      RunKeepsInv(calls[..|calls| - 1]);
      StepKeepsInv(Run(calls[..|calls| - 1]), calls[|calls| - 1]);
    }
  }

  /**
   * The count is the number of loads not yet unloaded, failed loads included, and the outcome of
   * the first load is sticky: while the count stays positive nothing changes loaded or failed.
   */
  lemma OutcomeIsSticky(s: State, c: Call)
    requires Inv(s)
    ensures var n := Step(s, c);
            && n.references == (match c
                                case CallLoad(os) => if s.references > 0 || os.alloc then s.references + 1 else 0
                                case CallUnload => if s.references > 0 then s.references - 1 else 0
                                case _ => s.references)
            && (s.references > 0 && n.references > 0 ==> n.loaded == s.loaded && n.failed == s.failed && n.fromSystem == s.fromSystem)
            && (c.CallLoad? && s.references > 0 ==> (Load(s, c.os).1 <==> s.loaded))
  {
    StepKeepsInv(s, c);
    if c.CallLoad? && s.references == 0 && c.os.alloc {
      FirstLoadCounts(s, c.os);
    }
    if c == CallUnload && s.references == 1 {
      FreeResourcesResets(s.(references := 0));
    }
  }

  lemma FirstLoadCounts(s: State, os: Os)
    requires Inv(s) && s.references == 0 && os.alloc
    ensures Load(s, os).0.references == 1
  {
    if os.directory && (os.system || os.local) {
      ReplayStep(s.trace, LoadLibrary);
      var p := s.(processes := Some(Open(s)), references := 1);
      FreeResourcesResets(p.(loaded := true, fromSystem := p.fromSystem || os.system, trace := p.trace + [LoadLibrary],
                             initialize := os.hasInitialize, cleanup := os.hasCleanup));
    }
  }

  /** Everything the first load needs. */
  predicate Complete(os: Os) {
    && os.alloc && os.directory && (os.system || os.local)
    && os.hasInitialize && os.hasCleanup && os.hasRest
  }

  /**
   * When a first load succeeds: exactly when the allocation, the directory, one of the two libraries
   * and all functions are there. It has failed exactly when the allocation alone went well, and the
   * library is from the system directory when that one has it.
   */
  lemma FirstLoadExactly(s: State, os: Os)
    requires Inv(s) && s.references == 0
    ensures var (n, answer) := Load(s, os);
            && (answer <==> Complete(os)) && (n.loaded <==> Complete(os))
            && (n.initialize <==> Complete(os)) && (n.cleanup <==> Complete(os))
            && (n.fromSystem <==> Complete(os) && os.system)
            && (n.failed <==> os.alloc && !Complete(os))
            && n.references == (if os.alloc then 1 else 0) && n.processes == (if os.alloc then Some({}) else None)
            && (Complete(os) ==> n.trace == s.trace + [LoadLibrary])
  {
    if os.alloc && os.directory && (os.system || os.local) {
      ReplayStep(s.trace, LoadLibrary);
      var p := s.(processes := Some({}), references := 1);
      var q := p.(loaded := true, fromSystem := p.fromSystem || os.system, trace := p.trace + [LoadLibrary],
                  initialize := os.hasInitialize, cleanup := os.hasCleanup);
      FreeResourcesResets(q);
      CleanAllCloses(q);
    }
  }

  /**
   * The other calls, on their answers and the real calls they make: a handle is opened only in a
   * loaded library, closed once, and unloading lets go of everything with the last reference.
   */
  lemma CallsAreExact(s: State, h: Handle, ok: bool)
    requires Inv(s)
    ensures var (n, answer) := SymInitialize(s, h, ok);
            && (answer <==> h in Open(s) || (s.loaded && ok))
            && Open(n) == (if answer then Open(s) + {h} else Open(s))
            && n.trace == (if answer && h !in Open(s) then s.trace + [Initialize(h)] else s.trace)
    ensures var (n, answer) := SymCleanup(s, h, ok);
            && (answer <==> h in Open(s) && ok) && Open(n) == Open(s) - {h}
            && n.trace == (if h in Open(s) then s.trace + [Cleanup(h)] else s.trace)
    ensures var n := Unload(s);
            && (s.references != 1 ==> n == s.(references := if s.references > 0 then s.references - 1 else 0))
            && (s.references == 1 ==> n == INITIAL.(trace := n.trace))
            && (s.references == 1 && s.loaded ==> n.trace != [] && n.trace[|n.trace| - 1] == FreeLibrary)
            && (s.references == 1 && !s.loaded ==> n.trace == s.trace)
  {
    if s.references == 1 {
      CleanAllCloses(s.(references := 0));
      FreeResourcesResets(s.(references := 0));
    }
  }

  function Times(trace: seq<Event>, e: Event): nat {
    if trace == [] then 0
    else Times(trace[..|trace| - 1], e) + if trace[|trace| - 1] == e then 1 else 0
  }

  /** In a proper history a handle was initialised as often as cleaned up, plus once if it is open. */
  lemma {:induction false} ProperHistory(trace: seq<Event>, h: Handle)
    requires Replay(trace).Some?
    ensures Times(trace, Initialize(h))
         == Times(trace, Cleanup(h)) + (if h in Replay(trace).value.open then 1 else 0)
  {
    if trace != [] { ProperHistory(trace[..|trace| - 1], h); }
  }

  lemma {:induction false} ReplayPrefix(trace: seq<Event>, n: nat)
    requires n <= |trace| && Replay(trace).Some?
    ensures Replay(trace[..n]).Some?
  {
    if n < |trace| {
      assert trace[..|trace| - 1][..n] == trace[..n];
      ReplayPrefix(trace[..|trace| - 1], n);
    } else {
      assert trace[..n] == trace;
    }
  }

  /**
   * The clean-up trace: whenever a run frees the library, every handle it initialised so far has
   * been given exactly as many real SymCleanup calls as successful SymInitialize calls, and each
   * initialisation got its own before the next one of that handle.
   */
  lemma EveryHandleIsCleanedUp(calls: seq<Call>, k: nat, h: Handle)
    requires k < |Run(calls).trace| && Run(calls).trace[k] == FreeLibrary
    ensures var before := Run(calls).trace[..k];
            && Replay(before) == Some(Library(true, {}))
            && Times(before, Initialize(h)) == Times(before, Cleanup(h))
  {
    RunKeepsInv(calls);
    var trace := Run(calls).trace;
    ReplayPrefix(trace, k + 1);
    assert trace[..k + 1][..k] == trace[..k];
    ProperHistory(trace[..k], h);
  }
}

module DbgHelpLoader {
  import opened Options
  import opened DbgHelpSteps

  class Loader {
    var processes: Option<set<Handle>>
    var loaded: bool
    var references: int
    var failed: bool
    var initialize: bool
    var cleanup: bool
    var fromSystem: bool
    ghost var trace: seq<Event>

    ghost function View(): State
      reads this
    {
      State(processes, loaded, references, failed, initialize, cleanup, fromSystem, trace)
    }

    constructor ()
      ensures View() == INITIAL && Inv(View())
    {
      processes := None;
      loaded, references, failed := false, 0, false;
      initialize, cleanup, fromSystem := false, false, false;
      trace := [];
    }

    method SymInitialize(h: Handle, ok: bool) returns (r: bool)
      requires Inv(View())
      modifies this
      ensures (View(), r) == DbgHelpSteps.SymInitialize(old(View()), h, ok) && Inv(View())
      ensures r <==> h in Open(View())
    {
      DbgHelpSteps.StepKeepsInv(View(), CallInitialize(h, ok));
      if processes == None { return false; }
      if h in processes.value { return true; }
      if initialize && ok {
        processes := Some(processes.value + {h});
        trace := trace + [Initialize(h)];
        return true;
      }
      return false;
    }

    method SymCleanup(h: Handle, ok: bool) returns (r: bool)
      modifies this
      ensures (View(), r) == DbgHelpSteps.SymCleanup(old(View()), h, ok)
      ensures Inv(old(View())) ==> Inv(View())
      ensures h !in Open(View())
    {
      hide Inv;
      ghost var before := View();
      if processes.Some? && h in processes.value {
        processes := Some(processes.value - {h});
        if cleanup {
          trace := trace + [Cleanup(h)];
          r := ok;
        } else {
          r := false;
        }
      } else {
        r := false;
      }
      assert View() == DbgHelpSteps.SymCleanup(before, h, ok).0;
      if Inv(before) { StepKeepsInv(before, CallCleanup(h, ok)); }
    }

    method FreeResources()
      requires processes.Some?
      modifies this
      ensures View() == DbgHelpSteps.FreeResources(old(View()))
    {
      while processes.value != {}
        invariant processes.Some?
        invariant CleanAll(View()) == CleanAll(old(View()))
        decreases processes.value
      {
        ghost var least := LeastExists(processes.value);
        var h: Handle :| h in processes.value && IsLeast(h, processes.value);
        LeastUnique(h, Least(processes.value), processes.value);
        var _ := SymCleanup(h, true);
      }
      if loaded {
        loaded := false;
        trace := trace + [FreeLibrary];
      }
      initialize, cleanup, fromSystem := false, false, false;
    }

    method Load(os: Os) returns (r: bool)
      requires Inv(View())
      modifies this
      ensures (View(), r) == DbgHelpSteps.Load(old(View()), os)
      ensures Inv(View()) && (r <==> loaded)
    {
      LoadKeepsInv(View(), os);
      hide Inv, DbgHelpSteps.FirstLoad;
      if processes == None {
        if !os.alloc { return false; }
        processes := Some({});
      }
      references := references + 1;
      if failed { return false; }
      if references > 1 { return true; }
      r := FirstLoad(os);
    }

    /** The part of load that only the first call reaches. */
    method FirstLoad(os: Os) returns (r: bool)
      requires processes.Some?
      modifies this
      ensures (View(), r) == DbgHelpSteps.FirstLoad(old(View()), os)
    {
      hide Failed;
      if !os.directory {
        failed := true;
        return false;
      }
      if !os.system {
        if !os.local {
          failed := true;
          return false;
        }
      } else {
        fromSystem := true;
      }
      loaded := true;
      trace := trace + [LoadLibrary];
      initialize, cleanup := os.hasInitialize, os.hasCleanup;
      if !initialize || !cleanup || !os.hasRest {
        Fail();
        return false;
      }
      return true;
    }

    /** A function of the library is missing. */
    method Fail()
      requires processes.Some?
      modifies this
      ensures View() == Failed(old(View()))
    {
      hide DbgHelpSteps.FreeResources;
      FreeResources();
      failed := true;
    }

    method Unload()
      requires Inv(View())
      modifies this
      ensures View() == DbgHelpSteps.Unload(old(View()))
      ensures Inv(View())
    {
      UnloadKeepsInv(View());
      if processes == None { return; }
      references := references - 1;
      if references != 0 { return; }
      FreeResources();
      failed := false;
      processes := None;
    }
  }
}
