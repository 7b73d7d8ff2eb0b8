/**
 * The eight string banks of Core/Tools/Autorun/locale.cpp as a state machine, and who owns their
 * memory. The assertions of the source on the state are demands on the caller (Allowed).
 */
module LocaleBanks {
  import opened Options
  import opened RamFile
  import opened CsfFormat
  import opened LocaleFormat

  const BANK_COUNT := 8

  /** A block from galloc. It is partial when the read that should fill it failed. */
  datatype Block = Filled(mem: seq<Byte>) | Partial

  /** LOCALE_INSTANCE; None is the null pointer. */
  datatype Instance = Instance(bank: nat, banks: seq<Option<Block>>, indices: seq<Option<Block>>)

  /**
   * lx and galloccount, with two history counters: the galloc calls that returned null, and the
   * index blocks that LOCALE_restore left behind.
   */
  datatype State = State(lx: Option<Instance>, count: int, nulls: nat, dropped: nat)

  predicate ValidInstance(i: Instance) {
    |i.banks| == |i.indices| == BANK_COUNT && i.bank < BANK_COUNT
  }

  predicate Valid(s: State) { s.lx.Some? ==> ValidInstance(s.lx.value) }

  function Nothing(): seq<Option<Block>> { seq(BANK_COUNT, i => None) }

  // ---------------------------------------------------------------------------------------
  // Reading a chunk
  // ---------------------------------------------------------------------------------------

  /** fread of n bytes at pos, which may lie behind the end. */
  function Portion(file: seq<Byte>, pos: nat, n: nat): (r: seq<Byte>)
    ensures |r| <= n
  {
    if pos > |file| then [] else Chunk(file, pos, n)
  }

  /** A chunk read into a new block: whether all went well, whether galloc was called, what is left in the slot. */
  datatype Fetch = Fetch(ok: bool, asked: bool, block: Option<Block>)

  const UNASKED := Fetch(false, false, None)

  /** The block after its read. */
  function Fill(mem: seq<Byte>, size: nat): Fetch {
    if |mem| == size then Fetch(true, true, Some(Filled(mem))) else Fetch(false, true, Some(Partial))
  }

  /**
   * The common part of readheader and readstrings: reads the size of the chunk at pos, allocates it
   * and reads it. checked says whether the second seek is checked; readheader reads on where it stands.
   * galloc of a negative size returns null.
   */
  function FetchChunk(file: seq<Byte>, pos: int, checked: bool): Fetch {
    if pos + 4 < 0 || |Portion(file, pos + 4, 4)| != 4 then UNASKED
    else
      var size := Int32(Portion(file, pos + 4, 4));
      if size < 0 then Fetch(false, true, None)
      else if pos >= 0 then Fill(Portion(file, pos, size), size)
      else if checked then Fetch(false, true, Some(Partial))
      else Fill(Portion(file, pos + 8, size), size)
  }

  /** readheader: the index chunk. A file without one is refused. */
  function ReadHeader(file: seq<Byte>): Fetch {
    if |file| < CHUNK_HEADER || !HasIndex(file) then UNASKED else FetchChunk(file, IndexPos(file), false)
  }

  /** readstrings: the language chunk. */
  function ReadStrings(file: seq<Byte>, language: int): Fetch {
    var at := CHUNK_HEADER + 4 * language;
    if at < 0 || |Portion(file, at, 4)| != 4 then UNASKED else FetchChunk(file, Int32(Portion(file, at, 4)), true)
  }

  // ---------------------------------------------------------------------------------------
  // Steps
  // ---------------------------------------------------------------------------------------

  /** galloc was called once, or not at all, with its result in the slot. */
  function Ask(s: State, f: Fetch): State {
    if !f.asked then s else s.(count := s.count + 1, nulls := s.nulls + if f.block.None? then 1 else 0)
  }

  function WithIndex(s: State, f: Fetch): (r: State)
    requires Valid(s) && s.lx.Some?
    ensures Valid(r) && r.lx.Some?
  {
    var i := s.lx.value;
    if f.asked then Ask(s, f).(lx := Some(i.(indices := i.indices[i.bank := f.block]))) else s
  }

  function WithBank(s: State, f: Fetch): (r: State)
    requires Valid(s) && s.lx.Some?
    ensures Valid(r) && r.lx.Some?
  {
    var i := s.lx.value;
    if f.asked then Ask(s, f).(lx := Some(i.(banks := i.banks[i.bank := f.block]))) else s
  }

  datatype Loaded = Loaded(ok: bool, state: State)

  /** LOCALE_loadtable; file is None when it cannot be opened. */
  function LoadTable(s: State, file: Option<seq<Byte>>, language: int): (r: Loaded)
    requires Valid(s) && s.lx.Some?
    ensures Valid(r.state) && r.state.lx.Some?
  {
    match file
    case None => Loaded(false, s)
    case Some(content) =>
      var header := ReadHeader(content);
      if !header.ok then Loaded(false, WithIndex(s, header))
      else
        var strings := ReadStrings(content, language);
        Loaded(strings.ok, WithBank(WithIndex(s, header), strings))
  }

  /** LOCALE_freetable on a bank that is loaded. */
  function FreeTable(s: State): (r: State)
    requires Valid(s) && s.lx.Some?
    ensures Valid(r) && r.lx.Some?
  {
    var i := s.lx.value;
    State(Some(i.(banks := i.banks[i.bank := None], indices := i.indices[i.bank := None])),
          s.count - 1 - (if i.indices[i.bank].Some? then 1 else 0), s.nulls, s.dropped)
  }

  function SetBank(s: State, bank: nat): (r: State)
    requires Valid(s) && s.lx.Some? && bank < BANK_COUNT
    ensures Valid(r) && r.lx.Some?
  {
    s.(lx := Some(s.lx.value.(bank := bank)))
  }

  /** The loop of LOCALE_restore from bank i on. */
  function FreeFrom(s: State, i: nat): (r: State)
    requires Valid(s) && s.lx.Some? && i <= BANK_COUNT
    ensures Valid(r) && r.lx.Some?
    decreases BANK_COUNT - i
  {
    if i == BANK_COUNT then s
    else FreeFrom(if s.lx.value.banks[i].Some? then FreeTable(SetBank(s, i)) else s, i + 1)
  }

  function Live(blocks: seq<Option<Block>>): nat {
    if blocks == [] then 0 else (if blocks[0].Some? then 1 else 0) + Live(blocks[1..])
  }

  function Init(s: State): State {
    s.(lx := Some(Instance(0, Nothing(), Nothing())), count := s.count + 1)
  }

  /** LOCALE_restore: frees the banks and the instance; index blocks still held are lost. */
  function Restore(s: State): State
    requires Valid(s)
  {
    if s.lx.None? then s
    else
      var r := FreeFrom(s, 0);
      State(None, r.count - 1, r.nulls, r.dropped + Live(r.lx.value.indices))
  }

  datatype Step = DoInit | DoSetBank(bank: nat) | DoLoad(file: Option<seq<Byte>>, language: int) | DoFree | DoRestore

  /** What the source asserts before each call. */
  predicate Allowed(s: State, step: Step)
    requires Valid(s)
  {
    match step
    case DoInit => s.lx.None?
    case DoSetBank(bank) => s.lx.Some? && bank < BANK_COUNT
    case DoLoad(_, _) => s.lx.Some? && s.lx.value.banks[s.lx.value.bank].None? && s.lx.value.indices[s.lx.value.bank].None?
    case DoFree => s.lx.Some? ==> s.lx.value.banks[s.lx.value.bank].Some?
    case DoRestore => true
  }

  function Next(s: State, step: Step): (r: State)
    requires Valid(s) && Allowed(s, step)
    ensures Valid(r)
  {
    match step
    case DoInit => Init(s)
    case DoSetBank(bank) => SetBank(s, bank)
    case DoLoad(file, language) => LoadTable(s, file, language).state
    case DoFree => if s.lx.None? then s else FreeTable(s)
    case DoRestore => Restore(s)
  }

  predicate Runs(s: State, steps: seq<Step>)
    requires Valid(s)
    decreases |steps|
  {
    steps == [] || (Allowed(s, steps[0]) && Runs(Next(s, steps[0]), steps[1..]))
  }

  function Replay(s: State, steps: seq<Step>): (r: State)
    requires Valid(s) && Runs(s, steps)
    ensures Valid(r)
    decreases |steps|
  {
    if steps == [] then s else Replay(Next(s, steps[0]), steps[1..])
  }

  // ---------------------------------------------------------------------------------------
  // Ownership
  // ---------------------------------------------------------------------------------------

  /** The blocks the instance owns, with itself. */
  function BlocksHeld(s: State): nat {
    match s.lx case None => 0 case Some(i) => 1 + Live(i.banks) + Live(i.indices)
  }

  /** Every string table comes with its index. */
  predicate IndexedBanks(s: State) {
    s.lx.Some? ==>
      var i := s.lx.value;
      ValidInstance(i) && forall k | 0 <= k < BANK_COUNT :: i.banks[k].Some? ==> i.indices[k].Some?
  }

  /** galloccount is where it started plus what is owned, what galloc refused and what was left behind. */
  predicate Inv(s: State, start: int) {
    Valid(s) && IndexedBanks(s) && s.count == start + BlocksHeld(s) + s.nulls + s.dropped
  }

  lemma {:induction false} LiveUpdate(blocks: seq<Option<Block>>, k: nat, v: Option<Block>)
    requires k < |blocks|
    ensures Live(blocks[k := v]) == Live(blocks) - (if blocks[k].Some? then 1 else 0) + (if v.Some? then 1 else 0)
  {
    if k > 0 {
      assert blocks[k := v][1..] == blocks[1..][k - 1 := v];
      LiveUpdate(blocks[1..], k - 1, v);
    }
  }

  lemma {:induction false} LiveNothing(blocks: seq<Option<Block>>)
    requires forall k | 0 <= k < |blocks| :: blocks[k].None?
    ensures Live(blocks) == 0
  {
    if blocks != [] { LiveNothing(blocks[1..]); }
  }

  lemma FreeTableKeeps(s: State, start: int)
    requires Inv(s, start) && s.lx.Some? && s.lx.value.banks[s.lx.value.bank].Some?
    ensures Inv(FreeTable(s), start)
  {
    hide Live;
    var i := s.lx.value;
    LiveUpdate(i.banks, i.bank, None);
    LiveUpdate(i.indices, i.bank, None);
  }

  lemma LoadTableKeeps(s: State, file: Option<seq<Byte>>, language: int, start: int)
    requires Inv(s, start) && Allowed(s, DoLoad(file, language))
    ensures Inv(LoadTable(s, file, language).state, start)
  {
    hide Live, FetchChunk;
    if file.Some? {
      var header, strings := ReadHeader(file.value), ReadStrings(file.value, language);
      var i := s.lx.value;
      LiveUpdate(i.indices, i.bank, header.block);
      LiveUpdate(i.banks, i.bank, strings.block);
      FetchGives(file.value, language);
    }
  }

  /** A chunk that was read is there. */
  lemma FetchGives(file: seq<Byte>, language: int)
    ensures ReadHeader(file).ok ==> ReadHeader(file).asked && ReadHeader(file).block.Some?
    ensures !ReadHeader(file).asked ==> !ReadHeader(file).ok && ReadHeader(file).block.None?
    ensures !ReadStrings(file, language).asked ==> ReadStrings(file, language).block.None?
  {
  }

  /** The loop of LOCALE_restore keeps the invariant and empties the banks. */
  lemma {:induction false} FreeFromKeeps(s: State, i: nat, start: int)
    requires Inv(s, start) && s.lx.Some? && i <= BANK_COUNT
    requires forall k | 0 <= k < i :: s.lx.value.banks[k].None?
    ensures var r := FreeFrom(s, i);
            && Inv(r, start) && r.nulls == s.nulls && r.dropped == s.dropped
            && (forall k | 0 <= k < BANK_COUNT :: r.lx.value.banks[k].None?)
            && forall k | 0 <= k < BANK_COUNT ::
                 r.lx.value.indices[k] == if k >= i && s.lx.value.banks[k].Some? then None else s.lx.value.indices[k]
    decreases BANK_COUNT - i
  {
    hide Live, BlocksHeld;
    if i < BANK_COUNT {
      var t := if s.lx.value.banks[i].Some? then FreeTable(SetBank(s, i)) else s;
      if s.lx.value.banks[i].Some? {
        SetBankKeeps(s, i, start);
        FreeTableKeeps(SetBank(s, i), start);
      }
      FreeFromKeeps(t, i + 1, start);
    }
  }

  lemma SetBankKeeps(s: State, i: nat, start: int)
    requires Inv(s, start) && s.lx.Some? && i < BANK_COUNT
    ensures Inv(SetBank(s, i), start)
  {
  }

  /** The index blocks without a string table. */
  function Orphans(i: Instance): nat
    requires ValidInstance(i)
  {
    Live(seq(BANK_COUNT, k requires 0 <= k < BANK_COUNT => if i.banks[k].Some? then None else i.indices[k]))
  }

  /** LOCALE_restore leaves the orphans behind, and nothing else. */
  lemma RestoreLeavesOrphans(s: State, start: int)
    requires Inv(s, start) && s.lx.Some?
    ensures Restore(s).dropped == s.dropped + Orphans(s.lx.value) && Restore(s).nulls == s.nulls
    ensures Restore(s).lx.None? && Inv(Restore(s), start)
  {
    FreeFromKeeps(s, 0, start);
    var i, r := s.lx.value, FreeFrom(s, 0);
    LiveNothing(r.lx.value.banks);
    assert r.lx.value.indices
        == seq(BANK_COUNT, k requires 0 <= k < BANK_COUNT => if i.banks[k].Some? then None else i.indices[k]);
  }

  /** Every call keeps the invariant. */
  lemma NextKeepsInv(s: State, step: Step, start: int)
    requires Inv(s, start) && Allowed(s, step)
    ensures Inv(Next(s, step), start)
  {
    hide Live, FreeFrom;
    match step {
      case DoInit => LiveNothing(Nothing());
      case DoSetBank(bank) => SetBankKeeps(s, bank, start);
      case DoLoad(file, language) => LoadTableKeeps(s, file, language, start);
      case DoFree => if s.lx.Some? { FreeTableKeeps(s, start); }
      case DoRestore => if s.lx.Some? { RestoreLeavesOrphans(s, start); }
    }
  }

  /** Bank ownership: in every run of calls the allocation count is accounted for. */
  lemma {:induction false} RunKeepsInv(s: State, steps: seq<Step>, start: int)
    requires Inv(s, start) && Runs(s, steps)
    ensures Inv(Replay(s, steps), start)
    decreases |steps|
  {
    hide Next, Inv, Allowed;
    if steps != [] {
      InvIsValid(s, start);
      NextKeepsInv(s, steps[0], start);
      RunKeepsInv(Next(s, steps[0]), steps[1..], start);
    }
  }

  lemma InvIsValid(s: State, start: int)
    requires Inv(s, start)
    ensures Valid(s)
  {
  }

  const DOWN := State(None, 0, 0, 0)

  lemma OrphansNone(i: Instance)
    requires ValidInstance(i)
    ensures Orphans(i) == 0 <==> forall k | 0 <= k < BANK_COUNT :: i.indices[k].Some? ==> i.banks[k].Some?
  {
    hide Live;
    var orphans := seq(BANK_COUNT, k requires 0 <= k < BANK_COUNT => if i.banks[k].Some? then None else i.indices[k]);
    LiveZero(orphans);
    assert forall k | 0 <= k < BANK_COUNT :: orphans[k].None? <==> (i.indices[k].Some? ==> i.banks[k].Some?);
  }

  lemma {:induction false} LiveZero(blocks: seq<Option<Block>>)
    ensures Live(blocks) == 0 <==> forall k | 0 <= k < |blocks| :: blocks[k].None?
  {
    if blocks != [] {
      LiveZero(blocks[1..]);
      assert forall k | 0 < k < |blocks| :: blocks[k] == blocks[1..][k - 1];
    }
  }

  /**
   * LOCALE_restore brings the count back to its start exactly when galloc never refused, no earlier
   * LOCALE_restore left a block behind, and every bank that holds an index also holds a string table.
   */
  lemma RestoreBalances(start: int, steps: seq<Step>)
    requires var s := DOWN.(count := start);
             Runs(s, steps) && Replay(s, steps).lx.Some?
    ensures var s := Replay(DOWN.(count := start), steps);
            Restore(s).count == start
            <==> s.nulls == 0 && s.dropped == 0
                 && forall k | 0 <= k < BANK_COUNT :: s.lx.value.indices[k].Some? ==> s.lx.value.banks[k].Some?
  {
    hide Restore, Orphans, Replay, Runs;
    RunKeepsInv(DOWN.(count := start), steps, start);
    var s := Replay(DOWN.(count := start), steps);
    RestoreLeavesOrphans(s, start);
    OrphansNone(s.lx.value);
  }

  /** In every run a bank with a string table has its index: LOCALE_getstring never uses a plain array index. */
  lemma BanksAreIndexed(start: int, steps: seq<Step>, k: nat)
    requires var s := DOWN.(count := start); Runs(s, steps) && Replay(s, steps).lx.Some? && k < BANK_COUNT
    requires Replay(DOWN.(count := start), steps).lx.value.banks[k].Some?
    ensures Replay(DOWN.(count := start), steps).lx.value.indices[k].Some?
  {
    hide Replay, Runs;
    RunKeepsInv(DOWN.(count := start), steps, start);
  }

  /** An index without its string table. */
  predicate Orphan(s: State, k: nat) {
    s.lx.Some? && k < |s.lx.value.banks| && k < |s.lx.value.indices|
    && s.lx.value.banks[k].None? && s.lx.value.indices[k].Some?
  }

  /** A bank whose string table failed to load behind its index is stuck: until LOCALE_restore no call can empty or fill it. */
  lemma {:induction false} OrphansStick(s: State, steps: seq<Step>, k: nat)
    requires Valid(s) && Runs(s, steps) && Orphan(s, k) && DoRestore !in steps
    ensures Orphan(Replay(s, steps), k)
    decreases |steps|
  {
    hide LoadTable, FreeFrom, Live;
    if steps != [] {
      assert DoRestore !in steps[1..];
      if steps[0].DoLoad? { LoadElsewhere(s, steps[0].file, steps[0].language, k); }
      OrphansStick(Next(s, steps[0]), steps[1..], k);
    }
  }

  lemma LoadElsewhere(s: State, file: Option<seq<Byte>>, language: int, k: nat)
    requires Valid(s) && Allowed(s, DoLoad(file, language)) && Orphan(s, k)
    ensures Orphan(LoadTable(s, file, language).state, k)
  {
    hide ReadHeader, ReadStrings;
  }

  /** A 24-byte file that promises an index chunk of 100 bytes. */
  const SHORT_INDEX: seq<Byte> :=
    [76, 79, 67, 72, 16, 0, 0, 0, 1, 0, 0, 0, 1, 0, 0, 0, 76, 79, 67, 73, 100, 0, 0, 0]

  lemma SmallInt(b: seq<Byte>, pos: nat)
    requires pos + 4 <= |b| && b[pos + 1] == b[pos + 2] == b[pos + 3] == 0
    ensures IntAt(b, pos) == b[pos]
  {
    var four := b[pos..pos + 4];
    assert four[0] == b[pos] && four[1] == b[pos + 1] && four[2] == b[pos + 2] && four[3] == b[pos + 3];
  }

  /** Such a file leaks: the index block of a failed load survives LOCALE_restore. */
  lemma ShortIndexLeaks(start: int)
    ensures var s := LoadTable(Init(DOWN.(count := start)), Some(SHORT_INDEX), 0);
            && !s.ok && Orphan(s.state, 0) && Restore(s.state).count == start + 1
  {
    hide Live, FreeFrom;
    var up := Init(DOWN.(count := start));
    SmallInt(SHORT_INDEX, 4);
    SmallInt(SHORT_INDEX, 8);
    SmallInt(SHORT_INDEX, 20);
    PortionInside(SHORT_INDEX, 20, 4);
    assert ReadHeader(SHORT_INDEX) == Fetch(false, true, Some(Partial));
    var s := LoadTable(up, Some(SHORT_INDEX), 0).state;
    LiveNothing(Nothing());
    LoadTableKeeps(up, Some(SHORT_INDEX), 0, start);
    RestoreLeavesOrphans(s, start);
    var orphans: seq<Option<Block>> := Nothing()[0 := Some(Partial)];
    LiveUpdate(Nothing(), 0, Some(Partial));
    assert orphans
        == seq(BANK_COUNT, k requires 0 <= k < BANK_COUNT => if s.lx.value.banks[k].Some? then None else s.lx.value.indices[k]);
  }

  // ---------------------------------------------------------------------------------------
  // Lookup
  // ---------------------------------------------------------------------------------------

  /** The current bank is fully loaded with chunks that keep to their size. */
  predicate BankReady(s: State, wide: bool) {
    s.lx.Some? && ValidInstance(s.lx.value)
    && var i := s.lx.value;
    && i.banks[i.bank].Some? && i.banks[i.bank].value.Filled?
    && BankFits(i.banks[i.bank].value.mem, 0, |i.banks[i.bank].value.mem|, wide)
    && i.indices[i.bank].Some? && i.indices[i.bank].value.Filled?
    && IndexFits(i.indices[i.bank].value.mem, 0) && Ascending(Ids(i.indices[i.bank].value.mem, 0))
  }

  /** LOCALE_getstring: what the returned pointer into the bank sees. */
  function GetString(s: State, id: int, wide: bool): Option<seq<Byte>>
    requires BankReady(s, wide)
  {
    var i := s.lx.value;
    Pointee(i.banks[i.bank].value.mem, 0, IndexOf(Ids(i.indices[i.bank].value.mem, 0), Key(id)))
  }

  lemma PortionInside(file: seq<Byte>, pos: nat, n: nat)
    requires pos + n <= |file|
    ensures Portion(file, pos, n) == file[pos..pos + n]
  {
  }

  lemma FetchInside(file: seq<Byte>, pos: nat, size: nat, checked: bool)
    requires pos + 8 <= |file| && IntAt(file, pos + 4) == size && pos + size <= |file|
    ensures FetchChunk(file, pos, checked) == Fetch(true, true, Some(Filled(file[pos..pos + size])))
  {
    PortionInside(file, pos + 4, 4);
    PortionInside(file, pos, size);
  }

  /** The index chunk of a file. */
  function IndexChunk(file: seq<Byte>): seq<Byte>
    requires |file| >= CHUNK_HEADER && IndexWellFormed(file)
  {
    file[IndexPos(file)..IndexPos(file) + IntAt(file, IndexPos(file) + 4)]
  }

  /** The chunk of a language of a file. */
  function LanguageChunk(file: seq<Byte>, wide: bool, language: nat): seq<Byte>
    requires WellFormed(file, wide) && language < LanguageCount(file)
  {
    var p := LanguageBase(file, wide, language);
    file[p..p + IntAt(file, p + 4)]
  }

  /** A well-formed indexed file loads in every one of its languages: its chunks go into the current bank. */
  lemma WellFormedLoads(s: State, file: seq<Byte>, wide: bool, language: nat)
    requires Valid(s) && Allowed(s, DoLoad(Some(file), language))
    requires WellFormed(file, wide) && HasIndex(file) && language < LanguageCount(file)
    ensures var i := s.lx.value;
            LoadTable(s, Some(file), language)
            == Loaded(true, s.(count := s.count + 2,
                               lx := Some(i.(indices := i.indices[i.bank := Some(Filled(IndexChunk(file)))],
                                             banks := i.banks[i.bank := Some(Filled(LanguageChunk(file, wide, language)))]))))
  {
    hide FetchChunk, Ids, Ascending, BankFits, Int32, Portion;
    var p, q := IndexPos(file), LanguageBase(file, wide, language);
    BankSize(file, q, IntAt(file, q + 4), wide);
    FetchInside(file, p, IntAt(file, p + 4), false);
    PortionInside(file, CHUNK_HEADER + 4 * language, 4);
    FetchInside(file, q, IntAt(file, q + 4), true);
  }

  lemma ChunksAreReady(file: seq<Byte>, wide: bool, language: nat)
    requires WellFormed(file, wide) && HasIndex(file) && language < LanguageCount(file)
    ensures IndexFits(IndexChunk(file), 0) && Ids(IndexChunk(file), 0) == Ids(file, IndexPos(file))
    ensures Ascending(Ids(IndexChunk(file), 0))
    ensures var chunk := LanguageChunk(file, wide, language); BankFits(chunk, 0, |chunk|, wide)
  {
    hide Ids, Ascending, BankFits, IntAt;
    var p, q := IndexPos(file), LanguageBase(file, wide, language);
    IdsOfCopy(file, p, IntAt(file, p + 4));
    BankSize(file, q, IntAt(file, q + 4), wide);
    BankOfCopy(file, q, IntAt(file, q + 4), wide);
  }

  lemma BankSize(file: seq<Byte>, base: nat, size: int, wide: bool)
    requires BankFits(file, base, size, wide)
    ensures size >= CHUNK_HEADER && base + size <= |file|
  {
  }

  /**
   * The two lookup paths agree: for every well-formed indexed file, language and id,
   * LOCALE_loadtable and LOCALE_getstring find what LOCALE_getstr finds in the whole file.
   */
  lemma TwoPathsAgree(s: State, file: seq<Byte>, wide: bool, language: nat, id: int)
    requires Valid(s) && Allowed(s, DoLoad(Some(file), language))
    requires WellFormed(file, wide) && HasIndex(file) && language < LanguageCount(file)
    ensures var r := LoadTable(s, Some(file), language);
            && r.ok && BankReady(r.state, wide)
            && TextOf(GetString(r.state, id, wide), wide) == TextOf(GetStr(file, wide, language, id), wide)
            && (GetString(r.state, id, wide).None? <==> forall k: nat :: !Names(file, wide, language, id, k))
            && forall k: nat | Names(file, wide, language, id, k) ::
                 TextOf(GetString(r.state, id, wide), wide) == Some(Text(StringFrom(file, wide, language, k), wide))
  {
    hide LoadTable, Ids, Ascending, BankFits, IntAt, Text, Pointee, Names, Key, StringFrom, Terminated;
    GetStrIsExact(file, wide, language, id);
    WellFormedLoads(s, file, wide, language);
    ChunksAreReady(file, wide, language);
    var q := LanguageBase(file, wide, language);
    BankSize(file, q, IntAt(file, q + 4), wide);
    PointeeOfCopy(file, q, IntAt(file, q + 4), wide, IndexOf(Ids(file, IndexPos(file)), Key(id)));
  }

  /** A file without an index never loads, although LOCALE_getstr reads it: the paths part there. */
  lemma UnindexedNeverLoads(s: State, file: seq<Byte>, language: int)
    requires Valid(s) && Allowed(s, DoLoad(Some(file), language)) && |file| >= CHUNK_HEADER && !HasIndex(file)
    ensures LoadTable(s, Some(file), language) == Loaded(false, s)
  {
  }
}
