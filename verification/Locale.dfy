/** The functions of Core/Tools/Autorun/locale.cpp over the stream and galloc of EZGIMEX.cpp. */
module Locale {
  import opened Options
  import opened RamFile
  import opened CsfFormat
  import opened LocaleFormat
  import opened LocaleBanks

  /** GSTREAM: a file that is read only. */
  class Stream {
    const data: seq<Byte>
    var pos: nat

    /** gopen of a file that exists */
    constructor (content: seq<Byte>)
      ensures data == content && pos == 0
    {
      data, pos := content, 0;
    }

    /** gseek: the position may lie behind the end, but not before the start. */
    method Seek(offset: int) returns (ok: bool)
      modifies this
      ensures ok <==> offset >= 0
      ensures pos == if ok then offset else old(pos)
    {
      ok := offset >= 0;
      if ok { pos := offset; }
    }

    /** gread */
    method Read(size: nat) returns (bytes: seq<Byte>)
      modifies this
      ensures bytes == Portion(data, old(pos), size) && pos == old(pos) + |bytes|
    {
      bytes := Portion(data, pos, size);
      pos := pos + |bytes|;
    }
  }

  /** The globals lx and galloccount; the ghost counters are the history of LocaleBanks.State. */
  class LocaleApi {
    var initialized: bool
    var bankIndex: nat
    var bank: seq<Option<Block>>
    var index: seq<Option<Block>>
    var galloccount: int
    ghost var nulls: nat
    ghost var dropped: nat

    ghost function Abstract(): State
      reads this
    {
      State(if initialized then Some(Instance(bankIndex, bank, index)) else None, galloccount, nulls, dropped)
    }

    ghost predicate Ready()
      reads this
    {
      LocaleBanks.Valid(Abstract())
    }

    constructor (count: int)
      ensures Ready() && Abstract() == State(None, count, 0, 0)
    {
      initialized, bankIndex, bank, index, galloccount, nulls, dropped := false, 0, [], [], count, 0, 0;
    }

    /** galloc: null for a negative size. */
    method Galloc(size: int) returns (block: Option<Block>)
      requires Ready()
      modifies this`galloccount, this`nulls
      ensures block == if size < 0 then None else Some(Partial)
      ensures galloccount == old(galloccount) + 1 && nulls == old(nulls) + if size < 0 then 1 else 0
    {
      galloccount := galloccount + 1;
      if size < 0 {
        nulls := nulls + 1;
        return None;
      }
      block := Some(Partial);
    }

    /** gfree */
    method Gfree()
      modifies this`galloccount
      ensures galloccount == old(galloccount) - 1
    {
      galloccount := galloccount - 1;
    }

    /** LOCALE_init */
    method Init()
      requires Ready() && Allowed(Abstract(), DoInit)
      modifies this
      ensures Ready() && Abstract() == LocaleBanks.Init(old(Abstract()))
    {
      var memory := Galloc(0);
      initialized, bankIndex, bank, index := true, 0, Nothing(), Nothing();
    }

    /** LOCALE_setbank */
    method SetBank(i: nat)
      requires Ready() && Allowed(Abstract(), DoSetBank(i))
      modifies this`bankIndex
      ensures Ready() && Abstract() == LocaleBanks.SetBank(old(Abstract()), i)
    {
      bankIndex := i;
    }

    /** readheader */
    method ReadHeader(g: Stream) returns (ok: bool)
      requires Ready() && initialized && g.pos == 0
      modifies this`galloccount, this`nulls, this`index, g
      ensures Ready() && Abstract() == WithIndex(old(Abstract()), LocaleBanks.ReadHeader(g.data))
      ensures ok == LocaleBanks.ReadHeader(g.data).ok
    {
      hide Int32;
      var header := g.Read(CHUNK_HEADER);
      if |header| != CHUNK_HEADER { return false; }
      HeaderCopy(g.data);
      if IntAt(header, 8) == INDEXED {
        var indexChunkPos := IntAt(header, 4);
        var sought := g.Seek(indexChunkPos + 4);
        if !sought { return false; }
        var word := g.Read(4);
        if |word| != 4 { return false; }
        var indexChunkSize := Int32(word);
        var block := Galloc(indexChunkSize);
        index := index[bankIndex := block];
        if block.Some? {
          sought := g.Seek(indexChunkPos);
          var bytes := g.Read(indexChunkSize);
          if |bytes| != indexChunkSize { return false; }
          index := index[bankIndex := Some(Filled(bytes))];
          assert index == old(index)[bankIndex := Some(Filled(bytes))];
          return true;
        }
      }
      ok := false;
    }

    /** readstrings */
    method ReadStrings(g: Stream, language: int) returns (ok: bool)
      requires Ready() && initialized
      modifies this`galloccount, this`nulls, this`bank, g
      ensures Ready() && Abstract() == WithBank(old(Abstract()), LocaleBanks.ReadStrings(g.data, language))
      ensures ok == LocaleBanks.ReadStrings(g.data, language).ok
    {
      hide Int32;
      var sought := g.Seek(CHUNK_HEADER + language * 4);
      if !sought { return false; }
      var word := g.Read(4);
      if |word| != 4 { return false; }
      var chunkPos := Int32(word);
      sought := g.Seek(chunkPos + 4);
      if !sought { return false; }
      word := g.Read(4);
      if |word| != 4 { return false; }
      var chunkSize := Int32(word);
      var block := Galloc(chunkSize);
      bank := bank[bankIndex := block];
      if block.Some? {
        sought := g.Seek(chunkPos);
        if !sought { return false; }
        var bytes := g.Read(chunkSize);
        if |bytes| != chunkSize { return false; }
        bank := bank[bankIndex := Some(Filled(bytes))];
        assert bank == old(bank)[bankIndex := Some(Filled(bytes))];
        return true;
      }
      ok := false;
    }

    /** LOCALE_loadtable */
    method LoadTable(file: Option<seq<Byte>>, language: int) returns (ok: bool)
      requires Ready() && Allowed(Abstract(), DoLoad(file, language))
      modifies this
      ensures Ready()
      ensures Loaded(ok, Abstract()) == LocaleBanks.LoadTable(old(Abstract()), file, language)
    {
      hide LocaleBanks.ReadHeader, LocaleBanks.ReadStrings;
      ok := false;
      match file {
        case None =>
        case Some(content) =>
          var g := new Stream(content);
          ok := ReadHeader(g);
          if ok {
            ok := ReadStrings(g, language);
          }
      }
    }

    /** LOCALE_freetable */
    method FreeTable()
      requires Ready() && Allowed(Abstract(), DoFree)
      modifies this`galloccount, this`bank, this`index
      ensures Ready() && Abstract() == Next(old(Abstract()), DoFree)
    {
      if initialized {
        Gfree();
        bank := bank[bankIndex := None];
        if index[bankIndex].Some? {
          Gfree();
          index := index[bankIndex := None];
        }
        assert index == old(index)[bankIndex := None];
      }
    }

    /** LOCALE_restore */
    method Restore()
      requires Ready()
      modifies this
      ensures Ready() && Abstract() == LocaleBanks.Restore(old(Abstract()))
    {
      hide Live;
      if initialized {
        ghost var last := FreeFrom(Abstract(), 0);
        var i := 0;
        while i < BANK_COUNT
          invariant Ready() && initialized && 0 <= i <= BANK_COUNT && dropped == old(dropped)
          invariant FreeFrom(Abstract(), i) == last
        {
          if bank[i].Some? {
            SetBank(i);
            FreeTable();
          }
          i := i + 1;
        }
        dropped := dropped + Live(index);
        Gfree();
        initialized := false;
      }
    }

    /** LOCALE_getstring on a loaded bank: what the returned pointer sees. */
    method GetString(stringId: int, ghost wide: bool) returns (p: Option<seq<Byte>>)
      requires Ready() && BankReady(Abstract(), wide)
      ensures p == LocaleBanks.GetString(Abstract(), stringId, wide)
    {
      hide Ids, IndexOf, Ascending, Terminated, IntAt;
      var k := stringId;
      if index[bankIndex].Some? {
        k := GetStringByIndex(Key(k), index[bankIndex].value.mem, 0);
      }
      var mem := bank[bankIndex].value.mem;
      if k >= 0 && k < IntAt(mem, 12) {
        var offset := OffsetAt(mem, 0, k);
        p := Some(mem[offset..]);
      } else {
        p := None;
      }
    }
  }

  lemma HeaderCopy(file: seq<Byte>)
    requires |file| >= CHUNK_HEADER
    ensures Portion(file, 0, CHUNK_HEADER) == file[..CHUNK_HEADER]
    ensures IntAt(file[..CHUNK_HEADER], 4) == IntAt(file, 4) && IntAt(file[..CHUNK_HEADER], 8) == IntAt(file, 8)
  {
    IntOfCopy(file, 0, CHUNK_HEADER, 4);
    IntOfCopy(file, 0, CHUNK_HEADER, 8);
  }

  /**
   * One life of the API: after LOCALE_init, loading a well-formed indexed file and asking for an
   * id gives the text LOCALE_getstr gives, and LOCALE_restore leaves no block behind.
   */
  method LoadAskRestore(file: seq<Byte>, wide: bool, language: nat, id: int, start: int)
    returns (loaded: Option<seq<Byte>>, direct: Option<seq<Byte>>, count: int)
    requires WellFormed(file, wide) && HasIndex(file) && language < LanguageCount(file)
    ensures TextOf(loaded, wide) == TextOf(direct, wide) && direct == GetStr(file, wide, language, id)
    ensures count == start
  {
    hide LocaleBanks.LoadTable, LocaleBanks.Restore, LocaleBanks.GetString, Live, BankReady, WellFormed, Terminated,
         GetStr, TextOf, Inv, FreeFrom;
    var api := new LocaleApi(start);
    api.Init();
    ghost var up := api.Abstract();
    TwoPathsAgree(up, file, wide, language, id);
    RestoredStart(up, file, wide, language, start);
    var ok := api.LoadTable(Some(file), language);
    loaded := api.GetString(id, wide);
    direct := LocaleGetStr(file, language, id, wide);
    api.Restore();
    count := api.galloccount;
  }

  lemma RestoredStart(up: State, file: seq<Byte>, wide: bool, language: nat, start: int)
    requires up == LocaleBanks.Init(DOWN.(count := start))
    requires WellFormed(file, wide) && HasIndex(file) && language < LanguageCount(file)
    ensures LocaleBanks.Restore(LocaleBanks.LoadTable(up, Some(file), language).state).count == start
  {
    hide LocaleBanks.LoadTable, LocaleBanks.Restore, WellFormed, Live;
    LiveNothing(Nothing());
    WellFormedLoads(up, file, wide, language);
    LoadTableKeeps(up, Some(file), language, start);
    var s := LocaleBanks.LoadTable(up, Some(file), language).state;
    OrphansNone(s.lx.value);
    RestoreLeavesOrphans(s, start);
  }
}
