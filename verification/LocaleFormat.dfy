/** The .loc string table of Core/Tools/Autorun/locale.cpp: its layout, its meaning and the two ways to look a string up. */
module LocaleFormat {
  import opened Options
  import opened RamFile
  import opened StripSpaces
  import opened CsfFormat

  const CHUNK_HEADER := 16
  /** header.Flags of a file with an index chunk. */
  const INDEXED := 1

  function U16At(b: seq<Byte>, pos: nat): nat
    requires pos + 2 <= |b|
  {
    Wide16(b[pos], b[pos + 1])
  }

  function U32At(b: seq<Byte>, pos: nat): nat
    requires pos + 4 <= |b|
  {
    IntAt(b, pos) % 0x1_0000_0000
  }

  /** (unsigned short)StringID */
  function Key(id: int): nat { id % 0x1_0000 }

  // ---------------------------------------------------------------------------------------
  // The index
  // ---------------------------------------------------------------------------------------

  /** STRINGID: the id the user gives and the place of its string in every language chunk. */
  datatype StringId = StringId(id: nat, index: nat)

  /** The string ids of the index chunk at base lie in memory. */
  predicate IndexFits(mem: seq<Byte>, base: nat) {
    base + CHUNK_HEADER <= |mem| && base + CHUNK_HEADER + 4 * U32At(mem, base + 8) <= |mem|
  }

  function Ids(mem: seq<Byte>, base: nat): (r: seq<StringId>)
    requires IndexFits(mem, base)
    ensures |r| == U32At(mem, base + 8)
  {
    seq(U32At(mem, base + 8), i requires 0 <= i < U32At(mem, base + 8) =>
      StringId(U16At(mem, base + CHUNK_HEADER + 4 * i), U16At(mem, base + CHUNK_HEADER + 4 * i + 2)))
  }

  predicate Ascending(ids: seq<StringId>) {
    forall i, j | 0 <= i < j < |ids| :: ids[i].id < ids[j].id
  }

  /** getstringbyindex: the index of the entry with the key, or -1. */
  function IndexOf(ids: seq<StringId>, key: nat): int {
    if ids == [] then -1 else if ids[0].id == key then ids[0].index else IndexOf(ids[1..], key)
  }

  lemma {:induction false} IndexOfEntry(ids: seq<StringId>, key: nat, i: nat)
    requires Ascending(ids) && i < |ids| && ids[i].id == key
    ensures IndexOf(ids, key) == ids[i].index
  {
    if i > 0 {
      assert ids[0].id < ids[i].id;
      assert ids[1..][i - 1] == ids[i];
      assert forall j | 0 <= j < |ids[1..]| :: ids[1..][j] == ids[j + 1];
      IndexOfEntry(ids[1..], key, i - 1);
    }
  }

  lemma {:induction false} IndexOfNothing(ids: seq<StringId>, key: nat)
    requires forall i | 0 <= i < |ids| :: ids[i].id != key
    ensures IndexOf(ids, key) == -1
  {
    if ids != [] {
      assert forall j | 0 <= j < |ids[1..]| :: ids[1..][j] == ids[j + 1];
      IndexOfNothing(ids[1..], key);
    }
  }

  /** bsearch (ISO/IEC 9899:2011, section 7.22.5.1) over the string ids, as getstringbyindex calls it. */
  method GetStringByIndex(key: nat, mem: seq<Byte>, base: nat) returns (index: int)
    requires IndexFits(mem, base) && Ascending(Ids(mem, base))
    ensures index == IndexOf(Ids(mem, base), key)
  {
    hide IndexOf;
    ghost var ids := Ids(mem, base);
    var lo, hi := 0, U32At(mem, base + 8);
    while lo < hi
      invariant 0 <= lo <= hi <= |ids|
      invariant forall i | 0 <= i < lo :: ids[i].id < key
      invariant forall i | hi <= i < |ids| :: key < ids[i].id
    {
      var mid := (lo + hi) / 2;
      var result := U16At(mem, base + CHUNK_HEADER + 4 * mid);
      assert ids[mid].id == result;
      if key == result {
        IndexOfEntry(ids, key, mid);
        return U16At(mem, base + CHUNK_HEADER + 4 * mid + 2);
      } else if key < result {
        hi := mid;
      } else {
        lo := mid + 1;
      }
    }
    IndexOfNothing(ids, key);
    index := -1;
  }

  // ---------------------------------------------------------------------------------------
  // Strings
  // ---------------------------------------------------------------------------------------

  /** The units of a string in memory: bytes, or 16-bit characters in a Unicode file. */
  function Units(mem: seq<Byte>, wide: bool): seq<Wide> {
    if wide then WidesAt(mem, 0, |mem| / 2) else seq(|mem|, i requires 0 <= i < |mem| => mem[i])
  }

  /** The zero-terminated string a pointer to mem stands for. */
  function Text(mem: seq<Byte>, wide: bool): seq<Wide> { CString(Units(mem, wide), 0) }

  predicate Terminated(mem: seq<Byte>, wide: bool) { 0 in Units(mem, wide) }

  lemma {:induction false} CStringOfPrefix<T>(p: seq<T>, q: seq<T>, zero: T)
    requires p <= q && zero in p
    ensures CString(p, zero) == CString(q, zero)
  {
    if p[0] != zero {
      assert p[1..] <= q[1..];
      CStringOfPrefix(p[1..], q[1..], zero);
    }
  }

  /** A string that ends in a block reads the same in everything the block begins. */
  lemma TextOfPrefix(p: seq<Byte>, q: seq<Byte>, wide: bool)
    requires p <= q && Terminated(p, wide)
    ensures Text(p, wide) == Text(q, wide) && Terminated(q, wide)
  {
    hide CString;
    assert Units(p, wide) <= Units(q, wide);
    CStringOfPrefix(Units(p, wide), Units(q, wide), 0);
  }

  /** StringOffset[k] of the language chunk at base. */
  function OffsetAt(mem: seq<Byte>, base: nat, k: nat): nat
    requires base + CHUNK_HEADER + 4 * k + 4 <= |mem|
  {
    U32At(mem, base + CHUNK_HEADER + 4 * k)
  }

  /** The language chunk at base has its strings inside its size bytes, which lie in memory. */
  predicate BankFits(mem: seq<Byte>, base: nat, size: int, wide: bool) {
    && size >= CHUNK_HEADER && base + size <= |mem|
    && IntAt(mem, base + 12) >= 0 && CHUNK_HEADER + 4 * IntAt(mem, base + 12) <= size
    && forall k | 0 <= k < IntAt(mem, base + 12) ::
         OffsetAt(mem, base, k) <= size && Terminated(mem[base + OffsetAt(mem, base, k)..base + size], wide)
  }

  /** What a pointer to string k of the language chunk at base sees; None for null. */
  function Pointee(mem: seq<Byte>, base: nat, k: int): Option<seq<Byte>>
    requires base + CHUNK_HEADER <= |mem|
    requires 0 <= k < IntAt(mem, base + 12) ==>
               base + CHUNK_HEADER + 4 * k + 4 <= |mem| && base + OffsetAt(mem, base, k) <= |mem|
  {
    if 0 <= k < IntAt(mem, base + 12) then Some(mem[base + OffsetAt(mem, base, k)..]) else None
  }

  function TextOf(p: Option<seq<Byte>>, wide: bool): Option<seq<Wide>> {
    match p case None => None case Some(mem) => Some(Text(mem, wide))
  }

  // ---------------------------------------------------------------------------------------
  // Files
  // ---------------------------------------------------------------------------------------

  predicate HasIndex(file: seq<Byte>)
    requires |file| >= CHUNK_HEADER
  {
    IntAt(file, 8) == INDEXED
  }

  /** Where the index chunk starts. */
  function IndexPos(file: seq<Byte>): int
    requires |file| >= CHUNK_HEADER
  {
    IntAt(file, 4)
  }

  function LanguageCount(file: seq<Byte>): nat
    requires |file| >= CHUNK_HEADER
  {
    U32At(file, 12)
  }

  /** Where the chunk of a language starts. */
  function LanguagePos(file: seq<Byte>, language: nat): int
    requires CHUNK_HEADER + 4 * language + 4 <= |file|
  {
    IntAt(file, CHUNK_HEADER + 4 * language)
  }

  predicate IndexWellFormed(file: seq<Byte>)
    requires |file| >= CHUNK_HEADER
  {
    var p := IndexPos(file);
    && p >= 0 && IndexFits(file, p)
    && var size := IntAt(file, p + 4);
    && p + size <= |file| && CHUNK_HEADER + 4 * U32At(file, p + 8) <= size
    && Ascending(Ids(file, p))
  }

  predicate LanguageWellFormed(file: seq<Byte>, language: nat, wide: bool)
    requires CHUNK_HEADER + 4 * language + 4 <= |file|
  {
    var p := LanguagePos(file, language);
    p >= 0 && p + CHUNK_HEADER <= |file| && BankFits(file, p, IntAt(file, p + 4), wide)
  }

  /** A file as the string compiler writes it. */
  predicate WellFormed(file: seq<Byte>, wide: bool) {
    && |file| >= CHUNK_HEADER && CHUNK_HEADER + 4 * LanguageCount(file) <= |file|
    && (HasIndex(file) ==> IndexWellFormed(file))
    && forall l | 0 <= l < LanguageCount(file) :: LanguageWellFormed(file, l, wide)
  }

  /** The chunk of a language of a well-formed file. */
  function LanguageBase(file: seq<Byte>, wide: bool, language: nat): (p: nat)
    requires WellFormed(file, wide) && language < LanguageCount(file)
    ensures p + CHUNK_HEADER <= |file| && BankFits(file, p, IntAt(file, p + 4), wide)
  {
    assert LanguageWellFormed(file, language, wide);
    LanguagePos(file, language)
  }

  function StringCount(file: seq<Byte>, wide: bool, language: nat): int
    requires WellFormed(file, wide) && language < LanguageCount(file)
  {
    IntAt(file, LanguageBase(file, wide, language) + 12)
  }

  /** String k of a language: what a pointer to it sees. */
  function StringFrom(file: seq<Byte>, wide: bool, language: nat, k: nat): seq<Byte>
    requires WellFormed(file, wide) && language < LanguageCount(file) && k < StringCount(file, wide, language)
  {
    var p := LanguageBase(file, wide, language);
    file[p + OffsetAt(file, p, k)..]
  }

  /** The pointer sees string k, with its terminator. */
  predicate SeesString(seen: Option<seq<Byte>>, file: seq<Byte>, wide: bool, language: nat, k: nat)
    requires WellFormed(file, wide) && language < LanguageCount(file)
  {
    && k < StringCount(file, wide, language)
    && seen == Some(StringFrom(file, wide, language, k)) && Terminated(StringFrom(file, wide, language, k), wide)
  }

  lemma StringIsTerminated(file: seq<Byte>, wide: bool, language: nat, k: nat)
    requires WellFormed(file, wide) && language < LanguageCount(file) && k < StringCount(file, wide, language)
    ensures Terminated(StringFrom(file, wide, language, k), wide)
  {
    hide Terminated, IntAt, WidesAt, WellFormed;
    var p := LanguageBase(file, wide, language);
    var at := p + OffsetAt(file, p, k);
    TextOfPrefix(file[at..p + IntAt(file, p + 4)], file[at..], wide);
  }

  /** Ids are 16 bits: two that differ by a multiple of 65536 are one. */
  predicate SameId(a: int, b: int) { (a - b) % 65536 == 0 }

  /** The index at base has an entry with that id which refers to k. */
  predicate HasEntry(mem: seq<Byte>, base: nat, id: int, k: nat)
    requires IndexFits(mem, base)
  {
    exists e | e in Ids(mem, base) :: SameId(id, e.id) && e.index == k
  }

  /**
   * The file has a string with this id in this language, and it is string k of the chunk: an entry of
   * its index has the id and refers to k. Without an index the id itself is k.
   */
  predicate Names(file: seq<Byte>, wide: bool, language: nat, id: int, k: nat)
    requires WellFormed(file, wide) && language < LanguageCount(file)
  {
    && k < StringCount(file, wide, language)
    && if HasIndex(file) then HasEntry(file, IndexPos(file), id, k) else k == id
  }

  /** LOCALE_getstr on a whole file: what the returned pointer sees. */
  function GetStr(file: seq<Byte>, wide: bool, language: nat, id: int): Option<seq<Byte>>
    requires WellFormed(file, wide) && language < LanguageCount(file)
  {
    var k := if HasIndex(file) then IndexOf(Ids(file, IndexPos(file)), Key(id)) else id;
    Pointee(file, LanguageBase(file, wide, language), k)
  }

  /** The function LOCALE_getstr, whose language is a global. */
  method LocaleGetStr(file: seq<Byte>, languageId: nat, stringId: int, ghost wide: bool) returns (p: Option<seq<Byte>>)
    requires WellFormed(file, wide) && languageId < LanguageCount(file)
    ensures p == GetStr(file, wide, languageId, stringId)
  {
    hide Ids, IndexOf, Ascending, Terminated, IntAt;
    var k := stringId;
    if HasIndex(file) {
      k := GetStringByIndex(Key(k), file, IndexPos(file));
    }
    assert LanguageWellFormed(file, languageId, wide);
    var bank := IntAt(file, CHUNK_HEADER + 4 * languageId);
    if k >= 0 && k < IntAt(file, bank + 12) {
      var offset := OffsetAt(file, bank, k);
      p := Some(file[bank + offset..]);
    } else {
      p := None;
    }
  }

  /** LOCALE_getstr finds a string exactly when the file names one for the id, and finds that one, terminated. */
  lemma GetStrIsExact(file: seq<Byte>, wide: bool, language: nat, id: int)
    requires WellFormed(file, wide) && language < LanguageCount(file)
    ensures GetStr(file, wide, language, id).None? <==> forall k: nat :: !Names(file, wide, language, id, k)
    ensures forall k: nat | Names(file, wide, language, id, k) ::
              SeesString(GetStr(file, wide, language, id), file, wide, language, k)
  {
    hide Ids, IndexOf, Terminated, IntAt, BankFits, LanguageBase, OffsetAt, HasEntry;
    if HasIndex(file) {
      IdsAscend(file, wide);
      IndexOfIsExact(Ids(file, IndexPos(file)), Key(id));
      forall k: nat ensures HasEntry(file, IndexPos(file), id, k) <==> IndexOf(Ids(file, IndexPos(file)), Key(id)) == k {
        EntryIsKey(file, IndexPos(file), id, k);
      }
    }
    forall k: nat | Names(file, wide, language, id, k)
      ensures SeesString(GetStr(file, wide, language, id), file, wide, language, k)
    {
      StringIsTerminated(file, wide, language, k);
    }
    if GetStr(file, wide, language, id).Some? {
      var k := if HasIndex(file) then IndexOf(Ids(file, IndexPos(file)), Key(id)) else id;
      assert Names(file, wide, language, id, k);
    }
  }

  /** The entries with an id are those with its low 16 bits. */
  lemma EntryIsKey(mem: seq<Byte>, base: nat, id: int, k: nat)
    requires IndexFits(mem, base)
    ensures StringId(Key(id), k) in Ids(mem, base) <==> HasEntry(mem, base, id, k)
  {
    hide IntAt;
    var ids := Ids(mem, base);
    forall e | e in ids ensures SameId(id, e.id) <==> e.id == Key(id) {
      assert 0 <= e.id < 65536;
      KeyIsOnly(id, e.id);
    }
    if StringId(Key(id), k) in ids { assert SameId(id, StringId(Key(id), k).id); }
  }

  lemma KeyIsOnly(id: int, low: nat)
    requires low < 65536
    ensures SameId(id, low) <==> low == Key(id)
  {
  }

  /** For an id of 16 bits the entry has the id itself, and ids that are one name the same strings. */
  lemma NamesById(file: seq<Byte>, wide: bool, language: nat, id: int, other: int, k: nat)
    requires WellFormed(file, wide) && language < LanguageCount(file) && HasIndex(file)
    ensures 0 <= id < 65536 ==>
              (Names(file, wide, language, id, k)
               <==> k < StringCount(file, wide, language) && StringId(id, k) in Ids(file, IndexPos(file)))
    ensures SameId(id, other) ==> (Names(file, wide, language, id, k) <==> Names(file, wide, language, other, k))
  {
    hide Ids, IntAt, IndexFits, Ascending, BankFits, LanguageBase, HasEntry;
    IdsAscend(file, wide);
    EntryIsKey(file, IndexPos(file), id, k);
    EntryIsKey(file, IndexPos(file), other, k);
    KeyIsOnly(id, Key(other));
  }

  lemma IdsAscend(file: seq<Byte>, wide: bool)
    requires WellFormed(file, wide) && HasIndex(file)
    ensures IndexPos(file) >= 0 && IndexFits(file, IndexPos(file)) && Ascending(Ids(file, IndexPos(file)))
  {
  }

  /** On ascending ids the search finds the entry of the key when there is one. */
  lemma IndexOfIsExact(ids: seq<StringId>, key: nat)
    requires Ascending(ids)
    ensures forall k: nat :: StringId(key, k) in ids <==> IndexOf(ids, key) == k
  {
    if i: nat :| i < |ids| && ids[i].id == key {
      IndexOfEntry(ids, key, i);
      forall k: nat | StringId(key, k) in ids ensures k == ids[i].index {
        var j :| 0 <= j < |ids| && ids[j] == StringId(key, k);
        assert !(i < j) && !(j < i);
      }
      assert ids[i] == StringId(key, ids[i].index);
    } else {
      IndexOfNothing(ids, key);
    }
  }

  // ---------------------------------------------------------------------------------------
  // Copies of chunks
  // ---------------------------------------------------------------------------------------

  lemma IntOfCopy(file: seq<Byte>, base: nat, size: nat, pos: nat)
    requires base + size <= |file| && pos + 4 <= size
    ensures IntAt(file[base..base + size], pos) == IntAt(file, base + pos)
  {
    hide Int32;
    var copy := file[base..base + size];
    assert forall i | pos <= i < pos + 4 :: copy[i] == file[base + i];
    assert copy[pos..pos + 4] == file[base + pos..base + pos + 4];
  }

  /** The copy of an index chunk holds the same ids. */
  lemma IdsOfCopy(file: seq<Byte>, base: nat, size: nat)
    requires base + size <= |file| && IndexFits(file, base)
    requires CHUNK_HEADER + 4 * U32At(file, base + 8) <= size
    ensures IndexFits(file[base..base + size], 0) && Ids(file[base..base + size], 0) == Ids(file, base)
  {
    hide IntAt;
    IntOfCopy(file, base, size, 8);
  }

  /** The copy of a language chunk holds the same strings. */
  lemma BankOfCopy(file: seq<Byte>, base: nat, size: nat, wide: bool)
    requires BankFits(file, base, size, wide)
    ensures BankFits(file[base..base + size], 0, size, wide)
    ensures forall k | 0 <= k < IntAt(file, base + 12) ::
              OffsetAt(file[base..base + size], 0, k) == OffsetAt(file, base, k)
    ensures IntAt(file[base..base + size], 12) == IntAt(file, base + 12)
  {
    hide IntAt, Terminated;
    var copy := file[base..base + size];
    IntOfCopy(file, base, size, 12);
    forall k | 0 <= k < IntAt(file, base + 12)
      ensures OffsetAt(copy, 0, k) == OffsetAt(file, base, k) <= size
      ensures copy[OffsetAt(file, base, k)..size] == file[base + OffsetAt(file, base, k)..base + size]
    {
      IntOfCopy(file, base, size, CHUNK_HEADER + 4 * k);
    }
  }

  /** String k of the copy and of the file are the same text. */
  lemma PointeeOfCopy(file: seq<Byte>, base: nat, size: nat, wide: bool, k: int)
    requires BankFits(file, base, size, wide)
    ensures BankFits(file[base..base + size], 0, size, wide)
    ensures TextOf(Pointee(file[base..base + size], 0, k), wide) == TextOf(Pointee(file, base, k), wide)
  {
    hide IntAt, Terminated, Text;
    BankOfCopy(file, base, size, wide);
    if 0 <= k < IntAt(file, base + 12) {
      var copy, off := file[base..base + size], OffsetAt(file, base, k);
      assert copy[off..] == file[base + off..base + size];
      assert file[base + off..base + size] <= file[base + off..];
      TextOfPrefix(copy[off..], file[base + off..], wide);
    }
  }
}
