/**
 * A .loc file written byte by byte, after the structures at the head of Core/Tools/Autorun/locale.cpp,
 * and read back through both lookups.
 */
module LocaleWriter {
  import opened Options
  import opened RamFile
  import opened StripSpaces
  import opened CsfFormat
  import opened LocaleFormat
  import opened LocaleBanks

  // ---------------------------------------------------------------------------------------
  // Writing
  // ---------------------------------------------------------------------------------------

  function Four(v: nat): (r: seq<Byte>)
    ensures |r| == 4
  {
    [v % 256, v / 256 % 256, v / 65536 % 256, v / 16777216 % 256]
  }

  function Fours(xs: seq<nat>): (r: seq<Byte>)
    ensures |r| == 4 * |xs|
  {
    if xs == [] then [] else Four(xs[0]) + Fours(xs[1..])
  }

  /** The entries of an index, each two 16-bit numbers. */
  function WriteIds(ids: seq<StringId>): (r: seq<Byte>)
    ensures |r| == 4 * |ids|
  {
    if ids == [] then []
    else [ids[0].id % 256, ids[0].id / 256 % 256, ids[0].index % 256, ids[0].index / 256 % 256] + WriteIds(ids[1..])
  }

  /** A string and its terminator, one byte or two to a character. */
  function WriteText(t: seq<Wide>, wide: bool): seq<Byte> {
    if t == [] then (if wide then [0, 0] else [0])
    else (if wide then [t[0] % 256, t[0] / 256] else [t[0] % 256]) + WriteText(t[1..], wide)
  }

  function Concat(pieces: seq<seq<Byte>>): seq<Byte> {
    if pieces == [] then [] else pieces[0] + Concat(pieces[1..])
  }

  /** Where each piece starts, when the first starts at start. */
  function Places(pieces: seq<seq<Byte>>, start: nat): (r: seq<nat>)
    ensures |r| == |pieces|
  {
    if pieces == [] then [] else [start] + Places(pieces[1..], start + |pieces[0]|)
  }

  function TextPieces(texts: seq<seq<Wide>>, wide: bool): seq<seq<Byte>> {
    seq(|texts|, k requires 0 <= k < |texts| => WriteText(texts[k], wide))
  }

  /** "LOCL", the size of the chunk, the language, the number of strings, their offsets, the strings. */
  function WriteLanguage(language: nat, texts: seq<seq<Wide>>, wide: bool): seq<Byte> {
    var pieces, head := TextPieces(texts, wide), 16 + 4 * |texts|;
    [76, 79, 67, 76] + (Four(head + |Concat(pieces)|) + (Four(language) + (Four(|texts|)
    + (Fours(Places(pieces, head)) + Concat(pieces)))))
  }

  /** "LOCI", the size of the chunk, the number of entries, padding, the entries. */
  function WriteIndex(ids: seq<StringId>): seq<Byte> {
    [76, 79, 67, 73] + (Four(16 + 4 * |ids|) + (Four(|ids|) + (Four(0) + WriteIds(ids))))
  }

  function LanguagePieces(languages: seq<seq<seq<Wide>>>, wide: bool): seq<seq<Byte>> {
    seq(|languages|, l requires 0 <= l < |languages| => WriteLanguage(l, languages[l], wide))
  }

  function IndexBytes(ids: Option<seq<StringId>>): seq<Byte> {
    match ids case None => [] case Some(entries) => WriteIndex(entries)
  }

  /** "LOCH", the size of the header, the flag, the number of languages, their places, the index, the languages. */
  function WriteFile(ids: Option<seq<StringId>>, languages: seq<seq<seq<Wide>>>, wide: bool): seq<Byte> {
    var pieces, head, index := LanguagePieces(languages, wide), 16 + 4 * |languages|, IndexBytes(ids);
    [76, 79, 67, 72] + (Four(head) + (Four(if ids.Some? then 1 else 0) + (Four(|languages|)
    + (Fours(Places(pieces, head + |index|)) + (index + Concat(pieces))))))
  }

  // ---------------------------------------------------------------------------------------
  // Reading back
  // ---------------------------------------------------------------------------------------

  /** A string that ends at its terminator and fits the characters of the file. */
  predicate Writable(t: seq<Wide>, wide: bool) {
    0 !in t && (wide || forall c | c in t :: c < 256)
  }

  lemma FourStands(b: seq<Byte>, pos: nat, v: nat)
    requires StandsAt(b, pos, Four(v)) && v < 0x8000_0000
    ensures pos + 4 <= |b| && IntAt(b, pos) == v && U32At(b, pos) == v
  {
    BytesOf(v);
  }

  lemma {:induction false} FoursStand(b: seq<Byte>, pos: nat, xs: seq<nat>, k: nat)
    requires StandsAt(b, pos, Fours(xs)) && k < |xs| && xs[k] < 0x8000_0000
    ensures pos + 4 * k + 4 <= |b| && IntAt(b, pos + 4 * k) == xs[k] && U32At(b, pos + 4 * k) == xs[k]
    decreases k
  {
    AtSplit(b, pos, Four(xs[0]), Fours(xs[1..]));
    if k == 0 { FourStands(b, pos, xs[0]); } else { FoursStand(b, pos + 4, xs[1..], k - 1); }
  }

  lemma {:induction false} IdsStand(b: seq<Byte>, pos: nat, ids: seq<StringId>, k: nat)
    requires StandsAt(b, pos, WriteIds(ids)) && k < |ids| && ids[k].id < 65536 && ids[k].index < 65536
    ensures pos + 4 * k + 4 <= |b|
    ensures U16At(b, pos + 4 * k) == ids[k].id && U16At(b, pos + 4 * k + 2) == ids[k].index
    decreases k
  {
    var first: seq<Byte> := [ids[0].id % 256, ids[0].id / 256 % 256, ids[0].index % 256, ids[0].index / 256 % 256];
    AtSplit(b, pos, first, WriteIds(ids[1..]));
    if k == 0 {
      var four := b[pos..pos + 4];
      assert four[0] == b[pos] && four[1] == b[pos + 1] && four[2] == b[pos + 2] && four[3] == b[pos + 3];
    } else {
      IdsStand(b, pos + 4, ids[1..], k - 1);
    }
  }

  lemma {:induction false} UnitsOfText(t: seq<Wide>, wide: bool)
    requires Writable(t, wide)
    ensures Units(WriteText(t, wide), wide) == t + [0]
  {
    if t != [] {
      hide Writable, Units;
      WritableRest(t, wide);
      UnitsOfText(t[1..], wide);
      UnitsPush(t[0], WriteText(t[1..], wide), wide);
      assert t + [0] == [t[0]] + (t[1..] + [0]);
    }
  }

  lemma WritableRest(t: seq<Wide>, wide: bool)
    requires Writable(t, wide) && t != []
    ensures Writable(t[1..], wide) && (wide || t[0] < 256)
  {
    assert t[0] in t && forall c | c in t[1..] :: c in t;
  }

  lemma UnitsPush(c: Wide, rest: seq<Byte>, wide: bool)
    requires wide || c < 256
    ensures Units((if wide then [c % 256, c / 256] else [c % 256]) + rest, wide) == [c] + Units(rest, wide)
  {
    if wide {
      var mem := [c % 256, c / 256] + rest;
      assert |mem| / 2 == 1 + |rest| / 2;
      forall i | 0 < i < |mem| / 2 ensures Units(mem, true)[i] == Units(rest, true)[i - 1] {
        assert mem[2 * i] == rest[2 * (i - 1)] && mem[2 * i + 1] == rest[2 * (i - 1) + 1];
      }
    }
  }

  lemma {:induction false} CStringOfText(t: seq<Wide>)
    requires 0 !in t
    ensures CString(t + [0], 0) == t
  {
    if t != [] {
      assert t[0] in t && (t + [0])[1..] == t[1..] + [0];
      CStringOfText(t[1..]);
    }
  }

  /** A written string reads back from its place to any end behind it. */
  lemma TextStands(b: seq<Byte>, pos: nat, t: seq<Wide>, wide: bool, end: nat)
    requires StandsAt(b, pos, WriteText(t, wide)) && Writable(t, wide) && pos + |WriteText(t, wide)| <= end <= |b|
    ensures Text(b[pos..end], wide) == t && Terminated(b[pos..end], wide)
  {
    hide Units, CString;
    var p := WriteText(t, wide);
    UnitsOfText(t, wide);
    CStringOfText(t);
    assert p == b[pos..pos + |p|] <= b[pos..end];
    TextOfPrefix(p, b[pos..end], wide);
  }

  lemma {:induction false} PieceStands(b: seq<Byte>, pos: nat, pieces: seq<seq<Byte>>, start: nat, k: nat)
    requires StandsAt(b, pos, Concat(pieces)) && k < |pieces|
    ensures var at := Places(pieces, start)[k];
            at >= start && at + |pieces[k]| <= start + |Concat(pieces)| && StandsAt(b, pos + (at - start), pieces[k])
    decreases k
  {
    AtSplit(b, pos, pieces[0], Concat(pieces[1..]));
    if k > 0 { PieceStands(b, pos + |pieces[0]|, pieces[1..], start + |pieces[0]|, k - 1); }
  }

  /** A written language chunk keeps to its size and holds the strings. */
  lemma LanguageStands(b: seq<Byte>, pos: nat, language: nat, texts: seq<seq<Wide>>, wide: bool)
    requires StandsAt(b, pos, WriteLanguage(language, texts, wide)) && |b| < 0x8000_0000 && language < 0x8000_0000
    requires forall k | 0 <= k < |texts| :: Writable(texts[k], wide)
    ensures pos + 16 <= |b| && IntAt(b, pos + 4) == |WriteLanguage(language, texts, wide)| && IntAt(b, pos + 12) == |texts|
    ensures BankFits(b, pos, IntAt(b, pos + 4), wide)
    ensures forall k | 0 <= k < |texts| :: Text(b[pos + OffsetAt(b, pos, k)..], wide) == texts[k]
  {
    hide IntAt, StandsAt, Four, Fours, Places, Concat, Terminated, Text, WriteText;
    var pieces, head := TextPieces(texts, wide), 16 + 4 * |texts|;
    var all := Concat(pieces);
    var size := head + |all|;
    LanguageParts(b, pos, language, texts, wide);
    forall k | 0 <= k < |texts|
      ensures OffsetAt(b, pos, k) <= size && Terminated(b[pos + OffsetAt(b, pos, k)..pos + size], wide)
      ensures Text(b[pos + OffsetAt(b, pos, k)..], wide) == texts[k]
    {
      PieceStands(b, pos + head, pieces, head, k);
      var at := Places(pieces, head)[k];
      FoursStand(b, pos + 16, Places(pieces, head), k);
      TextStands(b, pos + at, texts[k], wide, pos + size);
      TextStands(b, pos + at, texts[k], wide, |b|);
      assert b[pos + at..|b|] == b[pos + at..];
    }
  }

  /** The fields of a written language chunk. */
  lemma LanguageParts(b: seq<Byte>, pos: nat, language: nat, texts: seq<seq<Wide>>, wide: bool)
    requires StandsAt(b, pos, WriteLanguage(language, texts, wide)) && |b| < 0x8000_0000
    ensures var pieces, head := TextPieces(texts, wide), 16 + 4 * |texts|;
            && |WriteLanguage(language, texts, wide)| == head + |Concat(pieces)| && pos + head + |Concat(pieces)| <= |b|
            && IntAt(b, pos + 4) == head + |Concat(pieces)| && IntAt(b, pos + 12) == |texts|
            && StandsAt(b, pos + 16, Fours(Places(pieces, head))) && StandsAt(b, pos + head, Concat(pieces))
  {
    hide IntAt, StandsAt, Four, Fours, Places, Concat, WriteText;
    var pieces, head := TextPieces(texts, wide), 16 + 4 * |texts|;
    var places, all := Fours(Places(pieces, head)), Concat(pieces);
    AtBound(b, pos, WriteLanguage(language, texts, wide));
    var four := Four(|texts|) + (places + all);
    var three := Four(language) + four;
    AtSplit(b, pos, [76, 79, 67, 76], Four(head + |all|) + three);
    AtSplit(b, pos + 4, Four(head + |all|), three);
    AtSplit(b, pos + 8, Four(language), four);
    AtSplit(b, pos + 12, Four(|texts|), places + all);
    AtSplit(b, pos + 16, places, all);
    FoursSize(Places(pieces, head));
    FourStands(b, pos + 4, head + |all|);
    FourStands(b, pos + 12, |texts|);
  }

  lemma FoursSize(xs: seq<nat>)
    ensures |Fours(xs)| == 4 * |xs|
  {
  }

  /** The fields of a written index chunk. */
  lemma IndexStands(b: seq<Byte>, pos: nat, ids: seq<StringId>)
    requires StandsAt(b, pos, WriteIndex(ids)) && |b| < 0x8000_0000
    requires forall i | 0 <= i < |ids| :: ids[i].id < 65536 && ids[i].index < 65536
    ensures |WriteIndex(ids)| == 16 + 4 * |ids| && pos + 16 + 4 * |ids| <= |b|
    ensures IndexFits(b, pos) && IntAt(b, pos + 4) == 16 + 4 * |ids| && U32At(b, pos + 8) == |ids| && Ids(b, pos) == ids
  {
    hide IntAt, StandsAt, Four, WriteIds;
    AtBound(b, pos, WriteIndex(ids));
    var three := Four(0) + WriteIds(ids);
    var two := Four(|ids|) + three;
    AtSplit(b, pos, [76, 79, 67, 73], Four(16 + 4 * |ids|) + two);
    AtSplit(b, pos + 4, Four(16 + 4 * |ids|), two);
    AtSplit(b, pos + 8, Four(|ids|), three);
    AtSplit(b, pos + 12, Four(0), WriteIds(ids));
    FourStands(b, pos + 4, 16 + 4 * |ids|);
    FourStands(b, pos + 8, |ids|);
    forall i | 0 <= i < |ids|
      ensures U16At(b, pos + 16 + 4 * i) == ids[i].id && U16At(b, pos + 16 + 4 * i + 2) == ids[i].index
    {
      IdsStand(b, pos + 16, ids, i);
    }
  }

  /** The fields of a written file. */
  lemma FileParts(b: seq<Byte>, ids: Option<seq<StringId>>, languages: seq<seq<seq<Wide>>>, wide: bool)
    requires b == WriteFile(ids, languages, wide) && |b| < 0x8000_0000
    ensures var pieces, head, index := LanguagePieces(languages, wide), 16 + 4 * |languages|, IndexBytes(ids);
            && |b| == head + |index| + |Concat(pieces)|
            && IntAt(b, 4) == head && IntAt(b, 8) == (if ids.Some? then 1 else 0) && U32At(b, 12) == |languages|
            && StandsAt(b, 16, Fours(Places(pieces, head + |index|)))
            && StandsAt(b, head, index) && StandsAt(b, head + |index|, Concat(pieces))
  {
    hide IntAt, Four, Fours, Places, Concat, WriteLanguage, IndexBytes;
    var pieces, head, index := LanguagePieces(languages, wide), 16 + 4 * |languages|, IndexBytes(ids);
    var places, all := Fours(Places(pieces, head + |index|)), Concat(pieces);
    var four := Four(|languages|) + (places + (index + all));
    var flag := if ids.Some? then 1 else 0;
    assert StandsAt(b, 0, [76, 79, 67, 72] + (Four(head) + (Four(flag) + four)));
    hide StandsAt;
    AtSplit(b, 0, [76, 79, 67, 72], Four(head) + (Four(flag) + four));
    AtSplit(b, 4, Four(head), Four(flag) + four);
    AtSplit(b, 8, Four(flag), four);
    AtSplit(b, 12, Four(|languages|), places + (index + all));
    AtSplit(b, 16, places, index + all);
    FoursSize(Places(pieces, head + |index|));
    AtSplit(b, head, index, all);
    FourStands(b, 4, head);
    FourStands(b, 8, flag);
    FourStands(b, 12, |languages|);
  }

  /** What a file is made of: 16-bit ids in ascending order, and strings that fit its characters. */
  predicate Content(ids: Option<seq<StringId>>, languages: seq<seq<seq<Wide>>>, wide: bool) {
    && (ids.Some? ==> Ascending(ids.value)
                      && forall i | 0 <= i < |ids.value| :: ids.value[i].id < 65536 && ids.value[i].index < 65536)
    && forall l, k | 0 <= l < |languages| && 0 <= k < |languages[l]| :: Writable(languages[l][k], wide)
  }

  /** A written language of a written file. */
  lemma LanguageIsThere(b: seq<Byte>, ids: Option<seq<StringId>>, languages: seq<seq<seq<Wide>>>, wide: bool, l: nat)
    requires b == WriteFile(ids, languages, wide) && |b| < 0x8000_0000 && Content(ids, languages, wide) && l < |languages|
    ensures 16 + 4 * l + 4 <= |b| && LanguageWellFormed(b, l, wide)
    ensures var p := LanguagePos(b, l);
            && IntAt(b, p + 12) == |languages[l]|
            && forall k | 0 <= k < |languages[l]| :: Text(b[p + OffsetAt(b, p, k)..], wide) == languages[l][k]
  {
    hide IntAt, StandsAt, Fours, Places, Concat, WriteLanguage, IndexBytes, Ascending, BankFits, Text;
    FileParts(b, ids, languages, wide);
    var pieces, start := LanguagePieces(languages, wide), 16 + 4 * |languages| + |IndexBytes(ids)|;
    PieceStands(b, start, pieces, start, l);
    FoursStand(b, 16, Places(pieces, start), l);
    LanguageStands(b, Places(pieces, start)[l], l, languages[l], wide);
  }

  /** A written file is well-formed and has its index and its strings. */
  lemma FileIsThere(b: seq<Byte>, ids: Option<seq<StringId>>, languages: seq<seq<seq<Wide>>>, wide: bool)
    requires b == WriteFile(ids, languages, wide) && |b| < 0x8000_0000 && Content(ids, languages, wide)
    ensures WellFormed(b, wide) && LanguageCount(b) == |languages| && (HasIndex(b) <==> ids.Some?)
    ensures ids.Some? ==> IndexPos(b) >= 0 && IndexFits(b, IndexPos(b)) && Ids(b, IndexPos(b)) == ids.value
  {
    hide IntAt, StandsAt, Fours, Places, Concat, Ids, WriteIndex, LanguageWellFormed, Ascending;
    FileParts(b, ids, languages, wide);
    if ids.Some? { IndexStands(b, 16 + 4 * |languages|, ids.value); }
    forall l | 0 <= l < |languages| ensures LanguageWellFormed(b, l, wide) {
      LanguageIsThere(b, ids, languages, wide, l);
    }
  }

  /** String k of a language is wanted for an id: an entry of the index says so, or there is none and it is the id. */
  predicate Wanted(ids: Option<seq<StringId>>, id: int, k: int) {
    match ids
    case None => k == id
    case Some(entries) => exists e | e in entries :: (id - e.id) % 65536 == 0 && e.index == k
  }

  /**
   * Write and read, for every table of strings that fits: LOCALE_getstr gives the string that the index
   * names for the id, and null when it names none or one that the language does not have. With an
   * index the file also loads, and LOCALE_getstring gives the same.
   */
  lemma WrittenFileReads(ids: Option<seq<StringId>>, languages: seq<seq<seq<Wide>>>, wide: bool, l: nat, id: int, s: State)
    requires |WriteFile(ids, languages, wide)| < 0x8000_0000 && Content(ids, languages, wide) && l < |languages|
    requires Valid(s) && Allowed(s, DoLoad(Some(WriteFile(ids, languages, wide)), l))
    ensures var b := WriteFile(ids, languages, wide);
            && WellFormed(b, wide) && l < LanguageCount(b)
            && var seen := TextOf(GetStr(b, wide, l, id), wide);
            && (forall k | 0 <= k < |languages[l]| && Wanted(ids, id, k) :: seen == Some(languages[l][k]))
            && ((forall k | 0 <= k < |languages[l]| :: !Wanted(ids, id, k)) ==> seen == None)
            && (ids.Some? ==>
                  var r := LoadTable(s, Some(b), l);
                  r.ok && BankReady(r.state, wide) && TextOf(GetString(r.state, id, wide), wide) == seen)
  {
    hide IntAt, Ids, WellFormed, BankFits, Text, LoadTable, WriteFile, IndexFits, Terminated, Content, GetStr, BankReady,
         LanguageWellFormed, Key, IndexOf;
    var b := WriteFile(ids, languages, wide);
    FileIsThere(b, ids, languages, wide);
    LanguageIsThere(b, ids, languages, wide, l);
    GetStrIsExact(b, wide, l, id);
    forall k: nat ensures Names(b, wide, l, id, k) <==> k < |languages[l]| && Wanted(ids, id, k) {
    }
    if ids.Some? { TwoPathsAgree(s, b, wide, l, id); }
  }
}
