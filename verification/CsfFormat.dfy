/** The compiled string file (.csf) of Core/Tools/Autorun/GameText.cpp: what it means and how it is written. */
module CsfFormat {
  import opened Options
  import opened RamFile
  import opened StripSpaces

  const CSF_ID := 0x43534620
  const CSF_LABEL := 0x4C424C20
  const CSF_STRING := 0x53545220
  const CSF_STRING_WITH_WAVE := 0x53545257
  const HEADER_SIZE := 24

  /** sizeof(m_buffer), and the length of m_tbuffer in wide characters. */
  const BUFFER := 10240
  const WIDE_BUFFER := 20480

  /** A little-endian 32-bit Int. */
  function Int32(b: seq<Byte>): (r: int)
    requires |b| == 4
    ensures -0x8000_0000 <= r < 0x8000_0000
  {
    var u: int := (b[0] as int) + 256 * (b[1] as int) + 65536 * (b[2] as int) + 16777216 * (b[3] as int);
    if u < 0x8000_0000 then u else u - 0x1_0000_0000
  }

  function IntAt(b: seq<Byte>, pos: nat): int
    requires pos + 4 <= |b|
  {
    Int32(b[pos..pos + 4])
  }

  function Wide16(lo: Byte, hi: Byte): Wide { (lo as int) + 256 * (hi as int) }

  /** The n wide characters at pos. */
  function WidesAt(b: seq<Byte>, pos: nat, n: nat): (r: seq<Wide>)
    requires pos + 2 * n <= |b|
    ensures |r| == n
  {
    seq(n, i requires 0 <= i < n => Wide16(b[pos + 2 * i], b[pos + 2 * i + 1]))
  }

  /** ~c on a 16-bit character. */
  function Flip(c: Wide): Wide { 0xFFFF - c }

  function FlipAll(s: seq<Wide>): seq<Wide> { seq(|s|, i requires 0 <= i < |s| => Flip(s[i])) }

  /** The text the parser makes of the raw characters of a string: it flips up to the first zero. */
  function Decode(raw: seq<Wide>): seq<Wide> {
    Strip(CString(FlipAll(CString(raw, 0)), 0))
  }

  /** StringInfo. */
  datatype Entry = Entry(name: seq<Byte>, text: seq<Wide>, speech: seq<Byte>)

  const NO_ENTRY := Entry([], [], [])

  /**
   * A parse ends with a table, with FALSE for a bad chunk id, or outside the contract: a length
   * that does not fit the file, a buffer or the table, which the code does not check.
   */
  datatype Parsed = Table(entries: seq<Entry>) | Refused | Unchecked

  /** One string chunk, or what is wrong with it. */
  datatype StringChunk = StringChunk(next: nat, text: seq<Wide>, speech: seq<Byte>) | BadString | UncheckedString

  /** The string chunk at pos. */
  function ParseString(b: seq<Byte>, pos: nat): (r: StringChunk)
    ensures r.StringChunk? ==> pos + 8 <= r.next <= |b|
  {
    if pos + 4 > |b| then UncheckedString
    else
      var id := IntAt(b, pos);
      if id != CSF_STRING && id != CSF_STRING_WITH_WAVE then BadString
      else if pos + 8 > |b| then UncheckedString
      else
        var len := IntAt(b, pos + 4);
        if len < 0 || len >= WIDE_BUFFER || pos + 8 + 2 * len > |b| then UncheckedString
        else
          var next, text := pos + 8 + 2 * len, Decode(WidesAt(b, pos + 8, len));
          if id == CSF_STRING then StringChunk(next, text, [])
          else if next + 4 > |b| then UncheckedString
          else
            var size := IntAt(b, next);
            if size < 0 || size >= BUFFER || next + 4 + size > |b| then UncheckedString
            else StringChunk(next + 4 + size, text, CString(b[next + 4..next + 4 + size], 0))
  }

  /** The strings of one label from number num on; only the chunk of string 0 is used. */
  function ParseStrings(b: seq<Byte>, pos: nat, num: nat, count: int, first: StringChunk): (r: StringChunk)
    requires pos <= |b| && first.StringChunk?
    ensures r.StringChunk? ==> pos <= r.next <= |b|
    decreases |b| - pos
  {
    if num >= count then first.(next := pos)
    else
      var chunk := ParseString(b, pos);
      if !chunk.StringChunk? then chunk
      else ParseStrings(b, chunk.next, num + 1, count, if num == 0 then chunk else first)
  }

  const NO_STRING := StringChunk(0, [], [])

  /** One label chunk, or what is wrong with it. */
  datatype LabelChunk = LabelChunk(next: nat, entry: Entry) | BadLabel | UncheckedLabel

  function ParseLabel(b: seq<Byte>, pos: nat): (r: LabelChunk)
    requires pos + 4 <= |b|
    ensures r.LabelChunk? ==> pos + 12 <= r.next <= |b|
  {
    if IntAt(b, pos) != CSF_LABEL then BadLabel
    else if pos + 12 > |b| then UncheckedLabel
    else
      var len := IntAt(b, pos + 8);
      if len < 0 || len >= BUFFER || pos + 12 + len > |b| then UncheckedLabel
      else
        match ParseStrings(b, pos + 12 + len, 0, IntAt(b, pos + 4), NO_STRING)
        case BadString => BadLabel
        case UncheckedString => UncheckedLabel
        case StringChunk(next, text, speech) =>
          LabelChunk(next, Entry(CString(b[pos + 12..pos + 12 + len], 0), text, speech))
  }

  /** The labels from pos on, when room entries of the table are still free. */
  function ParseLabels(b: seq<Byte>, pos: nat, room: nat): Parsed
    requires pos <= |b|
    decreases |b| - pos
  {
    if pos + 4 > |b| then Table([])
    else if IntAt(b, pos) != CSF_LABEL then Refused
    else if room == 0 then Unchecked
    else
      match ParseLabel(b, pos)
      case BadLabel => Refused
      case UncheckedLabel => Unchecked
      case LabelChunk(next, entry) =>
        match ParseLabels(b, next, room - 1)
        case Table(entries) => Table([entry] + entries)
        case other => other
  }

  /** GameTextManager::getCSFInfo: the number of labels, if this is such a file. */
  function LabelCount(b: seq<Byte>): Option<int> {
    if |b| < HEADER_SIZE || IntAt(b, 0) != CSF_ID then None else Some(IntAt(b, 8))
  }

  /** GameTextManager::parseCSF with room for the given number of labels. A short header is FALSE. */
  function ParseCsf(b: seq<Byte>, room: nat): Parsed {
    if |b| < HEADER_SIZE then Refused else ParseLabels(b, HEADER_SIZE, room)
  }

  // ---------------------------------------------------------------------------------------
  // Writing, byte by byte
  // ---------------------------------------------------------------------------------------

  /** " FSC", " LBL", " RTS" and "WRTS": the chunk ids in the order in which they stand in a file. */
  const FILE_BYTES: seq<Byte> := [32, 70, 83, 67]
  const LABEL_BYTES: seq<Byte> := [32, 76, 66, 76]
  const STRING_BYTES: seq<Byte> := [32, 82, 84, 83]
  const WAVE_BYTES: seq<Byte> := [87, 82, 84, 83]

  datatype RawString = RawString(text: seq<Wide>, wave: Option<seq<Byte>>)
  datatype RawLabel = RawLabel(name: seq<Byte>, strings: seq<RawString>)

  /** The lengths the parser's buffers can take. */
  predicate StringFits(s: RawString) {
    |s.text| < WIDE_BUFFER && (s.wave.Some? ==> |s.wave.value| < BUFFER)
  }

  predicate LabelFits(l: RawLabel) {
    |l.name| < BUFFER && |l.strings| < 0x8000_0000 && forall i | 0 <= i < |l.strings| :: StringFits(l.strings[i])
  }

  function WriteInt(v: nat): (r: seq<Byte>)
    requires v < 0x8000_0000
    ensures |r| == 4 && Int32(r) == v
  {
    BytesOf(v);
    [v % 256, (v / 256) % 256, (v / 65536) % 256, v / 16777216]
  }

  lemma BytesOf(v: nat)
    requires v < 0x8000_0000
    ensures v == v % 256 + 256 * ((v / 256) % 256) + 65536 * ((v / 65536) % 256) + 16777216 * (v / 16777216)
    ensures v / 16777216 < 128
  {
    var a := v / 256;
    var b := a / 256;
    assert b == v / 65536 && b / 256 == v / 16777216;
  }

  /** Every character complemented, low byte first. */
  function WriteWides(s: seq<Wide>): (r: seq<Byte>)
    ensures |r| == 2 * |s|
  {
    if s == [] then [] else [(65535 - s[0]) % 256, (65535 - s[0]) / 256] + WriteWides(s[1..])
  }

  function WriteString(s: RawString): seq<Byte>
    requires StringFits(s)
  {
    match s.wave
    case None => STRING_BYTES + (WriteInt(|s.text|) + WriteWides(s.text))
    case Some(wave) =>
      WAVE_BYTES + (WriteInt(|s.text|) + (WriteWides(s.text) + (WriteInt(|wave|) + wave)))
  }

  function WriteStrings(ss: seq<RawString>): seq<Byte>
    requires forall i | 0 <= i < |ss| :: StringFits(ss[i])
  {
    if ss == [] then [] else WriteString(ss[0]) + WriteStrings(ss[1..])
  }

  function WriteLabel(l: RawLabel): seq<Byte>
    requires LabelFits(l)
  {
    LABEL_BYTES + (WriteInt(|l.strings|) + (WriteInt(|l.name|) + (l.name + WriteStrings(l.strings))))
  }

  function WriteLabels(ls: seq<RawLabel>): seq<Byte>
    requires forall i | 0 <= i < |ls| :: LabelFits(ls[i])
  {
    if ls == [] then [] else WriteLabel(ls[0]) + WriteLabels(ls[1..])
  }

  function WriteHeader(labels: nat, strings: nat, language: nat): (r: seq<Byte>)
    requires labels < 0x8000_0000 && strings < 0x8000_0000 && language < 0x8000_0000
    ensures |r| == 24
  {
    FILE_BYTES + (WriteInt(3) + (WriteInt(labels) + (WriteInt(strings) + (WriteInt(0) + WriteInt(language)))))
  }

  function Write(ls: seq<RawLabel>, strings: nat, language: nat): seq<Byte>
    requires |ls| < 0x8000_0000 && strings < 0x8000_0000 && language < 0x8000_0000
    requires forall i | 0 <= i < |ls| :: LabelFits(ls[i])
  {
    WriteHeader(|ls|, strings, language) + WriteLabels(ls)
  }

  /** What the parser should make of a text: the part before the first 0 or 0xFFFF, stripped. */
  function Visible(s: seq<Wide>): seq<Wide> {
    if s == [] || s[0] == 0 || s[0] == 0xFFFF then [] else [s[0]] + Visible(s[1..])
  }

  function Expected(l: RawLabel): Entry {
    if l.strings == [] then Entry(CString(l.name, 0), [], [])
    else
      Entry(CString(l.name, 0), Strip(Visible(l.strings[0].text)),
            match l.strings[0].wave case None => [] case Some(wave) => CString(wave, 0))
  }

  function ExpectedAll(ls: seq<RawLabel>): seq<Entry> {
    seq(|ls|, i requires 0 <= i < |ls| => Expected(ls[i]))
  }

  // ---------------------------------------------------------------------------------------
  // The round trip
  // ---------------------------------------------------------------------------------------

  lemma {:induction false} DecodeFlipped(s: seq<Wide>)
    ensures CString(FlipAll(CString(FlipAll(s), 0)), 0) == Visible(s)
  {
    if s != [] {
      var f := FlipAll(s);
      assert f[1..] == FlipAll(s[1..]);
      if s[0] != 0xFFFF {
        var c := CString(f, 0);
        assert c[1..] == CString(f[1..], 0);
        assert FlipAll(c)[1..] == FlipAll(c[1..]);
        DecodeFlipped(s[1..]);
      } else {
        assert CString(f, 0) == [] && FlipAll([]) == [];
      }
    }
  }

  /** w stands in b at pos. */
  predicate StandsAt(b: seq<Byte>, pos: nat, w: seq<Byte>) {
    pos + |w| <= |b| && b[pos..pos + |w|] == w
  }

  lemma AtSplit(b: seq<Byte>, pos: nat, x: seq<Byte>, y: seq<Byte>)
    ensures StandsAt(b, pos, x + y) <==> StandsAt(b, pos, x) && StandsAt(b, pos + |x|, y)
  {
    if StandsAt(b, pos, x + y) {
      assert b[pos..pos + |x|] == b[pos..pos + |x + y|][..|x|];
      assert b[pos + |x|..pos + |x| + |y|] == b[pos..pos + |x + y|][|x|..];
    }
    if StandsAt(b, pos, x) && StandsAt(b, pos + |x|, y) {
      assert b[pos..pos + |x + y|] == b[pos..pos + |x|] + b[pos + |x|..pos + |x| + |y|];
    }
  }

  lemma AtBound(b: seq<Byte>, pos: nat, w: seq<Byte>)
    requires StandsAt(b, pos, w)
    ensures pos + |w| <= |b| && b[pos..pos + |w|] == w
  {
  }

  lemma IntRoundTrip(b: seq<Byte>, pos: nat, v: nat)
    requires v < 0x8000_0000 && StandsAt(b, pos, WriteInt(v))
    ensures pos + 4 <= |b| && IntAt(b, pos) == v
  {
  }

  /** The four ids are the ones the parser asks for. */
  lemma IdRoundTrip(b: seq<Byte>, pos: nat)
    ensures StandsAt(b, pos, FILE_BYTES) ==> IntAt(b, pos) == CSF_ID
    ensures StandsAt(b, pos, LABEL_BYTES) ==> IntAt(b, pos) == CSF_LABEL
    ensures StandsAt(b, pos, STRING_BYTES) ==> IntAt(b, pos) == CSF_STRING
    ensures StandsAt(b, pos, WAVE_BYTES) ==> IntAt(b, pos) == CSF_STRING_WITH_WAVE
  {
  }

  lemma {:induction false} WidesRoundTrip(b: seq<Byte>, pos: nat, s: seq<Wide>)
    requires StandsAt(b, pos, WriteWides(s))
    ensures pos + 2 * |s| <= |b| && WidesAt(b, pos, |s|) == FlipAll(s)
    decreases |s|
  {
    if s != [] {
      AtSplit(b, pos, [(65535 - s[0]) % 256, (65535 - s[0]) / 256], WriteWides(s[1..]));
      WidesRoundTrip(b, pos + 2, s[1..]);
      FirstWide(b, pos, s[0]);
      forall i | 0 < i < |s| ensures WidesAt(b, pos, |s|)[i] == Flip(s[i]) {
        assert WidesAt(b, pos, |s|)[i] == WidesAt(b, pos + 2, |s| - 1)[i - 1] == FlipAll(s[1..])[i - 1];
      }
    }
  }

  lemma FirstWide(b: seq<Byte>, pos: nat, c: Wide)
    requires StandsAt(b, pos, [(65535 - c) % 256, (65535 - c) / 256])
    ensures Wide16(b[pos], b[pos + 1]) == Flip(c)
  {
    assert b[pos..pos + 2][0] == b[pos] && b[pos..pos + 2][1] == b[pos + 1];
  }

  lemma TextRoundTrip(b: seq<Byte>, pos: nat, s: seq<Wide>)
    requires StandsAt(b, pos, WriteWides(s))
    ensures pos + 2 * |s| <= |b| && Decode(WidesAt(b, pos, |s|)) == Strip(Visible(s))
  {
    hide Strip, StandsAt;
    WidesRoundTrip(b, pos, s);
    DecodeFlipped(s);
  }

  function Speech(s: RawString): seq<Byte> {
    match s.wave case None => [] case Some(wave) => CString(wave, 0)
  }

  /** The wave field behind a string, read back. */
  lemma WaveRoundTrip(b: seq<Byte>, pos: nat, wave: seq<Byte>)
    requires |wave| < BUFFER && StandsAt(b, pos, WriteInt(|wave|) + wave)
    ensures pos + 4 + |wave| <= |b| && IntAt(b, pos) == |wave| && b[pos + 4..pos + 4 + |wave|] == wave
  {
    AtSplit(b, pos, WriteInt(|wave|), wave);
    IntRoundTrip(b, pos, |wave|);
  }

  /** One written string, read back. */
  lemma StringRoundTrip(b: seq<Byte>, pos: nat, s: RawString)
    requires StringFits(s) && StandsAt(b, pos, WriteString(s))
    ensures ParseString(b, pos) == StringChunk(pos + |WriteString(s)|, Strip(Visible(s.text)), Speech(s))
  {
    hide Decode, Strip, Visible, WriteInt, IntAt, WriteWides, WidesAt, StandsAt;
    AtBound(b, pos, WriteString(s));
    var wide := WriteWides(s.text);
    if s.wave.Some? {
      var wave := s.wave.value;
      var tail := WriteInt(|wave|) + wave;
      AtSplit(b, pos, WAVE_BYTES, WriteInt(|s.text|) + (wide + tail));
      IdRoundTrip(b, pos);
      AtSplit(b, pos + 4, WriteInt(|s.text|), wide + tail);
      IntRoundTrip(b, pos + 4, |s.text|);
      AtSplit(b, pos + 8, wide, tail);
      TextRoundTrip(b, pos + 8, s.text);
      WaveRoundTrip(b, pos + 8 + 2 * |s.text|, wave);
    } else {
      AtSplit(b, pos, STRING_BYTES, WriteInt(|s.text|) + wide);
      IdRoundTrip(b, pos);
      AtSplit(b, pos + 4, WriteInt(|s.text|), wide);
      IntRoundTrip(b, pos + 4, |s.text|);
      TextRoundTrip(b, pos + 8, s.text);
    }
  }

  function FirstChunk(ss: seq<RawString>, next: nat): StringChunk {
    if ss == [] then NO_STRING.(next := next) else StringChunk(next, Strip(Visible(ss[0].text)), Speech(ss[0]))
  }

  lemma ParseStringsStep(b: seq<Byte>, pos: nat, num: nat, count: int, first: StringChunk)
    requires pos <= |b| && first.StringChunk?
    ensures num >= count ==> ParseStrings(b, pos, num, count, first) == first.(next := pos)
    ensures num < count && !ParseString(b, pos).StringChunk? ==>
              ParseStrings(b, pos, num, count, first) == ParseString(b, pos)
    ensures num < count && ParseString(b, pos).StringChunk? ==>
              ParseStrings(b, pos, num, count, first)
              == ParseStrings(b, ParseString(b, pos).next, num + 1, count, if num == 0 then ParseString(b, pos) else first)
  {
    hide ParseString;
  }

  lemma WriteStringsStep(ss: seq<RawString>)
    requires forall i | 0 <= i < |ss| :: StringFits(ss[i])
    ensures ss == [] ==> |WriteStrings(ss)| == 0
    ensures ss != [] ==> WriteStrings(ss) == WriteString(ss[0]) + WriteStrings(ss[1..])
  {
  }

  lemma {:induction false} StringsRoundTrip(b: seq<Byte>, pos: nat, ss: seq<RawString>, num: nat, count: int, first: StringChunk)
    requires forall i | 0 <= i < |ss| :: StringFits(ss[i])
    requires StandsAt(b, pos, WriteStrings(ss)) && first.StringChunk? && (num == 0 ==> first == NO_STRING)
    requires count == num + |ss|
    ensures pos + |WriteStrings(ss)| <= |b|
    ensures ParseStrings(b, pos, num, count, first)
         == (if num == 0 then FirstChunk(ss, pos + |WriteStrings(ss)|) else first.(next := pos + |WriteStrings(ss)|))
    decreases |ss|
  {
    hide ParseStrings, ParseString, WriteString, WriteStrings, Strip, Visible, Speech, StandsAt;
    AtBound(b, pos, WriteStrings(ss));
    WriteStringsStep(ss);
    ParseStringsStep(b, pos, num, count, first);
    if ss != [] {
      AtSplit(b, pos, WriteString(ss[0]), WriteStrings(ss[1..]));
      StringRoundTrip(b, pos, ss[0]);
      StringsRoundTrip(b, pos + |WriteString(ss[0])|, ss[1..], num + 1, count,
                       if num == 0 then ParseString(b, pos) else first);
    }
  }

  /** One written label, read back. */
  lemma LabelRoundTrip(b: seq<Byte>, pos: nat, l: RawLabel)
    requires LabelFits(l) && StandsAt(b, pos, WriteLabel(l))
    ensures pos + |WriteLabel(l)| <= |b| && |WriteLabel(l)| >= 12
    ensures ParseLabel(b, pos) == LabelChunk(pos + |WriteLabel(l)|, Expected(l))
  {
    hide WriteInt, IntAt, WriteStrings, ParseStrings, StandsAt, Strip, Visible;
    var count, len, strings := WriteInt(|l.strings|), WriteInt(|l.name|), WriteStrings(l.strings);
    AtBound(b, pos, WriteLabel(l));
    AtSplit(b, pos, LABEL_BYTES, count + (len + (l.name + strings)));
    IdRoundTrip(b, pos);
    AtSplit(b, pos + 4, count, len + (l.name + strings));
    IntRoundTrip(b, pos + 4, |l.strings|);
    AtSplit(b, pos + 8, len, l.name + strings);
    IntRoundTrip(b, pos + 8, |l.name|);
    AtSplit(b, pos + 12, l.name, strings);
    AtBound(b, pos + 12, l.name);
    StringsRoundTrip(b, pos + 12 + |l.name|, l.strings, 0, |l.strings|, NO_STRING);
  }

  /** A table with the entries read so far in front. */
  function Prepend(done: seq<Entry>, rest: Parsed): Parsed {
    match rest case Table(entries) => Table(done + entries) case other => other
  }

  lemma ParseLabelsStep(b: seq<Byte>, pos: nat, room: nat)
    requires pos <= |b|
    ensures pos + 4 <= |b| && room > 0 && ParseLabel(b, pos).LabelChunk? ==>
              var chunk := ParseLabel(b, pos);
              ParseLabels(b, pos, room) == Prepend([chunk.entry], ParseLabels(b, chunk.next, room - 1))
  {
    hide IntAt, ParseStrings;
  }

  lemma WriteLabelsStep(ls: seq<RawLabel>)
    requires forall i | 0 <= i < |ls| :: LabelFits(ls[i])
    ensures ls == [] ==> |WriteLabels(ls)| == 0 && ExpectedAll(ls) == []
    ensures ls != [] ==> WriteLabels(ls) == WriteLabel(ls[0]) + WriteLabels(ls[1..])
    ensures ls != [] ==> ExpectedAll(ls) == [Expected(ls[0])] + ExpectedAll(ls[1..])
  {
    hide WriteLabel, Expected, LabelFits;
  }

  lemma {:induction false} LabelsRoundTrip(b: seq<Byte>, pos: nat, ls: seq<RawLabel>, room: nat)
    requires forall i | 0 <= i < |ls| :: LabelFits(ls[i])
    requires StandsAt(b, pos, WriteLabels(ls)) && |ls| <= room
    ensures pos + |WriteLabels(ls)| <= |b|
    ensures ParseLabels(b, pos, room) == Prepend(ExpectedAll(ls), ParseLabels(b, pos + |WriteLabels(ls)|, room - |ls|))
    decreases |ls|
  {
    hide WriteLabel, WriteLabels, ParseLabel, ParseLabels, StandsAt, Expected, ExpectedAll, LabelFits;
    AtBound(b, pos, WriteLabels(ls));
    WriteLabelsStep(ls);
    ParseLabelsStep(b, pos, room);
    if ls != [] {
      var end := pos + |WriteLabels(ls)|;
      AtSplit(b, pos, WriteLabel(ls[0]), WriteLabels(ls[1..]));
      LabelRoundTrip(b, pos, ls[0]);
      LabelsRoundTrip(b, pos + |WriteLabel(ls[0])|, ls[1..], room - 1);
      PrependJoin([Expected(ls[0])], ExpectedAll(ls[1..]), ParseLabels(b, end, room - |ls|));
    } else {
      PrependNothing(ParseLabels(b, pos, room));
    }
  }

  lemma PrependJoin(a: seq<Entry>, b: seq<Entry>, rest: Parsed)
    ensures Prepend(a, Prepend(b, rest)) == Prepend(a + b, rest)
  {
    if rest.Table? { assert a + (b + rest.entries) == a + b + rest.entries; }
  }

  lemma PrependNothing(rest: Parsed)
    ensures Prepend([], rest) == rest
  {
    if rest.Table? { assert [] + rest.entries == rest.entries; }
  }

  /** Four bytes are a label id exactly when they are those of one. */
  lemma LabelIdIsLabelBytes(b: seq<Byte>, pos: nat)
    requires pos + 4 <= |b|
    ensures IntAt(b, pos) == CSF_LABEL <==> b[pos..pos + 4] == LABEL_BYTES
  {
    var four := b[pos..pos + 4];
    assert four == [four[0], four[1], four[2], four[3]];
  }

  /** What the parser makes of what follows the labels: fewer than four bytes are ignored, another id is FALSE. */
  lemma TailDecides(b: seq<Byte>, pos: nat, room: nat)
    requires pos <= |b|
    ensures |b| - pos < 4 ==> ParseLabels(b, pos, room) == Table([])
    ensures |b| - pos >= 4 && b[pos..pos + 4] != LABEL_BYTES ==> ParseLabels(b, pos, room) == Refused
  {
    hide IntAt, ParseLabel;
    if |b| - pos >= 4 { LabelIdIsLabelBytes(b, pos); }
  }

  /** A label whose first string has another id than the two there are: FALSE. */
  lemma BadStringIsRefused(b: seq<Byte>, pos: nat, room: nat, count: nat, name: seq<Byte>, more: seq<Byte>)
    requires 0 < count < 0x8000_0000 && |name| < BUFFER && room > 0
    requires |more| >= 4 && more[..4] != STRING_BYTES && more[..4] != WAVE_BYTES
    requires StandsAt(b, pos, LABEL_BYTES + (WriteInt(count) + (WriteInt(|name|) + (name + more))))
    ensures ParseLabels(b, pos, room) == Refused
  {
    hide WriteInt, IntAt, StandsAt;
    var id := pos + 12 + |name|;
    AtBound(b, pos, LABEL_BYTES + (WriteInt(count) + (WriteInt(|name|) + (name + more))));
    AtSplit(b, pos, LABEL_BYTES, WriteInt(count) + (WriteInt(|name|) + (name + more)));
    IdRoundTrip(b, pos);
    AtSplit(b, pos + 4, WriteInt(count), WriteInt(|name|) + (name + more));
    IntRoundTrip(b, pos + 4, count);
    AtSplit(b, pos + 8, WriteInt(|name|), name + more);
    IntRoundTrip(b, pos + 8, |name|);
    AtSplit(b, pos + 12, name, more);
    AtBound(b, id, more);
    assert b[id..id + 4] == more[..4];
    StringIds(b, id);
    assert ParseString(b, id) == BadString;
    ParseStringsStep(b, id, 0, count, NO_STRING);
  }

  lemma StringIds(b: seq<Byte>, pos: nat)
    requires pos + 4 <= |b|
    ensures IntAt(b, pos) == CSF_STRING <==> b[pos..pos + 4] == STRING_BYTES
    ensures IntAt(b, pos) == CSF_STRING_WITH_WAVE <==> b[pos..pos + 4] == WAVE_BYTES
  {
    var four := b[pos..pos + 4];
    assert four == [four[0], four[1], four[2], four[3]];
  }

  /**
   * The CSF round trip, for every table whose lengths fit the buffers and any characters: the
   * written file announces its labels, and parsing it gives, in order, each label, its first
   * string as far as it is visible, stripped, and its wave name. Up to three bytes more change
   * nothing; with any others but a label behind the labels the parse fails.
   */
  lemma CsfRoundTrip(ls: seq<RawLabel>, strings: nat, language: nat, more: seq<Byte>)
    requires |ls| < 0x8000_0000 && strings < 0x8000_0000 && language < 0x8000_0000
    requires forall i | 0 <= i < |ls| :: LabelFits(ls[i])
    ensures LabelCount(Write(ls, strings, language) + more) == Some(|ls|)
    ensures |more| < 4 ==> ParseCsf(Write(ls, strings, language) + more, |ls|) == Table(ExpectedAll(ls))
    ensures |more| >= 4 && more[..4] != LABEL_BYTES ==> ParseCsf(Write(ls, strings, language) + more, |ls|) == Refused
  {
    hide WriteInt, IntAt, ExpectedAll, ParseLabels, WriteLabels;
    var b := Write(ls, strings, language) + more;
    HeaderRoundTrip(b, |ls|, strings, language, WriteLabels(ls), more);
    LabelsRoundTrip(b, HEADER_SIZE, ls, |ls|);
    var end := HEADER_SIZE + |WriteLabels(ls)|;
    assert b[end..] == more;
    if |more| >= 4 { assert b[end..end + 4] == more[..4]; }
    TailDecides(b, end, 0);
    assert ExpectedAll(ls) + [] == ExpectedAll(ls);
  }

  lemma HeaderRoundTrip(b: seq<Byte>, labels: nat, strings: nat, language: nat, body: seq<Byte>, more: seq<Byte>)
    requires labels < 0x8000_0000 && strings < 0x8000_0000 && language < 0x8000_0000
    requires b == WriteHeader(labels, strings, language) + body + more
    ensures |b| >= HEADER_SIZE && StandsAt(b, HEADER_SIZE, body) && LabelCount(b) == Some(labels)
  {
    var rest := WriteInt(strings) + (WriteInt(0) + WriteInt(language));
    var tail := WriteInt(3) + (WriteInt(labels) + rest);
    assert b[..HEADER_SIZE] == FILE_BYTES + tail;
    assert StandsAt(b, 0, FILE_BYTES + tail) && StandsAt(b, HEADER_SIZE, body);
    hide WriteInt, StandsAt, IntAt;
    AtSplit(b, 0, FILE_BYTES, tail);
    IdRoundTrip(b, 0);
    AtSplit(b, 4, WriteInt(3), WriteInt(labels) + rest);
    AtSplit(b, 8, WriteInt(labels), rest);
    IntRoundTrip(b, 8, labels);
  }

  /** For texts without the two special characters nothing is cut off: the text comes back, stripped. */
  lemma {:induction false} VisibleAll(s: seq<Wide>)
    ensures Visible(s) == s <==> 0 !in s && 0xFFFF !in s
  {
    if s != [] {
      VisibleAll(s[1..]);
      assert s == [s[0]] + s[1..];
    }
  }
}
