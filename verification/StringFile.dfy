/** The text form of the string table (.str) of Core/Tools/Autorun/GameText.cpp, and its two passes. */
module StringFile {
  import opened Options
  import opened RamFile
  import opened StripSpaces
  import opened LookupOrder
  import opened CsfFormat

  const NL: Byte := 10
  const QUOTE: Byte := 34
  const BACKSLASH: Byte := 92
  const SLASH: Byte := 47
  /** EOF as a signed char. */
  const END_MARK: Byte := 255

  /** iswspace on a char of the "C" locale. */
  predicate Blank(c: Byte) { c == 32 || 9 <= c <= 13 }

  // ---------------------------------------------------------------------------------------
  // Lines
  // ---------------------------------------------------------------------------------------

  /** Where the line that starts at pos stops: at its newline or at the end of the file. */
  function LineStop(b: seq<Byte>, pos: nat): (r: nat)
    requires pos <= |b|
    ensures pos <= r <= |b|
    decreases |b| - pos
  {
    if pos == |b| || b[pos] == NL then pos else LineStop(b, pos + 1)
  }

  /** The file position behind that line. */
  function After(b: seq<Byte>, pos: nat): (r: nat)
    requires pos <= |b|
    ensures pos <= r <= |b| && (pos < |b| ==> pos < r)
  {
    var stop := LineStop(b, pos);
    if stop < |b| then stop + 1 else stop
  }

  function TrimLeft(s: seq<Byte>): (r: seq<Byte>)
    ensures |r| <= |s| && r == s[|s| - |r|..] && (r != [] ==> !Blank(r[0]))
  {
    if s != [] && Blank(s[0]) then TrimLeft(s[1..]) else s
  }

  function TrimRight(s: seq<Byte>): (r: seq<Byte>)
    ensures |r| <= |s| && r == s[..|r|] && (r != [] ==> !Blank(r[|r| - 1]))
  {
    if s != [] && Blank(s[|s| - 1]) then TrimRight(s[..|s| - 1]) else s
  }

  /** removeLeadingAndTrailing. */
  function Trim(s: seq<Byte>): seq<Byte> { TrimRight(TrimLeft(s)) }

  /** What readLine and removeLeadingAndTrailing leave in m_buffer. */
  function LineAt(b: seq<Byte>, pos: nat): seq<Byte>
    requires pos <= |b|
  {
    Trim(CString(b[pos..LineStop(b, pos)], 0))
  }

  predicate Quoted(line: seq<Byte>) { line != [] && line[0] == QUOTE }

  predicate Comment(line: seq<Byte>) { |line| >= 2 && line[0] == SLASH && line[1] == SLASH }

  /** No quote, and stricmp(m_buffer, "END") == 0. */
  predicate IsEnd(line: seq<Byte>) { !Quoted(line) && FoldBytes(line) == [101, 110, 100] }

  // ---------------------------------------------------------------------------------------
  // Quotes
  // ---------------------------------------------------------------------------------------

  /** The first loop of readToEndOfQuote: the index of the closing quote in the stream of characters. */
  function FindQuote(s: seq<Byte>, i: nat, slash: bool): (r: Option<nat>)
    requires i <= |s|
    ensures r.Some? ==> i <= r.value < |s|
    decreases |s| - i
  {
    if i == |s| || s[i] == END_MARK then None
    else if s[i] == QUOTE && !slash then Some(i)
    else FindQuote(s, i + 1, s[i] == BACKSLASH && !slash)
  }

  /** Where an end mark cuts the quote short before it is closed. */
  function FindCut(s: seq<Byte>, i: nat, slash: bool): (r: Option<nat>)
    requires i <= |s|
    ensures r.Some? ==> i <= r.value < |s|
    decreases |s| - i
  {
    if i == |s| || (s[i] == QUOTE && !slash) then None
    else if s[i] == END_MARK then Some(i)
    else FindCut(s, i + 1, s[i] == BACKSLASH && !slash)
  }

  /** The second loop: the newline or end mark that ends the line of the closing quote. */
  function FindBreak(s: seq<Byte>, i: nat): (r: Option<nat>)
    requires i <= |s|
    ensures r.Some? ==> i <= r.value < |s|
    decreases |s| - i
  {
    if i == |s| then None
    else if s[i] == NL || s[i] == END_MARK then Some(i)
    else FindBreak(s, i + 1)
  }

  /** White space inside quotes becomes a space. */
  function Flatten(s: seq<Byte>): seq<Byte> {
    seq(|s|, i requires 0 <= i < |s| => if Blank(s[i]) then 32 else s[i])
  }

  predicate WaveChar(c: Byte) { 97 <= c <= 122 || 65 <= c <= 90 || 48 <= c <= 57 || c == 95 }

  /** The leading run of wave-name characters. */
  function WaveRun(s: seq<Byte>): seq<Byte> {
    if s != [] && WaveChar(s[0]) then [s[0]] + WaveRun(s[1..]) else []
  }

  function SkipToWave(s: seq<Byte>): seq<Byte> {
    if s != [] && (Blank(s[0]) || s[0] == 61) then SkipToWave(s[1..]) else s
  }

  /** The wave name behind a quote; a name that ends in a digit gets an 'e'. */
  function WaveName(s: seq<Byte>): seq<Byte> {
    var name := WaveRun(SkipToWave(s));
    if name != [] && 48 <= name[|name| - 1] <= 57 then name + [101] else name
  }

  /** A quote: what it reads into m_buffer2 and m_buffer3, and how much of the file it consumes. */
  datatype Quote = Quote(body: seq<Byte>, wave: seq<Byte>, consumed: nat)

  /**
   * readToEndOfQuote, started behind the quote that opens line, with rest of the file to come.
   * None when the quote is never closed or no newline follows: then the code runs away.
   */
  function ReadQuote(line: seq<Byte>, rest: seq<Byte>): (r: Option<Quote>)
    requires Quoted(line)
    ensures r.Some? ==> r.value.consumed <= |rest|
  {
    var head := line[1..] + [NL];
    var s := head + rest;
    match FindQuote(s, 0, false)
    case None => None
    case Some(q) =>
      match FindBreak(s, q + 1)
      case None => None
      case Some(e) =>
        Some(Quote(Flatten(s[..q]), WaveName(s[q + 1..e]), if e < |head| then 0 else e + 1 - |head|))
  }

  /** translateCopy without its joke modes. */
  function Translate(s: seq<Byte>): seq<Wide> {
    if s == [] then []
    else if s[0] != BACKSLASH then [s[0]] + Translate(s[1..])
    else if |s| == 1 then []
    else [if s[1] == 116 then TAB else if s[1] == 110 then NEWLINE else s[1] as Wide] + Translate(s[2..])
  }

  // ---------------------------------------------------------------------------------------
  // The counting pass
  // ---------------------------------------------------------------------------------------

  /** Where the counting pass stands after the line at pos and the quote it may open. */
  function NextItem(b: seq<Byte>, pos: nat): (r: Option<nat>)
    requires pos < |b|
    ensures r.Some? ==> pos < r.value <= |b|
  {
    if !Quoted(LineAt(b, pos)) then Some(After(b, pos))
    else
      match ReadQuote(LineAt(b, pos), b[After(b, pos)..])
      case None => None
      case Some(q) => Some(After(b, pos) + q.consumed)
  }

  /** Every quote the counting pass meets from pos on is closed, with a newline to come. */
  predicate Countable(b: seq<Byte>, pos: nat)
    requires pos <= |b|
    decreases |b| - pos
  {
    pos == |b| || (NextItem(b, pos).Some? && Countable(b, NextItem(b, pos).value))
  }

  /** getStringCount before the 500 spare entries: the END lines from pos on. */
  function CountEnds(b: seq<Byte>, pos: nat): nat
    requires pos <= |b| && Countable(b, pos)
    decreases |b| - pos
  {
    if pos == |b| then 0
    else (if IsEnd(LineAt(b, pos)) then 1 else 0) + CountEnds(b, NextItem(b, pos).value)
  }

  const SPARE := 500

  /** The positions at which the counting pass reads a line. */
  function CountTrail(b: seq<Byte>, pos: nat): seq<nat>
    requires pos <= |b| && Countable(b, pos)
    decreases |b| - pos
  {
    if pos == |b| then [] else [pos] + CountTrail(b, NextItem(b, pos).value)
  }

  // ---------------------------------------------------------------------------------------
  // The parsing pass
  // ---------------------------------------------------------------------------------------

  /** The parser looks for a label, or for the strings of a label. */
  datatype Phase = Label | Body

  /** A line at which no label starts. */
  predicate Skipped(line: seq<Byte>) { line == [] || Comment(line) }

  /** Where the parsing pass goes from the line at pos: only inside a label does it read quotes. */
  function ParseNext(b: seq<Byte>, pos: nat, phase: Phase): (r: Option<nat>)
    requires pos < |b|
    ensures r.Some? ==> pos < r.value <= |b|
  {
    if phase == Label then Some(After(b, pos)) else NextItem(b, pos)
  }

  function PhaseNext(b: seq<Byte>, pos: nat, phase: Phase): Phase
    requires pos < |b|
  {
    var line := LineAt(b, pos);
    if phase == Label then (if Skipped(line) then Label else Body)
    else if IsEnd(line) then Label else Body
  }

  predicate Parsable(b: seq<Byte>, pos: nat, phase: Phase)
    requires pos <= |b|
    decreases |b| - pos
  {
    pos == |b| || (ParseNext(b, pos, phase).Some?
                   && Parsable(b, ParseNext(b, pos, phase).value, PhaseNext(b, pos, phase)))
  }

  /** The positions at which the parsing pass reads a line. */
  function ParseTrail(b: seq<Byte>, pos: nat, phase: Phase): seq<nat>
    requires pos <= |b| && Parsable(b, pos, phase)
    decreases |b| - pos
  {
    if pos == |b| then [] else [pos] + ParseTrail(b, ParseNext(b, pos, phase).value, PhaseNext(b, pos, phase))
  }

  /**
   * No label line opens a quote that reads on: where the parser looks for a label, the line does
   * not start with a quote, or closes it on the same line.
   */
  predicate PlainLabels(b: seq<Byte>, pos: nat, phase: Phase)
    requires pos <= |b| && Countable(b, pos)
    decreases |b| - pos
  {
    pos == |b| ||
    ((phase == Label ==> NextItem(b, pos).value == After(b, pos))
     && PlainLabels(b, NextItem(b, pos).value, PhaseNext(b, pos, phase)))
  }

  /** The condition the format asks for: no label line starts with a quote. */
  predicate UnquotedLabels(b: seq<Byte>, pos: nat, phase: Phase)
    requires pos <= |b| && Countable(b, pos)
    decreases |b| - pos
  {
    pos == |b| ||
    ((phase == Label ==> !Quoted(LineAt(b, pos)))
     && UnquotedLabels(b, NextItem(b, pos).value, PhaseNext(b, pos, phase)))
  }

  lemma {:induction false} UnquotedLabelsArePlain(b: seq<Byte>, pos: nat, phase: Phase)
    requires pos <= |b| && Countable(b, pos) && UnquotedLabels(b, pos, phase)
    ensures PlainLabels(b, pos, phase)
    decreases |b| - pos
  {
    hide LineAt, ReadQuote, After;
    if pos < |b| { UnquotedLabelsArePlain(b, NextItem(b, pos).value, PhaseNext(b, pos, phase)); }
  }

  /**
   * Two-pass agreement, exactly: the parsing pass gets through the file reading its lines at the
   * same positions as the counting pass if and only if the labels are plain.
   */
  lemma {:induction false} PassesAgree(b: seq<Byte>, pos: nat, phase: Phase)
    requires pos <= |b| && Countable(b, pos)
    ensures PlainLabels(b, pos, phase)
       <==> Parsable(b, pos, phase) && ParseTrail(b, pos, phase) == CountTrail(b, pos)
    decreases |b| - pos
  {
    hide NextItem, PhaseNext, After;
    if pos < |b| {
      var next, phase2 := NextItem(b, pos).value, PhaseNext(b, pos, phase);
      PassesAgree(b, next, phase2);
      if Parsable(b, pos, phase) && ParseTrail(b, pos, phase) == CountTrail(b, pos) {
        TrailsStart(b, pos, phase);
        assert ParseNext(b, pos, phase) == Some(next);
        assert CountTrail(b, pos)[1..] == CountTrail(b, next);
        assert ParseTrail(b, pos, phase)[1..] == ParseTrail(b, next, phase2);
      }
    }
  }

  /** Equal trails go on at the same position. */
  lemma TrailsStart(b: seq<Byte>, pos: nat, phase: Phase)
    requires pos < |b| && Countable(b, pos) && Parsable(b, pos, phase)
    requires ParseTrail(b, pos, phase) == CountTrail(b, pos)
    ensures ParseNext(b, pos, phase) == NextItem(b, pos)
  {
    hide NextItem, PhaseNext, ParseNext;
    var m, n := ParseNext(b, pos, phase).value, NextItem(b, pos).value;
    var rest := ParseTrail(b, m, PhaseNext(b, pos, phase));
    assert ParseTrail(b, pos, phase)[1..] == rest && CountTrail(b, pos)[1..] == CountTrail(b, n);
    TrailHead(b, m, PhaseNext(b, pos, phase));
    TrailHead'(b, n);
  }

  lemma TrailHead(b: seq<Byte>, pos: nat, phase: Phase)
    requires pos <= |b| && Parsable(b, pos, phase)
    ensures pos == |b| <==> ParseTrail(b, pos, phase) == []
    ensures pos < |b| ==> ParseTrail(b, pos, phase)[0] == pos
  {
  }

  lemma TrailHead'(b: seq<Byte>, pos: nat)
    requires pos <= |b| && Countable(b, pos)
    ensures pos == |b| <==> CountTrail(b, pos) == []
    ensures pos < |b| ==> CountTrail(b, pos)[0] == pos
  {
  }

  // ---------------------------------------------------------------------------------------
  // The table
  // ---------------------------------------------------------------------------------------

  datatype FileTable = FileTable(ok: bool, entries: seq<Entry>)

  /** The entry after a quote: only the first string of a label counts. */
  function TakeQuote(current: Entry, read: bool, q: Quote): Entry {
    if read then current
    else Entry(current.name, Strip(CString(Translate(CString(q.body, 0)), 0)), q.wave)
  }

  /** parseStringFile from pos on. current is the entry of the label being read, read whether it has its string. */
  function ParseFrom(b: seq<Byte>, pos: nat, phase: Phase, current: Entry, read: bool): FileTable
    requires pos <= |b| && Parsable(b, pos, phase)
    decreases |b| - pos
  {
    if pos == |b| then FileTable(phase == Label, [])
    else
      var line, next := LineAt(b, pos), ParseNext(b, pos, phase).value;
      if phase == Label then
        if Skipped(line) then ParseFrom(b, next, Label, current, read)
        else ParseFrom(b, next, Body, Entry(line, [], []), false)
      else if Quoted(line) then
        ParseFrom(b, next, Body, TakeQuote(current, read, ReadQuote(line, b[After(b, pos)..]).value), true)
      else if IsEnd(line) then
        var rest := ParseFrom(b, next, Label, current, read);
        FileTable(rest.ok, [current] + rest.entries)
      else ParseFrom(b, next, Body, current, read)
  }

  /** How many table entries the parsing pass writes from pos on; the last may stay unfinished. */
  function Slots(b: seq<Byte>, pos: nat, phase: Phase): (r: nat)
    requires pos <= |b| && Parsable(b, pos, phase)
    ensures phase == Body ==> r >= 1
    decreases |b| - pos
  {
    if pos == |b| then (if phase == Body then 1 else 0)
    else
      (if phase == Body && IsEnd(LineAt(b, pos)) then 1 else 0)
      + Slots(b, ParseNext(b, pos, phase).value, PhaseNext(b, pos, phase))
  }

  lemma {:induction false} SlotsOfTable(b: seq<Byte>, pos: nat, phase: Phase, current: Entry, read: bool)
    requires pos <= |b| && Parsable(b, pos, phase)
    ensures var t := ParseFrom(b, pos, phase, current, read);
            Slots(b, pos, phase) == |t.entries| + if t.ok then 0 else 1
    decreases |b| - pos
  {
    hide LineAt, After, ReadQuote, TakeQuote;
    if pos < |b| {
      var line, next := LineAt(b, pos), ParseNext(b, pos, phase).value;
      if phase == Label {
        if Skipped(line) {
          SlotsOfTable(b, next, Label, current, read);
        } else {
          SlotsOfTable(b, next, Body, Entry(line, [], []), false);
        }
      } else if Quoted(line) {
        SlotsOfTable(b, next, Body, TakeQuote(current, read, ReadQuote(line, b[After(b, pos)..]).value), true);
      } else if IsEnd(line) {
        SlotsOfTable(b, next, Label, current, read);
      } else {
        SlotsOfTable(b, next, Body, current, read);
      }
    }
  }

  /** With plain labels the parser completes no more entries than the counting pass found. */
  lemma {:induction false} TableFits(b: seq<Byte>, pos: nat, phase: Phase, current: Entry, read: bool)
    requires pos <= |b| && Countable(b, pos) && Parsable(b, pos, phase) && PlainLabels(b, pos, phase)
    ensures |ParseFrom(b, pos, phase, current, read).entries| <= CountEnds(b, pos)
    decreases |b| - pos
  {
    hide LineAt, After, ReadQuote, TakeQuote;
    if pos < |b| {
      var line, next := LineAt(b, pos), NextItem(b, pos).value;
      if phase == Label {
        if Skipped(line) {
          TableFits(b, next, Label, current, read);
        } else {
          TableFits(b, next, Body, Entry(line, [], []), false);
        }
      } else if Quoted(line) {
        TableFits(b, next, Body, TakeQuote(current, read, ReadQuote(line, b[After(b, pos)..]).value), true);
      } else if IsEnd(line) {
        TableFits(b, next, Label, current, read);
      } else {
        TableFits(b, next, Body, current, read);
      }
    }
  }
}
