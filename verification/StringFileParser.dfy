/** getStringCount and parseStringFile (Core/Tools/Autorun/GameText.cpp) with their buffers. */
module StringFileParser {
  import opened Options
  import opened RamFile
  import opened StripSpaces
  import opened LookupOrder
  import opened CsfFormat
  import CsfParser
  import opened StringFile

  /** The buffer starts with the C string s. */
  predicate Has(buffer: seq<Byte>, s: seq<Byte>) {
    |s| < |buffer| && buffer[..|s|] == s && buffer[|s|] == 0 && 0 !in s
  }

  /** GameTextManager::readChar and the plain read of one char; 0 at the end of the file. */
  method ReadChar(file: File) returns (ok: bool, ch: Byte)
    requires file.Valid() && file.data != null
    modifies file`pos
    ensures file.Valid()
    ensures ok <==> old(file.pos) < |file.Content()|
    ensures ok ==> ch == file.Content()[old(file.pos)] && file.pos == old(file.pos) + 1
    ensures !ok ==> ch == 0 && file.pos == old(file.pos)
  {
    var one := new Byte[1];
    var n := file.Read(one, 1);
    ok := n == 1;
    ch := if ok then one[0] else 0;
    if ok { assert one[..1][0] == file.Content()[old(file.pos)]; }
  }

  /** GameTextManager::readLine, for a line that fits. */
  method ReadLine(file: File, buffer: array<Byte>, max: nat) returns (ok: bool)
    requires file.Valid() && file.data != null && buffer != file.data
    requires var len := LineStop(file.Content(), file.pos) - file.pos; len < max && len < buffer.Length
    modifies file`pos, buffer
    ensures file.Valid() && file.pos == After(file.Content(), old(file.pos))
    ensures ok <==> old(file.pos) < |file.Content()|
    ensures var line := file.Content()[old(file.pos)..LineStop(file.Content(), old(file.pos))];
            |line| < buffer.Length && buffer[..|line|] == line && buffer[|line|] == 0
  {
    ghost var b, start := file.Content(), file.pos;
    ghost var stop := LineStop(b, start);
    ok := false;
    var k := 0;
    while k < max
      invariant file.Valid() && file.Content() == b && 0 <= k && start + k == file.pos <= stop
      invariant LineStop(b, file.pos) == stop
      invariant buffer[..k] == b[start..file.pos]
      invariant ok <==> k > 0
    {
      var more, ch := ReadChar(file);
      if !more { break; }
      ok := true;
      buffer[k] := ch;
      if ch == NL { break; }
      k := k + 1;
    }
    buffer[k] := 0;
  }

  lemma TrimLeftStep(s: seq<Byte>, k: nat)
    requires k < |s|
    ensures Blank(s[k]) ==> TrimLeft(s[k..]) == TrimLeft(s[k + 1..])
    ensures !Blank(s[k]) ==> TrimLeft(s[k..]) == s[k..]
  {
    assert s[k..][1..] == s[k + 1..];
  }

  lemma TrimRightStep(s: seq<Byte>, k: nat)
    requires 0 < k <= |s|
    ensures Blank(s[k - 1]) ==> TrimRight(s[..k]) == TrimRight(s[..k - 1])
    ensures !Blank(s[k - 1]) ==> TrimRight(s[..k]) == s[..k]
  {
    assert s[..k][..k - 1] == s[..k - 1];
  }

  /** The first loop of removeLeadingAndTrailing: where the text starts. */
  method SkipLeading(buffer: array<Byte>, ghost s: seq<Byte>) returns (first: nat)
    requires Has(buffer[..], s)
    ensures first <= |s| && s[first..] == TrimLeft(s)
  {
    first := 0;
    assert s[0..] == s;
    while buffer[first] != 0 && Blank(buffer[first])
      invariant first <= |s| && TrimLeft(s[first..]) == TrimLeft(s)
      invariant forall k | 0 <= k <= |s| :: buffer[k] == (if k < |s| then s[k] else 0)
      decreases |s| - first
    {
      TrimLeftStep(s, first);
      first := first + 1;
    }
    if first < |s| { TrimLeftStep(s, first); }
  }

  /** The copy loop: moves the text to the front of the buffer, with its zero. */
  method MoveDown(buffer: array<Byte>, start: nat, ghost s: seq<Byte>) returns (ptr: nat)
    requires Has(buffer[..], s) && start <= |s|
    modifies buffer
    ensures ptr == |s| - start + 1 && Has(buffer[..], s[start..])
  {
    var first := start;
    ptr := 0;
    ghost var t := s[start..];
    while true
      invariant ptr <= |t| && first == start + ptr
      invariant buffer[..ptr] == t[..ptr]
      invariant forall k | first <= k < |s| :: buffer[k] == s[k] && buffer[k] != 0
      invariant buffer[|s|] == 0
      decreases |t| - ptr
    {
      var ch := buffer[first];
      buffer[ptr] := ch;
      ptr, first := ptr + 1, first + 1;
      if ch == 0 { break; }
    }
  }

  lemma TrimRightDone(t: seq<Byte>, k: nat)
    requires k <= |t| && TrimRight(t[..k]) == TrimRight(t) && (k > 0 ==> !Blank(t[k - 1]))
    ensures TrimRight(t) == t[..k]
  {
    if k > 0 { TrimRightStep(t, k); }
  }

  lemma TrimRightStart(t: seq<Byte>)
    ensures TrimRight(t[..|t|]) == TrimRight(t)
  {
    assert t[..|t|] == t;
  }

  /** The last loop: drops trailing white space, but never the first character. */
  method DropTrailing(buffer: array<Byte>, size: nat, ghost t: seq<Byte>)
    requires Has(buffer[..], t) && size == |t| + 1 && (t != [] ==> !Blank(t[0]))
    modifies buffer
    ensures Has(buffer[..], TrimRight(t))
  {
    hide TrimRight;
    HasChars(buffer[..], t);
    assert forall k | 0 <= k < |t| :: buffer[k] == buffer[..][k];
    TrimRightStart(t);
    var ptr := size as int - 2;
    while ptr > 0 && buffer[ptr] != 0 && Blank(buffer[ptr])
      invariant -1 <= ptr < |t| && (ptr == -1 <==> t == [])
      invariant TrimRight(t[..ptr + 1]) == TrimRight(t)
      decreases ptr
      modifies {}
    {
      TrimRightStep(t, ptr + 1);
      ptr := ptr - 1;
    }
    TrimRightDone(t, ptr + 1);
    ptr := ptr + 1;
    HasPrefix(buffer[..], t, ptr);
    buffer[ptr] := 0;
  }

  lemma HasPrefix(buffer: seq<Byte>, t: seq<Byte>, k: nat)
    requires Has(buffer, t) && k <= |t|
    ensures buffer[..k] == t[..k] && 0 !in t[..k]
  {
    assert buffer[..k] == buffer[..|t|][..k];
  }

  /** GameTextManager::removeLeadingAndTrailing. */
  method RemoveLeadingAndTrailing(buffer: array<Byte>, ghost s: seq<Byte>)
    requires Has(buffer[..], s)
    modifies buffer
    ensures Has(buffer[..], Trim(s))
  {
    hide TrimRight, TrimLeft;
    var first := SkipLeading(buffer, s);
    var size := MoveDown(buffer, first, s);
    DropTrailing(buffer, size, TrimLeft(s));
  }

  lemma HasChars(buffer: seq<Byte>, s: seq<Byte>)
    requires Has(buffer, s)
    ensures forall k | 0 <= k < |s| :: buffer[k] == s[k] && s[k] != 0
  {
    assert forall k | 0 <= k < |s| :: buffer[k] == buffer[..|s|][k] && s[k] in s;
  }

  // ---------------------------------------------------------------------------------------
  // Quotes
  // ---------------------------------------------------------------------------------------

  /** What readToEndOfQuote reads: the rest of the line buffer, then the file. */
  ghost function Stream(line: seq<Byte>, rest: seq<Byte>): seq<Byte>
    requires line != []
  {
    line[1..] + [NL] + rest
  }

  /** The cursor of readToEndOfQuote after i characters; from is the file position at its start. */
  ghost predicate BuffersAt(inPos: int, filePos: nat, from: nat, line: seq<Byte>, i: nat)
    requires line != []
  {
    if inPos >= 0 then inPos == i + 1 && i <= |line| && filePos == from
    else i > |line| && filePos == from + i - |line|
  }

  /** Gets the next character: from the buffer while in is not null, otherwise from the file. */
  method NextChar(file: File, buffer: array<Byte>, inPos: int, ghost line: seq<Byte>, ghost from: nat, ghost i: nat)
    returns (ch: Byte, next: int)
    requires file.Valid() && file.data != null && buffer != file.data && line != []
    requires Has(buffer[..], line + [NL]) && BuffersAt(inPos, file.pos, from, line, i)
    requires from <= |file.Content()| && i < |Stream(line, file.Content()[from..])|
    modifies file`pos
    ensures file.Valid() && BuffersAt(next, file.pos, from, line, i + 1)
    ensures ch == Stream(line, file.Content()[from..])[i]
  {
    next := inPos;
    if next >= 0 {
      ch := buffer[next];
      next := next + 1;
      if ch == 0 {
        next := -1;
        var _, c := ReadChar(file);
        ch := c;
      }
    } else {
      var _, c := ReadChar(file);
      ch := c;
    }
  }

  lemma FlattenStep(s: seq<Byte>, k: nat)
    requires k < |s|
    ensures Flatten(s[..k + 1]) == Flatten(s[..k]) + [if Blank(s[k]) then 32 else s[k]]
  {
    assert s[..k + 1] == s[..k] + [s[k]];
  }

  /** Where the first loop of readToEndOfQuote ends: at the closing quote, or at an end mark in front of it. */
  predicate BodyEnds(s: seq<Byte>, n: nat, slash: bool, q: nat, cut: bool) {
    n <= |s| && (if cut then FindCut(s, n, slash) else FindQuote(s, n, slash)) == Some(q)
  }

  /**
   * The first loop of readToEndOfQuote: copies up to the closing quote at index q of the stream. At an
   * end mark it returns at once and leaves out without a terminator.
   */
  method ReadBody(file: File, buffer: array<Byte>, out: array<Byte>, maxBufLen: nat,
                  ghost line: seq<Byte>, ghost q: nat, ghost isCut: bool)
    returns (inPos: int, cut: bool)
    requires file.Valid() && file.data != null && buffer != file.data && out != file.data && out != buffer
    requires line != [] && Has(buffer[..], line + [NL])
    requires BodyEnds(Stream(line, file.Content()[file.pos..]), 0, false, q, isCut)
    requires q < maxBufLen && q < out.Length
    modifies file`pos, out
    ensures file.Valid() && BuffersAt(inPos, file.pos, old(file.pos), line, q + 1)
    ensures out[..q] == Flatten(Stream(line, file.Content()[old(file.pos)..])[..q]) && cut == isCut
    ensures if cut then out[q..] == old(out[q..]) else out[q] == 0
  {
    ghost var from, b := file.pos, file.Content();
    ghost var s := Stream(line, b[from..]);
    var n, left, slash := 0, maxBufLen, false;
    inPos := 1;
    while left > 0
      invariant n <= q && left == maxBufLen - n && file.Valid() && file.Content() == b
      invariant BuffersAt(inPos, file.pos, from, line, n) && BodyEnds(s, n, slash, q, isCut)
      invariant out[..n] == Flatten(s[..n])
      invariant forall k | n <= k < out.Length :: out[k] == old(out[k])
    {
      var ch, next := NextChar(file, buffer, inPos, line, from, n);
      inPos := next;
      if ch == END_MARK { return inPos, true; }
      FlattenStep(s, n);
      if ch == NL {
        slash := false;
        ch := 32;
      } else if ch == BACKSLASH && !slash {
        slash := true;
      } else if ch == BACKSLASH && slash {
        slash := false;
      } else if ch == QUOTE && !slash {
        break;
      } else {
        slash := false;
      }
      if Blank(ch) { ch := 32; }
      out[n] := ch;
      n, left := n + 1, left - 1;
    }
    out[n] := 0;
    cut := false;
  }

  /** The part of the wave name already written, in each state of the second loop. */
  ghost predicate WaveSoFar(state: nat, done: seq<Byte>, rest: seq<Byte>, run: seq<Byte>) {
    if state == 0 then done == [] && WaveRun(SkipToWave(rest)) == run
    else if state == 1 then done + WaveRun(rest) == run
    else done == run
  }

  /** One turn of the second loop keeps WaveSoFar. */
  lemma WaveStep(state: nat, done: seq<Byte>, c: Byte, rest: seq<Byte>, run: seq<Byte>)
    requires WaveSoFar(state, done, [c] + rest, run)
    ensures state == 0 && (Blank(c) || c == 61) ==> WaveSoFar(0, done, rest, run)
    ensures state < 2 && !(state == 0 && (Blank(c) || c == 61)) && WaveChar(c) ==> WaveSoFar(1, done + [c], rest, run)
    ensures state < 2 && !(state == 0 && (Blank(c) || c == 61)) && !WaveChar(c) ==> WaveSoFar(2, done, rest, run)
    ensures state >= 2 ==> WaveSoFar(state, done, rest, run)
  {
    assert ([c] + rest)[1..] == rest;
    if WaveChar(c) { assert done + ([c] + WaveRun(rest)) == (done + [c]) + WaveRun(rest); }
  }

  lemma WaveStart(text: seq<Byte>)
    ensures WaveSoFar(0, [], text, WaveRun(SkipToWave(text)))
  {
  }

  lemma WaveEnd(state: nat, done: seq<Byte>, run: seq<Byte>)
    requires WaveSoFar(state, done, [], run)
    ensures done == run
  {
  }

  lemma WaveGrows(state: nat, done: seq<Byte>, rest: seq<Byte>, run: seq<Byte>)
    requires WaveSoFar(state, done, rest, run)
    ensures |done| <= |run|
  {
  }

  /** The tail of readToEndOfQuote: ends the wave name, with its 'e' after a digit. */
  method EndWave(wave: array<Byte>, len: nat, ghost text: seq<Byte>)
    requires |WaveName(text)| < wave.Length && len <= wave.Length && wave[..len] == WaveRun(SkipToWave(text))
    modifies wave
    ensures wave[..|WaveName(text)|] == WaveName(text) && wave[|WaveName(text)|] == 0
  {
    wave[len] := 0;
    if len > 0 && 48 <= wave[len - 1] <= 57 {
      wave[len] := 101;
      wave[len + 1] := 0;
    }
  }

  /** The switch of the second loop. */
  method TakeWaveChar(wave: array<Byte>, state: nat, len: nat, ch: Byte, ghost rest: seq<Byte>, ghost run: seq<Byte>)
    returns (state': nat, len': nat)
    requires len <= |run| < wave.Length && WaveSoFar(state, wave[..len], [ch] + rest, run)
    modifies wave
    ensures len' <= |run| && WaveSoFar(state', wave[..len'], rest, run)
  {
    hide WaveSoFar;
    ghost var was := wave[..len];
    WaveStep(state, was, ch, rest, run);
    state', len' := state, len;
    if state == 0 && (Blank(ch) || ch == 61) {
    } else if state <= 1 {
      if WaveChar(ch) {
        WaveGrows(1, was + [ch], rest, run);
        wave[len] := ch;
        assert wave[..len + 1] == was + [ch];
        state', len' := 1, len + 1;
      } else {
        state' := 2;
      }
    }
  }

  /** The second loop of readToEndOfQuote: the wave name, from index i to the line end at e. */
  method ReadWave(file: File, buffer: array<Byte>, inStart: int, wave: array<Byte>,
                  ghost line: seq<Byte>, ghost from: nat, ghost i: nat, ghost e: nat)
    requires file.Valid() && file.data != null && buffer != file.data && wave != file.data && wave != buffer
    requires line != [] && Has(buffer[..], line + [NL]) && from <= |file.Content()|
    requires BuffersAt(inStart, file.pos, from, line, i) && i <= |Stream(line, file.Content()[from..])|
    requires FindBreak(Stream(line, file.Content()[from..]), i) == Some(e)
    requires |WaveName(Stream(line, file.Content()[from..])[i..e])| < wave.Length
    modifies file`pos, wave
    ensures file.Valid() && file.pos == from + (if e < |line| then 0 else e + 1 - |line|)
    ensures var name := WaveName(Stream(line, file.Content()[from..])[i..e]);
            wave[..|name|] == name && wave[|name|] == 0
  {
    hide WaveSoFar, WaveRun, SkipToWave, Blank;
    ghost var b := file.Content();
    ghost var s := Stream(line, b[from..]);
    ghost var run := WaveRun(SkipToWave(s[i..e]));
    ghost var k := i;
    var inPos, state: nat, len: nat := inStart, 0, 0;
    WaveStart(s[i..e]);
    assert wave[..0] == [];
    while true
      invariant i <= k <= e && FindBreak(s, k) == Some(e) && file.Valid() && file.Content() == b
      invariant BuffersAt(inPos, file.pos, from, line, k) && len <= |run|
      invariant WaveSoFar(state, wave[..len], s[k..e], run)
      decreases e - k
    {
      var ch, next := NextChar(file, buffer, inPos, line, from, k);
      inPos := next;
      if ch == NL || ch == END_MARK { break; }
      assert s[k..e] == [ch] + s[k + 1..e];
      state, len := TakeWaveChar(wave, state, len, ch, s[k + 1..e], run);
      k := k + 1;
    }
    assert s[k..e] == [];
    WaveEnd(state, wave[..len], run);
    EndWave(wave, len, s[i..e]);
  }

  /** The quote opened by line is cut short by an end mark. */
  predicate CutShort(line: seq<Byte>, rest: seq<Byte>)
    requires Quoted(line)
  {
    FindCut(line[1..] + [NL] + rest, 0, false).Some?
  }

  /** What a quote that is cut short has read, and how much of the file it consumed. */
  function CutQuote(line: seq<Byte>, rest: seq<Byte>): (r: (seq<Byte>, nat))
    requires Quoted(line) && CutShort(line, rest)
    ensures r.1 <= |rest|
  {
    var s := line[1..] + [NL] + rest;
    var k := FindCut(s, 0, false).value;
    (Flatten(s[..k]), if k < |line| then 0 else k + 1 - |line|)
  }

  lemma {:induction false} CutIsNotQuote(s: seq<Byte>, i: nat, slash: bool)
    requires i <= |s|
    ensures FindCut(s, i, slash).Some? ==> FindQuote(s, i, slash).None?
    decreases |s| - i
  {
    if i < |s| { CutIsNotQuote(s, i + 1, s[i] == BACKSLASH && !slash); }
  }

  lemma QuoteIsWhole(line: seq<Byte>, rest: seq<Byte>)
    requires Quoted(line) && ReadQuote(line, rest).Some?
    ensures !CutShort(line, rest)
  {
    CutIsNotQuote(line[1..] + [NL] + rest, 0, false);
  }

  /**
   * GameTextManager::readToEndOfQuote, for a quote that fits and either closes or is cut short by an end
   * mark. When it is cut short, the text read so far has no terminator and the wave name stays as it was.
   */
  method ReadToEndOfQuote(file: File, buffer: array<Byte>, out: array<Byte>, wave: array<Byte>, maxBufLen: nat,
                          ghost line: seq<Byte>)
    requires file.Valid() && file.data != null && buffer != file.data && out != file.data && wave != file.data
    requires out != buffer && wave != buffer && wave != out && Quoted(line) && Has(buffer[..], line + [NL])
    requires var rest := file.Content()[file.pos..];
             if CutShort(line, rest) then |CutQuote(line, rest).0| < maxBufLen && |CutQuote(line, rest).0| < out.Length
             else
               var q := ReadQuote(line, rest);
               q.Some? && |q.value.body| < maxBufLen && |q.value.body| < out.Length && |q.value.wave| < wave.Length
    modifies file`pos, out, wave
    ensures file.Valid()
    ensures var rest := file.Content()[old(file.pos)..];
            if CutShort(line, rest) then
              var (body, consumed) := CutQuote(line, rest);
              && file.pos == old(file.pos) + consumed && wave[..] == old(wave[..])
              && out[..|body|] == body && out[|body|..] == old(out[..])[|body|..]
            else
              var q := ReadQuote(line, rest).value;
              && file.pos == old(file.pos) + q.consumed
              && out[..|q.body|] == q.body && out[|q.body|] == 0
              && wave[..|q.wave|] == q.wave && wave[|q.wave|] == 0
  {
    hide WaveName, Flatten, BuffersAt, FindCut, FindQuote;
    ghost var from, rest := file.pos, file.Content()[file.pos..];
    ghost var s := Stream(line, rest);
    CutIsNotQuote(s, 0, false);
    ghost var isCut := CutShort(line, rest);
    ghost var q := if isCut then FindCut(s, 0, false).value else FindQuote(s, 0, false).value;
    FlattenLength(s[..q]);
    var inPos, cut := ReadBody(file, buffer, out, maxBufLen, line, q, isCut);
    if cut {
      CursorIs(inPos, file.pos, from, line, q + 1);
      return;
    }
    ghost var e := FindBreak(s, q + 1).value;
    ReadWave(file, buffer, inPos, wave, line, from, q + 1, e);
  }

  lemma CursorIs(inPos: int, filePos: nat, from: nat, line: seq<Byte>, i: nat)
    requires line != [] && BuffersAt(inPos, filePos, from, line, i)
    ensures filePos == from + if i <= |line| then 0 else i - |line|
  {
  }

  lemma FlattenLength(s: seq<Byte>)
    ensures |Flatten(s)| == |s|
  {
  }

  // ---------------------------------------------------------------------------------------
  // Translation
  // ---------------------------------------------------------------------------------------

  /** What is still to be written: slash says that a backslash was just read. */
  ghost function ToTranslate(slash: bool, s: seq<Byte>): seq<Wide> {
    if slash then Translate([BACKSLASH] + s) else Translate(s)
  }

  lemma TranslateStep(slash: bool, s: seq<Byte>)
    ensures s == [] ==> ToTranslate(slash, s) == []
    ensures s != [] && slash ==>
              ToTranslate(slash, s)
              == [if s[0] == 116 then TAB else if s[0] == 110 then NEWLINE else s[0] as Wide] + ToTranslate(false, s[1..])
    ensures s != [] && !slash && s[0] != BACKSLASH ==> ToTranslate(slash, s) == [s[0] as Wide] + ToTranslate(false, s[1..])
    ensures s != [] && !slash && s[0] == BACKSLASH ==> ToTranslate(slash, s) == ToTranslate(true, s[1..])
  {
    if s != [] {
      assert ([BACKSLASH] + s)[2..] == s[1..];
      if s[0] == BACKSLASH { assert [BACKSLASH] + s[1..] == s; }
    }
  }

  /** GameTextManager::translateCopy without its joke modes. */
  method TranslateCopy(outbuf: array<Wide>, inbuf: array<Byte>, ghost s: seq<Byte>)
    requires Has(inbuf[..], s) && |Translate(s)| < outbuf.Length
    modifies outbuf
    ensures outbuf[..|Translate(s)|] == Translate(s) && outbuf[|Translate(s)|] == 0
  {
    hide ToTranslate, Translate;
    HasChars(inbuf[..], s);
    assert forall k | 0 <= k <= |s| :: inbuf[k] == inbuf[..][k];
    var slash, i, n := false, 0, 0;
    assert s[0..] == s && outbuf[..0] == [];
    TranslateStart(s);
    while inbuf[i] != 0
      invariant 0 <= i <= |s| && 0 <= n <= |Translate(s)|
      invariant outbuf[..n] + ToTranslate(slash, s[i..]) == Translate(s)
      decreases |s| - i
    {
      TranslateStep(slash, s[i..]);
      assert s[i..][1..] == s[i + 1..];
      ghost var was, rest := outbuf[..n], ToTranslate(false, s[i + 1..]);
      if slash {
        slash := false;
        outbuf[n] := if inbuf[i] == 116 then TAB else if inbuf[i] == 110 then NEWLINE else inbuf[i];
        TakeNext(was, outbuf[..n + 1], rest, Translate(s));
        n := n + 1;
      } else if inbuf[i] != BACKSLASH {
        outbuf[n] := inbuf[i];
        TakeNext(was, outbuf[..n + 1], rest, Translate(s));
        n := n + 1;
      } else {
        slash := true;
      }
      i := i + 1;
    }
    TranslateStep(slash, s[i..]);
    outbuf[n] := 0;
  }

  lemma TakeNext(was: seq<Wide>, now: seq<Wide>, rest: seq<Wide>, all: seq<Wide>)
    requires |now| == |was| + 1 && now[..|was|] == was && was + ([now[|was|]] + rest) == all
    ensures now + rest == all && |now| <= |all|
  {
    assert now == was + [now[|was|]];
  }

  lemma TranslateStart(s: seq<Byte>)
    ensures ToTranslate(false, s) == Translate(s)
  {
  }

  // ---------------------------------------------------------------------------------------
  // The two passes
  // ---------------------------------------------------------------------------------------

  /** MAX_UITEXT_LENGTH. */
  const MAX_TEXT := 10240

  /** The line at pos fits m_buffer, and a quote it opens fits m_buffer2 and m_buffer3. */
  ghost predicate ItemFits(b: seq<Byte>, pos: nat)
    requires pos < |b| && NextItem(b, pos).Some?
  {
    && LineStop(b, pos) - pos < MAX_TEXT - 1
    && (Quoted(LineAt(b, pos)) ==>
          var q := ReadQuote(LineAt(b, pos), b[After(b, pos)..]).value;
          |q.body| < MAX_TEXT && |q.wave| < MAX_TEXT)
  }

  /** No line or quote from pos on is longer than the buffers. */
  ghost predicate Fits(b: seq<Byte>, pos: nat)
    requires pos <= |b| && Countable(b, pos)
    decreases |b| - pos
  {
    pos == |b| || (ItemFits(b, pos) && Fits(b, NextItem(b, pos).value))
  }

  /** The same for the lines and quotes that the parsing pass reads. */
  ghost predicate ParseItemFits(b: seq<Byte>, pos: nat, phase: Phase)
    requires pos < |b| && ParseNext(b, pos, phase).Some?
  {
    && LineStop(b, pos) - pos < MAX_TEXT - 1
    && (phase == Body && Quoted(LineAt(b, pos)) ==>
          var q := ReadQuote(LineAt(b, pos), b[After(b, pos)..]).value;
          |q.body| < MAX_TEXT && |q.wave| < MAX_TEXT)
  }

  ghost predicate ParseFits(b: seq<Byte>, pos: nat, phase: Phase)
    requires pos <= |b| && Parsable(b, pos, phase)
    decreases |b| - pos
  {
    pos == |b| || (ParseItemFits(b, pos, phase) && ParseFits(b, ParseNext(b, pos, phase).value, PhaseNext(b, pos, phase)))
  }

  /**
   * The table that getStringCount sizes is large enough when both passes read the same lines: the
   * parser needs no more entries than the counting pass found, and one more for an unfinished label.
   */
  lemma CountedTableIsLargeEnough(b: seq<Byte>)
    requires Countable(b, 0) && PlainLabels(b, 0, Label) && Fits(b, 0)
    ensures Parsable(b, 0, Label) && ParseFits(b, 0, Label) && Slots(b, 0, Label) <= CountEnds(b, 0) + 1
  {
    hide ParseFrom, Slots;
    PassesAgree(b, 0, Label);
    FitsBoth(b, 0, Label);
    TableFits(b, 0, Label, NO_ENTRY, false);
    SlotsOfTable(b, 0, Label, NO_ENTRY, false);
  }

  lemma {:induction false} FitsBoth(b: seq<Byte>, pos: nat, phase: Phase)
    requires pos <= |b| && Countable(b, pos) && Parsable(b, pos, phase) && PlainLabels(b, pos, phase) && Fits(b, pos)
    ensures ParseFits(b, pos, phase)
    decreases |b| - pos
  {
    hide LineAt, After, ReadQuote;
    if pos < |b| { FitsBoth(b, NextItem(b, pos).value, PhaseNext(b, pos, phase)); }
  }

  lemma CountStep(b: seq<Byte>, pos: nat)
    requires pos < |b| && Countable(b, pos) && Fits(b, pos)
    ensures NextItem(b, pos).Some? && Countable(b, NextItem(b, pos).value) && Fits(b, NextItem(b, pos).value)
    ensures ItemFits(b, pos)
    ensures CountEnds(b, pos) == (if IsEnd(LineAt(b, pos)) then 1 else 0) + CountEnds(b, NextItem(b, pos).value)
  {
  }

  lemma LineIsShort(b: seq<Byte>, pos: nat)
    requires pos <= |b|
    ensures |LineAt(b, pos)| <= LineStop(b, pos) - pos
  {
    CsfParser.CStringIsPrefix(b[pos..LineStop(b, pos)], 0);
  }

  lemma RawLine(buffer: seq<Byte>, raw: seq<Byte>)
    requires |raw| < |buffer| && buffer[..|raw|] == raw && buffer[|raw|] == 0
    ensures Has(buffer, CString(raw, 0))
  {
    CsfParser.CStringIsPrefix(raw, 0);
    var s := CString(raw, 0);
    assert buffer[..|s|] == buffer[..|raw|][..|s|];
    if |s| < |raw| { assert buffer[|s|] == buffer[..|raw|][|s|]; }
  }

  lemma TextOf(buffer: seq<Byte>, s: seq<Byte>)
    requires Has(buffer, s)
    ensures CString(buffer, 0) == s
  {
    CsfParser.CStringAt(buffer, 0, |s|);
  }

  class TextFileReader {
    /** m_buffer, m_buffer2, m_buffer3 and m_tbuffer. */
    const buffer: array<Byte>
    const buffer2: array<Byte>
    const buffer3: array<Byte>
    const tbuffer: array<Wide>

    constructor ()
      ensures Sized() && fresh(buffer) && fresh(buffer2) && fresh(buffer3) && fresh(tbuffer)
    {
      buffer := new Byte[MAX_TEXT](i => 0);
      buffer2 := new Byte[MAX_TEXT](i => 0);
      buffer3 := new Byte[MAX_TEXT](i => 0);
      tbuffer := new Wide[2 * MAX_TEXT](i => 0);
    }

    ghost predicate Sized() {
      && buffer.Length == buffer2.Length == buffer3.Length == MAX_TEXT && tbuffer.Length == 2 * MAX_TEXT
      && buffer != buffer2 && buffer != buffer3 && buffer2 != buffer3
    }

    ghost predicate Apart(file: File)
      reads file, file.data
    {
      file.Valid() && file.data != null && buffer != file.data && buffer2 != file.data && buffer3 != file.data
    }

    /** readLine and removeLeadingAndTrailing on m_buffer. */
    method NextLine(file: File, max: nat) returns (ok: bool)
      requires Sized() && Apart(file)
      requires var len := LineStop(file.Content(), file.pos) - file.pos; len < max && len < MAX_TEXT - 1
      modifies file`pos, buffer
      ensures Apart(file) && file.pos == After(file.Content(), old(file.pos))
      ensures ok <==> old(file.pos) < |file.Content()|
      ensures Has(buffer[..], LineAt(file.Content(), old(file.pos)))
    {
      hide Has, After, LineStop, Trim, CString;
      ghost var b, start := file.Content(), file.pos;
      ok := ReadLine(file, buffer, max);
      ghost var raw := b[start..LineStop(b, start)];
      assert buffer[..][..|raw|] == raw;
      RawLine(buffer[..], raw);
      RemoveLeadingAndTrailing(buffer, CString(raw, 0));
    }

    /** Puts the newline back and reads the quote that m_buffer opens. */
    method NextQuote(file: File, ghost line: seq<Byte>)
      requires Sized() && Apart(file) && Quoted(line) && Has(buffer[..], line) && |line| < MAX_TEXT - 1
      requires var q := ReadQuote(line, file.Content()[file.pos..]);
               q.Some? && |q.value.body| < MAX_TEXT && |q.value.wave| < MAX_TEXT
      modifies file`pos, buffer, buffer2, buffer3
      ensures Apart(file)
      ensures var q := ReadQuote(line, file.Content()[old(file.pos)..]).value;
              && file.pos == old(file.pos) + q.consumed
              && Has(buffer2[..], CString(q.body, 0)) && Has(buffer3[..], CString(q.wave, 0))
    {
      hide ReadQuote, CString, CutShort;
      var len := StrLen(buffer, line);
      buffer[len] := NL;
      buffer[len + 1] := 0;
      assert buffer[..len + 1] == line + [NL];
      ghost var q := ReadQuote(line, file.Content()[file.pos..]).value;
      QuoteIsWhole(line, file.Content()[file.pos..]);
      ReadToEndOfQuote(file, buffer, buffer2, buffer3, MAX_TEXT, line);
      RawLine(buffer2[..], q.body);
      RawLine(buffer3[..], q.wave);
    }

    /** GameTextManager::getStringCount, on a file of closed quotes. */
    method GetStringCount(content: seq<Byte>) returns (count: nat)
      requires Sized() && Countable(content, 0) && Fits(content, 0)
      modifies buffer, buffer2, buffer3
      ensures count == CountEnds(content, 0) + SPARE
    {
      hide Countable, CountEnds, Fits, LineAt, After, ReadQuote, Has, CString, LineStop;
      var file := new File(content);
      count := 0;
      while true
        invariant fresh(file) && Apart(file) && fresh(file.data) && file.Content() == content
        invariant Countable(content, file.pos) && Fits(content, file.pos)
        invariant count + CountEnds(content, file.pos) == CountEnds(content, 0)
        decreases |content| - file.pos
      {
        ghost var start := file.pos;
        LineIsShort(content, start);
        CountLast(content, start);
        if start < |content| { CountStep(content, start); }
        var ok := NextLine(file, MAX_TEXT - 1);
        if !ok { break; }
        ghost var line := LineAt(content, start);
        LineChars(buffer[..], line);
        if buffer[0] == QUOTE {
          NextQuote(file, line);
        } else if FoldBytes(CString(buffer[..], 0)) == [101, 110, 100] {
          count := count + 1;
        }
      }
      count := count + SPARE;
    }

    /** The quote branch of parseStringFile: the text and wave of the label's first string. */
    method ReadString(file: File, ghost line: seq<Byte>, info: array<Entry>, k: nat, read: bool)
      requires Sized() && Apart(file) && Quoted(line) && Has(buffer[..], line) && |line| < MAX_TEXT - 1
      requires var q := ReadQuote(line, file.Content()[file.pos..]);
               q.Some? && |q.value.body| < MAX_TEXT && |q.value.wave| < MAX_TEXT
      requires k < info.Length
      modifies file`pos, buffer, buffer2, buffer3, tbuffer, info
      ensures Apart(file)
      ensures var q := ReadQuote(line, file.Content()[old(file.pos)..]).value;
              && file.pos == old(file.pos) + q.consumed
              && info[..] == old(info[..])[k := TakeQuote(old(info[k]), read, q)]
    {
      hide ReadQuote, CString, Has, Translate, Strip, Holds;
      ghost var rest := file.Content()[file.pos..];
      ghost var q := ReadQuote(line, rest).value;
      NextQuote(file, line);
      if !read {
        ghost var body := CString(q.body, 0);
        CsfParser.CStringIsPrefix(q.body, 0);
        TranslateLength(body);
        TranslateCopy(tbuffer, buffer2, body);
        TranslatedText(tbuffer[..], Translate(body));
        StripInPlace(tbuffer, CString(Translate(body), 0));
        TextOfWide(tbuffer[..], Strip(CString(Translate(body), 0)));
        ReadQuoteWave(line, rest);
        TextOf(buffer3[..], q.wave);
        info[k] := info[k].(text := CString(tbuffer[..], 0), speech := CString(buffer3[..], 0));
      }
    }

    /** The inner loop of parseStringFile: the lines of a label up to its END, into info[k]. */
    method ParseBody(file: File, info: array<Entry>, k: nat,
                     ghost room: nat, ghost done: seq<Entry>, ghost total: FileTable)
      returns (ok: bool, ghost read: bool)
      requires Sized() && Apart(file) && k < info.Length && info[k].text == [] && info[k].speech == []
      requires Ready(file.Content(), file.pos, Body, room)
      requires Remaining(file.Content(), file.pos, Body, info[k], false, done, total)
      modifies file`pos, buffer, buffer2, buffer3, tbuffer, info
      ensures Apart(file) && file.pos >= old(file.pos)
      ensures info[..] == old(info[..])[k := info[k]]
      ensures ok ==> room >= 1 && Ready(file.Content(), file.pos, Label, room - 1)
                     && Remaining(file.Content(), file.pos, Label, info[k], read, done + [info[k]], total)
      ensures !ok ==> total == FileTable(false, done)
    {
      hide Ready, Remaining, LineAt, After, ReadQuote, Has, CString, LineStop, TakeQuote, NextItem, ParseNext;
      ghost var b, from := file.Content(), file.pos;
      var readString := false;
      while true
        invariant Apart(file) && file.Content() == b && from <= file.pos <= |b|
        invariant info[..] == old(info[..])[k := info[k]]
        invariant Ready(b, file.pos, Body, room) && Remaining(b, file.pos, Body, info[k], readString, done, total)
        decreases |b| - file.pos
      {
        ghost var pos := file.pos;
        LineTurn(b, pos, Body, info[k], readString, done, total, room);
        TheEnd(b, pos, Body, info[k], readString, done, total);
        LineIsShort(b, pos);
        ok := NextLine(file, MAX_TEXT - 1);
        if !ok { return false, false; }
        ghost var line := LineAt(b, pos);
        LineChars(buffer[..], line);
        if buffer[0] == QUOTE {
          ReadString(file, line, info, k, readString);
          readString := true;
        } else if FoldBytes(CString(buffer[..], 0)) == [101, 110, 100] {
          return true, readString;
        }
      }
    }

    /** GameTextManager::parseStringFile into a table that is large enough, as CountedTableIsLargeEnough says it is. */
    method ParseStringFile(content: seq<Byte>, info: array<Entry>) returns (ok: bool)
      requires Sized() && Parsable(content, 0, Label) && ParseFits(content, 0, Label)
      requires Slots(content, 0, Label) <= info.Length
      requires forall i | 0 <= i < info.Length :: info[i] == NO_ENTRY
      modifies buffer, buffer2, buffer3, tbuffer, info
      ensures var table := ParseFrom(content, 0, Label, NO_ENTRY, false);
              && ok == table.ok
              && |table.entries| <= info.Length && info[..|table.entries|] == table.entries
              && forall i | |table.entries| + (if ok then 0 else 1) <= i < info.Length :: info[i] == NO_ENTRY
    {
      hide Ready, Remaining, LineAt, After, ReadQuote, Has, CString, LineStop, TakeQuote, NextItem, ParseNext, Parsable,
           ParseFits, Slots, ParseFrom;
      var file := new File(content);
      var listCount := 0;
      ghost var all := info.Length;
      Started(content, all);
      ghost var total := ParseFrom(content, 0, Label, NO_ENTRY, false);
      ghost var current, read := NO_ENTRY, false;
      assert info[..0] == [];
      while true
        invariant fresh(file) && Apart(file) && fresh(file.data) && file.Content() == content
        invariant 0 <= listCount <= all && file.pos <= |content|
        invariant Ready(content, file.pos, Label, all - listCount)
        invariant Remaining(content, file.pos, Label, current, read, info[..listCount], total)
        invariant forall i | listCount <= i < info.Length :: info[i] == NO_ENTRY
        decreases |content| - file.pos
      {
        ghost var pos, done, room := file.pos, info[..listCount], all - listCount;
        LineTurn(content, pos, Label, current, read, done, total, room);
        TheEnd(content, pos, Label, current, read, done, total);
        LineIsShort(content, pos);
        ok := NextLine(file, MAX_TEXT);
        if !ok { break; }
        LineChars(buffer[..], LineAt(content, pos));
        if !((buffer[0] == SLASH && buffer[1] == SLASH) || buffer[0] == 0) {
          info[listCount] := info[listCount].(name := CString(buffer[..], 0));
          assert info[..listCount] == done;
          ok, read := ParseBody(file, info, listCount, room, done, total);
          assert info[..listCount] == done;
          if !ok { return; }
          current := info[listCount];
          assert info[..listCount + 1] == done + [current];
          listCount := listCount + 1;
        }
      }
      ok := true;
    }

    /** The string file branch of GameTextManager::init: counts, makes a table of that size, and parses into it. */
    method Load(content: seq<Byte>) returns (ok: bool, info: array<Entry>)
      requires Sized() && Countable(content, 0) && Fits(content, 0)
      requires PlainLabels(content, 0, Label) || RoomToParse(content)
      modifies buffer, buffer2, buffer3, tbuffer
      ensures fresh(info) && info.Length == CountEnds(content, 0) + SPARE
      ensures Parsable(content, 0, Label)
      ensures var table := ParseFrom(content, 0, Label, NO_ENTRY, false);
              && ok == table.ok
              && |table.entries| <= info.Length && info[..|table.entries|] == table.entries
              && forall i | |table.entries| + (if ok then 0 else 1) <= i < info.Length :: info[i] == NO_ENTRY
    {
      hide *;
      PlainHasRoom(content);
      var count := GetStringCount(content);
      info := new Entry[count](i => NO_ENTRY);
      RoomIs(content);
      ok := ParseStringFile(content, info);
    }
  }

  /** The parsing pass gets through the file and needs no more entries than the counting pass provides. */
  ghost predicate RoomToParse(b: seq<Byte>)
    requires Countable(b, 0)
  {
    Parsable(b, 0, Label) && ParseFits(b, 0, Label) && Slots(b, 0, Label) <= CountEnds(b, 0) + SPARE
  }

  lemma RoomIs(b: seq<Byte>)
    requires Countable(b, 0) && RoomToParse(b)
    ensures Parsable(b, 0, Label) && ParseFits(b, 0, Label) && Slots(b, 0, Label) <= CountEnds(b, 0) + SPARE
  {
  }

  lemma PlainHasRoom(b: seq<Byte>)
    requires Countable(b, 0) && Fits(b, 0)
    ensures PlainLabels(b, 0, Label) ==> RoomToParse(b)
  {
    hide Countable, PlainLabels, Fits, CountEnds, Slots, Parsable, ParseFits;
    if PlainLabels(b, 0, Label) { CountedTableIsLargeEnough(b); }
  }

  /** What the parsing pass relies on at pos, with room for that many more entries. */
  ghost predicate Ready(b: seq<Byte>, pos: nat, phase: Phase, room: nat) {
    pos <= |b| && Parsable(b, pos, phase) && ParseFits(b, pos, phase) && Slots(b, pos, phase) <= room
  }

  /** The table is the entries done and what is still to be parsed. */
  ghost predicate Remaining(b: seq<Byte>, pos: nat, phase: Phase, current: Entry, read: bool,
                            done: seq<Entry>, total: FileTable)
  {
    && pos <= |b| && Parsable(b, pos, phase)
    && var rest := ParseFrom(b, pos, phase, current, read);
    total == FileTable(rest.ok, done + rest.entries)
  }

  lemma Started(b: seq<Byte>, room: nat)
    requires Parsable(b, 0, Label) && ParseFits(b, 0, Label) && Slots(b, 0, Label) <= room
    ensures Ready(b, 0, Label, room)
    ensures Remaining(b, 0, Label, NO_ENTRY, false, [], ParseFrom(b, 0, Label, NO_ENTRY, false))
  {
    hide ParseFrom;
    var t := ParseFrom(b, 0, Label, NO_ENTRY, false);
    assert [] + t.entries == t.entries;
  }

  lemma TheEnd(b: seq<Byte>, pos: nat, phase: Phase, current: Entry, read: bool, done: seq<Entry>, total: FileTable)
    requires Remaining(b, pos, phase, current, read, done, total)
    ensures pos == |b| ==> total == FileTable(phase == Label, done) && LineStop(b, pos) == pos
  {
    if pos == |b| { assert done + [] == done; }
  }

  /** One line of the parsing pass keeps Ready and Remaining. */
  lemma LineTurn(b: seq<Byte>, pos: nat, phase: Phase, current: Entry, read: bool,
             done: seq<Entry>, total: FileTable, room: nat)
    requires Ready(b, pos, phase, room) && Remaining(b, pos, phase, current, read, done, total)
    ensures pos < |b| ==>
              && ParseNext(b, pos, phase).Some? && ParseItemFits(b, pos, phase)
              && var line, next := LineAt(b, pos), ParseNext(b, pos, phase).value;
              && (phase == Label || !Quoted(line) ==> next == After(b, pos))
              && (phase == Body && Quoted(line) ==>
                    && ReadQuote(line, b[After(b, pos)..]).Some?
                    && next == After(b, pos) + ReadQuote(line, b[After(b, pos)..]).value.consumed)
              && Follows(b, pos, phase, line, next, current, read, done, total, room)
  {
    hide LineAt, After, ReadQuote, TakeQuote, LineStop;
    if pos < |b| {
      assert ParseNext(b, pos, phase).Some? && ParseItemFits(b, pos, phase);
      Follow(b, pos, phase, current, read, done, total, room);
    }
  }

  ghost predicate Follows(b: seq<Byte>, pos: nat, phase: Phase, line: seq<Byte>, next: nat, current: Entry, read: bool,
                          done: seq<Entry>, total: FileTable, room: nat)
    requires pos < |b| && (phase == Body && Quoted(line) ==> ReadQuote(line, b[After(b, pos)..]).Some?)
  {
    if phase == Label then
      if Skipped(line) then
        Ready(b, next, Label, room) && Remaining(b, next, Label, current, read, done, total)
      else
        room >= 1 && Ready(b, next, Body, room) && Remaining(b, next, Body, Entry(line, [], []), false, done, total)
    else if Quoted(line) then
      && Ready(b, next, Body, room)
      && Remaining(b, next, Body, TakeQuote(current, read, ReadQuote(line, b[After(b, pos)..]).value), true, done, total)
    else if IsEnd(line) then
      && room >= 1 && Ready(b, next, Label, room - 1)
      && Remaining(b, next, Label, current, read, done + [current], total)
    else
      Ready(b, next, Body, room) && Remaining(b, next, Body, current, read, done, total)
  }

  lemma Follow(b: seq<Byte>, pos: nat, phase: Phase, current: Entry, read: bool,
               done: seq<Entry>, total: FileTable, room: nat)
    requires Ready(b, pos, phase, room) && Remaining(b, pos, phase, current, read, done, total) && pos < |b|
    requires ParseNext(b, pos, phase).Some?
    requires phase == Body && Quoted(LineAt(b, pos)) ==> ReadQuote(LineAt(b, pos), b[After(b, pos)..]).Some?
    ensures Follows(b, pos, phase, LineAt(b, pos), ParseNext(b, pos, phase).value, current, read, done, total, room)
  {
    hide LineAt, After, ReadQuote, TakeQuote, LineStop, ParseItemFits;
    var line, next := LineAt(b, pos), ParseNext(b, pos, phase).value;
    assert Ready(b, next, PhaseNext(b, pos, phase), room);
    assert phase == Body && IsEnd(line) ==> room >= 1 && Ready(b, next, PhaseNext(b, pos, phase), room - 1);
    if phase == Body && !Quoted(line) && IsEnd(line) {
      var rest := ParseFrom(b, next, Label, current, read);
      assert done + ([current] + rest.entries) == (done + [current]) + rest.entries;
    }
  }

  lemma {:induction false} TranslateLength(s: seq<Byte>)
    ensures |Translate(s)| <= |s|
  {
    if |s| >= 2 && s[0] == BACKSLASH { TranslateLength(s[2..]); } else if s != [] { TranslateLength(s[1..]); }
  }

  lemma TranslatedText(buffer: seq<Wide>, s: seq<Wide>)
    requires |s| < |buffer| && buffer[..|s|] == s && buffer[|s|] == 0
    ensures Holds(buffer, CString(s, 0))
  {
    CsfParser.CStringIsPrefix(s, 0);
    var t := CString(s, 0);
    assert buffer[..|t|] == buffer[..|s|][..|t|];
    if |t| < |s| { assert buffer[|t|] == buffer[..|s|][|t|]; }
  }

  lemma TextOfWide(buffer: seq<Wide>, s: seq<Wide>)
    requires Holds(buffer, s)
    ensures CString(buffer, 0) == s
  {
    CsfParser.CStringAt(buffer, 0, |s|);
  }

  lemma {:induction false} WaveRunHasNoZero(s: seq<Byte>)
    ensures 0 !in WaveRun(s)
  {
    if s != [] { WaveRunHasNoZero(s[1..]); }
  }

  /** The wave name that a quote reads is a C string. */
  lemma ReadQuoteWave(line: seq<Byte>, rest: seq<Byte>)
    requires Quoted(line) && ReadQuote(line, rest).Some?
    ensures var wave := ReadQuote(line, rest).value.wave; CString(wave, 0) == wave
  {
    var s := line[1..] + [NL] + rest;
    var q := FindQuote(s, 0, false).value;
    var e := FindBreak(s, q + 1).value;
    WaveRunHasNoZero(SkipToWave(s[q + 1..e]));
    CsfParser.CStringAt(ReadQuote(line, rest).value.wave, 0, |ReadQuote(line, rest).value.wave|);
  }

  /** strlen */
  method StrLen(buffer: array<Byte>, ghost s: seq<Byte>) returns (len: nat)
    requires Has(buffer[..], s)
    ensures len == |s|
  {
    HasChars(buffer[..], s);
    assert forall k | 0 <= k <= |s| :: buffer[k] == buffer[..][k];
    len := 0;
    while buffer[len] != 0
      invariant len <= |s|
      decreases |s| - len
    {
      len := len + 1;
    }
  }

  lemma CountLast(b: seq<Byte>, pos: nat)
    requires pos <= |b| && Countable(b, pos)
    ensures pos == |b| ==> CountEnds(b, pos) == 0 && LineStop(b, pos) == pos
  {
  }

  /** The tests the passes make on m_buffer are the tests on the line. */
  lemma LineChars(buffer: seq<Byte>, line: seq<Byte>)
    requires Has(buffer, line) && |buffer| >= 2
    ensures CString(buffer, 0) == line
    ensures buffer[0] == QUOTE <==> Quoted(line)
    ensures buffer[0] == 0 <==> line == []
    ensures buffer[0] == SLASH && buffer[1] == SLASH <==> Comment(line)
  {
    TextOf(buffer, line);
    HasChars(buffer, line);
  }
}
