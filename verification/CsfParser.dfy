/** GameTextManager::parseCSF (Core/Tools/Autorun/GameText.cpp) over a RAMFile and the manager's buffers. */
module CsfParser {
  import opened RamFile
  import opened StripSpaces
  import opened CsfFormat

  /** file.read(&v, sizeof(Int)); v means something only after a full read. */
  method ReadInt(file: File) returns (n: int, v: int)
    requires file.Valid() && file.data != null
    modifies file`pos
    ensures file.Valid() && n == |Chunk(file.Content(), old(file.pos), 4)| && file.pos == old(file.pos) + n
    ensures n == 4 ==> v == IntAt(file.Content(), old(file.pos))
  {
    var word := new Byte[4];
    n := file.Read(word, 4);
    v := 0;
    if n == 4 {
      assert word[..] == word[..4];
      v := Int32(word[..]);
    }
  }

  /** Reads len bytes into buffer and ends them with a zero. */
  method ReadBytes(file: File, buffer: array<Byte>, len: nat)
    requires file.Valid() && file.data != null && buffer != file.data
    requires len < buffer.Length && file.pos + len <= |file.Content()|
    modifies file`pos, buffer
    ensures file.Valid() && file.pos == old(file.pos) + len
    ensures buffer[..len] == file.Content()[old(file.pos)..file.pos] && buffer[len] == 0
  {
    if len != 0 {
      var n := file.Read(buffer, len);
    }
    buffer[len] := 0;
  }

  lemma WidesShift(b: seq<Byte>, pos: nat, n: nat)
    requires pos + 2 * n <= |b|
    ensures WidesAt(b[pos..pos + 2 * n], 0, n) == WidesAt(b, pos, n)
  {
    hide Wide16;
  }

  /** The bytes of a wide buffer, taken as characters. */
  method TakeWides(bytes: array<Byte>, buffer: array<Wide>, len: nat)
    requires bytes.Length == 2 * len && len <= buffer.Length
    modifies buffer
    ensures buffer[..len] == WidesAt(bytes[..], 0, len)
  {
    hide Wide16;
    forall i | 0 <= i < len {
      buffer[i] := Wide16(bytes[2 * i], bytes[2 * i + 1]);
    }
  }

  /** Reads len wide characters into the wide buffer, through its bytes. */
  method ReadWides(file: File, buffer: array<Wide>, len: nat)
    requires file.Valid() && file.data != null
    requires len <= buffer.Length && file.pos + 2 * len <= |file.Content()|
    modifies file`pos, buffer
    ensures file.Valid() && file.pos == old(file.pos) + 2 * len
    ensures buffer[..len] == WidesAt(file.Content(), old(file.pos), len)
  {
    if len != 0 {
      hide WidesAt;
      var bytes := new Byte[2 * len];
      var n := file.Read(bytes, 2 * len);
      assert bytes[..] == bytes[..2 * len];
      TakeWides(bytes, buffer, len);
      WidesShift(file.Content(), old(file.pos), len);
    }
  }

  lemma {:induction false} CStringOf<T>(s: seq<T>, zero: T, n: nat)
    requires n < |s| && s[n] == zero
    ensures CString(s[..n], zero) == CString(s, zero)
    decreases n
  {
    if n > 0 && s[0] != zero {
      assert s[..n][1..] == s[1..][..n - 1];
      CStringOf(s[1..], zero, n - 1);
    }
  }

  lemma {:induction false} CStringIsPrefix<T>(s: seq<T>, zero: T)
    ensures |CString(s, zero)| <= |s| && CString(s, zero) == s[..|CString(s, zero)|] && zero !in CString(s, zero)
    ensures |CString(s, zero)| < |s| ==> s[|CString(s, zero)|] == zero
  {
    if s != [] && s[0] != zero { CStringIsPrefix(s[1..], zero); }
  }

  lemma {:induction false} CStringAt<T>(s: seq<T>, zero: T, k: nat)
    requires k <= |s| && zero !in s[..k] && (k < |s| ==> s[k] == zero)
    ensures CString(s, zero) == s[..k]
    decreases k
  {
    if k > 0 {
      assert s[0] == s[..k][0];
      assert s[1..][..k - 1] == s[..k][1..];
      CStringAt(s[1..], zero, k - 1);
    }
  }

  /** The loop that flips the characters of a zero-terminated text in place. */
  method FlipText(buffer: array<Wide>, ghost raw: seq<Wide>)
    requires |raw| < buffer.Length && buffer[..|raw|] == raw && buffer[|raw|] == 0
    modifies buffer
    ensures Holds(buffer[..], CString(FlipAll(CString(raw, 0)), 0))
  {
    ghost var text := CString(raw, 0);
    CStringIsPrefix(raw, 0);
    assert forall k | 0 <= k < |text| :: buffer[k] == text[k];
    assert buffer[|text|] == 0;
    var ptr := 0;
    while buffer[ptr] != 0
      invariant 0 <= ptr <= |text|
      invariant forall k | 0 <= k < ptr :: buffer[k] == Flip(text[k])
      invariant forall k | ptr <= k < |text| :: buffer[k] == text[k] && buffer[k] != 0
      invariant buffer[|text|] == 0
      decreases |text| - ptr
    {
      buffer[ptr] := 0xFFFF - buffer[ptr];
      ptr := ptr + 1;
    }
    assert ptr == |text|;
    assert buffer[..|text|] == FlipAll(text);
    CStringIsPrefix(FlipAll(text), 0);
  }

  class GameTextManager {
    /** m_buffer and m_tbuffer. */
    const buffer: array<Byte>
    const tbuffer: array<Wide>

    constructor ()
      ensures buffer.Length == BUFFER && tbuffer.Length == WIDE_BUFFER && fresh(buffer) && fresh(tbuffer)
    {
      buffer := new Byte[BUFFER](i => 0);
      tbuffer := new Wide[WIDE_BUFFER](i => 0);
    }

    ghost predicate Sized() {
      buffer.Length == BUFFER && tbuffer.Length == WIDE_BUFFER
    }

    /** The text of a string chunk; it is decoded only when wanted. */
    method ReadText(file: File, len: nat, wanted: bool) returns (text: seq<Wide>)
      requires Sized() && file.Valid() && file.data != null
      requires len < WIDE_BUFFER && file.pos + 2 * len <= |file.Content()|
      modifies file`pos, tbuffer
      ensures file.Valid() && file.pos == old(file.pos) + 2 * len
      ensures wanted ==> text == Decode(WidesAt(file.Content(), old(file.pos), len))
    {
      hide Decode, Strip, WidesAt, CString, FlipAll;
      ghost var raw := WidesAt(file.Content(), file.pos, len);
      ReadWides(file, tbuffer, len);
      text := [];
      if wanted {
        tbuffer[len] := 0;
        assert tbuffer[..len] == raw;
        FlipText(tbuffer, raw);
        StripInPlace(tbuffer, CString(FlipAll(CString(raw, 0)), 0));
        text := CString(tbuffer[..], 0);
        DecodedBuffer(tbuffer[..], raw);
      }
    }

    /** A counted byte string, as the C string it is taken for. */
    method ReadCString(file: File, len: nat) returns (s: seq<Byte>)
      requires Sized() && file.Valid() && file.data != null && buffer != file.data
      requires len < BUFFER && file.pos + len <= |file.Content()|
      modifies file`pos, buffer
      ensures file.Valid() && file.pos == old(file.pos) + len
      ensures s == CString(file.Content()[old(file.pos)..file.pos], 0)
    {
      ReadBytes(file, buffer, len);
      CStringOf(buffer[..], 0, len);
      assert buffer[..][..len] == buffer[..len];
      s := CString(buffer[..], 0);
    }

    /** One turn of the inner loop: a string chunk. first says whether its text and wave are wanted. */
    method ReadString(file: File, first: bool) returns (ok: bool, text: seq<Wide>, speech: seq<Byte>)
      requires Sized() && file.Valid() && file.data != null && buffer != file.data
      requires ParseString(file.Content(), file.pos) != UncheckedString
      modifies file`pos, buffer, tbuffer
      ensures file.Valid()
      ensures var chunk := ParseString(file.Content(), old(file.pos));
              && (ok <==> chunk.StringChunk?)
              && (ok ==> file.pos == chunk.next)
              && (ok && first ==> text == chunk.text && speech == chunk.speech)
    {
      hide Decode, WidesAt, CString, IntAt;
      text, speech := [], [];
      var n, id := ReadInt(file);
      if id != CSF_STRING && id != CSF_STRING_WITH_WAVE { return false, text, speech; }
      var len;
      n, len := ReadInt(file);
      text := ReadText(file, len, first);
      if id == CSF_STRING_WITH_WAVE {
        n, len := ReadInt(file);
        speech := ReadCString(file, len);
      }
      ok := true;
    }

    /** The inner loop: the string chunks of a label, whose first one is put into info[k]. */
    method ReadStrings(file: File, info: array<Entry>, k: nat, count: int) returns (ok: bool)
      requires Sized() && file.Valid() && file.data != null && buffer != file.data
      requires k < info.Length && info[k].text == [] && info[k].speech == []
      requires ParseStrings(file.Content(), file.pos, 0, count, NO_STRING) != UncheckedString
      modifies file`pos, buffer, tbuffer, info
      ensures file.Valid()
      ensures var chunk := ParseStrings(file.Content(), old(file.pos), 0, count, NO_STRING);
              && (ok <==> chunk.StringChunk?)
              && (ok ==> file.pos == chunk.next)
              && (ok ==> info[..] == old(info[..])[k := old(info[k]).(text := chunk.text, speech := chunk.speech)])
    {
      hide ParseStrings, ParseString;
      ghost var b, start := file.Content(), file.pos;
      ghost var first := NO_STRING;
      var num := 0;
      while num < count
        invariant file.Valid() && file.data == old(file.data) && file.Content() == b && 0 <= num
        invariant first.StringChunk?
        invariant info[..] == old(info[..])[k := old(info[k]).(text := first.text, speech := first.speech)]
        invariant ParseStrings(b, start, 0, count, NO_STRING) == ParseStrings(b, file.pos, num, count, first)
      {
        var text, speech;
        ParseStringsStep(b, file.pos, num, count, first);
        ghost var chunk := ParseString(b, file.pos);
        ok, text, speech := ReadString(file, num == 0);
        if !ok { return; }
        if num == 0 {
          info[k] := info[k].(text := text, speech := speech);
          first := chunk;
        }
        num := num + 1;
      }
      ParseStringsStep(b, file.pos, num, count, first);
      ok := true;
    }

    /** The label chunk behind its id, filled into info[k]. */
    method ReadLabel(file: File, info: array<Entry>, k: nat) returns (ok: bool)
      requires Sized() && file.Valid() && file.data != null && buffer != file.data
      requires k < info.Length && info[k] == NO_ENTRY
      requires file.pos >= 4 && IntAt(file.Content(), file.pos - 4) == CSF_LABEL
      requires ParseLabel(file.Content(), file.pos - 4) != UncheckedLabel
      modifies file`pos, buffer, tbuffer, info
      ensures file.Valid()
      ensures var chunk := ParseLabel(file.Content(), old(file.pos) - 4);
              && (ok <==> chunk.LabelChunk?)
              && (ok ==> file.pos == chunk.next && info[..] == old(info[..])[k := chunk.entry])
    {
      hide IntAt, CString, ParseStrings;
      var n, count := ReadInt(file);
      var len;
      n, len := ReadInt(file);
      var name := ReadCString(file, len);
      info[k] := info[k].(name := name);
      ok := ReadStrings(file, info, k, count);
    }

    /** GameTextManager::parseCSF of a file with the given content into an empty table. */
    method ParseCsf(content: seq<Byte>, info: array<Entry>) returns (ok: bool)
      requires Sized() && forall i | 0 <= i < info.Length :: info[i] == NO_ENTRY
      requires CsfFormat.ParseCsf(content, info.Length) != Unchecked
      modifies buffer, tbuffer, info
      ensures var parsed := CsfFormat.ParseCsf(content, info.Length);
              && (ok <==> parsed.Table?)
              && (ok ==> |parsed.entries| <= info.Length && info[..|parsed.entries|] == parsed.entries
                         && forall i | |parsed.entries| <= i < info.Length :: info[i] == NO_ENTRY)
    {
      hide ParseLabel, ParseLabels, IntAt;
      var file := new File(content);
      var header := new Byte[HEADER_SIZE];
      var n := file.Read(header, HEADER_SIZE);
      if n != HEADER_SIZE { return false; }
      var listCount := 0;
      var id;
      ghost var all := ParseLabels(content, HEADER_SIZE, info.Length);
      while true
        invariant fresh(file) && file.Valid() && file.data != null && fresh(file.data) && file.Content() == content
        invariant HEADER_SIZE <= file.pos && listCount <= info.Length
        invariant forall i | listCount <= i < info.Length :: info[i] == NO_ENTRY
        invariant all == Prepend(info[..listCount], ParseLabels(content, file.pos, info.Length - listCount))
        decreases |content| - file.pos
      {
        ghost var done, start := info[..listCount], file.pos;
        ParseLabelsCases(content, start, info.Length - listCount);
        n, id := ReadInt(file);
        if n != 4 { break; }
        if id != CSF_LABEL { return false; }
        ok := ReadLabel(file, info, listCount);
        if !ok { return; }
        PrependJoin(done, [ParseLabel(content, start).entry], ParseLabels(content, file.pos, info.Length - listCount - 1));
        assert info[..listCount + 1] == done + [ParseLabel(content, start).entry];
        listCount := listCount + 1;
      }
      ok := true;
    }
  }

  /** ParseLabels, one label on. */
  lemma ParseLabelsCases(b: seq<Byte>, pos: nat, room: nat)
    requires pos <= |b|
    ensures pos + 4 > |b| ==> ParseLabels(b, pos, room) == Table([])
    ensures pos + 4 <= |b| && IntAt(b, pos) != CSF_LABEL ==> ParseLabels(b, pos, room) == Refused
    ensures pos + 4 <= |b| && IntAt(b, pos) == CSF_LABEL && room == 0 ==> ParseLabels(b, pos, room) == Unchecked
    ensures pos + 4 <= |b| && IntAt(b, pos) == CSF_LABEL && room > 0 ==>
              match ParseLabel(b, pos)
              case BadLabel => ParseLabels(b, pos, room) == Refused
              case UncheckedLabel => ParseLabels(b, pos, room) == Unchecked
              case LabelChunk(next, entry) =>
                ParseLabels(b, pos, room) == Prepend([entry], ParseLabels(b, next, room - 1))
  {
    hide IntAt, ParseStrings;
  }

  lemma DecodedBuffer(buffer: seq<Wide>, raw: seq<Wide>)
    requires Holds(buffer, Strip(CString(FlipAll(CString(raw, 0)), 0)))
    ensures CString(buffer, 0) == Decode(raw)
  {
    var text := Strip(CString(FlipAll(CString(raw, 0)), 0));
    CStringAt(buffer, 0, |text|);
  }
}
