/**
 * A .str file written byte by byte, in every layout the format of Core/Tools/Autorun/GameText.cpp
 * allows, and read back by both passes.
 */
module StringFileWriter {
  import opened Options
  import opened RamFile
  import opened StripSpaces
  import opened LookupOrder
  import opened CsfFormat
  import CsfParser
  import opened StringFile
  import opened StringFileParser

  // ---------------------------------------------------------------------------------------
  // Writing
  // ---------------------------------------------------------------------------------------

  predicate White(c: Byte) { c == 32 || c == 9 || c == 10 || c == 11 || c == 12 || c == 13 }

  /** White space that does not end a line. */
  predicate Indent(s: seq<Byte>) { forall c | c in s :: White(c) && c != 10 }

  /** A line: its text and the white space around it. */
  datatype Row = Row(left: seq<Byte>, text: seq<Byte>, right: seq<Byte>) {
    function Bytes(): seq<Byte> { left + text + right + [10] }

    predicate Valid() {
      && Indent(left) && Indent(right) && 0 !in text && 10 !in text
      && (text != [] ==> !White(text[0]) && !White(text[|text| - 1]))
    }

    /** Empty, or a comment. */
    predicate Idle() { text == [] || (|text| >= 2 && text[0] == 47 && text[1] == 47) }

    /** END in any case. */
    predicate Ends() {
      |text| == 3 && text[0] in {69, 101} && text[1] in {78, 110} && text[2] in {68, 100}
    }

    predicate StartsQuote() { text != [] && text[0] == 34 }
  }

  /** What stands in a quote: a character, white space, or a backslash and a character. */
  datatype Piece = Plain(c: Byte) | Spaced(c: Byte) | Escaped(c: Byte) {
    predicate Valid() {
      match this
      case Plain(c) => c != 0 && c != 255 && c != 34 && c != 92 && !White(c)
      case Spaced(c) => White(c)
      case Escaped(c) => c != 0 && c != 255
    }

    function Bytes(): seq<Byte> { if Escaped? then [92, c] else [c] }

    /** White space is a space; \n is a newline and \t a tab; any other character stands for itself. */
    function Meaning(): Wide {
      match this
      case Plain(c) => c
      case Spaced(_) => 32
      case Escaped(c) => if c == 110 then 10 else if c == 116 then 9 else if White(c) then 32 else c
    }
  }

  function Encode(pieces: seq<Piece>): seq<Byte> {
    if pieces == [] then [] else pieces[0].Bytes() + Encode(pieces[1..])
  }

  function Meaning(pieces: seq<Piece>): seq<Wide> {
    seq(|pieces|, k requires 0 <= k < |pieces| => pieces[k].Meaning())
  }

  predicate Letters(s: seq<Byte>) {
    forall c | c in s :: 97 <= c <= 122 || 65 <= c <= 90 || Digit(c) || c == 95
  }

  predicate Digit(c: Byte) { 48 <= c <= 57 }

  /** A line of a label in front of its END: one that says nothing, or a quote with its wave name. */
  datatype Part =
    | Remark(row: Row)
    | Text(left: seq<Byte>, pieces: seq<Piece>, gap: seq<Byte>, wave: seq<Byte>, rest: seq<Byte>)
  {
    predicate Valid() {
      match this
      case Remark(row) => row.Valid() && !row.StartsQuote() && !row.Ends()
      case Text(left, pieces, gap, wave, rest) =>
        && Indent(left) && (forall p | p in pieces :: p.Valid())
        && (forall c | c in gap :: (White(c) && c != 10) || c == 61) && Letters(wave)
        && 0 !in rest && 10 !in rest && 255 !in rest
        && (rest != [] ==> !Letters([rest[0]]) && (wave == [] ==> !White(rest[0]) && rest[0] != 61))
    }

    function Bytes(): seq<Byte> {
      match this
      case Remark(row) => row.Bytes()
      case Text(left, pieces, gap, wave, rest) => left + [34] + Encode(pieces) + [34] + (gap + wave + rest) + [10]
    }
  }

  /** A label: what stands before it, its line, its parts, and the END line. */
  datatype Item = Item(before: seq<Row>, name: Row, parts: seq<Part>, last: Row) {
    predicate Valid() {
      && (forall r | r in before :: r.Valid() && r.Idle())
      && name.Valid() && !name.Idle() && !name.StartsQuote()
      && (forall p | p in parts :: p.Valid())
      && last.Valid() && last.Ends()
    }

    function Bytes(): seq<Byte> { WriteRows(before) + name.Bytes() + WriteParts(parts) + last.Bytes() }

    /** The entry: the name, and the stripped text and wave name of the first quote. */
    function Told(): Entry { FirstText(name.text, parts) }
  }

  function WriteRows(rows: seq<Row>): seq<Byte> {
    if rows == [] then [] else rows[0].Bytes() + WriteRows(rows[1..])
  }

  function WriteParts(parts: seq<Part>): seq<Byte> {
    if parts == [] then [] else parts[0].Bytes() + WriteParts(parts[1..])
  }

  function WriteItems(items: seq<Item>): seq<Byte> {
    if items == [] then [] else items[0].Bytes() + WriteItems(items[1..])
  }

  /** A wave name that ends in a digit gets an 'e'. */
  function Wave(name: seq<Byte>): seq<Byte> {
    if name != [] && Digit(name[|name| - 1]) then name + [101] else name
  }

  function FirstText(name: seq<Byte>, parts: seq<Part>): Entry {
    if parts == [] then Entry(name, [], [])
    else
      match parts[0]
      case Remark(_) => FirstText(name, parts[1..])
      case Text(_, pieces, _, wave, _) => Entry(name, Strip(Meaning(pieces)), Wave(wave))
  }

  function Entries(items: seq<Item>): seq<Entry> {
    seq(|items|, k requires 0 <= k < |items| => items[k].Told())
  }

  // ---------------------------------------------------------------------------------------
  // Lines
  // ---------------------------------------------------------------------------------------

  /** s stands at pos. */
  predicate At(b: seq<Byte>, pos: nat, s: seq<Byte>) {
    pos + |s| <= |b| && b[pos..pos + |s|] == s
  }

  lemma AtSplits(b: seq<Byte>, pos: nat, s: seq<Byte>, t: seq<Byte>)
    requires At(b, pos, s + t)
    ensures At(b, pos, s) && At(b, pos + |s|, t)
  {
    var m := b[pos..pos + |s + t|];
    assert m[..|s|] == s && m[|s|..] == t;
  }

  lemma WhiteIsBlank(c: Byte)
    ensures White(c) <==> Blank(c)
  {
  }

  lemma {:induction false} LineStopFrom(b: seq<Byte>, pos: nat, n: nat)
    requires pos + n < |b| && b[pos + n] == 10 && forall k | pos <= k < pos + n :: b[k] != 10
    ensures LineStop(b, pos) == pos + n
    decreases n
  {
    if n > 0 { LineStopFrom(b, pos + 1, n - 1); }
  }

  lemma LineStopAt(b: seq<Byte>, pos: nat, s: seq<Byte>)
    requires At(b, pos, s + [10]) && 10 !in s
    ensures LineStop(b, pos) == pos + |s| && After(b, pos) == pos + |s| + 1 && b[pos..LineStop(b, pos)] == s
  {
    hide LineStop;
    var n := |s|;
    AtSplits(b, pos, s, [10]);
    assert b[pos + n] == b[pos + n..pos + n + 1][0];
    assert forall k | pos <= k < pos + n :: b[k] == b[pos..pos + n][k - pos];
    LineStopFrom(b, pos, n);
  }

  lemma {:induction false} TrimLeftIs(left: seq<Byte>, s: seq<Byte>)
    requires Indent(left) && (s != [] ==> !White(s[0]))
    ensures TrimLeft(left + s) == s
  {
    if left == [] {
      assert left + s == s;
    } else {
      assert left[0] in left && (left + s)[1..] == left[1..] + s;
      TrimLeftIs(left[1..], s);
    }
  }

  lemma {:induction false} TrimRightIs(s: seq<Byte>, right: seq<Byte>)
    requires Indent(right) && (s != [] ==> !White(s[|s| - 1]))
    ensures TrimRight(s + right) == s
  {
    if right == [] {
      assert s + right == s;
    } else {
      var n := |right| - 1;
      assert right[n] in right && (s + right)[..|s| + n] == s + right[..n];
      TrimRightIs(s, right[..n]);
    }
  }

  /** Trimming stops at a character that is not white. */
  lemma {:induction false} TrimRightBehind(a: seq<Byte>, t: seq<Byte>)
    requires a != [] && !White(a[|a| - 1])
    ensures TrimRight(a + t) == a + TrimRight(t)
  {
    if t == [] {
      assert a + t == a;
    } else {
      var n := |t| - 1;
      assert (a + t)[..|a| + n] == a + t[..n];
      if Blank(t[n]) { TrimRightBehind(a, t[..n]); }
    }
  }

  /** The line of s, without zeros and newlines. */
  lemma LineIs(b: seq<Byte>, pos: nat, s: seq<Byte>)
    requires At(b, pos, s + [10]) && 10 !in s && 0 !in s
    ensures LineAt(b, pos) == Trim(s) && After(b, pos) == pos + |s| + 1 && LineStop(b, pos) == pos + |s|
  {
    hide Trim, At, CString;
    LineStopAt(b, pos, s);
    assert s[..|s|] == s;
    CsfParser.CStringAt(s, 0, |s|);
  }

  lemma RowTrims(r: Row)
    requires r.Valid()
    ensures var s := r.left + r.text + r.right; Trim(s) == r.text && 10 !in s && 0 !in s
  {
    hide TrimLeft, TrimRight;
    var s := r.left + r.text + r.right;
    assert s == r.left + (r.text + r.right);
    if r.text == [] {
      assert s == r.left + r.right && s + [] == s && Indent(s);
      TrimLeftIs(s, []);
      TrimNothing();
    } else {
      TrimLeftIs(r.left, r.text + r.right);
      TrimRightIs(r.text, r.right);
    }
  }

  lemma TrimNothing()
    ensures TrimRight([]) == []
  {
  }

  lemma RowTests(r: Row)
    ensures Quoted(r.text) <==> r.StartsQuote()
    ensures Skipped(r.text) <==> r.Idle()
  {
  }

  lemma RowIs(b: seq<Byte>, pos: nat, r: Row)
    requires At(b, pos, r.Bytes()) && r.Valid()
    ensures LineAt(b, pos) == r.text && After(b, pos) == pos + |r.Bytes()| && LineStop(b, pos) == After(b, pos) - 1
    ensures Quoted(r.text) <==> r.StartsQuote()
    ensures IsEnd(r.text) <==> r.Ends()
    ensures Skipped(r.text) <==> r.Idle()
  {
    hide At, Trim, LineAt, After, LineStop, IsEnd, Quoted, Skipped;
    RowTrims(r);
    LineIs(b, pos, r.left + r.text + r.right);
    EndIs(r);
    RowTests(r);
  }

  lemma EndIs(r: Row)
    ensures IsEnd(r.text) <==> r.Ends()
  {
    assert |FoldBytes(r.text)| == |r.text|;
    assert forall k | 0 <= k < |r.text| :: FoldBytes(r.text)[k] == FoldByte(r.text[k]);
  }

  // ---------------------------------------------------------------------------------------
  // Quotes
  // ---------------------------------------------------------------------------------------

  lemma {:induction false} EncodeJoin(a: seq<Piece>, b: seq<Piece>)
    ensures Encode(a + b) == Encode(a) + Encode(b)
  {
    if a == [] {
      assert a + b == b;
    } else {
      assert (a + b)[1..] == a[1..] + b;
      EncodeJoin(a[1..], b);
    }
  }

  lemma FlattenJoin(a: seq<Byte>, b: seq<Byte>)
    ensures Flatten(a + b) == Flatten(a) + Flatten(b)
  {
  }

  lemma TranslatePiece(p: Piece, s: seq<Byte>)
    requires p.Valid()
    ensures Translate(Flatten(p.Bytes()) + s) == [p.Meaning()] + Translate(s) && 0 !in Flatten(p.Bytes())
  {
    var t := Flatten(p.Bytes()) + s;
    if p.Escaped? {
      assert t[2..] == s && t[0] == 92;
    } else {
      assert t[1..] == s;
    }
  }

  /** Flattened and translated, a quote is what its pieces mean. */
  lemma {:induction false} TranslateIs(pieces: seq<Piece>)
    requires forall p | p in pieces :: p.Valid()
    ensures Translate(Flatten(Encode(pieces))) == Meaning(pieces) && 0 !in Flatten(Encode(pieces)) && 0 !in Meaning(pieces)
  {
    hide Translate, Flatten;
    if pieces == [] {
      NothingTranslated();
    } else {
      FlattenJoin(pieces[0].Bytes(), Encode(pieces[1..]));
      TranslatePiece(pieces[0], Flatten(Encode(pieces[1..])));
      TranslateIs(pieces[1..]);
      assert Meaning(pieces) == [pieces[0].Meaning()] + Meaning(pieces[1..]);
    }
  }

  lemma NothingTranslated()
    ensures Translate(Flatten([])) == [] && Flatten([]) == []
  {
  }

  lemma FindQuotePiece(s: seq<Byte>, i: nat, p: Piece)
    requires p.Valid() && At(s, i, p.Bytes()) && i + |p.Bytes()| < |s|
    ensures FindQuote(s, i, false) == FindQuote(s, i + |p.Bytes()|, false)
  {
    assert s[i..i + |p.Bytes()|][0] == s[i];
    if p.Escaped? { assert s[i..i + 2][1] == s[i + 1]; }
  }

  /** The quote ends at the first quotation mark behind the pieces. */
  lemma {:induction false} FindQuoteIs(s: seq<Byte>, i: nat, pieces: seq<Piece>)
    requires (forall p | p in pieces :: p.Valid()) && At(s, i, Encode(pieces) + [34])
    ensures FindQuote(s, i, false) == Some(i + |Encode(pieces)|)
    decreases |pieces|
  {
    if pieces == [] {
      assert s[i..i + 1] == [34] && s[i] == s[i..i + 1][0];
    } else {
      var p, rest := pieces[0], Encode(pieces[1..]) + [34];
      assert Encode(pieces) + [34] == p.Bytes() + rest;
      AtSplits(s, i, p.Bytes(), rest);
      hide FindQuote;
      FindQuotePiece(s, i, p);
      FindQuoteIs(s, i + |p.Bytes()|, pieces[1..]);
    }
  }

  lemma {:induction false} FindBreakIs(s: seq<Byte>, i: nat, t: seq<Byte>)
    requires At(s, i, t + [10]) && 10 !in t && 255 !in t
    ensures FindBreak(s, i) == Some(i + |t|)
    decreases |t|
  {
    assert s[i..i + |t| + 1][0] == s[i];
    if t != [] {
      assert t + [10] == [t[0]] + (t[1..] + [10]);
      AtSplits(s, i, [t[0]], t[1..] + [10]);
      FindBreakIs(s, i + 1, t[1..]);
    }
  }

  // ---------------------------------------------------------------------------------------
  // Wave names
  // ---------------------------------------------------------------------------------------

  lemma {:induction false} SkipGap(gap: seq<Byte>, s: seq<Byte>)
    requires forall c | c in gap :: (White(c) && c != 10) || c == 61
    requires s != [] ==> !White(s[0]) && s[0] != 61
    ensures SkipToWave(gap + s) == s
  {
    if gap == [] {
      assert gap + s == s;
    } else {
      assert gap[0] in gap && (gap + s)[1..] == gap[1..] + s;
      SkipGap(gap[1..], s);
    }
  }

  lemma {:induction false} RunIs(wave: seq<Byte>, rest: seq<Byte>)
    requires Letters(wave) && (rest != [] ==> !Letters([rest[0]]))
    ensures WaveRun(wave + rest) == wave
  {
    if wave == [] {
      assert wave + rest == rest;
      assert rest != [] ==> rest[0] in [rest[0]];
    } else {
      assert wave[0] in wave && (wave + rest)[1..] == wave[1..] + rest;
      RunIs(wave[1..], rest);
    }
  }

  lemma WaveIs(gap: seq<Byte>, wave: seq<Byte>, rest: seq<Byte>)
    requires Text([], [], gap, wave, rest).Valid()
    ensures WaveName(gap + wave + rest) == Wave(wave)
  {
    hide WaveRun, SkipToWave;
    assert gap + wave + rest == gap + (wave + rest);
    if wave != [] { assert wave[0] in wave; }
    SkipGap(gap, wave + rest);
    RunIs(wave, rest);
  }

  /** White space at the end does not change the wave name. */
  lemma {:induction false} SkipToWavePush(s: seq<Byte>, c: Byte)
    requires White(c)
    ensures SkipToWave(s + [c]) == if SkipToWave(s) == [] then [] else SkipToWave(s) + [c]
  {
    if s == [] {
      assert s + [c] == [c];
    } else {
      assert (s + [c])[1..] == s[1..] + [c];
      SkipToWavePush(s[1..], c);
    }
  }

  lemma {:induction false} WaveRunPush(s: seq<Byte>, c: Byte)
    requires White(c)
    ensures WaveRun(s + [c]) == WaveRun(s)
  {
    if s == [] {
      assert s + [c] == [c];
    } else {
      assert (s + [c])[1..] == s[1..] + [c];
      WaveRunPush(s[1..], c);
    }
  }

  lemma {:induction false} WaveTrims(s: seq<Byte>)
    ensures WaveName(TrimRight(s)) == WaveName(s)
    ensures forall c | c in TrimRight(s) :: c in s
  {
    hide WaveRun, SkipToWave;
    if s != [] && Blank(s[|s| - 1]) {
      var t, c := s[..|s| - 1], s[|s| - 1];
      assert s == t + [c];
      SkipToWavePush(t, c);
      WaveRunPush(SkipToWave(t), c);
      NoRun();
      WaveTrims(t);
    }
  }

  lemma NoRun()
    ensures WaveRun([]) == []
  {
  }

  // ---------------------------------------------------------------------------------------
  // Reading a quote back
  // ---------------------------------------------------------------------------------------

  /** A quote of pieces, behind its opening mark: what the stream of characters starts with. */
  lemma ReadsPieces(line: seq<Byte>, rest: seq<Byte>, pieces: seq<Piece>, tail: seq<Byte>, more: seq<Byte>)
    requires Quoted(line) && forall p | p in pieces :: p.Valid()
    requires 10 !in tail && 255 !in tail && |more| <= |rest|
    requires line[1..] + [10] + rest == Encode(pieces) + [34] + tail + [10] + more
    ensures ReadQuote(line, rest) == Some(Quote(Flatten(Encode(pieces)), WaveName(tail), |rest| - |more|))
  {
    hide FindQuote, FindBreak, Flatten, WaveName;
    var s, e := line[1..] + [10] + rest, Encode(pieces);
    assert s == (e + [34]) + (tail + [10] + more);
    assert At(s, 0, e + [34]);
    FindQuoteIs(s, 0, pieces);
    assert s == (e + [34]) + ((tail + [10]) + more);
    assert At(s, |e| + 1, tail + [10]);
    FindBreakIs(s, |e| + 1, tail);
    assert s[..|e|] == e && s[|e| + 1..|e| + 1 + |tail|] == tail;
  }

  /** The text an entry gets from a quote of these pieces. */
  lemma TextOfPieces(current: Entry, pieces: seq<Piece>, wave: seq<Byte>, consumed: nat)
    requires forall p | p in pieces :: p.Valid()
    ensures TakeQuote(current, false, Quote(Flatten(Encode(pieces)), wave, consumed))
         == Entry(current.name, Strip(Meaning(pieces)), wave)
  {
    hide Translate, Flatten, Strip, Meaning;
    var body, text := Flatten(Encode(pieces)), Meaning(pieces);
    TranslateIs(pieces);
    assert body[..|body|] == body && text[..|text|] == text;
    CsfParser.CStringAt(body, 0, |body|);
    CsfParser.CStringAt(text, 0, |text|);
  }

  /** The same text after stripping, whatever follows. */
  ghost predicate SameText(a: seq<Piece>, b: seq<Piece>) {
    forall t: seq<Wide> :: Strip(Meaning(a) + t) == Strip(Meaning(b) + t)
  }

  lemma MeaningJoin(a: seq<Piece>, b: seq<Piece>)
    ensures Meaning(a + b) == Meaning(a) + Meaning(b)
  {
  }

  /** Two spaces in a row mean the same as one. */
  lemma TwoGaps(a: seq<Piece>, x: Piece, y: Piece, z: Piece)
    requires x.Meaning() == y.Meaning() == z.Meaning() == 32
    ensures SameText(a + [x], a + [y, z])
  {
    hide Strip;
    forall t: seq<Wide> ensures Strip(Meaning(a + [x]) + t) == Strip(Meaning(a + [y, z]) + t) {
      MeaningJoin(a, [x]);
      MeaningJoin(a, [y, z]);
      assert Meaning(a + [x]) + t == Meaning(a) + ([SPACE] + t);
      assert Meaning(a + [y, z]) + t == Meaning(a) + [SPACE] + ([SPACE] + t);
      RedundantSpaceGoes(Meaning(a), [SPACE] + t);
    }
  }

  lemma SameTextChains(a: seq<Piece>, b: seq<Piece>, c: seq<Piece>)
    requires SameText(a, b) && SameText(b, c)
    ensures SameText(a, c)
  {
    hide Strip, Meaning;
  }

  lemma SameTextJoin(a: seq<Piece>, b: seq<Piece>, c: seq<Piece>)
    requires SameText(a, b)
    ensures Strip(Meaning(a + c)) == Strip(Meaning(b + c))
  {
    hide Strip, Meaning;
    MeaningJoin(a, c);
    MeaningJoin(b, c);
  }

  predicate AllValid(pieces: seq<Piece>) { forall p | p in pieces :: p.Valid() }

  /**
   * The line of an opened quote loses the white space in front of its newline. What is left still spells
   * pieces, with the same text after stripping.
   */
  ghost predicate Loses(pieces: seq<Piece>, left: seq<Piece>) {
    && AllValid(left) && TrimRight(Encode(pieces)) + [10] == Encode(left) && SameText(left, pieces + [Spaced(10)])
    && |Encode(left)| <= |Encode(pieces)| + 1
  }

  lemma {:induction false} TrimmedPieces(pieces: seq<Piece>) returns (left: seq<Piece>)
    requires AllValid(pieces)
    ensures Loses(pieces, left)
  {
    hide Encode, SameText, TrimRight, Loses;
    if pieces == [] || !White(pieces[|pieces| - 1].c) {
      left := pieces + [Spaced(10)];
      LosesNothing(pieces);
    } else {
      var n := |pieces| - 1;
      var q, p := pieces[..n], pieces[n];
      assert pieces == q + [p] && p in pieces;
      if p.Escaped? {
        left := q + [Escaped(10)];
        LosesEscaped(q, p);
      } else {
        left := TrimmedPieces(q);
        LosesSpaced(q, p, left);
      }
    }
  }

  lemma LosesNothing(pieces: seq<Piece>)
    requires AllValid(pieces) && (pieces == [] || !White(pieces[|pieces| - 1].c))
    ensures Loses(pieces, pieces + [Spaced(10)])
  {
    hide Encode, SameText, TrimRight;
    LastByte(pieces);
    EncodeJoin(pieces, [Spaced(10)]);
    EncodeOne(Spaced(10));
    SameTextSelf(pieces + [Spaced(10)]);
  }

  lemma LosesEscaped(q: seq<Piece>, p: Piece)
    requires AllValid(q) && p.Escaped? && White(p.c)
    ensures Loses(q + [p], q + [Escaped(10)])
  {
    hide Encode, SameText, TrimRight;
    EncodeJoin(q, [p]);
    EncodeOne(p);
    EncodeJoin(q, [Escaped(10)]);
    EncodeOne(Escaped(10));
    assert Encode(q) + [92, p.c] == (Encode(q) + [92]) + [p.c];
    DropsWhite(Encode(q) + [92], p.c);
    assert (q + [p]) + [Spaced(10)] == q + [p, Spaced(10)];
    TwoGaps(q, Escaped(10), p, Spaced(10));
  }

  lemma LosesSpaced(q: seq<Piece>, p: Piece, left: seq<Piece>)
    requires Loses(q, left) && p.Spaced? && White(p.c)
    ensures Loses(q + [p], left)
  {
    hide Encode, SameText, TrimRight;
    EncodeJoin(q, [p]);
    EncodeOne(p);
    DropsWhite(Encode(q), p.c);
    assert (q + [p]) + [Spaced(10)] == q + [p, Spaced(10)];
    TwoGaps(q, Spaced(10), p, Spaced(10));
    SameTextChains(left, q + [Spaced(10)], q + [p, Spaced(10)]);
  }

  lemma SameTextSelf(a: seq<Piece>)
    ensures SameText(a, a)
  {
  }

  lemma EncodeOne(p: Piece)
    ensures Encode([p]) == p.Bytes()
  {
    assert [p][1..] == [];
  }

  lemma DropsWhite(s: seq<Byte>, c: Byte)
    requires White(c)
    ensures TrimRight(s + [c]) == TrimRight(s)
    ensures s != [] && !White(s[|s| - 1]) ==> TrimRight(s) == s
  {
    assert (s + [c])[..|s|] == s;
  }

  /** The last byte of an encoding is the character of its last piece. */
  lemma LastByte(pieces: seq<Piece>)
    requires pieces == [] || !White(pieces[|pieces| - 1].c)
    ensures TrimRight(Encode(pieces)) == Encode(pieces)
  {
    if pieces != [] {
      var n := |pieces| - 1;
      assert pieces == pieces[..n] + [pieces[n]];
      EncodeJoin(pieces[..n], [pieces[n]]);
      EncodeOne(pieces[n]);
    }
  }

  lemma AtRest(b: seq<Byte>, pos: nat, s: seq<Byte>)
    requires At(b, pos, s)
    ensures pos + |s| <= |b| && b[pos..] == s + b[pos + |s|..]
  {
  }

  lemma {:induction false} EncodeClean(pieces: seq<Piece>)
    requires AllValid(pieces) && forall p | p in pieces :: p.c != 10
    ensures Clean(Encode(pieces))
  {
    if pieces != [] {
      assert pieces[0] in pieces;
      EncodeClean(pieces[1..]);
    }
  }

  /** The line that opens a quote, with what stands behind the mark. */
  function Opening(left: seq<Byte>, a: seq<Byte>): (r: seq<Byte>)
    ensures |r| == |left| + |a| + 2
  {
    left + [34] + a + [10]
  }

  /** No zero and no newline. */
  predicate Clean(s: seq<Byte>) { 0 !in s && 10 !in s }

  lemma OpeningIs(left: seq<Byte>, a: seq<Byte>) returns (s: seq<Byte>)
    requires Indent(left) && Clean(a)
    ensures Opening(left, a) == s + [10] && |s| == |left| + |a| + 1 && 10 !in s && 0 !in s && s == left + ([34] + a)
  {
    s := left + ([34] + a);
    assert Opening(left, a) == s + [10];
  }

  lemma OpenTrims(left: seq<Byte>, a: seq<Byte>)
    requires Indent(left)
    ensures Trim(left + ([34] + a)) == [34] + TrimRight(a)
  {
    hide TrimRight, TrimLeft, Indent;
    TrimLeftIs(left, [34] + a);
    TrimRightBehind([34], a);
  }

  lemma OpenLine(b: seq<Byte>, pos: nat, left: seq<Byte>, a: seq<Byte>)
    requires At(b, pos, Opening(left, a)) && Indent(left) && Clean(a)
    ensures LineAt(b, pos) == [34] + TrimRight(a) && After(b, pos) == pos + |left| + |a| + 2
    ensures LineStop(b, pos) == After(b, pos) - 1
  {
    hide *;
    var s := OpeningIs(left, a);
    LineIs(b, pos, s);
    OpenTrims(left, a);
  }

  /** What ReadQuote finds in the file spells these pieces and this tail. */
  ghost predicate Spells(b: seq<Byte>, pos: nat, next: nat, pieces: seq<Piece>, tail: seq<Byte>) {
    && pos < |b| && After(b, pos) <= next <= |b| && Quoted(LineAt(b, pos))
    && LineAt(b, pos)[1..] + [10] + b[After(b, pos)..] == Encode(pieces) + [34] + tail + [10] + b[next..]
  }

  /** A quote that closes on its line. */
  lemma SpellsLine(b: seq<Byte>, pos: nat, t: Part)
    requires t.Text? && t.Valid() && At(b, pos, t.Bytes()) && forall p | p in t.pieces :: p.c != 10
    ensures Spells(b, pos, pos + |t.Bytes()|, t.pieces, TrimRight(t.gap + t.wave + t.rest))
    ensures LineStop(b, pos) < pos + |t.Bytes()|
  {
    hide At, TrimRight, LineAt, After, LineStop;
    var tail, e := t.gap + t.wave + t.rest, Encode(t.pieces);
    var a := e + [34] + tail;
    assert t.Bytes() == Opening(t.left, a);
    EncodeClean(t.pieces);
    LettersClean(t.wave);
    AtRest(b, pos, t.Bytes());
    OpenLine(b, pos, t.left, a);
    TrimRightBehind(e + [34], tail);
  }

  lemma LettersClean(s: seq<Byte>)
    requires Letters(s)
    ensures 0 !in s && 10 !in s && 255 !in s
  {
  }

  /** The line that opens a quote which goes on with mid. */
  lemma BrokenLine(b: seq<Byte>, pos: nat, left: seq<Byte>, a: seq<Byte>, mid: seq<Byte>)
    requires At(b, pos, Opening(left, a) + mid) && Indent(left) && Clean(a) && mid != []
    ensures pos < |b| && LineAt(b, pos) == [34] + TrimRight(a)
    ensures LineStop(b, pos) < After(b, pos) == pos + |left| + |a| + 2 && After(b, pos) + |mid| <= |b|
    ensures b[After(b, pos)..] == mid + b[After(b, pos) + |mid|..]
  {
    hide *;
    var next := pos + |Opening(left, a)|;
    AtSplits(b, pos, Opening(left, a), mid);
    AtRest(b, next, mid);
    OpenLine(b, pos, left, a);
    assert After(b, pos) == next;
  }

  lemma SpellsOn(b: seq<Byte>, pos: nat, next: nat, line: seq<Byte>, l: seq<Piece>, q: seq<Piece>, tail: seq<Byte>)
    requires pos < |b| && After(b, pos) <= next <= |b| && LineAt(b, pos) == [34] + line && line + [10] == Encode(l)
    requires b[After(b, pos)..] == Encode(q) + [34] + tail + [10] + b[next..]
    ensures Spells(b, pos, next, l + q, tail)
  {
    hide LineAt, After, Encode;
    EncodeJoin(l, q);
    assert LineAt(b, pos)[1..] == line;
    assert Encode(l) + (Encode(q) + [34] + tail + [10] + b[next..]) == (Encode(l) + Encode(q)) + [34] + tail + [10] + b[next..];
  }

  /** The bytes of a quote, split behind its piece k. */
  lemma BytesSplit(t: Part, k: nat)
    requires t.Text? && k < |t.pieces|
    ensures var p, q := t.pieces[..k] + [t.pieces[k]], t.pieces[k + 1..];
            && t.pieces == p + q && Encode(t.pieces) == Encode(t.pieces[..k]) + t.pieces[k].Bytes() + Encode(q)
            && t.Bytes() == t.left + [34] + (Encode(t.pieces[..k]) + t.pieces[k].Bytes())
                            + (Encode(q) + [34] + (t.gap + t.wave + t.rest) + [10])
  {
    hide Encode;
    var p, q := t.pieces[..k] + [t.pieces[k]], t.pieces[k + 1..];
    assert t.pieces == p + q;
    EncodeJoin(p, q);
    EncodeJoin(t.pieces[..k], [t.pieces[k]]);
    EncodeOne(t.pieces[k]);
  }

  /** A quote with a line break in it. */
  lemma SpellsBreak(b: seq<Byte>, pos: nat, t: Part, k: nat) returns (left: seq<Piece>)
    requires t.Text? && t.Valid() && At(b, pos, t.Bytes())
    requires k < |t.pieces| && t.pieces[k] == Spaced(10) && forall p | p in t.pieces[..k] :: p.c != 10
    ensures AllValid(left) && Strip(Meaning(left)) == Strip(Meaning(t.pieces)) && |Encode(left)| <= |Encode(t.pieces)|
    ensures Spells(b, pos, pos + |t.Bytes()|, left, t.gap + t.wave + t.rest)
    ensures LineStop(b, pos) < pos + |t.Bytes()|
  {
    hide At, TrimRight, LineAt, After, LineStop, Encode, Strip, Meaning, SameText, Spells;
    var p, q, tail := t.pieces[..k], t.pieces[k + 1..], t.gap + t.wave + t.rest;
    BytesSplit(t, k);
    EncodeClean(p);
    assert t.left + [34] + (Encode(p) + [10]) == Opening(t.left, Encode(p));
    BrokenLine(b, pos, t.left, Encode(p), Encode(q) + [34] + tail + [10]);
    var l := TrimmedPieces(p);
    left := l + q;
    SpellsOn(b, pos, pos + |t.Bytes()|, TrimRight(Encode(p)), l, q, tail);
    EncodeJoin(l, q);
    SameTextJoin(l, p + [Spaced(10)], q);
  }

  /** A quote with a backslash in front of its first line break. */
  lemma SpellsEscape(b: seq<Byte>, pos: nat, t: Part, k: nat)
    requires t.Text? && t.Valid() && At(b, pos, t.Bytes())
    requires k < |t.pieces| && t.pieces[k] == Escaped(10) && forall p | p in t.pieces[..k] :: p.c != 10
    ensures Spells(b, pos, pos + |t.Bytes()|, t.pieces, t.gap + t.wave + t.rest)
    ensures LineStop(b, pos) < pos + |t.Bytes()|
  {
    hide At, TrimRight, LineAt, After, LineStop, Encode, Spells;
    var p, q, tail := t.pieces[..k], t.pieces[k + 1..], t.gap + t.wave + t.rest;
    BytesSplit(t, k);
    EncodeClean(p);
    var a := Encode(p) + [92];
    assert t.left + [34] + (Encode(p) + [92, 10]) == Opening(t.left, a);
    BrokenLine(b, pos, t.left, a, Encode(q) + [34] + tail + [10]);
    DropsWhite(a, 32);
    EncodeJoin(p, [Escaped(10)]);
    EncodeOne(Escaped(10));
    assert a + [10] == Encode(p) + [92, 10];
    SpellsOn(b, pos, pos + |t.Bytes()|, a, p + [Escaped(10)], q, tail);
  }

  /** The first piece that holds a newline. */
  lemma {:induction false} FirstBreak(pieces: seq<Piece>) returns (k: nat)
    requires AllValid(pieces)
    ensures k <= |pieces| && forall p | p in pieces[..k] :: p.c != 10
    ensures k < |pieces| ==> pieces[k] == Spaced(10) || pieces[k] == Escaped(10)
  {
    k := 0;
    assert pieces != [] ==> pieces[0] in pieces;
    if pieces != [] && pieces[0].c != 10 {
      var n := FirstBreak(pieces[1..]);
      k := n + 1;
      assert pieces[..k] == [pieces[0]] + pieces[1..][..n];
    }
  }

  /** A written quote is read back: its text, its wave name, and all of its bytes. */
  lemma QuoteIs(b: seq<Byte>, pos: nat, t: Part, current: Entry)
    requires t.Text? && t.Valid() && At(b, pos, t.Bytes())
    ensures pos < |b| && Quoted(LineAt(b, pos)) && NextItem(b, pos) == Some(pos + |t.Bytes()|)
    ensures ReadQuote(LineAt(b, pos), b[After(b, pos)..]).Some?
    ensures var q := ReadQuote(LineAt(b, pos), b[After(b, pos)..]).value;
            && TakeQuote(current, false, q) == Entry(current.name, Strip(Meaning(t.pieces)), Wave(t.wave))
            && |q.body| < |t.Bytes()| && |q.wave| < |t.Bytes()|
    ensures LineStop(b, pos) < pos + |t.Bytes()|
  {
    hide At, TrimRight, LineAt, After, LineStop, Encode, Strip, Meaning, Spells, WaveName, Wave;
    var k := FirstBreak(t.pieces);
    var pieces, tail := t.pieces, t.gap + t.wave + t.rest;
    LettersClean(t.wave);
    WaveIs(t.gap, t.wave, t.rest);
    if k == |t.pieces| {
      assert t.pieces[..k] == t.pieces;
      SpellsLine(b, pos, t);
      WaveTrims(tail);
      tail := TrimRight(tail);
    } else if t.pieces[k] == Escaped(10) {
      SpellsEscape(b, pos, t, k);
    } else {
      pieces := SpellsBreak(b, pos, t, k);
    }
    SpelledQuote(b, pos, pos + |t.Bytes()|, pieces, tail, current);
    WaveLength(t.wave);
  }

  lemma WaveLength(wave: seq<Byte>)
    ensures |Wave(wave)| <= |wave| + 1
  {
  }

  lemma SpelledQuote(b: seq<Byte>, pos: nat, next: nat, pieces: seq<Piece>, tail: seq<Byte>, current: Entry)
    requires Spells(b, pos, next, pieces, tail) && AllValid(pieces) && 10 !in tail && 255 !in tail
    ensures pos < |b| && Quoted(LineAt(b, pos)) && NextItem(b, pos) == Some(next)
    ensures ReadQuote(LineAt(b, pos), b[After(b, pos)..]).Some?
    ensures var q := ReadQuote(LineAt(b, pos), b[After(b, pos)..]).value;
            && TakeQuote(current, false, q) == Entry(current.name, Strip(Meaning(pieces)), WaveName(tail))
            && |q.body| == |Encode(pieces)| && q.wave == WaveName(tail)
  {
    hide TrimRight, LineAt, After, LineStop, Encode, Strip, Meaning, WaveName, ReadQuote, TakeQuote;
    ReadsPieces(LineAt(b, pos), b[After(b, pos)..], pieces, tail, b[next..]);
    TextOfPieces(current, pieces, WaveName(tail), next - After(b, pos));
    FlattenLength(Encode(pieces));
  }

  // ---------------------------------------------------------------------------------------
  // Reading a file back
  // ---------------------------------------------------------------------------------------

  /** Both passes get through the file from pos on, line by line at the same positions. */
  ghost predicate Reads(b: seq<Byte>, pos: nat, phase: Phase) {
    pos <= |b| && Countable(b, pos) && PlainLabels(b, pos, phase) && Parsable(b, pos, phase)
  }

  /** One line of both passes, and of the buffers' sizes. */
  lemma Line(b: seq<Byte>, pos: nat, phase: Phase, next: nat)
    requires pos < |b| && NextItem(b, pos) == Some(next) && (phase == Label ==> next == After(b, pos))
    requires Reads(b, next, PhaseNext(b, pos, phase))
    ensures Reads(b, pos, phase)
    ensures CountEnds(b, pos) == (if IsEnd(LineAt(b, pos)) then 1 else 0) + CountEnds(b, next)
    ensures ItemFits(b, pos) && Fits(b, next) ==> Fits(b, pos)
  {
    hide LineAt, After, NextItem, PhaseNext, ItemFits;
  }

  /** Where the row at pos leads. */
  lemma RowNext(b: seq<Byte>, pos: nat, r: Row)
    requires At(b, pos, r.Bytes()) && r.Valid() && !r.StartsQuote()
    ensures pos < |b| && LineAt(b, pos) == r.text && NextItem(b, pos) == Some(pos + |r.Bytes()|)
    ensures After(b, pos) == pos + |r.Bytes()|
    ensures |r.Bytes()| < MAX_TEXT ==> ItemFits(b, pos)
    ensures !Quoted(r.text) && (IsEnd(r.text) <==> r.Ends()) && (Skipped(r.text) <==> r.Idle())
  {
    hide LineAt, After, Skipped, IsEnd;
    RowIs(b, pos, r);
  }

  /** What ParseFrom does with the line at pos. */
  lemma Unfold(b: seq<Byte>, pos: nat, phase: Phase, current: Entry, read: bool)
    requires pos < |b| && Reads(b, pos, phase)
    ensures var line, next := LineAt(b, pos), ParseNext(b, pos, phase).value;
            && ParseNext(b, pos, phase).Some? && Parsable(b, next, PhaseNext(b, pos, phase))
            && (phase == Label && Skipped(line) ==>
                  ParseFrom(b, pos, phase, current, read) == ParseFrom(b, next, Label, current, read))
            && (phase == Label && !Skipped(line) ==>
                  ParseFrom(b, pos, phase, current, read) == ParseFrom(b, next, Body, Entry(line, [], []), false))
            && (phase == Body && !Quoted(line) && !IsEnd(line) ==>
                  ParseFrom(b, pos, phase, current, read) == ParseFrom(b, next, Body, current, read))
            && (phase == Body && IsEnd(line) ==>
                  var rest := ParseFrom(b, next, Label, current, read);
                  ParseFrom(b, pos, phase, current, read) == FileTable(rest.ok, [current] + rest.entries))
            && (phase == Body && Quoted(line) ==>
                  && ReadQuote(line, b[After(b, pos)..]).Some?
                  && var q := ReadQuote(line, b[After(b, pos)..]).value;
                  ParseFrom(b, pos, phase, current, read) == ParseFrom(b, next, Body, TakeQuote(current, read, q), true))
  {
    hide LineAt, After, ReadQuote, TakeQuote, Skipped;
  }

  /** Where the parsing pass stands. */
  datatype Stand = Stand(pos: nat, phase: Phase, current: Entry, read: bool)

  function Table(b: seq<Byte>, s: Stand): FileTable
    requires s.pos <= |b| && Parsable(b, s.pos, s.phase)
  {
    ParseFrom(b, s.pos, s.phase, s.current, s.read)
  }

  /** When the file can be read from t on, then from s too, with those entries and END lines in between. */
  ghost predicate Leads(b: seq<Byte>, s: Stand, t: Stand, entries: seq<Entry>, ends: nat, short: bool) {
    Reads(b, t.pos, t.phase) ==>
      && Reads(b, s.pos, s.phase) && CountEnds(b, s.pos) == ends + CountEnds(b, t.pos)
      && Table(b, s) == FileTable(Table(b, t).ok, entries + Table(b, t).entries)
      && (short && Fits(b, t.pos) ==> Fits(b, s.pos))
  }

  lemma LeadsOn(b: seq<Byte>, s: Stand, t: Stand, u: Stand,
                d: seq<Entry>, e: seq<Entry>, m: nat, n: nat, short: bool, short': bool)
    requires Leads(b, s, t, d, m, short) && Leads(b, t, u, e, n, short')
    ensures Leads(b, s, u, d + e, m + n, short && short')
  {
    hide Countable, PlainLabels, Parsable, Fits, CountEnds, Table;
    if Reads(b, u.pos, u.phase) { assert d + (e + Table(b, u).entries) == (d + e) + Table(b, u).entries; }
  }

  /** The same where the first stretch completes no entry. */
  lemma LeadsThrough(b: seq<Byte>, s: Stand, t: Stand, u: Stand, e: seq<Entry>, m: nat, n: nat, short: bool, short': bool)
    requires Leads(b, s, t, [], m, short) && Leads(b, t, u, e, n, short')
    ensures Leads(b, s, u, e, m + n, short && short')
  {
    hide Leads;
    LeadsOn(b, s, t, u, [], e, m, n, short, short');
    assert [] + e == e;
  }

  lemma LeadsSelf(b: seq<Byte>, s: Stand)
    ensures Leads(b, s, s, [], 0, true)
  {
    hide Countable, PlainLabels, Parsable, Fits, CountEnds, Table;
    if Reads(b, s.pos, s.phase) { assert [] + Table(b, s).entries == Table(b, s).entries; }
  }

  predicate Small(bytes: seq<Byte>) { |bytes| < MAX_TEXT }

  lemma IdleRow(b: seq<Byte>, s: Stand, r: Row)
    requires s.phase == Label && At(b, s.pos, r.Bytes()) && r.Valid() && r.Idle()
    ensures Leads(b, s, s.(pos := s.pos + |r.Bytes()|), [], 0, Small(r.Bytes()))
  {
    hide At, LineAt, After, Skipped, IsEnd, NextItem, CountEnds, Fits, ItemFits, Reads;
    var next := s.pos + |r.Bytes()|;
    RowNext(b, s.pos, r);
    if Reads(b, next, Label) {
      Line(b, s.pos, Label, next);
      Unfold(b, s.pos, Label, s.current, s.read);
      IdleIsNoEnd(r);
    }
  }

  lemma IdleIsNoEnd(r: Row)
    requires r.Idle()
    ensures !r.Ends()
  {
  }

  lemma NameRow(b: seq<Byte>, s: Stand, r: Row)
    requires s.phase == Label && At(b, s.pos, r.Bytes()) && r.Valid() && !r.Idle() && !r.StartsQuote()
    ensures Leads(b, s, Stand(s.pos + |r.Bytes()|, Body, Entry(r.text, [], []), false),
                  [], if r.Ends() then 1 else 0, Small(r.Bytes()))
  {
    hide At, LineAt, After, Skipped, IsEnd, NextItem, CountEnds, Fits, ItemFits, Reads;
    var next := s.pos + |r.Bytes()|;
    RowNext(b, s.pos, r);
    if Reads(b, next, Body) {
      Line(b, s.pos, Label, next);
      Unfold(b, s.pos, Label, s.current, s.read);
    }
  }

  lemma RemarkRow(b: seq<Byte>, s: Stand, r: Row)
    requires s.phase == Body && At(b, s.pos, r.Bytes()) && r.Valid() && !r.StartsQuote() && !r.Ends()
    ensures Leads(b, s, s.(pos := s.pos + |r.Bytes()|), [], 0, Small(r.Bytes()))
  {
    hide At, LineAt, After, Skipped, IsEnd, NextItem, CountEnds, Fits, ItemFits, Reads, Quoted;
    var next := s.pos + |r.Bytes()|;
    RowNext(b, s.pos, r);
    if Reads(b, next, Body) {
      Line(b, s.pos, Body, next);
      Unfold(b, s.pos, Body, s.current, s.read);
    }
  }

  lemma EndRow(b: seq<Byte>, s: Stand, r: Row)
    requires s.phase == Body && At(b, s.pos, r.Bytes()) && r.Valid() && r.Ends()
    ensures Leads(b, s, s.(pos := s.pos + |r.Bytes()|, phase := Label), [s.current], 1, Small(r.Bytes()))
  {
    hide At, LineAt, After, Skipped, IsEnd, NextItem, CountEnds, Fits, ItemFits, Reads, Quoted;
    var next := s.pos + |r.Bytes()|;
    RowNext(b, s.pos, r);
    if Reads(b, next, Label) {
      Line(b, s.pos, Body, next);
      Unfold(b, s.pos, Body, s.current, s.read);
    }
  }

  lemma TextPart(b: seq<Byte>, s: Stand, t: Part)
    requires s.phase == Body && At(b, s.pos, t.Bytes()) && t.Text? && t.Valid()
    ensures var current := if s.read then s.current else Entry(s.current.name, Strip(Meaning(t.pieces)), Wave(t.wave));
            Leads(b, s, Stand(s.pos + |t.Bytes()|, Body, current, true), [], 0, Small(t.Bytes()))
  {
    hide At, LineAt, After, Skipped, IsEnd, NextItem, CountEnds, Fits, Reads, Quoted, ReadQuote, Strip, Meaning, Wave;
    var next := s.pos + |t.Bytes()|;
    QuoteIs(b, s.pos, t, s.current);
    QuotedIsNoEnd(LineAt(b, s.pos));
    if Reads(b, next, Body) {
      Line(b, s.pos, Body, next);
      Unfold(b, s.pos, Body, s.current, s.read);
    }
  }

  lemma QuotedIsNoEnd(line: seq<Byte>)
    ensures Quoted(line) ==> !IsEnd(line)
  {
  }

  predicate SmallRows(rows: seq<Row>) { forall r | r in rows :: Small(r.Bytes()) }

  predicate IdleRows(rows: seq<Row>) { forall r | r in rows :: r.Valid() && r.Idle() }

  lemma NoRows()
    ensures WriteRows([]) == [] && SmallRows([])
  {
  }

  lemma RowsSplit(rows: seq<Row>)
    requires rows != []
    ensures SmallRows(rows) == (Small(rows[0].Bytes()) && SmallRows(rows[1..]))
    ensures WriteRows(rows) == rows[0].Bytes() + WriteRows(rows[1..])
    ensures IdleRows(rows) ==> rows[0].Valid() && rows[0].Idle() && IdleRows(rows[1..])
  {
    assert rows[0] in rows;
    assert forall r :: r in rows <==> r == rows[0] || r in rows[1..];
  }

  lemma {:induction false} RowsLead(b: seq<Byte>, s: Stand, rows: seq<Row>)
    requires s.phase == Label && At(b, s.pos, WriteRows(rows)) && IdleRows(rows)
    ensures Leads(b, s, s.(pos := s.pos + |WriteRows(rows)|), [], 0, SmallRows(rows))
    decreases |rows|
  {
    hide *;
    if rows == [] {
      LeadsSelf(b, s);
      NoRows();
      assert s.(pos := s.pos + 0) == s;
    } else {
      var r, rest := rows[0], rows[1..];
      RowsSplit(rows);
      var t := s.(pos := s.pos + |r.Bytes()|);
      AtSplits(b, s.pos, r.Bytes(), WriteRows(rest));
      IdleRow(b, s, r);
      RowsLead(b, t, rest);
      LeadsThrough(b, s, t, t.(pos := t.pos + |WriteRows(rest)|), [], 0, 0, Small(r.Bytes()), SmallRows(rest));
    }
  }

  predicate SmallParts(parts: seq<Part>) { forall p | p in parts :: Small(p.Bytes()) }

  predicate ValidParts(parts: seq<Part>) { forall p | p in parts :: p.Valid() }

  lemma PartsSplit(parts: seq<Part>)
    requires parts != []
    ensures SmallParts(parts) == (Small(parts[0].Bytes()) && SmallParts(parts[1..]))
    ensures WriteParts(parts) == parts[0].Bytes() + WriteParts(parts[1..])
    ensures ValidParts(parts) ==> parts[0].Valid() && ValidParts(parts[1..])
  {
    assert parts[0] in parts;
    assert forall p :: p in parts <==> p == parts[0] || p in parts[1..];
  }

  /** Before its first quote the entry has only a name. */
  predicate Bare(s: Stand) { !s.read ==> s.current == Entry(s.current.name, [], []) }

  /** The entry after these parts. */
  function TellOn(s: Stand, parts: seq<Part>): Entry {
    if s.read then s.current else FirstText(s.current.name, parts)
  }

  lemma NoParts(s: Stand)
    requires Bare(s)
    ensures WriteParts([]) == [] && SmallParts([]) && TellOn(s, []) == s.current
  {
  }

  lemma {:induction false} PartsLead(b: seq<Byte>, s: Stand, parts: seq<Part>) returns (read: bool)
    requires s.phase == Body && At(b, s.pos, WriteParts(parts)) && ValidParts(parts) && Bare(s)
    ensures Leads(b, s, Stand(s.pos + |WriteParts(parts)|, Body, TellOn(s, parts), read), [], 0, SmallParts(parts))
    decreases |parts|
  {
    hide *;
    read := s.read;
    if parts == [] {
      LeadsSelf(b, s);
      NoParts(s);
      assert Stand(s.pos + 0, Body, s.current, s.read) == s;
    } else {
      var p, rest := parts[0], parts[1..];
      PartsSplit(parts);
      AtSplits(b, s.pos, p.Bytes(), WriteParts(rest));
      var t := PartLeads(b, s, parts);
      read := PartsLead(b, t, rest);
      LeadsThrough(b, s, t, Stand(t.pos + |WriteParts(rest)|, Body, TellOn(t, rest), read), [], 0, 0,
                   Small(p.Bytes()), SmallParts(rest));
    }
  }

  /** Where the first of these parts leads. */
  lemma PartLeads(b: seq<Byte>, s: Stand, parts: seq<Part>) returns (t: Stand)
    requires parts != [] && s.phase == Body && At(b, s.pos, parts[0].Bytes()) && parts[0].Valid() && Bare(s)
    ensures Leads(b, s, t, [], 0, Small(parts[0].Bytes())) && t.pos == s.pos + |parts[0].Bytes()| && t.phase == Body
    ensures TellOn(t, parts[1..]) == TellOn(s, parts) && Bare(t)
  {
    hide At, Leads, Small, Strip, Meaning, Wave;
    var p := parts[0];
    if p.Remark? {
      t := s.(pos := s.pos + |p.Bytes()|);
      RemarkRow(b, s, p.row);
    } else {
      var current := if s.read then s.current else Entry(s.current.name, Strip(Meaning(p.pieces)), Wave(p.wave));
      t := Stand(s.pos + |p.Bytes()|, Body, current, true);
      TextPart(b, s, p);
    }
  }

  predicate SmallItem(m: Item) {
    SmallRows(m.before) && Small(m.name.Bytes()) && SmallParts(m.parts) && Small(m.last.Bytes())
  }

  /** The END line of a label; a label that is called END itself is counted once more. */
  function EndsOf(m: Item): nat { if m.name.Ends() then 2 else 1 }

  lemma ItemSplit(m: Item)
    ensures m.Bytes() == WriteRows(m.before) + m.name.Bytes() + WriteParts(m.parts) + m.last.Bytes()
    ensures m.Valid() ==> IdleRows(m.before) && m.name.Valid() && !m.name.Idle() && !m.name.StartsQuote()
                          && ValidParts(m.parts) && m.last.Valid() && m.last.Ends()
    ensures SmallItem(m)
         == (SmallRows(m.before) && Small(m.name.Bytes()) && SmallParts(m.parts) && Small(m.last.Bytes()))
    ensures EndsOf(m) == (if m.name.Ends() then 1 else 0) + 1
  {
    hide SmallRows, Small, SmallParts;
  }

  lemma ItemTold(s: Stand, m: Item)
    requires s.current == Entry(m.name.text, [], []) && !s.read
    ensures TellOn(s, m.parts) == m.Told() && Bare(s)
  {
  }

  lemma ItemLeads(b: seq<Byte>, s: Stand, m: Item) returns (t: Stand)
    requires s.phase == Label && At(b, s.pos, m.Bytes()) && m.Valid()
    ensures Leads(b, s, t, [m.Told()], EndsOf(m), SmallItem(m)) && t.pos == s.pos + |m.Bytes()| && t.phase == Label
  {
    hide *;
    var r, n, w, e := WriteRows(m.before), m.name.Bytes(), WriteParts(m.parts), m.last.Bytes();
    ItemSplit(m);
    AtSplits(b, s.pos, r + n + w, e);
    AtSplits(b, s.pos, r + n, w);
    AtSplits(b, s.pos, r, n);
    var s1 := s.(pos := s.pos + |r|);
    var s2 := Stand(s1.pos + |n|, Body, Entry(m.name.text, [], []), false);
    RowsLead(b, s, m.before);
    NameRow(b, s1, m.name);
    ItemTold(s2, m);
    var read := PartsLead(b, s2, m.parts);
    var s3 := Stand(s2.pos + |w|, Body, m.Told(), read);
    EndRow(b, s3, m.last);
    t := s3.(pos := s3.pos + |e|, phase := Label);
    var k := if m.name.Ends() then 1 else 0;
    LeadsThrough(b, s, s1, s2, [], 0, k, SmallRows(m.before), Small(n));
    LeadsThrough(b, s, s2, s3, [], k, 0, SmallRows(m.before) && Small(n), SmallParts(m.parts));
    LeadsThrough(b, s, s3, t, [m.Told()], k, 1, SmallRows(m.before) && Small(n) && SmallParts(m.parts), Small(e));
  }

  predicate ValidItems(items: seq<Item>) { forall m | m in items :: m.Valid() }

  predicate SmallItems(items: seq<Item>) { forall m | m in items :: SmallItem(m) }

  lemma NoItems()
    ensures WriteItems([]) == [] && SmallItems([]) && Entries([]) == [] && Ends([]) == 0
  {
  }

  lemma ItemsSplit(items: seq<Item>)
    requires items != []
    ensures SmallItems(items) == (SmallItem(items[0]) && SmallItems(items[1..]))
    ensures WriteItems(items) == items[0].Bytes() + WriteItems(items[1..])
    ensures ValidItems(items) ==> items[0].Valid() && ValidItems(items[1..])
  {
    hide SmallItem;
    assert items[0] in items;
    assert forall m :: m in items <==> m == items[0] || m in items[1..];
  }

  lemma EntriesSplit(items: seq<Item>)
    requires items != []
    ensures Entries(items) == [items[0].Told()] + Entries(items[1..])
    ensures Ends(items) == EndsOf(items[0]) + Ends(items[1..])
  {
    hide EndsOf, FirstText;
  }

  /** How many END lines the counting pass meets. */
  function Ends(items: seq<Item>): nat {
    if items == [] then 0 else EndsOf(items[0]) + Ends(items[1..])
  }

  lemma {:induction false} ItemsLead(b: seq<Byte>, s: Stand, items: seq<Item>) returns (t: Stand)
    requires s.phase == Label && At(b, s.pos, WriteItems(items)) && ValidItems(items)
    ensures Leads(b, s, t, Entries(items), Ends(items), SmallItems(items))
    ensures t.pos == s.pos + |WriteItems(items)| && t.phase == Label
    decreases |items|
  {
    hide *;
    if items == [] {
      t := s;
      LeadsSelf(b, s);
      NoItems();
    } else {
      var m, rest := items[0], items[1..];
      ItemsSplit(items);
      EntriesSplit(items);
      AtSplits(b, s.pos, m.Bytes(), WriteItems(rest));
      var u := ItemLeads(b, s, m);
      t := ItemsLead(b, u, rest);
      LeadsOn(b, s, u, t, [m.Told()], Entries(rest), EndsOf(m), Ends(rest), SmallItem(m), SmallItems(rest));
    }
  }

  /** A whole file: the labels, and the comments and empty lines behind them. */
  function WriteFile(items: seq<Item>, after: seq<Row>): seq<Byte> { WriteItems(items) + WriteRows(after) }

  lemma FileSplit(items: seq<Item>, after: seq<Row>)
    ensures WriteFile(items, after) == WriteItems(items) + WriteRows(after)
  {
  }

  lemma FileLeads(items: seq<Item>, after: seq<Row>) returns (u: Stand)
    requires ValidItems(items) && IdleRows(after)
    ensures var b := WriteFile(items, after);
            && Leads(b, Stand(0, Label, NO_ENTRY, false), u, Entries(items), Ends(items), SmallItems(items) && SmallRows(after))
            && u.pos == |b| && u.phase == Label
  {
    hide *;
    var b := WriteFile(items, after);
    var s := Stand(0, Label, NO_ENTRY, false);
    WholeAt(b);
    FileSplit(items, after);
    AtSplits(b, 0, WriteItems(items), WriteRows(after));
    var t := ItemsLead(b, s, items);
    RowsLead(b, t, after);
    u := t.(pos := |b|);
    LeadsOn(b, s, t, u, Entries(items), [], Ends(items), 0, SmallItems(items), SmallRows(after));
    assert Entries(items) + [] == Entries(items);
  }

  /**
   * A written file is read back: one entry for each label in order, with its name, the stripped text of
   * its first quote and that quote's wave name. The counting pass counts the END lines.
   */
  lemma WrittenFileParses(items: seq<Item>, after: seq<Row>)
    requires ValidItems(items) && IdleRows(after)
    ensures var b := WriteFile(items, after);
            && Countable(b, 0) && PlainLabels(b, 0, Label) && Parsable(b, 0, Label)
            && CountEnds(b, 0) == Ends(items)
            && ParseFrom(b, 0, Label, NO_ENTRY, false) == FileTable(true, Entries(items))
            && (SmallItems(items) && SmallRows(after) ==> Fits(b, 0))
  {
    hide SmallItems, SmallRows, Entries, CountEnds, Fits, Countable, PlainLabels, Parsable, WriteFile, ParseFrom, Ends;
    var u := FileLeads(items, after);
    FileEnds(WriteFile(items, after), u);
    assert Entries(items) + [] == Entries(items);
  }

  lemma WholeAt(b: seq<Byte>)
    ensures At(b, 0, b)
  {
  }

  lemma FileEnds(b: seq<Byte>, u: Stand)
    requires u.pos == |b| && u.phase == Label
    ensures Reads(b, u.pos, Label) && CountEnds(b, u.pos) == 0 && Fits(b, u.pos) && Table(b, u) == FileTable(true, [])
  {
  }

  /** A written file that fits the buffers, loaded: the table holds its entries in order, and is ok. */
  method LoadWritten(reader: TextFileReader, items: seq<Item>, after: seq<Row>) returns (info: array<Entry>)
    requires reader.Sized() && ValidItems(items) && IdleRows(after) && SmallItems(items) && SmallRows(after)
    modifies reader.buffer, reader.buffer2, reader.buffer3, reader.tbuffer
    ensures fresh(info) && info.Length == Ends(items) + 500 && |items| <= info.Length
    ensures forall k | 0 <= k < |items| :: info[k] == items[k].Told()
    ensures forall k | |items| <= k < info.Length :: info[k] == NO_ENTRY
  {
    hide ParseFrom, Countable, PlainLabels, Parsable, CountEnds, Fits, Entries, WriteFile, Ends, SmallItems, SmallRows,
         Item.Told, ValidItems, IdleRows;
    WrittenFileParses(items, after);
    var ok;
    ok, info := reader.Load(WriteFile(items, after));
    EntriesAre(items);
    assert forall k | 0 <= k < |items| :: info[k] == info[..|items|][k];
  }

  lemma EntriesAre(items: seq<Item>)
    ensures |Entries(items)| == |items| && forall k | 0 <= k < |items| :: Entries(items)[k] == items[k].Told()
  {
  }
}
