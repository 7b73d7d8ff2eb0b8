/**
 * The objects of Core/Tools/Babylon/TransDB.cpp and CBabylonDlg::UpdateLabel of BabylonDlg.cpp, which
 * changes them in place.
 */
module BabylonObjects {
  import opened Options
  import opened TextKeys
  import opened Selections
  import opened BabylonLabel
  import opened BabylonLabelLaws

  /** BabylonText */
  class TextObject {
    var str: string
    var wave: string
    var revision: int
    var retranslate: bool
    var translations: seq<Translation>
    var matched: TextObject?
    var owner: LabelObject?

    function Value(): Text
      reads this`str, this`wave, this`revision, this`retranslate, this`translations
    {
      Text(str, wave, revision, retranslate, translations)
    }

    /** BabylonText::Clone */
    constructor Clone(t: TextObject)
      ensures Value() == CloneText(t.Value()) && matched == null && owner == null
    {
      str, wave, revision, retranslate, translations := t.str, t.wave, t.revision, false, t.translations;
      matched, owner := null, null;
    }
  }

  function Values(texts: seq<TextObject>): (r: seq<Text>)
    reads texts`str, texts`wave, texts`revision, texts`retranslate, texts`translations
    ensures |r| == |texts| && forall i | 0 <= i < |r| :: r[i] == texts[i].Value()
  {
    if texts == [] then [] else Values(texts[..|texts| - 1]) + [texts[|texts| - 1].Value()]
  }

  /** BabylonLabel */
  class LabelObject {
    const name: string
    var comment: string
    var context: string
    var speaker: string
    var listener: string
    var maxLen: int
    var texts: seq<TextObject>
    var processed: bool

    function Value(): Label
      reads this`comment, this`context, this`speaker, this`listener, this`maxLen, this`texts,
            texts`str, texts`wave, texts`revision, texts`retranslate, texts`translations
    {
      Label(name, comment, context, speaker, listener, maxLen, Values(texts))
    }

    /** BabylonLabel::Clone, before its texts are cloned. */
    constructor CloneFields(l: LabelObject)
      ensures name == l.name && comment == l.comment && context == l.context && speaker == l.speaker
              && listener == l.listener && maxLen == l.maxLen && texts == [] && !processed
    {
      name, comment, context, speaker, listener, maxLen := l.name, l.comment, l.context, l.speaker, l.listener, l.maxLen;
      texts, processed := [], false;
    }
  }

  /** TransDB. textBin lists the texts in the order in which the hash bin got them. */
  class Database {
    var labels: seq<LabelObject>
    var obsolete: seq<TextObject>
    var textBin: seq<TextObject>
    const multiText: bool

    constructor (multiText: bool)
      ensures labels == [] && obsolete == [] && textBin == [] && this.multiText == multiText
    {
      labels, obsolete, textBin := [], [], [];
      this.multiText := multiText;
    }
  }

  // ---------------------------------------------------------------------------------------
  // Structure
  // ---------------------------------------------------------------------------------------

  predicate Distinct(texts: seq<TextObject>) {
    forall i, j | 0 <= i < j < |texts| :: texts[i] != texts[j]
  }

  /** The texts of a label, each once, know their label. */
  predicate Owned(l: LabelObject)
    reads l`texts, l.texts`owner
  {
    Distinct(l.texts) && forall t | t in l.texts :: t.owner == l
  }

  /** Of the texts of label l the bin holds exactly those in the list. */
  predicate Binned(bin: seq<TextObject>, l: LabelObject, texts: seq<TextObject>)
    reads bin`owner
  {
    && Distinct(bin)
    && (forall t | t in texts :: t in bin && t.owner == l)
    && (forall t | t in bin && t.owner == l :: t in texts)
  }

  /** Where the bin has the text. */
  function PlaceOf(bin: seq<TextObject>, t: TextObject): (r: nat)
    ensures r <= |bin| && (r < |bin| ==> bin[r] == t) && (t in bin ==> r < |bin|)
    ensures forall k | 0 <= k < r :: bin[k] != t
  {
    if bin == [] then 0 else if bin[0] == t then 0 else 1 + PlaceOf(bin[1..], t)
  }

  /** The order of the texts in the bin. */
  function Places(bin: seq<TextObject>, texts: seq<TextObject>): nat -> nat {
    (j: nat) => if j < |texts| then PlaceOf(bin, texts[j]) else 0
  }

  // ---------------------------------------------------------------------------------------
  // FindText and FindNextText
  // ---------------------------------------------------------------------------------------

  /** Bin::GetNextBinItem: the next text from place k on with the key. */
  method NextSame(bin: seq<TextObject>, start: nat, key: string) returns (k: nat)
    requires start <= |bin|
    ensures start <= k <= |bin| && (k < |bin| ==> SameKey(bin[k].str, key))
    ensures forall i | start <= i < k :: !SameKey(bin[i].str, key)
  {
    hide SameKey;
    k := start;
    while k < |bin| && !SameKey(bin[k].str, key)
      invariant start <= k <= |bin| && forall i | start <= i < k :: !SameKey(bin[i].str, key)
    {
      k := k + 1;
    }
  }

  lemma {:induction false} FindIsFirst(d: seq<Text>, rank: nat -> nat, key: string, n: nat, j: nat)
    requires j < n <= |d| && SameKey(d[j].str, key)
    requires forall i | 0 <= i < n && i != j && SameKey(d[i].str, key) :: rank(j) < rank(i)
    ensures Find(d, rank, key, n) == j
  {
    hide SameKey;
    if j < n - 1 {
      FindIsFirst(d, rank, key, n - 1, j);
    } else {
      var best := Find(d, rank, key, n - 1);
    }
  }

  lemma {:induction false} FindNone(d: seq<Text>, rank: nat -> nat, key: string, n: nat)
    requires n <= |d| && forall i | 0 <= i < n :: !SameKey(d[i].str, key)
    ensures Find(d, rank, key, n) == -1
  {
    hide SameKey;
    if n > 0 { FindNone(d, rank, key, n - 1); }
  }

  /** The search for a text of the destination label among all texts of the database. */
  method FindText(bin: seq<TextObject>, destination: LabelObject, key: string, ghost texts: seq<TextObject>)
    returns (dtext: TextObject?)
    requires Binned(bin, destination, texts) && Distinct(texts)
    ensures var j := Find(Values(texts), Places(bin, texts), key, |texts|);
            if j < 0 then dtext == null else dtext == texts[j]
  {
    hide SameKey;
    var k := NextSame(bin, 0, key);
    while k < |bin| && bin[k].owner != destination
      invariant 0 <= k <= |bin| && (k < |bin| ==> SameKey(bin[k].str, key))
      invariant forall i | 0 <= i < k && SameKey(bin[i].str, key) :: bin[i].owner != destination
    {
      k := NextSame(bin, k + 1, key);
    }
    ghost var d, rank := Values(texts), Places(bin, texts);
    if k == |bin| {
      forall i | 0 <= i < |texts| ensures !SameKey(d[i].str, key) {
        assert bin[PlaceOf(bin, texts[i])] == texts[i];
      }
      FindNone(d, rank, key, |texts|);
      dtext := null;
    } else {
      dtext := bin[k];
      ghost var j :| 0 <= j < |texts| && texts[j] == dtext;
      PlaceIs(bin, k);
      forall i | 0 <= i < |texts| && i != j && SameKey(d[i].str, key) ensures rank(j) < rank(i) {
        assert texts[i] != texts[j];
        assert bin[PlaceOf(bin, texts[i])] == texts[i];
      }
      FindIsFirst(d, rank, key, |texts|, j);
    }
  }

  lemma PlaceIs(bin: seq<TextObject>, k: nat)
    requires Distinct(bin) && k < |bin|
    ensures PlaceOf(bin, bin[k]) == k
  {
  }

  // ---------------------------------------------------------------------------------------
  // Matching
  // ---------------------------------------------------------------------------------------

  /** The text at an index, or null for -1. */
  function TextAt(texts: seq<TextObject>, k: int): TextObject?
    requires k < |texts|
  {
    if k < 0 then null else texts[k]
  }

  /** The matched pointers are the matching m. */
  predicate Linked(s: seq<TextObject>, d: seq<TextObject>, m: Matching)
    reads s`matched, d`matched
  {
    && m.Fits(|s|, |d|)
    && (forall i | 0 <= i < |s| :: s[i].matched == TextAt(d, m.src[i]))
    && (forall j | 0 <= j < |d| :: d[j].matched == TextAt(s, m.dst[j]))
  }

  /** Two lists of different texts. */
  predicate Apart(s: seq<TextObject>, d: seq<TextObject>) {
    Distinct(s) && Distinct(d) && forall t | t in s :: t !in d
  }

  lemma ApartPairs(s: seq<TextObject>, d: seq<TextObject>)
    requires Apart(s, d)
    ensures forall i, k | 0 <= i < |s| && 0 <= k < |s| && i != k :: s[i] != s[k]
    ensures forall i, k | 0 <= i < |d| && 0 <= k < |d| && i != k :: d[i] != d[k]
    ensures forall i, k | 0 <= i < |s| && 0 <= k < |d| :: s[i] != d[k]
  {
    forall i, k | 0 <= i < |s| && 0 <= k < |d| ensures s[i] != d[k] {
      assert s[i] in s && d[k] in d;
    }
  }

  /** BabylonLabel::ClearMatched */
  method ClearMatched(texts: seq<TextObject>)
    modifies texts`matched
    ensures forall t | t in texts :: t.matched == null
  {
    var i := 0;
    while i < |texts|
      invariant 0 <= i <= |texts| && forall k | 0 <= k < i :: texts[k].matched == null
    {
      texts[i].matched := null;
      i := i + 1;
    }
  }

  /** dtext->Match ( stext ) and stext->Match ( dtext ) */
  method Match(s: seq<TextObject>, d: seq<TextObject>, i: nat, dtext: TextObject, ghost j: nat, ghost m: Matching)
    requires Apart(s, d) && Linked(s, d, m) && i < |s| && j < |d| && dtext == d[j] && m.src[i] < 0
    modifies s`matched, d`matched
    ensures Linked(s, d, m.Bind(i, j))
  {
    BindFits(m, |s|, |d|, i, j);
    ApartPairs(s, d);
    dtext.matched := s[i];
    s[i].matched := dtext;
  }

  lemma MatchEqualStep(s: seq<Text>, d: seq<Text>, rank: nat -> nat, n: nat)
    requires n < |s| && MatchEqual(s, d, rank, n).Some?
    ensures var m, j := MatchEqual(s, d, rank, n).value, Find(d, rank, s[n].str, |d|);
            MatchEqual(s, d, rank, n + 1)
            == if j < 0 then Some(m) else if m.dst[j] >= 0 then None else Some(m.Bind(n, j))
  {
  }

  lemma {:induction false} MatchEqualFails(s: seq<Text>, d: seq<Text>, rank: nat -> nat, n: nat, k: nat)
    requires n <= k <= |s| && MatchEqual(s, d, rank, n).None?
    ensures MatchEqual(s, d, rank, k).None?
  {
    if n < k { MatchEqualFails(s, d, rank, n, k - 1); }
  }

  /** One turn of the first loop: finds the text that equals source text i and matches it. */
  method MatchOne(s: seq<TextObject>, d: seq<TextObject>, i: nat, bin: seq<TextObject>, destination: LabelObject,
                  ghost m: Matching, ghost sv: seq<Text>, ghost dv: seq<Text>)
    returns (ok: bool, ghost r: Matching)
    requires Apart(s, d) && Binned(bin, destination, d) && Linked(s, d, m) && i < |s|
    requires sv == Values(s) && dv == Values(d)
    requires |m.src| == |s| && m.src[i] < 0
    modifies s`matched, d`matched
    ensures |m.dst| == |d| == |dv| && |sv| == |s|
    ensures var j := Find(dv, Places(bin, d), sv[i].str, |dv|);
            if j < 0 then ok && r == m else if m.dst[j] >= 0 then !ok else ok && r == m.Bind(i, j)
    ensures ok ==> Linked(s, d, r) && |r.src| == |s| && forall k | i < k < |s| :: r.src[k] == m.src[k]
  {
    hide Find, Linked, Apart, Binned, Places, SameKey;
    ApartDistinct(s, d);
    LinkedFits(s, d, m);
    ghost var j := Find(Values(d), Places(bin, d), s[i].str, |d|);
    var dtext := FindText(bin, destination, s[i].str, d);
    r := m;
    if j >= 0 { LinkedAt(s, d, m, j); }
    if dtext != null && dtext.matched != null { return false, m; }
    if dtext != null {
      BindFits(m, |s|, |d|, i, j);
      Match(s, d, i, dtext, j, m);
      r := m.Bind(i, j);
    }
    ok := true;
  }

  /** The first loop of UpdateLabel; it fails on a text that is matched twice. */
  method MatchEqualTexts(s: seq<TextObject>, d: seq<TextObject>, bin: seq<TextObject>, destination: LabelObject)
    returns (ok: bool, ghost m: Matching)
    requires Apart(s, d) && Binned(bin, destination, d)
    requires (forall t | t in s :: t.matched == null) && forall t | t in d :: t.matched == null
    modifies s`matched, d`matched
    ensures MatchEqual(old(Values(s)), old(Values(d)), Places(bin, d), |s|) == if ok then Some(m) else None
    ensures ok ==> Linked(s, d, m)
  {
    hide *;
    ghost var sv, dv, rank := Values(s), Values(d), Places(bin, d);
    m := Unmatched(|s|, |d|);
    MatchNothing(sv, dv, rank);
    LinkedNothing(s, d);
    var i := 0;
    while i < |s|
      invariant 0 <= i <= |s| && MatchEqual(sv, dv, rank, i) == Some(m) && Linked(s, d, m)
      invariant |m.src| == |s| && forall k | i <= k < |s| :: m.src[k] < 0
    {
      MatchEqualStep(sv, dv, rank, i);
      ghost var r;
      ok, r := MatchOne(s, d, i, bin, destination, m, sv, dv);
      if !ok {
        MatchEqualFails(sv, dv, rank, i + 1, |s|);
        return false, m;
      }
      m := r;
      i := i + 1;
    }
    ok := true;
  }

  lemma ApartDistinct(s: seq<TextObject>, d: seq<TextObject>)
    requires Apart(s, d)
    ensures Distinct(s) && Distinct(d)
  {
  }

  lemma LinkedNothing(s: seq<TextObject>, d: seq<TextObject>)
    requires (forall t | t in s :: t.matched == null) && forall t | t in d :: t.matched == null
    ensures Linked(s, d, Unmatched(|s|, |d|))
  {
  }

  lemma LinkedAt(s: seq<TextObject>, d: seq<TextObject>, m: Matching, j: nat)
    requires Linked(s, d, m) && j < |d|
    ensures m.Fits(|s|, |d|) && (d[j].matched != null <==> m.dst[j] >= 0)
  {
  }

  lemma LinkedSource(s: seq<TextObject>, d: seq<TextObject>, m: Matching, i: nat)
    requires Linked(s, d, m) && i < |s|
    ensures m.Fits(|s|, |d|) && (s[i].matched != null <==> m.src[i] >= 0)
  {
  }

  lemma MatchNothing(s: seq<Text>, d: seq<Text>, rank: nat -> nat)
    ensures MatchEqual(s, d, rank, 0) == Some(Unmatched(|s|, |d|))
    ensures |Unmatched(|s|, |d|).src| == |s| && forall k | 0 <= k < |s| :: Unmatched(|s|, |d|).src[k] < 0
  {
  }

  // ---------------------------------------------------------------------------------------
  // Questions
  // ---------------------------------------------------------------------------------------

  /** BabylonLabel::AllMatched */
  method AllMatched(texts: seq<TextObject>) returns (r: bool)
    ensures r <==> forall t | t in texts :: t.matched != null
  {
    var i := 0;
    while i < |texts|
      invariant 0 <= i <= |texts| && forall k | 0 <= k < i :: texts[k].matched != null
    {
      if texts[i].matched == null { return false; }
      i := i + 1;
    }
    r := true;
  }

  lemma AllLinked(s: seq<TextObject>, d: seq<TextObject>, m: Matching)
    requires Linked(s, d, m)
    ensures m.AllDstMatched() <==> forall t | t in d :: t.matched != null
  {
    if m.AllDstMatched() {
      assert forall j | 0 <= j < |d| :: d[j].matched != null;
    } else {
      var j :| 0 <= j < |m.dst| && m.dst[j] < 0;
      assert d[j] in d && d[j].matched == null;
    }
  }

  /** The list of unmatched texts that CMatchDlg::OnInitDialog fills. */
  method Unresolved(texts: seq<TextObject>, ghost marks: seq<bool>) returns (rows: seq<TextObject>)
    requires |marks| == |texts| && forall j | 0 <= j < |texts| :: marks[j] <==> texts[j].matched != null
    ensures var places := Where(marks, false, |texts|);
            |rows| == |places| && forall p | 0 <= p < |rows| :: rows[p] == texts[places[p]]
  {
    rows := [];
    var i := 0;
    while i < |texts|
      invariant 0 <= i <= |texts|
      invariant var places := Where(marks, false, i);
                |rows| == |places| && forall p | 0 <= p < |rows| :: rows[p] == texts[places[p]]
    {
      if texts[i].matched == null { rows := rows + [texts[i]]; }
      i := i + 1;
    }
  }

  /** What a dialog does with its answer: it ends with a code, or picks a text and marks it. */
  method Ask(d: seq<TextObject>, multiText: bool, answer: Answer, ghost marks: seq<bool>)
    returns (stop: Option<Code>, target: TextObject?, ghost reply: Reply)
    requires |d| > 0 && Distinct(d) && |marks| == |d| && forall j | 0 <= j < |d| :: marks[j] <==> d[j].matched != null
    modifies d`retranslate
    ensures reply == Dialog(answer, multiText, marks)
    ensures match reply
            case Stop(code) => stop == Some(code) && Values(d) == old(Values(d))
            case Go(j, mark) =>
              && stop == None && target == TextAt(d, j)
              && Values(d) == if mark.Some? then old(Values(d))[j := old(Values(d))[j].(retranslate := mark.value)]
                              else old(Values(d))
  {
    hide Where;
    reply := Dialog(answer, multiText, marks);
    stop, target := None, null;
    match answer {
      case Cancel => stop := Some(Cancelled);
      case Skip => stop := Some(Skipped);
      case Plain => if !multiText { target := d[0]; }
      case NoMatch =>
        if !multiText {
          target := d[0];
          Mark(d, target, 0, false);
        }
      case Match(row, retranslate) =>
        if multiText {
          var rows := Unresolved(d, marks);
          if row < |rows| {
            target := rows[row];
            Mark(d, target, Where(marks, false, |d|)[row], retranslate);
          }
        } else {
          target := d[0];
          Mark(d, target, 0, true);
        }
    }
  }

  /** SetRetranslate */
  method Mark(d: seq<TextObject>, target: TextObject, ghost j: nat, mark: bool)
    requires Distinct(d) && j < |d| && target == d[j]
    modifies d`retranslate
    ensures Values(d) == old(Values(d))[j := old(Values(d))[j].(retranslate := mark)]
  {
    target.retranslate := mark;
    assert forall k | 0 <= k < |d| && k != j :: d[k] != d[j];
  }

  lemma AskFromStep(w: Session, i: nat, mode: Mode)
    requires i <= |w.m.src| && |w.m.dst| == |w.d|
    ensures i == |w.m.src| || w.m.AllDstMatched() ==> AskFrom(w, i, mode) == (Ok, w)
    ensures i < |w.m.src| && !w.m.AllDstMatched() && w.m.src[i] >= 0 ==> AskFrom(w, i, mode) == AskFrom(w, i + 1, mode)
    ensures i < |w.m.src| && !w.m.AllDstMatched() && w.m.src[i] < 0 ==>
              if !mode.update || mode.skip then AskFrom(w, i, mode) == (Skipped, w)
              else
                |w.m.dst| > 0 &&
                match Dialog(mode.answers(w.asked), mode.multiText, w.m.DstMarks())
                case Stop(code) => AskFrom(w, i, mode) == (code, w.(asked := w.asked + 1))
                case Go(target, mark) => AskFrom(w, i, mode) == AskFrom(Settle(w, i, target, mark), i + 1, mode)
  {
    hide Dialog, Settle;
  }

  lemma LinkedFits(s: seq<TextObject>, d: seq<TextObject>, m: Matching)
    requires Linked(s, d, m)
    ensures m.Fits(|s|, |d|)
  {
  }

  lemma LinkedMarks(s: seq<TextObject>, d: seq<TextObject>, m: Matching)
    requires Linked(s, d, m)
    ensures |m.DstMarks()| == |d| && forall j | 0 <= j < |d| :: m.DstMarks()[j] <==> d[j].matched != null
  {
  }

  lemma SettleIs(w: Session, i: nat, target: int, mark: Option<bool>)
    requires i < |w.m.src| && |w.m.dst| == |w.d| && target < |w.d|
    ensures target < 0 ==> Settle(w, i, target, mark) == w.(asked := w.asked + 1)
    ensures target >= 0 ==>
              Settle(w, i, target, mark)
              == Session(w.m.Bind(i, target),
                         if mark.Some? then w.d[target := w.d[target].(retranslate := mark.value)] else w.d, w.asked + 1)
  {
    if target >= 0 && mark.None? { assert w.d[target := w.d[target]] == w.d; }
  }

  /** The texts are in the state of the session. */
  predicate Synced(s: seq<TextObject>, d: seq<TextObject>, w: Session)
    reads s`matched, d`matched, d`str, d`wave, d`revision, d`retranslate, d`translations
  {
    Linked(s, d, w.m) && Values(d) == w.d
  }

  lemma SyncedFits(s: seq<TextObject>, d: seq<TextObject>, w: Session)
    requires Synced(s, d, w)
    ensures w.m.Fits(|s|, |d|) && |w.m.src| == |s| && |w.m.dst| == |w.d| == |d|
    ensures w.m.AllDstMatched() <==> forall t | t in d :: t.matched != null
    ensures forall i | 0 <= i < |s| :: s[i].matched != null <==> w.m.src[i] >= 0
  {
    AllLinked(s, d, w.m);
    forall i | 0 <= i < |s| ensures s[i].matched != null <==> w.m.src[i] >= 0 {
      LinkedSource(s, d, w.m, i);
    }
  }

  /** A dialog about destination texts leaves the source texts alone. */
  method AskAbout(s: seq<TextObject>, d: seq<TextObject>, multiText: bool, answer: Answer, ghost marks: seq<bool>)
    returns (stop: Option<Code>, target: TextObject?, ghost reply: Reply)
    requires Apart(s, d) && |d| > 0 && |marks| == |d| && forall j | 0 <= j < |d| :: marks[j] <==> d[j].matched != null
    modifies d`retranslate
    ensures reply == Dialog(answer, multiText, marks) && Values(s) == old(Values(s))
    ensures match reply
            case Stop(code) => stop == Some(code) && Values(d) == old(Values(d))
            case Go(j, mark) =>
              && stop == None && target == TextAt(d, j)
              && Values(d) == if mark.Some? then old(Values(d))[j := old(Values(d))[j].(retranslate := mark.value)]
                              else old(Values(d))
  {
    hide Dialog;
    ghost var sv := Values(s);
    assert forall i | 0 <= i < |s| :: s[i] !in d;
    stop, target, reply := Ask(d, multiText, answer, marks);
    assert forall i | 0 <= i < |s| :: s[i].Value() == sv[i];
  }

  /** One question: the dialog, and the match it leads to. */
  method Resolve(s: seq<TextObject>, d: seq<TextObject>, i: nat, mode: Mode, asked: nat, ghost w: Session)
    returns (stop: Option<Code>, ghost r: Session)
    requires Apart(s, d) && Synced(s, d, w) && asked == w.asked && i < |s| == |w.m.src| && w.m.src[i] < 0 && |d| > 0
    modifies s`matched, d`matched, d`retranslate
    ensures Synced(s, d, r) && r.asked == asked + 1 && Values(s) == old(Values(s))
    ensures |w.m.dst| == |w.d| == |d|
    ensures match Dialog(mode.answers(w.asked), mode.multiText, w.m.DstMarks())
            case Stop(code) => stop == Some(code) && r == w.(asked := w.asked + 1)
            case Go(target, mark) => stop == None && r == Settle(w, i, target, mark)
  {
    hide *;
    SyncedIs(s, d, w);
    LinkedMarks(s, d, w.m);
    ghost var marks := w.m.DstMarks();
    var target;
    ghost var reply;
    stop, target, reply := AskAbout(s, d, mode.multiText, mode.answers(asked), marks);
    r := w.(asked := w.asked + 1);
    SyncedStart(s, d, r);
    if stop.Some? { return; }
    SettleIs(w, i, reply.target, reply.mark);
    TextAtIs(d, reply.target);
    r := Settle(w, i, reply.target, reply.mark);
    if target != null {
      Match(s, d, i, target, reply.target, w.m);
    }
    SyncedStart(s, d, r);
  }

  lemma TextAtIs(d: seq<TextObject>, j: int)
    requires j < |d|
    ensures TextAt(d, j) == if j < 0 then null else d[j]
  {
  }

  /** The second loop of UpdateLabel. */
  method AskUser(s: seq<TextObject>, d: seq<TextObject>, mode: Mode, asked: nat, ghost m: Matching)
    returns (code: Code, nowAsked: nat, ghost w: Session)
    requires Apart(s, d) && Linked(s, d, m)
    modifies s`matched, d`matched, d`retranslate
    ensures |m.src| == |s| && |m.dst| == |d|
    ensures (code, w) == AskFrom(Session(m, old(Values(d)), asked), 0, mode)
    ensures nowAsked == w.asked && Synced(s, d, w) && Values(s) == old(Values(s))
  {
    hide *;
    LinkedFits(s, d, m);
    w := Session(m, Values(d), asked);
    SyncedStart(s, d, w);
    nowAsked := asked;
    ghost var all := AskFrom(w, 0, mode);
    var i := 0;
    while i < |s|
      invariant 0 <= i <= |s| && Synced(s, d, w) && nowAsked == w.asked && Values(s) == old(Values(s))
      invariant |w.m.src| == |s| && |w.m.dst| == |w.d| == |d| && AskFrom(w, i, mode) == all
    {
      AskFromStep(w, i, mode);
      SyncedFits(s, d, w);
      var done := AllMatched(d);
      if done { break; }
      if s[i].matched == null {
        if !mode.update || mode.skip { return Skipped, nowAsked, w; }
        var stop, r := Resolve(s, d, i, mode, nowAsked, w);
        SyncedFits(s, d, r);
        w := r;
        nowAsked := nowAsked + 1;
        if stop.Some? { return stop.value, nowAsked, w; }
      }
      i := i + 1;
    }
    AskFromStep(w, i, mode);
    SyncedFits(s, d, w);
    code := Ok;
  }

  lemma SyncedStart(s: seq<TextObject>, d: seq<TextObject>, w: Session)
    ensures Linked(s, d, w.m) && Values(d) == w.d ==> Synced(s, d, w)
  {
  }

  // ---------------------------------------------------------------------------------------
  // Lists of texts
  // ---------------------------------------------------------------------------------------

  /** The list without the first occurrence of an element. */
  function Without<T(==)>(xs: seq<T>, x: T): (r: seq<T>)
    ensures forall y | y in r :: y in xs
    ensures forall y | y in xs && y != x :: y in r
  {
    if xs == [] then [] else if xs[0] == x then xs[1..] else [xs[0]] + Without(xs[1..], x)
  }

  lemma {:induction false} WithoutMiddle<T>(a: seq<T>, t: T, b: seq<T>)
    requires t !in a
    ensures Without(a + [t] + b, t) == a + b
  {
    var all := a + [t] + b;
    if a == [] {
      assert all[1..] == b && a + b == b;
    } else {
      assert all[0] == a[0] && all[1..] == a[1..] + [t] + b;
      WithoutMiddle(a[1..], t, b);
      assert a + b == [a[0]] + (a[1..] + b);
    }
  }

  lemma {:induction false} WithoutDistinct(texts: seq<TextObject>, t: TextObject)
    requires Distinct(texts)
    ensures Distinct(Without(texts, t)) && t !in Without(texts, t)
  {
    if texts != [] {
      var rest := texts[1..];
      assert texts == [texts[0]] + rest;
      assert forall x | x in rest :: x != texts[0];
      if texts[0] != t {
        WithoutDistinct(rest, t);
        DistinctCons(texts[0], Without(rest, t));
      }
    }
  }

  lemma DistinctCons(t: TextObject, texts: seq<TextObject>)
    ensures Distinct([t] + texts) <==> t !in texts && Distinct(texts)
  {
    var all := [t] + texts;
    if Distinct(all) {
      forall k | 0 <= k < |texts| ensures texts[k] != t { assert all[0] != all[k + 1]; }
      forall i, j | 0 <= i < j < |texts| ensures texts[i] != texts[j] { assert all[i + 1] != all[j + 1]; }
    }
  }

  lemma DistinctPush(texts: seq<TextObject>, t: TextObject)
    requires Distinct(texts) && t !in texts
    ensures Distinct(texts + [t])
  {
  }

  lemma {:induction false} ValuesJoin(a: seq<TextObject>, b: seq<TextObject>)
    ensures Values(a + b) == Values(a) + Values(b)
  {
  }

  lemma SelectMore<T>(xs: seq<T>, marks: seq<bool>, want: bool, n: nat)
    requires n < |xs| == |marks|
    ensures marks[n] == want ==> Select(xs, marks, want, n + 1) == Select(xs, marks, want, n) + [xs[n]]
    ensures marks[n] != want ==> Select(xs, marks, want, n + 1) == Select(xs, marks, want, n)
  {
  }

  lemma SelectNone<T>(xs: seq<T>, marks: seq<bool>, want: bool)
    requires |xs| == |marks|
    ensures Select(xs, marks, want, 0) == []
  {
  }

  lemma {:induction false} ValuesSelect(texts: seq<TextObject>, marks: seq<bool>, want: bool, n: nat)
    requires n <= |texts| == |marks|
    ensures Values(Select(texts, marks, want, n)) == Select(Values(texts), marks, want, n)
  {
    hide *;
    if n == 0 {
      SelectNone(texts, marks, want);
      SelectNone(Values(texts), marks, want);
      NoTexts(Select(texts, marks, want, 0));
    } else {
      SelectMore(texts, marks, want, n - 1);
      SelectMore(Values(texts), marks, want, n - 1);
      ValuesSelect(texts, marks, want, n - 1);
      ValuesPush(Select(texts, marks, want, n - 1), texts[n - 1]);
    }
  }

  /** Two bins with the same texts. */
  predicate SameTexts(a: seq<TextObject>, b: seq<TextObject>) {
    Distinct(b) && (forall t | t in a :: t in b) && forall t | t in b :: t in a
  }

  // ---------------------------------------------------------------------------------------
  // Updating
  // ---------------------------------------------------------------------------------------

  /** BabylonText::Set, which takes the text out of the bin and adds it again. */
  method SetText(t: TextObject, str: string, db: Database)
    requires t in db.textBin && Distinct(db.textBin)
    modifies t`str, db`textBin
    ensures t.str == str && SameTexts(old(db.textBin), db.textBin)
  {
    WithoutDistinct(db.textBin, t);
    db.textBin := Without(db.textBin, t);
    t.str := str;
    DistinctPush(db.textBin, t);
    db.textBin := db.textBin + [t];
  }

  /** One turn of the third loop: brings a matched text up to date. */
  method RefreshText(dtext: TextObject, stext: TextObject, db: Database, update: bool)
    returns (edited: bool, waved: bool, marked: bool)
    requires dtext != stext && dtext in db.textBin && Distinct(db.textBin)
    modifies dtext`str, dtext`wave, dtext`revision, dtext`retranslate, db`textBin
    ensures dtext.Value() == Refresh(old(dtext.Value()), stext.Value(), update)
    ensures edited == (old(dtext.str) != stext.str) && marked == old(dtext.retranslate)
    ensures waved == !SameIgnoringCase(old(dtext.wave), stext.wave)
    ensures SameTexts(old(db.textBin), db.textBin)
  {
    hide SameIgnoringCase;
    edited := dtext.str != stext.str;
    if edited && update { SetText(dtext, stext.str, db); }
    waved := !SameIgnoringCase(dtext.wave, stext.wave);
    if waved && update { dtext.wave := stext.wave; }
    marked := dtext.retranslate;
    if marked && update { dtext.revision := dtext.revision + 1; }
    dtext.retranslate := false;
  }

  /** One turn of the third loop, for destination text j. */
  method RefreshOne(s: seq<TextObject>, d: seq<TextObject>, j: nat, db: Database, update: bool,
                    ghost w: Session, ghost sv: seq<Text>)
    returns (edited: bool, waved: bool, marked: bool)
    requires Apart(s, d) && Linked(s, d, w.m) && Values(s) == sv && j < |d| == |w.d| && d[j].Value() == w.d[j]
    requires Distinct(db.textBin) && d[j] in db.textBin
    modifies d`str, d`wave, d`revision, d`retranslate, db`textBin
    ensures Linked(s, d, w.m) && Values(s) == sv && |w.m.dst| == |d| && w.m.dst[j] < |sv|
    ensures var k := w.m.dst[j];
            && d[j].Value() == (if k >= 0 then Refresh(w.d[j], sv[k], update) else w.d[j])
            && edited == (k >= 0 && w.d[j].str != sv[k].str)
            && waved == (k >= 0 && !SameIgnoringCase(w.d[j].wave, sv[k].wave))
            && marked == (k >= 0 && w.d[j].retranslate)
    ensures forall i | 0 <= i < |d| && i != j :: d[i].Value() == old(d[i].Value())
    ensures SameTexts(old(db.textBin), db.textBin)
  {
    hide Refresh, SameIgnoringCase, Linked, SameTexts;
    ApartPairs(s, d);
    LinkedTo(s, d, w.m, j);
    var stext := d[j].matched;
    edited, waved, marked := false, false, false;
    SameTextsStart(db.textBin);
    if stext != null {
      edited, waved, marked := RefreshText(d[j], stext, db, update);
      assert forall i | 0 <= i < |s| :: s[i].Value() == sv[i];
    }
  }

  /** The third loop of UpdateLabel: counts of changed strings and waves, and whether a mark was set. */
  method RefreshTexts(s: seq<TextObject>, d: seq<TextObject>, db: Database, update: bool, ghost w: Session)
    returns (edits: nat, waves: nat, marked: bool)
    requires Apart(s, d) && Synced(s, d, w) && Distinct(db.textBin) && forall t | t in d :: t in db.textBin
    modifies d`str, d`wave, d`revision, d`retranslate, db`textBin
    ensures Linked(s, d, w.m) && |w.d| == |d|
    ensures Values(d) == RefreshAll(old(Values(s)), w.d, w.m.dst, update) && Values(s) == old(Values(s))
    ensures edits == StringEdits(old(Values(s)), w.d, w.m.dst, |d|)
    ensures waves == WaveEdits(old(Values(s)), w.d, w.m.dst, |d|)
    ensures marked <==> Marked(w.d, w.m.dst, |d|) > 0
    ensures SameTexts(old(db.textBin), db.textBin)
  {
    hide *;
    SyncedIs(s, d, w);
    ghost var sv, all := Values(s), RefreshAll(Values(s), w.d, w.m.dst, update);
    RefreshAllSize(sv, w.d, w.m.dst, update);
    NoCounts(sv, w.d, w.m.dst);
    SameTextsStart(db.textBin);
    edits, waves, marked := 0, 0, false;
    var j := 0;
    while j < |d|
      invariant 0 <= j <= |d| && Linked(s, d, w.m) && Values(s) == sv
      invariant forall k | 0 <= k < |d| :: d[k].Value() == if k < j then all[k] else w.d[k]
      invariant edits == StringEdits(sv, w.d, w.m.dst, j) && waves == WaveEdits(sv, w.d, w.m.dst, j)
      invariant marked <==> Marked(w.d, w.m.dst, j) > 0
      invariant SameTexts(old(db.textBin), db.textBin)
    {
      RefreshStep(sv, w.d, w.m.dst, update, j);
      SameTextsHas(old(db.textBin), db.textBin, d[j]);
      ghost var bin := db.textBin;
      var edited, waved, mark := RefreshOne(s, d, j, db, update, w, sv);
      SameTextsChain(old(db.textBin), bin, db.textBin);
      if edited { edits := edits + 1; }
      if waved { waves := waves + 1; }
      if mark { marked := true; }
      j := j + 1;
    }
    assert Values(d) == all;
  }

  lemma SyncedIs(s: seq<TextObject>, d: seq<TextObject>, w: Session)
    requires Synced(s, d, w)
    ensures Linked(s, d, w.m) && Values(d) == w.d && |w.m.dst| == |d| && forall j | 0 <= j < |d| :: w.m.dst[j] < |s|
  {
  }

  lemma RefreshAllSize(s: seq<Text>, d: seq<Text>, dst: seq<int>, update: bool)
    requires |dst| == |d| && forall j | 0 <= j < |d| :: dst[j] < |s|
    ensures |RefreshAll(s, d, dst, update)| == |d|
  {
  }

  lemma NoCounts(s: seq<Text>, d: seq<Text>, dst: seq<int>)
    requires |dst| == |d| && forall j | 0 <= j < |d| :: dst[j] < |s|
    ensures StringEdits(s, d, dst, 0) == WaveEdits(s, d, dst, 0) == Marked(d, dst, 0) == 0
  {
  }

  lemma RefreshStep(s: seq<Text>, d: seq<Text>, dst: seq<int>, update: bool, j: nat)
    requires |dst| == |d| && j < |d| && forall j | 0 <= j < |d| :: dst[j] < |s|
    ensures |RefreshAll(s, d, dst, update)| == |d|
    ensures RefreshAll(s, d, dst, update)[j] == if dst[j] >= 0 then Refresh(d[j], s[dst[j]], update) else d[j]
    ensures StringEdits(s, d, dst, j + 1)
         == StringEdits(s, d, dst, j) + if dst[j] >= 0 && d[j].str != s[dst[j]].str then 1 else 0
    ensures WaveEdits(s, d, dst, j + 1)
         == WaveEdits(s, d, dst, j) + if dst[j] >= 0 && !SameIgnoringCase(d[j].wave, s[dst[j]].wave) then 1 else 0
    ensures Marked(d, dst, j + 1) == Marked(d, dst, j) + if dst[j] >= 0 && d[j].retranslate then 1 else 0
  {
    hide Refresh, SameIgnoringCase;
  }

  lemma SameTextsStart(bin: seq<TextObject>)
    requires Distinct(bin)
    ensures SameTexts(bin, bin)
  {
  }

  lemma SameTextsHas(a: seq<TextObject>, b: seq<TextObject>, t: TextObject)
    requires SameTexts(a, b)
    ensures Distinct(b) && (t in a <==> t in b)
  {
  }

  lemma SameTextsChain(a: seq<TextObject>, b: seq<TextObject>, c: seq<TextObject>)
    requires SameTexts(a, b) && SameTexts(b, c)
    ensures SameTexts(a, c)
  {
  }

  lemma LinkedTo(s: seq<TextObject>, d: seq<TextObject>, m: Matching, j: nat)
    requires Linked(s, d, m) && j < |d|
    ensures m.Fits(|s|, |d|) && d[j].matched == TextAt(s, m.dst[j])
  {
  }

  // ---------------------------------------------------------------------------------------
  // Removing and adding texts
  // ---------------------------------------------------------------------------------------

  /** The bin without some of its texts. */
  predicate Fewer(bin: seq<TextObject>, now: seq<TextObject>, gone: seq<TextObject>) {
    && Distinct(now) && (forall t | t in now :: t in bin && t !in gone)
    && forall t | t in bin && t !in gone :: t in now
  }

  lemma FewerStep(bin: seq<TextObject>, now: seq<TextObject>, gone: seq<TextObject>, t: TextObject)
    requires Fewer(bin, now, gone)
    ensures Fewer(bin, Without(now, t), gone + [t])
  {
    WithoutDistinct(now, t);
  }

  /** BabylonText::Remove: takes the text out of its label and of the database's bin. */
  method RemoveText(l: LabelObject, db: Database, t: TextObject)
    modifies l`texts, t`owner, db`textBin
    ensures l.texts == Without(old(l.texts), t) && db.textBin == Without(old(db.textBin), t) && t.owner == null
  {
    l.texts := Without(l.texts, t);
    db.textBin := Without(db.textBin, t);
    t.owner := null;
  }

  lemma SelectTurn(d: seq<TextObject>, marks: seq<bool>, j: nat)
    requires j < |d| == |marks| && Distinct(d)
    ensures marks[j] ==> Select(d, marks, true, j) + d[j..] == Select(d, marks, true, j + 1) + d[j + 1..]
    ensures marks[j] ==> Select(d, marks, false, j + 1) == Select(d, marks, false, j)
    ensures !marks[j] ==> Without(Select(d, marks, true, j) + d[j..], d[j]) == Select(d, marks, true, j + 1) + d[j + 1..]
    ensures !marks[j] ==> Select(d, marks, false, j + 1) == Select(d, marks, false, j) + [d[j]]
    ensures Count(marks, false, j + 1) == Count(marks, false, j) + if marks[j] then 0 else 1
  {
    var a := Select(d, marks, true, j);
    assert d[j..] == [d[j]] + d[j + 1..];
    if marks[j] {
      assert a + ([d[j]] + d[j + 1..]) == (a + [d[j]]) + d[j + 1..];
    } else {
      SelectedBefore(d, marks, true, j);
      assert d[j] !in a;
      assert a + ([d[j]] + d[j + 1..]) == a + [d[j]] + d[j + 1..];
      WithoutMiddle(a, d[j], d[j + 1..]);
    }
  }

  lemma {:induction false} SelectedBefore<T>(d: seq<T>, marks: seq<bool>, want: bool, n: nat)
    requires n <= |d| == |marks|
    ensures forall t | t in Select(d, marks, want, n) :: t in d[..n]
    ensures forall k | 0 <= k < n && marks[k] == want :: d[k] in Select(d, marks, want, n)
  {
    if n > 0 {
      SelectedBefore(d, marks, want, n - 1);
      assert d[..n] == d[..n - 1] + [d[n - 1]];
    }
  }

  /** The label, the bin and the obsolete list when the loop below has passed j texts. */
  ghost predicate Moving(destination: LabelObject, db: Database, d: seq<TextObject>, marks: seq<bool>, j: nat,
                         bin: seq<TextObject>, obsolete: seq<TextObject>)
    reads destination`texts, db`textBin, db`obsolete
  {
    && j <= |d| == |marks| && destination.texts == Select(d, marks, true, j) + d[j..]
    && db.obsolete == obsolete + Select(d, marks, false, j)
    && Fewer(bin, db.textBin, Select(d, marks, false, j))
  }

  lemma MovingStart(destination: LabelObject, db: Database, marks: seq<bool>)
    requires |marks| == |destination.texts| && Distinct(db.textBin)
    ensures Moving(destination, db, destination.texts, marks, 0, db.textBin, db.obsolete) && Count(marks, false, 0) == 0
  {
    hide Count;
    assert db.obsolete + [] == db.obsolete;
    CountNothing(marks);
  }

  lemma CountNothing(marks: seq<bool>)
    ensures Count(marks, false, 0) == 0
  {
  }

  lemma MovingPasses(destination: LabelObject, db: Database, d: seq<TextObject>, marks: seq<bool>, j: nat,
                     bin: seq<TextObject>, obsolete: seq<TextObject>)
    requires Moving(destination, db, d, marks, j, bin, obsolete) && j < |d| && Distinct(d)
    ensures j < |marks| && (marks[j] ==> Moving(destination, db, d, marks, j + 1, bin, obsolete))
  {
    hide Select, Fewer, Distinct;
    SelectTurn(d, marks, j);
  }

  lemma MovingEnd(destination: LabelObject, db: Database, d: seq<TextObject>, marks: seq<bool>,
                  bin: seq<TextObject>, obsolete: seq<TextObject>)
    requires Moving(destination, db, d, marks, |d|, bin, obsolete)
    ensures destination.texts == Select(d, marks, true, |d|) && db.obsolete == obsolete + Select(d, marks, false, |d|)
    ensures Fewer(bin, db.textBin, Select(d, marks, false, |d|))
  {
    hide Select, Fewer;
  }

  /** Remove and AddObsolete of text j. */
  method MoveText(destination: LabelObject, db: Database, dtext: TextObject, ghost d: seq<TextObject>, ghost marks: seq<bool>,
                  ghost j: nat, ghost bin: seq<TextObject>, ghost obsolete: seq<TextObject>)
    requires Moving(destination, db, d, marks, j, bin, obsolete) && j < |d| == |marks| && Distinct(d) && dtext == d[j] && !marks[j]
    modifies destination`texts, dtext`owner, db`textBin, db`obsolete
    ensures Moving(destination, db, d, marks, j + 1, bin, obsolete) && dtext.owner == null
  {
    hide Select, Fewer, Distinct;
    SelectTurn(d, marks, j);
    FewerStep(bin, db.textBin, Select(d, marks, false, j), dtext);
    RemoveText(destination, db, dtext);
    db.obsolete := db.obsolete + [dtext];
    assert db.obsolete == obsolete + (Select(d, marks, false, j) + [dtext]);
  }

  /** The loop that moves texts without a match to the obsolete list. */
  method DropOld(destination: LabelObject, db: Database, d: seq<TextObject>, update: bool, ghost marks: seq<bool>)
    returns (gone: nat)
    requires destination.texts == d && Distinct(d) && Distinct(db.textBin)
    requires |marks| == |d| && forall j | 0 <= j < |d| :: marks[j] <==> d[j].matched != null
    modifies destination`texts, d`owner, db`textBin, db`obsolete
    ensures gone == Count(marks, false, |d|)
    ensures update ==>
              && destination.texts == Select(d, marks, true, |d|)
              && db.obsolete == old(db.obsolete) + Select(d, marks, false, |d|)
              && Fewer(old(db.textBin), db.textBin, Select(d, marks, false, |d|))
              && forall j | 0 <= j < |d| :: d[j].owner == if marks[j] then old(d[j].owner) else null
    ensures !update ==>
              && destination.texts == d && db.obsolete == old(db.obsolete) && db.textBin == old(db.textBin)
              && forall j | 0 <= j < |d| :: d[j].owner == old(d[j].owner)
  {
    hide *;
    ghost var bin, obsolete := db.textBin, db.obsolete;
    MovingStart(destination, db, marks);
    DistinctPairs(d);
    gone := 0;
    var j := 0;
    while j < |d|
      invariant 0 <= j <= |d| && gone == Count(marks, false, j)
      invariant update ==> Moving(destination, db, d, marks, j, bin, obsolete)
      invariant !update ==> destination.texts == d && db.obsolete == obsolete && db.textBin == bin
      invariant forall k | 0 <= k < |d| :: d[k].owner == if update && k < j && !marks[k] then null else old(d[k].owner)
    {
      if update { MovingPasses(destination, db, d, marks, j, bin, obsolete); }
      CountTurn(marks, j);
      var dtext := d[j];
      if dtext.matched == null {
        if update { MoveText(destination, db, dtext, d, marks, j, bin, obsolete); }
        gone := gone + 1;
      }
      j := j + 1;
    }
    if update { MovingEnd(destination, db, d, marks, bin, obsolete); }
  }

  lemma CountTurn(marks: seq<bool>, j: nat)
    requires j < |marks|
    ensures Count(marks, false, j + 1) == Count(marks, false, j) + if marks[j] then 0 else 1
  {
  }

  lemma DistinctPairs(d: seq<TextObject>)
    requires Distinct(d)
    ensures forall i, k | 0 <= i < |d| && 0 <= k < |d| && i != k :: d[i] != d[k]
  {
  }

  /** BabylonLabel::AddText */
  method AddText(l: LabelObject, db: Database, t: TextObject)
    modifies l`texts, db`textBin, t`owner
    ensures l.texts == old(l.texts) + [t] && db.textBin == old(db.textBin) + [t] && t.owner == l
  {
    l.texts := l.texts + [t];
    db.textBin := db.textBin + [t];
    t.owner := l;
  }

  lemma ClonesStep(s: seq<Text>, marks: seq<bool>, n: nat)
    requires n < |s| == |marks|
    ensures Clones(s, marks, 0) == [] && Count(marks, false, 0) == 0
    ensures Clones(s, marks, n + 1) == if marks[n] then Clones(s, marks, n) else Clones(s, marks, n) + [CloneText(s[n])]
    ensures Count(marks, false, n + 1) == Count(marks, false, n) + if marks[n] then 0 else 1
  {
    hide CloneText;
  }

  lemma ClonesNone(s: seq<Text>, marks: seq<bool>)
    requires |s| == |marks|
    ensures Clones(s, marks, 0) == [] && Count(marks, false, 0) == 0
  {
  }

  /** The loop that clones source texts without a match; added are the clones. */
  method AddNew(s: seq<TextObject>, destination: LabelObject, db: Database, update: bool,
                ghost marks: seq<bool>, ghost sv: seq<Text>)
    returns (count: nat, ghost added: seq<TextObject>)
    requires |marks| == |s| && (forall i | 0 <= i < |s| :: marks[i] <==> s[i].matched != null) && Values(s) == sv
    modifies destination`texts, db`textBin
    ensures |sv| == |s| && count == Count(marks, false, |s|)
    ensures destination.texts == old(destination.texts) + added && db.textBin == old(db.textBin) + added
    ensures (forall t | t in added :: fresh(t) && t.owner == destination) && Distinct(added)
    ensures Values(added) == if update then Clones(sv, marks, |s|) else []
  {
    hide *;
    count, added := 0, [];
    ClonesNone(sv, marks);
    NoTexts(added);
    var i := 0;
    while i < |s|
      invariant 0 <= i <= |s| == |sv| && count == Count(marks, false, i)
      invariant destination.texts == old(destination.texts) + added && db.textBin == old(db.textBin) + added
      invariant (forall t | t in added :: fresh(t) && t.owner == destination) && Distinct(added)
      invariant Values(added) == if update then Clones(sv, marks, i) else []
    {
      ClonesStep(sv, marks, i);
      if s[i].matched == null {
        if update {
          var clone := new TextObject.Clone(s[i]);
          AddText(destination, db, clone);
          assert clone !in added;
          DistinctPush(added, clone);
          ValuesPush(added, clone);
          added := added + [clone];
        }
        count := count + 1;
      }
      i := i + 1;
    }
  }

  lemma NoTexts(texts: seq<TextObject>)
    requires texts == []
    ensures Values(texts) == [] && Distinct(texts)
  {
  }

  lemma ValuesPush(texts: seq<TextObject>, t: TextObject)
    ensures Values(texts + [t]) == Values(texts) + [t.Value()]
  {
    ValuesJoin(texts, [t]);
  }

  // ---------------------------------------------------------------------------------------
  // UpdateLabel
  // ---------------------------------------------------------------------------------------

  /** MACRO_UPDATE for the four fields, and the maximum length: which of them differ. */
  datatype FieldEdits = FieldEdits(comment: nat, context: nat, speaker: nat, listener: nat, maxLen: nat)

  method UpdateFields(source: LabelObject, destination: LabelObject, update: bool) returns (e: FieldEdits)
    requires source != destination
    modifies destination`comment, destination`context, destination`speaker, destination`listener, destination`maxLen
    ensures e == FieldEdits(Bump(!SameIgnoringCase(source.comment, old(destination.comment))),
                            Bump(!SameIgnoringCase(source.context, old(destination.context))),
                            Bump(!SameIgnoringCase(source.speaker, old(destination.speaker))),
                            Bump(!SameIgnoringCase(source.listener, old(destination.listener))),
                            Bump(source.maxLen != old(destination.maxLen)))
    ensures destination.comment == Field(old(destination.comment), source.comment, update)
    ensures destination.context == Field(old(destination.context), source.context, update)
    ensures destination.speaker == Field(old(destination.speaker), source.speaker, update)
    ensures destination.listener == Field(old(destination.listener), source.listener, update)
    ensures destination.maxLen == if update then source.maxLen else old(destination.maxLen)
  {
    hide SameIgnoringCase;
    e := FieldEdits(0, 0, 0, 0, 0);
    if !SameIgnoringCase(source.comment, destination.comment) {
      if update { destination.comment := source.comment; }
      e := e.(comment := 1);
    }
    if !SameIgnoringCase(source.context, destination.context) {
      if update { destination.context := source.context; }
      e := e.(context := 1);
    }
    if !SameIgnoringCase(source.speaker, destination.speaker) {
      if update { destination.speaker := source.speaker; }
      e := e.(speaker := 1);
    }
    if !SameIgnoringCase(source.listener, destination.listener) {
      if update { destination.listener := source.listener; }
      e := e.(listener := 1);
    }
    if destination.maxLen != source.maxLen {
      if update { destination.maxLen := source.maxLen; }
      e := e.(maxLen := 1);
    }
  }

  /** The counters after the loops. */
  function Counted(edits: nat, waves: nat, marked: bool, gone: nat, added: nat, e: FieldEdits): Info {
    var changes := edits + waves + gone + added + e.comment + e.context + e.speaker + e.listener + e.maxLen;
    Info(added, gone, edits, 0, 0, Bump(changes > 0 || marked), 0, e.comment, e.context, waves, e.speaker, e.listener,
         e.maxLen, changes)
  }

  /** The loops of UpdateLabel behind the questions. */
  method ChangeTexts(s: seq<TextObject>, destination: LabelObject, db: Database, update: bool,
                     ghost w: Session, ghost sv: seq<Text>)
    returns (edits: nat, waves: nat, marked: bool, gone: nat, count: nat, ghost stay: seq<bool>)
    requires Apart(s, destination.texts) && Owned(destination) && Binned(db.textBin, destination, destination.texts)
    requires Synced(s, destination.texts, w) && Values(s) == sv
    modifies destination`texts, destination.texts, db`textBin, db`obsolete
    ensures w.m.Fits(|sv|, |w.d|) && |w.m.DstMarks()| == |w.d| && |w.m.SrcMarks()| == |sv|
    ensures Values(s) == sv && Values(destination.texts) == Merged(sv, w, update)
    ensures edits == StringEdits(sv, w.d, w.m.dst, |w.d|) && waves == WaveEdits(sv, w.d, w.m.dst, |w.d|)
    ensures marked <==> Marked(w.d, w.m.dst, |w.d|) > 0
    ensures gone == Count(w.m.DstMarks(), false, |w.d|) && count == Count(w.m.SrcMarks(), false, |sv|)
    ensures Moved(old(db.textBin), db.textBin, old(db.obsolete), db.obsolete, old(destination.texts), destination)
    ensures |old(db.obsolete)| <= |db.obsolete| && Values(db.obsolete[|old(db.obsolete)|..]) == Dropped(sv, w, update)
    ensures forall t | t in destination.texts :: t in old(destination.texts) || fresh(t)
    ensures stay == Stay(w, update) && |stay| == |old(destination.texts)|
    ensures Parted(old(destination.texts), destination.texts, old(db.obsolete), db.obsolete, stay)
  {
    hide *;
    var d := destination.texts;
    ChangeStart(s, destination, w, sv, db.textBin);
    edits, waves, marked := RefreshTexts(s, d, db, update, w);
    LinkedMarks(s, d, w.m);
    LinkedSourceMarks(s, d, w.m);
    ghost var bin := db.textBin;
    SameTextsDistinct(old(db.textBin), bin);
    gone := DropOld(destination, db, d, update, w.m.DstMarks());
    ghost var kept, now, lost := destination.texts, db.textBin, db.obsolete[|old(db.obsolete)|..];
    assert lost == if update then Select(d, w.m.DstMarks(), false, |d|) else [];
    ghost var added;
    count, added := AddNew(s, destination, db, update, w.m.SrcMarks(), sv);
    ValuesOfParts(d, kept, lost, added, sv, w, update);
    PartsInside(d, w.m.DstMarks(), kept, lost, update);
    MovedHolds(old(db.textBin), bin, now, added, d, kept, lost, w.m.DstMarks(), update, old(db.obsolete), db.obsolete,
               destination);
    stay := Stay(w, update);
    StayParts(d, kept, lost, added, w, update, old(db.obsolete), db.obsolete);
  }

  /** Which texts of the destination label a finished call leaves in it. */
  function Stay(w: Session, update: bool): seq<bool> {
    if update then w.m.DstMarks() else seq(|w.d|, j => true)
  }

  /** The texts that stay are still in the label, the others are now at the end of the obsolete list. */
  predicate Parted(texts: seq<TextObject>, now: seq<TextObject>, obsolete: seq<TextObject>, nowObsolete: seq<TextObject>,
                   stay: seq<bool>)
    requires |stay| == |texts|
  {
    && nowObsolete == obsolete + Select(texts, stay, false, |texts|)
    && forall j | 0 <= j < |texts| && stay[j] :: texts[j] in now
  }

  lemma StayParts(d: seq<TextObject>, kept: seq<TextObject>, lost: seq<TextObject>, added: seq<TextObject>, w: Session,
                  update: bool, obsolete: seq<TextObject>, nowObsolete: seq<TextObject>)
    requires |w.m.DstMarks()| == |d| == |w.d| && nowObsolete == obsolete + lost
    requires update ==> kept == Select(d, w.m.DstMarks(), true, |d|) && lost == Select(d, w.m.DstMarks(), false, |d|)
    requires !update ==> kept == d && lost == []
    ensures |Stay(w, update)| == |d| && Parted(d, kept + added, obsolete, nowObsolete, Stay(w, update))
  {
    if update { SelectedBefore(d, w.m.DstMarks(), true, |d|); } else { SelectAll(d, Stay(w, update), true, |d|); }
  }

  /** The part of UpdateLabel behind the questions. */
  method FinishLabel(source: LabelObject, destination: LabelObject, db: Database, mode: Mode,
                     ghost w: Session, ghost sl: Label, ghost dl: Label)
    returns (info: Info, ghost stay: seq<bool>)
    requires source != destination && Owned(source) && Owned(destination) && Apart(source.texts, destination.texts)
    requires Binned(db.textBin, destination, destination.texts) && Synced(source.texts, destination.texts, w)
    requires sl == source.Value() && destination.Value() == dl.(texts := w.d)
    modifies destination`comment, destination`context, destination`speaker, destination`listener, destination`maxLen,
             destination`texts, destination.texts, db`textBin, db`obsolete
    ensures w.m.Fits(|sl.texts|, |w.d|)
    ensures destination.Value() == Finish(sl, dl, w, mode).dest && info == Finish(sl, dl, w, mode).info
    ensures source.Value() == sl
    ensures Moved(old(db.textBin), db.textBin, old(db.obsolete), db.obsolete, old(destination.texts), destination)
    ensures |old(db.obsolete)| <= |db.obsolete|
    ensures Values(db.obsolete[|old(db.obsolete)|..]) == Finish(sl, dl, w, mode).obsolete
    ensures forall t | t in destination.texts :: t in old(destination.texts) || fresh(t)
    ensures stay == Stay(w, mode.update) && |stay| == |old(destination.texts)|
    ensures Parted(old(destination.texts), destination.texts, old(db.obsolete), db.obsolete, stay)
  {
    hide *;
    FinishStart(source, destination, w, sl, dl);
    var edits, waves, marked, gone, count;
    edits, waves, marked, gone, count, stay := ChangeTexts(source.texts, destination, db, mode.update, w, sl.texts);
    var e := UpdateFields(source, destination, mode.update);
    info := Counted(edits, waves, marked, gone, count, e);
    InfoIs(sl, dl, w, edits, waves, marked, e);
    FinishIs(sl, dl, w, mode);
    LabelValue(source);
    LabelValue(destination);
  }

  lemma LabelValue(l: LabelObject)
    ensures l.Value() == Label(l.name, l.comment, l.context, l.speaker, l.listener, l.maxLen, Values(l.texts))
  {
  }

  lemma FinishStart(source: LabelObject, destination: LabelObject, w: Session, sl: Label, dl: Label)
    requires sl == source.Value() && destination.Value() == dl.(texts := w.d)
    ensures Values(source.texts) == sl.texts
    ensures sl == Label(source.name, source.comment, source.context, source.speaker, source.listener, source.maxLen, sl.texts)
    ensures dl == Label(destination.name, destination.comment, destination.context, destination.speaker,
                        destination.listener, destination.maxLen, dl.texts)
  {
  }

  lemma ChangeStart(s: seq<TextObject>, destination: LabelObject, w: Session, sv: seq<Text>, bin: seq<TextObject>)
    requires Binned(bin, destination, destination.texts) && Owned(destination)
    requires Synced(s, destination.texts, w) && Values(s) == sv
    ensures w.m.Fits(|sv|, |w.d|) && |w.d| == |destination.texts| && |sv| == |s|
    ensures Linked(s, destination.texts, w.m)
    ensures forall j | 0 <= j < |destination.texts| :: destination.texts[j].owner == destination
    ensures Distinct(destination.texts) && Distinct(bin) && forall t | t in destination.texts :: t in bin
  {
    hide SameKey;
  }

  lemma PartsInside(d: seq<TextObject>, marks: seq<bool>, kept: seq<TextObject>, lost: seq<TextObject>, update: bool)
    requires |marks| == |d|
    requires update ==> kept == Select(d, marks, true, |d|) && lost == Select(d, marks, false, |d|)
    requires !update ==> kept == d && lost == []
    ensures forall t | t in kept :: t in d
    ensures forall t | t in lost :: t in d
  {
    SelectedBefore(d, marks, true, |d|);
    SelectedBefore(d, marks, false, |d|);
    assert d[..|d|] == d;
  }

  lemma {:induction false} SelectDistinct(d: seq<TextObject>, marks: seq<bool>, want: bool, n: nat)
    requires n <= |d| == |marks| && Distinct(d)
    ensures Distinct(Select(d, marks, want, n))
    ensures forall j | 0 <= j < n :: d[j] in Select(d, marks, want, n) <==> marks[j] == want
  {
    if n > 0 {
      SelectDistinct(d, marks, want, n - 1);
      SelectedBefore(d, marks, want, n - 1);
      assert d[n - 1] !in d[..n - 1];
    }
  }

  /** The bin, the obsolete list and the label after the loops. */
  lemma MovedHolds(bin0: seq<TextObject>, bin1: seq<TextObject>, bin2: seq<TextObject>, added: seq<TextObject>,
                   d: seq<TextObject>, kept: seq<TextObject>, lost: seq<TextObject>, marks: seq<bool>, update: bool,
                   obsolete: seq<TextObject>, nowObsolete: seq<TextObject>, l: LabelObject)
    requires |marks| == |d| && Distinct(d) && SameTexts(bin0, bin1) && (forall t | t in d :: t in bin0)
    requires update ==> kept == Select(d, marks, true, |d|) && lost == Select(d, marks, false, |d|) && Fewer(bin1, bin2, lost)
    requires !update ==> kept == d && lost == [] && bin2 == bin1
    requires l.texts == kept + added && nowObsolete == obsolete + lost
    requires Distinct(added) && (forall t | t in added :: t.owner == l && t !in bin0)
    requires forall j | 0 <= j < |d| :: d[j].owner == if update && !marks[j] then null else l
    ensures Moved(bin0, bin2 + added, obsolete, nowObsolete, d, l)
  {
    PartsInside(d, marks, kept, lost, update);
    SelectDistinct(d, marks, true, |d|);
    SelectDistinct(d, marks, false, |d|);
    forall t | t in kept ensures t.owner == l && t in bin2 {
      var j :| 0 <= j < |d| && d[j] == t;
    }
    forall t | t in lost ensures t.owner == null {
      var j :| 0 <= j < |d| && d[j] == t;
    }
    forall t | t in d && t !in kept ensures t in lost {
      var j :| 0 <= j < |d| && d[j] == t;
    }
    DistinctJoin(kept, added);
    DistinctJoin(bin2, added);
    assert nowObsolete[|obsolete|..] == lost;
  }

  lemma DistinctJoin(a: seq<TextObject>, b: seq<TextObject>)
    requires Distinct(a) && Distinct(b) && forall t | t in b :: t !in a
    ensures Distinct(a + b)
  {
    var all := a + b;
    forall i, j | 0 <= i < j < |all| ensures all[i] != all[j] {
      if i < |a| <= j { assert all[i] in a && all[j] in b; }
    }
  }

  lemma LinkedSourceMarks(s: seq<TextObject>, d: seq<TextObject>, m: Matching)
    requires Linked(s, d, m)
    ensures |m.SrcMarks()| == |s| && forall i | 0 <= i < |s| :: m.SrcMarks()[i] <==> s[i].matched != null
  {
  }

  lemma SameTextsDistinct(a: seq<TextObject>, b: seq<TextObject>)
    requires SameTexts(a, b)
    ensures Distinct(b)
  {
  }

  lemma InfoIs(sl: Label, dl: Label, w: Session, edits: nat, waves: nat, marked: bool, e: FieldEdits)
    requires w.m.Fits(|sl.texts|, |w.d|)
    requires edits == StringEdits(sl.texts, w.d, w.m.dst, |w.d|) && waves == WaveEdits(sl.texts, w.d, w.m.dst, |w.d|)
    requires marked <==> Marked(w.d, w.m.dst, |w.d|) > 0
    requires e == FieldEdits(Bump(!SameIgnoringCase(sl.comment, dl.comment)), Bump(!SameIgnoringCase(sl.context, dl.context)),
                             Bump(!SameIgnoringCase(sl.speaker, dl.speaker)), Bump(!SameIgnoringCase(sl.listener, dl.listener)),
                             Bump(sl.maxLen != dl.maxLen))
    ensures |w.m.DstMarks()| == |w.d| && |w.m.SrcMarks()| == |sl.texts|
    ensures Counted(edits, waves, marked, Count(w.m.DstMarks(), false, |w.d|), Count(w.m.SrcMarks(), false, |sl.texts|), e)
         == Tally(sl, dl, w)
  {
    hide SameIgnoringCase, StringEdits, WaveEdits, Marked, Count;
  }

  lemma FinishIs(sl: Label, dl: Label, w: Session, mode: Mode)
    requires w.m.Fits(|sl.texts|, |w.d|)
    ensures Finish(sl, dl, w, mode)
         == Outcome(Ok,
                    Label(dl.name,
                          Field(dl.comment, sl.comment, mode.update), Field(dl.context, sl.context, mode.update),
                          Field(dl.speaker, sl.speaker, mode.update), Field(dl.listener, sl.listener, mode.update),
                          if mode.update then sl.maxLen else dl.maxLen, Merged(sl.texts, w, mode.update)),
                    Dropped(sl.texts, w, mode.update), Tally(sl, dl, w), w.asked)
  {
  }

  /** The values of what is kept, added and moved away. */
  lemma ValuesOfParts(d: seq<TextObject>, kept: seq<TextObject>, lost: seq<TextObject>, added: seq<TextObject>,
                      sv: seq<Text>, w: Session, update: bool)
    requires w.m.Fits(|sv|, |w.d|) && |d| == |w.d| && Values(d) == RefreshAll(sv, w.d, w.m.dst, update)
    requires |w.m.DstMarks()| == |d| && |w.m.SrcMarks()| == |sv|
    requires update ==> kept == Select(d, w.m.DstMarks(), true, |d|) && lost == Select(d, w.m.DstMarks(), false, |d|)
    requires !update ==> kept == d && lost == []
    requires Values(added) == if update then Clones(sv, w.m.SrcMarks(), |sv|) else []
    ensures Values(kept + added) == Merged(sv, w, update) && Values(lost) == Dropped(sv, w, update)
  {
    hide Refresh;
    ValuesJoin(kept, added);
    if update {
      ValuesSelect(d, w.m.DstMarks(), true, |d|);
      ValuesSelect(d, w.m.DstMarks(), false, |d|);
    } else {
      NoTexts(lost);
      assert Values(d) + [] == Values(d);
    }
  }

  /** How a call of UpdateLabel leaves the texts of the database. */
  ghost predicate Moved(bin: seq<TextObject>, now: seq<TextObject>, obsolete: seq<TextObject>, nowObsolete: seq<TextObject>,
                        texts: seq<TextObject>, l: LabelObject)
    reads l`texts, l.texts`owner, nowObsolete`owner
  {
    && Owned(l) && Distinct(now)
    && (forall t | t in now :: t in l.texts || (t in bin && t !in texts))
    && (forall t | t in bin && t !in texts :: t in now)
    && (forall t | t in l.texts :: t in now)
    && |obsolete| <= |nowObsolete| && nowObsolete[..|obsolete|] == obsolete
    && forall t | t in nowObsolete[|obsolete|..] :: t in texts && t.owner == null
  }

  /** How the two loops that match texts end. */
  function Questions(s: Label, d: Label, rank: nat -> nat, mode: Mode, asked: nat): (Code, Session) {
    match MatchEqual(s.texts, d.texts, rank, |s.texts|)
    case None => (Fatal, Session(Unmatched(|s.texts|, |d.texts|), d.texts, asked))
    case Some(m) => AskFrom(Session(m, d.texts, asked), 0, mode)
  }

  lemma QuestionsFail(s: Label, d: Label, rank: nat -> nat, mode: Mode, asked: nat)
    requires MatchEqual(s.texts, d.texts, rank, |s.texts|).None?
    ensures Questions(s, d, rank, mode, asked) == (Fatal, Session(Unmatched(|s.texts|, |d.texts|), d.texts, asked))
  {
    hide MatchEqual;
  }

  lemma QuestionsAsk(s: Label, d: Label, rank: nat -> nat, mode: Mode, asked: nat, m: Matching)
    requires MatchEqual(s.texts, d.texts, rank, |s.texts|) == Some(m)
    ensures |m.src| == |s.texts| && |m.dst| == |d.texts|
    ensures Questions(s, d, rank, mode, asked) == AskFrom(Session(m, d.texts, asked), 0, mode)
    ensures Questions(s, d, rank, mode, asked).0 != Fatal
  {
    hide MatchEqual, AskFrom;
  }

  /** The part of UpdateLabel up to the last question. */
  method MatchLabel(source: LabelObject, destination: LabelObject, bin: seq<TextObject>, mode: Mode, asked: nat,
                    ghost sl: Label, ghost dl: Label)
    returns (code: Code, nowAsked: nat, ghost w: Session)
    requires source != destination && Owned(source) && Owned(destination) && Binned(bin, destination, destination.texts)
    requires sl == source.Value() && dl == destination.Value()
    modifies source.texts`matched, destination.texts`matched, destination.texts`retranslate
    ensures (code, w) == Questions(sl, dl, Places(bin, destination.texts), mode, asked) && nowAsked == w.asked
    ensures source.Value() == sl && destination.Value() == dl.(texts := w.d)
    ensures code != Fatal ==> Synced(source.texts, destination.texts, w)
  {
    hide *;
    ghost var rank := Places(bin, destination.texts);
    OwnersApart(source, destination);
    LabelValue(source);
    LabelValue(destination);
    ClearMatched(destination.texts);
    ClearMatched(source.texts);
    var ok, m := MatchEqualTexts(source.texts, destination.texts, bin, destination);
    if !ok {
      QuestionsFail(sl, dl, rank, mode, asked);
      code, nowAsked, w := Fatal, asked, Session(Unmatched(|sl.texts|, |dl.texts|), dl.texts, asked);
    } else {
      QuestionsAsk(sl, dl, rank, mode, asked, m);
      code, nowAsked, w := AskUser(source.texts, destination.texts, mode, asked, m);
      SyncedIs(source.texts, destination.texts, w);
    }
    LabelValue(source);
    LabelValue(destination);
  }

  /** CBabylonDlg::UpdateLabel; o is what the functional UpdateLabel says it does. */
  method UpdateLabel(source: LabelObject, destination: LabelObject, db: Database, mode: Mode, asked: nat)
    returns (code: Code, info: Info, nowAsked: nat, ghost o: Outcome, ghost stay: seq<bool>)
    requires source != destination && Owned(source) && Owned(destination)
    requires Binned(db.textBin, destination, destination.texts)
    modifies source.texts`matched, destination`comment, destination`context, destination`speaker, destination`listener, destination`maxLen,
             destination`texts, destination.texts, db`textBin, db`obsolete
    ensures o == BabylonLabel.UpdateLabel(old(source.Value()), old(destination.Value()),
                                          old(Places(db.textBin, destination.texts)), mode, asked)
    ensures code == o.code && info == o.info && nowAsked == o.asked && destination.Value() == o.dest
    ensures |old(db.obsolete)| <= |db.obsolete| && Values(db.obsolete[|old(db.obsolete)|..]) == o.obsolete
    ensures source.Value() == old(source.Value())
    ensures Moved(old(db.textBin), db.textBin, old(db.obsolete), db.obsolete, old(destination.texts), destination)
    ensures forall t | t in destination.texts :: t in old(destination.texts) || fresh(t)
    ensures |stay| == |old(destination.texts)| == |old(Values(destination.texts))|
    ensures Parted(old(destination.texts), destination.texts, old(db.obsolete), db.obsolete, stay)
    ensures Unmarked(o.obsolete) == Unmarked(Select(old(Values(destination.texts)), stay, false, |stay|))
  {
    hide *;
    ghost var sl, dl, rank := source.Value(), destination.Value(), Places(db.textBin, destination.texts);
    LabelValue(destination);
    OwnersApart(source, destination);
    NothingMoved(db.textBin, db.obsolete, destination);
    NoTexts(db.obsolete[|db.obsolete|..]);
    UpdateLabelIs(sl, dl, rank, mode, asked);
    o := BabylonLabel.UpdateLabel(sl, dl, rank, mode, asked);
    ghost var w;
    code, nowAsked, w := MatchLabel(source, destination, db.textBin, mode, asked, sl, dl);
    info := NO_INFO;
    StayValues(sl, dl, rank, mode, asked);
    stay := seq(|destination.texts|, j => true);
    AllStay(destination.texts, db.obsolete, dl.texts);
    if code == Ok {
      info, stay := FinishLabel(source, destination, db, mode, w, sl, dl);
      FinishIs(sl, dl, w, mode);
    }
  }

  lemma AllStay(texts: seq<TextObject>, obsolete: seq<TextObject>, values: seq<Text>)
    requires |values| == |texts|
    ensures Parted(texts, texts, obsolete, obsolete, seq(|texts|, j => true))
    ensures Unmarked([]) == Unmarked(Select(values, seq(|texts|, j => true), false, |texts|))
  {
    SelectAll(texts, seq(|texts|, j => true), true, |texts|);
    SelectAll(values, seq(|texts|, j => true), true, |texts|);
  }

  /** What a finished call moves has, marks aside, the values of the texts that do not stay. */
  lemma StayValues(s: Label, d: Label, rank: nat -> nat, mode: Mode, asked: nat)
    ensures var (code, w) := Questions(s, d, rank, mode, asked);
            code == Ok ==>
              && |w.d| == |d.texts| == |Stay(w, mode.update)|
              && Unmarked(BabylonLabel.UpdateLabel(s, d, rank, mode, asked).obsolete)
                 == Unmarked(Select(d.texts, Stay(w, mode.update), false, |d.texts|))
  {
    hide MatchEqual, AskFrom, Finish, Stay, Unmarked;
    UpdateLabelIs(s, d, rank, mode, asked);
    var (code, w) := Questions(s, d, rank, mode, asked);
    if code == Ok {
      var m := MatchEqual(s.texts, d.texts, rank, |s.texts|).value;
      AskOnlyMarks(Session(m, d.texts, asked), 0, mode);
      FinishStay(s, d, w, mode);
    }
  }

  lemma FinishStay(s: Label, d: Label, w: Session, mode: Mode)
    requires w.m.Fits(|s.texts|, |w.d|) && Unmarked(w.d) == Unmarked(d.texts)
    ensures |w.d| == |d.texts| == |Stay(w, mode.update)|
    ensures Unmarked(Finish(s, d, w, mode).obsolete) == Unmarked(Select(d.texts, Stay(w, mode.update), false, |d.texts|))
  {
    var n, stay := |w.d|, Stay(w, mode.update);
    assert |Unmarked(w.d)| == |Unmarked(d.texts)|;
    if mode.update {
      var refreshed := RefreshAll(s.texts, w.d, w.m.dst, true);
      SelectUnmarked(refreshed, w.d, stay, n);
      SelectUnmarked(d.texts, d.texts, stay, n);
      assert Unmarked(Select(refreshed, stay, false, n)) == Select(Unmarked(w.d), stay, false, n);
    } else {
      SelectAll(d.texts, stay, true, n);
    }
  }

  lemma SelectUnmarked(a: seq<Text>, b: seq<Text>, marks: seq<bool>, n: nat)
    requires n == |a| == |b| == |marks| && forall i | 0 <= i < n && !marks[i] :: a[i] == b[i]
    ensures |Unmarked(b)| == n && Unmarked(Select(a, marks, false, n)) == Select(Unmarked(b), marks, false, n)
  {
    SelectImage(a, Unmarked(b), (t: Text) => t.(retranslate := false), marks, false, n);
  }

  lemma OwnersApart(source: LabelObject, destination: LabelObject)
    requires source != destination && Owned(source) && Owned(destination)
    ensures Apart(source.texts, destination.texts)
  {
  }

  lemma NothingMoved(bin: seq<TextObject>, obsolete: seq<TextObject>, l: LabelObject)
    requires Owned(l) && Binned(bin, l, l.texts)
    ensures Moved(bin, bin, obsolete, obsolete, l.texts, l)
  {
  }

  /** The functional UpdateLabel, phase by phase. */
  lemma UpdateLabelIs(s: Label, d: Label, rank: nat -> nat, mode: Mode, asked: nat)
    ensures var (code, w) := Questions(s, d, rank, mode, asked);
            var o := BabylonLabel.UpdateLabel(s, d, rank, mode, asked);
            && (code != Ok ==> o == Outcome(code, d.(texts := w.d), [], NO_INFO, w.asked))
            && (code == Ok ==> w.m.Fits(|s.texts|, |w.d|) && o == Finish(s, d, w, mode))
  {
    hide MatchEqual, AskFrom, Finish;
    match MatchEqual(s.texts, d.texts, rank, |s.texts|) {
      case None => assert d.(texts := d.texts) == d;
      case Some(m) => AskKeepsFit(Session(m, d.texts, asked), 0, mode, |s.texts|, |d.texts|);
    }
  }
}
