/**
 * CBabylonDlg::UpdateLabel on values: what one call does to a destination label.
 * The object-level methods of BabylonObjects are proved against these functions.
 */
module BabylonLabel {
  import opened Options
  import opened TextKeys
  import opened Selections

  datatype Translation = Translation(langid: int, text: string, comment: string, revision: int)

  datatype Text = Text(str: string, wave: string, revision: int, retranslate: bool, translations: seq<Translation>)

  datatype Label = Label(name: string, comment: string, context: string, speaker: string, listener: string,
                         maxLen: int, texts: seq<Text>)

  /** BabylonText::Clone: everything but the retranslate mark. */
  function CloneText(t: Text): Text {
    t.(retranslate := false)
  }

  /** BabylonLabel::Clone. */
  function CloneLabel(l: Label): Label {
    l.(texts := seq(|l.texts|, i requires 0 <= i < |l.texts| => CloneText(l.texts[i])))
  }

  /** UPDATEINFO. */
  datatype Info = Info(newStrings: nat, deletedStrings: nat, modifiedStrings: nat, newLabels: nat,
                       deletedLabels: nat, modifiedLabels: nat, skippedLabels: nat, updatedComments: nat,
                       updatedContexts: nat, updatedWaves: nat, updatedSpeakers: nat, updatedListeners: nat,
                       updatedMaxLen: nat, changes: nat)

  const NO_INFO := Info(0, 0, 0, 0, 0, 0, 0, 0, 0, 0, 0, 0, 0, 0)

  /** What UpdateLabel returns: IDOK, IDCANCEL, IDSKIP or the FALSE of its fatal error. */
  datatype Code = Ok | Cancelled | Skipped | Fatal

  /**
   * One press in the match or retranslate dialog. Plain is the Enter key of a dialog without a
   * handler for IDOK. Match carries the selected row of the list of unmatched texts and the
   * state of the retranslate box.
   */
  datatype Answer = Cancel | Skip | Plain | NoMatch | Match(row: nat, retranslate: bool)

  /** How the call was made; answers(k) is what the user presses in the k-th dialog of the run. */
  datatype Mode = Mode(update: bool, skip: bool, multiText: bool, answers: nat -> Answer)

  // ---------------------------------------------------------------------------------------
  // Pairing equal strings
  // ---------------------------------------------------------------------------------------

  /**
   * src[i] is the destination text matched to source text i, dst[j] the source text matched to
   * destination text j; -1 stands for the null pointer.
   */
  datatype Matching = Matching(src: seq<int>, dst: seq<int>) {
    predicate Fits(ns: nat, nd: nat) {
      && |src| == ns && |dst| == nd
      && (forall i | 0 <= i < ns :: -1 <= src[i] < nd)
      && (forall j | 0 <= j < nd :: -1 <= dst[j] < ns)
      && (forall j | 0 <= j < nd :: dst[j] >= 0 ==> src[dst[j]] == j)
    }

    /** Every match is mutual. */
    predicate Paired(ns: nat, nd: nat) {
      Fits(ns, nd) && forall i | 0 <= i < ns :: src[i] >= 0 ==> dst[src[i]] == i
    }

    function Bind(i: nat, j: nat): Matching
      requires i < |src| && j < |dst|
    {
      Matching(src[i := j], dst[j := i])
    }

    function SrcMarks(): seq<bool> { seq(|src|, i requires 0 <= i < |src| => src[i] >= 0) }

    function DstMarks(): seq<bool> { seq(|dst|, j requires 0 <= j < |dst| => dst[j] >= 0) }

    /** BabylonLabel::AllMatched on the destination. */
    predicate AllDstMatched() { forall j | 0 <= j < |dst| :: dst[j] >= 0 }
  }

  function Unmatched(ns: nat, nd: nat): (m: Matching)
    ensures m.Paired(ns, nd)
  {
    Matching(seq(ns, i => -1), seq(nd, j => -1))
  }

  lemma BindFits(m: Matching, ns: nat, nd: nat, i: nat, j: nat)
    requires m.Fits(ns, nd) && i < ns && j < nd && m.src[i] < 0
    ensures m.Bind(i, j).Fits(ns, nd)
    ensures m.Paired(ns, nd) && m.dst[j] < 0 ==> m.Bind(i, j).Paired(ns, nd)
  {
  }

  /**
   * TransDB::FindText and FindNextText restricted to one label: of the first n texts with the
   * given key, the one that comes first in the text bin, or -1. rank is the bin order.
   */
  function Find(d: seq<Text>, rank: nat -> nat, key: string, n: nat): (r: int)
    requires n <= |d|
    ensures -1 <= r < n
    ensures r >= 0 ==> SameKey(d[r].str, key)
  {
    if n == 0 then -1
    else
      var best := Find(d, rank, key, n - 1);
      if SameKey(d[n - 1].str, key) && (best < 0 || rank(n - 1) < rank(best)) then n - 1 else best
  }

  /** The first loop over source texts; None is the "substring already matched" error. */
  function MatchEqual(s: seq<Text>, d: seq<Text>, rank: nat -> nat, n: nat): (r: Option<Matching>)
    requires n <= |s|
    ensures r.Some? ==> r.value.Paired(|s|, |d|)
    ensures r.Some? ==> forall i | n <= i < |s| :: r.value.src[i] < 0
  {
    if n == 0 then Some(Unmatched(|s|, |d|))
    else
      match MatchEqual(s, d, rank, n - 1)
      case None => None
      case Some(m) =>
        var j := Find(d, rank, s[n - 1].str, |d|);
        if j < 0 then Some(m)
        else if m.dst[j] >= 0 then None
        else
          BindFits(m, |s|, |d|, n - 1, j);
          Some(m.Bind(n - 1, j))
  }

  // ---------------------------------------------------------------------------------------
  // Asking the user about the rest
  // ---------------------------------------------------------------------------------------

  /** What a dialog decides: stop with a code, or match the text (unless -1) and set a mark (perhaps). */
  datatype Reply = Stop(code: Code) | Go(target: int, mark: Option<bool>)

  /** CMatchDlg and RetranslateDlg. A row outside the list selects nothing. */
  function Dialog(a: Answer, multiText: bool, dst: seq<bool>): (r: Reply)
    requires |dst| > 0
    ensures r.Stop? ==> r.code.Cancelled? || r.code.Skipped?
    ensures r.Go? ==> -1 <= r.target < |dst| && (r.target < 0 ==> r.mark.None?)
    ensures multiText && r.Go? && r.target >= 0 ==> !dst[r.target]
  {
    match a
    case Cancel => Stop(Cancelled)
    case Skip => Stop(Skipped)
    case Plain => if multiText then Go(-1, None) else Go(0, None)
    case NoMatch => if multiText then Go(-1, None) else Go(0, Some(false))
    case Match(row, retranslate) =>
      if multiText then
        var rows := Where(dst, false, |dst|);
        if row < |rows| then Go(rows[row], Some(retranslate)) else Go(-1, None)
      else Go(0, Some(true))
  }

  /** The state of UpdateLabel while it asks: the matches, the destination texts, the questions asked. */
  datatype Session = Session(m: Matching, d: seq<Text>, asked: nat)

  function Settle(w: Session, i: nat, target: int, mark: Option<bool>): (r: Session)
    requires i < |w.m.src| && |w.m.dst| == |w.d| && target < |w.d|
    ensures |r.d| == |w.d| && |r.m.src| == |w.m.src| && |r.m.dst| == |w.m.dst|
  {
    if target < 0 then w.(asked := w.asked + 1)
    else
      var t := if mark.Some? then w.d[target].(retranslate := mark.value) else w.d[target];
      Session(w.m.Bind(i, target), w.d[target := t], w.asked + 1)
  }

  /** The second loop, from source text i on. */
  function AskFrom(w: Session, i: nat, mode: Mode): (r: (Code, Session))
    requires i <= |w.m.src| && |w.m.dst| == |w.d|
    ensures |r.1.d| == |w.d| && |r.1.m.src| == |w.m.src| && |r.1.m.dst| == |w.m.dst|
    ensures !r.0.Fatal?
    decreases |w.m.src| - i
  {
    if i == |w.m.src| || w.m.AllDstMatched() then (Ok, w)
    else if w.m.src[i] >= 0 then AskFrom(w, i + 1, mode)
    else if !mode.update || mode.skip then (Skipped, w)
    else
      match Dialog(mode.answers(w.asked), mode.multiText, w.m.DstMarks())
      case Stop(code) => (code, w.(asked := w.asked + 1))
      case Go(target, mark) => AskFrom(Settle(w, i, target, mark), i + 1, mode)
  }

  // ---------------------------------------------------------------------------------------
  // Bringing the destination up to date
  // ---------------------------------------------------------------------------------------

  /** A matched destination text takes string and wave of its source text and keeps its translations. */
  function Refresh(t: Text, s: Text, update: bool): Text {
    if update then
      Text(s.str,
           if SameIgnoringCase(t.wave, s.wave) then t.wave else s.wave,
           if t.retranslate then t.revision + 1 else t.revision,
           false,
           t.translations)
    else t.(retranslate := false)
  }

  function RefreshAll(s: seq<Text>, d: seq<Text>, dst: seq<int>, update: bool): seq<Text>
    requires |dst| == |d| && forall j | 0 <= j < |d| :: dst[j] < |s|
  {
    seq(|d|, j requires 0 <= j < |d| => if dst[j] >= 0 then Refresh(d[j], s[dst[j]], update) else d[j])
  }

  /** Among the first n destination texts: matched ones whose string (or wave) differs, or that carry the mark. */
  function StringEdits(s: seq<Text>, d: seq<Text>, dst: seq<int>, n: nat): nat
    requires n <= |dst| == |d| && forall j | 0 <= j < |d| :: dst[j] < |s|
  {
    if n == 0 then 0
    else StringEdits(s, d, dst, n - 1) + Bump(dst[n - 1] >= 0 && d[n - 1].str != s[dst[n - 1]].str)
  }

  function WaveEdits(s: seq<Text>, d: seq<Text>, dst: seq<int>, n: nat): nat
    requires n <= |dst| == |d| && forall j | 0 <= j < |d| :: dst[j] < |s|
  {
    if n == 0 then 0
    else WaveEdits(s, d, dst, n - 1) +
         Bump(dst[n - 1] >= 0 && !SameIgnoringCase(d[n - 1].wave, s[dst[n - 1]].wave))
  }

  function Marked(d: seq<Text>, dst: seq<int>, n: nat): nat
    requires n <= |dst| == |d|
  {
    if n == 0 then 0
    else Marked(d, dst, n - 1) + Bump(dst[n - 1] >= 0 && d[n - 1].retranslate)
  }

  function Clones(s: seq<Text>, marks: seq<bool>, n: nat): seq<Text>
    requires n <= |s| == |marks|
  {
    var picked := Select(s, marks, false, n);
    seq(|picked|, p requires 0 <= p < |picked| => CloneText(picked[p]))
  }

  function Bump(changed: bool): nat { if changed then 1 else 0 }

  /** MACRO_UPDATE: the old field stays when it differs only in case. */
  function Field(was: string, now: string, update: bool): string {
    if update && !SameIgnoringCase(now, was) then now else was
  }

  /** What a call of UpdateLabel leaves behind. */
  datatype Outcome = Outcome(code: Code, dest: Label, obsolete: seq<Text>, info: Info, asked: nat)

  /** What a finished call counts. */
  function Tally(s: Label, d: Label, w: Session): Info
    requires w.m.Fits(|s.texts|, |w.d|)
  {
    var n := |w.d|;
    var edits := StringEdits(s.texts, w.d, w.m.dst, n);
    var waves := WaveEdits(s.texts, w.d, w.m.dst, n);
    var gone := Count(w.m.DstMarks(), false, n);
    var added := Count(w.m.SrcMarks(), false, |s.texts|);
    var comment := Bump(!SameIgnoringCase(s.comment, d.comment));
    var context := Bump(!SameIgnoringCase(s.context, d.context));
    var speaker := Bump(!SameIgnoringCase(s.speaker, d.speaker));
    var listener := Bump(!SameIgnoringCase(s.listener, d.listener));
    var maxLen := Bump(s.maxLen != d.maxLen);
    var changes := edits + waves + gone + added + comment + context + speaker + listener + maxLen;
    var modified := Bump(changes > 0 || Marked(w.d, w.m.dst, n) > 0);
    Info(added, gone, edits, 0, 0, modified, 0, comment, context, waves, speaker, listener, maxLen, changes)
  }

  /** The destination texts a finished call keeps or adds, and those it moves to the obsolete list. */
  function Merged(s: seq<Text>, w: Session, update: bool): seq<Text>
    requires w.m.Fits(|s|, |w.d|)
  {
    var refreshed := RefreshAll(s, w.d, w.m.dst, update);
    if update then Select(refreshed, w.m.DstMarks(), true, |w.d|) + Clones(s, w.m.SrcMarks(), |s|) else refreshed
  }

  function Dropped(s: seq<Text>, w: Session, update: bool): seq<Text>
    requires w.m.Fits(|s|, |w.d|)
  {
    if update then Select(RefreshAll(s, w.d, w.m.dst, true), w.m.DstMarks(), false, |w.d|) else []
  }

  /** Everything after the questions, for a finished matching. */
  function Finish(s: Label, d: Label, w: Session, mode: Mode): (r: Outcome)
    requires w.m.Fits(|s.texts|, |w.d|)
  {
    Outcome(Ok,
            Label(d.name,
                  Field(d.comment, s.comment, mode.update), Field(d.context, s.context, mode.update),
                  Field(d.speaker, s.speaker, mode.update), Field(d.listener, s.listener, mode.update),
                  if mode.update then s.maxLen else d.maxLen,
                  Merged(s.texts, w, mode.update)),
            Dropped(s.texts, w, mode.update), Tally(s, d, w), w.asked)
  }

  lemma {:induction false} AskKeepsFit(w: Session, i: nat, mode: Mode, ns: nat, nd: nat)
    requires i <= ns && nd == |w.d| && w.m.Fits(ns, nd)
    ensures AskFrom(w, i, mode).1.m.Fits(ns, nd)
    decreases ns - i
  {
    if i < ns && !w.m.AllDstMatched() {
      if w.m.src[i] >= 0 {
        AskKeepsFit(w, i + 1, mode, ns, nd);
      } else if mode.update && !mode.skip {
        match Dialog(mode.answers(w.asked), mode.multiText, w.m.DstMarks())
        case Stop(_) =>
        case Go(target, mark) =>
          if target >= 0 { BindFits(w.m, ns, nd, i, target); }
          AskKeepsFit(Settle(w, i, target, mark), i + 1, mode, ns, nd);
      }
    }
  }

  /** CBabylonDlg::UpdateLabel. rank is the order of d's texts in the destination's text bin. */
  function UpdateLabel(s: Label, d: Label, rank: nat -> nat, mode: Mode, asked: nat): (r: Outcome) {
    match MatchEqual(s.texts, d.texts, rank, |s.texts|)
    case None => Outcome(Fatal, d, [], NO_INFO, asked)
    case Some(m) =>
      var (code, w) := AskFrom(Session(m, d.texts, asked), 0, mode);
      if code != Ok then Outcome(code, d.(texts := w.d), [], NO_INFO, w.asked)
      else
        AskKeepsFit(Session(m, d.texts, asked), 0, mode, |s.texts|, |d.texts|);
        Finish(s, d, w, mode)
  }
}
