/** CBabylonDlg::UpdateDB on values. */
module BabylonDatabase {
  import opened TextKeys
  import opened Selections
  import opened BabylonLabel

  /** TransDB: its labels in list order and its obsolete texts. */
  datatype Db = Db(labels: seq<Label>, obsolete: seq<Text>)

  /** One call of UpdateDB: update or check, the destination's multi-text option, the user. */
  datatype Run = Run(update: bool, multiText: bool, answers: nat -> Answer)

  /** The state of UpdateDB between two source labels. done is the processed mark of each label. */
  datatype Progress = Progress(labels: seq<Label>, done: seq<bool>, obsolete: seq<Text>, info: Info,
                               asked: nat, skipAll: bool)

  /** TransDB::FindLabel: among the first n labels the first with that key, or -1. */
  function FindLabel(labels: seq<Label>, name: string, n: nat): (r: int)
    requires n <= |labels|
    ensures -1 <= r < n
    ensures r >= 0 ==> SameKey(labels[r].name, name)
  {
    if n == 0 then -1
    else
      var r := FindLabel(labels, name, n - 1);
      if r >= 0 then r else if SameKey(labels[n - 1].name, name) then n - 1 else -1
  }

  function Add(a: Info, b: Info): Info {
    Info(a.newStrings + b.newStrings, a.deletedStrings + b.deletedStrings, a.modifiedStrings + b.modifiedStrings,
         a.newLabels + b.newLabels, a.deletedLabels + b.deletedLabels, a.modifiedLabels + b.modifiedLabels,
         a.skippedLabels + b.skippedLabels, a.updatedComments + b.updatedComments,
         a.updatedContexts + b.updatedContexts, a.updatedWaves + b.updatedWaves,
         a.updatedSpeakers + b.updatedSpeakers, a.updatedListeners + b.updatedListeners,
         a.updatedMaxLen + b.updatedMaxLen, a.changes + b.changes)
  }

  /** UpdateDB's own bookkeeping for a label it found, added or swept. */
  function SkipCount(code: Code): Info {
    if code == Ok then NO_INFO else NO_INFO.(skippedLabels := 1, changes := 1)
  }

  function NewLabelCount(texts: nat): Info {
    NO_INFO.(newStrings := texts, newLabels := 1, changes := texts + 1)
  }

  function SweptCount(texts: nat): Info {
    NO_INFO.(deletedStrings := texts, deletedLabels := 1, changes := texts)
  }

  function ModeFor(p: Progress, run: Run): Mode {
    Mode(run.update, p.skipAll, run.multiText, run.answers)
  }

  predicate Shaped(p: Progress) { |p.done| == |p.labels| }

  /** One turn of the loop over the source labels. */
  function Visit(p: Progress, s: Label, rank: nat -> nat, run: Run): (r: Progress)
    requires Shaped(p)
    ensures Shaped(r)
  {
    var j := FindLabel(p.labels, s.name, |p.labels|);
    if j >= 0 then
      var u := UpdateLabel(s, p.labels[j], rank, ModeFor(p, run), p.asked);
      Progress(p.labels[j := u.dest], p.done[j := true], p.obsolete + u.obsolete,
               Add(Add(p.info, u.info), SkipCount(u.code)), u.asked, p.skipAll || u.code == Cancelled)
    else
      var info := Add(p.info, NewLabelCount(|s.texts|));
      if run.update then p.(labels := p.labels + [CloneLabel(s)], done := p.done + [true], info := info)
      else p.(info := info)
  }

  function Start(dst: Db): (p: Progress)
    ensures Shaped(p)
  {
    Progress(dst.labels, seq(|dst.labels|, j => false), dst.obsolete, NO_INFO, 0, false)
  }

  /** ranks[i] is the text-bin order UpdateLabel meets when source label i is visited. */
  function VisitAll(src: seq<Label>, n: nat, dst: Db, ranks: seq<nat -> nat>, run: Run): (p: Progress)
    requires n <= |src| == |ranks|
    ensures Shaped(p)
  {
    if n == 0 then Start(dst) else Visit(VisitAll(src, n - 1, dst, ranks, run), src[n - 1], ranks[n - 1], run)
  }

  /** The texts of the first n labels whose mark equals want, in list order. */
  function TextsOf(labels: seq<Label>, marks: seq<bool>, want: bool, n: nat): seq<Text>
    requires n <= |labels| == |marks|
  {
    if n == 0 then []
    else TextsOf(labels, marks, want, n - 1) + if marks[n - 1] == want then labels[n - 1].texts else []
  }

  /** What removing the unprocessed ones among the first n labels counts. */
  function SweepInfo(labels: seq<Label>, done: seq<bool>, n: nat): Info
    requires n <= |labels| == |done|
  {
    if n == 0 then NO_INFO
    else if done[n - 1] then SweepInfo(labels, done, n - 1)
    else Add(SweepInfo(labels, done, n - 1), SweptCount(|labels[n - 1].texts|))
  }

  datatype DbOutcome = DbOutcome(db: Db, info: Info, asked: nat)

  /** Removing the labels no source label has. */
  function Sweep(p: Progress, update: bool): DbOutcome
    requires Shaped(p)
  {
    var n := |p.labels|;
    DbOutcome(if update
              then Db(Select(p.labels, p.done, true, n), p.obsolete + TextsOf(p.labels, p.done, false, n))
              else Db(p.labels, p.obsolete),
              Add(p.info, SweepInfo(p.labels, p.done, n)), p.asked)
  }

  /** CBabylonDlg::UpdateDB; the method returns info.changes. */
  function UpdateDb(src: seq<Label>, dst: Db, ranks: seq<nat -> nat>, run: Run): DbOutcome
    requires |ranks| == |src|
  {
    Sweep(VisitAll(src, |src|, dst, ranks, run), run.update)
  }
}
