/** When a whole database update or check converges, and what it asks, for every pair of databases and every user. */
module BabylonDatabaseLaws {
  import opened TextKeys
  import opened Selections
  import opened BabylonLabel
  import opened BabylonLabelLaws
  import opened BabylonDatabase

  /** No two labels are one key to TransDB::FindLabel. */
  predicate DistinctNames(labels: seq<Label>) {
    forall i, k | 0 <= i < k < |labels| :: !SameKey(labels[i].name, labels[k].name)
  }

  /** The list holds a converged label with the name of s. */
  predicate Served(s: Label, out: seq<Label>) {
    exists j | 0 <= j < |out| :: out[j].name == s.name && Converged(s, out[j])
  }

  /** Some source label has the name of d. */
  predicate Wanted(d: Label, src: seq<Label>) {
    exists i | 0 <= i < |src| :: d.name == src[i].name
  }

  /** The destination holds exactly the source's labels, each converged. */
  predicate ConvergedDb(src: seq<Label>, out: seq<Label>) {
    && |out| == |src|
    && (forall i | 0 <= i < |src| :: Served(src[i], out))
    && (forall j | 0 <= j < |out| :: Wanted(out[j], src))
  }

  /** The same with names compared as TransDB::FindLabel does. */
  predicate KeyServed(s: Label, out: seq<Label>) {
    exists j | 0 <= j < |out| :: SameKey(out[j].name, s.name) && Converged(s, out[j])
  }

  predicate KeyWanted(d: Label, src: seq<Label>) {
    exists i | 0 <= i < |src| :: SameKey(d.name, src[i].name)
  }

  predicate KeyConverged(src: seq<Label>, out: seq<Label>) {
    && |out| == |src| && DistinctNames(out)
    && (forall i | 0 <= i < |src| :: KeyServed(src[i], out))
    && (forall j | 0 <= j < |out| :: KeyWanted(out[j], src))
  }

  /** A source name that finds a destination label finds one with that very name. */
  predicate SpelledAlike(src: seq<Label>, dst: seq<Label>) {
    forall i | 0 <= i < |src| && Lookup(dst, src[i].name) >= 0 :: dst[Lookup(dst, src[i].name)].name == src[i].name
  }

  // ---------------------------------------------------------------------------------------
  // Finding labels while the list changes
  // ---------------------------------------------------------------------------------------

  function Lookup(labels: seq<Label>, name: string): (r: int)
    ensures -1 <= r < |labels|
    ensures r >= 0 ==> SameKey(labels[r].name, name)
  {
    FindLabel(labels, name, |labels|)
  }

  /** b starts with labels named as in a. */
  predicate NamesExtend(a: seq<Label>, b: seq<Label>) {
    |a| <= |b| && forall j | 0 <= j < |a| :: a[j].name == b[j].name
  }

  lemma {:induction false} LookupStays(a: seq<Label>, b: seq<Label>, name: string, n: nat)
    requires NamesExtend(a, b) && n <= |a|
    ensures FindLabel(a, name, n) == FindLabel(b, name, n)
  {
    if n > 0 { LookupStays(a, b, name, n - 1); }
  }

  lemma {:induction false} LookupGrows(b: seq<Label>, name: string, n: nat, m: nat)
    requires n <= m <= |b| && FindLabel(b, name, n) >= 0
    ensures FindLabel(b, name, m) == FindLabel(b, name, n)
  {
    if n < m { LookupGrows(b, name, n, m - 1); }
  }

  lemma LookupExtends(a: seq<Label>, b: seq<Label>, name: string)
    requires NamesExtend(a, b) && Lookup(a, name) >= 0
    ensures Lookup(b, name) == Lookup(a, name)
  {
    LookupStays(a, b, name, |a|);
    LookupGrows(b, name, |a|, |b|);
  }

  lemma {:induction false} LookupByKey(labels: seq<Label>, a: string, b: string, n: nat)
    requires n <= |labels| && SameKey(a, b)
    ensures FindLabel(labels, a, n) == FindLabel(labels, b, n)
  {
    if n > 0 { LookupByKey(labels, a, b, n - 1); }
  }

  lemma UpdateKeepsName(s: Label, d: Label, rank: nat -> nat, mode: Mode, asked: nat)
    ensures UpdateLabel(s, d, rank, mode, asked).dest.name == d.name
  {
  }

  lemma VisitExtends(p: Progress, s: Label, rank: nat -> nat, run: Run)
    requires Shaped(p)
    ensures NamesExtend(p.labels, Visit(p, s, rank, run).labels)
  {
    var j := Lookup(p.labels, s.name);
    if j >= 0 { UpdateKeepsName(s, p.labels[j], rank, ModeFor(p, run), p.asked); }
  }

  lemma SkipsGrow(p: Progress, s: Label, rank: nat -> nat, run: Run)
    requires Shaped(p)
    ensures Visit(p, s, rank, run).info.skippedLabels >= p.info.skippedLabels
  {
  }

  // ---------------------------------------------------------------------------------------
  // Convergence
  // ---------------------------------------------------------------------------------------

  /**
   * After n source labels without a skip: each owns one processed, converged label, and every
   * processed label has an owner. own[j] is the source label owning label j, or -1.
   */
  predicate Owners(src: seq<Label>, n: nat, p: Progress, own: seq<int>)
    requires n <= |src| && Shaped(p)
  {
    && |own| == |p.labels|
    && (forall j | 0 <= j < |own| :: -1 <= own[j] < n)
    && (forall j | 0 <= j < |own| :: p.done[j] <==> own[j] >= 0)
    && (forall j | 0 <= j < |own| :: own[j] >= 0 ==> Lookup(p.labels, src[own[j]].name) == j)
    && (forall i | 0 <= i < n :: OwnsOne(src, i, p, own))
    && Count(p.done, true, |p.done|) == n
  }

  predicate OwnsOne(src: seq<Label>, i: nat, p: Progress, own: seq<int>)
    requires i < |src|
  {
    var j := Lookup(p.labels, src[i].name);
    0 <= j < |own| && own[j] == i && Converged(src[i], p.labels[j])
  }

  /** In single-text mode every label still to be visited has at most one text. */
  predicate Single(p: Progress, run: Run)
    requires Shaped(p)
  {
    run.multiText || forall j | 0 <= j < |p.labels| && !p.done[j] :: |p.labels[j].texts| <= 1
  }

  lemma CloneConverged(s: Label)
    ensures Converged(s, CloneLabel(s)) && CloneLabel(s).name == s.name
  {
    assert Views(CloneLabel(s).texts) == Views(s.texts);
  }

  /** Distinct source names look up distinct labels. */
  lemma LookupsDiffer(src: seq<Label>, i: nat, k: nat, labels: seq<Label>)
    requires DistinctNames(src) && i < |src| && k < |src| && i != k
    requires Lookup(labels, src[i].name) >= 0
    ensures Lookup(labels, src[i].name) != Lookup(labels, src[k].name)
  {
    var low, high := if i < k then i else k, if i < k then k else i;
    assert !SameKey(src[low].name, src[high].name);
  }

  lemma {:induction false} CountPush(marks: seq<bool>, n: nat, b: bool)
    requires n <= |marks|
    ensures Count(marks + [b], true, n) == Count(marks, true, n)
  {
    if n > 0 { CountPush(marks, n - 1, b); }
  }

  /** Source label n takes over the unowned label j it looks up. */
  lemma OwnedReplace(src: seq<Label>, n: nat, p: Progress, own: seq<int>, j: nat, d: Label, q: Progress)
    requires n < |src| && Shaped(p) && Owners(src, n, p, own) && DistinctNames(src)
    requires Lookup(p.labels, src[n].name) == j && d.name == p.labels[j].name && Converged(src[n], d)
    requires q.labels == p.labels[j := d] && q.done == p.done[j := true]
    ensures own[j] < 0 && Owners(src, n + 1, q, own[j := n])
  {
    if own[j] >= 0 { LookupsDiffer(src, n, own[j], p.labels); }
    CountFlip(p.done, j, |p.done|);
    var o := own[j := n];
    forall i | 0 <= i < n + 1 ensures OwnsOne(src, i, q, o) {
      if i < n { assert OwnsOne(src, i, p, own); }
      LookupExtends(p.labels, q.labels, src[i].name);
    }
    forall k | 0 <= k < |o| && o[k] >= 0 ensures Lookup(q.labels, src[o[k]].name) == k {
      LookupExtends(p.labels, q.labels, src[o[k]].name);
    }
  }

  /** Visiting a label the destination has. */
  lemma OwnedFound(src: seq<Label>, n: nat, p: Progress, rank: nat -> nat, run: Run, own: seq<int>) returns (o: seq<int>)
    requires n < |src| && Shaped(p) && Owners(src, n, p, own) && DistinctNames(src) && run.update && Single(p, run)
    requires Lookup(p.labels, src[n].name) >= 0
    requires Visit(p, src[n], rank, run).info.skippedLabels == p.info.skippedLabels
    ensures Owners(src, n + 1, Visit(p, src[n], rank, run), o) && Single(Visit(p, src[n], rank, run), run)
  {
    var q, j := Visit(p, src[n], rank, run), Lookup(p.labels, src[n].name);
    var u := UpdateLabel(src[n], p.labels[j], rank, ModeFor(p, run), p.asked);
    if own[j] >= 0 { LookupsDiffer(src, n, own[j], p.labels); }
    assert u.code == Ok;
    UpdateConverges(src[n], p.labels[j], rank, ModeFor(p, run), p.asked);
    UpdateKeepsName(src[n], p.labels[j], rank, ModeFor(p, run), p.asked);
    OwnedReplace(src, n, p, own, j, u.dest, q);
    o := own[j := n];
  }

  /** Source label n takes over the label appended for it. */
  lemma OwnedAppend(src: seq<Label>, n: nat, p: Progress, own: seq<int>, d: Label, q: Progress)
    requires n < |src| && Shaped(p) && Owners(src, n, p, own) && DistinctNames(src)
    requires Lookup(p.labels, src[n].name) < 0 && d.name == src[n].name && Converged(src[n], d)
    requires q.labels == p.labels + [d] && q.done == p.done + [true]
    ensures Owners(src, n + 1, q, own + [n])
  {
    hide Converged;
    var last := |p.labels|;
    var o := own + [n];
    CountPush(p.done, last, true);
    LookupStays(p.labels, q.labels, src[n].name, last);
    assert Lookup(q.labels, src[n].name) == last;
    forall i | 0 <= i < n + 1 ensures OwnsOne(src, i, q, o) {
      if i < n {
        assert OwnsOne(src, i, p, own);
        LookupExtends(p.labels, q.labels, src[i].name);
      }
    }
    forall k | 0 <= k < |o| && o[k] >= 0 ensures Lookup(q.labels, src[o[k]].name) == k {
      if k < last { LookupExtends(p.labels, q.labels, src[o[k]].name); }
    }
  }

  /** Visiting a label the destination lacks. */
  lemma OwnedNew(src: seq<Label>, n: nat, p: Progress, rank: nat -> nat, run: Run, own: seq<int>) returns (o: seq<int>)
    requires n < |src| && Shaped(p) && Owners(src, n, p, own) && DistinctNames(src) && run.update && Single(p, run)
    requires Lookup(p.labels, src[n].name) < 0
    ensures Owners(src, n + 1, Visit(p, src[n], rank, run), o) && Single(Visit(p, src[n], rank, run), run)
  {
    hide UpdateLabel, Converged;
    CloneConverged(src[n]);
    OwnedAppend(src, n, p, own, CloneLabel(src[n]), Visit(p, src[n], rank, run));
    o := own + [n];
  }

  lemma OwnedStep(src: seq<Label>, n: nat, p: Progress, rank: nat -> nat, run: Run, own: seq<int>) returns (o: seq<int>)
    requires n < |src| && Shaped(p) && Owners(src, n, p, own) && DistinctNames(src) && run.update && Single(p, run)
    requires Visit(p, src[n], rank, run).info.skippedLabels == p.info.skippedLabels
    ensures Owners(src, n + 1, Visit(p, src[n], rank, run), o) && Single(Visit(p, src[n], rank, run), run)
  {
    if Lookup(p.labels, src[n].name) >= 0 {
      o := OwnedFound(src, n, p, rank, run, own);
    } else {
      o := OwnedNew(src, n, p, rank, run, own);
    }
  }

  /** No skip after n labels means no skip after n - 1 and none at the n-th. */
  lemma SkipFree(src: seq<Label>, n: nat, dst: Db, ranks: seq<nat -> nat>, run: Run) returns (p: Progress)
    requires 0 < n <= |src| == |ranks|
    requires VisitAll(src, n, dst, ranks, run).info.skippedLabels == 0
    ensures p == VisitAll(src, n - 1, dst, ranks, run) && p.info.skippedLabels == 0
    ensures VisitAll(src, n, dst, ranks, run) == Visit(p, src[n - 1], ranks[n - 1], run)
  {
    p := VisitAll(src, n - 1, dst, ranks, run);
    SkipsGrow(p, src[n - 1], ranks[n - 1], run);
  }

  lemma NobodyOwned(src: seq<Label>, dst: Db, run: Run) returns (own: seq<int>)
    requires run.multiText || forall j | 0 <= j < |dst.labels| :: |dst.labels[j].texts| <= 1
    ensures Owners(src, 0, Start(dst), own) && Single(Start(dst), run)
  {
    own := seq(|dst.labels|, j => -1);
    NoMarks(|dst.labels|, |dst.labels|);
  }

  lemma {:induction false} VisitsOwn(src: seq<Label>, n: nat, dst: Db, ranks: seq<nat -> nat>, run: Run)
    returns (own: seq<int>)
    requires n <= |src| == |ranks| && DistinctNames(src) && run.update
    requires run.multiText || forall j | 0 <= j < |dst.labels| :: |dst.labels[j].texts| <= 1
    requires VisitAll(src, n, dst, ranks, run).info.skippedLabels == 0
    ensures Owners(src, n, VisitAll(src, n, dst, ranks, run), own) && Single(VisitAll(src, n, dst, ranks, run), run)
  {
    hide Visit;
    if n == 0 {
      own := NobodyOwned(src, dst, run);
    } else {
      var p := SkipFree(src, n, dst, ranks, run);
      own := VisitsOwn(src, n - 1, dst, ranks, run);
      own := OwnedStep(src, n - 1, p, ranks[n - 1], run, own);
    }
  }

  lemma {:induction false} NoMarks(size: nat, n: nat)
    requires n <= size
    ensures Count(seq(size, j => false), true, n) == 0
  {
    if n > 0 { NoMarks(size, n - 1); }
  }

  /** Labels of different owners are different keys. */
  lemma OwnersDiffer(src: seq<Label>, p: Progress, own: seq<int>, j: nat, l: nat)
    requires Shaped(p) && Owners(src, |src|, p, own) && DistinctNames(src)
    requires j < |own| && l < |own| && j != l && own[j] >= 0 && own[l] >= 0
    ensures !SameKey(p.labels[j].name, p.labels[l].name)
  {
    if SameKey(p.labels[j].name, p.labels[l].name) {
      LookupByKey(p.labels, src[own[j]].name, src[own[l]].name, |p.labels|);
    }
  }

  /** Sweeping an owned list leaves exactly the source's labels. */
  lemma SweepConverges(src: seq<Label>, p: Progress, own: seq<int>)
    requires Shaped(p) && Owners(src, |src|, p, own) && DistinctNames(src)
    ensures KeyConverged(src, Select(p.labels, p.done, true, |p.labels|))
  {
    var n := |p.labels|;
    var out, at := Select(p.labels, p.done, true, n), Where(p.done, true, n);
    SelectIsWhere(p.labels, p.done, true, n);
    forall i | 0 <= i < |src| ensures KeyServed(src[i], out) {
      assert OwnsOne(src, i, p, own);
      var k := Lookup(p.labels, src[i].name);
      var j := WhereFindsAll(p.done, true, n, k);
      assert out[j] == p.labels[k];
    }
    forall j | 0 <= j < |out| ensures KeyWanted(out[j], src) {
      assert out[j] == p.labels[at[j]] && own[at[j]] >= 0;
      assert SameKey(out[j].name, src[own[at[j]]].name);
    }
    forall j, l | 0 <= j < l < |out| ensures !SameKey(out[j].name, out[l].name) {
      OwnersDiffer(src, p, own, at[j], at[l]);
    }
  }

  /** What a complete update converges to, as TransDB::FindLabel compares names. */
  lemma UpdateDbConvergesByKey(src: seq<Label>, dst: Db, ranks: seq<nat -> nat>, run: Run)
    requires |ranks| == |src| && DistinctNames(src) && run.update
    requires run.multiText || forall j | 0 <= j < |dst.labels| :: |dst.labels[j].texts| <= 1
    requires UpdateDb(src, dst, ranks, run).info.skippedLabels == 0
    ensures KeyConverged(src, UpdateDb(src, dst, ranks, run).db.labels)
  {
    var own := VisitsOwn(src, |src|, dst, ranks, run);
    SweepConverges(src, VisitAll(src, |src|, dst, ranks, run), own);
  }

  // ---------------------------------------------------------------------------------------
  // Names
  // ---------------------------------------------------------------------------------------

  lemma {:induction false} LookupHits(labels: seq<Label>, name: string, j: nat, n: nat)
    requires j < n <= |labels| && SameKey(labels[j].name, name)
    ensures FindLabel(labels, name, n) >= 0
  {
    if j < n - 1 { LookupHits(labels, name, j, n - 1); }
  }

  /** A processed label is the first of its key. */
  predicate DoneFirst(p: Progress)
    requires Shaped(p)
  {
    forall j | 0 <= j < |p.labels| && p.done[j] :: Lookup(p.labels, p.labels[j].name) == j
  }

  /** The labels of the destination keep their names, and every other label has the name of one of the first n source labels. */
  predicate Named(src: seq<Label>, n: nat, dst: Db, p: Progress)
    requires n <= |src|
  {
    NamesExtend(dst.labels, p.labels) &&
    forall j | |dst.labels| <= j < |p.labels| :: exists i | 0 <= i < n :: p.labels[j].name == src[i].name
  }

  lemma VisitNames(src: seq<Label>, n: nat, dst: Db, p: Progress, rank: nat -> nat, run: Run)
    requires n < |src| && Shaped(p) && Named(src, n, dst, p) && DoneFirst(p)
    ensures Named(src, n + 1, dst, Visit(p, src[n], rank, run)) && DoneFirst(Visit(p, src[n], rank, run))
  {
    hide UpdateLabel, SameKey;
    var q, j := Visit(p, src[n], rank, run), Lookup(p.labels, src[n].name);
    VisitExtends(p, src[n], rank, run);
    if j >= 0 {
      LookupByKey(p.labels, p.labels[j].name, src[n].name, |p.labels|);
      UpdateKeepsName(src[n], p.labels[j], rank, ModeFor(p, run), p.asked);
    } else {
      LookupStays(p.labels, q.labels, src[n].name, |p.labels|);
      SameKeyAsItself(src[n].name);
    }
    forall k | 0 <= k < |q.labels| && q.done[k] ensures Lookup(q.labels, q.labels[k].name) == k {
      if k < |p.labels| { LookupExtends(p.labels, q.labels, p.labels[k].name); }
    }
    forall k | |dst.labels| <= k < |q.labels| ensures exists i | 0 <= i < n + 1 :: q.labels[k].name == src[i].name {
      if k < |p.labels| {
        var i :| 0 <= i < n && p.labels[k].name == src[i].name;
        assert q.labels[k].name == src[i].name;
      } else {
        assert q.labels[k].name == src[n].name;
      }
    }
  }

  lemma SameKeyAsItself(a: string)
    ensures SameKey(a, a)
  {
  }

  lemma {:induction false} VisitsName(src: seq<Label>, n: nat, dst: Db, ranks: seq<nat -> nat>, run: Run)
    requires n <= |src| == |ranks|
    ensures Named(src, n, dst, VisitAll(src, n, dst, ranks, run)) && DoneFirst(VisitAll(src, n, dst, ranks, run))
  {
    hide Visit, DoneFirst, Named;
    if n == 0 {
      StartNames(src, dst);
    } else {
      VisitsName(src, n - 1, dst, ranks, run);
      VisitNames(src, n - 1, dst, VisitAll(src, n - 1, dst, ranks, run), ranks[n - 1], run);
    }
  }

  lemma StartNames(src: seq<Label>, dst: Db)
    ensures Named(src, 0, dst, Start(dst)) && DoneFirst(Start(dst))
  {
  }

  /** What the sweep leaves has distinct keys, whatever the source names are. */
  lemma SweptNamesDistinct(p: Progress)
    requires Shaped(p) && DoneFirst(p)
    ensures DistinctNames(Select(p.labels, p.done, true, |p.labels|))
  {
    hide SameKey;
    var n := |p.labels|;
    var out, at := Select(p.labels, p.done, true, n), Where(p.done, true, n);
    SelectIsWhere(p.labels, p.done, true, n);
    forall j, l | 0 <= j < l < |out| ensures !SameKey(out[j].name, out[l].name) {
      assert Lookup(p.labels, out[j].name) == at[j] && Lookup(p.labels, out[l].name) == at[l];
      if SameKey(out[j].name, out[l].name) { LookupByKey(p.labels, out[j].name, out[l].name, n); }
    }
  }

  /** A label that is found in the end and was there at the start was found then. */
  lemma FoundBefore(src: seq<Label>, dst: Db, p: Progress, name: string)
    requires Named(src, |src|, dst, p) && 0 <= Lookup(p.labels, name) < |dst.labels|
    ensures Lookup(dst.labels, name) == Lookup(p.labels, name)
  {
    hide SameKey;
    var n := |dst.labels|;
    LookupStays(dst.labels, p.labels, name, n);
    LookupHits(p.labels, name, Lookup(p.labels, name), n);
    LookupGrows(p.labels, name, n, |p.labels|);
  }

  lemma SameKeyTurns(a: string, b: string)
    requires SameKey(a, b)
    ensures SameKey(b, a)
  {
  }

  lemma KeysDiffer(labels: seq<Label>, j: nat, l: nat)
    requires DistinctNames(labels) && j < |labels| && l < |labels| && j != l
    ensures !SameKey(labels[j].name, labels[l].name)
  {
    if SameKey(labels[j].name, labels[l].name) { SameKeyTurns(labels[j].name, labels[l].name); }
  }

  /** When names are spelled alike, an owned label has the name of its owner. */
  lemma OwnerNames(src: seq<Label>, dst: Db, p: Progress, own: seq<int>, j: nat)
    requires Shaped(p) && Owners(src, |src|, p, own) && Named(src, |src|, dst, p)
    requires DistinctNames(src) && SpelledAlike(src, dst.labels) && j < |own| && own[j] >= 0
    ensures p.labels[j].name == src[own[j]].name
  {
    hide DistinctNames, SameKey;
    var i := own[j];
    if j < |dst.labels| {
      FoundBefore(src, dst, p, src[i].name);
    } else {
      var k :| 0 <= k < |src| && p.labels[j].name == src[k].name;
      if i != k { KeysDiffer(src, k, i); }
    }
  }

  lemma SweepConvergesNames(src: seq<Label>, dst: Db, p: Progress, own: seq<int>)
    requires Shaped(p) && Owners(src, |src|, p, own) && Named(src, |src|, dst, p)
    requires DistinctNames(src) && SpelledAlike(src, dst.labels)
    ensures ConvergedDb(src, Select(p.labels, p.done, true, |p.labels|))
  {
    hide SameKey, Converged;
    var n := |p.labels|;
    var out, at := Select(p.labels, p.done, true, n), Where(p.done, true, n);
    SelectIsWhere(p.labels, p.done, true, n);
    forall i | 0 <= i < |src| ensures Served(src[i], out) {
      assert OwnsOne(src, i, p, own);
      var k := Lookup(p.labels, src[i].name);
      OwnerNames(src, dst, p, own, k);
      var j := WhereFindsAll(p.done, true, n, k);
      assert out[j] == p.labels[k];
    }
    forall j | 0 <= j < |out| ensures Wanted(out[j], src) {
      assert out[j] == p.labels[at[j]] && own[at[j]] >= 0;
      OwnerNames(src, dst, p, own, at[j]);
    }
  }

  /**
   * Convergence: a complete update, one in which no label was skipped, leaves the destination
   * with exactly the source's labels, converged, whatever the user answered. Source labels must
   * be distinct keys, a destination label must not spell the name of its source label differently,
   * and in single-text mode destination labels hold at most one text.
   */
  lemma UpdateDbConverges(src: seq<Label>, dst: Db, ranks: seq<nat -> nat>, run: Run)
    requires |ranks| == |src| && DistinctNames(src) && SpelledAlike(src, dst.labels) && run.update
    requires run.multiText || forall j | 0 <= j < |dst.labels| :: |dst.labels[j].texts| <= 1
    requires UpdateDb(src, dst, ranks, run).info.skippedLabels == 0
    ensures ConvergedDb(src, UpdateDb(src, dst, ranks, run).db.labels)
  {
    var own := VisitsOwn(src, |src|, dst, ranks, run);
    VisitsName(src, |src|, dst, ranks, run);
    SweepConvergesNames(src, dst, VisitAll(src, |src|, dst, ranks, run), own);
  }

  /** The numbers below n. */
  function Upto(n: nat): (r: set<nat>)
    ensures |r| == n && forall i :: i in r <==> 0 <= i < n
  {
    if n == 0 then {} else Upto(n - 1) + {n - 1}
  }

  /** n distinct numbers below n are all of them. */
  lemma {:induction false} Pigeonhole(f: seq<nat>, n: nat, used: set<nat>, k: nat)
    requires |f| == n && k <= n
    requires forall j | 0 <= j < n :: f[j] < n
    requires forall j, l | 0 <= j < l < n :: f[j] != f[l]
    requires |used| == k && forall i :: i in used <==> exists j | 0 <= j < k :: f[j] == i
    ensures forall i | 0 <= i < n :: i in f
    decreases n - k
  {
    if k < n {
      assert f[k] !in used;
      Pigeonhole(f, n, used + {f[k]}, k + 1);
    } else {
      assert used <= Upto(n);
      SameSize(used, Upto(n));
      forall i | 0 <= i < n ensures i in f {
        assert i in used;
      }
    }
  }

  lemma {:induction false} SameSize(a: set<nat>, b: set<nat>)
    requires a <= b && |a| == |b|
    ensures a == b
  {
    assert (b - a) + a == b && (b - a) * a == {};
    assert |b - a| == 0;
  }

  lemma WantedBy(src: seq<Label>, out: seq<Label>) returns (f: seq<nat>)
    requires forall j | 0 <= j < |out| :: Wanted(out[j], src)
    ensures |f| == |out| && forall j | 0 <= j < |out| :: f[j] < |src| && out[j].name == src[f[j]].name
  {
    f := [];
    while |f| < |out|
      invariant |f| <= |out|
      invariant forall j | 0 <= j < |f| :: f[j] < |src| && out[j].name == src[f[j]].name
    {
      assert Wanted(out[|f|], src);
      var i :| 0 <= i < |src| && out[|f|].name == src[i].name;
      f := f + [i];
    }
  }

  /** A database of distinct keys that holds exactly the source's labels gives the source distinct keys. */
  lemma ConvergedNamesDistinct(src: seq<Label>, out: seq<Label>)
    requires ConvergedDb(src, out) && DistinctNames(out)
    ensures DistinctNames(src)
  {
    hide Served, SameKey;
    var f := WantedBy(src, out);
    forall j, l | 0 <= j < l < |f| ensures f[j] != f[l] {
      SameKeyAsItself(out[j].name);
      assert !SameKey(out[j].name, out[l].name);
    }
    Pigeonhole(f, |f|, {}, 0);
    forall i, k | 0 <= i < k < |src| ensures !SameKey(src[i].name, src[k].name) {
      assert i in f && k in f;
      var j :| 0 <= j < |f| && f[j] == i;
      var l :| 0 <= l < |f| && f[l] == k;
      var low, high := if j < l then j else l, if j < l then l else j;
      assert !SameKey(out[low].name, out[high].name);
      if SameKey(src[i].name, src[k].name) { SameKeyTurns(src[i].name, src[k].name); }
    }
  }

  /** Two labels of one key in a database of distinct keys are one label. */
  lemma OneKeyOneLabel(out: seq<Label>, j: nat, l: nat, name: string)
    requires DistinctNames(out) && j < |out| && l < |out|
    requires SameKey(out[j].name, name) && SameKey(out[l].name, name)
    ensures j == l
  {
    hide DistinctNames;
    if j != l { KeysDiffer(out, j, l); }
  }

  /** The source label that finds destination label j owns it in the end; so the label must have its name. */
  lemma ConvergedNamesAlike(src: seq<Label>, dst: Db, p: Progress, own: seq<int>, i: nat)
    requires Shaped(p) && Owners(src, |src|, p, own) && Named(src, |src|, dst, p) && DoneFirst(p)
    requires ConvergedDb(src, Select(p.labels, p.done, true, |p.labels|)) && i < |src| && Lookup(dst.labels, src[i].name) >= 0
    ensures dst.labels[Lookup(dst.labels, src[i].name)].name == src[i].name
  {
    hide SameKey, Converged;
    var n, j := |p.labels|, Lookup(dst.labels, src[i].name);
    var out := Select(p.labels, p.done, true, n);
    LookupExtends(dst.labels, p.labels, src[i].name);
    assert OwnsOne(src, i, p, own);
    SweptNamesDistinct(p);
    SelectIsWhere(p.labels, p.done, true, n);
    var l := WhereFindsAll(p.done, true, n, j);
    assert out[l] == p.labels[j];
    assert Served(src[i], out);
    var k :| 0 <= k < |out| && out[k].name == src[i].name && Converged(src[i], out[k]);
    SameKeyAsItself(src[i].name);
    OneKeyOneLabel(out, l, k, src[i].name);
  }

  /**
   * Convergence is exact: after a complete update the destination holds exactly the source's labels,
   * converged, if and only if no two source labels are one key and no source name finds a label with
   * another spelling. Names that differ as strings are not enough.
   */
  lemma UpdateDbConvergesExactly(src: seq<Label>, dst: Db, ranks: seq<nat -> nat>, run: Run)
    requires |ranks| == |src| && run.update
    requires run.multiText || forall j | 0 <= j < |dst.labels| :: |dst.labels[j].texts| <= 1
    requires UpdateDb(src, dst, ranks, run).info.skippedLabels == 0
    ensures ConvergedDb(src, UpdateDb(src, dst, ranks, run).db.labels)
       <==> DistinctNames(src) && SpelledAlike(src, dst.labels)
  {
    hide Visit, ConvergedDb, DistinctNames, Owners, Named, DoneFirst, Select;
    if DistinctNames(src) && SpelledAlike(src, dst.labels) { UpdateDbConverges(src, dst, ranks, run); }
    var p, out := VisitAll(src, |src|, dst, ranks, run), UpdateDb(src, dst, ranks, run).db.labels;
    if ConvergedDb(src, out) {
      VisitsName(src, |src|, dst, ranks, run);
      SweptNamesDistinct(p);
      ConvergedNamesDistinct(src, out);
      var own := VisitsOwn(src, |src|, dst, ranks, run);
      forall i | 0 <= i < |src| && Lookup(dst.labels, src[i].name) >= 0
        ensures dst.labels[Lookup(dst.labels, src[i].name)].name == src[i].name
      {
        ConvergedNamesAlike(src, dst, p, own, i);
      }
    }
  }

  lemma NoTextsNoSkip(s: Label, d: Label, rank: nat -> nat, mode: Mode, asked: nat)
    requires s.texts == []
    ensures UpdateLabel(s, d, rank, mode, asked).code == Ok && UpdateLabel(s, d, rank, mode, asked).info.skippedLabels == 0
  {
  }

  /** Two different names that are one key: the second label takes over the first, and one is lost. */
  lemma DifferentNamesMayClash(a: Label, b: Label, ranks: seq<nat -> nat>, run: Run)
    requires |ranks| == 2 && a.name == "aB" && b.name == "Ab" && b.texts == [] && run.update
    ensures a.name != b.name && !DistinctNames([a, b])
    ensures var r := UpdateDb([a, b], Db([], []), ranks, run);
            r.info.skippedLabels == 0 && |r.db.labels| == 1
  {
    SwappedCaseIsOneKey();
    hide SameKey, UpdateLabel;
    var src := [a, b];
    assert SameKey(src[0].name, src[1].name);
    var p0, p1 := Start(Db([], [])), VisitAll(src, 1, Db([], []), ranks, run);
    assert VisitAll(src, 0, Db([], []), ranks, run) == p0;
    assert p1 == Visit(p0, a, ranks[0], run);
    assert p1.labels == [CloneLabel(a)] && p1.done == [true];
    NoTextsNoSkip(b, CloneLabel(a), ranks[1], ModeFor(p1, run), p1.asked);
    assert FindLabel(p1.labels, b.name, 0) == -1 && Lookup(p1.labels, b.name) == 0;
    var p2 := Visit(p1, b, ranks[1], run);
    assert VisitAll(src, 2, Db([], []), ranks, run) == p2;
    assert p2.done == [true] && |p2.labels| == 1;
    assert p1.info.skippedLabels == 0 && p2.info.skippedLabels == 0;
    assert SweepInfo(p2.labels, p2.done, 0) == NO_INFO && SweepInfo(p2.labels, p2.done, 1) == NO_INFO;
    assert Select(p2.labels, p2.done, true, 0) == [] && Select(p2.labels, p2.done, true, 1) == p2.labels;
  }

  // ---------------------------------------------------------------------------------------
  // The dry run
  // ---------------------------------------------------------------------------------------

  /** Equal up to retranslate marks. */
  predicate SameButMarks(a: Label, b: Label) {
    b == a.(texts := b.texts) && Unmarked(a.texts) == Unmarked(b.texts)
  }

  predicate SameLabelsButMarks(a: seq<Label>, b: seq<Label>) {
    |a| == |b| && forall j | 0 <= j < |a| :: SameButMarks(a[j], b[j])
  }

  lemma MarksDoNotMatter(s: Label, a: Label, b: Label)
    requires SameButMarks(a, b)
    ensures Converged(s, a) <==> Converged(s, b)
  {
    assert Views(a.texts) == Views(Unmarked(a.texts));
    assert Views(b.texts) == Views(Unmarked(b.texts));
  }

  /** A check passes source label i: its destination label is there and converged, and no key of its texts repeats. */
  predicate Passes(s: Label, dst: seq<Label>) {
    var j := Lookup(dst, s.name);
    j >= 0 && Converged(s, dst[j]) && DistinctKeys(s.texts)
  }

  /** Some source label among the first n looks up destination label j. */
  predicate Reached(src: seq<Label>, n: nat, dst: seq<Label>, j: nat)
    requires n <= |src|
  {
    exists i | 0 <= i < n :: Lookup(dst, src[i].name) == j
  }

  lemma DryVisit(p: Progress, s: Label, rank: nat -> nat, run: Run)
    requires Shaped(p) && !run.update
    ensures var q := Visit(p, s, rank, run);
            && SameLabelsButMarks(p.labels, q.labels) && q.obsolete == p.obsolete && q.asked == p.asked
            && (q.info.changes == p.info.changes <==> Passes(s, p.labels))
            && q.info.changes >= p.info.changes
            && q.done == (if Lookup(p.labels, s.name) >= 0 then p.done[Lookup(p.labels, s.name) := true] else p.done)
  {
    hide UpdateLabel, Converged, DistinctKeys, NeedsNoQuestion, Unmarks, Unmarked;
    var j := Lookup(p.labels, s.name);
    if j >= 0 {
      var mode := ModeFor(p, run);
      var u := UpdateLabel(s, p.labels[j], rank, mode, p.asked);
      DryRunClearsMarks(s, p.labels[j], rank, mode, p.asked);
      CheckIsExact(s, p.labels[j], rank, mode);
      AskedDoesNotMatter(s, p.labels[j], rank, mode, p.asked);
      assert u.code == Ok && u.info.changes == 0 <==> Clean(s, p.labels[j], rank, mode);
      if u.code != Ok { SkipIsHarmless(s, p.labels[j], rank, mode, p.asked); }
    }
  }

  lemma {:induction false} AskingFrom(w: Session, i: nat, mode: Mode, asked: nat)
    requires i <= |w.m.src| && |w.m.dst| == |w.d| && !mode.update
    ensures AskFrom(w.(asked := asked), i, mode).0 == AskFrom(w, i, mode).0
    ensures AskFrom(w.(asked := asked), i, mode).1 == AskFrom(w, i, mode).1.(asked := asked)
    decreases |w.m.src| - i
  {
    if i < |w.m.src| && !w.m.AllDstMatched() && w.m.src[i] >= 0 { AskingFrom(w, i + 1, mode, asked); }
  }

  /** A dry run does not depend on how many dialogs came before. */
  lemma AskedDoesNotMatter(s: Label, d: Label, rank: nat -> nat, mode: Mode, asked: nat)
    requires !mode.update
    ensures UpdateLabel(s, d, rank, mode, asked).code == UpdateLabel(s, d, rank, mode, 0).code
    ensures UpdateLabel(s, d, rank, mode, asked).info == UpdateLabel(s, d, rank, mode, 0).info
  {
    var first := MatchEqual(s.texts, d.texts, rank, |s.texts|);
    if first.Some? { AskingFrom(Session(first.value, d.texts, 0), 0, mode, asked); }
  }

  lemma {:induction false} LookupSameNames(a: seq<Label>, b: seq<Label>, name: string, n: nat)
    requires SameLabelsButMarks(a, b) && n <= |a|
    ensures FindLabel(a, name, n) == FindLabel(b, name, n)
  {
    LookupStays(a, b, name, n);
  }

  /** After n source labels of a dry run. */
  predicate Dry(src: seq<Label>, n: nat, dst: Db, p: Progress)
    requires n <= |src| && Shaped(p)
  {
    && SameLabelsButMarks(dst.labels, p.labels) && p.obsolete == dst.obsolete && p.asked == 0
    && (p.info.changes == 0 <==> forall i | 0 <= i < n :: Passes(src[i], dst.labels))
    && (forall j | 0 <= j < |dst.labels| :: p.done[j] <==> Reached(src, n, dst.labels, j))
  }

  lemma DryStep(src: seq<Label>, n: nat, dst: Db, p: Progress, rank: nat -> nat, run: Run)
    requires n < |src| && Shaped(p) && !run.update && Dry(src, n, dst, p)
    ensures Dry(src, n + 1, dst, Visit(p, src[n], rank, run))
  {
    var q := Visit(p, src[n], rank, run);
    DryVisit(p, src[n], rank, run);
    LookupSameNames(dst.labels, p.labels, src[n].name, |dst.labels|);
    PassesSame(src[n], dst.labels, p.labels);
    SameTransitive(dst.labels, p.labels, q.labels);
    DoneStep(src, n, dst.labels, p.done, q.done);
    PassStep(src, n, dst.labels);
  }

  lemma PassStep(src: seq<Label>, n: nat, dst: seq<Label>)
    requires n < |src|
    ensures (forall i | 0 <= i < n + 1 :: Passes(src[i], dst))
       <==> (forall i | 0 <= i < n :: Passes(src[i], dst)) && Passes(src[n], dst)
  {
  }

  lemma DoneStep(src: seq<Label>, n: nat, dst: seq<Label>, was: seq<bool>, now: seq<bool>)
    requires n < |src| && |was| == |dst|
    requires forall j | 0 <= j < |dst| :: was[j] <==> Reached(src, n, dst, j)
    requires var l := Lookup(dst, src[n].name); now == if l >= 0 then was[l := true] else was
    ensures forall j | 0 <= j < |dst| :: now[j] <==> Reached(src, n + 1, dst, j)
  {
    forall j | 0 <= j < |dst| ensures now[j] <==> Reached(src, n + 1, dst, j) {
      ReachedStep(src, n + 1, dst, j);
    }
  }

  lemma {:induction false} DryVisits(src: seq<Label>, n: nat, dst: Db, ranks: seq<nat -> nat>, run: Run)
    requires n <= |src| == |ranks| && !run.update
    ensures Dry(src, n, dst, VisitAll(src, n, dst, ranks, run))
  {
    hide Visit, Passes, Lookup;
    if n > 0 {
      DryVisits(src, n - 1, dst, ranks, run);
      DryStep(src, n - 1, dst, VisitAll(src, n - 1, dst, ranks, run), ranks[n - 1], run);
    }
  }

  lemma ReachedStep(src: seq<Label>, n: nat, dst: seq<Label>, j: nat)
    requires 0 < n <= |src|
    ensures Reached(src, n, dst, j) <==> Reached(src, n - 1, dst, j) || Lookup(dst, src[n - 1].name) == j
  {
    if Lookup(dst, src[n - 1].name) == j { assert Reached(src, n, dst, j); }
    if Reached(src, n - 1, dst, j) {
      var i :| 0 <= i < n - 1 && Lookup(dst, src[i].name) == j;
      assert Reached(src, n, dst, j);
    }
  }

  lemma PassesSame(s: Label, a: seq<Label>, b: seq<Label>)
    requires SameLabelsButMarks(a, b)
    ensures Passes(s, a) <==> Passes(s, b)
  {
    LookupSameNames(a, b, s.name, |a|);
    var j := Lookup(a, s.name);
    if j >= 0 { MarksDoNotMatter(s, a[j], b[j]); }
  }

  lemma SameTransitive(a: seq<Label>, b: seq<Label>, c: seq<Label>)
    requires SameLabelsButMarks(a, b) && SameLabelsButMarks(b, c)
    ensures SameLabelsButMarks(a, c)
  {
  }

  lemma {:induction false} SweepCounts(labels: seq<Label>, done: seq<bool>, n: nat)
    requires n <= |labels| == |done|
    ensures SweepInfo(labels, done, n).changes == 0 <==> forall j | 0 <= j < n && !done[j] :: labels[j].texts == []
  {
    if n > 0 { SweepCounts(labels, done, n - 1); }
  }

  /** One of the first n source labels clears the mark of text k of destination label j. */
  predicate Clears(src: seq<Label>, n: nat, dst: seq<Label>, ranks: seq<nat -> nat>, j: nat, k: nat)
    requires n <= |src| == |ranks| && j < |dst| && k < |dst[j].texts|
  {
    exists i | 0 <= i < n :: Lookup(dst, src[i].name) == j && Unmarks(src[i], dst[j], ranks[i], k)
  }

  lemma ClearsStep(src: seq<Label>, n: nat, dst: seq<Label>, ranks: seq<nat -> nat>, j: nat, k: nat)
    requires n < |src| == |ranks| && j < |dst| && k < |dst[j].texts|
    ensures Clears(src, n + 1, dst, ranks, j, k) <==>
            Clears(src, n, dst, ranks, j, k) || (Lookup(dst, src[n].name) == j && Unmarks(src[n], dst[j], ranks[n], k))
  {
    hide Unmarks, Lookup;
    if Lookup(dst, src[n].name) == j && Unmarks(src[n], dst[j], ranks[n], k) {
      assert Clears(src, n + 1, dst, ranks, j, k);
    }
    if Clears(src, n, dst, ranks, j, k) {
      var i :| 0 <= i < n && Lookup(dst, src[i].name) == j && Unmarks(src[i], dst[j], ranks[i], k);
      assert Clears(src, n + 1, dst, ranks, j, k);
    }
  }

  /** The texts of label j have the marks of before but for those cleared by the first n source labels. */
  predicate MarksLeft(src: seq<Label>, n: nat, dst: seq<Label>, ranks: seq<nat -> nat>, j: nat, now: seq<Text>)
    requires n <= |src| == |ranks| && j < |dst|
  {
    |now| == |dst[j].texts| &&
    forall k | 0 <= k < |now| ::
      now[k].retranslate <==> dst[j].texts[k].retranslate && !Clears(src, n, dst, ranks, j, k)
  }

  /** The visit of a source label without a destination label, or seen from another label. */
  lemma MarksElsewhere(src: seq<Label>, n: nat, dst: seq<Label>, ranks: seq<nat -> nat>, j: nat, now: seq<Text>)
    requires n < |src| == |ranks| && j < |dst| && MarksLeft(src, n, dst, ranks, j, now) && Lookup(dst, src[n].name) != j
    ensures MarksLeft(src, n + 1, dst, ranks, j, now)
  {
    hide Unmarks, Lookup, Clears;
    forall k | 0 <= k < |now| ensures Clears(src, n + 1, dst, ranks, j, k) <==> Clears(src, n, dst, ranks, j, k) {
      ClearsStep(src, n, dst, ranks, j, k);
    }
  }

  lemma MarksHere(src: seq<Label>, n: nat, dst: seq<Label>, ranks: seq<nat -> nat>, j: nat, l: Label, mode: Mode, asked: nat)
    requires n < |src| == |ranks| && j < |dst| && MarksLeft(src, n, dst, ranks, j, l.texts) && Lookup(dst, src[n].name) == j
    requires SameButMarks(dst[j], l) && !mode.update
    ensures MarksLeft(src, n + 1, dst, ranks, j, UpdateLabel(src[n], l, ranks[n], mode, asked).dest.texts)
  {
    hide UpdateLabel, Lookup, Clears, MatchEqual;
    DryRunClearsMarks(src[n], l, ranks[n], mode, asked);
    MatchUnmarked(src[n].texts, dst[j].texts, l.texts, ranks[n], |src[n].texts|);
    forall k | 0 <= k < |l.texts| ensures Unmarks(src[n], l, ranks[n], k) <==> Unmarks(src[n], dst[j], ranks[n], k) {
    }
    forall k | 0 <= k < |l.texts|
      ensures Clears(src, n + 1, dst, ranks, j, k) <==> Clears(src, n, dst, ranks, j, k) || Unmarks(src[n], l, ranks[n], k)
    {
      ClearsStep(src, n, dst, ranks, j, k);
    }
  }

  lemma MarksVisit(src: seq<Label>, n: nat, dst: Db, ranks: seq<nat -> nat>, run: Run, p: Progress, j: nat)
    requires n < |src| == |ranks| && !run.update && Shaped(p) && SameLabelsButMarks(dst.labels, p.labels)
    requires j < |dst.labels| && MarksLeft(src, n, dst.labels, ranks, j, p.labels[j].texts)
    ensures |Visit(p, src[n], ranks[n], run).labels| == |dst.labels|
    ensures MarksLeft(src, n + 1, dst.labels, ranks, j, Visit(p, src[n], ranks[n], run).labels[j].texts)
  {
    hide UpdateLabel, Lookup, MarksLeft, SameButMarks;
    LookupSameNames(dst.labels, p.labels, src[n].name, |dst.labels|);
    LookupIs(dst.labels, src[n].name);
    if Lookup(dst.labels, src[n].name) == j {
      MarksHere(src, n, dst.labels, ranks, j, p.labels[j], ModeFor(p, run), p.asked);
    } else {
      MarksElsewhere(src, n, dst.labels, ranks, j, p.labels[j].texts);
    }
  }

  lemma {:induction false} DryMarks(src: seq<Label>, n: nat, dst: Db, ranks: seq<nat -> nat>, run: Run)
    requires n <= |src| == |ranks| && !run.update
    ensures var p := VisitAll(src, n, dst, ranks, run);
            |p.labels| == |dst.labels| &&
            forall j | 0 <= j < |dst.labels| :: MarksLeft(src, n, dst.labels, ranks, j, p.labels[j].texts)
  {
    hide Visit, MarksLeft, SameButMarks, Passes;
    if n == 0 {
      forall j | 0 <= j < |dst.labels| ensures MarksLeft(src, 0, dst.labels, ranks, j, dst.labels[j].texts) {
        NothingCleared(src, dst.labels, ranks, j);
      }
    } else {
      DryMarks(src, n - 1, dst, ranks, run);
      DryVisits(src, n - 1, dst, ranks, run);
      DryVisits(src, n, dst, ranks, run);
      var p := VisitAll(src, n - 1, dst, ranks, run);
      forall j | 0 <= j < |dst.labels|
        ensures MarksLeft(src, n, dst.labels, ranks, j, VisitAll(src, n, dst, ranks, run).labels[j].texts)
      {
        MarksVisit(src, n - 1, dst, ranks, run, p, j);
      }
    }
  }

  lemma LookupIs(labels: seq<Label>, name: string)
    ensures Lookup(labels, name) == FindLabel(labels, name, |labels|)
  {
  }

  lemma NothingCleared(src: seq<Label>, dst: seq<Label>, ranks: seq<nat -> nat>, j: nat)
    requires |src| == |ranks| && j < |dst|
    ensures MarksLeft(src, 0, dst, ranks, j, dst[j].texts)
  {
  }

  /** A check leaves the labels as they are exactly when no source label clears a mark. */
  lemma MarksDecide(src: seq<Label>, dst: seq<Label>, ranks: seq<nat -> nat>, out: seq<Label>)
    requires |src| == |ranks| && SameLabelsButMarks(dst, out)
    requires forall j | 0 <= j < |dst| :: MarksLeft(src, |src|, dst, ranks, j, out[j].texts)
    ensures out == dst <==>
            forall j, k | 0 <= j < |dst| && 0 <= k < |dst[j].texts| && dst[j].texts[k].retranslate ::
              !Clears(src, |src|, dst, ranks, j, k)
  {
    hide Clears, Unmarked;
    if forall j, k | 0 <= j < |dst| && 0 <= k < |dst[j].texts| && dst[j].texts[k].retranslate ::
         !Clears(src, |src|, dst, ranks, j, k)
    {
      forall j | 0 <= j < |dst| ensures out[j] == dst[j] {
        assert SameButMarks(dst[j], out[j]) && MarksLeft(src, |src|, dst, ranks, j, out[j].texts);
        SameMarks(dst[j].texts, out[j].texts);
      }
    }
  }

  /**
   * The check is exact, with no assumption on the databases. It asks nobody and changes nothing but
   * retranslate marks; the database stays as it is if and only if no source label clears a mark. It
   * returns 0 if and only if every source label passes and every destination label no source label
   * reaches is empty.
   */
  lemma CheckDbIsExact(src: seq<Label>, dst: Db, ranks: seq<nat -> nat>, run: Run)
    requires |ranks| == |src| && !run.update
    ensures var r := UpdateDb(src, dst, ranks, run);
            && SameLabelsButMarks(dst.labels, r.db.labels) && r.db.obsolete == dst.obsolete && r.asked == 0
            && (r.db == dst <==>
                  forall j, k | 0 <= j < |dst.labels| && 0 <= k < |dst.labels[j].texts| && dst.labels[j].texts[k].retranslate ::
                    !Clears(src, |src|, dst.labels, ranks, j, k))
            && (r.info.changes == 0 <==>
                  && (forall i | 0 <= i < |src| :: Passes(src[i], dst.labels))
                  && (forall j | 0 <= j < |dst.labels| :: Reached(src, |src|, dst.labels, j) || dst.labels[j].texts == []))
  {
    hide Clears, MarksLeft, Visit;
    DryVisits(src, |src|, dst, ranks, run);
    DryMarks(src, |src|, dst, ranks, run);
    var p := VisitAll(src, |src|, dst, ranks, run);
    MarksDecide(src, dst.labels, ranks, p.labels);
    SweepCounts(p.labels, p.done, |p.labels|);
    forall j | 0 <= j < |p.labels| ensures p.labels[j].texts == [] <==> dst.labels[j].texts == [] {
      assert |Unmarked(dst.labels[j].texts)| == |Unmarked(p.labels[j].texts)|;
    }
  }

  lemma {:induction false} FindNone(labels: seq<Label>, name: string, j: nat, n: nat)
    requires DistinctNames(labels) && n <= j < |labels| && SameKey(labels[j].name, name)
    ensures FindLabel(labels, name, n) == -1
  {
    if n > 0 {
      FindNone(labels, name, j, n - 1);
      assert !SameKey(labels[n - 1].name, labels[j].name);
    }
  }

  lemma {:induction false} FindOnly(labels: seq<Label>, name: string, j: nat, n: nat)
    requires DistinctNames(labels) && j < n <= |labels| && SameKey(labels[j].name, name)
    ensures FindLabel(labels, name, n) == j
  {
    if j < n - 1 {
      FindOnly(labels, name, j, n - 1);
    } else {
      FindNone(labels, name, j, j);
    }
  }

  /** With distinct names, a label passes exactly when the destination serves it and its own keys are distinct. */
  lemma PassesIsServed(s: Label, dst: seq<Label>)
    requires DistinctNames(dst)
    ensures Passes(s, dst) <==> KeyServed(s, dst) && DistinctKeys(s.texts)
  {
    if KeyServed(s, dst) {
      var j :| 0 <= j < |dst| && SameKey(dst[j].name, s.name) && Converged(s, dst[j]);
      FindOnly(dst, s.name, j, |dst|);
    }
  }

  lemma ReachedIsWanted(src: seq<Label>, dst: seq<Label>, j: nat)
    requires DistinctNames(dst) && j < |dst|
    ensures Reached(src, |src|, dst, j) <==> KeyWanted(dst[j], src)
  {
    if KeyWanted(dst[j], src) {
      var i :| 0 <= i < |src| && SameKey(dst[j].name, src[i].name);
      FindOnly(dst, src[i].name, j, |dst|);
    }
    if Reached(src, |src|, dst, j) {
      var i :| 0 <= i < |src| && Lookup(dst, src[i].name) == j;
      assert SameKey(dst[j].name, src[i].name);
    }
  }

  /**
   * A check straight after a complete update returns 0, if and only if no source label repeats a
   * text key: a repeated key makes UpdateLabel give up on the label.
   */
  lemma CheckAfterUpdate(src: seq<Label>, dst: Db, ranks: seq<nat -> nat>, run: Run,
                         ranks': seq<nat -> nat>, run': Run)
    requires |ranks| == |src| == |ranks'| && DistinctNames(src) && run.update && !run'.update
    requires run.multiText || forall j | 0 <= j < |dst.labels| :: |dst.labels[j].texts| <= 1
    requires UpdateDb(src, dst, ranks, run).info.skippedLabels == 0
    ensures UpdateDb(src, UpdateDb(src, dst, ranks, run).db, ranks', run').info.changes == 0
       <==> forall i | 0 <= i < |src| :: DistinctKeys(src[i].texts)
  {
    UpdateDbConvergesByKey(src, dst, ranks, run);
    var out := UpdateDb(src, dst, ranks, run).db;
    CheckDbIsExact(src, out, ranks', run');
    forall i | 0 <= i < |src| ensures Passes(src[i], out.labels) <==> DistinctKeys(src[i].texts) {
      PassesIsServed(src[i], out.labels);
    }
    forall j | 0 <= j < |out.labels| ensures Reached(src, |src|, out.labels, j) {
      ReachedIsWanted(src, out.labels, j);
    }
  }

  /** A source label with one string twice: cloned into an empty destination, it fails the check that follows. */
  lemma RepeatedKeyIsReported(t: Text, ranks: seq<nat -> nat>, run: Run, ranks': seq<nat -> nat>, run': Run)
    requires |ranks| == |ranks'| == 1 && run.update && !run'.update
    ensures var src := [Label("A", "", "", "", "", 0, [t, t])];
            var r := UpdateDb(src, Db([], []), ranks, run);
            && r.info.skippedLabels == 0 && ConvergedDb(src, r.db.labels)
            && UpdateDb(src, r.db, ranks', run').info.changes > 0
  {
    hide SameKey, UpdateLabel, Converged;
    var a, dst := Label("A", "", "", "", "", 0, [t, t]), Db([], []);
    assert VisitAll([a], 0, dst, ranks, run) == Start(dst) && FindLabel([], a.name, 0) == -1;
    var p := VisitAll([a], 1, dst, ranks, run);
    assert p == Visit(Start(dst), a, ranks[0], run) && p.done == [true];
    assert SweepInfo(p.labels, p.done, 0) == NO_INFO && SweepInfo(p.labels, p.done, 1) == NO_INFO;
    UpdateDbConverges([a], dst, ranks, run);
    CheckAfterUpdate([a], dst, ranks, run, ranks', run');
    SameKeyAsItself(t.str);
    assert SameKey(a.texts[0].str, a.texts[1].str) && !DistinctKeys([a][0].texts);
  }

  /** Distinct numbers below m are at most m. */
  lemma {:induction false} InjectionFits(f: seq<nat>, m: nat) returns (used: set<nat>)
    requires forall j | 0 <= j < |f| :: f[j] < m
    requires forall j, l | 0 <= j < l < |f| :: f[j] != f[l]
    ensures |used| == |f| <= m && used <= Upto(m) && forall i | i in used :: i in f
  {
    used := {};
    if f != [] {
      var n := |f| - 1;
      used := InjectionFits(f[..n], m);
      used := used + {f[n]};
    }
    assert Upto(m) == used + (Upto(m) - used);
  }

  /** Source names look up distinct labels, so there are at least as many. */
  lemma AsManyLabels(src: seq<Label>, dst: seq<Label>)
    requires DistinctNames(src) && forall i | 0 <= i < |src| :: Lookup(dst, src[i].name) >= 0
    ensures |src| <= |dst|
  {
    var f: seq<nat> := seq(|src|, i requires 0 <= i < |src| => Lookup(dst, src[i].name));
    forall j, l | 0 <= j < l < |f| ensures f[j] != f[l] { LookupsDiffer(src, j, l, dst); }
    var _ := InjectionFits(f, |dst|);
  }

  /** Destination labels with the names of source labels are no more than those. */
  lemma NoMoreLabels(src: seq<Label>, dst: seq<Label>)
    requires DistinctNames(dst) && forall j | 0 <= j < |dst| :: Wanted(dst[j], src)
    ensures |dst| <= |src|
  {
    hide SameKey;
    var f := WantedBy(src, dst);
    forall j, l | 0 <= j < l < |f| ensures f[j] != f[l] {
      SameKeyAsItself(dst[j].name);
      assert !SameKey(dst[j].name, dst[l].name);
    }
    var _ := InjectionFits(f, |src|);
  }

  /** Every source label passes and every destination label is reached, by its own name. */
  predicate Agree(src: seq<Label>, dst: seq<Label>) {
    && SpelledAlike(src, dst) && (forall i | 0 <= i < |src| :: Passes(src[i], dst))
    && forall j | 0 <= j < |dst| :: Reached(src, |src|, dst, j)
  }

  lemma AgreeConverged(src: seq<Label>, dst: seq<Label>)
    requires DistinctNames(src) && DistinctNames(dst) && Agree(src, dst)
    ensures ConvergedDb(src, dst)
  {
    hide SameKey, Converged, DistinctKeys;
    forall i | 0 <= i < |src| ensures Lookup(dst, src[i].name) >= 0 && Served(src[i], dst) {
      assert Passes(src[i], dst);
    }
    forall j | 0 <= j < |dst| ensures Wanted(dst[j], src) {
      assert Reached(src, |src|, dst, j);
    }
    AsManyLabels(src, dst);
    NoMoreLabels(src, dst);
  }

  lemma ConvergedAgree(src: seq<Label>, dst: seq<Label>)
    requires DistinctNames(dst) && ConvergedDb(src, dst) && forall i | 0 <= i < |src| :: DistinctKeys(src[i].texts)
    ensures Agree(src, dst)
  {
    hide SameKey, Converged, DistinctKeys;
    forall i | 0 <= i < |src| ensures Passes(src[i], dst) && dst[Lookup(dst, src[i].name)].name == src[i].name {
      assert Served(src[i], dst);
      var j :| 0 <= j < |dst| && dst[j].name == src[i].name && Converged(src[i], dst[j]);
      SameKeyAsItself(src[i].name);
      FindOnly(dst, src[i].name, j, |dst|);
    }
    forall j | 0 <= j < |dst| ensures Reached(src, |src|, dst, j) {
      assert Wanted(dst[j], src);
      var i :| 0 <= i < |src| && dst[j].name == src[i].name;
      SameKeyAsItself(src[i].name);
      FindOnly(dst, src[i].name, j, |dst|);
    }
  }

  /**
   * With distinct names and no empty destination label, the databases agree, name by name, exactly
   * when the check returns 0 and no name is spelled differently, which the check does not see.
   */
  lemma CheckMeansAgreement(src: seq<Label>, dst: Db, ranks: seq<nat -> nat>, run: Run)
    requires |ranks| == |src| && !run.update && DistinctNames(src) && DistinctNames(dst.labels)
    requires forall j | 0 <= j < |dst.labels| :: dst.labels[j].texts != []
    ensures UpdateDb(src, dst, ranks, run).info.changes == 0 && SpelledAlike(src, dst.labels)
       <==> ConvergedDb(src, dst.labels) && forall i | 0 <= i < |src| :: DistinctKeys(src[i].texts)
  {
    hide UpdateDb, Converged, SameKey, SpelledAlike;
    CheckDbIsExact(src, dst, ranks, run);
    if UpdateDb(src, dst, ranks, run).info.changes == 0 && SpelledAlike(src, dst.labels) {
      AgreeConverged(src, dst.labels);
      forall i | 0 <= i < |src| ensures DistinctKeys(src[i].texts) { assert Passes(src[i], dst.labels); }
    }
    if ConvergedDb(src, dst.labels) && forall i | 0 <= i < |src| :: DistinctKeys(src[i].texts) {
      ConvergedAgree(src, dst.labels);
    }
  }

  /** A label without texts that no source label has: the check returns 0 although the databases differ. */
  lemma EmptyLabelIsNotCounted(d: Label, run: Run)
    requires d.texts == [] && !run.update
    ensures UpdateDb([], Db([d], []), [], run).info.changes == 0 && !ConvergedDb([], [d])
  {
    CheckDbIsExact([], Db([d], []), [], run);
  }

  /** A label under another spelling of the same key: the update keeps that spelling, and a check then finds nothing. */
  lemma OtherSpellingStays(a: Label, d: Label, ranks: seq<nat -> nat>, run: Run, ranks': seq<nat -> nat>, run': Run)
    requires |ranks| == |ranks'| == 1 && a.name == "aB" && d.name == "Ab" && a.texts == d.texts == []
    requires run.update && !run'.update
    ensures var r := UpdateDb([a], Db([d], []), ranks, run);
            && r.info.skippedLabels == 0 && |r.db.labels| == 1 && r.db.labels[0].name == "Ab"
            && DistinctNames([a]) && !ConvergedDb([a], r.db.labels)
            && UpdateDb([a], r.db, ranks', run').info.changes == 0
  {
    SwappedCaseIsOneKey();
    hide SameKey, UpdateLabel, Converged;
    var dst := Db([d], []);
    SameKeyTurns("aB", "Ab");
    assert FindLabel([d], a.name, 0) == -1 && Lookup([d], a.name) == 0;
    var p0 := Start(dst);
    assert VisitAll([a], 0, dst, ranks, run) == p0 && p0.labels == [d];
    var p := VisitAll([a], 1, dst, ranks, run);
    assert p == Visit(p0, a, ranks[0], run);
    NoTextsNoSkip(a, d, ranks[0], ModeFor(p0, run), p0.asked);
    UpdateKeepsName(a, d, ranks[0], ModeFor(p0, run), p0.asked);
    assert p.done == [true] && |p.labels| == 1 && p.labels[0].name == "Ab" && p.info.skippedLabels == 0;
    assert SweepInfo(p.labels, p.done, 0) == NO_INFO && SweepInfo(p.labels, p.done, 1) == NO_INFO;
    assert Select(p.labels, p.done, true, 0) == [] && Select(p.labels, p.done, true, 1) == p.labels;
    CheckAfterUpdate([a], dst, ranks, run, ranks', run');
  }

  // ---------------------------------------------------------------------------------------
  // Cancelling
  // ---------------------------------------------------------------------------------------

  /**
   * A label visited after a cancel: nobody is asked; if it needs no question it is merged as it
   * would have been, otherwise it is left alone.
   */
  lemma VisitAfterCancel(p: Progress, s: Label, rank: nat -> nat, run: Run)
    requires Shaped(p) && p.skipAll
    ensures var q := Visit(p, s, rank, run);
            && q.skipAll && q.asked == p.asked
            && (var j := Lookup(p.labels, s.name);
                j >= 0 ==>
                  if NeedsNoQuestion(s, p.labels[j], rank)
                  then forall other: nat -> Answer ::
                         q.labels[j] == UpdateLabel(s, p.labels[j], rank, Mode(run.update, false, run.multiText, other), p.asked).dest
                  else q.labels[j] == p.labels[j])
  {
    var j := Lookup(p.labels, s.name);
    if j >= 0 {
      SkipStillMerges(s, p.labels[j], rank, ModeFor(p, run), p.asked);
    }
  }

  lemma CancelSticks(p: Progress, s: Label, rank: nat -> nat, run: Run)
    requires Shaped(p) && p.skipAll
    ensures Visit(p, s, rank, run).skipAll && Visit(p, s, rank, run).asked == p.asked
  {
    VisitAfterCancel(p, s, rank, run);
  }

  lemma {:induction false} StaysCancelled(src: seq<Label>, n: nat, m: nat, dst: Db, ranks: seq<nat -> nat>, run: Run)
    requires n <= m <= |src| == |ranks| && VisitAll(src, n, dst, ranks, run).skipAll
    ensures VisitAll(src, m, dst, ranks, run).skipAll
    ensures VisitAll(src, m, dst, ranks, run).asked == VisitAll(src, n, dst, ranks, run).asked
  {
    hide Visit;
    if n < m {
      StaysCancelled(src, n, m - 1, dst, ranks, run);
      CancelSticks(VisitAll(src, m - 1, dst, ranks, run), src[m - 1], ranks[m - 1], run);
    }
  }

  /** After the first cancel the whole rest of the run asks the user nothing. */
  lemma NoQuestionsAfterCancel(src: seq<Label>, n: nat, dst: Db, ranks: seq<nat -> nat>, run: Run)
    requires n <= |src| == |ranks| && VisitAll(src, n, dst, ranks, run).skipAll
    ensures UpdateDb(src, dst, ranks, run).asked == VisitAll(src, n, dst, ranks, run).asked
  {
    StaysCancelled(src, n, |src|, dst, ranks, run);
  }
}
