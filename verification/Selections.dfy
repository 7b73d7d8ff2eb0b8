/** Picking the marked elements of a list, in order. */
module Selections {
  /** Those of the first n elements whose mark equals want. */
  function Select<T>(xs: seq<T>, marks: seq<bool>, want: bool, n: nat): (r: seq<T>)
    requires n <= |xs| == |marks|
    ensures |r| <= n
  {
    if n == 0 then []
    else if marks[n - 1] == want then Select(xs, marks, want, n - 1) + [xs[n - 1]]
    else Select(xs, marks, want, n - 1)
  }

  function Count(marks: seq<bool>, want: bool, n: nat): nat
    requires n <= |marks|
  {
    if n == 0 then 0
    else Count(marks, want, n - 1) + if marks[n - 1] == want then 1 else 0
  }

  /** The indices Select picks. */
  function Where(marks: seq<bool>, want: bool, n: nat): (r: seq<nat>)
    requires n <= |marks|
    ensures forall p, q | 0 <= p < q < |r| :: r[p] < r[q]
    ensures forall p | 0 <= p < |r| :: r[p] < n && marks[r[p]] == want
  {
    if n == 0 then []
    else if marks[n - 1] == want then Where(marks, want, n - 1) + [n - 1]
    else Where(marks, want, n - 1)
  }

  lemma {:induction false} WhereFindsAll(marks: seq<bool>, want: bool, n: nat, j: nat) returns (p: nat)
    requires j < n <= |marks| && marks[j] == want
    ensures p < |Where(marks, want, n)| && Where(marks, want, n)[p] == j
  {
    if j == n - 1 {
      p := |Where(marks, want, n - 1)|;
    } else {
      p := WhereFindsAll(marks, want, n - 1, j);
    }
  }

  lemma {:induction false} SelectIsWhere<T>(xs: seq<T>, marks: seq<bool>, want: bool, n: nat)
    requires n <= |xs| == |marks|
    ensures |Select(xs, marks, want, n)| == |Where(marks, want, n)| == Count(marks, want, n)
    ensures forall p | 0 <= p < |Where(marks, want, n)| ::
              Select(xs, marks, want, n)[p] == xs[Where(marks, want, n)[p]]
  {
    if n > 0 {
      SelectIsWhere(xs, marks, want, n - 1);
    }
  }

  lemma MultisetPush<T>(s: seq<T>, x: T)
    ensures multiset(s + [x]) == multiset(s) + multiset{x}
  {
  }

  lemma SelectStep<T>(xs: seq<T>, marks: seq<bool>, want: bool, n: nat)
    requires 0 < n <= |xs| == |marks|
    ensures marks[n - 1] == want ==>
              multiset(Select(xs, marks, want, n)) == multiset(Select(xs, marks, want, n - 1)) + multiset{xs[n - 1]}
    ensures marks[n - 1] != want ==> Select(xs, marks, want, n) == Select(xs, marks, want, n - 1)
  {
    MultisetPush(Select(xs, marks, want, n - 1), xs[n - 1]);
  }

  lemma {:induction false} CountSplit(marks: seq<bool>, n: nat)
    requires n <= |marks|
    ensures Count(marks, true, n) + Count(marks, false, n) == n
  {
    if n > 0 { CountSplit(marks, n - 1); }
  }

  /** The two selections together are the whole list. */
  lemma {:induction false} SelectSplit<T>(xs: seq<T>, marks: seq<bool>, n: nat)
    requires n <= |xs| == |marks|
    ensures multiset(Select(xs, marks, true, n)) + multiset(Select(xs, marks, false, n)) == multiset(xs[..n])
  {
    if n == 0 {
      assert xs[..n] == [];
    } else {
      hide Select;
      SelectSplit(xs, marks, n - 1);
      assert xs[..n] == xs[..n - 1] + [xs[n - 1]];
      MultisetPush(xs[..n - 1], xs[n - 1]);
      SelectStep(xs, marks, true, n);
      SelectStep(xs, marks, false, n);
    }
  }

  lemma {:induction false} SelectBefore<T>(xs: seq<T>, marks: seq<bool>, i: nat, n: nat)
    requires n <= i < |marks| && |xs| == |marks|
    ensures Select(xs, marks[i := true], true, n) == Select(xs, marks, true, n)
  {
    if n > 0 { SelectBefore(xs, marks, i, n - 1); }
  }

  /** Setting one more mark adds one element to the selection. */
  lemma {:induction false} SelectFlip<T>(xs: seq<T>, marks: seq<bool>, i: nat, n: nat)
    requires i < n <= |xs| == |marks| && !marks[i]
    ensures multiset(Select(xs, marks[i := true], true, n)) == multiset(Select(xs, marks, true, n)) + multiset{xs[i]}
  {
    SelectStep(xs, marks, true, n);
    SelectStep(xs, marks[i := true], true, n);
    hide Select;
    if i == n - 1 {
      SelectBefore(xs, marks, i, n - 1);
    } else {
      SelectFlip(xs, marks, i, n - 1);
    }
  }

  lemma {:induction false} CountFlip(marks: seq<bool>, i: nat, n: nat)
    requires n <= |marks| && i < |marks| && !marks[i]
    ensures Count(marks[i := true], true, n) == Count(marks, true, n) + (if i < n then 1 else 0)
  {
    if n > 0 { CountFlip(marks, i, n - 1); }
  }

  /** Selection commutes with replacing each element by its image. */
  lemma {:induction false} SelectImage<S, T>(xs: seq<S>, ys: seq<T>, f: S -> T, marks: seq<bool>, want: bool, n: nat)
    requires n <= |xs| == |ys| == |marks|
    requires forall i | 0 <= i < |xs| && marks[i] == want :: ys[i] == f(xs[i])
    ensures |Select(xs, marks, want, n)| == |Select(ys, marks, want, n)|
    ensures forall p | 0 <= p < |Select(xs, marks, want, n)| ::
              Select(ys, marks, want, n)[p] == f(Select(xs, marks, want, n)[p])
  {
    if n > 0 { SelectImage(xs, ys, f, marks, want, n - 1); }
  }

  lemma {:induction false} SelectAll<T>(xs: seq<T>, marks: seq<bool>, want: bool, n: nat)
    requires n <= |xs| == |marks|
    requires forall i | 0 <= i < n :: marks[i] == want
    ensures Select(xs, marks, want, n) == xs[..n]
    ensures Select(xs, marks, !want, n) == []
  {
    if n > 0 { SelectAll(xs, marks, want, n - 1); assert xs[..n] == xs[..n - 1] + [xs[n - 1]]; }
  }

  // ---------------------------------------------------------------------------------------
  // Lists of positions
  // ---------------------------------------------------------------------------------------

  /** Positions from low to high, in order and each once. */
  predicate Ascending(at: seq<nat>, low: nat, high: nat) {
    (forall p, q | 0 <= p < q < |at| :: at[p] < at[q]) && forall p | 0 <= p < |at| :: low <= at[p] < high
  }

  /** The elements at these positions. */
  function Pick<T>(xs: seq<T>, at: seq<nat>): (r: seq<T>)
    requires forall p | 0 <= p < |at| :: at[p] < |xs|
    ensures |r| == |at|
  {
    seq(|at|, p requires 0 <= p < |at| => xs[at[p]])
  }

  /** Select picks the marked positions. */
  lemma SelectPicks<T>(xs: seq<T>, marks: seq<bool>, want: bool) returns (at: seq<nat>)
    requires |xs| == |marks|
    ensures Ascending(at, 0, |xs|) && Select(xs, marks, want, |xs|) == Pick(xs, at) && at == Where(marks, want, |xs|)
    ensures forall j: nat :: j in at <==> j < |xs| && marks[j] == want
  {
    at := Where(marks, want, |xs|);
    SelectIsWhere(xs, marks, want, |xs|);
    forall j: nat ensures j in at <==> j < |xs| && marks[j] == want {
      if j < |xs| && marks[j] == want { var _ := WhereFindsAll(marks, want, |xs|, j); }
    }
  }
}
