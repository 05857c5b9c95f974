/** Finite sums, used for code lengths, Kraft sums and symbol counts. */
module Sums {
  function Sum(s: seq<int>): (t: int)
    decreases |s|
  {
    if s == [] then 0 else Sum(s[..|s| - 1]) + s[|s| - 1]
  }

  lemma SumSnoc(s: seq<int>, n: nat)
    requires n < |s|
    ensures Sum(s[..n + 1]) == Sum(s[..n]) + s[n]
  {
    assert s[..n + 1][..n] == s[..n];
  }

  lemma {:induction false} SumUpdate(s: seq<int>, i: nat, v: int)
    requires i < |s|
    ensures Sum(s[i := v]) == Sum(s) - s[i] + v
    decreases |s|
  {
    var n := |s| - 1;
    if i == n {
      assert s[i := v][..n] == s[..n];
    } else {
      assert s[i := v][..n] == s[..n][i := v];
      SumUpdate(s[..n], i, v);
    }
  }

  /** The sum of two sequences, term by term. */
  lemma {:induction false} SumPlus(a: seq<int>, b: seq<int>, c: seq<int>)
    requires |a| == |b| == |c| && forall i :: 0 <= i < |c| ==> c[i] == a[i] + b[i]
    ensures Sum(c) == Sum(a) + Sum(b)
    decreases |c|
  {
    if c != [] {
      SumPlus(a[..|a| - 1], b[..|a| - 1], c[..|a| - 1]);
    }
  }

  lemma {:induction false} SumMono(a: seq<int>, b: seq<int>)
    requires |a| == |b| && forall i :: 0 <= i < |a| ==> a[i] <= b[i]
    ensures Sum(a) <= Sum(b)
    decreases |a|
  {
    if a != [] {
      SumMono(a[..|a| - 1], b[..|a| - 1]);
    }
  }

  lemma {:induction false} SumZero(a: seq<int>)
    requires forall i :: 0 <= i < |a| ==> a[i] == 0
    ensures Sum(a) == 0
    decreases |a|
  {
    if a != [] {
      SumZero(a[..|a| - 1]);
    }
  }

  lemma {:induction false} SumNonneg(a: seq<int>)
    requires forall i :: 0 <= i < |a| ==> a[i] >= 0
    ensures Sum(a) >= 0
    decreases |a|
  {
    if a != [] {
      SumNonneg(a[..|a| - 1]);
    }
  }

  /** Two terms of a sum without negative ones. */
  lemma SumTwo(a: seq<int>, p: nat, q: nat)
    requires p < |a| && q < |a| && p != q && forall i :: 0 <= i < |a| ==> a[i] >= 0
    ensures a[p] + a[q] <= Sum(a)
  {
    SumUpdate(a, p, 0);
    SumUpdate(a[p := 0], q, 0);
    SumNonneg(a[p := 0][q := 0]);
  }

  lemma SumOne(a: seq<int>, p: nat)
    requires p < |a| && forall i :: 0 <= i < |a| ==> a[i] >= 0
    ensures a[p] <= Sum(a)
  {
    SumUpdate(a, p, 0);
    SumNonneg(a[p := 0]);
  }

  lemma {:induction false} SumTwice(a: seq<int>, b: seq<int>)
    requires |a| == |b| && forall i :: 0 <= i < |a| ==> b[i] == 2 * a[i]
    ensures Sum(b) == 2 * Sum(a)
  {
    SumPlus(a, a, b);
  }

  lemma SumEven(a: seq<int>)
    requires forall i :: 0 <= i < |a| ==> a[i] % 2 == 0
    ensures Sum(a) % 2 == 0
  {
    SumTwice(seq(|a|, i requires 0 <= i < |a| => a[i] / 2), a);
  }
}
