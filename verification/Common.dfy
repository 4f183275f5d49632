/** What several of the models share. */
module Wrappers {

  datatype Option<+T> = None | Some(value: T)
}

module Sets {

  lemma SubsetSize<T>(a: set<T>, b: set<T>)
    requires a <= b
    ensures |a| <= |b|
  {
    assert |b - a| + |a| == |b| by { assert b == (b - a) + a && (b - a) !! a; }
  }
}

module Arithmetic {

  type uint32 = x: int | 0 <= x < 0x1_0000_0000

  // ---- Powers of two ----------------------------------------------------

  ghost function Pow2(n: nat): (p: nat)
    ensures p >= 1
  {
    if n == 0 then 1 else 2 * Pow2(n - 1)
  }

  lemma {:induction false} Pow2Grows(a: nat, b: nat)
    requires a <= b
    ensures Pow2(a) <= Pow2(b)
    decreases b
  {
    if a < b { Pow2Grows(a, b - 1); }
  }

  lemma {:induction false} Pow2Sum(a: nat, b: nat)
    ensures Pow2(a + b) == Pow2(a) * Pow2(b)
  {
    if a > 0 { Pow2Sum(a - 1, b); }
  }

  // ---- Sums -------------------------------------------------------------

  function Total(dues: seq<int>): int {
    if dues == [] then 0 else Total(dues[..|dues| - 1]) + dues[|dues| - 1]
  }

  // When one of the summands changes, so does the total.
  lemma {:induction false} TotalUpdate(a: seq<int>, b: seq<int>, i: nat)
    requires i < |a| == |b|
    requires forall j {:trigger b[j]} :: 0 <= j < |a| && j != i ==> b[j] == a[j]
    ensures Total(b) - Total(a) == b[i] - a[i]
  {
    var n := |a| - 1;
    if i < n {
      TotalUpdate(a[..n], b[..n], i);
    } else {
      assert a[..n] == b[..n];
    }
  }

  lemma {:induction false} TotalZero(dues: seq<int>)
    requires forall j {:trigger dues[j]} :: 0 <= j < |dues| ==> dues[j] == 0
    ensures Total(dues) == 0
  {
    if dues != [] { TotalZero(dues[..|dues| - 1]); }
  }

  lemma {:induction false} TotalWithin(dues: seq<int>, most: nat)
    requires forall j {:trigger dues[j]} :: 0 <= j < |dues| ==> dues[j] <= most
    ensures Total(dues) <= most * |dues|
  {
    if dues != [] {
      var n := |dues| - 1;
      TotalWithin(dues[..n], most);
      assert most * n + most == most * (n + 1);
    }
  }

  // No total of numbers that are not negative is below one of them, or below zero.
  lemma {:induction false} TotalAtLeast(dues: seq<int>, i: nat)
    requires forall j {:trigger dues[j]} :: 0 <= j < |dues| ==> dues[j] >= 0
    ensures Total(dues) >= if i < |dues| then dues[i] else 0
  {
    if dues != [] { TotalAtLeast(dues[..|dues| - 1], i); }
  }

  lemma {:induction false} TotalBelow(a: seq<int>, b: seq<int>)
    requires |a| == |b| && forall j {:trigger a[j]} :: 0 <= j < |a| ==> a[j] <= b[j]
    ensures Total(a) <= Total(b)
  {
    if a != [] { TotalBelow(a[..|a| - 1], b[..|b| - 1]); }
  }

  // ---- Division ---------------------------------------------------------

  lemma LapsDiffer(k: int, n: nat)
    requires k >= 1
    ensures k * n >= n
  {
    assert (k - 1) * n >= 0;
  }

  // Division with remainder has one result.
  lemma QuotientUnique(q: int, r: int, q': int, r': int, n: nat)
    requires 0 <= r < n && 0 <= r' < n && q * n + r == q' * n + r'
    ensures q == q' && r == r'
  {
    assert (q - q') * n == r' - r && (q' - q) * n == r - r';
    if q > q' { LapsDiffer(q - q', n); }
    if q < q' { LapsDiffer(q' - q, n); }
  }

  lemma Monotone(x: nat, a: nat, b: nat)
    requires a <= b
    ensures x * a <= x * b
  {
  }
}
