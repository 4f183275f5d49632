/** Disjoint sets by union by rank and path compression. */
module UnionFinds {
  import opened Arithmetic

  type Parents = seq<int>

  // Parents are indices, and ranks rise strictly along every link.
  ghost predicate Forest(parent: Parents, rank: seq<int>) {
    && |parent| == |rank|
    && (forall i {:trigger Climbs(parent, rank, i)} :: 0 <= i < |parent| ==> Climbs(parent, rank, i))
  }

  ghost predicate Climbs(parent: Parents, rank: seq<int>, i: nat)
    requires i < |parent| == |rank|
  {
    0 <= parent[i] < |parent| && 0 <= rank[i] && (parent[i] != i ==> rank[i] < rank[parent[i]])
  }

  ghost function MaxOf(s: seq<int>): (m: int)
    ensures forall i {:trigger s[i]} :: 0 <= i < |s| ==> s[i] <= m
  {
    if s == [] then 0 else
      var m := MaxOf(s[..|s| - 1]);
      if s[|s| - 1] > m then s[|s| - 1] else m
  }

  // The root above p.
  ghost function Root(parent: Parents, rank: seq<int>, p: nat): (r: nat)
    requires Forest(parent, rank) && p < |parent|
    ensures r < |parent| && parent[r] == r && rank[p] <= rank[r]
    decreases MaxOf(rank) - rank[p]
  {
    assert Climbs(parent, rank, p);
    if parent[p] == p then p else Root(parent, rank, parent[p])
  }

  // The members of the class of root r.
  ghost function Class(parent: Parents, rank: seq<int>, r: nat): (s: set<int>)
    requires Forest(parent, rank)
  {
    set p: int | 0 <= p < |parent| && Root(parent, rank, p) == r
  }

  ghost function Roots(parent: Parents): (s: set<int>) {
    set p: int | 0 <= p < |parent| && parent[p] == p
  }

  // A class with a root of rank k has at least 2^k members.
  ghost predicate Heavy(parent: Parents, rank: seq<int>, r: nat)
    requires Forest(parent, rank)
  {
    r < |parent| && rank[r] >= 0 && Pow2(rank[r]) <= |Class(parent, rank, r)|
  }

  // ---- Path compression ----------------------------------------------------

  // Redirecting p to its root leaves every root as it was.
  lemma {:induction false} Compressed(parent: Parents, rank: seq<int>, p: nat, q: nat)
    requires Forest(parent, rank) && p < |parent| && q < |parent|
    ensures Forest(parent[p := Root(parent, rank, p)], rank)
    ensures Root(parent[p := Root(parent, rank, p)], rank, q) == Root(parent, rank, q)
    decreases MaxOf(rank) - rank[q]
  {
    CompressedForest(parent, rank, p);
    assert Climbs(parent, rank, q);
    if parent[q] != q {
      Compressed(parent, rank, p, parent[q]);
      RootIsRoot(parent[p := Root(parent, rank, p)], rank, Root(parent, rank, p));
    }
  }

  lemma CompressedForest(parent: Parents, rank: seq<int>, p: nat)
    requires Forest(parent, rank) && p < |parent|
    ensures Forest(parent[p := Root(parent, rank, p)], rank)
  {
    var next := parent[p := Root(parent, rank, p)];
    RootHigher(parent, rank, p);
    forall i {:trigger Climbs(next, rank, i)} | 0 <= i < |next| ensures Climbs(next, rank, i) {
      assert Climbs(parent, rank, i);
    }
  }

  lemma RootIsRoot(parent: Parents, rank: seq<int>, r: nat)
    requires Forest(parent, rank) && r < |parent| && parent[r] == r
    ensures Root(parent, rank, r) == r
  {
  }

  lemma RootHigher(parent: Parents, rank: seq<int>, p: nat)
    requires Forest(parent, rank) && p < |parent|
    ensures Root(parent, rank, p) == p || rank[p] < rank[Root(parent, rank, p)]
  {
    assert Climbs(parent, rank, p);
  }

  // The same classes with the same roots.
  ghost predicate SamePartition(a: Parents, b: Parents, rank: seq<int>)
    requires Forest(a, rank) && Forest(b, rank)
  {
    |a| == |b| && forall q: nat {:trigger Root(b, rank, q)} :: q < |b| ==> Root(b, rank, q) == Root(a, rank, q)
  }

  class UnionFind {
    const parent: array<int>
    const rank: array<int>
    var count: int

    ghost predicate Valid()
      reads this, parent, rank
    {
      && parent != rank
      && Forest(parent[..], rank[..])
      && count == |Roots(parent[..])|
      && forall r: nat {:trigger Heavy(parent[..], rank[..], r)} :: r in Roots(parent[..]) ==>
           Heavy(parent[..], rank[..], r)
    }

    // The class of p, named by its root.
    ghost function RootOf(p: nat): (r: nat)
      reads this, parent, rank
      requires Valid() && p < parent.Length
    {
      Root(parent[..], rank[..], p)
    }

    // p and q are in one class.
    ghost predicate Together(p: nat, q: nat)
      reads this, parent, rank
      requires Valid()
    {
      p < parent.Length && q < parent.Length && RootOf(p) == RootOf(q)
    }

    constructor (n: nat)
      ensures Valid() && parent.Length == n && count == n && fresh(parent) && fresh(rank)
      ensures forall p: nat, q: nat {:trigger Together(p, q)} :: p < n && q < n ==> (Together(p, q) <==> p == q)
    {
      parent := new int[n](i => i);
      rank := new int[n](i => 0);
      count := n;
      new;
      Singletons(parent[..], rank[..]);
    }

    method Find(p: nat) returns (root: nat)
      requires Valid() && p < parent.Length
      modifies parent
      ensures Valid() && root == old(RootOf(p)) && root < parent.Length
      ensures forall q: nat {:trigger RootOf(q)} :: q < parent.Length ==> RootOf(q) == old(RootOf(q))
    {
      if parent[p] == p {
        return p;
      }
      root := findWithoutLocking(p);
    }

    // Merges the two classes and no others.
    method Union(p: nat, q: nat)
      requires Valid() && p < parent.Length && q < parent.Length
      modifies this`count, parent, rank
      ensures Valid()
      ensures count == old(count) - if old(Together(p, q)) then 0 else 1
      ensures forall a: nat, b: nat {:trigger Together(a, b)} :: Together(a, b) <==>
        old(Together(a, b)) || (old(Together(a, p)) && old(Together(q, b)))
          || (old(Together(a, q)) && old(Together(p, b)))
    {
      var rootP := findWithoutLocking(p);
      var rootQ := findWithoutLocking(q);
      assert forall a: nat {:trigger RootOf(a)} :: a < parent.Length ==> RootOf(a) == old(RootOf(a));
      assert RootOf(p) == rootP && RootOf(q) == rootQ;
      if rootP == rootQ {
        return;
      }
      var win, lose := rootP, rootQ;
      if rank[rootP] < rank[rootQ] {
        win, lose := rootQ, rootP;
      }
      link(win, lose);
    }

    // The root of lower rank, or either of two of equal rank, goes below the other.
    method link(win: nat, lose: nat)
      requires Valid() && win in Roots(parent[..]) && lose in Roots(parent[..]) && win != lose
      requires rank[lose] <= rank[win]
      modifies this`count, parent, rank
      ensures Valid() && count == old(count) - 1
      ensures forall a: nat {:trigger RootOf(a)} :: a < parent.Length ==>
        RootOf(a) == if old(RootOf(a)) == lose then win else old(RootOf(a))
    {
      LinkedValid(parent[..], rank[..], win, lose);
      ghost var more := MoreRank(rank[..], win, lose);
      parent[lose] := win;
      if rank[lose] == rank[win] {
        rank[win] := rank[win] + 1;
      }
      count := count - 1;
      assert rank[..] == more;
    }

    method Connected(p: nat, q: nat) returns (connected: bool)
      requires Valid() && p < parent.Length && q < parent.Length
      modifies parent
      ensures Valid() && connected == old(Together(p, q))
      ensures forall a: nat, b: nat {:trigger Together(a, b)} :: Together(a, b) == old(Together(a, b))
    {
      var rootP := findWithoutLocking(p);
      var rootQ := findWithoutLocking(q);
      assert forall a: nat {:trigger RootOf(a)} :: a < parent.Length ==> RootOf(a) == old(RootOf(a));
      connected := rootP == rootQ;
    }

    // The number of classes.
    method Count() returns (n: int)
      requires Valid()
      ensures n == |Roots(parent[..])|
    {
      n := count;
    }

    // p is a valid index.
    method findWithoutLocking(start: nat) returns (root: nat)
      requires Valid() && start < parent.Length
      modifies parent
      ensures Valid() && root == old(RootOf(start)) && root < parent.Length
      ensures forall q: nat {:trigger RootOf(q)} :: q < parent.Length ==> RootOf(q) == old(RootOf(q))
    {
      root := start;
      while root != parent[root]
        invariant root < parent.Length && RootOf(root) == RootOf(start)
        decreases MaxOf(rank[..]) - rank[root]
      {
        assert Climbs(parent[..], rank[..], root);
        root := parent[root];
      }
      compress(start, root);
    }

    method compress(start: nat, root: nat)
      requires Valid() && start < parent.Length && root == RootOf(start)
      modifies parent
      ensures Valid()
      ensures forall q: nat {:trigger RootOf(q)} :: q < parent.Length ==> RootOf(q) == old(RootOf(q))
    {
      var p: nat := start;
      ghost var before := parent[..];
      while p != root
        invariant p < parent.Length && Forest(parent[..], rank[..])
        invariant SamePartition(before, parent[..], rank[..])
        invariant Root(parent[..], rank[..], p) == root
        decreases MaxOf(rank[..]) - rank[p]
      {
        assert Climbs(parent[..], rank[..], p);
        var newp := parent[p];
        CompressStep(before, parent[..], rank[..], p, root);
        RootHigher(parent[..], rank[..], p);
        parent[p] := root;
        p := newp;
      }
      SameRoots(before, parent[..], rank[..]);
    }
  }

  lemma CompressStep(before: Parents, parent: Parents, rank: seq<int>, p: nat, root: nat)
    requires Forest(before, rank) && Forest(parent, rank) && SamePartition(before, parent, rank)
    requires p < |parent| && root == Root(parent, rank, p)
    ensures Forest(parent[p := root], rank) && SamePartition(before, parent[p := root], rank)
  {
    CompressedForest(parent, rank, p);
    forall q: nat {:trigger Root(parent[p := root], rank, q)} | q < |parent|
      ensures Root(parent[p := root], rank, q) == Root(before, rank, q)
    {
      Compressed(parent, rank, p, q);
      assert Root(parent, rank, q) == Root(before, rank, q);
    }
  }

  // Equal partitions have equal roots and classes.
  lemma SameRoots(a: Parents, b: Parents, rank: seq<int>)
    requires Forest(a, rank) && Forest(b, rank) && SamePartition(a, b, rank)
    ensures Roots(a) == Roots(b)
    ensures forall r: nat {:trigger Heavy(b, rank, r)} :: Heavy(b, rank, r) <==> Heavy(a, rank, r)
  {
    forall q: nat | q < |a| ensures a[q] == q <==> b[q] == q {
      assert Root(b, rank, q) == Root(a, rank, q);
      assert Climbs(a, rank, q) && Climbs(b, rank, q);
      RootHigher(a, rank, q);
      RootHigher(b, rank, q);
    }
    forall r: nat {:trigger Heavy(b, rank, r)} ensures Heavy(b, rank, r) <==> Heavy(a, rank, r) {
      assert Class(a, rank, r) == Class(b, rank, r);
    }
  }

  // ---- Union -----------------------------------------------------------------

  lemma Singletons(parent: Parents, rank: seq<int>)
    requires |parent| == |rank|
    requires forall i {:trigger parent[i]} :: 0 <= i < |parent| ==> parent[i] == i
    requires forall i {:trigger rank[i]} :: 0 <= i < |rank| ==> rank[i] == 0
    ensures Forest(parent, rank) && |Roots(parent)| == |parent|
    ensures forall r: nat {:trigger Heavy(parent, rank, r)} :: r in Roots(parent) ==> Heavy(parent, rank, r)
  {
    forall i {:trigger Climbs(parent, rank, i)} | 0 <= i < |parent| ensures Climbs(parent, rank, i) {}
    RangeSize(Roots(parent), |parent|);
    forall r: nat {:trigger Heavy(parent, rank, r)} | r in Roots(parent) ensures Heavy(parent, rank, r) {
      assert r in Class(parent, rank, r);
      NotEmpty(Class(parent, rank, r), r);
    }
  }

  lemma NotEmpty(s: set<int>, x: int)
    requires x in s
    ensures |s| >= 1
  {
    assert s == (s - {x}) + {x};
  }

  lemma {:induction false} RangeSize(s: set<int>, n: nat)
    requires forall x {:trigger x in s} :: x in s <==> 0 <= x < n
    ensures |s| == n
  {
    if n == 0 {
      forall x ensures x !in s {}
      assert s == {};
    } else {
      RangeSize(s - {n - 1}, n - 1);
    }
  }

  ghost function MoreRank(rank: seq<int>, win: nat, lose: nat): (r: seq<int>)
    requires win < |rank| && lose < |rank|
  {
    if rank[lose] == rank[win] then rank[win := rank[win] + 1] else rank
  }

  // Two different roots, one of which goes below the other.
  ghost predicate Linkable(parent: Parents, rank: seq<int>, win: nat, lose: nat) {
    && Forest(parent, rank) && win < |parent| && lose < |parent| && win != lose
    && parent[win] == win && parent[lose] == lose && rank[lose] <= rank[win]
  }

  lemma LinkedForest(parent: Parents, rank: seq<int>, win: nat, lose: nat)
    requires Linkable(parent, rank, win, lose)
    ensures Forest(parent[lose := win], MoreRank(rank, win, lose))
  {
    var next, more := parent[lose := win], MoreRank(rank, win, lose);
    forall i {:trigger Climbs(next, more, i)} | 0 <= i < |next| ensures Climbs(next, more, i) {
      assert Climbs(parent, rank, i);
    }
  }

  lemma {:induction false} LinkedRoot(parent: Parents, rank: seq<int>, win: nat, lose: nat, q: nat)
    requires Linkable(parent, rank, win, lose) && q < |parent|
    ensures Forest(parent[lose := win], MoreRank(rank, win, lose))
    ensures Root(parent[lose := win], MoreRank(rank, win, lose), q) ==
      if Root(parent, rank, q) == lose then win else Root(parent, rank, q)
    decreases MaxOf(rank) - rank[q]
  {
    var next, more := parent[lose := win], MoreRank(rank, win, lose);
    LinkedForest(parent, rank, win, lose);
    assert Climbs(parent, rank, q);
    RootIsRoot(next, more, win);
    if parent[q] != q {
      LinkedRoot(parent, rank, win, lose, parent[q]);
      assert next[q] == parent[q];
    }
  }

  lemma LinkedValid(parent: Parents, rank: seq<int>, win: nat, lose: nat)
    requires Linkable(parent, rank, win, lose)
    requires forall r: nat {:trigger Heavy(parent, rank, r)} :: r in Roots(parent) ==> Heavy(parent, rank, r)
    ensures Forest(parent[lose := win], MoreRank(rank, win, lose))
    ensures forall q: nat {:trigger Root(parent[lose := win], MoreRank(rank, win, lose), q)} :: q < |parent| ==>
      Root(parent[lose := win], MoreRank(rank, win, lose), q) ==
        if Root(parent, rank, q) == lose then win else Root(parent, rank, q)
    ensures |Roots(parent[lose := win])| == |Roots(parent)| - 1
    ensures forall r: nat {:trigger Heavy(parent[lose := win], MoreRank(rank, win, lose), r)} ::
      r in Roots(parent[lose := win]) ==>
      Heavy(parent[lose := win], MoreRank(rank, win, lose), r)
  {
    var next, more := parent[lose := win], MoreRank(rank, win, lose);
    LinkedForest(parent, rank, win, lose);
    forall q: nat {:trigger Root(next, more, q)} | q < |parent|
      ensures Root(next, more, q) == if Root(parent, rank, q) == lose then win else Root(parent, rank, q)
    {
      LinkedRoot(parent, rank, win, lose, q);
    }
    assert Roots(next) == Roots(parent) - {lose};
    assert |Roots(parent)| == |Roots(next)| + 1 by { assert Roots(parent) == Roots(next) + {lose}; }
    forall r: nat {:trigger Heavy(next, more, r)} | r in Roots(next) ensures Heavy(next, more, r) {
      LinkedHeavy(parent, rank, win, lose, r);
    }
  }

  // The class of the winner takes in that of the loser; the others stay.
  lemma LinkedClass(parent: Parents, rank: seq<int>, win: nat, lose: nat, r: nat)
    requires Linkable(parent, rank, win, lose)
    requires r < |parent| && parent[r] == r && r != lose
    ensures Forest(parent[lose := win], MoreRank(rank, win, lose))
    ensures Class(parent[lose := win], MoreRank(rank, win, lose), r) ==
      Class(parent, rank, r) + if r == win then Class(parent, rank, lose) else {}
  {
    var next, more := parent[lose := win], MoreRank(rank, win, lose);
    LinkedForest(parent, rank, win, lose);
    forall q: nat {:trigger Root(next, more, q)} | q < |parent|
      ensures Root(next, more, q) == if Root(parent, rank, q) == lose then win else Root(parent, rank, q)
    {
      LinkedRoot(parent, rank, win, lose, q);
    }
  }

  lemma Disjoint(parent: Parents, rank: seq<int>, r: nat, q: nat)
    requires Forest(parent, rank) && r != q
    ensures |Class(parent, rank, r) + Class(parent, rank, q)| == |Class(parent, rank, r)| + |Class(parent, rank, q)|
  {
    assert Class(parent, rank, r) !! Class(parent, rank, q);
  }

  lemma LinkedHeavy(parent: Parents, rank: seq<int>, win: nat, lose: nat, r: nat)
    requires Linkable(parent, rank, win, lose)
    requires r < |parent| && parent[r] == r && r != lose
    requires Heavy(parent, rank, r) && Heavy(parent, rank, lose) && Heavy(parent, rank, win)
    ensures Forest(parent[lose := win], MoreRank(rank, win, lose))
    ensures Heavy(parent[lose := win], MoreRank(rank, win, lose), r)
  {
    LinkedClass(parent, rank, win, lose, r);
    if r == win {
      Disjoint(parent, rank, win, lose);
      assert Pow2(rank[win] + 1) == 2 * Pow2(rank[win]);
    } else {
      assert Class(parent, rank, r) + {} == Class(parent, rank, r);
    }
  }

  // Every rank, that of a root or not, stays logarithmic in the number of elements.
  lemma RankBound(parent: Parents, rank: seq<int>, p: nat)
    requires Forest(parent, rank) && p < |parent|
    requires forall r: nat {:trigger Heavy(parent, rank, r)} :: r in Roots(parent) ==> Heavy(parent, rank, r)
    ensures rank[p] >= 0 && Pow2(rank[p]) <= |parent|
  {
    var r := Root(parent, rank, p);
    assert Climbs(parent, rank, p) && Heavy(parent, rank, r);
    WithinSize(Class(parent, rank, r), |parent|);
    Pow2Grows(rank[p], rank[r]);
  }

  // The number of links from p up to its root.
  ghost function Depth(parent: Parents, rank: seq<int>, p: nat): (d: nat)
    requires Forest(parent, rank) && p < |parent|
    decreases MaxOf(rank) - rank[p]
  {
    assert Climbs(parent, rank, p);
    if parent[p] == p then 0 else 1 + Depth(parent, rank, parent[p])
  }

  lemma {:induction false} DepthWithinRank(parent: Parents, rank: seq<int>, p: nat)
    requires Forest(parent, rank) && p < |parent|
    ensures rank[p] + Depth(parent, rank, p) <= rank[Root(parent, rank, p)]
    decreases MaxOf(rank) - rank[p]
  {
    assert Climbs(parent, rank, p);
    if parent[p] != p { DepthWithinRank(parent, rank, parent[p]); }
  }

  // So is the way that Find walks.
  lemma DepthBound(parent: Parents, rank: seq<int>, p: nat)
    requires Forest(parent, rank) && p < |parent|
    requires forall r: nat {:trigger Heavy(parent, rank, r)} :: r in Roots(parent) ==> Heavy(parent, rank, r)
    ensures Pow2(Depth(parent, rank, p)) <= |parent|
  {
    var r := Root(parent, rank, p);
    assert Climbs(parent, rank, p);
    DepthWithinRank(parent, rank, p);
    RankBound(parent, rank, r);
    Pow2Grows(Depth(parent, rank, p), rank[r]);
  }

  lemma {:induction false} WithinSize(s: set<int>, n: nat)
    requires forall x {:trigger x in s} :: x in s ==> 0 <= x < n
    ensures |s| <= n
  {
    if n == 0 {
      forall x ensures x !in s {}
      assert s == {};
    } else {
      WithinSize(s - {n - 1}, n - 1);
      assert s <= (s - {n - 1}) + {n - 1};
      assert n - 1 in s ==> s == (s - {n - 1}) + {n - 1};
      assert n - 1 !in s ==> s == s - {n - 1};
    }
  }
}
