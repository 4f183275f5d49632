/** The bits of a 32-bit word. */
module Bits32 {

  const MAX: bv32 := 0xFFFF_FFFF

  // 1 << j
  function Bit(j: nat): (m: bv32)
    requires j < 32
  {
    (1 as bv32) << (j as bv32)
  }

  predicate Has(v: bv32, j: nat)
    requires j < 32
  {
    v & Bit(j) != 0
  }

  // Counts bits by three halvings of every nibble and one multiplication.
  function bitCount(v: bv32): (n: bv32) {
    var n0 := (v >> 1) & 0x77777777;
    var x0 := v - n0;
    var n1 := (n0 >> 1) & 0x77777777;
    var x1 := x0 - n1;
    var n2 := (n1 >> 1) & 0x77777777;
    var x2 := x1 - n2;
    var x3 := (x2 + (x2 >> 4)) & 0x0F0F0F0F;
    (x3 * 0x01010101) >> 24
  }

  function firstZeroBit(v: bv32): (n: bv32) {
    var nv := !v;
    bitCount((nv & (0 - nv)) - 1)
  }

  lemma RoundTrip(j: nat)
    requires j < 32
    ensures (j as bv32) as int == j && (j as bv32) < 32
  {
  }

  lemma ZeroAt(v: bv32, r: bv32)
    requires v != MAX && r == firstZeroBit(v)
    ensures r < 32 && v & ((1 as bv32) << r) == 0
  {
  }

  lemma OnesBelow(v: bv32, r: bv32, k: bv32)
    requires v != MAX && r == firstZeroBit(v) && k < r
    ensures r < 32 && v & ((1 as bv32) << k) != 0
  {
  }

  lemma PlaceOf(z: bv32)
    requires z < 32
    ensures z as int < 32 && (z as int) as bv32 == z
  {
  }

  lemma PlaceBelow(z: bv32, k: nat)
    requires z < 32 && k < z as int
    ensures k < 32 && k as bv32 < z
  {
    RoundTrip(k);
  }

  // firstZeroBit finds the first zero bit of any word that has one.
  lemma FirstZero(v: bv32, z: bv32)
    requires v != MAX && z == firstZeroBit(v)
    ensures z < 32 && z as int < 32 && !Has(v, z as int)
  {
    ZeroAt(v, z);
    PlaceOf(z);
  }

  lemma FirstZeroBelow(v: bv32, z: bv32, k: nat)
    requires v != MAX && z == firstZeroBit(v) && k < z as int
    ensures k < 32 && Has(v, k)
  {
    ZeroAt(v, z);
    PlaceBelow(z, k);
    OnesBelow(v, z, k as bv32);
  }

  lemma BitNotZero(j: bv32)
    requires j < 32
    ensures (1 as bv32) << j != 0
  {
  }

  lemma Apart(i: bv32, j: bv32)
    requires i < 32 && j < 32 && i != j
    ensures ((1 as bv32) << i) & ((1 as bv32) << j) == 0
  {
  }

  lemma OrApart(v: bv32, m: bv32, n: bv32)
    requires m & n == 0
    ensures (v | m) & n == v & n
  {
  }

  lemma OrSame(v: bv32, m: bv32)
    ensures (v | m) & m == m
  {
  }

  lemma AndNotApart(v: bv32, m: bv32, n: bv32)
    requires m & n == 0
    ensures (v & !m) & n == v & n
  {
  }

  lemma AndNotSame(v: bv32, m: bv32)
    ensures (v & !m) & m == 0
  {
  }

  lemma SetHas(v: bv32, i: nat)
    requires i < 32
    ensures Has(v | Bit(i), i)
  {
    RoundTrip(i);
    BitNotZero(i as bv32);
    OrSame(v, Bit(i));
  }

  lemma SetOther(v: bv32, i: nat, j: nat)
    requires i < 32 && j < 32 && i != j
    ensures Has(v | Bit(i), j) <==> Has(v, j)
  {
    RoundTrip(i);
    RoundTrip(j);
    Apart(i as bv32, j as bv32);
    OrApart(v, Bit(i), Bit(j));
  }

  lemma ClearHas(v: bv32, i: nat)
    requires i < 32
    ensures !Has(v & !Bit(i), i)
  {
    AndNotSame(v, Bit(i));
  }

  lemma ClearOther(v: bv32, i: nat, j: nat)
    requires i < 32 && j < 32 && i != j
    ensures Has(v & !Bit(i), j) <==> Has(v, j)
  {
    RoundTrip(i);
    RoundTrip(j);
    Apart(i as bv32, j as bv32);
    AndNotApart(v, Bit(i), Bit(j));
  }

  lemma MaxHas(j: nat)
    requires j < 32
    ensures Has(MAX, j)
  {
    RoundTrip(j);
    BitNotZero(j as bv32);
  }

  lemma ZeroHasNot(j: nat)
    requires j < 32
    ensures !Has(0, j)
  {
  }
}

/** A 32-ary tree of words laid out level by level, each word as its bits. */
module WordTree {

  function Pow32(k: nat): (p: nat)
    ensures p >= 1
  {
    if k == 0 then 1 else 32 * Pow32(k - 1)
  }

  // The number of words on the levels above level l.
  function Off(l: nat): (n: nat) {
    if l == 0 then 0 else 32 * Off(l - 1) + 1
  }

  lemma {:induction false} OffPow(l: nat)
    ensures 31 * Off(l) + 1 == Pow32(l) && Off(l) == (Pow32(l) - 1) / 31
  {
    if l > 0 { OffPow(l - 1); }
  }

  lemma {:induction false} OffGrows(l: nat, m: nat)
    requires l <= m
    ensures Off(l) <= Off(m)
  {
    if l < m { OffGrows(l, m - 1); }
  }

  type Bits = w: seq<bool> | |w| == 32 witness seq(32, i => false)

  ghost function Full(): (w: Bits) { seq(32, i => true) }

  ghost predicate LowBits(w: Bits, n: nat)
    requires n <= 32
  {
    forall j {:trigger w[j]} :: 0 <= j < n ==> w[j]
  }

  function Kid(n: nat, f: nat): (k: nat) { 32 * n + f + 1 }

  ghost predicate Link(b: seq<Bits>, n: nat, f: nat) {
    n < |b| && f < 32 && (b[n][f] <==> Kid(n, f) < |b| && b[Kid(n, f)] == Full())
  }

  // An internal bit is set exactly when its child word is all ones; a child beyond the end counts as not full.
  ghost predicate Linked(b: seq<Bits>, L: nat) {
    L >= 1 && Off(L - 1) <= |b| && forall n: nat, f: nat {:trigger Link(b, n, f)} :: n < Off(L - 1) && f < 32 ==>
      Link(b, n, f)
  }

  // Linked, save perhaps bit f of word n.
  ghost predicate LinkedBut(b: seq<Bits>, L: nat, n: nat, f: nat) {
    && L >= 1 && Off(L - 1) <= |b|
    && (forall m: nat, g: nat {:trigger Link(b, m, g)} :: m < Off(L - 1) && g < 32 && (m != n || g != f) ==>
         Link(b, m, g))
  }

  ghost predicate Held(b: seq<Bits>, L: nat, i: nat)
    requires L >= 1
  {
    Off(L - 1) + i / 32 < |b| && b[Off(L - 1) + i / 32][i % 32]
  }

  ghost predicate HeldAll(b: seq<Bits>, L: nat, from: nat, to: nat)
    requires L >= 1
  {
    forall i: nat {:trigger Held(b, L, i)} :: from <= i < to ==> Held(b, L, i)
  }

  // The first index below word p of a level k levels above the indices: p * 32^k.
  ghost function First(p: nat, k: nat): (i: nat)
    decreases k
  {
    if k == 0 then p else First(32 * p, k - 1)
  }

  lemma {:induction false} FirstIs(p: nat, k: nat)
    ensures First(p, k) == p * Pow32(k)
    decreases k
  {
    if k > 0 {
      FirstIs(32 * p, k - 1);
      assert 32 * p * Pow32(k - 1) == p * (32 * Pow32(k - 1));
    }
  }

  lemma FirstAdds(p: nat, f: nat, k: nat)
    ensures First(p + f, k) == First(p, k) + First(f, k)
  {
    FirstIs(p + f, k);
    FirstIs(p, k);
    FirstIs(f, k);
  }

  // The bits of a word on level l that are set stand for indices that are all held.
  lemma {:induction false} Covers(b: seq<Bits>, L: nat, l: nat, p: nat, upto: nat)
    requires Linked(b, L) && l < L && upto <= 32
    requires Off(l) + p < Off(l + 1) && Off(l) + p < |b|
    requires LowBits(b[Off(l) + p], upto)
    ensures HeldAll(b, L, First(p, L - l), First(32 * p + upto, L - l - 1))
    decreases L - l, upto
  {
    var n := Off(l) + p;
    if upto > 0 {
      Covers(b, L, l, p, upto - 1);
      assert b[n][upto - 1];
      if l == L - 1 {
        LeafHeld(b, L, p, upto - 1);
      } else {
        OffGrows(l + 1, L - 1);
        assert Link(b, n, upto - 1);
        KidPlace(l, p, upto - 1);
        Covers(b, L, l + 1, 32 * p + upto - 1, 32);
        assert 32 * (32 * p + upto - 1) + 32 == 32 * (32 * p + upto);
      }
    }
  }

  lemma LeafHeld(b: seq<Bits>, L: nat, q: nat, f: nat)
    requires L >= 1 && f < 32 && Off(L - 1) + q < |b|
    ensures Held(b, L, 32 * q + f) <==> b[Off(L - 1) + q][f]
  {
    assert (32 * q + f) / 32 == q && (32 * q + f) % 32 == f;
  }

  // Child f of word p of level l is word 32p + f of the next level.
  lemma KidPlace(l: nat, p: nat, f: nat)
    requires f < 32
    ensures Kid(Off(l) + p, f) == Off(l + 1) + 32 * p + f
    ensures Off(l) + p < Off(l + 1) ==> Kid(Off(l) + p, f) < Off(l + 2)
  {
  }

  // The word of the path below n that bit f of n stands for.
  ghost predicate Path(ns: seq<nat>, fs: seq<nat>, L: nat) {
    && L >= 1 && |ns| >= L && |fs| == L && ns[0] == 0
    && fs[L - 1] < 32
    && (forall l {:trigger Descends(ns, fs, l)} :: 0 <= l < L - 1 ==> Descends(ns, fs, l))
  }

  ghost predicate Descends(ns: seq<nat>, fs: seq<nat>, l: nat) {
    l + 1 < |ns| && l < |fs| && fs[l] < 32 && ns[l + 1] == Kid(ns[l], fs[l])
  }

  // Word n lies on level l.
  ghost predicate OnLevel(n: nat, l: nat) {
    Off(l) <= n < Off(l + 1)
  }

  lemma {:induction false} PathLevels(ns: seq<nat>, fs: seq<nat>, L: nat, l: nat)
    requires Path(ns, fs, L) && l < L
    ensures OnLevel(ns[l], l)
  {
    if l > 0 {
      PathLevels(ns, fs, L, l - 1);
      assert Descends(ns, fs, l - 1) && fs[l - 1] < 32;
    }
  }

  lemma KidUnique(m: nat, g: nat, n: nat, f: nat)
    requires g < 32 && f < 32 && Kid(m, g) == Kid(n, f)
    ensures m == n && g == f
  {
  }

  ghost function Flip(b: seq<Bits>, n: nat, f: nat, v: bool): (r: seq<Bits>)
    requires n < |b| && f < 32
    ensures |r| == |b|
  {
    var w: Bits := b[n][f := v];
    b[n := w]
  }

  // Repairing the link at bit f of word n moves the fault, if any, to the link above.
  lemma FlipLinks(b: seq<Bits>, L: nat, n: nat, f: nat, v: bool, pn: nat, pf: nat)
    requires LinkedBut(b, L, n, f) && n < |b| && f < 32 && pf < 32
    requires n < Off(L - 1) ==> (v <==> Kid(n, f) < |b| && b[Kid(n, f)] == Full())
    requires n == 0 || n == Kid(pn, pf)
    ensures n == 0 ==> Linked(Flip(b, n, f, v), L)
    ensures LinkedBut(Flip(b, n, f, v), L, pn, pf)
    ensures (b[n] == Full() <==> Flip(b, n, f, v)[n] == Full()) ==> Linked(Flip(b, n, f, v), L)
  {
    var r := Flip(b, n, f, v);
    forall m: nat, g: nat {:trigger Link(r, m, g)} | m < Off(L - 1) && g < 32
      ensures (n == 0 || m != pn || g != pf || (b[n] == Full() <==> r[n] == Full())) ==> Link(r, m, g)
    {
      if m != n || g != f { assert Link(b, m, g); }
      if Kid(m, g) == n { KidUnique(m, g, pn, pf); }
    }
  }

  // A bit of an internal word does not stand for an index.
  lemma FlipHeld(b: seq<Bits>, L: nat, n: nat, f: nat, v: bool, i: nat)
    requires L >= 1 && n < |b| && f < 32
    ensures Held(Flip(b, n, f, v), L, i) <==> if n == Off(L - 1) + i / 32 && f == i % 32 then v else Held(b, L, i)
  {
  }

  lemma Join(b: seq<Bits>, L: nat, x: nat, y: nat, z: nat)
    requires L >= 1 && HeldAll(b, L, x, y) && HeldAll(b, L, y, z)
    ensures HeldAll(b, L, x, z)
  {
    forall i: nat {:trigger Held(b, L, i)} | x <= i < z ensures Held(b, L, i) {
    }
  }

  // Where the words of the tree end: all internal words, and leaf words up to the capacity.
  ghost predicate Sized(b: seq<Bits>, L: nat, capacity: nat) {
    L >= 1 && capacity <= Pow32(L) && |b| == Off(L - 1) + (capacity + 31) / 32
  }

  // Below a word with a free index, the first clear bit leads to the least free index.
  lemma DescendStep(b: seq<Bits>, L: nat, capacity: nat, free: nat, l: nat, p: nat, f: nat)
    requires Linked(b, L) && Sized(b, L, capacity) && free < capacity && !Held(b, L, free)
    requires l < L && Off(l) + p < |b| && OnLevel(Off(l) + p, l)
    requires f < 32 && LowBits(b[Off(l) + p], f) && !b[Off(l) + p][f]
    requires HeldAll(b, L, 0, First(p, L - l))
    ensures HeldAll(b, L, 0, First(32 * p + f, L - l - 1))
    ensures l + 1 < L ==>
      Kid(Off(l) + p, f) < |b| && b[Kid(Off(l) + p, f)] != Full() && OnLevel(Kid(Off(l) + p, f), l + 1)
    ensures l + 1 == L ==> 32 * p + f < capacity && !Held(b, L, 32 * p + f)
  {
    Covers(b, L, l, p, f);
    var x, y := First(p, L - l), First(32 * p + f, L - l - 1);
    Join(b, L, 0, x, y);
    assert y <= free;
    if l + 1 == L {
      LeafHeld(b, L, p, f);
    } else {
      KidOpen(b, L, capacity, free, l, p, f);
    }
  }

  lemma KidOpen(b: seq<Bits>, L: nat, capacity: nat, free: nat, l: nat, p: nat, f: nat)
    requires Linked(b, L) && Sized(b, L, capacity) && free < capacity
    requires l + 1 < L && Off(l) + p < |b| && OnLevel(Off(l) + p, l)
    requires f < 32 && !b[Off(l) + p][f]
    requires First(32 * p + f, L - l - 1) <= free
    ensures Kid(Off(l) + p, f) < |b| && b[Kid(Off(l) + p, f)] != Full() && OnLevel(Kid(Off(l) + p, f), l + 1)
  {
    KidPlace(l, p, f);
    OffGrows(l + 1, L - 1);
    assert Link(b, Off(l) + p, f);
    if l + 2 == L {
      assert First(32 * p + f, 1) == First(32 * (32 * p + f), 0);
    } else {
      OffGrows(l + 2, L - 1);
    }
  }

  lemma RootNotFull(b: seq<Bits>, L: nat, capacity: nat, free: nat)
    requires Linked(b, L) && Sized(b, L, capacity) && free < capacity && !Held(b, L, free)
    ensures |b| > 0 && b[0] != Full()
  {
    assert Off(0) == 0 && Off(1) == 1;
    FirstIs(1, L);
    FirstIs(0, L);
    if b[0] == Full() {
      Covers(b, L, 0, 0, 32);
    }
  }
}

/** Allocation of the least free index. */
module Indexers {
  import opened Bits32
  import opened WordTree

  ghost function BitsOf(v: bv32): (w: Bits) {
    seq(32, j requires 0 <= j < 32 => Has(v, j))
  }

  ghost function View(c: seq<bv32>): (b: seq<Bits>)
    ensures |b| == |c|
  {
    seq(|c|, n requires 0 <= n < |c| => BitsOf(c[n]))
  }

  lemma ViewMax(v: bv32)
    ensures v == MAX <==> BitsOf(v) == Full()
  {
    if v == MAX {
      forall j | 0 <= j < 32 ensures BitsOf(v)[j] { MaxHas(j); }
      assert BitsOf(v) == Full();
    } else {
      FirstZero(v, firstZeroBit(v));
      assert !BitsOf(v)[firstZeroBit(v) as int];
      assert Full()[firstZeroBit(v) as int];
    }
  }

  lemma ViewFirst(v: bv32)
    requires v != MAX
    ensures firstZeroBit(v) < 32 && firstZeroBit(v) as int < 32
    ensures !BitsOf(v)[firstZeroBit(v) as int] && LowBits(BitsOf(v), firstZeroBit(v) as int)
  {
    var z := firstZeroBit(v);
    FirstZero(v, z);
    forall k {:trigger BitsOf(v)[k]} | 0 <= k < z as int ensures BitsOf(v)[k] { FirstZeroBelow(v, z, k); }
  }

  lemma ViewSet(v: bv32, f: nat)
    requires f < 32
    ensures BitsOf(v | Bit(f)) == BitsOf(v)[f := true]
  {
    SetHas(v, f);
    forall j | 0 <= j < 32 && j != f ensures Has(v | Bit(f), j) == Has(v, j) { SetOther(v, f, j); }
  }

  lemma ViewClear(v: bv32, f: nat)
    requires f < 32
    ensures BitsOf(v & !Bit(f)) == BitsOf(v)[f := false]
  {
    ClearHas(v, f);
    forall j | 0 <= j < 32 && j != f ensures Has(v & !Bit(f), j) == Has(v, j) { ClearOther(v, f, j); }
  }

  method scaled(f: nat, k: nat) returns (i: nat)
    ensures i == First(f, k)
  {
    FirstIs(f, k);
    i := f * Pow32(k);
  }

  method setBit(v: bv32, f: nat) returns (m: bv32)
    requires f < 32
    ensures BitsOf(m) == BitsOf(v)[f := true]
  {
    ViewSet(v, f);
    m := v | Bit(f);
  }

  method clearBit(v: bv32, f: nat) returns (m: bv32)
    requires f < 32
    ensures BitsOf(m) == BitsOf(v)[f := false]
  {
    ViewClear(v, f);
    m := v & !Bit(f);
  }

  method isMax(v: bv32) returns (full: bool)
    ensures full <==> BitsOf(v) == Full()
  {
    ViewMax(v);
    full := v == MAX;
  }

  method firstZero(v: bv32) returns (f: nat)
    requires BitsOf(v) != Full()
    ensures f < 32 && !BitsOf(v)[f] && LowBits(BitsOf(v), f)
  {
    ViewMax(v);
    ViewFirst(v);
    f := firstZeroBit(v) as int;
  }

  // The least number of levels, at least one, that hold capacity indices: the larger of 1 and
  // the logarithm of the capacity to base 32, rounded up.
  function LevelsFrom(capacity: nat, l: nat): (level: nat)
    requires l >= 1 && (l > 1 ==> Pow32(l - 1) < capacity)
    ensures level >= l && capacity <= Pow32(level) && (level > 1 ==> Pow32(level - 1) < capacity)
    decreases capacity - Pow32(l - 1)
  {
    if capacity <= Pow32(l) then l else LevelsFrom(capacity, l + 1)
  }

  class Indexer {
    const c: array<bv32>
    var used: int
    const capacity: nat
    const level: nat

    ghost function HeldSet(): (s: set<int>)
      reads this, c
      requires level >= 1
    {
      set i: int | 0 <= i < capacity && Held(View(c[..]), level, i)
    }

    // The words are in order, whatever the counter says.
    ghost predicate Tree()
      reads c
    {
      && level >= 1
      && Sized(View(c[..]), level, capacity)
      && Linked(View(c[..]), level)
      && (forall i: nat {:trigger Held(View(c[..]), level, i)} :: Held(View(c[..]), level, i) ==> i < capacity)
    }

    ghost predicate Valid()
      reads this, c
    {
      Tree() && used == |HeldSet()|
    }

    constructor (capacity: nat)
      ensures Valid() && HeldSet() == {} && this.capacity == capacity && fresh(c)
    {
      this.capacity := capacity;
      var level := LevelsFrom(capacity, 1);
      this.level := level;
      used := 0;
      OffPow(level - 1);
      var size := (Pow32(level - 1) - 1) / 31 + (capacity + 31) / 32;
      c := new bv32[size](i => 0);
      new;
      ghost var b := View(c[..]);
      forall n: nat, f: nat | n < |b| && f < 32 ensures !b[n][f] { ZeroHasNot(f); }
      EmptyLinks(b, level);
      assert HeldSet() == {};
    }

    // Neither the counter nor the words are at the capacity, so the call does not wait.
    method Use() returns (index: int)
      requires Tree() && used < capacity && |HeldSet()| < capacity
      modifies this`used, c
      ensures Tree() && HeldSet() == old(HeldSet()) + {index} && used == old(used) + 1
      ensures old(Valid()) ==> Valid()
      ensures 0 <= index < capacity && index !in old(HeldSet())
      ensures forall j {:trigger j in old(HeldSet())} :: 0 <= j < index ==> j in old(HeldSet())
    {
      ghost var b := View(c[..]);
      used := used + 1;
      var ns, fs;
      ghost var p;
      ghost var free := FreeIndex(HeldSet(), capacity);
      index, ns, fs, p := descend(c[..], level, capacity, free);
      DescendingEnd(b, level, capacity, ns, fs, p, index);
      mark(ns, fs, index);
      HeldGrows(b, View(c[..]), level, capacity, index);
    }

    // Along the path of first clear bits, which only reads the words.
    static method descend(words: seq<bv32>, level: nat, capacity: nat, ghost free: nat)
      returns (index: int, ns: seq<nat>, fs: seq<nat>, ghost p: nat)
      requires Linked(View(words), level) && Sized(View(words), level, capacity)
      requires free < capacity && !Held(View(words), level, free)
      ensures Descending(View(words), level, capacity, ns, fs, level, p, index)
    {
      index, ns, fs, p := 0, [0], [], 0;
      DescendingStart(View(words), level, capacity, free);
      for loop := 0 to level
        invariant Descending(View(words), level, capacity, ns, fs, loop, p, index)
      {
        index, ns, fs, p := lower(words, level, capacity, free, ns, fs, loop, p, index);
      }
    }

    // One level down, through the first clear bit of the word reached.
    static method lower(words: seq<bv32>, level: nat, capacity: nat, ghost free: nat, ns: seq<nat>, fs: seq<nat>,
                        loop: nat, ghost p: nat, index: int)
      returns (index': int, ns': seq<nat>, fs': seq<nat>, ghost p': nat)
      requires Linked(View(words), level) && Sized(View(words), level, capacity)
      requires free < capacity && !Held(View(words), level, free)
      requires loop < level && Descending(View(words), level, capacity, ns, fs, loop, p, index)
      ensures Descending(View(words), level, capacity, ns', fs', loop + 1, p', index')
    {
      DescendingWord(words, level, capacity, ns, fs, loop, p, index);
      var f := firstZero(words[ns[loop]]);
      var below := scaled(f, level - loop - 1);
      index', ns', fs', p' := index + below, ns + [Kid(ns[loop], f)], fs + [f], 32 * p + f;
      DescendingStep(View(words), level, capacity, free, ns, fs, loop, p, index, f, below);
    }

    // Sets the bit of the index, and the bit above as long as a word fills up.
    method mark(ns: seq<nat>, fs: seq<nat>, ghost index: nat)
      requires level >= 1 && Linked(View(c[..]), level)
      requires Path(ns, fs, level) && Clear(View(c[..]), ns, fs, level, false)
      requires ns[level - 1] == Off(level - 1) + index / 32 && fs[level - 1] == index % 32
      modifies c
      ensures Linked(View(c[..]), level)
      ensures HeldBut(View(old(c[..])), View(c[..]), level, index) && Held(View(c[..]), level, index)
    {
      var l := level - 1;
      var lvup := true;
      while l >= 0 && lvup
        invariant -1 <= l < level && (l == level - 1 ==> lvup)
        invariant Clear(View(c[..]), ns, fs, l + 1, false)
        invariant if lvup && l >= 0 then LinkedBut(View(c[..]), level, ns[l], fs[l]) else Linked(View(c[..]), level)
        invariant lvup && 0 <= l < level - 1 ==>
          Kid(ns[l], fs[l]) < c.Length && View(c[..])[Kid(ns[l], fs[l])] == Full()
        invariant HeldBut(View(old(c[..])), View(c[..]), level, index)
        invariant l < level - 1 ==> Held(View(c[..]), level, index)
        decreases l
      {
        ghost var b := View(c[..]);
        var n, f := ns[l], fs[l];
        assert ClearAt(b, ns, fs, l, false);
        var v := c[n];
        var m := setBit(v, f);
        assert m != v by { assert BitsOf(m)[f] && !BitsOf(v)[f]; }
        ViewAt(c[..], n, m, f, true);
        FlipPath(b, level, ns, fs, l, true, index);
        ClearKept(b, level, ns, fs, l, true);
        c[n] := m;
        lvup := isMax(m);
        l := l - 1;
      }
    }

    // Any index that falls into a word may be released; one that is not held only lowers the
    // counter, which is then one too low.
    method Release(index: nat)
      requires Tree() && index / 32 < (capacity + 31) / 32 && used <= capacity
      modifies this`used, c
      ensures Tree() && HeldSet() == old(HeldSet()) - {index} && used == old(used) - 1
      ensures old(Valid()) ==> (Valid() <==> index in old(HeldSet()))
    {
      ghost var b := View(c[..]);
      IndexBelow(index, level, capacity);
      var ns, ics := ancestors(index);
      unmark(ns, ics, index);
      used := used - 1;
      HeldShrinks(b, View(c[..]), level, capacity, index);
    }

    // The words from the root to the index, and the places in them.
    method ancestors(index: nat) returns (ns: seq<nat>, ics: seq<nat>)
      requires level >= 1 && index < Pow32(level)
      ensures Path(ns, ics, level)
      ensures ns[level - 1] == Off(level - 1) + index / 32 && ics[level - 1] == index % 32
    {
      var m: nat := index;
      ns, ics := [], [];
      var loop := level - 1;
      while loop >= 0
        invariant -1 <= loop < level && |ns| == |ics| == level - 1 - loop
        invariant m < Pow32(loop + 1)
        invariant Chain(ns, ics)
        invariant ns != [] ==> ns[0] == Off(loop + 1) + m
        invariant ns != [] ==> ns[|ns| - 1] == Off(level - 1) + index / 32 && ics[|ics| - 1] == index % 32
        invariant ns == [] ==> m == index
        decreases loop
      {
        OffPow(loop);
        var s := (Pow32(loop) - 1) / 31;
        ChainStep(ns, ics, m / 32 + s, m % 32);
        ns, ics := [m / 32 + s] + ns, [m % 32] + ics;
        m := m / 32;
        loop := loop - 1;
      }
      ChainPath(ns, ics, level);
    }

    // Clears one bit, and says whether its word was all ones.
    method clearAt(n: nat, f: nat) returns (full: bool)
      requires n < c.Length && f < 32
      modifies c
      ensures View(c[..]) == Flip(View(old(c[..])), n, f, false) && View(c[..])[n] != Full()
      ensures full <==> View(old(c[..]))[n] == Full()
    {
      var v := c[n];
      var m := clearBit(v, f);
      ViewAt(c[..], n, m, f, false);
      assert BitsOf(m) != Full() by { assert !BitsOf(m)[f] && Full()[f]; }
      c[n] := m;
      full := isMax(v);
    }

    // Clears the bit of the index, and the bit above as long as the word was full.
    method unmark(ns: seq<nat>, ics: seq<nat>, ghost index: nat)
      requires level >= 1 && Sized(View(c[..]), level, capacity) && Linked(View(c[..]), level)
      requires Off(level - 1) + index / 32 < c.Length
      requires Path(ns, ics, level)
      requires ns[level - 1] == Off(level - 1) + index / 32 && ics[level - 1] == index % 32
      modifies c
      ensures Linked(View(c[..]), level)
      ensures HeldBut(View(old(c[..])), View(c[..]), level, index) && !Held(View(c[..]), level, index)
    {
      ghost var a := View(c[..]);
      var l := level - 1;
      var lvdown := true;
      while l >= 0 && lvdown
        invariant Unmarking(a, View(c[..]), level, ns, ics, l, lvdown, index)
        decreases l
      {
        UnmarkingStep(a, View(c[..]), level, capacity, ns, ics, l, index);
        lvdown := clearAt(ns[l], ics[l]);
        l := l - 1;
      }
    }
  }

  // The words of the path below level l are cleared, and so is the index.
  ghost predicate Unmarking(a: seq<Bits>, b: seq<Bits>, L: nat, ns: seq<nat>, ics: seq<nat>, l: int, lvdown: bool,
                            index: nat) {
    && -1 <= l < L && |ns| >= L && |ics| >= L && |b| == |a| && (l == L - 1 ==> lvdown)
    && (if lvdown && 0 <= l < L - 1 then LinkedBut(b, L, ns[l], ics[l]) else Linked(b, L))
    && (lvdown && 0 <= l < L - 1 ==> Kid(ns[l], ics[l]) < |b| && b[Kid(ns[l], ics[l])] != Full())
    && HeldBut(a, b, L, index) && (l < L - 1 ==> !Held(b, L, index))
  }

  lemma UnmarkingStep(a: seq<Bits>, b: seq<Bits>, L: nat, capacity: nat, ns: seq<nat>, ics: seq<nat>, l: int,
                      index: nat)
    requires Unmarking(a, b, L, ns, ics, l, true, index) && l >= 0
    requires Path(ns, ics, L) && Sized(a, L, capacity) && Off(L - 1) + index / 32 < |a|
    requires ns[L - 1] == Off(L - 1) + index / 32 && ics[L - 1] == index % 32
    ensures ns[l] < |b| && ics[l] < 32
    ensures var r := Flip(b, ns[l], ics[l], false);
      r[ns[l]] != Full() ==> Unmarking(a, r, L, ns, ics, l - 1, b[ns[l]] == Full(), index)
  {
    PathInside(b, L, capacity, ns, ics, l);
    FlipPath(b, L, ns, ics, l, false, index);
  }

  lemma EmptyLinks(b: seq<Bits>, L: nat)
    requires L >= 1 && Off(L - 1) <= |b|
    requires forall n: nat, f: nat {:trigger b[n][f]} :: n < |b| && f < 32 ==> !b[n][f]
    ensures Linked(b, L)
  {
    forall n: nat, f: nat {:trigger Link(b, n, f)} | n < Off(L - 1) && f < 32 ensures Link(b, n, f) {
      if Kid(n, f) < |b| { assert !b[Kid(n, f)][0] && Full()[0]; }
    }
  }

  lemma ViewAt(c: seq<bv32>, n: nat, v: bv32, f: nat, bit: bool)
    requires n < |c| && f < 32 && BitsOf(v) == BitsOf(c[n])[f := bit]
    ensures View(c[n := v]) == Flip(View(c), n, f, bit)
  {
  }

  // The bits along a path, down to level n, are all v.
  ghost predicate Clear(b: seq<Bits>, ns: seq<nat>, fs: seq<nat>, n: nat, v: bool) {
    n <= |ns| && n <= |fs| && forall l: nat {:trigger ClearAt(b, ns, fs, l, v)} :: l < n ==> ClearAt(b, ns, fs, l, v)
  }

  ghost predicate ClearAt(b: seq<Bits>, ns: seq<nat>, fs: seq<nat>, l: nat, v: bool) {
    l < |ns| && l < |fs| && fs[l] < 32 && ns[l] < |b| && b[ns[l]][fs[l]] == v
  }

  lemma ClearStep(b: seq<Bits>, ns: seq<nat>, fs: seq<nat>, n: nat, f: nat)
    requires |ns| == n + 1 && |fs| == n && Clear(b, ns, fs, n, false)
    requires forall l {:trigger Descends(ns, fs, l)} :: 0 <= l < n ==> Descends(ns, fs, l)
    requires f < 32 && ns[n] < |b| && !b[ns[n]][f]
    ensures Clear(b, ns + [Kid(ns[n], f)], fs + [f], n + 1, false)
    ensures forall l {:trigger Descends(ns + [Kid(ns[n], f)], fs + [f], l)} :: 0 <= l < n + 1 ==>
      Descends(ns + [Kid(ns[n], f)], fs + [f], l)
  {
    var ms, gs := ns + [Kid(ns[n], f)], fs + [f];
    forall l: nat {:trigger ClearAt(b, ms, gs, l, false)} | l < n + 1 ensures ClearAt(b, ms, gs, l, false) {
      if l < n { assert ClearAt(b, ns, fs, l, false); }
    }
    forall l {:trigger Descends(ms, gs, l)} | 0 <= l < n + 1 ensures Descends(ms, gs, l) {
      if l < n { assert Descends(ns, fs, l); }
    }
  }

  // On level n of the descent, at word p of that level.
  ghost predicate Descending(b: seq<Bits>, L: nat, capacity: nat, ns: seq<nat>, fs: seq<nat>, n: nat, p: nat,
                             index: int) {
    && n <= L && L >= 1 && |ns| == n + 1 && |fs| == n && ns[0] == 0
    && (forall l {:trigger Descends(ns, fs, l)} :: 0 <= l < n ==> Descends(ns, fs, l))
    && Clear(b, ns, fs, n, false)
    && (n < L ==> ns[n] == Off(n) + p && OnLevel(ns[n], n) && ns[n] < |b| && b[ns[n]] != Full())
    && index == First(p, L - n) && HeldAll(b, L, 0, index)
    && (n == L ==> 0 <= index < capacity && !Held(b, L, index))
    && (n == L ==> ns[L - 1] == Off(L - 1) + index / 32 && fs[L - 1] == index % 32)
  }

  lemma DescendingStart(b: seq<Bits>, L: nat, capacity: nat, free: nat)
    requires Linked(b, L) && Sized(b, L, capacity) && free < capacity && !Held(b, L, free)
    ensures Descending(b, L, capacity, [0], [], 0, 0, 0)
  {
    RootNotFull(b, L, capacity, free);
    FirstIs(0, L);
  }

  lemma DescendingWord(words: seq<bv32>, L: nat, capacity: nat, ns: seq<nat>, fs: seq<nat>, n: nat, p: nat, index: int)
    requires Descending(View(words), L, capacity, ns, fs, n, p, index) && n < L
    ensures |ns| == n + 1 && ns[n] < |words|
    ensures View(words)[ns[n]] == BitsOf(words[ns[n]]) && BitsOf(words[ns[n]]) != Full()
  {
  }

  lemma DescendingEnd(b: seq<Bits>, L: nat, capacity: nat, ns: seq<nat>, fs: seq<nat>, p: nat, index: int)
    requires Descending(b, L, capacity, ns, fs, L, p, index)
    ensures 0 <= index < capacity && !Held(b, L, index) && HeldAll(b, L, 0, index)
    ensures Path(ns, fs, L) && Clear(b, ns, fs, L, false)
    ensures ns[L - 1] == Off(L - 1) + index / 32 && fs[L - 1] == index % 32
  {
    assert ClearAt(b, ns, fs, L - 1, false);
  }

  lemma DescendingStep(b: seq<Bits>, L: nat, capacity: nat, free: nat, ns: seq<nat>, fs: seq<nat>, n: nat, p: nat,
                       index: int, f: nat, below: nat)
    requires Linked(b, L) && Sized(b, L, capacity) && free < capacity && !Held(b, L, free)
    requires n < L && Descending(b, L, capacity, ns, fs, n, p, index)
    requires f < 32 && LowBits(b[ns[n]], f) && !b[ns[n]][f] && below == First(f, L - n - 1)
    ensures Descending(b, L, capacity, ns + [Kid(ns[n], f)], fs + [f], n + 1, 32 * p + f, index + below)
  {
    DescendStep(b, L, capacity, free, n, p, f);
    FirstAdds(32 * p, f, L - n - 1);
    KidPlace(n, p, f);
    ClearStep(b, ns, fs, n, f);
  }

  // What one write of Use or Release does on level l of a path.
  lemma FlipPath(b: seq<Bits>, L: nat, ns: seq<nat>, fs: seq<nat>, l: nat, v: bool, index: nat)
    requires Path(ns, fs, L) && l < L && ns[l] < |b| && fs[l] < 32
    requires ns[L - 1] == Off(L - 1) + index / 32 && fs[L - 1] == index % 32
    requires if l == L - 1 then Linked(b, L) else LinkedBut(b, L, ns[l], fs[l])
    requires l < L - 1 ==> Kid(ns[l], fs[l]) < |b| && (b[Kid(ns[l], fs[l])] == Full() <==> v)
    ensures var r := Flip(b, ns[l], fs[l], v);
      && (if l == 0 then Linked(r, L) else LinkedBut(r, L, ns[l - 1], fs[l - 1]) && Kid(ns[l - 1], fs[l - 1]) == ns[l])
      && ((b[ns[l]] == Full() <==> r[ns[l]] == Full()) ==> Linked(r, L))
      && HeldBut(b, r, L, index)
      && (Held(r, L, index) <==> if l == L - 1 then v else Held(b, L, index))
  {
    var r := Flip(b, ns[l], fs[l], v);
    PathLevels(ns, fs, L, l);
    if l == 0 {
      FlipLinks(b, L, ns[l], fs[l], v, 0, 0);
    } else {
      assert Descends(ns, fs, l - 1) && fs[l - 1] < 32;
      FlipLinks(b, L, ns[l], fs[l], v, ns[l - 1], fs[l - 1]);
    }
    if l < L - 1 { OffGrows(l + 1, L - 1); }
    forall i: nat {:trigger Held(r, L, i)}
      ensures Held(r, L, i) <==> if l == L - 1 && i == index then v else Held(b, L, i)
    {
      FlipHeld(b, L, ns[l], fs[l], v, i);
    }
  }

  // The bits above level l are not touched.
  lemma ClearKept(b: seq<Bits>, L: nat, ns: seq<nat>, fs: seq<nat>, l: nat, v: bool)
    requires Path(ns, fs, L) && l < L && Clear(b, ns, fs, l + 1, false)
    requires ns[l] < |b| && fs[l] < 32
    ensures Clear(Flip(b, ns[l], fs[l], v), ns, fs, l, false)
  {
    var r := Flip(b, ns[l], fs[l], v);
    PathLevels(ns, fs, L, l);
    forall k: nat {:trigger ClearAt(r, ns, fs, k, false)} | k < l ensures ClearAt(r, ns, fs, k, false) {
      assert ClearAt(b, ns, fs, k, false);
      PathLevels(ns, fs, L, k);
      OffGrows(k + 1, l);
    }
  }

  // All indices but one are held as before.
  ghost predicate HeldBut(a: seq<Bits>, b: seq<Bits>, L: nat, index: nat) {
    L >= 1 && forall i: nat {:trigger Held(b, L, i)} :: i != index ==> (Held(b, L, i) <==> Held(a, L, i))
  }

  lemma HeldGrows(a: seq<Bits>, b: seq<Bits>, L: nat, capacity: nat, index: nat)
    requires L >= 1 && HeldBut(a, b, L, index) && Held(b, L, index) && index < capacity && !Held(a, L, index)
    ensures (set i: int | 0 <= i < capacity && Held(b, L, i)) == (set i: int | 0 <= i < capacity && Held(a, L, i))
      + {index}
  {
  }

  lemma HeldShrinks(a: seq<Bits>, b: seq<Bits>, L: nat, capacity: nat, index: nat)
    requires L >= 1 && HeldBut(a, b, L, index) && !Held(b, L, index)
    ensures (set i: int | 0 <= i < capacity && Held(b, L, i))
      == (set i: int | 0 <= i < capacity && Held(a, L, i)) - {index}
  {
  }

  // An index that falls into a word has a path to it.
  lemma IndexBelow(index: nat, level: nat, capacity: nat)
    requires level >= 1 && capacity <= Pow32(level) && index / 32 < (capacity + 31) / 32
    ensures index < Pow32(level)
  {
    assert Pow32(level) == 32 * Pow32(level - 1);
  }

  lemma {:induction false} FreeIndex(s: set<int>, capacity: nat) returns (free: nat)
    requires |s| < capacity
    ensures free < capacity && free !in s
    decreases capacity
  {
    if capacity - 1 !in s {
      free := capacity - 1;
    } else {
      free := FreeIndex(s - {capacity - 1}, capacity - 1);
    }
  }

  // The lower end of a path.
  ghost predicate Chain(ns: seq<nat>, fs: seq<nat>) {
    && |ns| == |fs| && (fs != [] ==> fs[|fs| - 1] < 32)
    && forall l {:trigger Descends(ns, fs, l)} :: 0 <= l < |ns| - 1 ==> Descends(ns, fs, l)
  }

  lemma ChainStep(ns: seq<nat>, fs: seq<nat>, n: nat, f: nat)
    requires Chain(ns, fs) && f < 32 && (ns != [] ==> ns[0] == Kid(n, f))
    ensures Chain([n] + ns, [f] + fs)
  {
    var ms, gs := [n] + ns, [f] + fs;
    forall l {:trigger Descends(ms, gs, l)} | 0 <= l < |ms| - 1 ensures Descends(ms, gs, l) {
      if l > 0 { assert Descends(ns, fs, l - 1); }
    }
  }

  lemma ChainPath(ns: seq<nat>, fs: seq<nat>, L: nat)
    requires Chain(ns, fs) && |ns| == L >= 1 && ns[0] == 0
    ensures Path(ns, fs, L)
  {
  }

  // A path to an index below the capacity stays within the words there are.
  lemma PathInside(b: seq<Bits>, L: nat, capacity: nat, ns: seq<nat>, fs: seq<nat>, l: nat)
    requires Path(ns, fs, L) && l < L && Sized(b, L, capacity) && ns[L - 1] < |b|
    ensures ns[l] < |b| && fs[l] < 32
  {
    if l < L - 1 {
      PathLevels(ns, fs, L, l);
      OffGrows(l + 1, L - 1);
      assert Descends(ns, fs, l);
    }
  }
}
