/** 64-bit words as their bits, least significant first. */
module Words {
  import opened Arithmetic

  type Word = w: seq<bool> | |w| == 64 witness seq(64, i => false)

  function Zero(): (w: Word) {
    seq(64, i => false)
  }

  // 1 << j
  function Bit(j: nat): (w: Word)
    requires j < 64
  {
    seq(64, i => i == j)
  }

  // x & (1 << j) != 0
  function Test(w: Word, j: nat): (b: bool)
    requires j < 64
    ensures b == w[j]
  {
    var r := And(w, Bit(j));
    assert r[j] == w[j];
    assert !w[j] ==> r == Zero();
    r != Zero()
  }

  function Or(a: Word, b: Word): (w: Word) {
    seq(64, i requires 0 <= i < 64 => a[i] || b[i])
  }

  function And(a: Word, b: Word): (w: Word) {
    seq(64, i requires 0 <= i < 64 => a[i] && b[i])
  }

  function AndNot(a: Word, b: Word): (w: Word) {
    seq(64, i requires 0 <= i < 64 => a[i] && !b[i])
  }

  // The bits of x - 1: the borrow runs through the low zeros and stops at the lowest one.
  function Decrement(x: seq<bool>): (r: seq<bool>)
    ensures |r| == |x|
  {
    if x == [] then []
    else if x[0] then [false] + x[1..]
    else [true] + Decrement(x[1..])
  }

  ghost function Value(x: seq<bool>): (n: nat) {
    if x == [] then 0 else (if x[0] then 1 else 0) + 2 * Value(x[1..])
  }

  // Subtraction of one, wrapping around at zero.
  lemma {:induction false} DecrementSubtracts(x: seq<bool>)
    ensures Value(Decrement(x)) == if Value(x) == 0 then Pow2(|x|) - 1 else Value(x) - 1
  {
    if x != [] {
      DecrementSubtracts(x[1..]);
      var d := Decrement(x);
      assert d[1..] == if x[0] then x[1..] else Decrement(x[1..]);
    }
  }

  ghost function Ones(x: seq<bool>): (n: nat)
    ensures n <= |x|
  {
    if x == [] then 0 else (if x[|x| - 1] then 1 else 0) + Ones(x[..|x| - 1])
  }

  lemma {:induction false} OnesFront(x: seq<bool>)
    requires x != []
    ensures Ones(x) == (if x[0] then 1 else 0) + Ones(x[1..])
  {
    if |x| > 1 {
      OnesFront(x[..|x| - 1]);
      assert x[1..][..|x| - 2] == x[..|x| - 1][1..];
    }
  }

  lemma {:induction false} NoOnes(x: seq<bool>)
    ensures Ones(x) == 0 <==> forall j {:trigger x[j]} :: 0 <= j < |x| ==> !x[j]
  {
    if x != [] {
      NoOnes(x[..|x| - 1]);
    }
  }

  ghost function Both(a: seq<bool>, b: seq<bool>): (w: seq<bool>)
    requires |a| == |b|
    ensures |w| == |a|
  {
    seq(|a|, i requires 0 <= i < |a| => a[i] && b[i])
  }

  lemma {:induction false} BothDecrement(x: seq<bool>)
    requires Ones(x) > 0
    ensures Ones(Both(x, Decrement(x))) == Ones(x) - 1
  {
    var d := Both(x, Decrement(x));
    OnesFront(x);
    OnesFront(d);
    if x[0] {
      assert d[1..] == x[1..];
    } else {
      BothDecrement(x[1..]);
      assert d[1..] == Both(x[1..], Decrement(x[1..]));
    }
  }

  // x &= x - 1 clears one bit at a time.
  method popcount(word: Word) returns (count: nat)
    ensures count == Ones(word)
  {
    count := 0;
    var x := word;
    while x != Zero()
      invariant count + Ones(x) == Ones(word)
      decreases Ones(x)
    {
      NoOnes(x);
      assert Ones(x) == 0 ==> x == Zero();
      BothDecrement(x);
      assert And(x, Decrement(x)) == Both(x, Decrement(x));
      count := count + 1;
      x := And(x, Decrement(x));
    }
    NoOnes(x);
  }
}

/** Containers: the low halves of the elements that share a high half. */
module Containers {
  import opened Sets
  import opened Words

  type uint16 = x: int | 0 <= x < 0x10000

  // Containers are never changed once they are stored, so they are values here.
  datatype Container = ArrayContainer(values: seq<uint16>) | BitmapContainer(bitmap: seq<Word>)

  const ARRAY_TO_BITMAP_THRESHOLD := 4096
  const BITMAP_TO_ARRAY_THRESHOLD := 4096

  ghost predicate Ascending(s: seq<int>) {
    forall i, j {:trigger s[i], s[j]} :: 0 <= i < j < |s| ==> s[i] < s[j]
  }

  // 8192 words, of which only the first 1024 are used.
  ghost predicate Bits(b: seq<Word>) {
    |b| == 8192 && forall i {:trigger b[i]} :: 1024 <= i < |b| ==> b[i] == Zero()
  }

  ghost predicate InBits(b: seq<Word>, x: int)
    requires Bits(b) && 0 <= x < 0x10000
  {
    b[x / 64][x % 64]
  }

  ghost predicate Shape(c: Container) {
    match c
    case ArrayContainer(values) => Ascending(values)
    case BitmapContainer(bitmap) => Bits(bitmap)
  }

  ghost predicate In(c: Container, x: uint16)
    requires Shape(c)
  {
    match c
    case ArrayContainer(values) => x in values
    case BitmapContainer(bitmap) => InBits(bitmap, x)
  }

  ghost function Low(c: Container): (s: set<int>)
    requires Shape(c)
  {
    set x: int | 0 <= x < 0x10000 && In(c, x)
  }

  // Sparse containers are arrays, dense ones bitmaps; at 4096 elements either may stand.
  ghost predicate Well(c: Container) {
    && Shape(c)
    && match c
       case ArrayContainer(values) => |values| <= ARRAY_TO_BITMAP_THRESHOLD
       case BitmapContainer(bitmap) => |Low(c)| >= BITMAP_TO_ARRAY_THRESHOLD
  }

  // ---- Sizes -------------------------------------------------------------

  lemma {:induction false} AscendingSize(s: seq<int>, e: set<int>)
    requires Ascending(s) && forall x {:trigger x in s} :: x in s <==> x in e
    ensures |s| == |e|
  {
    if s == [] {
      forall x ensures x !in e { assert x !in s; }
      assert e == {};
    } else {
      var n := |s| - 1;
      assert s[n] in s;
      forall x {:trigger x in s[..n]} ensures x in s[..n] <==> x in e - {s[n]} {
        if x in e - {s[n]} {
          assert x in s;
          var i :| 0 <= i < |s| && s[i] == x;
          assert s[..n][i] == x;
        }
        if x in s[..n] {
          var i :| 0 <= i < n && s[..n][i] == x;
          assert s[i] == x && x in s;
        }
      }
      AscendingSize(s[..n], e - {s[n]});
    }
  }

  lemma ArraySize(values: seq<uint16>)
    requires Ascending(values)
    ensures |Low(ArrayContainer(values))| == |values|
  {
    AscendingSize(values, Low(ArrayContainer(values)));
  }

  // ---- The ascending listing of a bitmap ---------------------------------

  ghost function WordList(w: seq<bool>, base: nat): (s: seq<int>) {
    if w == [] then [] else
      var n := |w| - 1;
      WordList(w[..n], base) + if w[n] then [base + n] else []
  }

  ghost function Listing(b: seq<Word>): (s: seq<int>) {
    if b == [] then [] else
      var n := |b| - 1;
      Listing(b[..n]) + WordList(b[n], 64 * n)
  }

  ghost function BitCount(b: seq<Word>): (c: nat) {
    if b == [] then 0 else BitCount(b[..|b| - 1]) + Ones(b[|b| - 1])
  }

  lemma {:induction false} WordListed(w: seq<bool>, base: nat)
    ensures |WordList(w, base)| == Ones(w) && Ascending(WordList(w, base))
    ensures forall x {:trigger x in WordList(w, base)} :: x in WordList(w, base) <==>
      base <= x < base + |w| && w[x - base]
  {
    if w != [] {
      var n := |w| - 1;
      WordListed(w[..n], base);
      var s := WordList(w[..n], base);
      forall i | 0 <= i < |s| ensures s[i] < base + n { assert s[i] in s; }
      forall x {:trigger x in WordList(w, base)}
        ensures x in WordList(w, base) <==> base <= x < base + |w| && w[x - base]
      {
        assert x in WordList(w, base) <==> x in s || (w[n] && x == base + n);
      }
    }
  }

  lemma {:induction false} Listed(b: seq<Word>)
    ensures |Listing(b)| == BitCount(b) && Ascending(Listing(b))
    ensures forall x {:trigger x in Listing(b)} :: x in Listing(b) <==> 0 <= x < 64 * |b| && b[x / 64][x % 64]
  {
    if b != [] {
      var n := |b| - 1;
      Listed(b[..n]);
      WordListed(b[n], 64 * n);
      var s, t := Listing(b[..n]), WordList(b[n], 64 * n);
      forall i | 0 <= i < |s| ensures s[i] < 64 * n { assert s[i] in s; }
      forall i | 0 <= i < |t| ensures 64 * n <= t[i] { assert t[i] in t; }
      forall x {:trigger x in Listing(b)} ensures x in Listing(b) <==> 0 <= x < 64 * |b| && b[x / 64][x % 64] {
        assert x in Listing(b) <==> x in s || x in t;
        if 64 * n <= x < 64 * n + 64 {
          assert x / 64 == n && x % 64 == x - 64 * n;
        }
      }
    }
  }

  lemma ListedBits(b: seq<Word>)
    requires Bits(b)
    ensures Ascending(Listing(b)) && |Listing(b)| == BitCount(b) == |Low(BitmapContainer(b))|
    ensures forall x {:trigger x in Listing(b)} :: x in Listing(b) <==> x in Low(BitmapContainer(b))
  {
    Listed(b);
    forall x {:trigger x in Listing(b)} ensures x in Listing(b) <==> x in Low(BitmapContainer(b)) {
      if 0x10000 <= x < 64 * |b| {
        assert b[x / 64] == Zero();
      }
    }
    AscendingSize(Listing(b), Low(BitmapContainer(b)));
  }

  // ---- Array containers ---------------------------------------------------

  // Binary search.
  method arrayContains(values: seq<uint16>, x: uint16) returns (found: bool)
    requires Ascending(values)
    ensures found <==> x in values
  {
    var left: int, right: int := 0, |values| - 1;
    while left <= right
      invariant 0 <= left <= right + 1 <= |values|
      invariant forall i {:trigger values[i]} :: 0 <= i < left || right < i < |values| ==> values[i] != x
    {
      var mid := (left + right) / 2;
      if values[mid] == x {
        return true;
      } else if values[mid] < x {
        left := mid + 1;
      } else {
        right := mid - 1;
      }
    }
    return false;
  }

  ghost function Elems(s: seq<int>): set<int> { set x | x in s }

  lemma LowArray(values: seq<uint16>)
    requires Ascending(values)
    ensures Low(ArrayContainer(values)) == Elems(values) && |Elems(values)| == |values|
  {
    ArraySize(values);
    forall x ensures x in Low(ArrayContainer(values)) <==> x in Elems(values) {
      if x in Elems(values) {
        var i :| 0 <= i < |values| && values[i] == x;
      }
    }
  }

  lemma ElemsAppend(s: seq<int>, t: seq<int>)
    ensures Elems(s + t) == Elems(s) + Elems(t)
  {
  }

  // The elements before place p are below x, those from p on above it.
  lemma InsertAscends(values: seq<int>, p: nat, x: int)
    requires Ascending(values) && p <= |values|
    requires forall i {:trigger values[i]} :: 0 <= i < p ==> values[i] < x
    requires forall i {:trigger values[i]} :: p <= i < |values| ==> x < values[i]
    ensures Ascending(values[..p] + [x] + values[p..])
    ensures Elems(values[..p] + [x] + values[p..]) == Elems(values) + {x}
  {
    ElemsAppend(values[..p] + [x], values[p..]);
    ElemsAppend(values[..p], [x]);
    ElemsAppend(values[..p], values[p..]);
    assert values == values[..p] + values[p..];
  }

  method arrayAdd(values: seq<uint16>, x: uint16) returns (c: Container)
    requires Well(ArrayContainer(values))
    ensures Well(c) && Low(c) == Low(ArrayContainer(values)) + {x}
  {
    LowArray(values);
    var found := arrayContains(values, x);
    if found {
      assert x in Elems(values);
      return ArrayContainer(values);
    }
    var insertPos := 0;
    while insertPos < |values| && values[insertPos] < x
      invariant 0 <= insertPos <= |values|
      invariant forall i {:trigger values[i]} :: 0 <= i < insertPos ==> values[i] < x
    {
      insertPos := insertPos + 1;
    }
    forall i {:trigger values[i]} | insertPos <= i < |values| ensures x < values[i] {
      assert values[i] in values && values[insertPos] in values;
    }
    var newValues := values[..insertPos] + [x] + values[insertPos..];
    InsertAscends(values, insertPos, x);
    LowArray(newValues);
    if |newValues| > ARRAY_TO_BITMAP_THRESHOLD {
      var bitmap := toBitmapContainer(newValues);
      return BitmapContainer(bitmap);
    }
    return ArrayContainer(newValues);
  }

  lemma RemoveAscends(values: seq<int>, p: nat)
    requires Ascending(values) && p < |values|
    ensures Ascending(values[..p] + values[p + 1..])
    ensures Elems(values[..p] + values[p + 1..]) == Elems(values) - {values[p]}
  {
    ElemsAppend(values[..p], values[p + 1..]);
    ElemsAppend(values[..p] + [values[p]], values[p + 1..]);
    ElemsAppend(values[..p], [values[p]]);
    assert values == values[..p] + [values[p]] + values[p + 1..];
  }

  method arrayRemove(values: seq<uint16>, x: uint16) returns (c: Container)
    requires Well(ArrayContainer(values))
    ensures Well(c) && Low(c) == Low(ArrayContainer(values)) - {x}
  {
    LowArray(values);
    var removePos := -1;
    for i := 0 to |values|
      invariant forall k {:trigger values[k]} :: 0 <= k < i ==> values[k] != x
      invariant removePos == -1
    {
      if values[i] == x {
        removePos := i;
        break;
      }
    }
    if removePos == -1 {
      assert x !in Elems(values);
      return ArrayContainer(values);
    }
    var newValues := values[..removePos] + values[removePos + 1..];
    RemoveAscends(values, removePos);
    LowArray(newValues);
    return ArrayContainer(newValues);
  }

  // ---- Bitmaps -------------------------------------------------------------

  // The words with the bit of x set to v.
  ghost function Put(b: seq<Word>, x: uint16, v: bool): (r: seq<Word>)
    requires Bits(b)
    ensures Bits(r)
    ensures Low(BitmapContainer(r)) == if v then Low(BitmapContainer(b)) + {x} else Low(BitmapContainer(b)) - {x}
  {
    var w: Word := b[x / 64][x % 64 := v];
    var r := b[x / 64 := w];
    assert forall y :: 0 <= y < 0x10000 ==> InBits(r, y) == if y == x then v else InBits(b, y);
    r
  }

  method setBit(bitmap: array<Word>, x: uint16)
    requires Bits(bitmap[..])
    modifies bitmap
    ensures bitmap[..] == Put(old(bitmap[..]), x, true)
  {
    var wordIndex, bitIndex := x / 64, x % 64;
    assert bitmap[wordIndex] == bitmap[..][wordIndex];
    assert Or(bitmap[wordIndex], Bit(bitIndex)) == bitmap[wordIndex][bitIndex := true];
    bitmap[wordIndex] := Or(bitmap[wordIndex], Bit(bitIndex));
  }

  method clearBit(bitmap: array<Word>, x: uint16)
    requires Bits(bitmap[..])
    modifies bitmap
    ensures bitmap[..] == Put(old(bitmap[..]), x, false)
  {
    var wordIndex, bitIndex := x / 64, x % 64;
    assert bitmap[wordIndex] == bitmap[..][wordIndex];
    assert AndNot(bitmap[wordIndex], Bit(bitIndex)) == bitmap[wordIndex][bitIndex := false];
    bitmap[wordIndex] := AndNot(bitmap[wordIndex], Bit(bitIndex));
  }

  // A copy that can be written to.
  method clone(bitmap: seq<Word>) returns (copy: array<Word>)
    requires Bits(bitmap)
    ensures fresh(copy) && copy[..] == bitmap
  {
    copy := new Word[8192](i requires 0 <= i < |bitmap| => bitmap[i]);
  }

  method toBitmapContainer(values: seq<uint16>) returns (bitmap: seq<Word>)
    requires Ascending(values)
    ensures Bits(bitmap) && Low(BitmapContainer(bitmap)) == Elems(values)
  {
    var bc := new Word[8192](i => Zero());
    assert Low(BitmapContainer(bc[..])) == Elems(values[..0]);
    setAll(bc, values);
    bitmap := bc[..];
  }

  method setAll(bitmap: array<Word>, values: seq<uint16>)
    requires Bits(bitmap[..])
    modifies bitmap
    ensures Bits(bitmap[..])
      && Low(BitmapContainer(bitmap[..])) == Low(BitmapContainer(old(bitmap[..]))) + Elems(values)
  {
    for i := 0 to |values|
      invariant Bits(bitmap[..])
      invariant Low(BitmapContainer(bitmap[..])) == Low(BitmapContainer(old(bitmap[..]))) + Elems(values[..i])
    {
      setBit(bitmap, values[i]);
      assert Elems(values[..i + 1]) == Elems(values[..i]) + {values[i]};
    }
    assert values[..|values|] == values;
  }

  method clearAll(bitmap: array<Word>, values: seq<uint16>)
    requires Bits(bitmap[..])
    modifies bitmap
    ensures Bits(bitmap[..])
      && Low(BitmapContainer(bitmap[..])) == Low(BitmapContainer(old(bitmap[..]))) - Elems(values)
  {
    for i := 0 to |values|
      invariant Bits(bitmap[..])
      invariant Low(BitmapContainer(bitmap[..])) == Low(BitmapContainer(old(bitmap[..]))) - Elems(values[..i])
    {
      clearBit(bitmap, values[i]);
      assert Elems(values[..i + 1]) == Elems(values[..i]) + {values[i]};
    }
    assert values[..|values|] == values;
  }

  method bitmapContains(bitmap: seq<Word>, x: uint16) returns (found: bool)
    requires Bits(bitmap)
    ensures found <==> InBits(bitmap, x)
  {
    var wordIndex, bitIndex := x / 64, x % 64;
    found := Test(bitmap[wordIndex], bitIndex);
  }

  method bitmapCardinality(bitmap: seq<Word>) returns (count: nat)
    requires Bits(bitmap)
    ensures count == |Low(BitmapContainer(bitmap))|
  {
    count := 0;
    for i := 0 to |bitmap|
      invariant count == BitCount(bitmap[..i])
    {
      var c := popcount(bitmap[i]);
      assert bitmap[..i + 1][..i] == bitmap[..i];
      count := count + c;
    }
    assert bitmap[..|bitmap|] == bitmap;
    ListedBits(bitmap);
  }

  lemma ElemsStep(s: seq<int>, i: nat)
    requires i < |s|
    ensures Elems(s[..i + 1]) == Elems(s[..i]) + {s[i]}
  {
    assert s[..i + 1] == s[..i] + [s[i]];
  }

  lemma AscendsOn(s: seq<int>, x: int)
    requires Ascending(s) && forall k {:trigger s[k]} :: 0 <= k < |s| ==> s[k] < x
    ensures Ascending(s + [x]) && Elems(s + [x]) == Elems(s) + {x}
  {
  }

  // ---- Merging two arrays --------------------------------------------------

  // What was read of a lies below what is left of b.
  ghost predicate Behind(a: seq<int>, i: nat, b: seq<int>, j: nat) {
    i <= |a| && j <= |b| && (j < |b| ==> forall k {:trigger a[k]} :: 0 <= k < i ==> a[k] < b[j])
  }

  lemma BehindApart(a: seq<int>, i: nat, b: seq<int>, j: nat)
    requires Ascending(b) && Behind(a, i, b, j)
    ensures Elems(a[..i]) !! Elems(b[j..])
  {
    forall x | x in Elems(a[..i]) ensures x !in Elems(b[j..]) {
      var k :| 0 <= k < i && a[..i][k] == x;
      assert a[k] == x;
      forall l | 0 <= l < |b| - j ensures b[j..][l] != x { assert b[j..][l] == b[j + l]; }
    }
  }

  lemma ElemsSplit(s: seq<int>, i: nat)
    requires i <= |s|
    ensures Elems(s) == Elems(s[..i]) + Elems(s[i..])
  {
    assert s == s[..i] + s[i..];
  }

  // Copies what is left of one array.
  method appendRest(result: seq<uint16>, values: seq<uint16>, start: nat) returns (r: seq<uint16>)
    requires Ascending(result) && Ascending(values) && start <= |values|
    requires start < |values| ==> forall k {:trigger result[k]} :: 0 <= k < |result| ==> result[k] < values[start]
    ensures Ascending(r) && Elems(r) == Elems(result) + Elems(values[start..])
    ensures start == |values| ==> r == result
  {
    r := result;
    var i := start;
    while i < |values|
      invariant start <= i <= |values| && Ascending(r)
      invariant r == result + values[start..i]
      invariant i < |values| ==> forall k {:trigger r[k]} :: 0 <= k < |r| ==> r[k] < values[i]
    {
      AscendsOn(r, values[i]);
      r := r + [values[i]];
      i := i + 1;
    }
    ElemsAppend(result, values[start..]);
  }

  ghost predicate Under(s: seq<int>, v: seq<int>, n: nat) {
    n < |v| ==> forall k {:trigger s[k]} :: 0 <= k < |s| ==> s[k] < v[n]
  }

  // A half-way union.
  ghost predicate Merging(a: seq<int>, i: nat, b: seq<int>, j: nat, r: seq<int>) {
    && i <= |a| && j <= |b| && Ascending(a) && Ascending(b)
    && Ascending(r) && Elems(r) == Elems(a[..i]) + Elems(b[..j])
    && Under(r, a, i) && Under(r, b, j)
  }

  lemma MergingTake(a: seq<int>, i: nat, b: seq<int>, j: nat, r: seq<int>)
    requires Merging(a, i, b, j, r) && i < |a| && j < |b| && a[i] < b[j]
    ensures Merging(a, i + 1, b, j, r + [a[i]])
  {
    ElemsStep(a, i);
    AscendsOn(r, a[i]);
  }

  lemma MergingBoth(a: seq<int>, i: nat, b: seq<int>, j: nat, r: seq<int>)
    requires Merging(a, i, b, j, r) && i < |a| && j < |b| && a[i] == b[j]
    ensures Merging(a, i + 1, b, j + 1, r + [a[i]])
  {
    ElemsStep(a, i);
    ElemsStep(b, j);
    AscendsOn(r, a[i]);
  }

  // The first loop of unionArray, which ends when one array is used up.
  method mergeHeads(a: seq<uint16>, b: seq<uint16>) returns (result: seq<uint16>, i: nat, j: nat)
    requires Ascending(a) && Ascending(b)
    ensures Merging(a, i, b, j, result) && (i == |a| || j == |b|)
  {
    result := [];
    i, j := 0, 0;
    while i < |a| && j < |b|
      invariant Merging(a, i, b, j, result)
    {
      if a[i] < b[j] {
        MergingTake(a, i, b, j, result);
        result := result + [a[i]];
        i := i + 1;
      } else if a[i] > b[j] {
        MergingTake(b, j, a, i, result);
        result := result + [b[j]];
        j := j + 1;
      } else {
        MergingBoth(a, i, b, j, result);
        result := result + [a[i]];
        i, j := i + 1, j + 1;
      }
    }
  }

  method mergeArrays(a: seq<uint16>, b: seq<uint16>) returns (result: seq<uint16>)
    requires Ascending(a) && Ascending(b)
    ensures Ascending(result) && Elems(result) == Elems(a) + Elems(b)
  {
    var i, j;
    result, i, j := mergeHeads(a, b);
    ghost var merged := result;
    MergingDone(a, i, b, j, merged);
    result := appendRest(result, a, i);
    result := appendRest(result, b, j);
  }

  lemma MergingDone(a: seq<int>, i: nat, b: seq<int>, j: nat, r: seq<int>)
    requires Merging(a, i, b, j, r)
    ensures Elems(r) + Elems(a[i..]) + Elems(b[j..]) == Elems(a) + Elems(b)
  {
    ElemsSplit(a, i);
    ElemsSplit(b, j);
  }

  method unionArray(a: seq<uint16>, b: seq<uint16>) returns (c: Container)
    requires Well(ArrayContainer(a)) && Well(ArrayContainer(b))
    ensures Well(c) && Low(c) == Low(ArrayContainer(a)) + Low(ArrayContainer(b))
  {
    var result := mergeArrays(a, b);
    LowArray(a);
    LowArray(b);
    LowArray(result);
    if |result| > ARRAY_TO_BITMAP_THRESHOLD {
      var bitmap := toBitmapContainer(result);
      return BitmapContainer(bitmap);
    }
    return ArrayContainer(result);
  }

  // Half-way to what a holds and b holds as well, or does not hold.
  ghost predicate Sifting(a: seq<int>, i: nat, b: seq<int>, j: nat, r: seq<int>, common: bool) {
    && Ascending(a) && Ascending(b) && Behind(a, i, b, j) && Behind(b, j, a, i)
    && Ascending(r) && Under(r, a, i)
    && Elems(r) == if common then Elems(a[..i]) * Elems(b[..j]) else Elems(a[..i]) - Elems(b[..j])
  }

  lemma SiftingFirst(a: seq<int>, i: nat, b: seq<int>, j: nat, r: seq<int>, common: bool)
    requires Sifting(a, i, b, j, r, common) && i < |a| && j < |b| && a[i] < b[j]
    ensures Sifting(a, i + 1, b, j, if common then r else r + [a[i]], common)
  {
    ElemsStep(a, i);
    AscendsOn(r, a[i]);
    BehindApart(b, j, a, i);
    assert a[i..][0] == a[i] && a[i] in Elems(a[i..]);
  }

  lemma SiftingSecond(a: seq<int>, i: nat, b: seq<int>, j: nat, r: seq<int>, common: bool)
    requires Sifting(a, i, b, j, r, common) && i < |a| && j < |b| && b[j] < a[i]
    ensures Sifting(a, i, b, j + 1, r, common)
  {
    ElemsStep(b, j);
    BehindApart(a, i, b, j);
    assert b[j..][0] == b[j] && b[j] in Elems(b[j..]);
  }

  lemma SiftingBoth(a: seq<int>, i: nat, b: seq<int>, j: nat, r: seq<int>, common: bool)
    requires Sifting(a, i, b, j, r, common) && i < |a| && j < |b| && a[i] == b[j]
    ensures Sifting(a, i + 1, b, j + 1, if common then r + [a[i]] else r, common)
  {
    ElemsStep(a, i);
    ElemsStep(b, j);
    AscendsOn(r, a[i]);
    BehindApart(a, i, b, j);
    BehindApart(b, j, a, i);
    assert a[i..][0] == a[i] && a[i] in Elems(a[i..]);
    assert b[j..][0] == b[j] && b[j] in Elems(b[j..]);
  }

  lemma SiftingDone(a: seq<int>, i: nat, b: seq<int>, j: nat, r: seq<int>, common: bool)
    requires Sifting(a, i, b, j, r, common) && (i == |a| || j == |b|)
    ensures Elems(r) + (if common then {} else Elems(a[i..])) ==
      if common then Elems(a) * Elems(b) else Elems(a) - Elems(b)
  {
    ElemsSplit(a, i);
    ElemsSplit(b, j);
    BehindApart(a, i, b, j);
    BehindApart(b, j, a, i);
  }

  lemma SubsetWell(r: seq<uint16>, a: seq<uint16>)
    requires Ascending(r) && Well(ArrayContainer(a)) && Elems(r) <= Elems(a)
    ensures Well(ArrayContainer(r))
  {
    LowArray(a);
    LowArray(r);
    SubsetSize(Elems(r), Elems(a));
  }

  method intersectionArray(a: seq<uint16>, b: seq<uint16>) returns (c: Container)
    requires Well(ArrayContainer(a)) && Well(ArrayContainer(b))
    ensures Well(c) && Low(c) == Low(ArrayContainer(a)) * Low(ArrayContainer(b))
  {
    var result: seq<uint16> := [];
    var i, j := 0, 0;
    while i < |a| && j < |b|
      invariant Sifting(a, i, b, j, result, true)
    {
      if a[i] < b[j] {
        SiftingFirst(a, i, b, j, result, true);
        i := i + 1;
      } else if a[i] > b[j] {
        SiftingSecond(a, i, b, j, result, true);
        j := j + 1;
      } else {
        SiftingBoth(a, i, b, j, result, true);
        result := result + [a[i]];
        i, j := i + 1, j + 1;
      }
    }
    SiftingDone(a, i, b, j, result, true);
    LowArray(a);
    LowArray(b);
    LowArray(result);
    SubsetWell(result, a);
    return ArrayContainer(result);
  }

  method differenceArray(a: seq<uint16>, b: seq<uint16>) returns (c: Container)
    requires Well(ArrayContainer(a)) && Well(ArrayContainer(b))
    ensures Well(c) && Low(c) == Low(ArrayContainer(a)) - Low(ArrayContainer(b))
  {
    var result: seq<uint16> := [];
    var i, j := 0, 0;
    while i < |a| && j < |b|
      invariant Sifting(a, i, b, j, result, false)
    {
      if a[i] < b[j] {
        SiftingFirst(a, i, b, j, result, false);
        result := result + [a[i]];
        i := i + 1;
      } else if a[i] > b[j] {
        SiftingSecond(a, i, b, j, result, false);
        j := j + 1;
      } else {
        SiftingBoth(a, i, b, j, result, false);
        i, j := i + 1, j + 1;
      }
    }
    SiftingDone(a, i, b, j, result, false);
    result := appendRest(result, a, i);
    LowArray(a);
    LowArray(b);
    LowArray(result);
    SubsetWell(result, a);
    return ArrayContainer(result);
  }

  // The values of an array that a bitmap holds, or those it does not hold.
  method filterArray(a: seq<uint16>, bitmap: seq<Word>, keep: bool) returns (c: Container)
    requires Well(ArrayContainer(a)) && Bits(bitmap)
    ensures Well(c)
    ensures Low(c) == if keep then Low(ArrayContainer(a)) * Low(BitmapContainer(bitmap))
      else Low(ArrayContainer(a)) - Low(BitmapContainer(bitmap))
  {
    ghost var low := Low(BitmapContainer(bitmap));
    var result: seq<uint16> := [];
    for i := 0 to |a|
      invariant Ascending(result)
      invariant Elems(result) == if keep then Elems(a[..i]) * low else Elems(a[..i]) - low
      invariant i < |a| ==> forall k {:trigger result[k]} :: 0 <= k < |result| ==> result[k] < a[i]
    {
      ElemsStep(a, i);
      var found := bitmapContains(bitmap, a[i]);
      assert found <==> a[i] in low;
      if found == keep {
        AscendsOn(result, a[i]);
        result := result + [a[i]];
      }
    }
    assert a[..|a|] == a;
    LowArray(a);
    LowArray(result);
    SubsetWell(result, a);
    return ArrayContainer(result);
  }

  // ---- Bitmaps against bitmaps -----------------------------------------------

  method toArray(bitmap: seq<Word>) returns (result: seq<uint16>)
    requires Bits(bitmap)
    ensures Ascending(result) && Elems(result) == Low(BitmapContainer(bitmap))
  {
    result := [];
    for i := 0 to |bitmap|
      invariant result == Listing(bitmap[..i])
    {
      var word := bitmap[i];
      ListingStep(bitmap, i);
      if word == Zero() {
        continue;
      }
      result := appendOnes(word, i, result);
    }
    assert bitmap[..|bitmap|] == bitmap;
    ListedElems(bitmap);
  }

  // The inner loop of toArray.
  method appendOnes(word: Word, i: nat, before: seq<uint16>) returns (result: seq<uint16>)
    requires i < 1024
    ensures result == before + WordList(word, 64 * i)
  {
    result := before;
    var baseIndex := (i * 64) % 0x10000;
    for j := 0 to 64
      invariant result == before + WordList(word[..j], 64 * i)
    {
      WordListStep(word, j, 64 * i);
      NoWrap(i, j);
      if Test(word, j) {
        result := result + [(baseIndex + j) % 0x10000];
      }
    }
    assert word[..64] == word;
  }

  lemma ListingStep(bitmap: seq<Word>, i: nat)
    requires i < |bitmap|
    ensures Listing(bitmap[..i + 1]) == Listing(bitmap[..i]) + WordList(bitmap[i], 64 * i)
    ensures bitmap[i] == Zero() ==> WordList(bitmap[i], 64 * i) == []
  {
    assert bitmap[..i + 1][..i] == bitmap[..i];
    NoOnes(bitmap[i]);
    WordListed(bitmap[i], 64 * i);
  }

  lemma WordListStep(word: Word, j: nat, base: nat)
    requires j < 64
    ensures WordList(word[..j + 1], base) == WordList(word[..j], base) + if word[j] then [base + j] else []
  {
    assert word[..j + 1][..j] == word[..j];
  }

  lemma NoWrap(i: nat, j: nat)
    requires i < 1024 && j < 64
    ensures ((i * 64) % 0x10000 + j) % 0x10000 == 64 * i + j
  {
  }

  lemma ListedElems(bitmap: seq<Word>)
    requires Bits(bitmap)
    ensures Ascending(Listing(bitmap)) && Elems(Listing(bitmap)) == Low(BitmapContainer(bitmap))
  {
    ListedBits(bitmap);
    forall x ensures x in Elems(Listing(bitmap)) <==> x in Low(BitmapContainer(bitmap)) {
      assert x in Listing(bitmap) <==> x in Low(BitmapContainer(bitmap));
    }
  }

  // Turns to an array if sparse.
  method compact(bitmap: seq<Word>) returns (c: Container)
    requires Bits(bitmap)
    ensures Well(c) && Low(c) == Low(BitmapContainer(bitmap))
  {
    var count := bitmapCardinality(bitmap);
    if count < BITMAP_TO_ARRAY_THRESHOLD {
      var values := toArray(bitmap);
      LowArray(values);
      return ArrayContainer(values);
    }
    return BitmapContainer(bitmap);
  }

  method orWords(a: seq<Word>, b: seq<Word>) returns (r: seq<Word>)
    requires Bits(a) && Bits(b)
    ensures Bits(r) && Low(BitmapContainer(r)) == Low(BitmapContainer(a)) + Low(BitmapContainer(b))
  {
    var result := new Word[8192](i => Zero());
    for i := 0 to 8192
      invariant forall k {:trigger result[k]} :: 0 <= k < i ==> result[k] == Or(a[k], b[k])
    {
      result[i] := Or(a[i], b[i]);
    }
    r := result[..];
    assert Or(Zero(), Zero()) == Zero();
  }

  method andWords(a: seq<Word>, b: seq<Word>) returns (r: seq<Word>)
    requires Bits(a) && Bits(b)
    ensures Bits(r) && Low(BitmapContainer(r)) == Low(BitmapContainer(a)) * Low(BitmapContainer(b))
  {
    var result := new Word[8192](i => Zero());
    for i := 0 to 8192
      invariant forall k {:trigger result[k]} :: 0 <= k < i ==> result[k] == And(a[k], b[k])
    {
      result[i] := And(a[i], b[i]);
    }
    r := result[..];
    assert And(Zero(), Zero()) == Zero();
  }

  method andNotWords(a: seq<Word>, b: seq<Word>) returns (r: seq<Word>)
    requires Bits(a) && Bits(b)
    ensures Bits(r) && Low(BitmapContainer(r)) == Low(BitmapContainer(a)) - Low(BitmapContainer(b))
  {
    var result := new Word[8192](i => Zero());
    for i := 0 to 8192
      invariant forall k {:trigger result[k]} :: 0 <= k < i ==> result[k] == AndNot(a[k], b[k])
    {
      result[i] := AndNot(a[i], b[i]);
    }
    r := result[..];
    assert AndNot(Zero(), Zero()) == Zero();
  }

  // ---- The operations of a container -----------------------------------------

  method contains(c: Container, x: uint16) returns (found: bool)
    requires Well(c)
    ensures found <==> x in Low(c)
  {
    match c
    case ArrayContainer(values) => found := arrayContains(values, x);
    case BitmapContainer(bitmap) => found := bitmapContains(bitmap, x);
  }

  method cardinality(c: Container) returns (count: nat)
    requires Well(c)
    ensures count == |Low(c)|
  {
    match c
    case ArrayContainer(values) => LowArray(values); count := |values|;
    case BitmapContainer(bitmap) => count := bitmapCardinality(bitmap);
  }

  method add(c: Container, x: uint16) returns (r: Container)
    requires Well(c)
    ensures Well(r) && Low(r) == Low(c) + {x}
  {
    match c
    case ArrayContainer(values) =>
      r := arrayAdd(values, x);
    case BitmapContainer(bitmap) =>
      var copy := clone(bitmap);
      setBit(copy, x);
      r := BitmapContainer(copy[..]);
      SubsetSize(Low(c), Low(r));
  }

  method remove(c: Container, x: uint16) returns (r: Container)
    requires Well(c)
    ensures Well(r) && Low(r) == Low(c) - {x}
  {
    match c
    case ArrayContainer(values) =>
      r := arrayRemove(values, x);
    case BitmapContainer(bitmap) =>
      var copy := clone(bitmap);
      clearBit(copy, x);
      r := compact(copy[..]);
  }

  method union(c: Container, other: Container) returns (r: Container)
    requires Well(c) && Well(other)
    ensures Well(r) && Low(r) == Low(c) + Low(other)
  {
    match (c, other)
    case (ArrayContainer(a), ArrayContainer(b)) =>
      r := unionArray(a, b);
    case (ArrayContainer(a), BitmapContainer(b)) =>
      r := unionBitmapArray(b, a);
    case (BitmapContainer(a), ArrayContainer(b)) =>
      r := unionBitmapArray(a, b);
    case (BitmapContainer(a), BitmapContainer(b)) =>
      var words := orWords(a, b);
      r := BitmapContainer(words);
      SubsetSize(Low(c), Low(r));
  }

  method unionBitmapArray(bitmap: seq<Word>, values: seq<uint16>) returns (r: Container)
    requires Well(BitmapContainer(bitmap)) && Well(ArrayContainer(values))
    ensures Well(r) && Low(r) == Low(BitmapContainer(bitmap)) + Low(ArrayContainer(values))
  {
    var result := clone(bitmap);
    setAll(result, values);
    r := BitmapContainer(result[..]);
    LowArray(values);
    SubsetSize(Low(BitmapContainer(bitmap)), Low(r));
  }

  method intersection(c: Container, other: Container) returns (r: Container)
    requires Well(c) && Well(other)
    ensures Well(r) && Low(r) == Low(c) * Low(other)
  {
    match (c, other)
    case (ArrayContainer(a), ArrayContainer(b)) =>
      r := intersectionArray(a, b);
    case (ArrayContainer(a), BitmapContainer(b)) =>
      r := filterArray(a, b, true);
    case (BitmapContainer(a), ArrayContainer(b)) =>
      r := filterArray(b, a, true);
    case (BitmapContainer(a), BitmapContainer(b)) =>
      var words := andWords(a, b);
      r := compact(words);
  }

  method difference(c: Container, other: Container) returns (r: Container)
    requires Well(c) && Well(other)
    ensures Well(r) && Low(r) == Low(c) - Low(other)
  {
    match (c, other)
    case (ArrayContainer(a), ArrayContainer(b)) =>
      r := differenceArray(a, b);
    case (ArrayContainer(a), BitmapContainer(b)) =>
      r := filterArray(a, b, false);
    case (BitmapContainer(a), ArrayContainer(b)) =>
      var result := clone(a);
      clearAll(result, b);
      LowArray(b);
      r := compact(result[..]);
    case (BitmapContainer(a), BitmapContainer(b)) =>
      var words := andNotWords(a, b);
      r := compact(words);
  }

  method listing(c: Container) returns (result: seq<uint16>)
    requires Well(c)
    ensures Ascending(result) && Elems(result) == Low(c)
  {
    match c
    case ArrayContainer(values) => LowArray(values); result := values;
    case BitmapContainer(bitmap) => result := toArray(bitmap);
  }
}

/** Sets of 32-bit numbers: a container of low halves for each high half in use. */
module RoaringBitmaps {
  import opened Arithmetic
  import opened Containers

  type Index = map<uint16, Container>

  ghost predicate Good(c: Container) {
    Well(c) && Low(c) != {}
  }

  ghost predicate Sound(cs: Index) {
    forall k {:trigger cs[k]} :: k in cs ==> Good(cs[k])
  }

  ghost predicate Member(cs: Index, x: int)
    requires Sound(cs)
  {
    0 <= x < 0x1_0000_0000 && x / 0x10000 in cs && x % 0x10000 in Low(cs[x / 0x10000])
  }

  ghost function Elements(cs: Index): (s: set<int>)
    requires Sound(cs)
  {
    set x: int | 0 <= x < 0x1_0000_0000 && Member(cs, x)
  }

  // What key k contributes.
  ghost function LowAt(cs: Index, k: uint16): (s: set<int>)
    requires Sound(cs)
  {
    if k in cs then Low(cs[k]) else {}
  }

  lemma SameElements(cs: Index, s: set<int>)
    requires Sound(cs) && forall x {:trigger x in s} :: x in s ==> 0 <= x < 0x1_0000_0000
    requires forall k, l {:trigger Number(k, l)} :: 0 <= k < 0x10000 && 0 <= l < 0x10000 ==>
      (l in LowAt(cs, k) <==> Number(k, l) in s)
    ensures Elements(cs) == s
  {
    forall x ensures x in Elements(cs) <==> x in s {
      if 0 <= x < 0x1_0000_0000 {
        assert Number(x / 0x10000, x % 0x10000) == x;
      }
    }
  }

  // (key << 16) | low
  function Number(k: int, l: int): (x: int)
    requires 0 <= k < 0x10000 && 0 <= l < 0x10000
    ensures 0 <= x < 0x1_0000_0000 && x / 0x10000 == k && x % 0x10000 == l
  {
    k * 0x10000 + l
  }

  // ---- Sizes ----------------------------------------------------------------

  ghost function Numbers(k: uint16, s: set<int>): (r: set<int>)
    requires forall l {:trigger l in s} :: l in s ==> 0 <= l < 0x10000
  {
    set l | l in s :: Number(k, l)
  }

  lemma Pick<T>(s: set<T>) returns (l: T)
    requires s != {}
    ensures l in s
  {
    l :| l in s;
  }

  lemma {:induction false} NumbersSize(k: uint16, s: set<int>)
    requires forall l {:trigger l in s} :: l in s ==> 0 <= l < 0x10000
    ensures |Numbers(k, s)| == |s|
  {
    if s != {} {
      var l := Pick(s);
      NumbersSize(k, s - {l});
      assert Numbers(k, s) == Numbers(k, s - {l}) + {Number(k, l)};
      assert Number(k, l) !in Numbers(k, s - {l});
    }
  }

  // The part of the index under some of its keys.
  ghost function Part(cs: Index, keys: set<uint16>): (r: Index)
    requires Sound(cs)
    ensures Sound(r)
  {
    map k | k in cs && k in keys :: cs[k]
  }

  lemma PartStep(cs: Index, keys: set<uint16>, k: uint16)
    requires Sound(cs) && k in cs && k !in keys
    ensures Elements(Part(cs, keys + {k})) == Elements(Part(cs, keys)) + Numbers(k, Low(cs[k]))
    ensures |Elements(Part(cs, keys + {k}))| == |Elements(Part(cs, keys))| + |Low(cs[k])|
  {
    var a, b := Elements(Part(cs, keys)), Numbers(k, Low(cs[k]));
    NumbersSize(k, Low(cs[k]));
    PartElements(cs, keys, k);
    assert a !! b;
  }

  lemma PartElements(cs: Index, keys: set<uint16>, k: uint16)
    requires Sound(cs) && k in cs && k !in keys
    ensures Elements(Part(cs, keys + {k})) == Elements(Part(cs, keys)) + Numbers(k, Low(cs[k]))
  {
    forall x ensures x in Elements(Part(cs, keys + {k})) <==> x in Elements(Part(cs, keys)) + Numbers(k, Low(cs[k])) {
      if 0 <= x < 0x1_0000_0000 {
        assert Number(x / 0x10000, x % 0x10000) == x;
      }
    }
  }

  // The number of elements under keys that are not left to do.
  ghost function Counted(cs: Index, keys: set<uint16>): (n: nat)
    requires Sound(cs)
  {
    |Elements(Part(cs, cs.Keys - keys))|
  }

  lemma CountedStep(cs: Index, keys: set<uint16>, k: uint16)
    requires Sound(cs) && k in keys && k in cs
    ensures Counted(cs, keys - {k}) == Counted(cs, keys) + |Low(cs[k])|
  {
    PartStep(cs, cs.Keys - keys, k);
    assert cs.Keys - (keys - {k}) == cs.Keys - keys + {k};
  }

  lemma CountedEnds(cs: Index)
    requires Sound(cs)
    ensures Counted(cs, cs.Keys) == 0 && Counted(cs, {}) == |Elements(cs)|
  {
    assert Elements(Part(cs, cs.Keys - cs.Keys)) == {};
    assert Part(cs, cs.Keys - {}) == cs;
  }

  class RoaringBitmap {
    var containers: Index

    ghost predicate Valid()
      reads this
    {
      Sound(containers)
    }

    ghost function Contents(): (s: set<int>)
      reads this
      requires Valid()
    {
      Elements(containers)
    }

    constructor ()
      ensures Valid() && Contents() == {} && containers == map[]
    {
      containers := map[];
    }

    method Add(x: uint32)
      requires Valid()
      modifies this
      ensures Valid() && Contents() == old(Contents()) + {x}
    {
      var high, low := x / 0x10000, x % 0x10000;
      var c: Container;
      if high in containers {
        c := add(containers[high], low);
      } else {
        c := ArrayContainer([low]);
        LowArray([low]);
      }
      Changed(containers, high, c, LowAt(containers, high) + {low});
      containers := containers[high := c];
      AddedElements(old(containers), containers, x);
    }

    method Contains(x: uint32) returns (found: bool)
      requires Valid()
      ensures found <==> x in Contents()
    {
      var high, low := x / 0x10000, x % 0x10000;
      if high in containers {
        found := contains(containers[high], low);
      } else {
        found := false;
      }
    }

    method Remove(x: uint32)
      requires Valid()
      modifies this
      ensures Valid() && Contents() == old(Contents()) - {x}
    {
      var high, low := x / 0x10000, x % 0x10000;
      if high in containers {
        var newContainer := remove(containers[high], low);
        var size := cardinality(newContainer);
        if size == 0 {
          containers := containers - {high};
        } else {
          Changed(containers, high, newContainer, Low(newContainer));
          containers := containers[high := newContainer];
        }
      }
      RemovedElements(old(containers), containers, x);
    }

    method Cardinality() returns (total: nat)
      requires Valid()
      ensures total == |Contents()|
    {
      total := 0;
      var keys := containers.Keys;
      CountedEnds(containers);
      while keys != {}
        invariant keys <= containers.Keys
        invariant total == Counted(containers, keys)
        decreases keys
      {
        var key :| key in keys;
        CountedStep(containers, keys, key);
        var size := cardinality(containers[key]);
        total := total + size;
        keys := keys - {key};
      }
    }

    method Union(other: RoaringBitmap) returns (result: RoaringBitmap)
      requires Valid() && other.Valid()
      ensures fresh(result) && result.Valid() && result.Contents() == Contents() + other.Contents()
    {
      result := new RoaringBitmap();
      result.containers := containers;
      var keys := other.containers.Keys;
      while keys != {}
        invariant keys <= other.containers.Keys && unchanged(this) && unchanged(other) && result.Valid()
        invariant United(containers, other.containers, keys, result.containers)
        decreases keys
      {
        var key :| key in keys;
        var c := other.containers[key];
        if key in result.containers {
          c := union(result.containers[key], c);
        }
        UnitedStep(containers, other.containers, keys, result.containers, key, c);
        result.containers := result.containers[key := c];
        keys := keys - {key};
      }
      UnitedElements(containers, other.containers, result.containers);
    }

    method Intersection(other: RoaringBitmap) returns (result: RoaringBitmap)
      requires Valid() && other.Valid()
      ensures fresh(result) && result.Valid() && result.Contents() == Contents() * other.Contents()
    {
      result := new RoaringBitmap();
      var keys := containers.Keys;
      while keys != {}
        invariant keys <= containers.Keys && unchanged(this) && unchanged(other) && result.Valid()
        invariant Sifted(containers, other.containers, keys, result.containers, true)
        decreases keys
      {
        var key :| key in keys;
        ghost var before := result.containers;
        if key in other.containers {
          var c := intersection(containers[key], other.containers[key]);
          var size := cardinality(c);
          if size > 0 {
            Changed(result.containers, key, c, Low(c));
            result.containers := result.containers[key := c];
          }
        }
        SiftedStep(containers, other.containers, keys, before, result.containers, key, true);
        keys := keys - {key};
      }
      SiftedElements(containers, other.containers, result.containers, true);
    }

    method Difference(other: RoaringBitmap) returns (result: RoaringBitmap)
      requires Valid() && other.Valid()
      ensures fresh(result) && result.Valid() && result.Contents() == Contents() - other.Contents()
    {
      result := new RoaringBitmap();
      var keys := containers.Keys;
      while keys != {}
        invariant keys <= containers.Keys && unchanged(this) && unchanged(other) && result.Valid()
        invariant Sifted(containers, other.containers, keys, result.containers, false)
        decreases keys
      {
        var key :| key in keys;
        ghost var before := result.containers;
        if key in other.containers {
          var c := difference(containers[key], other.containers[key]);
          var size := cardinality(c);
          if size > 0 {
            Changed(result.containers, key, c, Low(c));
            result.containers := result.containers[key := c];
          }
        } else {
          Changed(result.containers, key, containers[key], Low(containers[key]));
          result.containers := result.containers[key := containers[key]];
        }
        SiftedStep(containers, other.containers, keys, before, result.containers, key, false);
        keys := keys - {key};
      }
      SiftedElements(containers, other.containers, result.containers, false);
    }

    // The elements in ascending order.
    method ToArray() returns (result: seq<uint32>)
      requires Valid()
      ensures Ascending(result) && Elems(result) == Contents() && |result| == |Contents()|
    {
      result := [];
      var keys := sortKeys(containers.Keys);
      ghost var done: set<uint16> := {};
      for i := 0 to |keys|
        invariant done == Elems(keys[..i])
        invariant Ascending(result) && Elems(result) == Elements(Part(containers, done))
        invariant i < |keys| ==> forall k {:trigger result[k]} :: 0 <= k < |result| ==> result[k] < Number(keys[i], 0)
      {
        var key := keys[i];
        KeyOfIndex(containers, keys, i);
        PartStep(containers, done, key);
        var values := listing(containers[key]);
        result := appendValues(result, key, values);
        done := done + {key};
      }
      assert keys[..|keys|] == keys;
      assert Part(containers, done) == containers;
      AscendingSize(result, Contents());
    }
  }

  lemma KeyOfIndex(cs: Index, keys: seq<uint16>, i: nat)
    requires Ascending(keys) && Elems(keys) == cs.Keys && i < |keys|
    ensures keys[i] in cs && keys[i] !in Elems(keys[..i])
    ensures Elems(keys[..i + 1]) == Elems(keys[..i]) + {keys[i]}
    ensures i + 1 < |keys| ==> Number(keys[i], 0xFFFF) < Number(keys[i + 1], 0)
  {
    assert keys[i] in Elems(keys);
    ElemsStep(keys, i);
    if i + 1 < |keys| {
      assert keys[i] < keys[i + 1];
    }
  }

  // One container's share of ToArray.
  method appendValues(start: seq<uint32>, key: uint16, values: seq<uint16>) returns (result: seq<uint32>)
    requires Ascending(start) && Ascending(values)
    requires forall k {:trigger start[k]} :: 0 <= k < |start| ==> start[k] < Number(key, 0)
    ensures Ascending(result) && Elems(result) == Elems(start) + Numbers(key, Elems(values))
    ensures forall k {:trigger result[k]} :: 0 <= k < |result| ==> result[k] <= Number(key, 0xFFFF)
  {
    result := start;
    for j := 0 to |values|
      invariant Ascending(result) && Elems(result) == Elems(start) + Numbers(key, Elems(values[..j]))
      invariant forall k {:trigger result[k]} :: 0 <= k < |result| ==>
        if j < |values| then result[k] < Number(key, values[j]) else result[k] <= Number(key, 0xFFFF)
    {
      ElemsStep(values, j);
      AscendsOn(result, Number(key, values[j]));
      result := result + [Number(key, values[j])];
    }
    assert values[..|values|] == values;
  }

  // Any sort gives this result.
  method sortKeys(keys: set<uint16>) returns (sorted: seq<uint16>)
    ensures Ascending(sorted) && Elems(sorted) == keys
  {
    sorted := [];
    for k := 0 to 0x10000
      invariant Ascending(sorted) && forall i {:trigger sorted[i]} :: 0 <= i < |sorted| ==> sorted[i] < k
      invariant Elems(sorted) == set x | x in keys && x < k
    {
      if k in keys {
        AscendsOn(sorted, k);
        sorted := sorted + [k];
      }
    }
  }

  // ---- One key at a time -----------------------------------------------------

  ghost predicate Elsewhere(a: Index, b: Index, key: uint16)
    requires Sound(a) && Sound(b)
  {
    forall k: uint16 {:trigger LowAt(b, k)} :: k != key ==> LowAt(b, k) == LowAt(a, k)
  }

  lemma Changed(cs: Index, key: uint16, c: Container, s: set<int>)
    requires Sound(cs) && Well(c) && Low(c) == s != {}
    ensures Sound(cs[key := c]) && LowAt(cs[key := c], key) == s && Elsewhere(cs, cs[key := c], key)
  {
  }

  lemma AddedElements(a: Index, b: Index, x: uint32)
    requires Sound(a) && Sound(b) && Elsewhere(a, b, x / 0x10000)
    requires LowAt(b, x / 0x10000) == LowAt(a, x / 0x10000) + {x % 0x10000}
    ensures Elements(b) == Elements(a) + {x}
  {
    forall k: int, l: int {:trigger Number(k, l)} | 0 <= k < 0x10000 && 0 <= l < 0x10000
      ensures l in LowAt(b, k) <==> Number(k, l) in Elements(a) + {x}
    {
      var h: uint16 := k;
      assert Number(k, l) in Elements(a) <==> l in LowAt(a, h);
      assert k != x / 0x10000 ==> LowAt(b, h) == LowAt(a, h);
    }
    SameElements(b, Elements(a) + {x});
  }

  lemma RemovedElements(a: Index, b: Index, x: uint32)
    requires Sound(a) && Sound(b) && Elsewhere(a, b, x / 0x10000)
    requires LowAt(b, x / 0x10000) == LowAt(a, x / 0x10000) - {x % 0x10000}
    ensures Elements(b) == Elements(a) - {x}
  {
    forall k: int, l: int {:trigger Number(k, l)} | 0 <= k < 0x10000 && 0 <= l < 0x10000
      ensures l in LowAt(b, k) <==> Number(k, l) in Elements(a) - {x}
    {
      var h: uint16 := k;
      assert Number(k, l) in Elements(a) <==> l in LowAt(a, h);
      assert k != x / 0x10000 ==> LowAt(b, h) == LowAt(a, h);
    }
    SameElements(b, Elements(a) - {x});
  }

  // r holds all of a, and of b what is not under the keys still to do.
  ghost predicate United(a: Index, b: Index, keys: set<uint16>, r: Index)
    requires Sound(a) && Sound(b) && Sound(r)
  {
    && (forall k: uint16 {:trigger LowAt(r, k)} :: LowAt(r, k) == LowAt(a, k) + if k in keys then {} else LowAt(b, k))
  }

  lemma UnitedStep(a: Index, b: Index, keys: set<uint16>, r: Index, key: uint16, c: Container)
    requires Sound(a) && Sound(b) && Sound(r) && United(a, b, keys, r)
    requires key in keys && key in b && Well(c) && Low(c) == LowAt(r, key) + Low(b[key])
    ensures Sound(r[key := c]) && United(a, b, keys - {key}, r[key := c])
  {
    var q := r[key := c];
    Changed(r, key, c, Low(c));
    forall k: uint16 {:trigger LowAt(q, k)}
      ensures LowAt(q, k) == LowAt(a, k) + if k in keys - {key} then {} else LowAt(b, k)
    {
      assert LowAt(r, k) == LowAt(a, k) + if k in keys then {} else LowAt(b, k);
    }
  }

  lemma UnitedElements(a: Index, b: Index, r: Index)
    requires Sound(a) && Sound(b) && Sound(r) && United(a, b, {}, r)
    ensures Elements(r) == Elements(a) + Elements(b)
  {
    forall k: int, l: int {:trigger Number(k, l)} | 0 <= k < 0x10000 && 0 <= l < 0x10000
      ensures l in LowAt(r, k) <==> Number(k, l) in Elements(a) + Elements(b)
    {
      var h: uint16 := k;
      assert LowAt(r, h) == LowAt(a, h) + LowAt(b, h);
      assert Number(k, l) in Elements(a) <==> l in LowAt(a, h);
      assert Number(k, l) in Elements(b) <==> l in LowAt(b, h);
    }
    SameElements(r, Elements(a) + Elements(b));
  }

  ghost function Kept(s: set<int>, t: set<int>, common: bool): set<int> {
    if common then s * t else s - t
  }

  // r holds what is wanted of a, save under the keys still to do.
  ghost predicate Sifted(a: Index, b: Index, keys: set<uint16>, r: Index, common: bool)
    requires Sound(a) && Sound(b) && Sound(r)
  {
    forall k: uint16 {:trigger LowAt(r, k)} ::
      LowAt(r, k) == if k in keys then {} else Kept(LowAt(a, k), LowAt(b, k), common)
  }

  lemma SiftedStep(a: Index, b: Index, keys: set<uint16>, r: Index, q: Index, key: uint16, common: bool)
    requires Sound(a) && Sound(b) && Sound(r) && Sound(q) && Sifted(a, b, keys, r, common)
    requires key in keys && Elsewhere(r, q, key) && LowAt(q, key) == Kept(LowAt(a, key), LowAt(b, key), common)
    ensures Sifted(a, b, keys - {key}, q, common)
  {
    forall k: uint16 {:trigger LowAt(q, k)}
      ensures LowAt(q, k) == if k in keys - {key} then {} else Kept(LowAt(a, k), LowAt(b, k), common)
    {
      assert LowAt(r, k) == if k in keys then {} else Kept(LowAt(a, k), LowAt(b, k), common);
    }
  }

  lemma SiftedElements(a: Index, b: Index, r: Index, common: bool)
    requires Sound(a) && Sound(b) && Sound(r) && Sifted(a, b, {}, r, common)
    ensures Elements(r) == Kept(Elements(a), Elements(b), common)
  {
    forall k: int, l: int {:trigger Number(k, l)} | 0 <= k < 0x10000 && 0 <= l < 0x10000
      ensures l in LowAt(r, k) <==> Number(k, l) in Kept(Elements(a), Elements(b), common)
    {
      var h: uint16 := k;
      assert LowAt(r, h) == Kept(LowAt(a, h), LowAt(b, h), common);
      assert Number(k, l) in Elements(a) <==> l in LowAt(a, h);
      assert Number(k, l) in Elements(b) <==> l in LowAt(b, h);
    }
    SameElements(r, Kept(Elements(a), Elements(b), common));
  }
}
