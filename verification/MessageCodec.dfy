/** Reading one thing after another. */
module Readers {

  datatype Read<T> = Got(value: T, next: nat) | Past

  function ReadMany<T>(rd: nat -> Read<T>, o: nat, count: nat): (r: Read<seq<T>>) {
    if count == 0 then Got([], o) else
      match ReadMany(rd, o, count - 1)
      case Past => Past
      case Got(xs, next) =>
        match rd(next)
        case Past => Past
        case Got(x, after) => Got(xs + [x], after)
  }

  ghost function SizeMany<T>(size: T -> nat, xs: seq<T>): (n: nat) {
    if xs == [] then 0 else SizeMany(size, xs[..|xs| - 1]) + size(xs[|xs| - 1])
  }

  // The things stand one behind the other.
  ghost predicate ManyAt<T>(at: (nat, T) -> bool, size: T -> nat, o: nat, xs: seq<T>) {
    xs != [] ==> ManyAt(at, size, o, xs[..|xs| - 1]) && at(o + SizeMany(size, xs[..|xs| - 1]), xs[|xs| - 1])
  }

  lemma ManyGrow<T>(at: (nat, T) -> bool, size: T -> nat, o: nat, xs: seq<T>, i: nat)
    requires i < |xs| && ManyAt(at, size, o, xs[..i]) && at(o + SizeMany(size, xs[..i]), xs[i])
    ensures ManyAt(at, size, o, xs[..i + 1])
  {
    assert xs[..i + 1][..i] == xs[..i];
  }

  ghost predicate StandsAt<T>(at: (nat, T) -> bool, size: T -> nat, o: nat, xs: seq<T>, i: nat)
    requires i < |xs|
  {
    at(o + SizeMany(size, xs[..i]), xs[i])
  }

  lemma {:induction false} ManyElement<T>(at: (nat, T) -> bool, size: T -> nat, o: nat, xs: seq<T>, i: nat)
    requires ManyAt(at, size, o, xs) && i < |xs|
    ensures StandsAt(at, size, o, xs, i)
    decreases |xs|
  {
    var n := |xs| - 1;
    if i < n {
      ManyElement(at, size, o, xs[..n], i);
      assert xs[..n][..i] == xs[..i];
    }
  }

  lemma {:induction false} ManyFrom<T>(at: (nat, T) -> bool, size: T -> nat, o: nat, xs: seq<T>, k: nat)
    requires k <= |xs|
    requires forall i: nat {:trigger StandsAt(at, size, o, xs, i)} :: i < |xs| ==> StandsAt(at, size, o, xs, i)
    ensures ManyAt(at, size, o, xs[..k])
  {
    if k > 0 {
      ManyFrom(at, size, o, xs, k - 1);
      assert StandsAt(at, size, o, xs, k - 1);
      ManyGrow(at, size, o, xs, k - 1);
    }
  }

  lemma ManyWhole<T>(at: (nat, T) -> bool, size: T -> nat, o: nat, xs: seq<T>)
    requires forall i: nat {:trigger StandsAt(at, size, o, xs, i)} :: i < |xs| ==> StandsAt(at, size, o, xs, i)
    ensures ManyAt(at, size, o, xs)
  {
    ManyFrom(at, size, o, xs, |xs|);
    assert xs[..|xs|] == xs;
  }

  lemma {:induction false} SizeGrows<T>(size: T -> nat, xs: seq<T>, i: nat)
    requires i <= |xs|
    ensures SizeMany(size, xs[..i]) <= SizeMany(size, xs)
    decreases |xs|
  {
    if i < |xs| {
      SizeGrows(size, xs[..|xs| - 1], i);
      assert xs[..|xs| - 1][..i] == xs[..i];
    } else {
      assert xs[..i] == xs;
    }
  }

  lemma SizeStep<T>(size: T -> nat, xs: seq<T>, i: nat)
    requires i < |xs|
    ensures xs[..i + 1][..i] == xs[..i]
      && SizeMany(size, xs[..i + 1]) == SizeMany(size, xs[..i]) + size(xs[i]) <= SizeMany(size, xs)
  {
    assert xs[..i + 1][..i] == xs[..i];
    SizeGrows(size, xs, i + 1);
  }

  lemma {:induction false} ManyKept<T(!new)>(p: (nat, T) -> bool, q: (nat, T) -> bool, size: T -> nat, o: nat,
                                      xs: seq<T>, n: nat)
    requires forall i: nat, x: T {:trigger q(i, x)} :: p(i, x) && i + size(x) <= n ==> q(i, x)
    requires ManyAt(p, size, o, xs) && o + SizeMany(size, xs) <= n
    ensures ManyAt(q, size, o, xs)
    decreases |xs|
  {
    if xs != [] { ManyKept(p, q, size, o, xs[..|xs| - 1], n); }
  }

  lemma {:induction false} ManyBoth<T(!new)>(p: (nat, T) -> bool, q: T -> bool, both: (nat, T) -> bool, size: T -> nat,
                                      o: nat, xs: seq<T>)
    requires forall i: nat, x: T {:trigger both(i, x)} :: both(i, x) <==> p(i, x) && q(x)
    ensures ManyAt(both, size, o, xs) <==> ManyAt(p, size, o, xs) && forall i {:trigger xs[i]} :: 0 <= i < |xs| ==>
      q(xs[i])
    decreases |xs|
  {
    if xs != [] {
      var n := |xs| - 1;
      ManyBoth(p, q, both, size, o, xs[..n]);
      assert both(o + SizeMany(size, xs[..n]), xs[n]) <==> p(o + SizeMany(size, xs[..n]), xs[n]) && q(xs[n]);
      assert forall i {:trigger xs[i]} :: 0 <= i < n ==> xs[..n][i] == xs[i];
      if ManyAt(both, size, o, xs) {
        forall i {:trigger xs[i]} | 0 <= i < |xs| ensures q(xs[i]) {
          if i < n { assert xs[..n][i] == xs[i]; }
        }
      }
    }
  }

  lemma {:induction false} ManyNext<T>(rd: nat -> Read<T>, size: T -> nat, o: nat, count: nat)
    requires forall i: nat {:trigger rd(i)} :: rd(i).Got? ==> rd(i).next == i + size(rd(i).value)
    ensures var r := ReadMany(rd, o, count); r.Got? ==> |r.value| == count && r.next == o + SizeMany(size, r.value)
    decreases count
  {
    if count > 0 {
      ManyNext(rd, size, o, count - 1);
      match ReadMany(rd, o, count - 1)
      case Past =>
      case Got(xs, next) =>
        match rd(next)
        case Past =>
        case Got(x, after) => assert (xs + [x])[..|xs|] == xs;
    }
  }

  // A sequence is read where it stands, and nowhere else.
  lemma {:induction false} ManyExact<T(!new)>(rd: nat -> Read<T>, size: T -> nat, at: (nat, T) -> bool, o: nat,
                                       xs: seq<T>)
    requires forall i: nat {:trigger rd(i)} :: rd(i).Got? ==> rd(i).next == i + size(rd(i).value)
    requires forall i: nat, x: T {:trigger at(i, x)} :: at(i, x) <==> rd(i) == Got(x, i + size(x))
    ensures ReadMany(rd, o, |xs|) == Got(xs, o + SizeMany(size, xs)) <==> ManyAt(at, size, o, xs)
    decreases |xs|
  {
    if xs != [] {
      ManyExact(rd, size, at, o, xs[..|xs| - 1]);
      ExactMore(rd, size, at, o, xs[..|xs| - 1], xs[|xs| - 1]);
      assert xs == xs[..|xs| - 1] + [xs[|xs| - 1]];
    }
  }

  lemma ExactMore<T(!new)>(rd: nat -> Read<T>, size: T -> nat, at: (nat, T) -> bool, o: nat, front: seq<T>, x: T)
    requires forall i: nat {:trigger rd(i)} :: rd(i).Got? ==> rd(i).next == i + size(rd(i).value)
    requires forall i: nat, x: T {:trigger at(i, x)} :: at(i, x) <==> rd(i) == Got(x, i + size(x))
    requires ReadMany(rd, o, |front|) == Got(front, o + SizeMany(size, front)) <==> ManyAt(at, size, o, front)
    ensures ReadMany(rd, o, |front| + 1) == Got(front + [x], o + SizeMany(size, front + [x])) <==>
      ManyAt(at, size, o, front + [x])
  {
    ManyNext(rd, size, o, |front|);
    Instances(rd, size, at, o, front, x);
    ExactLast(rd, size, at, o, front, x);
  }

  // What the two conditions say of one more thing behind front.
  lemma Instances<T(!new)>(rd: nat -> Read<T>, size: T -> nat, at: (nat, T) -> bool, o: nat, front: seq<T>, x: T)
    requires forall i: nat {:trigger rd(i)} :: rd(i).Got? ==> rd(i).next == i + size(rd(i).value)
    requires forall i: nat, x: T {:trigger at(i, x)} :: at(i, x) <==> rd(i) == Got(x, i + size(x))
    ensures var r := ReadMany(rd, o, |front|);
      r.Got? && rd(r.next).Got? ==> rd(r.next).next == r.next + size(rd(r.next).value)
    ensures var end := o + SizeMany(size, front); at(end, x) <==> rd(end) == Got(x, end + size(x))
  {
  }

  lemma ExactLast<T>(rd: nat -> Read<T>, size: T -> nat, at: (nat, T) -> bool, o: nat, front: seq<T>, x: T)
    requires var r := ReadMany(rd, o, |front|);
      && (r.Got? ==> |r.value| == |front| && r.next == o + SizeMany(size, r.value))
      && (r.Got? && rd(r.next).Got? ==> rd(r.next).next == r.next + size(rd(r.next).value))
    requires ReadMany(rd, o, |front|) == Got(front, o + SizeMany(size, front)) <==> ManyAt(at, size, o, front)
    requires var end := o + SizeMany(size, front); at(end, x) <==> rd(end) == Got(x, end + size(x))
    ensures ReadMany(rd, o, |front| + 1) == Got(front + [x], o + SizeMany(size, front + [x])) <==>
      ManyAt(at, size, o, front + [x])
  {
    ReadStep(rd, size, o, front, x);
    AtStep(at, size, o, front, x);
  }

  lemma AtStep<T>(at: (nat, T) -> bool, size: T -> nat, o: nat, front: seq<T>, x: T)
    ensures ManyAt(at, size, o, front + [x]) <==> ManyAt(at, size, o, front) && at(o + SizeMany(size, front), x)
    ensures SizeMany(size, front + [x]) == SizeMany(size, front) + size(x)
  {
    assert (front + [x])[..|front|] == front;
  }

  // A sequence is read when its front is, and its last one behind it.
  lemma ReadStep<T>(rd: nat -> Read<T>, size: T -> nat, o: nat, front: seq<T>, x: T)
    requires var r := ReadMany(rd, o, |front|);
      && (r.Got? ==> |r.value| == |front| && r.next == o + SizeMany(size, r.value))
      && (r.Got? && rd(r.next).Got? ==> rd(r.next).next == r.next + size(rd(r.next).value))
    ensures var end := o + SizeMany(size, front);
      ReadMany(rd, o, |front| + 1) == Got(front + [x], end + size(x)) <==>
        ReadMany(rd, o, |front|) == Got(front, end) && rd(end) == Got(x, end + size(x))
  {
    var r := ReadMany(rd, o, |front|);
    if r.Got? && rd(r.next).Got? {
      LastEqual(r.value, rd(r.next).value, front, x);
    }
  }

  lemma LastEqual<T>(a: seq<T>, x: T, b: seq<T>, y: T)
    requires |a| == |b|
    ensures a + [x] == b + [y] <==> a == b && x == y
  {
    assert (a + [x])[..|a|] == a && (b + [y])[..|b|] == b;
    assert (a + [x])[|a|] == x && (b + [y])[|b|] == y;
  }

  lemma OneMore<T>(rd: nat -> Read<T>, o: nat, i: nat)
    requires ReadMany(rd, o, i).Got?
    ensures var r := ReadMany(rd, o, i);
      ReadMany(rd, o, i + 1) == if rd(r.next).Past? then Past else Got(r.value + [rd(r.next).value], rd(r.next).next)
  {
  }

  lemma {:induction false} PastStays<T>(rd: nat -> Read<T>, o: nat, i: nat, n: nat)
    requires i <= n && ReadMany(rd, o, i).Past?
    ensures ReadMany(rd, o, n).Past?
    decreases n
  {
    if i < n { PastStays(rd, o, i, n - 1); }
  }
}

/** The binary form of a message in shared memory. */
module MessageCodec {
  import opened Arithmetic
  import opened Readers

  type byte = x: int | 0 <= x < 256
  type bytes = seq<byte>

  type int32 = x: int | -0x8000_0000 <= x < 0x8000_0000
  type int64 = x: int | -0x8000_0000_0000_0000 <= x < 0x8000_0000_0000_0000

  datatype Header = Header(key: bytes, value: bytes)

  datatype Message = Message(topic: bytes, key: bytes, value: bytes, partition: int32, offset: int64, timestamp: int64,
                             headers: seq<Header>)

  // A read past the end of the data panics.
  datatype Outcome = Decoded(msg: Message) | TooShort | Panic

  // ---- Little-endian numbers ------------------------------------------------------

  function Pow256(n: nat): (p: nat)
    ensures p >= 1
  {
    if n == 0 then 1 else 256 * Pow256(n - 1)
  }

  // The n low bytes of v, in two's complement.
  function Little(v: int, n: nat): (b: bytes)
    ensures |b| == n
    decreases n, v
  {
    if n == 0 then [] else [v % 256] + Little(v / 256, n - 1)
  }

  function Number(b: bytes): (v: nat)
    ensures v < Pow256(|b|)
  {
    if b == [] then 0 else b[0] + 256 * Number(b[1..])
  }

  // Numbers of 2^bits - 1 and less stand for themselves, the rest for negative ones.
  function Signed(v: nat, n: nat): (s: int) {
    if 2 * v < Pow256(n) then v else v - Pow256(n)
  }

  lemma {:induction false} LittleNumber(v: int, n: nat)
    requires 0 <= v < Pow256(n)
    ensures Number(Little(v, n)) == v
    decreases n
  {
    if n > 0 {
      LittleNumber(v / 256, n - 1);
      assert Little(v, n)[1..] == Little(v / 256, n - 1);
    }
  }

  lemma {:induction false} LittleWraps(v: int, n: nat)
    ensures Little(v + Pow256(n), n) == Little(v, n)
    decreases n
  {
    if n > 0 {
      LittleWraps(v / 256, n - 1);
      assert (v + 256 * Pow256(n - 1)) / 256 == v / 256 + Pow256(n - 1) && (v + 256 * Pow256(n - 1)) % 256 == v % 256;
    }
  }

  lemma LittleSigned(v: int, n: nat)
    requires n >= 1 && -1 * Pow256(n) <= 2 * v < Pow256(n)
    ensures Signed(Number(Little(v, n)), n) == v
  {
    if v >= 0 {
      LittleNumber(v, n);
    } else {
      LittleWraps(v, n);
      LittleNumber(v + Pow256(n), n);
    }
  }

  // Byte i carries the weight 256^i, also in two's complement.
  lemma {:induction false} LittleBytes(v: int, n: nat, i: nat)
    requires i < n
    ensures Little(v, n)[i] == v / Pow256(i) % 256
    decreases n
  {
    if i > 0 {
      LittleBytes(v / 256, n - 1, i - 1);
      DivTwice(v, 256, Pow256(i - 1));
    }
  }

  lemma DivTwice(v: int, a: int, b: int)
    requires a >= 1 && b >= 1
    ensures v / a / b == v / (a * b)
  {
    var q, r, p := v / a / b, v / a % b, v % a;
    assert v == a * (v / a) + p && v / a == b * q + r;
    assert v == a * b * q + (a * r + p) by { Spread(a, b, q, r); }
    assert 0 <= a * r + p < a * b by { Fits2(a, b, r, p); }
    assert v == q * (a * b) + (a * r + p);
    QuotientUnique(v / (a * b), v % (a * b), q, a * r + p, a * b);
  }

  lemma Spread(a: int, b: int, q: int, r: int)
    ensures a * (b * q + r) == a * b * q + a * r
  {
  }

  lemma Fits2(a: int, b: int, r: int, p: int)
    requires 0 <= r < b && 0 <= p < a
    ensures 0 <= a * r + p < a * b
  {
    assert a * (b - 1 - r) >= 0;
    assert a * (b - 1 - r) == a * b - a - a * r;
  }

  lemma Widths()
    ensures Pow256(4) == 0x1_0000_0000 && Pow256(8) == 0x1_0000_0000_0000_0000
  {
    assert Pow256(1) == 256 && Pow256(2) == 0x1_0000 && Pow256(3) == 0x100_0000 && Pow256(4) == 0x1_0000_0000;
    assert Pow256(5) == 0x100_0000_0000 && Pow256(6) == 0x1_0000_0000_0000 && Pow256(7) == 0x100_0000_0000_0000;
  }

  // ---- The layout --------------------------------------------------------------------

  // b stands in data at o.
  ghost predicate At(data: bytes, o: nat, b: bytes) {
    o + |b| <= |data| && forall i {:trigger b[i]} :: 0 <= i < |b| ==> data[o + i] == b[i]
  }

  lemma AtSlice(data: bytes, o: nat, b: bytes)
    ensures At(data, o, b) <==> o + |b| <= |data| && data[o..o + |b|] == b
  {
    if o + |b| <= |data| && data[o..o + |b|] == b {
      forall i {:trigger b[i]} | 0 <= i < |b| ensures data[o + i] == b[i] { assert data[o..o + |b|][i] == data[o + i]; }
    }
  }

  // A length and that many bytes.
  ghost predicate ChunkAt(data: bytes, o: nat, b: bytes) {
    At(data, o, Little(|b|, 4)) && At(data, o + 4, b)
  }

  ghost predicate HeaderAt(data: bytes, o: nat, h: Header) {
    ChunkAt(data, o, h.key) && ChunkAt(data, o + 4 + |h.key|, h.value)
  }

  function HeaderSize(h: Header): (n: nat) { 8 + |h.key| + |h.value| }

  ghost function HeadersSize(hs: seq<Header>): (n: nat) {
    SizeMany(HeaderSize, hs)
  }

  ghost function HeaderPlace(data: bytes): (nat, Header) -> bool {
    (o: nat, h: Header) => HeaderAt(data, o, h)
  }

  ghost predicate HeadersAt(data: bytes, o: nat, hs: seq<Header>) {
    ManyAt(HeaderPlace(data), HeaderSize, o, hs)
  }

  datatype Three = Three(topic: bytes, key: bytes, value: bytes)

  datatype Fixed = Fixed(partition: int32, offset: int64, timestamp: int64, count: nat)

  ghost predicate TextsAt(data: bytes, t: Three) {
    ChunkAt(data, 0, t.topic) && HeaderAt(data, 4 + |t.topic|, Header(t.key, t.value))
  }

  ghost predicate FixedAt(data: bytes, o: nat, f: Fixed) {
    && At(data, o, Little(f.partition, 4)) && At(data, o + 4, Little(f.offset, 8))
    && At(data, o + 12, Little(f.timestamp, 8)) && At(data, o + 20, Little(f.count, 4))
  }

  function ThreeOf(m: Message): (t: Three) {
    Three(m.topic, m.key, m.value)
  }

  function FixedOf(m: Message): (f: Fixed) {
    Fixed(m.partition, m.offset, m.timestamp, |m.headers|)
  }

  function TextsSize(t: Three): (n: nat) {
    12 + |t.topic| + |t.key| + |t.value|
  }

  ghost function Size(m: Message): (n: nat) {
    TextsSize(ThreeOf(m)) + 24 + HeadersSize(m.headers)
  }

  // The message starts at the beginning of the data.
  ghost predicate MessageAt(data: bytes, m: Message) {
    var o := TextsSize(ThreeOf(m));
    TextsAt(data, ThreeOf(m)) && FixedAt(data, o, FixedOf(m)) && HeadersAt(data, o + 24, m.headers)
  }

  // ---- Writing -----------------------------------------------------------------------

  // The two agree on the first n bytes.
  ghost predicate Agree(a: bytes, b: bytes, n: nat) {
    n <= |a| && n <= |b| && forall i {:trigger b[i]} :: 0 <= i < n ==> a[i] == b[i]
  }

  lemma AtKept(a: bytes, b: bytes, n: nat, o: nat, c: bytes)
    requires Agree(a, b, n) && o + |c| <= n && At(a, o, c)
    ensures At(b, o, c)
  {
  }

  lemma ChunkKept(a: bytes, b: bytes, n: nat, o: nat, c: bytes)
    requires Agree(a, b, n) && o + 4 + |c| <= n && ChunkAt(a, o, c)
    ensures ChunkAt(b, o, c)
  {
    AtKept(a, b, n, o, Little(|c|, 4));
    AtKept(a, b, n, o + 4, c);
  }

  lemma TextsKept(a: bytes, b: bytes, n: nat, t: Three)
    requires Agree(a, b, n) && TextsSize(t) <= n && TextsAt(a, t)
    ensures TextsAt(b, t)
  {
    ChunkKept(a, b, n, 0, t.topic);
    HeaderKept(a, b, n, 4 + |t.topic|, Header(t.key, t.value));
  }

  lemma FixedKept(a: bytes, b: bytes, n: nat, o: nat, f: Fixed)
    requires Agree(a, b, n) && o + 24 <= n && FixedAt(a, o, f)
    ensures FixedAt(b, o, f)
  {
    AtKept(a, b, n, o, Little(f.partition, 4));
    AtKept(a, b, n, o + 4, Little(f.offset, 8));
    AtKept(a, b, n, o + 12, Little(f.timestamp, 8));
    AtKept(a, b, n, o + 20, Little(f.count, 4));
  }

  lemma HeaderKept(a: bytes, b: bytes, n: nat, o: nat, h: Header)
    requires Agree(a, b, n) && o + HeaderSize(h) <= n && HeaderAt(a, o, h)
    ensures HeaderAt(b, o, h)
  {
    ChunkKept(a, b, n, o, h.key);
    ChunkKept(a, b, n, o + 4 + |h.key|, h.value);
  }

  lemma HeadersKept(a: bytes, b: bytes, n: nat, o: nat, hs: seq<Header>)
    requires Agree(a, b, n) && o + HeadersSize(hs) <= n && HeadersAt(a, o, hs)
    ensures HeadersAt(b, o, hs)
  {
    var p, q := HeaderPlace(a), HeaderPlace(b);
    forall i: nat, h: Header {:trigger q(i, h)} | p(i, h) && i + HeaderSize(h) <= n ensures q(i, h) {
      HeaderKept(a, b, n, i, h);
    }
    ManyKept(p, q, HeaderSize, o, hs, n);
  }

  method copy(data: array<byte>, offset: nat, bs: bytes) returns (next: nat)
    requires offset + |bs| <= data.Length
    modifies data
    ensures next == offset + |bs| && At(data[..], offset, bs) && Agree(old(data[..]), data[..], offset)
  {
    for i := 0 to |bs|
      invariant forall k {:trigger bs[k]} :: 0 <= k < i ==> data[offset + k] == bs[k]
      invariant forall k {:trigger data[k]} :: 0 <= k < offset ==> data[k] == old(data[k])
    {
      data[offset + i] := bs[i];
    }
    next := offset + |bs|;
  }

  method put(data: array<byte>, offset: nat, v: int, n: nat) returns (next: nat)
    requires offset + n <= data.Length
    modifies data
    ensures next == offset + n && At(data[..], offset, Little(v, n)) && Agree(old(data[..]), data[..], offset)
  {
    next := copy(data, offset, Little(v, n));
  }

  lemma AgreeTwice(a: bytes, b: bytes, c: bytes, n: nat, m: nat)
    requires Agree(a, b, n) && Agree(b, c, m) && n <= m
    ensures Agree(a, c, n)
  {
    forall i {:trigger c[i]} | 0 <= i < n ensures a[i] == c[i] { assert a[i] == b[i] && b[i] == c[i]; }
  }

  method putChunk(data: array<byte>, offset: nat, bs: bytes) returns (next: nat)
    requires offset + 4 + |bs| <= data.Length
    modifies data
    ensures next == offset + 4 + |bs| && ChunkAt(data[..], offset, bs) && Agree(old(data[..]), data[..], offset)
  {
    next := put(data, offset, |bs|, 4);
    ghost var d := data[..];
    next := copy(data, next, bs);
    AtKept(d, data[..], offset + 4, offset, Little(|bs|, 4));
    AgreeTwice(old(data[..]), d, data[..], offset, offset + 4);
  }

  method putTexts(data: array<byte>, t: Three) returns (offset: nat)
    requires TextsSize(t) <= data.Length
    modifies data
    ensures offset == TextsSize(t) && TextsAt(data[..], t)
  {
    offset := putChunk(data, 0, t.topic);
    ghost var d := data[..];
    offset := putChunk(data, offset, t.key);
    ChunkKept(d, data[..], 4 + |t.topic|, 0, t.topic);
    d := data[..];
    ghost var n := offset;
    offset := putChunk(data, offset, t.value);
    ChunkKept(d, data[..], n, 0, t.topic);
    ChunkKept(d, data[..], n, 4 + |t.topic|, t.key);
  }

  method putFixed(data: array<byte>, start: nat, f: Fixed) returns (offset: nat)
    requires start + 24 <= data.Length
    modifies data
    ensures offset == start + 24 && FixedAt(data[..], start, f) && Agree(old(data[..]), data[..], start)
  {
    ghost var d0 := data[..];
    offset := put(data, start, f.partition, 4);
    ghost var d1 := data[..];
    offset := put(data, offset, f.offset, 8);
    ghost var d2 := data[..];
    offset := put(data, offset, f.timestamp, 8);
    ghost var d3 := data[..];
    offset := put(data, offset, f.count, 4);
    ghost var d4 := data[..];
    AgreeTwice(d2, d3, d4, start + 12, start + 20);
    AgreeTwice(d1, d2, d4, start + 4, start + 12);
    AgreeTwice(d0, d1, d4, start, start + 4);
    AtKept(d1, d4, start + 4, start, Little(f.partition, 4));
    AtKept(d2, d4, start + 12, start + 4, Little(f.offset, 8));
    AtKept(d3, d4, start + 20, start + 12, Little(f.timestamp, 8));
  }

  method putHeader(data: array<byte>, start: nat, h: Header) returns (offset: nat)
    requires start + HeaderSize(h) <= data.Length
    modifies data
    ensures offset == start + HeaderSize(h) && HeaderAt(data[..], start, h) && Agree(old(data[..]), data[..], start)
  {
    offset := putChunk(data, start, h.key);
    ghost var d := data[..];
    offset := putChunk(data, offset, h.value);
    ChunkKept(d, data[..], start + 4 + |h.key|, start, h.key);
    AgreeTwice(old(data[..]), d, data[..], start, start + 4 + |h.key|);
  }

  // One more header behind those that stand.
  lemma HeadersGrow(a: bytes, b: bytes, start: nat, hs: seq<Header>, i: nat)
    requires i < |hs| && HeadersAt(a, start, hs[..i]) && start + HeadersSize(hs[..i]) <= |a|
    requires Agree(a, b, start + HeadersSize(hs[..i])) && HeaderAt(b, start + HeadersSize(hs[..i]), hs[i])
    ensures HeadersAt(b, start, hs[..i + 1])
  {
    HeadersKept(a, b, start + HeadersSize(hs[..i]), start, hs[..i]);
    ManyGrow(HeaderPlace(b), HeaderSize, start, hs, i);
  }

  method putHeaders(data: array<byte>, start: nat, hs: seq<Header>) returns (offset: nat)
    requires start + HeadersSize(hs) <= data.Length
    modifies data
    ensures offset == start + HeadersSize(hs) && HeadersAt(data[..], start, hs) && Agree(old(data[..]), data[..], start)
  {
    offset := start;
    for i := 0 to |hs|
      invariant offset == start + HeadersSize(hs[..i]) && HeadersAt(data[..], start, hs[..i])
      invariant Agree(old(data[..]), data[..], start)
    {
      SizeStep(HeaderSize, hs, i);
      ghost var d, n := data[..], offset;
      offset := putHeader(data, offset, hs[i]);
      HeadersGrow(d, data[..], start, hs, i);
      AgreeTwice(old(data[..]), d, data[..], start, n);
    }
    assert hs[..|hs|] == hs;
  }

  // The first loop of serializeMessage.
  method messageSize(m: Message) returns (size: nat)
    ensures size == Size(m)
  {
    size := 4 + |m.topic| + 4 + |m.key| + 4 + |m.value| + 4 + 8 + 8 + 4;
    for i := 0 to |m.headers|
      invariant size == TextsSize(ThreeOf(m)) + 24 + HeadersSize(m.headers[..i])
    {
      SizeStep(HeaderSize, m.headers, i);
      size := size + 4 + |m.headers[i].key| + 4 + |m.headers[i].value|;
    }
    assert m.headers[..|m.headers|] == m.headers;
  }

  // The size is computed first and then filled exactly.
  method serializeMessage(m: Message) returns (data: array<byte>)
    ensures fresh(data) && data.Length == Size(m) && MessageAt(data[..], m)
  {
    var size := messageSize(m);
    data := new byte[size](i => 0);
    var offset := putTexts(data, ThreeOf(m));
    ghost var d, n := data[..], offset;
    offset := putFixed(data, offset, FixedOf(m));
    TextsKept(d, data[..], n, ThreeOf(m));
    d := data[..];
    offset := putHeaders(data, offset, m.headers);
    TextsKept(d, data[..], n + 24, ThreeOf(m));
    FixedKept(d, data[..], n + 24, n, FixedOf(m));
  }

  // ---- Reading ---------------------------------------------------------------------------

  function ReadNumber(data: bytes, o: nat, n: nat): (r: Read<nat>) {
    if o + n <= |data| then Got(Number(data[o..o + n]), o + n) else Past
  }

  function ReadChunk(data: bytes, o: nat): (r: Read<bytes>) {
    match ReadNumber(data, o, 4)
    case Past => Past
    case Got(len, next) => if next + len <= |data| then Got(data[next..next + len], next + len) else Past
  }

  function ReadHeader(data: bytes, o: nat): (r: Read<Header>) {
    match ReadChunk(data, o)
    case Past => Past
    case Got(key, next) =>
      match ReadChunk(data, next)
      case Past => Past
      case Got(value, after) => Got(Header(key, value), after)
  }

  function HeaderReader(data: bytes): nat -> Read<Header> {
    (o: nat) => ReadHeader(data, o)
  }

  function ReadHeaders(data: bytes, o: nat, count: nat): (r: Read<seq<Header>>) {
    ReadMany(HeaderReader(data), o, count)
  }

  function ReadFixed(data: bytes, o: nat): (r: Read<Fixed>) {
    match ReadNumber(data, o, 4)
    case Past => Past
    case Got(p, o1) =>
      match ReadNumber(data, o1, 8)
      case Past => Past
      case Got(off, o2) =>
        match ReadNumber(data, o2, 8)
        case Past => Past
        case Got(t, o3) =>
          match ReadNumber(data, o3, 4)
          case Past => Past
          case Got(count, o4) =>
            Widths();
            Got(Fixed(Signed(p, 4), Signed(off, 8), Signed(t, 8), count), o4)
  }

  function ReadTexts(data: bytes, o: nat): (r: Read<Three>) {
    match ReadChunk(data, o)
    case Past => Past
    case Got(topic, o1) =>
      match ReadHeader(data, o1)
      case Past => Past
      case Got(h, o2) => Got(Three(topic, h.key, h.value), o2)
  }

  function ReadTail(data: bytes, o: nat): (r: Read<(Fixed, seq<Header>)>) {
    match ReadFixed(data, o)
    case Past => Past
    case Got(f, o1) =>
      match ReadHeaders(data, o1, f.count)
      case Past => Past
      case Got(hs, o2) => Got((f, hs), o2)
  }

  // Where a message is read from data, or why none is.
  ghost function Decode(data: bytes): (r: Outcome) {
    if |data| < 24 then TooShort else
      match ReadTexts(data, 0)
      case Past => Panic
      case Got(t, o1) =>
        match ReadTail(data, o1)
        case Past => Panic
        case Got(p, _) => Decoded(Message(t.topic, t.key, t.value, p.0.partition, p.0.offset, p.0.timestamp, p.1))
  }

  // ---- Reading what was written ------------------------------------------------------------

  lemma {:induction false} NumberLittle(b: bytes)
    ensures Little(Number(b), |b|) == b
  {
    if b != [] {
      NumberLittle(b[1..]);
      assert (b[0] + 256 * Number(b[1..])) / 256 == Number(b[1..]) && (b[0] + 256 * Number(b[1..])) % 256 == b[0];
    }
  }

  lemma NumberExact(data: bytes, o: nat, v: nat, n: nat)
    requires v < Pow256(n)
    ensures ReadNumber(data, o, n) == Got(v, o + n) <==> At(data, o, Little(v, n))
  {
    LittleNumber(v, n);
    AtSlice(data, o, Little(v, n));
    if o + n <= |data| { NumberLittle(data[o..o + n]); }
  }

  ghost predicate Short(n: nat) { n < 0x1_0000_0000 }

  lemma ChunkExact(data: bytes, o: nat, b: bytes)
    ensures ReadChunk(data, o) == Got(b, o + 4 + |b|) <==> ChunkAt(data, o, b) && Short(|b|)
  {
    Widths();
    AtSlice(data, o + 4, b);
    if Short(|b|) { NumberExact(data, o, |b|, 4); }
  }

  lemma ChunkNext(data: bytes, o: nat)
    ensures ReadChunk(data, o).Got? ==> ReadChunk(data, o).next == o + 4 + |ReadChunk(data, o).value|
  {
  }

  lemma HeaderNext(data: bytes, o: nat)
    ensures ReadHeader(data, o).Got? ==> ReadHeader(data, o).next == o + HeaderSize(ReadHeader(data, o).value)
  {
    ChunkNext(data, o);
    if ReadChunk(data, o).Got? { ChunkNext(data, ReadChunk(data, o).next); }
  }

  ghost predicate ShortHeader(h: Header) { Short(|h.key|) && Short(|h.value|) }

  // A header is read when its two chunks are.
  lemma HeaderChunks(data: bytes, o: nat, h: Header)
    ensures ReadHeader(data, o) == Got(h, o + HeaderSize(h)) <==>
      && ReadChunk(data, o) == Got(h.key, o + 4 + |h.key|)
      && ReadChunk(data, o + 4 + |h.key|) == Got(h.value, o + 4 + |h.key| + 4 + |h.value|)
  {
    ChunkNext(data, o);
  }

  lemma HeaderExact(data: bytes, o: nat, h: Header)
    ensures ReadHeader(data, o) == Got(h, o + HeaderSize(h)) <==> HeaderAt(data, o, h) && ShortHeader(h)
  {
    var key, value := HeaderParts(data, o, h);
    HeaderChunks(data, o, h);
  }

  // Whether the key is laid out and can be read, and whether the value is.
  lemma HeaderParts(data: bytes, o: nat, h: Header) returns (a: bool, b: bool)
    ensures HeaderAt(data, o, h) && ShortHeader(h) <==> a && b
    ensures ReadChunk(data, o) == Got(h.key, o + 4 + |h.key|) <==> a
    ensures ReadChunk(data, o + 4 + |h.key|) == Got(h.value, o + 4 + |h.key| + 4 + |h.value|) <==> b
  {
    var p := o + 4 + |h.key|;
    a := ChunkFound(data, o, h.key);
    b := ChunkFound(data, p, h.value);
    assert HeaderAt(data, o, h) <==> ChunkAt(data, o, h.key) && ChunkAt(data, p, h.value);
  }

  lemma ChunkFound(data: bytes, o: nat, b: bytes) returns (found: bool)
    ensures ChunkAt(data, o, b) && Short(|b|) <==> found
    ensures ReadChunk(data, o) == Got(b, o + 4 + |b|) <==> found
  {
    found := ChunkAt(data, o, b) && Short(|b|);
    ChunkExact(data, o, b);
  }

  ghost predicate ShortHeaders(hs: seq<Header>) {
    forall i {:trigger hs[i]} :: 0 <= i < |hs| ==> ShortHeader(hs[i])
  }

  lemma HeadersNext(data: bytes, o: nat, count: nat)
    ensures ReadHeaders(data, o, count).Got? ==>
      |ReadHeaders(data, o, count).value| == count
        && ReadHeaders(data, o, count).next == o + HeadersSize(ReadHeaders(data, o, count).value)
  {
    var rd := HeaderReader(data);
    forall i: nat {:trigger rd(i)} | rd(i).Got? ensures rd(i).next == i + HeaderSize(rd(i).value) {
      HeaderNext(data, i);
    }
    ManyNext(rd, HeaderSize, o, count);
  }

  lemma HeadersExact(data: bytes, o: nat, hs: seq<Header>)
    ensures ReadHeaders(data, o, |hs|) == Got(hs, o + HeadersSize(hs)) <==> HeadersAt(data, o, hs) && ShortHeaders(hs)
  {
    var rd, p := HeaderReader(data), HeaderPlace(data);
    var at := (i: nat, h: Header) => p(i, h) && ShortHeader(h);
    forall i: nat {:trigger rd(i)} | rd(i).Got? ensures rd(i).next == i + HeaderSize(rd(i).value) {
      HeaderNext(data, i);
    }
    forall i: nat, h: Header {:trigger at(i, h)} ensures at(i, h) <==> rd(i) == Got(h, i + HeaderSize(h)) {
      HeaderExact(data, i, h);
    }
    ManyExact(rd, HeaderSize, at, o, hs);
    ManyBoth(p, ShortHeader, at, HeaderSize, o, hs);
  }

  // A number and its signed reading have the same bytes.
  lemma SignedLittle(v: nat, n: nat)
    requires v < Pow256(n)
    ensures Little(Signed(v, n), n) == Little(v, n)
  {
    if 2 * v >= Pow256(n) { LittleWraps(v - Pow256(n), n); }
  }

  lemma SignedBack(b: bytes)
    ensures Little(Signed(Number(b), |b|), |b|) == b
  {
    SignedLittle(Number(b), |b|);
    NumberLittle(b);
  }

  lemma SignedExact(data: bytes, o: nat, v: int, n: nat)
    requires n >= 1 && -1 * Pow256(n) <= 2 * v < Pow256(n)
    ensures At(data, o, Little(v, n)) <==> ReadNumber(data, o, n).Got? && Signed(ReadNumber(data, o, n).value, n) == v
  {
    LittleSigned(v, n);
    AtSlice(data, o, Little(v, n));
    if o + n <= |data| { SignedBack(data[o..o + n]); }
  }

  lemma CountExact(data: bytes, o: nat, count: nat)
    ensures At(data, o, Little(count, 4)) && Short(count) <==> ReadNumber(data, o, 4) == Got(count, o + 4)
  {
    Widths();
    if Short(count) { NumberExact(data, o, count, 4); }
  }

  lemma FixedExact(data: bytes, o: nat, f: Fixed)
    ensures FixedAt(data, o, f) && Short(f.count) <==> ReadFixed(data, o) == Got(f, o + 24)
  {
    Widths();
    SignedExact(data, o, f.partition, 4);
    SignedExact(data, o + 4, f.offset, 8);
    SignedExact(data, o + 12, f.timestamp, 8);
    CountExact(data, o + 20, f.count);
  }

  lemma FixedNext(data: bytes, o: nat)
    ensures ReadFixed(data, o).Got? ==> ReadFixed(data, o).next == o + 24 && o + 24 <= |data|
  {
  }

  ghost predicate ShortTexts(t: Three) { Short(|t.topic|) && Short(|t.key|) && Short(|t.value|) }

  lemma TextsExact(data: bytes, t: Three)
    ensures TextsAt(data, t) && ShortTexts(t) <==> ReadTexts(data, 0) == Got(t, TextsSize(t))
  {
    ChunkExact(data, 0, t.topic);
    ChunkNext(data, 0);
    HeaderExact(data, 4 + |t.topic|, Header(t.key, t.value));
  }

  lemma TextsNext(data: bytes)
    ensures ReadTexts(data, 0).Got? ==> ReadTexts(data, 0).next == TextsSize(ReadTexts(data, 0).value)
  {
    ChunkNext(data, 0);
    if ReadChunk(data, 0).Got? { HeaderNext(data, ReadChunk(data, 0).next); }
  }

  // Every length and the number of headers can be written in 32 bits.
  ghost predicate Fits(m: Message) {
    ShortTexts(ThreeOf(m)) && ShortHeaders(m.headers) && Short(|m.headers|)
  }

  // Decoding finds a message exactly where it is laid out, and then no other; what follows it is ignored.
  lemma DecodeExact(data: bytes, m: Message)
    requires |data| >= 24
    ensures Decode(data) == Decoded(m) <==> MessageAt(data, m) && Fits(m)
  {
    var texts, tail := Parts(data, m);
    JoinParts(data, m, texts, tail);
  }

  // Whether the texts are laid out and can be read, and whether the rest is.
  lemma Parts(data: bytes, m: Message) returns (a: bool, b: bool)
    ensures MessageAt(data, m) && Fits(m) <==> a && b
    ensures ReadTexts(data, 0) == Got(ThreeOf(m), TextsSize(ThreeOf(m))) <==> a
    ensures b <==>
      && ReadTail(data, TextsSize(ThreeOf(m))).Got?
      && ReadTail(data, TextsSize(ThreeOf(m))).value == (FixedOf(m), m.headers)
  {
    var o := TextsSize(ThreeOf(m));
    a := TextsAt(data, ThreeOf(m)) && ShortTexts(ThreeOf(m));
    b := FixedAt(data, o, FixedOf(m)) && Short(|m.headers|) && HeadersAt(data, o + 24, m.headers)
      && ShortHeaders(m.headers);
    LayoutParts(data, m);
    TextsExact(data, ThreeOf(m));
    TailExact(data, o, FixedOf(m), m.headers);
  }

  lemma LayoutParts(data: bytes, m: Message)
    ensures var o := TextsSize(ThreeOf(m));
      MessageAt(data, m) && Fits(m) <==>
        && TextsAt(data, ThreeOf(m)) && ShortTexts(ThreeOf(m))
        && FixedAt(data, o, FixedOf(m)) && Short(|m.headers|) && HeadersAt(data, o + 24, m.headers)
        && ShortHeaders(m.headers)
  {
  }

  // The parts are read exactly when a and b hold.
  lemma JoinParts(data: bytes, m: Message, a: bool, b: bool)
    requires |data| >= 24
    requires ReadTexts(data, 0) == Got(ThreeOf(m), TextsSize(ThreeOf(m))) <==> a
    requires b <==>
      && ReadTail(data, TextsSize(ThreeOf(m))).Got?
      && ReadTail(data, TextsSize(ThreeOf(m))).value == (FixedOf(m), m.headers)
    ensures Decode(data) == Decoded(m) <==> a && b
  {
    TextsNext(data);
    TailCount(data, TextsSize(ThreeOf(m)));
  }

  lemma TailCount(data: bytes, o: nat)
    ensures ReadTail(data, o).Got? ==> ReadTail(data, o).value.0.count == |ReadTail(data, o).value.1|
  {
    if ReadFixed(data, o).Got? { HeadersNext(data, ReadFixed(data, o).next, ReadFixed(data, o).value.count); }
  }

  lemma TailExact(data: bytes, o: nat, f: Fixed, hs: seq<Header>)
    requires f.count == |hs|
    ensures ReadTail(data, o).Got? && ReadTail(data, o).value == (f, hs) <==>
      FixedAt(data, o, f) && Short(f.count) && HeadersAt(data, o + 24, hs) && ShortHeaders(hs)
  {
    FixedExact(data, o, f);
    FixedNext(data, o);
    HeadersExact(data, o + 24, hs);
    HeadersNext(data, o + 24, f.count);
    if ReadFixed(data, o).Got? { HeadersNext(data, o + 24, ReadFixed(data, o).value.count); }
  }

  // What the encoder writes for m decodes to m.
  lemma RoundTrip(data: bytes, m: Message)
    requires |data| == Size(m) && MessageAt(data, m) && Fits(m)
    ensures Decode(data) == Decoded(m)
  {
    DecodeExact(data, m);
  }

  // ---- The layout, byte by byte ----------------------------------------------------------

  // n bytes at o that make up v, the least significant first.
  ghost predicate NumberAt(data: bytes, o: nat, v: int, n: nat) {
    o + n <= |data| && forall i: nat {:trigger ByteAt(data, o, v, i)} :: i < n ==> ByteAt(data, o, v, i)
  }

  ghost predicate ByteAt(data: bytes, o: nat, v: int, i: nat) {
    o + i < |data| && data[o + i] == v / Pow256(i) % 256
  }

  lemma AtNumber(data: bytes, o: nat, v: int, n: nat)
    ensures At(data, o, Little(v, n)) <==> NumberAt(data, o, v, n)
  {
    if At(data, o, Little(v, n)) {
      forall i: nat {:trigger ByteAt(data, o, v, i)} | i < n ensures ByteAt(data, o, v, i) {
        assert data[o + i] == Little(v, n)[i];
        LittleBytes(v, n, i);
      }
    }
    if NumberAt(data, o, v, n) {
      forall i {:trigger Little(v, n)[i]} | 0 <= i < n ensures data[o + i] == Little(v, n)[i] {
        assert ByteAt(data, o, v, i);
        LittleBytes(v, n, i);
      }
    }
  }

  ghost predicate TextAt(data: bytes, o: nat, b: bytes) {
    NumberAt(data, o, |b|, 4) && o + 4 + |b| <= |data| && data[o + 4..o + 4 + |b|] == b
  }

  lemma ChunkText(data: bytes, o: nat, b: bytes)
    ensures ChunkAt(data, o, b) <==> TextAt(data, o, b)
  {
    AtNumber(data, o, |b|, 4);
    AtSlice(data, o + 4, b);
  }

  // Where a header stands.
  ghost function HeaderStart(m: Message, i: nat): (o: nat)
    requires i <= |m.headers|
  {
    TextsSize(ThreeOf(m)) + 24 + HeadersSize(m.headers[..i])
  }

  ghost predicate HeaderText(data: bytes, o: nat, h: Header) {
    TextAt(data, o, h.key) && TextAt(data, o + 4 + |h.key|, h.value)
  }

  ghost predicate HeaderTextOf(data: bytes, m: Message, i: nat)
    requires i < |m.headers|
  {
    HeaderText(data, HeaderStart(m, i), m.headers[i])
  }

  ghost predicate HeaderTexts(data: bytes, m: Message) {
    forall i: nat {:trigger HeaderTextOf(data, m, i)} :: i < |m.headers| ==> HeaderTextOf(data, m, i)
  }

  lemma HeaderTextExact(data: bytes, o: nat, h: Header)
    ensures HeaderPlace(data)(o, h) <==> HeaderText(data, o, h)
  {
    ChunkText(data, o, h.key);
    ChunkText(data, o + 4 + |h.key|, h.value);
  }

  lemma TextOfHeader(data: bytes, m: Message, i: nat)
    requires i < |m.headers|
    ensures StandsAt(HeaderPlace(data), HeaderSize, HeaderStart(m, 0), m.headers, i) <==> HeaderTextOf(data, m, i)
  {
    HeaderTextExact(data, HeaderStart(m, i), m.headers[i]);
    assert HeaderStart(m, i) == HeaderStart(m, 0) + SizeMany(HeaderSize, m.headers[..i]);
  }

  lemma HeadersHaveTexts(data: bytes, m: Message)
    requires HeadersAt(data, HeaderStart(m, 0), m.headers)
    ensures HeaderTexts(data, m)
  {
    forall i: nat {:trigger HeaderTextOf(data, m, i)} | i < |m.headers| ensures HeaderTextOf(data, m, i) {
      ManyElement(HeaderPlace(data), HeaderSize, HeaderStart(m, 0), m.headers, i);
      TextOfHeader(data, m, i);
    }
  }

  lemma TextsMakeHeaders(data: bytes, m: Message)
    requires HeaderTexts(data, m)
    ensures HeadersAt(data, HeaderStart(m, 0), m.headers)
  {
    var at, o := HeaderPlace(data), HeaderStart(m, 0);
    forall i: nat {:trigger StandsAt(at, HeaderSize, o, m.headers, i)} | i < |m.headers|
      ensures StandsAt(at, HeaderSize, o, m.headers, i)
    {
      assert HeaderTextOf(data, m, i);
      TextOfHeader(data, m, i);
    }
    ManyWhole(at, HeaderSize, o, m.headers);
  }

  lemma HeaderTextsExact(data: bytes, m: Message)
    ensures HeadersAt(data, TextsSize(ThreeOf(m)) + 24, m.headers) <==> HeaderTexts(data, m)
  {
    assert HeaderStart(m, 0) == TextsSize(ThreeOf(m)) + 24;
    if HeadersAt(data, HeaderStart(m, 0), m.headers) { HeadersHaveTexts(data, m); }
    if HeaderTexts(data, m) { TextsMakeHeaders(data, m); }
  }

  ghost predicate FixedBytes(data: bytes, o: nat, m: Message) {
    && NumberAt(data, o, m.partition, 4) && NumberAt(data, o + 4, m.offset, 8)
    && NumberAt(data, o + 12, m.timestamp, 8) && NumberAt(data, o + 20, |m.headers|, 4)
  }

  lemma FixedBytesExact(data: bytes, o: nat, m: Message)
    ensures FixedAt(data, o, FixedOf(m)) <==> FixedBytes(data, o, m)
  {
    AtNumber(data, o, m.partition, 4);
    AtNumber(data, o + 4, m.offset, 8);
    AtNumber(data, o + 12, m.timestamp, 8);
    AtNumber(data, o + 20, |m.headers|, 4);
  }

  lemma TextsExactly(data: bytes, m: Message)
    ensures TextsAt(data, ThreeOf(m)) <==>
      && TextAt(data, 0, m.topic) && TextAt(data, 4 + |m.topic|, m.key)
      && TextAt(data, 8 + |m.topic| + |m.key|, m.value)
  {
    ChunkText(data, 0, m.topic);
    ChunkText(data, 4 + |m.topic|, m.key);
    ChunkText(data, 4 + |m.topic| + 4 + |m.key|, m.value);
  }

  /** The layout: topic, key and value, each behind its length; partition, offset, timestamp and the
      number of headers; and the headers, each a key and a value.  All numbers have their least
      significant byte first, those with a sign in two's complement. */
  lemma LayoutExact(data: bytes, m: Message)
    ensures MessageAt(data, m) <==>
      && TextAt(data, 0, m.topic) && TextAt(data, 4 + |m.topic|, m.key)
      && TextAt(data, 8 + |m.topic| + |m.key|, m.value)
      && FixedBytes(data, 12 + |m.topic| + |m.key| + |m.value|, m)
      && HeaderTexts(data, m)
  {
    TextsExactly(data, m);
    FixedBytesExact(data, TextsSize(ThreeOf(m)), m);
    HeaderTextsExact(data, m);
  }

  /** When decoding fails: with an error on less than 24 bytes, and with a panic on all other data that
      does not start with a message whose lengths fit. */
  lemma ErrorsExact(data: bytes)
    ensures Decode(data) == TooShort <==> |data| < 24
    ensures Decode(data) == Panic <==> |data| >= 24 && forall m: Message :: !(MessageAt(data, m) && Fits(m))
  {
    if |data| >= 24 {
      forall m: Message ensures Decode(data) == Decoded(m) <==> MessageAt(data, m) && Fits(m) {
        DecodeExact(data, m);
      }
    }
  }

  // The length check lets through data that is too short for any message.  The encoder never
  // produces such data, so only memory that something else has written leads to the panic.
  lemma ShortDataPanics(data: bytes)
    requires 24 <= |data| < 36
    ensures Decode(data) == Panic
    ensures forall m: Message :: |data| < Size(m)
  {
    TextsNext(data);
    if ReadTexts(data, 0).Got? { FixedNext(data, ReadTexts(data, 0).next); }
  }

  // ---- The decoder --------------------------------------------------------------------------

  method deserializeMessage(data: bytes) returns (r: Outcome)
    ensures r == Decode(data)
  {
    if |data| < 24 {
      return TooShort;
    }
    var texts := readTexts(data, 0);
    if texts.Past? {
      return Panic;
    }
    var fixed := readFixed(data, texts.next);
    if fixed.Past? {
      return Panic;
    }
    var headers := readHeaders(data, fixed.next, fixed.value.count);
    if headers.Past? {
      return Panic;
    }
    var t, f := texts.value, fixed.value;
    r := Decoded(Message(t.topic, t.key, t.value, f.partition, f.offset, f.timestamp, headers.value));
  }

  method readTexts(data: bytes, start: nat) returns (r: Read<Three>)
    ensures r == ReadTexts(data, start)
  {
    var offset := start;
    var topic := ReadChunk(data, offset);
    if topic.Past? {
      return Past;
    }
    offset := topic.next;
    var key := ReadChunk(data, offset);
    if key.Past? {
      return Past;
    }
    offset := key.next;
    var value := ReadChunk(data, offset);
    if value.Past? {
      return Past;
    }
    offset := value.next;
    r := Got(Three(topic.value, key.value, value.value), offset);
  }

  method readFixed(data: bytes, start: nat) returns (r: Read<Fixed>)
    ensures r == ReadFixed(data, start)
  {
    var offset := start;
    var partition := ReadNumber(data, offset, 4);
    if partition.Past? {
      return Past;
    }
    offset := offset + 4;
    var msgOffset := ReadNumber(data, offset, 8);
    if msgOffset.Past? {
      return Past;
    }
    offset := offset + 8;
    var timestamp := ReadNumber(data, offset, 8);
    if timestamp.Past? {
      return Past;
    }
    offset := offset + 8;
    var count := ReadNumber(data, offset, 4);
    if count.Past? {
      return Past;
    }
    offset := offset + 4;
    Widths();
    r := Got(Fixed(Signed(partition.value, 4), Signed(msgOffset.value, 8), Signed(timestamp.value, 8), count.value),
      offset);
  }

  method readHeaders(data: bytes, start: nat, headerCount: nat) returns (r: Read<seq<Header>>)
    ensures r == ReadHeaders(data, start, headerCount)
  {
    var offset := start;
    var headers: seq<Header> := [];
    for i := 0 to headerCount
      invariant ReadHeaders(data, start, i) == Got(headers, offset)
    {
      var h := ReadHeader(data, offset);
      OneMore(HeaderReader(data), start, i);
      if h.Past? {
        PastStays(HeaderReader(data), start, i + 1, headerCount);
        return Past;
      }
      headers := headers + [h.value];
      offset := h.next;
    }
    r := Got(headers, offset);
  }
}
