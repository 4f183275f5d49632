/** Routing of keys to shards by hash. */
module Sharding {
  import opened Arithmetic
  import opened Wrappers

  type Text = seq<bv8>

  const OFFSET32: uint32 := 2166136261
  const PRIME32 := 16777619

  // hash ^= b, hash *= PRIME32: the exclusive or touches the low byte only, the product wraps around.
  function Mix(hash: uint32, b: bv8): (h: uint32) {
    ((hash - hash % 256 + (((hash % 256) as bv8) ^ b) as int) * PRIME32) % 0x1_0000_0000
  }

  ghost function Fnv1a(key: Text): (h: uint32) {
    if key == [] then OFFSET32 else Mix(Fnv1a(key[..|key| - 1]), key[|key| - 1])
  }

  method Hash(key: Text) returns (hash: uint32)
    ensures hash == Fnv1a(key)
  {
    hash := OFFSET32;
    for i := 0 to |key|
      invariant hash == Fnv1a(key[..i])
    {
      assert key[..i + 1][..i] == key[..i];
      hash := Mix(hash, key[i]);
    }
    assert key[..|key|] == key;
  }

  lemma FnvStep(key: Text, b: bv8)
    ensures Fnv1a(key + [b]) == Mix(Fnv1a(key), b)
  {
    assert (key + [b])[..|key|] == key;
  }

  lemma MixesKnown()
    ensures Mix(OFFSET32, 0x61) == 0xe40c_292c && Mix(OFFSET32, 0x62) == 0xe70c_2de5
  {
    assert ((0xc5 as bv8) ^ 0x61) as int == 0xa4;
    assert ((0xc5 as bv8) ^ 0x62) as int == 0xa7;
  }

  // Published values of the hash, of nothing, of "a" and of "b"; they leave no other prime.
  lemma FnvKnown()
    ensures Fnv1a([]) == 0x811c_9dc5 && Fnv1a([0x61]) == 0xe40c_292c && Fnv1a([0x62]) == 0xe70c_2de5
  {
    MixesKnown();
    FnvStep([], 0x61);
    FnvStep([], 0x62);
    assert [] + [0x61] == [0x61] && [] + [0x62] == [0x62];
  }

  // The number of buckets is cut down to 32 bits; the remainder by zero panics.
  method GetBucket(key: Text, buckets: int) returns (bucket: Option<int>)
    ensures bucket == None <==> buckets > 0 && buckets % 0x1_0000_0000 == 0
    ensures bucket.Some? && buckets > 0 ==> 0 <= bucket.value < buckets
    ensures bucket.Some? ==> bucket.value == if buckets <= 0 then 0 else Fnv1a(key) % (buckets % 0x1_0000_0000)
  {
    if buckets <= 0 {
      return Some(0);
    }
    var hash := Hash(key);
    var divisor := buckets % 0x1_0000_0000;
    if divisor == 0 {
      return None;
    }
    return Some(hash % divisor);
  }

  datatype Request = Request(shardKey: Text, redisKey: Text, n: int)

  const FALLBACK: Text := [0x64, 0x65, 0x66, 0x61, 0x75, 0x6c, 0x74]

  function GetID(r: Request): (id: Text) {
    if r.shardKey != [] then r.shardKey else if r.redisKey != [] then r.redisKey else FALLBACK
  }

  function RedisKey(baseKey: Text, key: Text): (r: Text) {
    if key == [] then baseKey else baseKey + [0x3a] + key
  }

  // The request that AllowN makes for a key.
  function RequestFor(baseKey: Text, key: Text, n: int): (r: Request) {
    Request(key, RedisKey(baseKey, key), n)
  }

  // The index of a worker; without workers, or with a multiple of 2^32 of them, the lookup panics.
  method GetWorker(r: Request, workers: nat) returns (index: Option<int>)
    ensures index == None <==> workers % 0x1_0000_0000 == 0
    ensures index.Some? ==> 0 <= index.value < workers
    ensures index.Some? ==> index.value == Fnv1a(GetID(r)) % (workers % 0x1_0000_0000)
  {
    var id := GetID(r);
    if id == [] {
      return if workers == 0 then None else Some(0);
    }
    index := GetBucket(id, workers);
    if workers == 0 {
      return None;
    }
  }

  // Different keys never share a stored bucket.
  lemma RedisKeyInjective(baseKey: Text, k: Text, j: Text)
    requires RedisKey(baseKey, k) == RedisKey(baseKey, j)
    ensures k == j
  {
    if k != [] && j != [] {
      assert RedisKey(baseKey, k)[|baseKey| + 1..] == k;
      assert RedisKey(baseKey, j)[|baseKey| + 1..] == j;
    } else {
      assert |RedisKey(baseKey, k)| == |RedisKey(baseKey, j)|;
    }
  }

  // Requests for a key are spread by the key, requests for no key by the name of the limiter.
  lemma IdOfRequest(baseKey: Text, key: Text, n: int)
    ensures GetID(RequestFor(baseKey, key, n)) == if key != [] then key else if baseKey != [] then baseKey else FALLBACK
    ensures RequestFor(baseKey, key, n).redisKey == (if key == [] then baseKey else baseKey + [0x3a] + key)
    ensures RequestFor(baseKey, key, n).n == n
  {
  }

  // Whatever touches one stored bucket goes to one worker.
  lemma OneShardPerKey(baseKey: Text, k: Text, n: int, j: Text, m: int)
    requires RequestFor(baseKey, k, n).redisKey == RequestFor(baseKey, j, m).redisKey
    ensures GetID(RequestFor(baseKey, k, n)) == GetID(RequestFor(baseKey, j, m))
  {
    RedisKeyInjective(baseKey, k, j);
  }
}

/** The token buckets that one shard keeps, a batch of requests at a time. */
module BatchLimiters {
  import opened Sharding

  // The two fields of a key's hash, present or absent together.
  datatype Bucket = Absent | Bucket(tokens: int, last: int)

  const SECOND: real := 1_000_000_000.0

  // Tokens earned in some nanoseconds.
  function Earned(ns: int, limit: real): (t: real) {
    ns as real * limit / SECOND
  }

  // Whole tokens earned since the last update.
  function calculateRefillTokens(now: int, last: int, limit: real): (refill: int)
    ensures refill >= 0
    ensures limit > 0.0 && now >= last ==> refill as real <= Earned(now - last, limit) < refill as real + 1.0
    ensures limit <= 0.0 || now <= last ==> refill == 0
  {
    if limit <= 0.0 then 0
    else if now <= last then 0
    else
      var earned := Earned(now - last, limit);
      if earned <= 0.0 then 0 else if earned.Floor < 0 then 0 else earned.Floor
  }

  // ---- One batch for one key ------------------------------------------------------

  // What is added to the stored count.
  ghost function Refill(s: Bucket, burst: int, limit: real, now: int): (r: int) {
    match s
    case Absent => burst
    case Bucket(tokens, last) =>
      var earned := calculateRefillTokens(now, if last > now then now else last, limit);
      var room := if burst - tokens < 0 then 0 else burst - tokens;
      if earned > room then room else earned
  }

  ghost function Tokens(s: Bucket): (t: int) {
    if s.Absent? then 0 else s.tokens
  }

  // What can be granted.
  ghost function Available(s: Bucket, burst: int, limit: real, now: int): (t: int) {
    var t := Tokens(s) + Refill(s, burst, limit, now);
    if t > burst then burst else t
  }

  // First come, first served; a request that does not fit is passed over.
  ghost function Granted(remaining: int, ns: seq<int>): (g: int)
    decreases |ns|
  {
    if ns == [] then 0
    else if ns[0] <= remaining then ns[0] + Granted(remaining - ns[0], ns[1..])
    else Granted(remaining, ns[1..])
  }

  ghost function Grants(remaining: int, ns: seq<int>): (g: seq<bool>)
    ensures |g| == |ns|
    decreases |ns|
  {
    if ns == [] then []
    else if ns[0] <= remaining then [true] + Grants(remaining - ns[0], ns[1..])
    else [false] + Grants(remaining, ns[1..])
  }

  // The clock is read once before granting and once when storing.
  datatype Batch = Batch(ns: seq<int>, now: int, stored: int)

  ghost function BatchGranted(s: Bucket, burst: int, limit: real, b: Batch): (g: int) {
    Granted(Available(s, burst, limit, b.now), b.ns)
  }

  ghost function AfterBatch(s: Bucket, burst: int, limit: real, b: Batch): (r: Bucket) {
    Bucket(Tokens(s) + Refill(s, burst, limit, b.now) - BatchGranted(s, burst, limit, b), b.stored)
  }

  // ---- Runs for one key -------------------------------------------------------------

  ghost predicate Sane(s: Bucket, burst: int, now: int) {
    s.Bucket? ==> 0 <= s.tokens <= burst && s.last <= now
  }

  ghost predicate Positive(ns: seq<int>) {
    forall i {:trigger ns[i]} :: 0 <= i < |ns| ==> ns[i] >= 1
  }

  ghost predicate Ordered(run: seq<Batch>, from: int, to: int) {
    if run == [] then from <= to
    else from <= run[0].now <= run[0].stored && Positive(run[0].ns) && Ordered(run[1..], run[0].stored, to)
  }

  ghost function TotalGranted(s: Bucket, burst: int, limit: real, run: seq<Batch>): (g: int)
    decreases |run|
  {
    if run == [] then 0
    else
      BatchGranted(s, burst, limit, run[0])
      + TotalGranted(AfterBatch(s, burst, limit, run[0]), burst, limit, run[1..])
  }

  ghost function AfterRun(s: Bucket, burst: int, limit: real, run: seq<Batch>): (r: Bucket)
    decreases |run|
  {
    if run == [] then s else AfterRun(AfterBatch(s, burst, limit, run[0]), burst, limit, run[1..])
  }

  lemma {:induction false} GrantedRange(remaining: int, ns: seq<int>)
    requires remaining >= 0 && Positive(ns)
    ensures 0 <= Granted(remaining, ns) <= remaining
    decreases |ns|
  {
    if ns != [] {
      assert Positive(ns[1..]) by {
        forall i {:trigger ns[1..][i]} | 0 <= i < |ns[1..]| ensures ns[1..][i] >= 1 { assert ns[1..][i] == ns[i + 1]; }
      }
      if ns[0] <= remaining { GrantedRange(remaining - ns[0], ns[1..]); } else { GrantedRange(remaining, ns[1..]); }
    }
  }

  lemma BatchKeeps(s: Bucket, burst: int, limit: real, b: Batch)
    requires burst > 0 && limit > 0.0 && Sane(s, burst, b.now) && b.now <= b.stored && Positive(b.ns)
    ensures Sane(AfterBatch(s, burst, limit, b), burst, b.stored) && BatchGranted(s, burst, limit, b) >= 0
    ensures Available(s, burst, limit, b.now) == Tokens(s) + Refill(s, burst, limit, b.now) <= burst
    ensures s.Bucket? ==> Refill(s, burst, limit, b.now) as real <= Earned(b.now - s.last, limit)
  {
    GrantedRange(Available(s, burst, limit, b.now), b.ns);
  }

  // Stored tokens stay between zero and the burst.
  lemma {:induction false} TokensKept(s: Bucket, burst: int, limit: real, run: seq<Batch>, from: int, to: int)
    requires burst > 0 && limit > 0.0 && Sane(s, burst, from) && Ordered(run, from, to)
    ensures Sane(AfterRun(s, burst, limit, run), burst, to)
    decreases |run|
  {
    if run != [] {
      BatchKeeps(s, burst, limit, run[0]);
      TokensKept(AfterBatch(s, burst, limit, run[0]), burst, limit, run[1..], run[0].stored, to);
    }
  }

  lemma EarnedAdds(x: int, y: int, limit: real)
    requires limit > 0.0 && x >= 0 && y >= 0
    ensures Earned(x + y, limit) == Earned(x, limit) + Earned(y, limit)
    ensures Earned(x, limit) >= 0.0 && Earned(y, limit) >= 0.0
  {
  }

  lemma Total(g: int, rest: int, tokens: int, all: int, x: real, y: real)
    requires g + tokens <= all && rest as real <= tokens as real + x && x <= y
    ensures (g + rest) as real <= all as real + y
  {
  }

  // What is granted until b comes from the tokens there are and those earned since the last update.
  lemma {:induction false} GrantedBound(s: Bucket, burst: int, limit: real, run: seq<Batch>, from: int, b: int)
    requires burst > 0 && limit > 0.0 && s.Bucket? && Sane(s, burst, from) && Ordered(run, from, b)
    ensures TotalGranted(s, burst, limit, run) as real <= s.tokens as real + Earned(b - s.last, limit)
    decreases |run|
  {
    if run == [] {
      EarnedAdds(b - s.last, 0, limit);
    } else {
      var t := AfterBatch(s, burst, limit, run[0]);
      var x := Earned(run[0].now - s.last, limit);
      BatchKeeps(s, burst, limit, run[0]);
      OrderedEnd(run[1..], run[0].stored, b);
      GrantedBound(t, burst, limit, run[1..], run[0].stored, b);
      EarnedAdds(run[0].now - s.last, b - run[0].now, limit);
      EarnedAdds(run[0].stored - run[0].now, b - run[0].stored, limit);
      assert (BatchGranted(s, burst, limit, run[0]) + t.tokens) as real <= s.tokens as real + x;
    }
  }

  lemma {:induction false} OrderedEnd(run: seq<Batch>, from: int, to: int)
    requires Ordered(run, from, to)
    ensures from <= to
    decreases |run|
  {
    if run != [] { OrderedEnd(run[1..], run[0].stored, to); }
  }

  // ---- What is refused ----------------------------------------------------------------

  // A request is granted exactly when it fits what the requests before it have left.
  lemma {:induction false} GrantsExact(remaining: int, ns: seq<int>, j: nat)
    requires j < |ns|
    ensures Grants(remaining, ns)[j] <==> ns[j] <= remaining - Sum(ns[..j], Grants(remaining, ns)[..j])
    decreases |ns|
  {
    if j > 0 {
      var rest := if ns[0] <= remaining then remaining - ns[0] else remaining;
      var grants := Grants(remaining, ns);
      assert grants[1..] == Grants(rest, ns[1..]);
      GrantsExact(rest, ns[1..], j - 1);
      assert ns[..j][1..] == ns[1..][..j - 1] && grants[..j][1..] == grants[1..][..j - 1];
    }
  }

  // What a key has to grant: the burst if it is new, otherwise its tokens and what it has earned, as
  // whole tokens and up to the burst.
  lemma AvailableExact(s: Bucket, burst: int, limit: real, now: int)
    requires burst > 0 && limit > 0.0 && Sane(s, burst, now)
    ensures var t := Available(s, burst, limit, now);
      if s.Absent? then t == burst
      else
        && t <= burst && t as real <= s.tokens as real + Earned(now - s.last, limit)
        && (t < burst ==> s.tokens as real + Earned(now - s.last, limit) < t as real + 1.0)
  {
    if s.Bucket? { EarnedAdds(now - s.last, 0, limit); }
  }

  // So the first request is granted whenever it fits.
  lemma FirstGranted(s: Bucket, burst: int, limit: real, b: Batch)
    requires burst > 0 && limit > 0.0 && Sane(s, burst, b.now) && b.ns != [] && b.ns[0] <= burst
    ensures Grants(Available(s, burst, limit, b.now), b.ns)[0] <==>
      s.Absent? || b.ns[0] as real <= s.tokens as real + Earned(b.now - s.last, limit)
  {
    AvailableExact(s, burst, limit, b.now);
  }

  // The time that counts: from each store to the next reading of the clock.
  ghost function Counted(last: int, run: seq<Batch>): (ns: int)
    decreases |run|
  {
    if run == [] then 0 else run[0].now - last + Counted(run[0].stored, run[1..])
  }

  ghost function Spent(s: Bucket, burst: int, limit: real, run: seq<Batch>): (tokens: int) {
    Tokens(AfterRun(s, burst, limit, run)) + TotalGranted(s, burst, limit, run)
  }

  lemma {:induction false} CountedWithin(last: int, run: seq<Batch>, from: int, to: int)
    requires Ordered(run, from, to) && last <= from
    ensures 0 <= Counted(last, run) <= to - last
    decreases |run|
  {
    if run != [] {
      OrderedEnd(run[1..], run[0].stored, to);
      CountedWithin(run[0].stored, run[1..], run[0].stored, to);
    } else {
      assert from <= to;
    }
  }

  // One batch: what the key holds and has granted is what it held and earned, but for less than one
  // token, or else the burst.
  lemma BatchEarns(s: Bucket, burst: int, limit: real, b: Batch)
    requires burst > 0 && limit > 0.0 && s.Bucket? && Sane(s, burst, b.now) && b.now <= b.stored && Positive(b.ns)
    ensures var held := AfterBatch(s, burst, limit, b).tokens + BatchGranted(s, burst, limit, b);
      && s.tokens <= held <= burst && held as real <= s.tokens as real + Earned(b.now - s.last, limit)
      && (held == burst || s.tokens as real + Earned(b.now - s.last, limit) < held as real + 1.0)
  {
    BatchKeeps(s, burst, limit, b);
    AvailableExact(s, burst, limit, b.now);
  }

  /** In every run the tokens that a key has left and those it has granted together are those it had and
      has earned, but for less than one token in each batch; unless it was full, and then they are at
      least the burst. */
  lemma {:induction false} TokensEarned(s: Bucket, burst: int, limit: real, run: seq<Batch>, from: int, to: int)
    requires burst > 0 && limit > 0.0 && s.Bucket? && Sane(s, burst, from) && Ordered(run, from, to)
    ensures var spent := Spent(s, burst, limit, run);
      && s.tokens <= spent && spent as real <= s.tokens as real + Earned(Counted(s.last, run), limit)
      && (spent >= burst || s.tokens as real + Earned(Counted(s.last, run), limit) <= spent as real + |run| as real)
    decreases |run|
  {
    if run != [] {
      var t, g := AfterBatch(s, burst, limit, run[0]), BatchGranted(s, burst, limit, run[0]);
      BatchKeeps(s, burst, limit, run[0]);
      BatchEarns(s, burst, limit, run[0]);
      OrderedEnd(run[1..], run[0].stored, to);
      TokensEarned(t, burst, limit, run[1..], run[0].stored, to);
      CountedWithin(t.last, run[1..], run[0].stored, to);
      EarnedAdds(run[0].now - s.last, Counted(t.last, run[1..]), limit);
      assert Spent(s, burst, limit, run) == g + Spent(t, burst, limit, run[1..]);
    }
  }

  // A new key starts with the burst.
  lemma NewKeyEarns(burst: int, limit: real, run: seq<Batch>, from: int, to: int)
    requires burst > 0 && limit > 0.0 && Ordered(run, from, to) && run != []
    ensures Spent(Absent, burst, limit, run) >= burst
    ensures Spent(Absent, burst, limit, run) as real <= burst as real + Earned(Counted(run[0].stored, run[1..]), limit)
  {
    var t := AfterBatch(Absent, burst, limit, run[0]);
    BatchKeeps(Absent, burst, limit, run[0]);
    TokensEarned(t, burst, limit, run[1..], run[0].stored, to);
    assert Spent(Absent, burst, limit, run) == BatchGranted(Absent, burst, limit, run[0])
      + Spent(t, burst, limit, run[1..]);
    assert t.tokens + BatchGranted(Absent, burst, limit, run[0]) == burst;
  }

  // From each store to the next reading of the clock less than one token is earned.
  ghost predicate Hurried(last: int, limit: real, run: seq<Batch>)
    decreases |run|
  {
    run != [] ==> Earned(run[0].now - last, limit) < 1.0 && Hurried(run[0].stored, limit, run[1..])
  }

  /** A key whose bucket is empty earns nothing in a run, however long, exactly when no two batches are
      far enough apart for a whole token: the parts of tokens are lost at every store. */
  lemma {:induction false} StarvesExactly(s: Bucket, burst: int, limit: real, run: seq<Batch>, from: int, to: int)
    requires burst > 0 && limit > 0.0 && s.Bucket? && s.tokens == 0 && Sane(s, burst, from) && Ordered(run, from, to)
    ensures Spent(s, burst, limit, run) == 0 <==> Hurried(s.last, limit, run)
    decreases |run|
  {
    if run != [] {
      var t, g := AfterBatch(s, burst, limit, run[0]), BatchGranted(s, burst, limit, run[0]);
      BatchKeeps(s, burst, limit, run[0]);
      BatchEarns(s, burst, limit, run[0]);
      OrderedEnd(run[1..], run[0].stored, to);
      TokensEarned(t, burst, limit, run[1..], run[0].stored, to);
      assert Spent(s, burst, limit, run) == g + Spent(t, burst, limit, run[1..]);
      if t.tokens == 0 { StarvesExactly(t, burst, limit, run[1..], run[0].stored, to); }
    }
  }

  // A batch with one request of one unit every half second, for a limit of one unit a second.
  ghost function HalfSeconds(n: nat, last: int): (run: seq<Batch>)
    decreases n
  {
    if n == 0 then []
    else [Batch([1], last + 500_000_000, last + 500_000_000)] + HalfSeconds(n - 1, last + 500_000_000)
  }

  /** So a key that asks for half of what it earns may never get anything. */
  lemma {:induction false} HalfSecondsStarve(burst: int, n: nat, last: int)
    requires burst > 0
    ensures Ordered(HalfSeconds(n, last), last, last + 500_000_000 * n)
    ensures TotalGranted(Bucket(0, last), burst, 1.0, HalfSeconds(n, last)) == 0
  {
    HalfSecondsHurry(n, last);
    StarvesExactly(Bucket(0, last), burst, 1.0, HalfSeconds(n, last), last, last + 500_000_000 * n);
    GrantedNotNegative(Bucket(0, last), burst, 1.0, HalfSeconds(n, last), last, last + 500_000_000 * n);
    TokensKept(Bucket(0, last), burst, 1.0, HalfSeconds(n, last), last, last + 500_000_000 * n);
  }

  lemma {:induction false} HalfSecondsHurry(n: nat, last: int)
    ensures Ordered(HalfSeconds(n, last), last, last + 500_000_000 * n) && Hurried(last, 1.0, HalfSeconds(n, last))
    decreases n
  {
    if n > 0 {
      HalfSecondsHurry(n - 1, last + 500_000_000);
      var run := HalfSeconds(n, last);
      assert run[1..] == HalfSeconds(n - 1, last + 500_000_000);
    }
  }

  /** What a key refuses never fits into the tokens it had and has earned since, up to the burst, less
      what it has granted: if the first request of the next batch is refused, it and the grants together
      are more than the burst, or more than that sum less one token for each batch. */
  lemma RefusedInRun(s: Bucket, burst: int, limit: real, run: seq<Batch>, from: int, b: Batch)
    requires burst > 0 && limit > 0.0 && s.Bucket? && Sane(s, burst, from) && Ordered(run, from, b.now) && b.ns != []
    requires !Grants(Available(AfterRun(s, burst, limit, run), burst, limit, b.now), b.ns)[0]
    ensures var sum := b.ns[0] + TotalGranted(s, burst, limit, run);
      || sum > burst
      || sum as real + |run| as real > s.tokens as real + Earned(Counted(s.last, run + [b]), limit)
  {
    var t := AfterRun(s, burst, limit, run);
    TokensKept(s, burst, limit, run, from, b.now);
    TokensEarned(s, burst, limit, run, from, b.now);
    CountedMore(s, burst, limit, run, b);
    AvailableExact(t, burst, limit, b.now);
    BatchKeeps(t, burst, limit, Batch([], b.now, b.now));
    CountedWithin(s.last, run, from, b.now);
    EarnedAdds(Counted(s.last, run), b.now - t.last, limit);
    GrantedNotNegative(s, burst, limit, run, from, b.now);
  }

  lemma {:induction false} CountedMore(s: Bucket, burst: int, limit: real, run: seq<Batch>, b: Batch)
    requires s.Bucket?
    ensures AfterRun(s, burst, limit, run).Bucket?
    ensures Counted(s.last, run + [b]) == Counted(s.last, run) + b.now - AfterRun(s, burst, limit, run).last
    decreases |run|
  {
    if run == [] {
      assert [b][1..] == [];
    } else {
      assert (run + [b])[1..] == run[1..] + [b];
      CountedMore(AfterBatch(s, burst, limit, run[0]), burst, limit, run[1..], b);
    }
  }

  lemma {:induction false} GrantedNotNegative(s: Bucket, burst: int, limit: real, run: seq<Batch>, from: int, to: int)
    requires burst > 0 && limit > 0.0 && Sane(s, burst, from) && Ordered(run, from, to)
    ensures TotalGranted(s, burst, limit, run) >= 0
    decreases |run|
  {
    if run != [] {
      BatchKeeps(s, burst, limit, run[0]);
      GrantedNotNegative(AfterBatch(s, burst, limit, run[0]), burst, limit, run[1..], run[0].stored, to);
    }
  }

  // The batches whose clock readings lie between a and b grant no more than the burst and what is earned in between.
  lemma WindowBound(s: Bucket, burst: int, limit: real, run: seq<Batch>, from: int, a: int, b: int)
    requires burst > 0 && limit > 0.0 && Sane(s, burst, from) && Ordered(run, from, b) && a <= b
    requires run != [] ==> a <= run[0].now
    ensures TotalGranted(s, burst, limit, run) as real <= burst as real + Earned(b - a, limit)
  {
    if run == [] {
      EarnedAdds(b - a, 0, limit);
    } else {
      var t := AfterBatch(s, burst, limit, run[0]);
      BatchKeeps(s, burst, limit, run[0]);
      OrderedEnd(run[1..], run[0].stored, b);
      GrantedBound(t, burst, limit, run[1..], run[0].stored, b);
      EarnedAdds(run[0].stored - a, b - run[0].stored, limit);
      Total(BatchGranted(s, burst, limit, run[0]), TotalGranted(t, burst, limit, run[1..]), t.tokens, burst,
            Earned(b - run[0].stored, limit), Earned(b - a, limit));
    }
  }

  // ---- The batch executor --------------------------------------------------------------

  // The places of a key's requests in a batch, in order.
  ghost function Indexes(batch: seq<Request>, key: Text): (r: seq<nat>)
    ensures forall j {:trigger r[j]} :: 0 <= j < |r| ==> r[j] < |batch| && batch[r[j]].redisKey == key
    ensures Inside(r, |batch|)
  {
    if batch == [] then [] else
      var n := |batch| - 1;
      Indexes(batch[..n], key) + if batch[n].redisKey == key then [n] else []
  }

  lemma {:induction false} IndexesExact(batch: seq<Request>, key: Text)
    ensures forall i, j {:trigger Indexes(batch, key)[i], Indexes(batch, key)[j]} ::
      0 <= i < j < |Indexes(batch, key)| ==> Indexes(batch, key)[i] < Indexes(batch, key)[j]
    ensures forall i: nat {:trigger batch[i]} :: i < |batch| && batch[i].redisKey == key ==> i in Indexes(batch, key)
  {
    if batch != [] {
      var n := |batch| - 1;
      IndexesExact(batch[..n], key);
      var r := Indexes(batch[..n], key);
      forall i: nat {:trigger batch[i]} | i < |batch| && batch[i].redisKey == key ensures i in Indexes(batch, key) {
        if i < n { assert batch[..n][i] == batch[i]; }
      }
    }
  }

  ghost function Wanted(batch: seq<Request>, indexes: seq<nat>): (ns: seq<int>)
    requires Inside(indexes, |batch|)
    ensures |ns| == |indexes|
  {
    seq(|indexes|, j requires 0 <= j < |indexes| => assert InsideAt(indexes, |batch|, j); batch[indexes[j]].n)
  }

  // The units of the granted requests.
  ghost function Sum(ns: seq<int>, flags: seq<bool>): (s: int)
    requires |ns| == |flags|
  {
    if ns == [] then 0 else (if flags[0] then ns[0] else 0) + Sum(ns[1..], flags[1..])
  }

  lemma {:induction false} SumGrants(remaining: int, ns: seq<int>)
    ensures Sum(ns, Grants(remaining, ns)) == Granted(remaining, ns)
    decreases |ns|
  {
    if ns != [] {
      var flags := Grants(remaining, ns);
      if ns[0] <= remaining {
        SumGrants(remaining - ns[0], ns[1..]);
        assert flags[1..] == Grants(remaining - ns[0], ns[1..]);
      } else {
        SumGrants(remaining, ns[1..]);
        assert flags[1..] == Grants(remaining, ns[1..]);
      }
    }
  }

  lemma {:induction false} SumLast(ns: seq<int>, flags: seq<bool>, j: nat)
    requires |ns| == |flags| && j < |ns|
    ensures Sum(ns[..j + 1], flags[..j + 1]) == Sum(ns[..j], flags[..j]) + if flags[j] then ns[j] else 0
  {
    if j > 0 {
      SumLast(ns[1..], flags[1..], j - 1);
      assert ns[..j + 1][1..] == ns[1..][..j] && flags[..j + 1][1..] == flags[1..][..j];
      assert ns[..j][1..] == ns[1..][..j - 1] && flags[..j][1..] == flags[1..][..j - 1];
    } else {
      assert ns[..1][1..] == [] && flags[..1][1..] == [];
    }
  }

  class Pipeline {
    const burst: int
    const limit: real
    var store: map<Text, Bucket>

    constructor (burst: int, limit: real)
      requires burst > 0 && limit > 0.0
      ensures this.burst == burst && this.limit == limit && store == map[]
    {
      this.burst, this.limit, store := burst, limit, map[];
    }

    ghost function Held(key: Text): (s: Bucket)
      reads this
    {
      if key in store then store[key] else Absent
    }

    // now and stored are the clock readings for each key, before granting and when storing.
    method executePipeline(batch: seq<Request>, now: map<Text, int>, stored: map<Text, int>) returns (allow: seq<bool>)
      requires forall i {:trigger batch[i]} :: 0 <= i < |batch| ==>
        batch[i].redisKey in now && batch[i].redisKey in stored
      modifies this
      ensures |allow| == |batch|
      ensures forall key {:trigger Indexes(batch, key)} :: Indexes(batch, key) == [] ==> Held(key) == old(Held(key))
      ensures forall key {:trigger Indexes(batch, key)} :: Indexes(batch, key) != [] ==>
        var indexes := Indexes(batch, key);
        && key in now && key in stored
        && Held(key) == AfterBatch(old(Held(key)), burst, limit, Batch(Wanted(batch, indexes), now[key], stored[key]))
        && forall j {:trigger indexes[j]} :: 0 <= j < |indexes| ==>
             allow[indexes[j]] == Grants(Available(old(Held(key)), burst, limit, now[key]), Wanted(batch, indexes))[j]
    {
      var group := groupByKey(batch);
      var allowByIndex := new bool[|batch|](i => false);
      KeysKnown(batch, group, now);
      KeysKnown(batch, group, stored);
      var refillByKey := grantAll(batch, group, now, allowByIndex);
      storeAll(batch, group, refillByKey, stored, allowByIndex[..], now);
      allow := allowByIndex[..];
      forall key {:trigger Indexes(batch, key)} | Indexes(batch, key) != []
        ensures key in now && key in stored
        ensures forall j {:trigger Indexes(batch, key)[j]} :: 0 <= j < |Indexes(batch, key)| ==>
             allow[Indexes(batch, key)[j]]
               == Grants(Available(old(Held(key)), burst, limit, now[key]), Wanted(batch, Indexes(batch, key)))[j]
      {
        forall j {:trigger Indexes(batch, key)[j]} | 0 <= j < |Indexes(batch, key)|
          ensures allow[Indexes(batch, key)[j]]
            == Grants(Available(old(Held(key)), burst, limit, now[key]), Wanted(batch, Indexes(batch, key)))[j]
        {
          assert FlagAt(allow, Indexes(batch, key),
            Grants(Available(old(Held(key)), burst, limit, now[key]), Wanted(batch, Indexes(batch, key))), j);
        }
      }
    }

    // A shard takes one batch after another from its queue, for as long as it runs.
    method Start(rounds: seq<Round>)
      requires forall i {:trigger rounds[i]} :: 0 <= i < |rounds| ==> Clocked(rounds[i])
      modifies this
      ensures forall key {:trigger Held(key)} ::
        Held(key) == AfterRun(old(Held(key)), burst, limit, Project(rounds, key))
    {
      for i := 0 to |rounds|
        invariant forall key {:trigger Held(key)} ::
          AfterRun(Held(key), burst, limit, Project(rounds[i..], key))
            == AfterRun(old(Held(key)), burst, limit, Project(rounds, key))
      {
        var round := rounds[i];
        label before:
        var allow := executePipeline(round.batch, round.now, round.stored);
        forall key {:trigger Held(key)}
          ensures AfterRun(Held(key), burst, limit, Project(rounds[i + 1..], key))
            == AfterRun(old@before(Held(key)), burst, limit, Project(rounds[i..], key))
        {
          ProjectStep(rounds, i, key);
        }
      }
    }

    // What is added to a key's tokens, and what may be granted.
    method readKey(key: Text, now: int) returns (refill: int, remaining: int)
      ensures refill == Refill(Held(key), burst, limit, now) && remaining == Available(Held(key), burst, limit, now)
    {
      var tokens, last, initialRefill := 0, now, 0;
      if key in store && store[key].Bucket? {
        tokens, last := store[key].tokens, store[key].last;
      } else {
        initialRefill := burst;
      }
      if last > now {
        last := now;
      }
      refill := calculateRefillTokens(now, last, limit);
      if refill > 0 {
        var maxRefill := burst - tokens;
        if maxRefill < 0 {
          maxRefill := 0;
        }
        if refill > maxRefill {
          refill := maxRefill;
        }
      }
      remaining := tokens + initialRefill + refill;
      if remaining > burst {
        remaining := burst;
      }
      refill := initialRefill + refill;
    }

    // The requests of one key, in their order.
    static method grantKey(batch: seq<Request>, indexes: seq<nat>, start: int, allow: array<bool>)
      requires Distinct(indexes) && Inside(indexes, |batch|) && allow.Length == |batch|
      requires Flags(allow[..], indexes, Falses(|indexes|))
      modifies allow
      ensures Flags(allow[..], indexes, Grants(start, Wanted(batch, indexes)))
      ensures forall i {:trigger allow[i]} :: 0 <= i < |batch| && i !in indexes ==> allow[i] == old(allow[i])
    {
      var remaining := start;
      ghost var flags: seq<bool>, ns := [], Wanted(batch, indexes);
      assert flags + Falses(|indexes|) == Falses(|indexes|) && ns[0..] == ns;
      for j := 0 to |indexes|
        invariant Granting(old(allow[..]), allow[..], indexes, ns, start, j, remaining, flags)
      {
        var idx := indexes[j];
        assert InsideAt(indexes, |batch|, j);
        GrantStep(old(allow[..]), allow[..], indexes, ns, start, j, remaining, flags);
        ghost var before := allow[..];
        if batch[idx].n <= remaining {
          allow[idx] := true;
          assert allow[..] == before[idx := true];
          remaining := remaining - batch[idx].n;
          flags := flags + [true];
        } else {
          flags := flags + [false];
        }
      }
      assert flags + Falses(0) == flags && flags + Grants(remaining, ns[|indexes|..]) == flags;
      assert forall i {:trigger allow[i]} :: 0 <= i < |batch| ==> allow[i] == allow[..][i];
    }

    method grantAll(batch: seq<Request>, group: map<Text, seq<nat>>, now: map<Text, int>, allow: array<bool>)
      returns (refills: map<Text, int>)
      requires Grouped(batch, group) && group.Keys <= now.Keys && allow.Length == |batch|
      requires forall i {:trigger allow[i]} :: 0 <= i < |batch| ==> !allow[i]
      modifies allow
      ensures refills.Keys == group.Keys
      ensures forall k {:trigger refills[k]} :: k in group ==> refills[k] == Refill(Held(k), burst, limit, now[k])
      ensures forall k {:trigger Indexes(batch, k)} :: k in group ==>
        Flags(allow[..], Indexes(batch, k),
          Grants(Available(Held(k), burst, limit, now[k]), Wanted(batch, Indexes(batch, k))))
    {
      refills := map[];
      var keys := group.Keys;
      while keys != {}
        invariant keys <= group.Keys && refills.Keys == group.Keys - keys
        invariant forall k {:trigger refills[k]} :: k in refills ==> refills[k] == Refill(Held(k), burst, limit, now[k])
        invariant forall k {:trigger Indexes(batch, k)} :: k in keys ==>
          Flags(allow[..], Indexes(batch, k), Falses(|Indexes(batch, k)|))
        invariant forall k {:trigger Indexes(batch, k)} :: k in refills ==>
          Flags(allow[..], Indexes(batch, k),
            Grants(Available(Held(k), burst, limit, now[k]), Wanted(batch, Indexes(batch, k))))
        decreases keys
      {
        var key :| key in keys;
        var refill, remaining := readKey(key, now[key]);
        IndexesGood(batch, key);
        assert GroupedAt(batch, group, key);
        ghost var before := allow[..];
        grantKey(batch, group[key], remaining, allow);
        forall k {:trigger Indexes(batch, k)} | k != key ensures FlagsSame(before, allow[..], Indexes(batch, k)) {
          SameFlags(before, allow[..], Indexes(batch, k), Indexes(batch, key));
        }
        refills := refills[key := refill];
        keys := keys - {key};
      }
    }

    // One key's commands of the pipeline: a refill, a change for each request, and the clock.
    method storeKey(batch: seq<Request>, key: Text, indexes: seq<nat>, refill: int, stored: int, flags: seq<bool>,
                    ghost grants: seq<bool>)
      requires Inside(indexes, |batch|) && |flags| == |batch| && Flags(flags, indexes, grants)
      modifies this`store
      ensures store == old(store)[key
        := Bucket(Tokens(old(Held(key))) + refill - Sum(Wanted(batch, indexes), grants), stored)]
    {
      var tokens := (if key in store && store[key].Bucket? then store[key].tokens else 0) + refill;
      ghost var ns := Wanted(batch, indexes);
      for j := 0 to |indexes|
        invariant store == old(store)
        invariant tokens == Tokens(Held(key)) + refill - Sum(ns[..j], grants[..j])
      {
        assert InsideAt(indexes, |batch|, j) && FlagAt(flags, indexes, grants, j);
        SumLast(ns, grants, j);
        var delta := 0;
        if flags[indexes[j]] {
          delta := -batch[indexes[j]].n;
        }
        tokens := tokens + delta;
      }
      assert ns[..|indexes|] == ns && grants[..|indexes|] == grants;
      store := store[key := Bucket(tokens, stored)];
    }

    method storeAll(batch: seq<Request>, group: map<Text, seq<nat>>, refills: map<Text, int>, stored: map<Text, int>,
                    flags: seq<bool>, ghost now: map<Text, int>)
      requires Grouped(batch, group) && group.Keys == refills.Keys && group.Keys <= stored.Keys
        && group.Keys <= now.Keys && |flags| == |batch|
      requires forall k {:trigger refills[k]} :: k in group ==> refills[k] == Refill(Held(k), burst, limit, now[k])
      requires forall k {:trigger Indexes(batch, k)} :: k in group ==>
        Flags(flags, Indexes(batch, k),
          Grants(Available(Held(k), burst, limit, now[k]), Wanted(batch, Indexes(batch, k))))
      modifies this`store
      ensures forall k {:trigger Held(k)} :: Held(k) == if k in group then
        AfterBatch(old(Held(k)), burst, limit, Batch(Wanted(batch, Indexes(batch, k)), now[k], stored[k]))
          else old(Held(k))
    {
      var keys := group.Keys;
      while keys != {}
        invariant keys <= group.Keys
        invariant forall k {:trigger Held(k)} :: Held(k) == if k in group && k !in keys then
          AfterBatch(old(Held(k)), burst, limit, Batch(Wanted(batch, Indexes(batch, k)), now[k], stored[k]))
            else old(Held(k))
        decreases keys
      {
        var key :| key in keys;
        assert GroupedAt(batch, group, key);
        IndexesGood(batch, key);
        ghost var grants := Grants(Available(Held(key), burst, limit, now[key]), Wanted(batch, group[key]));
        SumGrants(Available(Held(key), burst, limit, now[key]), Wanted(batch, group[key]));
        assert Held(key) == old(Held(key));
        label before:
        storeKey(batch, key, group[key], refills[key], stored[key], flags, grants);
        assert Held(key) == AfterBatch(old(Held(key)), burst, limit,
          Batch(Wanted(batch, Indexes(batch, key)), now[key], stored[key]));
        assert forall k {:trigger Held(k)} :: k != key ==> Held(k) == old@before(Held(k));
        keys := keys - {key};
      }
    }

    static method groupByKey(batch: seq<Request>) returns (group: map<Text, seq<nat>>)
      ensures Grouped(batch, group)
    {
      group := map[];
      for i := 0 to |batch|
        invariant Grouped(batch[..i], group)
      {
        var key := batch[i].redisKey;
        assert batch[..i + 1][..i] == batch[..i];
        ghost var before := group;
        group := group[key := (if key in group then group[key] else []) + [i]];
        forall k {:trigger GroupedAt(batch[..i + 1], group, k)} ensures GroupedAt(batch[..i + 1], group, k) {
          assert GroupedAt(batch[..i], before, k);
        }
      }
      assert batch[..|batch|] == batch;
    }
  }

  ghost predicate Grouped(batch: seq<Request>, group: map<Text, seq<nat>>) {
    forall k {:trigger GroupedAt(batch, group, k)} :: GroupedAt(batch, group, k)
  }

  ghost predicate GroupedAt(batch: seq<Request>, group: map<Text, seq<nat>>, k: Text) {
    Indexes(batch, k) == (if k in group then group[k] else []) && (k in group ==> group[k] != [])
  }

  // One batch with the clock readings for its keys, all between start and end.
  datatype Round = Round(batch: seq<Request>, now: map<Text, int>, stored: map<Text, int>, start: int, end: int)

  ghost predicate Clocked(r: Round) {
    forall i {:trigger r.batch[i]} :: 0 <= i < |r.batch| ==>
      r.batch[i].redisKey in r.now && r.batch[i].redisKey in r.stored
  }

  ghost function BatchOf(r: Round, key: Text): (b: Batch)
    requires Clocked(r) && Indexes(r.batch, key) != []
    ensures key in r.now && key in r.stored
  {
    assert r.batch[Indexes(r.batch, key)[0]].redisKey == key;
    Batch(Wanted(r.batch, Indexes(r.batch, key)), r.now[key], r.stored[key])
  }

  // What a run of rounds means for one key.
  ghost function Project(rounds: seq<Round>, key: Text): (run: seq<Batch>)
    requires forall i {:trigger rounds[i]} :: 0 <= i < |rounds| ==> Clocked(rounds[i])
  {
    if rounds == [] then [] else
      assert Clocked(rounds[0]);
      (if Indexes(rounds[0].batch, key) == [] then [] else [BatchOf(rounds[0], key)]) + Project(rounds[1..], key)
  }

  lemma ProjectStep(rounds: seq<Round>, i: nat, key: Text)
    requires i < |rounds| && forall i {:trigger rounds[i]} :: 0 <= i < |rounds| ==> Clocked(rounds[i])
    ensures Indexes(rounds[i].batch, key) == [] ==> Project(rounds[i..], key) == Project(rounds[i + 1..], key)
    ensures Indexes(rounds[i].batch, key) != [] ==> key in rounds[i].now && key in rounds[i].stored
    ensures Indexes(rounds[i].batch, key) != [] ==>
      Project(rounds[i..], key) == [BatchOf(rounds[i], key)] + Project(rounds[i + 1..], key)
  {
    assert rounds[i..][0] == rounds[i] && rounds[i..][1..] == rounds[i + 1..];
    var indexes := Indexes(rounds[i].batch, key);
    if indexes != [] { assert rounds[i].batch[indexes[0]].redisKey == key; }
  }

  // The rounds of a shard follow each other on the clock.
  ghost predicate Timed(rounds: seq<Round>, from: int, to: int) {
    if rounds == [] then from <= to
    else from <= rounds[0].start <= rounds[0].end && WithinRound(rounds[0]) && Timed(rounds[1..], rounds[0].end, to)
  }

  ghost predicate WithinRound(r: Round) {
    && Clocked(r)
    && forall i {:trigger r.batch[i]} :: 0 <= i < |r.batch| ==>
         r.batch[i].n >= 1 && r.start <= r.now[r.batch[i].redisKey] <= r.stored[r.batch[i].redisKey] <= r.end
  }

  lemma {:induction false} TimedClocked(rounds: seq<Round>, from: int, to: int)
    requires Timed(rounds, from, to)
    ensures from <= to && forall i {:trigger rounds[i]} :: 0 <= i < |rounds| ==> Clocked(rounds[i])
    decreases |rounds|
  {
    if rounds != [] {
      TimedClocked(rounds[1..], rounds[0].end, to);
      forall i {:trigger rounds[i]} | 0 <= i < |rounds| ensures Clocked(rounds[i]) {
        if i > 0 { assert rounds[1..][i - 1] == rounds[i]; }
      }
    }
  }

  // The batch of one round, in front of those of later rounds.
  lemma BatchFirst(r: Round, rest: seq<Batch>, key: Text, from: int, to: int)
    requires WithinRound(r) && from <= r.start && Indexes(r.batch, key) != [] && Ordered(rest, r.end, to)
    ensures Ordered([BatchOf(r, key)] + rest, from, to) && r.start <= BatchOf(r, key).now
  {
    var indexes := Indexes(r.batch, key);
    IndexesExact(r.batch, key);
    assert r.batch[indexes[0]].redisKey == key && r.start <= r.now[key] <= r.stored[key] <= r.end;
    OrderedEarlier(rest, r.end, r.stored[key], to);
    forall j {:trigger Wanted(r.batch, indexes)[j]} | 0 <= j < |indexes| ensures Wanted(r.batch, indexes)[j] >= 1 {
      assert InsideAt(indexes, |r.batch|, j) && r.batch[indexes[j]].n >= 1;
    }
    assert ([BatchOf(r, key)] + rest)[1..] == rest;
  }

  lemma {:induction false} ProjectOrdered(rounds: seq<Round>, key: Text, from: int, to: int)
    requires Timed(rounds, from, to)
    ensures forall i {:trigger rounds[i]} :: 0 <= i < |rounds| ==> Clocked(rounds[i])
    ensures Ordered(Project(rounds, key), from, to)
    ensures Project(rounds, key) != [] ==> rounds != [] && rounds[0].start <= Project(rounds, key)[0].now
    decreases |rounds|
  {
    TimedClocked(rounds, from, to);
    if rounds != [] {
      var r, rest := rounds[0], Project(rounds[1..], key);
      ProjectOrdered(rounds[1..], key, r.end, to);
      if Indexes(r.batch, key) == [] {
        assert Project(rounds, key) == rest;
        OrderedEarlier(rest, r.end, from, to);
        if rest != [] { FirstLater(rest, r.end, to); }
      } else {
        BatchFirst(r, rest, key, from, to);
      }
    }
  }

  lemma OrderedEarlier(run: seq<Batch>, late: int, from: int, to: int)
    requires Ordered(run, late, to) && from <= late
    ensures Ordered(run, from, to)
  {
  }

  lemma FirstLater(run: seq<Batch>, from: int, to: int)
    requires Ordered(run, from, to) && run != []
    ensures from <= run[0].now
  {
  }

  // Whatever else a shard serves, the rounds between a and b grant a key no more than the burst and
  // what is earned in between.
  lemma ShardWindowBound(s: Bucket, burst: int, limit: real, rounds: seq<Round>, key: Text, a: int, b: int)
    requires burst > 0 && limit > 0.0 && Sane(s, burst, a) && Timed(rounds, a, b)
    ensures forall i {:trigger rounds[i]} :: 0 <= i < |rounds| ==> Clocked(rounds[i])
    ensures TotalGranted(s, burst, limit, Project(rounds, key)) as real <= burst as real + Earned(b - a, limit)
    ensures Sane(AfterRun(s, burst, limit, Project(rounds, key)), burst, b)
  {
    ProjectOrdered(rounds, key, a, b);
    OrderedEnd(Project(rounds, key), a, b);
    if Project(rounds, key) != [] { FirstLater(Project(rounds, key), a, b); }
    WindowBound(s, burst, limit, Project(rounds, key), a, a, b);
    TokensKept(s, burst, limit, Project(rounds, key), a, b);
  }

  // And whatever else it serves, the key does not lose what it earns.
  lemma ShardEarns(s: Bucket, burst: int, limit: real, rounds: seq<Round>, key: Text, a: int, b: int)
    requires burst > 0 && limit > 0.0 && Sane(s, burst, a) && Timed(rounds, a, b)
    ensures forall i {:trigger rounds[i]} :: 0 <= i < |rounds| ==> Clocked(rounds[i])
    ensures var run := Project(rounds, key);
      var spent := Spent(s, burst, limit, run);
      if s.Absent? then run != [] ==> spent >= burst
      else spent >= burst || s.tokens as real + Earned(Counted(s.last, run), limit) <= spent as real + |run| as real
  {
    ProjectOrdered(rounds, key, a, b);
    var run := Project(rounds, key);
    if s.Bucket? {
      TokensEarned(s, burst, limit, run, a, b);
    } else if run != [] {
      NewKeyEarns(burst, limit, run, a, b);
    }
  }

  ghost function Falses(n: nat): (r: seq<bool>) {
    seq(n, i => false)
  }

  lemma FalsesStep(flags: seq<bool>, n: nat)
    requires n > 0
    ensures flags + Falses(n) == flags + [false] + Falses(n - 1)
    ensures (flags + Falses(n))[|flags| := true] == flags + [true] + Falses(n - 1)
  {
    assert Falses(n) == [false] + Falses(n - 1);
  }

  // The first j requests of a key are decided, and the flags of the others still down.
  ghost predicate Granting(orig: seq<bool>, a: seq<bool>, indexes: seq<nat>, ns: seq<int>, start: int, j: nat,
                           remaining: int, flags: seq<bool>) {
    && |a| == |orig| && |flags| == j <= |indexes| == |ns| && Distinct(indexes)
    && Grants(start, ns) == flags + Grants(remaining, ns[j..])
    && Flags(a, indexes, flags + Falses(|indexes| - j))
    && forall i {:trigger a[i]} :: 0 <= i < |a| && i !in indexes ==> a[i] == orig[i]
  }

  lemma GrantStep(orig: seq<bool>, a: seq<bool>, indexes: seq<nat>, ns: seq<int>, start: int, j: nat, remaining: int,
                  flags: seq<bool>)
    requires Granting(orig, a, indexes, ns, start, j, remaining, flags) && j < |indexes| && indexes[j] < |a|
    ensures ns[j] <= remaining ==>
      Granting(orig, a[indexes[j] := true], indexes, ns, start, j + 1, remaining - ns[j], flags + [true])
    ensures ns[j] > remaining ==> Granting(orig, a, indexes, ns, start, j + 1, remaining, flags + [false])
  {
    assert ns[j..][0] == ns[j] && ns[j..][1..] == ns[j + 1..];
    FalsesStep(flags, |indexes| - j);
    FlagsSet(a, indexes, flags + Falses(|indexes| - j), j);
    if ns[j] <= remaining {
      assert flags + ([true] + Grants(remaining - ns[j], ns[j + 1..])) == flags + [true]
        + Grants(remaining - ns[j], ns[j + 1..]);
    } else {
      assert flags + ([false] + Grants(remaining, ns[j + 1..])) == flags + [false] + Grants(remaining, ns[j + 1..]);
    }
  }

  ghost predicate Distinct(s: seq<nat>) {
    forall i, j {:trigger s[i], s[j]} :: 0 <= i < j < |s| ==> s[i] != s[j]
  }

  ghost predicate Inside(s: seq<nat>, n: nat) {
    forall j {:trigger InsideAt(s, n, j)} :: 0 <= j < |s| ==> InsideAt(s, n, j)
  }

  ghost predicate InsideAt(s: seq<nat>, n: nat, j: nat)
    requires j < |s|
  {
    s[j] < n
  }

  // The flags at some places.
  ghost predicate Flags(flags: seq<bool>, indexes: seq<nat>, values: seq<bool>) {
    |indexes| == |values| && forall j {:trigger FlagAt(flags, indexes, values, j)} :: 0 <= j < |indexes| ==>
      FlagAt(flags, indexes, values, j)
  }

  ghost predicate FlagAt(flags: seq<bool>, indexes: seq<nat>, values: seq<bool>, j: nat)
    requires j < |indexes| == |values|
  {
    indexes[j] < |flags| && flags[indexes[j]] == values[j]
  }

  lemma FlagsSet(flags: seq<bool>, indexes: seq<nat>, values: seq<bool>, j: nat)
    requires Flags(flags, indexes, values) && Distinct(indexes) && j < |indexes| && indexes[j] < |flags|
    ensures Flags(flags[indexes[j] := true], indexes, values[j := true])
  {
    forall k {:trigger FlagAt(flags[indexes[j] := true], indexes, values[j := true], k)} | 0 <= k < |indexes|
      ensures FlagAt(flags[indexes[j] := true], indexes, values[j := true], k)
    {
      assert FlagAt(flags, indexes, values, k);
      if k < j { assert indexes[k] != indexes[j]; } else if k > j { assert indexes[j] != indexes[k]; }
    }
  }

  ghost predicate FlagsSame(a: seq<bool>, b: seq<bool>, indexes: seq<nat>) {
    forall values {:trigger Flags(b, indexes, values)} :: Flags(a, indexes, values) ==> Flags(b, indexes, values)
  }

  lemma IndexesGood(batch: seq<Request>, key: Text)
    ensures Distinct(Indexes(batch, key)) && Inside(Indexes(batch, key), |batch|)
  {
    IndexesExact(batch, key);
  }

  lemma SameFlags(a: seq<bool>, b: seq<bool>, indexes: seq<nat>, changed: seq<nat>)
    requires |a| == |b| && Inside(indexes, |a|)
    requires forall i {:trigger b[i]} :: 0 <= i < |b| && i !in changed ==> b[i] == a[i]
    requires forall j {:trigger indexes[j]} :: 0 <= j < |indexes| ==> indexes[j] !in changed
    ensures FlagsSame(a, b, indexes)
  {
    forall values {:trigger Flags(b, indexes, values)} | Flags(a, indexes, values) ensures Flags(b, indexes, values) {
      forall j {:trigger FlagAt(b, indexes, values, j)} | 0 <= j < |indexes| ensures FlagAt(b, indexes, values, j) {
        assert FlagAt(a, indexes, values, j);
      }
    }
  }

  lemma KeysKnown(batch: seq<Request>, group: map<Text, seq<nat>>, m: map<Text, int>)
    requires Grouped(batch, group) && forall i {:trigger batch[i]} :: 0 <= i < |batch| ==> batch[i].redisKey in m
    ensures group.Keys <= m.Keys
    ensures forall k {:trigger Indexes(batch, k)} :: k in group <==> Indexes(batch, k) != []
  {
    forall k ensures k in group <==> Indexes(batch, k) != [] { assert GroupedAt(batch, group, k); }
    forall k | k in group ensures k in m {
      assert batch[Indexes(batch, k)[0]].redisKey == k;
    }
  }
}
