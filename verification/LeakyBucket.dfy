/** The leaky bucket that a Redis script keeps for each key. */
module LeakyBuckets {

  // The two fields of a key's hash.
  datatype Stored = Stored(current: int, last: int)

  datatype Reply = Reply(allowed: bool, delay: int, current: int)

  // The time one unit takes to leak, in nanoseconds.
  function leakDuration(limit: real): (leak: int)
    ensures leak >= 1
    ensures limit > 0.0 && 1_000_000_000.0 / limit >= 1.0 ==>
      leak as real <= 1_000_000_000.0 / limit < leak as real + 1.0
    ensures limit > 0.0 && 1_000_000_000.0 / limit < 1.0 ==> leak == 1
    ensures limit <= 0.0 ==> leak == 1_000_000_000
  {
    if limit <= 0.0 then 1_000_000_000
    else if (1_000_000_000.0 / limit).Floor <= 0 then 1
    else (1_000_000_000.0 / limit).Floor
  }

  // ---- What one run of the script does to one key -----------------------------

  // A missing key is an empty bucket, last updated now.
  ghost function Fetch(db: map<string, Stored>, key: string, now: int): (s: Stored) {
    if key in db then db[key] else Stored(0, now)
  }

  // Whole units leak; the rest of the elapsed time is kept for later.
  ghost function Leak(s: Stored, leak: int, now: int): (r: Stored)
    requires leak >= 1
  {
    var last := if s.last > now then now else s.last;
    var leaked := (now - last) / leak;
    Stored(if leaked == 0 then s.current else if s.current > leaked then s.current - leaked
      else 0, last + leaked * leak)
  }

  ghost predicate Fits(s: Stored, capacity: int, n: int) {
    n <= capacity - s.current
  }

  ghost function Admit(s: Stored, capacity: int, n: int): (r: Stored) {
    if Fits(s, capacity, n) then Stored(s.current + n, s.last) else s
  }

  datatype Request = Request(key: string, n: int, now: int)

  // What one request leaves in the database, and whether it is let through.
  ghost function Served(db: map<string, Stored>, burst: int, leak: int, r: Request): map<string, Stored>
    requires leak >= 1
  {
    if r.n > burst then db else db[r.key := Admit(Leak(Fetch(db, r.key, r.now), leak, r.now), burst, r.n)]
  }

  ghost predicate Grants(db: map<string, Stored>, burst: int, leak: int, r: Request)
    requires leak >= 1
  {
    r.n <= burst && Fits(Leak(Fetch(db, r.key, r.now), leak, r.now), burst, r.n)
  }

  class RateLimiter {
    const burst: int
    const leak: int
    var db: map<string, Stored>

    constructor (limit: real, burst: int)
      requires limit > 0.0 && burst > 0
      ensures this.burst == burst && leak == leakDuration(limit) && db == map[]
    {
      this.burst := burst;
      leak := leakDuration(limit);
      db := map[];
    }

    // The script as one atomic step at time now.
    method redisAllow(key: string, n: int, now: int) returns (reply: Reply)
      requires leak >= 1
      modifies this
      ensures var s := Leak(Fetch(old(db), key, now), leak, now);
        && db == old(db)[key := Admit(s, burst, n)]
        && reply.allowed == Fits(s, burst, n) && reply.current == Admit(s, burst, n).current
        && reply.delay == if Fits(s, burst, n) then 0 else (n - (burst - s.current)) * leak
    {
      var current, last := 0, now;
      if key in db {
        current, last := db[key].current, db[key].last;
      }
      if last > now {
        last := now;
      }
      var elapsed := now - last;
      if leak > 0 {
        if elapsed >= leak {
          var leaked := elapsed / leak;
          Divides(elapsed, leak);
          current := if current - leaked > 0 then current - leaked else 0;
          last := last + leaked * leak;
        } else {
          NoneLeaks(elapsed, leak);
        }
      }
      var allowed, delay := false, 0;
      if n <= burst - current {
        current := current + n;
        allowed := true;
      } else {
        var needed := n - (burst - current);
        delay := needed * leak;
      }
      db := db[key := Stored(current, last)];
      reply := Reply(allowed, delay, current);
    }

    // Requests beyond the burst are turned away without asking.
    method allowWithDelay(key: string, n: int, now: int) returns (allowed: bool, delay: int)
      requires leak >= 1
      modifies this
      ensures n > burst ==> !allowed && delay == 0 && db == old(db)
      ensures n <= burst ==> var s := Leak(Fetch(old(db), key, now), leak, now);
        allowed == Fits(s, burst, n) && db == old(db)[key := Admit(s, burst, n)]
          && (!allowed ==> delay == (n - (burst - s.current)) * leak)
      ensures db == Served(old(db), burst, leak, Request(key, n, now))
      ensures allowed ==> delay == 0
      ensures allowed <==> Grants(old(db), burst, leak, Request(key, n, now))
    {
      if n > burst {
        return false, 0;
      }
      var reply := redisAllow(key, n, now);
      allowed := reply.allowed;
      delay := if reply.delay < 0 then 0 else reply.delay;
      NotNegative(n - (burst - Leak(Fetch(old(db), key, now), leak, now).current), leak);
    }
  }

  lemma Divides(elapsed: int, leak: int)
    requires leak >= 1 && elapsed >= leak
    ensures elapsed / leak >= 1
  {
  }

  lemma NoneLeaks(elapsed: int, leak: int)
    requires 0 <= elapsed < leak
    ensures elapsed / leak == 0
  {
  }

  lemma NotNegative(x: int, y: int)
    requires y >= 1
    ensures x > 0 ==> x * y > 0
  {
  }

  // ---- Runs for one key ---------------------------------------------------------

  datatype Call = Call(now: int, n: int)

  // The level is within the bucket, and the last update not in the future.
  ghost predicate Level(s: Stored, capacity: int, now: int) {
    0 <= s.current <= capacity && s.last <= now
  }

  ghost predicate Ordered(calls: seq<Call>, from: int, to: int) {
    if calls == [] then from <= to
    else from <= calls[0].now && 1 <= calls[0].n && Ordered(calls[1..], calls[0].now, to)
  }

  ghost function After(s: Stored, capacity: int, leak: int, calls: seq<Call>): (r: Stored)
    requires leak >= 1
    decreases |calls|
  {
    if calls == [] then s
    else After(Admit(Leak(s, leak, calls[0].now), capacity, calls[0].n), capacity, leak, calls[1..])
  }

  // The units admitted by all calls together.
  ghost function Admitted(s: Stored, capacity: int, leak: int, calls: seq<Call>): (units: int)
    requires leak >= 1
    decreases |calls|
  {
    if calls == [] then 0
    else
      var t := Leak(s, leak, calls[0].now);
      (if Fits(t, capacity, calls[0].n) then calls[0].n else 0)
        + Admitted(Admit(t, capacity, calls[0].n), capacity, leak, calls[1..])
  }

  lemma DivFacts(x: int, d: int)
    requires d >= 1
    ensures x / d * d <= x < x / d * d + d
  {
  }

  lemma Products(a: int, b: int, d: int)
    requires d >= 1 && a <= b
    ensures a * d <= b * d
  {
  }

  lemma Quotient(x: int, q: int, d: int)
    requires d >= 1 && q * d <= x < q * d + d
    ensures x / d == q
  {
    DivFacts(x, d);
    var r := x / d;
    if r < q {
      Products(r + 1, q, d);
    } else if q < r {
      Products(q + 1, r, d);
    }
  }

  lemma DivShift(x: int, k: int, d: int)
    requires d >= 1
    ensures (x - k * d) / d == x / d - k
  {
    DivFacts(x, d);
    Quotient(x - k * d, x / d - k, d);
  }

  lemma DivSign(x: int, d: int)
    requires d >= 1
    ensures x >= 0 ==> x / d >= 0
  {
    DivFacts(x, d);
  }

  lemma LeakKeeps(s: Stored, capacity: int, leak: int, now: int)
    requires leak >= 1 && Level(s, capacity, now)
    ensures Level(Leak(s, leak, now), capacity, now)
    ensures now - leak < Leak(s, leak, now).last && Leak(s, leak, now).current <= s.current
    ensures Leak(s, leak, now).current >= s.current - (now - s.last) / leak
    ensures Leak(s, leak, now).last == s.last + (now - s.last) / leak * leak
  {
    DivFacts(now - s.last, leak);
    DivSign(now - s.last, leak);
  }

  // When the clock has gone back nothing leaks, and the time counts from now.
  lemma ClockBack(s: Stored, leak: int, now: int)
    requires leak >= 1 && s.last >= now
    ensures Leak(s, leak, now) == Stored(s.current, now)
  {
  }

  // The level stays between empty and full in every run.
  lemma {:induction false} LevelKept(s: Stored, capacity: int, leak: int, calls: seq<Call>, from: int, to: int)
    requires leak >= 1 && Level(s, capacity, from) && Ordered(calls, from, to)
    ensures Level(After(s, capacity, leak, calls), capacity, to)
    decreases |calls|
  {
    if calls != [] {
      LeakKeeps(s, capacity, leak, calls[0].now);
      LevelKept(Admit(Leak(s, leak, calls[0].now), capacity, calls[0].n), capacity, leak, calls[1..], calls[0].now, to);
    } else {
      assert from <= to;
    }
  }

  // What is admitted until b fits into the space left now and what leaks meanwhile.
  lemma {:induction false} AdmittedBound(s: Stored, capacity: int, leak: int, calls: seq<Call>, from: int, b: int)
    requires leak >= 1 && Level(s, capacity, from) && Ordered(calls, from, b)
    ensures 0 <= Admitted(s, capacity, leak, calls) <= capacity - s.current + (b - s.last) / leak
    decreases |calls|
  {
    if calls == [] {
      DivSign(b - s.last, leak);
    } else {
      var t := Leak(s, leak, calls[0].now);
      LeakKeeps(s, capacity, leak, calls[0].now);
      AdmittedBound(Admit(t, capacity, calls[0].n), capacity, leak, calls[1..], calls[0].now, b);
      DivShift(b - s.last, (calls[0].now - s.last) / leak, leak);
    }
  }

  // In any window at most the capacity and one unit for every started leak interval are admitted.
  lemma WindowBound(s: Stored, capacity: int, leak: int, calls: seq<Call>, from: int, a: int, b: int)
    requires leak >= 1 && Level(s, capacity, from) && Ordered(calls, from, b) && from <= a <= b
    requires calls != [] ==> a <= calls[0].now
    ensures Admitted(s, capacity, leak, calls) <= capacity + (b - a + leak - 1) / leak
  {
    if calls == [] {
      DivSign(b - a + leak - 1, leak);
    } else {
      var t := Leak(s, leak, calls[0].now);
      LeakKeeps(s, capacity, leak, calls[0].now);
      AdmittedBound(Admit(t, capacity, calls[0].n), capacity, leak, calls[1..], calls[0].now, b);
      DivMonotone(b - t.last, b - a + leak - 1, leak);
    }
  }

  lemma DivMonotone(x: int, y: int, d: int)
    requires d >= 1 && x <= y
    ensures x / d <= y / d
  {
    DivFacts(x, d);
    DivFacts(y, d);
    var p, q := x / d, y / d;
    if p > q { Products(q + 1, p, d); }
  }

  // ---- What is refused -----------------------------------------------------------

  ghost function TimeAt(calls: seq<Call>, i: nat, now: int): (t: int) {
    if i < |calls| then calls[i].now else now
  }

  // What the ith call finds in the bucket.
  ghost function FoundBy(s: Stored, capacity: int, leak: int, calls: seq<Call>, i: nat, now: int): (t: Stored)
    requires leak >= 1 && i <= |calls|
  {
    Leak(After(s, capacity, leak, calls[..i]), leak, TimeAt(calls, i, now))
  }

  ghost function LevelNow(s: Stored, capacity: int, leak: int, calls: seq<Call>, now: int): (level: int)
    requires leak >= 1
  {
    Leak(After(s, capacity, leak, calls), leak, now).current
  }

  // The level is what the ith call found and what has been admitted from then on, less what has leaked
  // meanwhile.
  ghost predicate Backlog(s: Stored, capacity: int, leak: int, calls: seq<Call>, now: int, i: nat, level: int)
    requires leak >= 1 && i <= |calls|
  {
    var t := FoundBy(s, capacity, leak, calls, i, now);
    level == t.current + Admitted(After(s, capacity, leak, calls[..i]), capacity, leak,
      calls[i..]) - (now - t.last) / leak
  }

  lemma BacklogLater(s: Stored, capacity: int, leak: int, calls: seq<Call>, now: int, i: nat, level: int)
    requires leak >= 1 && calls != [] && i < |calls|
    requires Backlog(Admit(Leak(s, leak, calls[0].now), capacity, calls[0].n), capacity, leak, calls[1..], now,
      i, level)
    ensures Backlog(s, capacity, leak, calls, now, i + 1, level)
    ensures FoundBy(s, capacity, leak, calls, i + 1, now) ==
      FoundBy(Admit(Leak(s, leak, calls[0].now), capacity, calls[0].n), capacity, leak, calls[1..], i, now)
  {
    assert calls[..i + 1][1..] == calls[1..][..i] && calls[i + 1..] == calls[1..][i..];
  }

  // Nothing leaked to the ground between the first call and the next: the account goes back to the first.
  lemma BacklogFirst(s: Stored, capacity: int, leak: int, calls: seq<Call>, from: int, now: int, level: int)
    requires leak >= 1 && calls != [] && Level(s, capacity, from) && Ordered(calls, from, now)
    requires var u := Admit(Leak(s, leak, calls[0].now), capacity, calls[0].n);
      && Backlog(u, capacity, leak, calls[1..], now, 0, level)
      && FoundBy(u, capacity, leak, calls[1..], 0, now).current > 0
    ensures Backlog(s, capacity, leak, calls, now, 0, level)
  {
    var t := Leak(s, leak, calls[0].now);
    var u := Admit(t, capacity, calls[0].n);
    var next := TimeAt(calls[1..], 0, now);
    assert calls[..0] == [] && calls[0..] == calls && calls[1..][..0] == [] && calls[1..][0..] == calls[1..];
    LeakKeeps(s, capacity, leak, calls[0].now);
    LeakExact(u, leak, next);
    DivShift(now - u.last, (next - u.last) / leak, leak);
  }

  // Unless the bucket ran empty, exactly the whole units that fit into the time have leaked.
  lemma LeakExact(u: Stored, leak: int, now: int)
    requires leak >= 1 && u.last <= now && Leak(u, leak, now).current > 0
    ensures Leak(u, leak, now).current == u.current - (now - u.last) / leak
    ensures Leak(u, leak, now).last == u.last + (now - u.last) / leak * leak
  {
    DivSign(now - u.last, leak);
  }

  lemma FoundNext(u: Stored, capacity: int, leak: int, calls: seq<Call>, from: int, now: int)
    requires leak >= 1 && Level(u, capacity, from) && Ordered(calls, from, now)
    ensures FoundBy(u, capacity, leak, calls, 0, now).current >= 0
  {
    assert calls[..0] == [];
    LeakKeeps(u, capacity, leak, TimeAt(calls, 0, now));
  }

  lemma NoCalls(s: Stored, capacity: int, leak: int, now: int)
    requires leak >= 1 && Level(s, capacity, now)
    ensures Backlog(s, capacity, leak, [], now, 0, LevelNow(s, capacity, leak, [], now))
  {
    var none: seq<Call> := [];
    assert none[..0] == none && none[0..] == none;
    LeakKeeps(s, capacity, leak, now);
    Quotient(now - Leak(s, leak, now).last, 0, leak);
  }

  /** The level at any time is exactly what has been admitted since the bucket was last empty, or since
      the start of the run, less what has leaked since. */
  lemma {:induction false} LevelExact(s: Stored, capacity: int, leak: int, calls: seq<Call>, from: int, now: int)
    returns (i: nat)
    requires leak >= 1 && Level(s, capacity, from) && Ordered(calls, from, now)
    ensures i <= |calls| && Backlog(s, capacity, leak, calls, now, i, LevelNow(s, capacity, leak, calls, now))
    ensures i == 0 || FoundBy(s, capacity, leak, calls, i, now).current == 0
    decreases |calls|
  {
    if calls == [] {
      i := 0;
      NoCalls(s, capacity, leak, now);
    } else {
      var t := Leak(s, leak, calls[0].now);
      var u := Admit(t, capacity, calls[0].n);
      LeakKeeps(s, capacity, leak, calls[0].now);
      var j := LevelExact(u, capacity, leak, calls[1..], calls[0].now, now);
      var level := LevelNow(s, capacity, leak, calls, now);
      FoundNext(u, capacity, leak, calls[1..], calls[0].now, now);
      if j > 0 || FoundBy(u, capacity, leak, calls[1..], 0, now).current == 0 {
        BacklogLater(s, capacity, leak, calls, now, j, level);
        i := j + 1;
      } else {
        BacklogFirst(s, capacity, leak, calls, from, now, level);
        i := 0;
      }
    }
  }

  // ---- Runs for all keys --------------------------------------------------------

  ghost function ServedAll(db: map<string, Stored>, burst: int, leak: int, requests: seq<Request>): map<string, Stored>
    requires leak >= 1
    decreases |requests|
  {
    if requests == [] then db else ServedAll(Served(db, burst, leak, requests[0]), burst, leak, requests[1..])
  }

  // The units that the run lets through for one key.
  ghost function Granted(db: map<string, Stored>, burst: int, leak: int, requests: seq<Request>, key: string): int
    requires leak >= 1
    decreases |requests|
  {
    if requests == [] then 0
    else
      (if requests[0].key == key && Grants(db, burst, leak, requests[0]) then requests[0].n else 0)
      + Granted(Served(db, burst, leak, requests[0]), burst, leak, requests[1..], key)
  }

  // The requests on one key that reach the script.
  ghost function CallsOn(requests: seq<Request>, burst: int, key: string): seq<Call> {
    if requests == [] then []
    else
      (if requests[0].key == key && requests[0].n <= burst then [Call(requests[0].now, requests[0].n)] else [])
      + CallsOn(requests[1..], burst, key)
  }

  // What the first of these calls finds under the key.
  ghost function Found(db: map<string, Stored>, key: string, calls: seq<Call>): Stored {
    Fetch(db, key, if calls == [] then 0 else calls[0].now)
  }

  lemma OwnCall(db: map<string, Stored>, burst: int, leak: int, r: Request, rest: seq<Call>)
    requires leak >= 1 && r.n <= burst
    ensures var calls, t := [Call(r.now, r.n)] + rest, Leak(Fetch(db, r.key, r.now), leak, r.now);
      var found, found' := Found(db, r.key, calls), Found(Served(db, burst, leak, r), r.key, rest);
      && After(found, burst, leak, calls) == After(found', burst, leak, rest)
      && Admitted(found, burst, leak, calls) == (if Grants(db, burst, leak, r) then r.n else 0)
           + Admitted(found', burst, leak, rest)
  {
    assert ([Call(r.now, r.n)] + rest)[1..] == rest;
  }

  lemma OtherCall(db: map<string, Stored>, burst: int, leak: int, r: Request, key: string, calls: seq<Call>)
    requires leak >= 1 && !(r.key == key && r.n <= burst)
    ensures Found(Served(db, burst, leak, r), key, calls) == Found(db, key, calls)
    ensures key in Served(db, burst, leak, r) <==> key in db
  {
  }

  // Each key fares as if its own requests within the burst were the only ones.
  lemma {:induction false} ServedByKey(db: map<string, Stored>, burst: int, leak: int, requests: seq<Request>,
                                       key: string)
    requires leak >= 1
    ensures var calls, db' := CallsOn(requests, burst, key), ServedAll(db, burst, leak, requests);
      && Granted(db, burst, leak, requests, key) == Admitted(Found(db, key, calls), burst, leak, calls)
      && (key in db' <==> key in db || calls != [])
      && (key in db' ==> db'[key] == After(Found(db, key, calls), burst, leak, calls))
    decreases |requests|
  {
    if requests != [] {
      var r, rest := requests[0], CallsOn(requests[1..], burst, key);
      ServedByKey(Served(db, burst, leak, r), burst, leak, requests[1..], key);
      if r.key == key && r.n <= burst {
        OwnCall(db, burst, leak, r, rest);
      } else {
        OtherCall(db, burst, leak, r, key, rest);
        assert CallsOn(requests, burst, key) == rest;
      }
    }
  }

  // The requests follow each other on the clock, each for at least one unit.
  ghost predicate Timed(requests: seq<Request>, from: int, to: int) {
    if requests == [] then from <= to
    else from <= requests[0].now && 1 <= requests[0].n && Timed(requests[1..], requests[0].now, to)
  }

  lemma {:induction false} CallsOrdered(requests: seq<Request>, burst: int, key: string, from: int, to: int)
    requires Timed(requests, from, to)
    ensures from <= to && Ordered(CallsOn(requests, burst, key), from, to)
    decreases |requests|
  {
    if requests != [] {
      var r, rest := requests[0], CallsOn(requests[1..], burst, key);
      CallsOrdered(requests[1..], burst, key, r.now, to);
      if r.key == key && r.n <= burst {
        assert ([Call(r.now, r.n)] + rest)[1..] == rest;
      } else {
        OrderedEarlier(rest, r.now, from, to);
        assert CallsOn(requests, burst, key) == rest;
      }
    }
  }

  lemma OrderedEarlier(calls: seq<Call>, late: int, from: int, to: int)
    requires Ordered(calls, late, to) && from <= late <= to
    ensures Ordered(calls, from, to)
  {
  }

  ghost predicate Levels(db: map<string, Stored>, capacity: int, now: int) {
    forall key {:trigger db[key]} :: key in db ==> Level(db[key], capacity, now)
  }

  // Whatever keys the requests name, every stored level stays between empty and full.
  lemma LevelsKept(db: map<string, Stored>, burst: int, leak: int, requests: seq<Request>, from: int, to: int)
    requires leak >= 1 && burst > 0 && Levels(db, burst, from) && Timed(requests, from, to)
    ensures Levels(ServedAll(db, burst, leak, requests), burst, to)
  {
    var db' := ServedAll(db, burst, leak, requests);
    forall key {:trigger db'[key]} | key in db' ensures Level(db'[key], burst, to) {
      var calls := CallsOn(requests, burst, key);
      ServedByKey(db, burst, leak, requests, key);
      CallsOrdered(requests, burst, key, from, to);
      LevelKept(Found(db, key, calls), burst, leak, calls, if key in db then from else calls[0].now, to);
    }
  }

  // And whatever else is served, the requests between a and b on one key are let through for no more
  // than the burst and one unit for every started leak interval.
  lemma KeyWindowBound(db: map<string, Stored>, burst: int, leak: int, requests: seq<Request>, key: string, a: int,
                       b: int)
    requires leak >= 1 && burst > 0 && Levels(db, burst, a) && Timed(requests, a, b)
    ensures Granted(db, burst, leak, requests, key) <= burst + (b - a + leak - 1) / leak
  {
    var calls := CallsOn(requests, burst, key);
    ServedByKey(db, burst, leak, requests, key);
    CallsOrdered(requests, burst, key, a, b);
    if calls == [] {
      DivSign(b - a + leak - 1, leak);
    } else if key in db {
      WindowBound(db[key], burst, leak, calls, a, a, b);
    } else {
      OrderedEnds(calls, a, b);
      WindowBound(Found(db, key, calls), burst, leak, calls, calls[0].now, calls[0].now, b);
      DivMonotone(b - calls[0].now + leak - 1, b - a + leak - 1, leak);
    }
  }

  lemma {:induction false} OrderedEnds(calls: seq<Call>, from: int, to: int)
    requires Ordered(calls, from, to)
    ensures from <= to
    ensures calls != [] ==> calls[0].now <= to
  {
    if calls != [] { OrderedEnds(calls[1..], calls[0].now, to); }
  }

  /** A request within the burst is refused only when it does not fit: with what its key was let through
      for since the bucket was last empty, or since the start, less what has leaked since, it is more
      than the burst.  The bucket of a new key starts empty. */
  lemma KeyRefused(db: map<string, Stored>, burst: int, leak: int, requests: seq<Request>, from: int, r: Request)
    returns (i: nat)
    requires leak >= 1 && burst > 0 && Levels(db, burst, from) && Timed(requests, from, r.now)
    requires r.n <= burst && !Grants(ServedAll(db, burst, leak, requests), burst, leak, r)
    ensures var calls := CallsOn(requests, burst, r.key);
      var s := Found(db, r.key, calls);
      && i <= |calls| && (i > 0 || r.key !in db ==> FoundBy(s, burst, leak, calls, i, r.now).current == 0)
      && exists level: int {:trigger Backlog(s, burst, leak, calls, r.now, i, level)} ::
           Backlog(s, burst, leak, calls, r.now, i, level) && level + r.n > burst
  {
    var calls := CallsOn(requests, burst, r.key);
    var s := Found(db, r.key, calls);
    ServedByKey(db, burst, leak, requests, r.key);
    CallsOrdered(requests, burst, r.key, from, r.now);
    var start := if r.key in db then from else if calls == [] then r.now else calls[0].now;
    if r.key !in db && calls == [] {
      assert !(r.key in ServedAll(db, burst, leak, requests));
      EmptyFits(burst, leak, r);
    }
    i := LevelExact(s, burst, leak, calls, start, r.now);
    if r.key !in db && i == 0 { assert calls[..0] == []; EmptyStays(s, leak, TimeAt(calls, 0, r.now)); }
    assert Backlog(s, burst, leak, calls, r.now, i, LevelNow(s, burst, leak, calls, r.now));
  }

  lemma EmptyStays(s: Stored, leak: int, now: int)
    requires leak >= 1 && s.current == 0
    ensures Leak(s, leak, now).current == 0
  {
    DivSign(now - (if s.last > now then now else s.last), leak);
  }

  lemma EmptyFits(burst: int, leak: int, r: Request)
    requires leak >= 1 && r.n <= burst
    ensures Fits(Leak(Stored(0, r.now), leak, r.now), burst, r.n)
  {
    EmptyStays(Stored(0, r.now), leak, r.now);
  }

  // ---- Retrying after the delay ----------------------------------------------------

  lemma LeaksEnough(elapsed: int, k: int, leak: int)
    requires leak >= 1
    ensures elapsed / leak >= k <==> elapsed >= k * leak
  {
    DivFacts(elapsed, leak);
    var q := elapsed / leak;
    if q >= k { Products(k, q, leak); } else { Products(q + 1, k, leak); }
  }

  // A denied call, repeated with no call between, is admitted exactly when no less than the delay
  // has passed, counting the time that had already run towards the next leak.
  lemma RetryAdmitted(s: Stored, capacity: int, leak: int, now: int, n: int, wait: int)
    requires leak >= 1 && Level(s, capacity, now) && n <= capacity && wait >= 0
    requires !Fits(Leak(s, leak, now), capacity, n)
    ensures var t := Leak(s, leak, now);
      var delay := (n - (capacity - t.current)) * leak;
      Fits(Leak(t, leak, now + wait), capacity, n) <==> wait >= delay - (now - t.last)
  {
    var t := Leak(s, leak, now);
    LeakKeeps(s, capacity, leak, now);
    LeakKeeps(t, capacity, leak, now + wait);
    LeaksEnough(now + wait - t.last, n - (capacity - t.current), leak);
    DivSign(now + wait - t.last, leak);
  }

  // In particular it is admitted delay nanoseconds later.
  lemma RetryAfterDelay(s: Stored, capacity: int, leak: int, now: int, n: int)
    requires leak >= 1 && Level(s, capacity, now) && n <= capacity
    requires !Fits(Leak(s, leak, now), capacity, n)
    ensures var t := Leak(s, leak, now);
      var delay := (n - (capacity - t.current)) * leak;
      delay > 0 && Fits(Leak(t, leak, now + delay), capacity, n)
  {
    var t := Leak(s, leak, now);
    LeakKeeps(s, capacity, leak, now);
    NotNegative(n - (capacity - t.current), leak);
    RetryAdmitted(s, capacity, leak, now, n, (n - (capacity - t.current)) * leak);
  }
}
