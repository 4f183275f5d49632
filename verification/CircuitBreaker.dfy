/** A circuit breaker as the steps its lock lets through one at a time. */
module CircuitBreakers {

  datatype Counts = Counts(requests: nat, totalSuccesses: nat, totalFailures: nat, consecutiveSuccesses: nat,
                           consecutiveFailures: nat)

  const ZERO := Counts(0, 0, 0, 0, 0)

  datatype State = Closed | Open | HalfOpen

  datatype Config = Config(maxRequests: nat, interval: int, timeout: int, readyToTrip: Counts -> bool)

  // The fields of a breaker.
  datatype Breaker = Breaker(state: State, counts: Counts, openTime: int, lastClearTime: int)

  // ---- One locked step each ------------------------------------------------------

  // An open breaker half-opens once the timeout is over; a closed one forgets its counts after the interval.
  function Current(b: Breaker, c: Config, now: int): (r: Breaker) {
    match b.state
    case Closed => if c.interval > 0 && now - b.lastClearTime > c.interval
      then b.(counts := ZERO, lastClearTime := now) else b
    case Open => if now - b.openTime > c.timeout then b.(state := HalfOpen, counts := ZERO, lastClearTime := now) else b
    case HalfOpen => b
  }

  // Whether a request is let through in a state just brought up to date.
  function Admits(b: Breaker, c: Config): (ok: bool) {
    match b.state
    case Closed => true
    case Open => false
    case HalfOpen => b.counts.requests < c.maxRequests
  }

  function Succeeded(k: Counts): (r: Counts) {
    Counts(k.requests + 1, k.totalSuccesses + 1, k.totalFailures, k.consecutiveSuccesses + 1, 0)
  }

  function Failed(k: Counts): (r: Counts) {
    Counts(k.requests + 1, k.totalSuccesses, k.totalFailures + 1, 0, k.consecutiveFailures + 1)
  }

  function Record(b: Breaker, c: Config, success: bool, now: int): (r: Breaker) {
    if success then
      var k := Succeeded(b.counts);
      if b.state.HalfOpen? && k.consecutiveSuccesses >= c.maxRequests then Breaker(Closed, ZERO, b.openTime, now)
      else b.(counts := k)
    else
      var k := Failed(b.counts);
      if b.state.HalfOpen? || (b.state.Closed? && c.readyToTrip(k)) then Breaker(Open, k, now, b.lastClearTime)
      else b.(counts := k)
  }

  class DefaultCircuitBreaker {
    const config: Config
    var state: State
    var counts: Counts
    var openTime: int
    var lastClearTime: int

    ghost function Snap(): (b: Breaker)
      reads this
    {
      Breaker(state, counts, openTime, lastClearTime)
    }

    constructor (config: Config, now: int)
      ensures Snap() == Breaker(Closed, ZERO, 0, now)
      ensures this.config.maxRequests == if config.maxRequests == 0 then 1 else config.maxRequests
      ensures this.config.interval == if config.interval == 0 then 60_000_000_000 else config.interval
      ensures this.config.timeout == if config.timeout == 0 then 60_000_000_000 else config.timeout
      ensures this.config.readyToTrip == config.readyToTrip
    {
      this.config := Config(
        if config.maxRequests == 0 then 1 else config.maxRequests,
        if config.interval == 0 then 60_000_000_000 else config.interval,
        if config.timeout == 0 then 60_000_000_000 else config.timeout,
        config.readyToTrip);
      state, counts, openTime, lastClearTime := Closed, ZERO, 0, now;
    }

    method currentState(now: int) returns (s: State)
      modifies this
      ensures Snap() == Current(old(Snap()), config, now) && s == state
    {
      match state {
        case Closed =>
          if config.interval > 0 && now - lastClearTime > config.interval {
            counts := ZERO;
            lastClearTime := now;
          }
          return Closed;
        case Open =>
          if now - openTime > config.timeout {
            state := HalfOpen;
            counts := ZERO;
            lastClearTime := now;
            return HalfOpen;
          }
          return Open;
        case HalfOpen =>
          return HalfOpen;
      }
    }

    method allowRequest(now: int) returns (ok: bool)
      modifies this
      ensures Snap() == Current(old(Snap()), config, now) && ok == Admits(Snap(), config)
    {
      var s := currentState(now);
      match s {
        case Closed => ok := true;
        case Open => ok := false;
        case HalfOpen => ok := counts.requests < config.maxRequests;
      }
    }

    method recordResult(success: bool, now: int)
      modifies this
      ensures Snap() == Record(old(Snap()), config, success, now)
    {
      counts := counts.(requests := counts.requests + 1);
      if success {
        onSuccess(now);
      } else {
        onFailure(now);
      }
    }

    method onSuccess(now: int)
      requires counts.requests >= 1
      modifies this
      ensures Snap() == Record(old(Snap()).(counts := old(counts).(requests := old(counts).requests - 1)), config,
        true, now)
    {
      counts := counts.(totalSuccesses := counts.totalSuccesses + 1);
      counts := counts.(consecutiveSuccesses := counts.consecutiveSuccesses + 1);
      counts := counts.(consecutiveFailures := 0);
      if state == HalfOpen {
        if counts.consecutiveSuccesses >= config.maxRequests {
          state := Closed;
          counts := ZERO;
          lastClearTime := now;
        }
      }
    }

    method onFailure(now: int)
      requires counts.requests >= 1
      modifies this
      ensures Snap() == Record(old(Snap()).(counts := old(counts).(requests := old(counts).requests - 1)), config,
        false, now)
    {
      counts := counts.(totalFailures := counts.totalFailures + 1);
      counts := counts.(consecutiveFailures := counts.consecutiveFailures + 1);
      counts := counts.(consecutiveSuccesses := 0);
      if state == Closed {
        if config.readyToTrip(counts) {
          state := Open;
          openTime := now;
        }
      } else if state == HalfOpen {
        state := Open;
        openTime := now;
      }
    }

    method Trip(now: int)
      modifies this
      ensures Snap() == old(Snap()).(state := Open, openTime := now)
    {
      state := Open;
      openTime := now;
    }

    method Reset(now: int)
      modifies this
      ensures Snap() == Breaker(Closed, ZERO, 0, now)
    {
      state := Closed;
      counts := ZERO;
      openTime := 0;
      lastClearTime := now;
    }
  }

  // ---- Runs ------------------------------------------------------------------------

  // What callers do, in the order in which they get the lock. Results may be recorded late,
  // long after the request was let through.
  datatype Action =
    | Allow(now: int)
    | Query(now: int)
    | Result(success: bool, now: int)
    | TripIt(now: int)
    | ResetIt(now: int)

  function Step(b: Breaker, c: Config, a: Action): (r: Breaker) {
    match a
    case Allow(now) => Current(b, c, now)
    case Query(now) => Current(b, c, now)
    case Result(success, now) => Record(b, c, success, now)
    case TripIt(now) => b.(state := Open, openTime := now)
    case ResetIt(now) => Breaker(Closed, ZERO, 0, now)
  }

  function Run(b: Breaker, c: Config, run: seq<Action>): (r: Breaker) {
    if run == [] then b else Step(Run(b, c, run[..|run| - 1]), c, run[|run| - 1])
  }

  function Fresh(now: int): (b: Breaker) {
    Breaker(Closed, ZERO, 0, now)
  }

  // The counts add up, and a half-open breaker has seen nothing but successes, too few to close it.
  ghost predicate Consistent(b: Breaker, c: Config) {
    && b.counts.requests == b.counts.totalSuccesses + b.counts.totalFailures
    && (b.state.HalfOpen? ==>
         b.counts.requests == b.counts.consecutiveSuccesses < c.maxRequests
           && b.counts.totalFailures == 0 == b.counts.consecutiveFailures)
  }

  lemma {:induction false} AlwaysConsistent(c: Config, start: int, run: seq<Action>)
    requires c.maxRequests >= 1
    ensures Consistent(Run(Fresh(start), c, run), c)
    decreases |run|
  {
    if run != [] { AlwaysConsistent(c, start, run[..|run| - 1]); }
  }

  // So every request that finds the breaker half-open is let through.
  lemma HalfOpenAdmits(c: Config, start: int, run: seq<Action>)
    requires c.maxRequests >= 1 && Run(Fresh(start), c, run).state.HalfOpen?
    ensures Admits(Run(Fresh(start), c, run), c)
  {
    AlwaysConsistent(c, start, run);
  }

  // ---- How many requests a half-open breaker lets through --------------------------

  // The requests made in a run.
  ghost function Asked(run: seq<Action>): (n: nat) {
    if run == [] then 0 else Asked(run[..|run| - 1]) + if run[|run| - 1].Allow? then 1 else 0
  }

  // The requests let through in a run from b.
  ghost function Passed(b: Breaker, c: Config, run: seq<Action>): (n: nat) {
    if run == [] then 0 else
      Passed(b, c, run[..|run| - 1]) + if run[|run| - 1].Allow? && Admits(Run(b, c, run), c) then 1 else 0
  }

  ghost predicate StaysHalfOpen(b: Breaker, c: Config, run: seq<Action>) {
    Run(b, c, run).state.HalfOpen? && (run != [] ==> StaysHalfOpen(b, c, run[..|run| - 1]))
  }

  // As long as a breaker stays half-open every request passes. So no more than maxRequests pass
  // exactly when callers make no more than that; the breaker itself does not see to it.
  lemma {:induction false} HalfOpenLimit(c: Config, start: int, before: seq<Action>, run: seq<Action>)
    requires c.maxRequests >= 1 && StaysHalfOpen(Run(Fresh(start), c, before), c, run)
    ensures Passed(Run(Fresh(start), c, before), c, run) == Asked(run)
    ensures Passed(Run(Fresh(start), c, before), c, run) <= c.maxRequests <==> Asked(run) <= c.maxRequests
    decreases |run|
  {
    if run != [] {
      HalfOpenLimit(c, start, before, run[..|run| - 1]);
      RunJoins(Fresh(start), c, before, run);
      HalfOpenAdmits(c, start, before + run);
    }
  }

  lemma {:induction false} RunJoins(b: Breaker, c: Config, before: seq<Action>, run: seq<Action>)
    ensures Run(b, c, before + run) == Run(Run(b, c, before), c, run)
    decreases |run|
  {
    if run == [] {
      assert before + run == before;
    } else {
      var n := |run| - 1;
      RunJoins(b, c, before, run[..n]);
      assert (before + run)[..|before| + n] == before + run[..n];
    }
  }

  ghost function Probes(n: nat, now: int): (run: seq<Action>)
    ensures |run| == n
  {
    seq(n, i => Allow(now))
  }

  lemma {:induction false} ProbesPass(b: Breaker, c: Config, n: nat, now: int)
    requires b.state.HalfOpen? && b.counts.requests < c.maxRequests
    ensures Run(b, c, Probes(n, now)) == b && StaysHalfOpen(b, c, Probes(n, now))
    ensures Passed(b, c, Probes(n, now)) == n
  {
    if n > 0 {
      ProbesPass(b, c, n - 1, now);
      assert Probes(n, now)[..n - 1] == Probes(n - 1, now);
    }
  }

  // A run that exceeds the limit: tripped at 0, half-open by the first request at t, and then asked
  // once more often than maxRequests before any result comes in.
  lemma HalfOpenUnlimited(c: Config, t: int)
    requires c.maxRequests >= 1 && t > c.timeout
    ensures var b := Run(Fresh(0), c, [TripIt(0)] + [Allow(t)]);
      var run := Probes(c.maxRequests + 1, t);
      && b.state.HalfOpen? && StaysHalfOpen(b, c, run)
      && Passed(b, c, run) == c.maxRequests + 1
  {
    var probed := [TripIt(0)] + [Allow(t)];
    assert probed[..1] == [TripIt(0)] && [TripIt(0)][..0] == [];
    assert Run(Fresh(0), c, [TripIt(0)]).state.Open? && Run(Fresh(0), c, [TripIt(0)]).openTime == 0;
    assert Run(Fresh(0), c, probed) == Current(Run(Fresh(0), c, [TripIt(0)]), c, t);
    ProbesPass(Run(Fresh(0), c, probed), c, c.maxRequests + 1, t);
  }

  // ---- How long a breaker stays open -------------------------------------------------

  ghost predicate NoResetUntil(run: seq<Action>, limit: int) {
    forall i {:trigger run[i]} :: 0 <= i < |run| ==> !run[i].ResetIt? && run[i].now <= limit
  }

  // The breaker opens or is tripped again.
  ghost predicate Opens(b: Breaker, c: Config, a: Action) {
    Step(b, c, a).state.Open? && (b.state.Open? ==> a.TripIt?)
  }

  // Once it has opened, a breaker stays open until it is reset or the timeout is over, whatever else happens.
  lemma {:induction false} OpenLasts(b: Breaker, c: Config, a: Action, run: seq<Action>)
    requires Opens(b, c, a) && NoResetUntil(run, a.now + c.timeout)
    requires forall i {:trigger run[i]} :: 0 <= i < |run| ==> run[i].now >= a.now
    ensures var r := Run(Step(b, c, a), c, run);
      r.state.Open? && r.openTime >= a.now
        && (forall now {:trigger Current(r, c, now)} :: now <= a.now + c.timeout ==> !Admits(Current(r, c, now), c))
    decreases |run|
  {
    if run != [] {
      var n := |run| - 1;
      OpenLasts(b, c, a, run[..n]);
      assert run[n].now <= a.now + c.timeout;
    }
  }

  // When the breaker last opened in a run, or was last tripped again.
  ghost function OpenedAt(c: Config, start: int, run: seq<Action>): (t: int) {
    if run == [] then 0 else
      var n := |run| - 1;
      if Opens(Run(Fresh(start), c, run[..n]), c, run[n]) then run[n].now else OpenedAt(c, start, run[..n])
  }

  lemma {:induction false} OpenTimeIsLatest(c: Config, start: int, run: seq<Action>)
    requires Run(Fresh(start), c, run).state.Open?
    ensures Run(Fresh(start), c, run).openTime == OpenedAt(c, start, run)
    decreases |run|
  {
    var n := |run| - 1;
    if Run(Fresh(start), c, run[..n]).state.Open? { OpenTimeIsLatest(c, start, run[..n]); }
  }

  // In every run the open state is left exactly by a reset, or by a call made later than the timeout
  // after the breaker last opened.
  lemma {:induction false} OpenLeft(c: Config, start: int, run: seq<Action>, last: Action)
    requires Run(Fresh(start), c, run).state.Open?
    ensures !Run(Fresh(start), c, run + [last]).state.Open? <==>
      last.ResetIt? || ((last.Allow? || last.Query?) && last.now - OpenedAt(c, start, run) > c.timeout)
  {
    OpenTimeIsLatest(c, start, run);
    assert (run + [last])[..|run|] == run;
  }

  // ---- What a breaker counts -----------------------------------------------------------

  // The last action of the run clears the counts: a reset, half-opening, closing after half-opening,
  // or a call that finds a closed breaker not cleared for longer than the interval.
  ghost predicate Clears(c: Config, start: int, run: seq<Action>)
    requires run != []
    decreases |run|, 0
  {
    var n := |run| - 1;
    var was, next, a := Run(Fresh(start), c, run[..n]).state, Run(Fresh(start), c, run).state, run[n];
    || a.ResetIt?
    || (was.Open? && next.HalfOpen?)
    || (was.HalfOpen? && next.Closed?)
    || (was.Closed? && (a.Allow? || a.Query?) && c.interval > 0 && a.now - ClearedAt(c, start, run[..n]) > c.interval)
  }

  // When the counts were last cleared.
  ghost function ClearedAt(c: Config, start: int, run: seq<Action>): (t: int)
    decreases |run|, 1
  {
    if run == [] then start
    else if Clears(c, start, run) then run[|run| - 1].now
    else ClearedAt(c, start, run[..|run| - 1])
  }

  // The results recorded since.
  ghost function Since(c: Config, start: int, run: seq<Action>): (results: seq<bool>) {
    if run == [] || Clears(c, start, run) then []
    else
      var a := run[|run| - 1];
      Since(c, start, run[..|run| - 1]) + if a.Result? then [a.success] else []
  }

  ghost function Number(results: seq<bool>, value: bool): (n: nat) {
    if results == [] then 0
    else Number(results[..|results| - 1], value) + if results[|results| - 1] == value then 1 else 0
  }

  // How many results with this value there are at the end, one behind the other.
  ghost function Trailing(results: seq<bool>, value: bool): (n: nat)
    ensures n <= |results|
  {
    if results == [] || results[|results| - 1] != value then 0 else 1 + Trailing(results[..|results| - 1], value)
  }

  ghost function Tally(results: seq<bool>): (k: Counts) {
    Counts(|results|, Number(results, true), Number(results, false), Trailing(results, true), Trailing(results, false))
  }

  lemma TallyMore(results: seq<bool>, value: bool)
    ensures Tally(results + [value]) == if value then Succeeded(Tally(results)) else Failed(Tally(results))
  {
    assert (results + [value])[..|results|] == results;
  }

  /** In every run the counts are those of the results since the counts were last cleared. */
  lemma {:induction false} CountsExact(c: Config, start: int, run: seq<Action>)
    ensures var b := Run(Fresh(start), c, run);
      b.counts == Tally(Since(c, start, run)) && b.lastClearTime == ClearedAt(c, start, run)
    decreases |run|
  {
    if run != [] {
      var before, a := run[..|run| - 1], run[|run| - 1];
      CountsExact(c, start, before);
      var results := Since(c, start, before);
      assert results + [] == results;
      if a.Result? { TallyMore(results, a.success); }
    }
  }

  // ---- How the other states are left -----------------------------------------------------

  /** In every run the closed state is left exactly by Trip, or by a failure for which readyToTrip holds
      of the results since the counts were last cleared, this failure included; and then for open. */
  lemma ClosedLeft(c: Config, start: int, run: seq<Action>, last: Action)
    requires Run(Fresh(start), c, run).state.Closed?
    ensures var next := Run(Fresh(start), c, run + [last]).state;
      && (next.Open? <==>
            || last.TripIt?
            || (last.Result? && !last.success && c.readyToTrip(Tally(Since(c, start, run) + [false]))))
      && (next.Open? || next.Closed?)
  {
    assert (run + [last])[..|run|] == run;
    CountsExact(c, start, run);
    TallyMore(Since(c, start, run), false);
  }

  lemma {:induction false} AllTrue(results: seq<bool>)
    requires Number(results, false) == 0
    ensures Number(results, true) == Trailing(results, true) == |results|
  {
    if results != [] { AllTrue(results[..|results| - 1]); }
  }

  /** The half-open state is left for open exactly by Trip or a failure, and for closed exactly by Reset
      or the success that is number maxRequests since half-opening. */
  lemma HalfOpenLeft(c: Config, start: int, run: seq<Action>, last: Action)
    requires c.maxRequests >= 1 && Run(Fresh(start), c, run).state.HalfOpen?
    ensures var next := Run(Fresh(start), c, run + [last]).state;
      && (next.Open? <==> last.TripIt? || (last.Result? && !last.success))
      && (next.Closed? <==>
            last.ResetIt? || (last.Result? && last.success && |Since(c, start, run)| + 1 == c.maxRequests))
    ensures forall j {:trigger Since(c, start, run)[j]} :: 0 <= j < |Since(c, start, run)| ==> Since(c, start, run)[j]
  {
    assert (run + [last])[..|run|] == run;
    AlwaysConsistent(c, start, run);
    CountsExact(c, start, run);
    AllTrue(Since(c, start, run));
    NoneFalse(Since(c, start, run));
  }

  lemma {:induction false} NoneFalse(results: seq<bool>)
    requires Number(results, false) == 0
    ensures forall j {:trigger results[j]} :: 0 <= j < |results| ==> results[j]
  {
    if results != [] { NoneFalse(results[..|results| - 1]); }
  }

  /** In every run a request is refused exactly by a breaker that is open and has been for no longer than
      the timeout since it last opened. */
  lemma RefusedExactly(c: Config, start: int, run: seq<Action>, now: int)
    requires c.maxRequests >= 1
    ensures var b := Run(Fresh(start), c, run);
      !Admits(Current(b, c, now), c) <==> b.state.Open? && now - OpenedAt(c, start, run) <= c.timeout
  {
    var b := Run(Fresh(start), c, run);
    AlwaysConsistent(c, start, run);
    if b.state.Open? { OpenTimeIsLatest(c, start, run); }
  }

  // The default condition: more than five failures in a row.
  function defaultReadyToTrip(counts: Counts): (trip: bool) { counts.consecutiveFailures > 5 }

  lemma {:induction false} TrailingMeans(results: seq<bool>, value: bool, n: nat)
    ensures Trailing(results, value) >= n <==>
      n <= |results| && forall j {:trigger results[j]} :: |results| - n <= j < |results| ==> results[j] == value
    decreases |results|
  {
    if results != [] && n > 0 { TrailingMeans(results[..|results| - 1], value, n - 1); }
  }

  /** With it a closed breaker opens on a result exactly when this is the sixth failure in a row, or a
      later one, since the counts were last cleared. */
  lemma DefaultTrips(c: Config, start: int, run: seq<Action>, success: bool, now: int)
    requires c.readyToTrip == defaultReadyToTrip && Run(Fresh(start), c, run).state.Closed?
    ensures var results := Since(c, start, run);
      Run(Fresh(start), c, run + [Result(success, now)]).state.Open? <==>
        && !success && |results| >= 5
        && forall j {:trigger results[j]} :: |results| - 5 <= j < |results| ==> !results[j]
  {
    var results := Since(c, start, run);
    ClosedLeft(c, start, run, Result(success, now));
    TallyMore(results, false);
    TrailingMeans(results, false, 5);
  }
}
