/**
 The composite resilience policy: bulkhead, circuit breaker, rate limiter and
 retries around one call, and what every path through it leaves behind.
 */
module Resilience {

  datatype State = Closed | Open | HalfOpen

  /** The breaker's fields. */
  datatype Circuit = Circuit(state: State, failureCount: nat, failureThreshold: int, halfOpenMax: int,
                             halfOpenSuccesses: nat, halfOpenRequests: nat, timeoutMs: int, changedAt: int,
                             lastFailure: int, successes: nat, failures: nat, rejected: nat)

  datatype Result =
    | Ok | RejectedBulkhead | RejectedCircuitOpen | RejectedRateLimited | Timeout | CallFailed | RetriesExhausted

  /** How one invocation of the guarded function went. */
  datatype Reply = Reply(result: int, elapsed: int)

  // --------------------------------------------------------- breaker as values

  function NewCircuit(threshold: int, timeoutMs: int, halfOpenMax: int): (c: Circuit)
    ensures Steady(c)
  {
    Circuit(Closed, 0, if threshold > 0 then threshold else 5, if halfOpenMax > 0 then halfOpenMax else 3, 0, 0,
            if timeoutMs > 0 then timeoutMs else 30000, 0, 0, 0, 0, 0)
  }

  predicate Admits(c: Circuit, now: int) {
    match c.state
    case Closed => true
    case Open => now - c.changedAt >= c.timeoutMs
    case HalfOpen => c.halfOpenRequests < c.halfOpenMax
  }

  function Asked(c: Circuit, now: int): Circuit {
    if !Admits(c, now) then c.(rejected := c.rejected + 1)
    else match c.state
      case Closed => c
      case Open => c.(state := HalfOpen, halfOpenRequests := 0, halfOpenSuccesses := 0, changedAt := now)
      case HalfOpen => c.(halfOpenRequests := c.halfOpenRequests + 1)
  }

  function Succeeded(c: Circuit, now: int): Circuit {
    var s := c.(successes := c.successes + 1);
    match s.state
    case Closed => s.(failureCount := 0)
    case Open => s
    case HalfOpen =>
      var h := s.(halfOpenSuccesses := s.halfOpenSuccesses + 1);
      if h.halfOpenSuccesses >= h.halfOpenMax then h.(state := Closed, failureCount := 0, changedAt := now) else h
  }

  function FailedAt(c: Circuit, now: int): Circuit {
    var f := c.(failures := c.failures + 1, lastFailure := now);
    match f.state
    case Closed =>
      var g := f.(failureCount := f.failureCount + 1);
      if g.failureCount >= g.failureThreshold then g.(state := Open, changedAt := now) else g
    case Open => f
    case HalfOpen => f.(state := Open, changedAt := now)
  }

  /** One request as the pipeline drives the breaker: asked once and, if admitted, told one outcome. */
  function Round(c: Circuit, askedAt: int, toldAt: int, ok: bool): Circuit {
    var a := Asked(c, askedAt);
    if !Admits(c, askedAt) then a else if ok then Succeeded(a, toldAt) else FailedAt(a, toldAt)
  }

  /**
   Between requests of the pipeline: half open, one more success is recorded
   than requests counted, because the request that half opens it is not counted.
   */
  predicate Steady(c: Circuit) {
    && c.failureThreshold > 0 && c.halfOpenMax > 0 && c.timeoutMs > 0
    && (c.state == HalfOpen ==> c.halfOpenRequests + 1 == c.halfOpenSuccesses < c.halfOpenMax)
    && (c.state == Closed ==> c.failureCount < c.failureThreshold)
  }

  /** The pipeline keeps the breaker steady and gives it exactly one outcome for each request it admits. */
  lemma RoundKeeps(c: Circuit, askedAt: int, toldAt: int, ok: bool)
    requires Steady(c)
    ensures var r := Round(c, askedAt, toldAt, ok);
            && Steady(r)
            && (if Admits(c, askedAt)
                then r.successes + r.failures == c.successes + c.failures + 1 && r.rejected == c.rejected
                else r.successes + r.failures == c.successes + c.failures && r.rejected == c.rejected + 1)
  {
  }

  datatype Times = Times(askedAt: int, toldAt: int)

  function Successes(c: Circuit, ts: seq<Times>): Circuit {
    if ts == [] then c
    else Round(Successes(c, ts[..|ts| - 1]), ts[|ts| - 1].askedAt, ts[|ts| - 1].toldAt, true)
  }

  /**
   Once its timeout is up an open breaker closes with exactly `halfOpenMax`
   successes, rejecting nothing on the way.
   */
  lemma {:induction false} Recovery(c: Circuit, ts: seq<Times>)
    requires Steady(c) && c.state == Open && 1 <= |ts| <= c.halfOpenMax
    requires ts[0].askedAt - c.changedAt >= c.timeoutMs
    ensures var r := Successes(c, ts);
            && r.rejected == c.rejected && r.successes == c.successes + |ts| && r.halfOpenMax == c.halfOpenMax
            && (|ts| == c.halfOpenMax ==> r.state == Closed)
            && (|ts| < c.halfOpenMax ==>
                  r.state == HalfOpen && r.halfOpenSuccesses == |ts| && r.halfOpenRequests == |ts| - 1)
  {
    var n := |ts| - 1;
    if n == 0 {
      assert Successes(c, ts[..0]) == c;
    } else {
      Recovery(c, ts[..n]);
    }
  }

  datatype Trial = Trial(askedAt: int, toldAt: int, ok: bool)

  function Rounds(c: Circuit, ts: seq<Trial>): Circuit {
    if ts == [] then c
    else Round(Rounds(c, ts[..|ts| - 1]), ts[|ts| - 1].askedAt, ts[|ts| - 1].toldAt, ts[|ts| - 1].ok)
  }

  /** The requests that find the breaker open with its timeout still running. */
  function TooEarly(c: Circuit, ts: seq<Trial>): nat {
    if ts == [] then 0
    else
      var d := Rounds(c, ts[..|ts| - 1]);
      TooEarly(c, ts[..|ts| - 1])
      + if d.state == Open && ts[|ts| - 1].askedAt - d.changedAt < d.timeoutMs then 1 else 0
  }

  /** Over any requests the breaker stays steady, and rejects exactly those that come too early: half open none. */
  lemma {:induction false} RejectsOnlyTooEarly(c: Circuit, ts: seq<Trial>)
    requires Steady(c)
    ensures var r := Rounds(c, ts);
            && Steady(r) && r.rejected == c.rejected + TooEarly(c, ts)
            && r.successes + r.failures == c.successes + c.failures + |ts| - TooEarly(c, ts)
  {
    if ts != [] {
      var n := |ts| - 1;
      RejectsOnlyTooEarly(c, ts[..n]);
      RoundKeeps(Rounds(c, ts[..n]), ts[n].askedAt, ts[n].toldAt, ts[n].ok);
    }
  }

  /** How many failures in a row there have been, `before` of them before these requests. */
  function Streak(before: nat, ts: seq<Trial>): nat {
    if ts == [] then before
    else if ts[|ts| - 1].ok then 0
    else 1 + Streak(before, ts[..|ts| - 1])
  }

  /** The streak is the failures at the end, and those before when there was nothing else. */
  lemma {:induction false} StreakIs(before: nat, ts: seq<Trial>, n: nat)
    requires n <= |ts| && (forall k :: |ts| - n <= k < |ts| ==> !ts[k].ok) && (n < |ts| ==> ts[|ts| - n - 1].ok)
    ensures Streak(before, ts) == if n == |ts| then n + before else n
  {
    if n > 0 { StreakIs(before, ts[..|ts| - 1], n - 1); }
  }

  ghost predicate NeverTrips(before: nat, ts: seq<Trial>, threshold: int) {
    forall n {:trigger ts[..n]} :: 0 <= n <= |ts| ==> Streak(before, ts[..n]) < threshold
  }

  /** A closed breaker counts the failures in a row and opens with the one that reaches the threshold. */
  lemma {:induction false} ClosedUntilTripped(c: Circuit, ts: seq<Trial>)
    requires Steady(c) && c.state == Closed
    requires ts != [] && NeverTrips(c.failureCount, ts[..|ts| - 1], c.failureThreshold)
    ensures var r := Rounds(c, ts);
            var n := Streak(c.failureCount, ts);
            && Steady(r) && r.failureThreshold == c.failureThreshold && r.rejected == c.rejected
            && (if n < c.failureThreshold then r.state == Closed && r.failureCount == n
                else r.state == Open && r.changedAt == ts[|ts| - 1].toldAt)
  {
    hide Streak, Round, Steady;
    var n := |ts| - 1;
    var before := ts[..n];
    StreakStep(c.failureCount, ts);
    if n == 0 {
      NoRounds(c, c.failureCount);
    } else {
      NeverTripsBefore(c.failureCount, before, c.failureThreshold, n - 1);
      ClosedUntilTripped(c, before);
      assert before[..n] == before;
    }
    ClosedRound(Rounds(c, before), ts[n]);
  }

  lemma NoRounds(c: Circuit, before: nat)
    ensures Rounds(c, []) == c && Streak(before, []) == before
  {
  }

  lemma StreakStep(before: nat, ts: seq<Trial>)
    requires ts != []
    ensures Streak(before, ts) == if ts[|ts| - 1].ok then 0 else 1 + Streak(before, ts[..|ts| - 1])
  {
  }

  lemma NeverTripsBefore(before: nat, ts: seq<Trial>, threshold: int, n: nat)
    requires NeverTrips(before, ts, threshold) && n <= |ts|
    ensures NeverTrips(before, ts[..n], threshold)
  {
    hide Streak;
    forall m {:trigger ts[..n][..m]} | 0 <= m <= n ensures Streak(before, ts[..n][..m]) < threshold {
      assert ts[..n][..m] == ts[..m];
    }
  }

  lemma ClosedRound(c: Circuit, t: Trial)
    requires Steady(c) && c.state == Closed
    ensures var r := Round(c, t.askedAt, t.toldAt, t.ok);
            var count := if t.ok then 0 else 1 + c.failureCount;
            && Steady(r) && r.failureThreshold == c.failureThreshold && r.rejected == c.rejected
            && (if count < c.failureThreshold then r.state == Closed && r.failureCount == count
                else r.state == Open && r.changedAt == t.toldAt)
  {
  }

  /** A closed breaker stays closed through these requests exactly when no threshold of failures comes in a row. */
  lemma {:induction false} StaysClosedIff(c: Circuit, ts: seq<Trial>)
    requires Steady(c) && c.state == Closed
    ensures (forall n :: 0 <= n <= |ts| ==> Rounds(c, ts[..n]).state == Closed)
       <==> NeverTrips(c.failureCount, ts, c.failureThreshold)
  {
    hide Streak, Rounds, Round;
    NoRounds(c, c.failureCount);
    if ts != [] {
      var n := |ts| - 1;
      var before := ts[..n];
      StaysClosedIff(c, before);
      assert forall m :: 0 <= m <= n ==> before[..m] == ts[..m];
      assert ts[..|ts|] == ts;
      if NeverTrips(c.failureCount, before, c.failureThreshold) { ClosedUntilTripped(c, ts); }
    } else {
      assert ts[..0] == [];
    }
  }

  // ------------------------------------------------------------------ objects

  class Breaker {
    var state: State
    var failureCount: nat
    const failureThreshold: int
    const halfOpenMax: int
    var halfOpenSuccesses: nat
    var halfOpenRequests: nat
    const timeoutMs: int
    var changedAt: int
    var lastFailure: int
    var successes: nat
    var failures: nat
    var rejected: nat

    ghost function View(): Circuit
      reads this
    {
      Circuit(state, failureCount, failureThreshold, halfOpenMax, halfOpenSuccesses, halfOpenRequests, timeoutMs,
              changedAt, lastFailure, successes, failures, rejected)
    }

    constructor (threshold: int, timeoutMs: int, halfOpenMax: int)
      ensures View() == NewCircuit(threshold, timeoutMs, halfOpenMax) && Steady(View()) && state == Closed
      ensures failureThreshold == if threshold > 0 then threshold else 5
      ensures this.timeoutMs == if timeoutMs > 0 then timeoutMs else 30000
      ensures this.halfOpenMax == if halfOpenMax > 0 then halfOpenMax else 3
    {
      state, failureCount, halfOpenSuccesses, halfOpenRequests := Closed, 0, 0, 0;
      failureThreshold := if threshold > 0 then threshold else 5;
      this.timeoutMs := if timeoutMs > 0 then timeoutMs else 30000;
      this.halfOpenMax := if halfOpenMax > 0 then halfOpenMax else 3;
      changedAt, lastFailure, successes, failures, rejected := 0, 0, 0, 0, 0;
    }

    method AllowRequest(now: int) returns (ok: bool)
      modifies this
      ensures ok == Admits(old(View()), now) && View() == Asked(old(View()), now)
      ensures ok <==> || old(state) == Closed
                      || (old(state) == Open && now - old(changedAt) >= timeoutMs)
                      || (old(state) == HalfOpen && old(halfOpenRequests) < halfOpenMax)
      ensures !ok ==> View() == old(View()).(rejected := old(rejected) + 1)
      ensures ok && old(state) == Open ==>
                View() == old(View()).(state := HalfOpen, halfOpenRequests := 0, halfOpenSuccesses := 0,
                                       changedAt := now)
      ensures ok && old(state) != Open ==>
                var counted := if old(state) == HalfOpen then 1 else 0;
                View() == old(View()).(halfOpenRequests := old(halfOpenRequests) + counted)
    {
      if state == Closed { return true; }
      if state == Open {
        if now - changedAt >= timeoutMs {
          state, halfOpenRequests, halfOpenSuccesses, changedAt := HalfOpen, 0, 0, now;
          return true;
        }
        rejected := rejected + 1;
        return false;
      }
      if halfOpenRequests < halfOpenMax {
        halfOpenRequests := halfOpenRequests + 1;
        return true;
      }
      rejected := rejected + 1;
      return false;
    }

    method RecordSuccess(now: int)
      modifies this
      ensures View() == Succeeded(old(View()), now)
      ensures successes == old(successes) + 1 && failures == old(failures)
      ensures halfOpenSuccesses == old(halfOpenSuccesses) + if old(state) == HalfOpen then 1 else 0
      ensures state == if old(state) == HalfOpen && halfOpenSuccesses >= halfOpenMax then Closed else old(state)
      ensures changedAt == if state == old(state) then old(changedAt) else now
      ensures failureCount == if state == Closed then 0 else old(failureCount)
    {
      successes := successes + 1;
      if state == HalfOpen {
        halfOpenSuccesses := halfOpenSuccesses + 1;
        if halfOpenSuccesses >= halfOpenMax {
          state, failureCount, changedAt := Closed, 0, now;
        }
      }
      if state == Closed { failureCount := 0; }
    }

    method RecordFailure(now: int)
      modifies this
      ensures View() == FailedAt(old(View()), now)
      ensures failures == old(failures) + 1 && successes == old(successes) && lastFailure == now
      ensures failureCount == old(failureCount) + if old(state) == Closed then 1 else 0
      ensures state == if old(state) == Closed && failureCount < failureThreshold then Closed else Open
      ensures changedAt == if state == old(state) then old(changedAt) else now
    {
      failures := failures + 1;
      lastFailure := now;
      if state == Closed {
        failureCount := failureCount + 1;
        if failureCount >= failureThreshold {
          state, changedAt := Open, now;
        }
      } else if state == HalfOpen {
        state, changedAt := Open, now;
      }
    }
  }

  class Bulkhead {
    const maxConcurrent: int
    var current: nat
    var peak: nat
    var admitted: nat
    var rejected: nat
    var completed: nat
    var failed: nat

    /** Whatever was admitted has completed, failed, or is still in flight. */
    predicate Balanced()
      reads this
    {
      admitted == completed + failed + current && current <= maxConcurrent && current <= peak
    }

    constructor (maxConcurrent: int)
      ensures Balanced() && current == 0 && this.maxConcurrent == if maxConcurrent > 0 then maxConcurrent else 10
    {
      this.maxConcurrent := if maxConcurrent > 0 then maxConcurrent else 10;
      current, peak, admitted, rejected, completed, failed := 0, 0, 0, 0, 0, 0;
    }

    method TryAcquire() returns (ok: bool)
      requires Balanced()
      modifies this
      ensures Balanced() && (ok <==> old(current) < maxConcurrent)
      ensures current == old(current) + (if ok then 1 else 0) && admitted == old(admitted) + (if ok then 1 else 0)
      ensures rejected == old(rejected) + (if ok then 0 else 1) && completed == old(completed) && failed == old(failed)
    {
      if current >= maxConcurrent {
        rejected := rejected + 1;
        return false;
      }
      current := current + 1;
      admitted := admitted + 1;
      if current > peak { peak := current; }
      return true;
    }

    /** A release without an acquisition is ignored. */
    method Release()
      requires Balanced()
      modifies this`current, this`completed
      ensures Balanced()
      ensures current == (if old(current) > 0 then old(current) - 1 else 0)
      ensures completed == old(completed) + old(current) - current
    {
      if current > 0 {
        current := current - 1;
        completed := completed + 1;
      }
    }

    /** Balanced only while something is in flight: the totals grow even when nothing was. */
    method ReleaseWithResult(success: bool)
      requires Balanced()
      modifies this`current, this`completed, this`failed
      ensures current == (if old(current) > 0 then old(current) - 1 else 0)
      ensures completed == old(completed) + (if success then 1 else 0)
      ensures failed == old(failed) + (if success then 0 else 1)
      ensures Balanced() <==> old(current) > 0
    {
      if current > 0 { current := current - 1; }
      if success { completed := completed + 1; } else { failed := failed + 1; }
    }
  }

  class Backoff {
    const maxRetries: int
    var attempt: nat
    var totalRetries: nat
    var totalSuccesses: nat
    var totalGaveUp: nat

    constructor (maxRetries: int)
      ensures this.maxRetries == (if maxRetries > 0 then maxRetries else 3) && attempt == 0
      ensures totalRetries == totalSuccesses == totalGaveUp == 0
    {
      this.maxRetries := if maxRetries > 0 then maxRetries else 3;
      attempt, totalRetries, totalSuccesses, totalGaveUp := 0, 0, 0, 0;
    }

    method Reset()
      modifies this`attempt
      ensures attempt == 0
    {
      attempt := 0;
    }

    predicate ShouldRetry()
      reads this
    {
      attempt < maxRetries
    }

    /** Counts a retry; the delay it would suggest is random and nobody waits for it. */
    method NextDelay()
      modifies this`attempt, this`totalRetries
      ensures attempt == old(attempt) + (if old(ShouldRetry()) then 1 else 0)
      ensures totalRetries == old(totalRetries) + (if old(ShouldRetry()) then 1 else 0)
    {
      if attempt >= maxRetries { return; }
      attempt := attempt + 1;
      totalRetries := totalRetries + 1;
    }

    method RecordSuccess()
      modifies this`attempt, this`totalSuccesses
      ensures attempt == 0 && totalSuccesses == old(totalSuccesses) + 1
    {
      totalSuccesses := totalSuccesses + 1;
      Reset();
    }

    method RecordGaveUp()
      modifies this`attempt, this`totalGaveUp
      ensures attempt == 0 && totalGaveUp == old(totalGaveUp) + 1
    {
      totalGaveUp := totalGaveUp + 1;
      Reset();
    }
  }

  // ----------------------------------------------------------------- pipeline

  type World = nat -> Reply

  /** The call that ends a run of attempts: a success, one that took too long, or the last allowed. */
  predicate Ends(world: World, j: nat, timeoutMs: int, limit: nat) {
    world(j).result == 0 || world(j).elapsed > timeoutMs || j + 1 >= limit
  }

  /** Calls made from attempt `j` on, when `limit` are allowed in all. */
  function Calls(world: World, j: nat, timeoutMs: int, limit: nat): (n: nat)
    requires j < limit
    ensures j < n <= limit
    ensures Ends(world, n - 1, timeoutMs, limit) && forall i :: j <= i < n - 1 ==> !Ends(world, i, timeoutMs, limit)
    decreases limit - j
  {
    if Ends(world, j, timeoutMs, limit) then j + 1 else Calls(world, j + 1, timeoutMs, limit)
  }

  lemma CallsStopAt(world: World, timeoutMs: int, limit: nat)
    requires limit > 0
    ensures var n := Calls(world, 0, timeoutMs, limit);
            && (world(n - 1).result == 0 || world(n - 1).elapsed > timeoutMs || n == limit)
            && forall i :: 0 <= i < n - 1 ==> world(i).result != 0 && world(i).elapsed <= timeoutMs
  {
    var n := Calls(world, 0, timeoutMs, limit);
    forall i | 0 <= i < n - 1 ensures world(i).result != 0 && world(i).elapsed <= timeoutMs {
      assert !Ends(world, i, timeoutMs, limit);
    }
  }

  /** What the last call of a run makes of the whole request. */
  function Verdict(last: Reply, timeoutMs: int, exhausted: bool): Result {
    if last.result == 0 then Ok
    else if last.elapsed > timeoutMs then Timeout
    else if exhausted then RetriesExhausted else CallFailed
  }

  class Policy {
    const breaker: Breaker?
    const bulkhead: Bulkhead?
    const backoff: Backoff?
    const timeoutMs: int

    constructor (breaker: Breaker?, bulkhead: Bulkhead?, backoff: Backoff?, timeoutMs: int)
      ensures this.breaker == breaker && this.bulkhead == bulkhead && this.backoff == backoff
      ensures this.timeoutMs == if timeoutMs > 0 then timeoutMs else 5000
    {
      this.breaker, this.bulkhead, this.backoff := breaker, bulkhead, backoff;
      this.timeoutMs := if timeoutMs > 0 then timeoutMs else 5000;
    }

    ghost predicate Valid()
      reads this, breaker, bulkhead
    {
      (bulkhead != null ==> bulkhead.Balanced()) && (breaker != null ==> Steady(breaker.View()))
    }

    /** The most calls one request makes. */
    function Limit(): (n: nat)
      ensures n >= 1
    {
      if backoff == null || backoff.maxRetries <= 1 then 1 else backoff.maxRetries
    }

    /** `granted` is the rate limiter's answer, if the policy has one. */
    method Execute(granted: bool, askedAt: int, toldAt: int, world: World) returns (r: Result, calls: nat)
      requires Valid()
      modifies breaker, bulkhead, backoff
      ensures Valid()
      ensures bulkhead != null ==> bulkhead.current == old(bulkhead.current)
      ensures var full := bulkhead != null && old(bulkhead.current) >= bulkhead.maxConcurrent;
              var turnedAway := breaker != null && !Admits(old(breaker.View()), askedAt);
              && calls == (if full || turnedAway || !granted then 0 else Calls(world, 0, timeoutMs, Limit()))
              && r == (if full then RejectedBulkhead else if turnedAway then RejectedCircuitOpen
                       else if !granted then RejectedRateLimited
                       else Verdict(world(calls - 1), timeoutMs, backoff != null && backoff.maxRetries <= 0))
      ensures forall i :: 0 <= i < calls - 1 ==> world(i).result != 0 && world(i).elapsed <= timeoutMs
      ensures calls > 0 ==>
                var last := world(calls - 1);
                var late := last.elapsed > timeoutMs;
                && (last.result == 0 || late
                    || calls == if backoff == null || backoff.maxRetries <= 1 then 1 else backoff.maxRetries)
                && (r == Ok <==> last.result == 0)
                && (r == Timeout <==> last.result != 0 && late)
                && (backoff == null || backoff.maxRetries > 0 ==> (r == CallFailed <==> last.result != 0 && !late))
      ensures breaker != null ==>
                breaker.View() == if r == RejectedBulkhead then old(breaker.View())
                                  else Round(old(breaker.View()), askedAt, toldAt, r in {Ok, RejectedRateLimited})
      ensures bulkhead != null ==>
                && bulkhead.admitted == old(bulkhead.admitted) + (if r == RejectedBulkhead then 0 else 1)
                && bulkhead.failed == old(bulkhead.failed) + (if calls > 0 && r != Ok then 1 else 0)
      ensures backoff != null && calls > 0 ==> backoff.attempt == 0
    {
      hide Asked, Succeeded, FailedAt, Steady, Admits, Calls, Ends;
      calls := 0;
      if bulkhead != null {
        var ok := bulkhead.TryAcquire();
        if !ok { return RejectedBulkhead, 0; }
      }
      if breaker != null {
        RoundKeeps(breaker.View(), askedAt, toldAt, true);
        RoundKeeps(breaker.View(), askedAt, toldAt, false);
        var ok := breaker.AllowRequest(askedAt);
        if !ok {
          if bulkhead != null { bulkhead.Release(); }
          return RejectedCircuitOpen, 0;
        }
      }
      if !granted {
        if breaker != null { breaker.RecordSuccess(toldAt); }
        if bulkhead != null { bulkhead.Release(); }
        return RejectedRateLimited, 0;
      }
      var last;
      last, calls := RunCalls(world);
      CallsStopAt(world, timeoutMs, Limit());
      Report(last.result == 0, toldAt);
      r := Verdict(last, timeoutMs, backoff != null && backoff.attempt >= backoff.maxRetries);
    }

    /** Tells everyone how the last call went. */
    method Report(ok: bool, toldAt: int)
      requires bulkhead != null ==> bulkhead.Balanced() && bulkhead.current > 0
      modifies breaker, bulkhead, backoff
      ensures breaker != null ==>
                breaker.View() == if ok then Succeeded(old(breaker.View()), toldAt)
                    else FailedAt(old(breaker.View()), toldAt)
      ensures backoff != null ==> backoff.attempt == 0
      ensures bulkhead != null ==>
                && bulkhead.Balanced() && bulkhead.current == old(bulkhead.current) - 1
                && bulkhead.admitted == old(bulkhead.admitted)
                && bulkhead.failed == old(bulkhead.failed) + if ok then 0 else 1
    {
      hide Succeeded, FailedAt;
      if breaker != null {
        if ok { breaker.RecordSuccess(toldAt); } else { breaker.RecordFailure(toldAt); }
      }
      if backoff != null {
        if ok { backoff.RecordSuccess(); } else { backoff.RecordGaveUp(); }
      }
      if bulkhead != null { bulkhead.ReleaseWithResult(ok); }
    }

    /** The retry loop: it counts attempts in the backoff and goes on while more are allowed. */
    method RunCalls(world: World) returns (last: Reply, calls: nat)
      modifies backoff
      ensures calls == Calls(world, 0, timeoutMs, Limit()) && last == world(calls - 1)
    {
      if backoff != null { backoff.Reset(); }
      calls := 0;
      while true
        invariant calls < Limit() && Calls(world, calls, timeoutMs, Limit()) == Calls(world, 0, timeoutMs, Limit())
        invariant backoff != null ==> backoff.attempt == calls
        decreases Limit() - calls
      {
        last := world(calls);
        calls := calls + 1;
        if last.result == 0 || last.elapsed > timeoutMs { return; }
        if backoff == null || !backoff.ShouldRetry() { return; }
        backoff.NextDelay();
        if !backoff.ShouldRetry() { return; }
      }
    }
  }
}
