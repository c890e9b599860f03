/**
 The circuit breaker with a rolling window: its state machine as functions,
 and the ring buffer of recent outcomes that trips it.
 */
module CircuitBreaker {

  datatype State = Closed | Open | HalfOpen

  datatype Config = Config(failureThreshold: int, successThreshold: int, timeoutMs: int, halfOpenMax: int,
                           windowSize: int, windowMs: int)

  datatype Stats = Stats(calls: nat, successes: nat, failures: nat, timeouts: nat, fastFails: nat,
                         lastFailure: int, lastSuccess: int, openedAt: int, lastChange: int)

  /** Everything but the window. */
  datatype Core = Core(state: State, failures: nat, successes: nat, changedAt: int, stats: Stats)

  /** One finished call in the window. */
  datatype Outcome = Outcome(time: int, failed: bool)

  /** The clock as one call reads it, and what the guarded operation did. */
  datatype Attempt = Attempt(now: int, woken: int, start: int, end: int, recorded: int, counted: int, changed: int,
                             result: int)

  const NO_STATS := Stats(0, 0, 0, 0, 0, 0, 0, 0, 0)

  function WithDefaults(c: Config): (d: Config)
    ensures Sane(d)
  {
    Config(if c.failureThreshold <= 0 then 5 else c.failureThreshold,
           if c.successThreshold <= 0 then 3 else c.successThreshold,
           if c.timeoutMs <= 0 then 30000 else c.timeoutMs,
           if c.halfOpenMax <= 0 then 3 else c.halfOpenMax,
           if c.windowSize <= 0 then 100 else c.windowSize,
           if c.windowMs <= 0 then 60000 else c.windowMs)
  }

  predicate Sane(c: Config) {
    && c.failureThreshold > 0 && c.successThreshold > 0 && c.timeoutMs > 0 && c.halfOpenMax > 0
    && c.windowSize > 0 && c.windowMs > 0
  }

  // ----------------------------------------------------------- state machine

  function Transitioned(k: Core, s: State, now: int): (r: Core)
    ensures r.state == s && r.stats.calls == k.stats.calls
  {
    if k.state == s then k
    else
      var stats := k.stats.(lastChange := now, openedAt := if s == Open then now else k.stats.openedAt);
      Core(s, 0, 0, now, stats)
  }

  predicate TimedOut(a: Attempt, timeoutMs: int) {
    timeoutMs > 0 && a.end - a.start > timeoutMs
  }

  predicate Failed(a: Attempt, timeoutMs: int) {
    a.result != 0 || TimedOut(a, timeoutMs)
  }

  function Counted(k: Core): Core {
    k.(stats := k.stats.(calls := k.stats.calls + 1))
  }

  /** The state in which the call is decided on: an open breaker whose time is up has become half open. */
  function Woken(k: Core, c: Config, a: Attempt): Core {
    if k.state == Open && a.now - k.changedAt >= c.timeoutMs then Transitioned(k, HalfOpen, a.woken) else k
  }

  predicate Rejects(k: Core, c: Config) {
    k.state == Open || (k.state == HalfOpen && k.successes + k.failures >= c.halfOpenMax)
  }

  function FastFail(k: Core): Core {
    k.(stats := k.stats.(fastFails := k.stats.fastFails + 1))
  }

  function Failing(k: Core, a: Attempt, timeoutMs: int): Core {
    var stats := k.stats.(failures := k.stats.failures + 1, lastFailure := a.now,
                          timeouts := k.stats.timeouts + if TimedOut(a, timeoutMs) then 1 else 0);
    k.(failures := k.failures + 1, successes := 0, stats := stats)
  }

  function Succeeding(k: Core, a: Attempt): Core {
    var stats := k.stats.(successes := k.stats.successes + 1, lastSuccess := a.now);
    k.(successes := k.successes + 1, failures := 0, stats := stats)
  }

  /** After the operation ran; `recent` failures are in the window. */
  function Finish(k: Core, c: Config, a: Attempt, timeoutMs: int, recent: nat): Core {
    if Failed(a, timeoutMs) then
      var f := Failing(k, a, timeoutMs);
      var opens := f.state == HalfOpen || (f.state == Closed && recent >= c.failureThreshold);
      if opens then Transitioned(f, Open, a.changed) else f
    else
      var s := Succeeding(k, a);
      if s.state == HalfOpen && s.successes >= c.successThreshold then Transitioned(s, Closed, a.changed) else s
  }

  function Called(k: Core, c: Config, a: Attempt, timeoutMs: int, recent: nat): Core {
    var w := Woken(Counted(k), c, a);
    if Rejects(w, c) then FastFail(w) else Finish(w, c, a, timeoutMs, recent)
  }

  predicate Executes(k: Core, c: Config, a: Attempt) {
    !Rejects(Woken(Counted(k), c, a), c)
  }

  /** Holds of every core that calls and resets lead to. */
  predicate Consistent(k: Core, c: Config) {
    && k.stats.calls == k.stats.successes + k.stats.failures + k.stats.fastFails
    && (k.state == HalfOpen ==> k.failures == 0 && k.successes < c.successThreshold && k.successes <= c.halfOpenMax)
  }

  /**
   Every call is counted as one success, failure or fast fail; half open knows only
   successes, fewer than would close it.
   */
  lemma CallKeeps(k: Core, c: Config, a: Attempt, timeoutMs: int, recent: nat)
    requires Sane(c) && Consistent(k, c)
    ensures var r := Called(k, c, a, timeoutMs, recent);
            && Consistent(r, c) && r.stats.calls == k.stats.calls + 1
            && r.stats.fastFails == k.stats.fastFails + if Executes(k, c, a) then 0 else 1
  {
  }

  // ------------------------------------------------------------ whole runs

  /** A call made by the environment: when, how it went, and what was in the window. */
  datatype Input = Input(attempt: Attempt, timeoutMs: int, recent: nat)

  function Run(k: Core, c: Config, ins: seq<Input>): Core {
    if ins == [] then k else
    var i := ins[|ins| - 1];
    Called(Run(k, c, ins[..|ins| - 1]), c, i.attempt, i.timeoutMs, i.recent)
  }

  predicate AllSucceed(ins: seq<Input>) {
    forall i :: 0 <= i < |ins| ==> !Failed(ins[i].attempt, ins[i].timeoutMs)
  }

  lemma {:induction false} RunKeeps(k: Core, c: Config, ins: seq<Input>)
    requires Sane(c) && Consistent(k, c)
    ensures Consistent(Run(k, c, ins), c) && Run(k, c, ins).stats.calls == k.stats.calls + |ins|
  {
    if ins != [] {
      RunKeeps(k, c, ins[..|ins| - 1]);
      var i := ins[|ins| - 1];
      CallKeeps(Run(k, c, ins[..|ins| - 1]), c, i.attempt, i.timeoutMs, i.recent);
    }
  }

  /**
   Successes from a fresh half open breaker. If the success threshold is within
   the probe limit it closes with exactly that many; otherwise it never closes,
   and after the last probe it turns every call away.
   */
  lemma {:induction false} Recovery(k: Core, c: Config, ins: seq<Input>)
    requires Sane(c) && Consistent(k, c) && k.state == HalfOpen && k.successes == 0 && AllSucceed(ins)
    ensures var r := Run(k, c, ins);
            && (c.successThreshold <= c.halfOpenMax && |ins| <= c.successThreshold ==>
                  && r.stats.fastFails == k.stats.fastFails
                  && (r.state == Closed <==> |ins| == c.successThreshold)
                  && (r.state != Closed ==> r.state == HalfOpen && r.successes == |ins|))
            && (c.successThreshold > c.halfOpenMax ==>
                  && r.state == HalfOpen
                  && r.successes == (if |ins| < c.halfOpenMax then |ins| else c.halfOpenMax)
                  && r.stats.fastFails
                         == k.stats.fastFails + if |ins| > c.halfOpenMax then |ins| - c.halfOpenMax else 0)
  {
    hide Transitioned, Failed;
    if ins != [] {
      var before := ins[..|ins| - 1];
      Recovery(k, c, before);
      RunKeeps(k, c, before);
      assert !Failed(ins[|ins| - 1].attempt, ins[|ins| - 1].timeoutMs);
      if Run(k, c, before).state == HalfOpen { SuccessStep(Run(k, c, before), c, ins[|ins| - 1]); }
    }
  }

  lemma SuccessStep(k: Core, c: Config, i: Input)
    requires Sane(c) && Consistent(k, c) && k.state == HalfOpen && !Failed(i.attempt, i.timeoutMs)
    ensures var r := Called(k, c, i.attempt, i.timeoutMs, i.recent);
            if k.successes >= c.halfOpenMax then
              r.state == HalfOpen && r.successes == k.successes && r.stats.fastFails == k.stats.fastFails + 1
            else if k.successes + 1 >= c.successThreshold then
              r.state == Closed && r.stats.fastFails == k.stats.fastFails
            else
              r.state == HalfOpen && r.successes == k.successes + 1 && r.stats.fastFails == k.stats.fastFails
  {
  }

  /** A half open breaker out of probes stays as it is, whatever is tried, until it is reset. */
  lemma {:induction false} StuckForGood(k: Core, c: Config, ins: seq<Input>)
    requires Sane(c) && Consistent(k, c) && k.state == HalfOpen && k.successes >= c.halfOpenMax
    ensures var r := Run(k, c, ins);
            r == k.(stats := k.stats.(calls := k.stats.calls + |ins|, fastFails := k.stats.fastFails + |ins|))
  {
    if ins != [] { StuckForGood(k, c, ins[..|ins| - 1]); }
  }

  // ------------------------------------------------------------------ window

  /** The failures among the outcomes no older than `cutoff`. */
  ghost function FailuresIn(os: seq<Outcome>, cutoff: int): nat {
    if os == [] then 0
    else FailuresIn(os[..|os| - 1], cutoff) + if os[|os| - 1].time >= cutoff && os[|os| - 1].failed then 1 else 0
  }

  lemma {:induction false} FailuresAppend(a: seq<Outcome>, b: seq<Outcome>, cutoff: int)
    ensures FailuresIn(a + b, cutoff) == FailuresIn(a, cutoff) + FailuresIn(b, cutoff)
  {
    if b == [] {
      assert a + b == a;
    } else {
      FailuresAppend(a, b[..|b| - 1], cutoff);
      assert (a + b)[..|a| + |b| - 1] == a + b[..|b| - 1];
    }
  }

  /** The last `n` outcomes, or all there are. */
  ghost function Last(log: seq<Outcome>, n: nat): seq<Outcome> {
    if |log| <= n then log else log[|log| - n..]
  }

  lemma {:induction false} FailuresFull(os: seq<Outcome>, cutoff: int)
    ensures FailuresIn(os, cutoff) <= |os|
    ensures FailuresIn(os, cutoff) == |os| <==> forall k :: 0 <= k < |os| ==> os[k].failed && os[k].time >= cutoff
  {
    if os != [] {
      var n := |os| - 1;
      FailuresFull(os[..n], cutoff);
      assert forall k :: 0 <= k < n ==> os[..n][k] == os[k];
    }
  }

  // ---------------------------------------------------------------- tripping

  /** A call with the timeout it was given. */
  datatype Try = Try(attempt: Attempt, timeoutMs: int)

  /** The breaker with every finished call since the start or the last reset. */
  datatype Guarded = Guarded(core: Core, log: seq<Outcome>)

  ghost function Recent(c: Config, log: seq<Outcome>, t: Try): nat
    requires Sane(c)
  {
    FailuresIn(Last(log, c.windowSize), t.attempt.counted - c.windowMs)
  }

  function OutcomeOf(t: Try): Outcome {
    Outcome(t.attempt.recorded, Failed(t.attempt, t.timeoutMs))
  }

  /** One call: an executed one goes into the window before its failures are counted. */
  ghost function TryCall(g: Guarded, c: Config, t: Try): Guarded
    requires Sane(c)
  {
    var log := g.log + if Executes(g.core, c, t.attempt) then [OutcomeOf(t)] else [];
    Guarded(Called(g.core, c, t.attempt, t.timeoutMs, Recent(c, log, t)), log)
  }

  ghost function TryAll(g: Guarded, c: Config, ts: seq<Try>): Guarded
    requires Sane(c)
  {
    if ts == [] then g else TryCall(TryAll(g, c, ts[..|ts| - 1]), c, ts[|ts| - 1])
  }

  function Outcomes(ts: seq<Try>): (os: seq<Outcome>)
    ensures |os| == |ts| && forall i :: 0 <= i < |ts| ==> os[i] == OutcomeOf(ts[i])
  {
    if ts == [] then [] else Outcomes(ts[..|ts| - 1]) + [OutcomeOf(ts[|ts| - 1])]
  }

  /** The last of these calls fails and leaves at least the threshold of failures in the window. */
  ghost predicate Trips(log: seq<Outcome>, c: Config, ts: seq<Try>)
    requires Sane(c) && ts != []
  {
    var t := ts[|ts| - 1];
    Failed(t.attempt, t.timeoutMs) && Recent(c, log + Outcomes(ts), t) >= c.failureThreshold
  }

  ghost predicate NeverTrips(log: seq<Outcome>, c: Config, ts: seq<Try>)
    requires Sane(c)
  {
    forall n {:trigger ts[..n]} :: 0 < n <= |ts| ==> !Trips(log, c, ts[..n])
  }

  /** Up to the first call that trips it a closed breaker stays closed and executes everything; that call opens it. */
  lemma {:induction false} ClosedUntilTripped(g: Guarded, c: Config, ts: seq<Try>)
    requires Sane(c) && g.core.state == Closed && ts != [] && NeverTrips(g.log, c, ts[..|ts| - 1])
    ensures var r := TryAll(g, c, ts);
            r.log == g.log + Outcomes(ts) && r.core.state == if Trips(g.log, c, ts) then Open else Closed
  {
    hide Recent, Failed;
    var before, t := ts[..|ts| - 1], ts[|ts| - 1];
    if before != [] {
      var n := |before| - 1;
      forall m | 0 < m <= n ensures !Trips(g.log, c, before[..n][..m]) {
        assert before[..n][..m] == before[..m];
      }
      ClosedUntilTripped(g, c, before);
      assert before[..|before|] == before;
    }
    assert g.log + Outcomes(before) + [OutcomeOf(t)] == g.log + Outcomes(ts);
    TripStep(TryAll(g, c, before), c, t);
  }

  lemma TripStep(g: Guarded, c: Config, t: Try)
    requires Sane(c) && g.core.state == Closed
    ensures var r := TryCall(g, c, t);
            && r.log == g.log + [OutcomeOf(t)]
            && r.core.state == (if Failed(t.attempt, t.timeoutMs) && Recent(c, r.log, t) >= c.failureThreshold
                                then Open else Closed)
  {
    hide Recent, Failed;
  }

  /** A closed breaker stays closed through these calls exactly when none of them trips it. */
  lemma {:induction false} StaysClosedIff(g: Guarded, c: Config, ts: seq<Try>)
    requires Sane(c) && g.core.state == Closed
    ensures (forall n :: 0 <= n <= |ts| ==> TryAll(g, c, ts[..n]).core.state == Closed) <==> NeverTrips(g.log, c, ts)
  {
    hide Recent, Failed, TryCall;
    if ts != [] {
      var n := |ts| - 1;
      var before := ts[..n];
      StaysClosedIff(g, c, before);
      assert forall m :: 0 <= m <= n ==> before[..m] == ts[..m];
      assert ts[..|ts|] == ts;
      if NeverTrips(g.log, c, before) { ClosedUntilTripped(g, c, ts); }
    } else {
      assert ts[..0] == [];
    }
  }

  /** A window smaller than the threshold: the breaker never opens. */
  lemma SmallWindowNeverOpens(g: Guarded, c: Config, ts: seq<Try>)
    requires Sane(c) && g.core.state == Closed && c.windowSize < c.failureThreshold
    ensures TryAll(g, c, ts).core.state == Closed
  {
    hide TryAll, Failed;
    forall n | 0 < n <= |ts| ensures !Trips(g.log, c, ts[..n]) {
      FailuresFull(Last(g.log + Outcomes(ts[..n]), c.windowSize), ts[n - 1].attempt.counted - c.windowMs);
    }
    StaysClosedIff(g, c, ts);
    assert ts[..|ts|] == ts;
  }

  // ------------------------------------------------------------------ failing fast

  ghost predicate TooEarly(k: Core, c: Config, ts: seq<Try>) {
    forall i :: 0 <= i < |ts| ==> ts[i].attempt.now - k.changedAt < c.timeoutMs
  }

  /** Before its timeout an open breaker runs nothing: every call is a fast fail and changes nothing else. */
  lemma {:induction false} OpenTurnsAway(g: Guarded, c: Config, ts: seq<Try>)
    requires Sane(c) && g.core.state == Open && TooEarly(g.core, c, ts)
    ensures var stats := g.core.stats;
            TryAll(g, c, ts) == g.(core := g.core.(stats := stats.(calls := stats.calls + |ts|,
                                                                   fastFails := stats.fastFails + |ts|)))
  {
    hide Recent, Failed;
    if ts != [] { OpenTurnsAway(g, c, ts[..|ts| - 1]); }
  }

  /**
   The first call at or after the timeout is run, and run half open: a failure
   opens the breaker anew, a success is the first of those that close it.
   */
  lemma TimeoutLetsOneTry(g: Guarded, c: Config, ts: seq<Try>, t: Try)
    requires Sane(c) && g.core.state == Open && TooEarly(g.core, c, ts)
    ensures var before := TryAll(g, c, ts);
            var r := TryCall(before, c, t);
            if t.attempt.now - g.core.changedAt < c.timeoutMs then
              r.log == g.log && r.core.state == Open && r.core.stats.fastFails == g.core.stats.fastFails + |ts| + 1
            else
              && r.log == g.log + [Outcome(t.attempt.recorded, Failed(t.attempt, t.timeoutMs))]
              && r.core.stats.fastFails == g.core.stats.fastFails + |ts|
              && (Failed(t.attempt, t.timeoutMs) ==> r.core.state == Open && r.core.changedAt == t.attempt.changed)
              && (!Failed(t.attempt, t.timeoutMs) ==>
                    if c.successThreshold == 1 then r.core.state == Closed
                    else r.core.state == HalfOpen && r.core.successes == 1)
  {
    hide Recent, TryAll, Failed;
    OpenTurnsAway(g, c, ts);
  }

  // ------------------------------------------------------------ probes over runs

  const FRESH := Guarded(Core(Closed, 0, 0, 0, NO_STATS), [])

  const SUCCESS := Attempt(0, 0, 0, 0, 0, 0, 0, 0)

  const FAILURE := Attempt(0, 0, 0, 0, 0, 0, 0, 1)

  lemma {:induction false} TryAllKeeps(c: Config, ts: seq<Try>)
    requires Sane(c)
    ensures Consistent(TryAll(FRESH, c, ts).core, c)
  {
    hide Recent, Called;
    if ts != [] {
      var before, t := ts[..|ts| - 1], ts[|ts| - 1];
      TryAllKeeps(c, before);
      CallKeeps(TryAll(FRESH, c, before).core, c, t.attempt, t.timeoutMs, Recent(c, TryAll(FRESH, c, ts).log, t));
    }
  }

  /** Half open after these calls, the breaker executes one more. */
  ghost predicate ProbesAdmitted(c: Config, ts: seq<Try>, a: Attempt)
    requires Sane(c)
  {
    TryAll(FRESH, c, ts).core.state == HalfOpen ==> Executes(TryAll(FRESH, c, ts).core, c, a)
  }

  /**
   No calls lead to a half open breaker that rejects exactly when the success
   threshold is within the probe limit, or the breaker never opens at all.
   */
  lemma HalfOpenNeverRejectsIff(c: Config)
    requires Sane(c)
    ensures (forall ts, a :: ProbesAdmitted(c, ts, a))
       <==> c.successThreshold <= c.halfOpenMax || c.windowSize < c.failureThreshold
  {
    hide TryAll;
    if c.successThreshold <= c.halfOpenMax || c.windowSize < c.failureThreshold {
      forall ts, a ensures ProbesAdmitted(c, ts, a) {
        TryAllKeeps(c, ts);
        if c.windowSize < c.failureThreshold { SmallWindowNeverOpens(FRESH, c, ts); }
      }
    } else {
      var ts := AllProbesUsed(c, c.halfOpenMax);
      assert !ProbesAdmitted(c, ts, SUCCESS);
    }
  }

  lemma FailuresTripIff(c: Config, ts: seq<Try>)
    requires Sane(c) && 0 < |ts| <= c.windowSize && forall i :: 0 <= i < |ts| ==> ts[i] == Try(FAILURE, 0)
    ensures Trips([], c, ts) <==> |ts| >= c.failureThreshold
  {
    hide Recent, Last, FailuresIn;
    assert [] + Outcomes(ts) == Outcomes(ts);
    RecentIs(c, Outcomes(ts), ts[|ts| - 1]);
    FailuresFull(Outcomes(ts), 0 - c.windowMs);
  }

  /** As many failures as trip the breaker. */
  lemma EnoughFailures(c: Config) returns (ts: seq<Try>)
    requires Sane(c) && c.failureThreshold <= c.windowSize
    ensures TryAll(FRESH, c, ts).core.state == Open && TryAll(FRESH, c, ts).core.changedAt == 0
  {
    hide TryAll, Trips;
    var t := Try(FAILURE, 0);
    ts := seq(c.failureThreshold, _ => t);
    var n := |ts| - 1;
    var before := ts[..n];
    forall m | 0 < m <= n ensures !Trips([], c, before[..m]) {
      FailuresTripIff(c, before[..m]);
    }
    FailuresTripIff(c, ts);
    ClosedUntilTripped(FRESH, c, ts);
    StaysClosedIff(FRESH, c, before);
    assert before[..n] == before;
    LastOpens(c, before, t);
    assert before + [t] == ts;
  }

  lemma LastOpens(c: Config, before: seq<Try>, t: Try)
    requires Sane(c) && TryAll(FRESH, c, before).core.state == Closed && t.attempt.changed == 0
    ensures TryAll(FRESH, c, before + [t]).core.state == Open ==> TryAll(FRESH, c, before + [t]).core.changedAt == 0
  {
    hide Recent;
    assert (before + [t])[..|before|] == before;
  }

  /** Those and, the timeout over, as many successes as asked for. */
  lemma {:induction false} AllProbesUsed(c: Config, n: nat) returns (ts: seq<Try>)
    requires Sane(c) && 0 < n <= c.halfOpenMax < c.successThreshold && c.failureThreshold <= c.windowSize
    ensures var k := TryAll(FRESH, c, ts).core; k.state == HalfOpen && k.successes == n && k.failures == 0
  {
    hide Recent;
    var t := Try(SUCCESS.(now := c.timeoutMs), 0);
    var before: seq<Try>;
    if n == 1 { before := EnoughFailures(c); } else { before := AllProbesUsed(c, n - 1); }
    ts := before + [t];
    assert ts[..|before|] == before;
  }

  // ---------------------------------------------- the documented reading of the threshold

  ghost predicate LastFailed(log: seq<Outcome>, n: nat) {
    n <= |log| && forall k :: |log| - n <= k < |log| ==> log[k].failed
  }

  ghost predicate AllFrom(log: seq<Outcome>, cutoff: int) {
    forall k :: 0 <= k < |log| ==> log[k].time >= cutoff
  }

  /** After a failure, with nothing too old, the window holds the threshold exactly when the last calls all failed. */
  ghost predicate CountsConsecutive(c: Config, log: seq<Outcome>, cutoff: int)
    requires Sane(c)
  {
    AllFrom(log, cutoff) && LastFailed(log, 1) ==>
      (FailuresIn(Last(log, c.windowSize), cutoff) >= c.failureThreshold <==> LastFailed(log, c.failureThreshold))
  }

  /** "Consecutive failures to trip" is what the window counts exactly when the threshold is 1 or the window's size. */
  lemma ConsecutiveIff(c: Config)
    requires Sane(c)
    ensures (forall log, cutoff :: CountsConsecutive(c, log, cutoff))
       <==> c.failureThreshold == 1 || c.failureThreshold == c.windowSize
  {
    if c.failureThreshold == 1 || c.failureThreshold == c.windowSize {
      forall log, cutoff ensures CountsConsecutive(c, log, cutoff) { ConsecutiveCounts(c, log, cutoff); }
    } else {
      var log := SpreadFailures(c);
      assert !CountsConsecutive(c, log, 0);
    }
  }

  lemma ConsecutiveCounts(c: Config, log: seq<Outcome>, cutoff: int)
    requires Sane(c) && (c.failureThreshold == 1 || c.failureThreshold == c.windowSize)
    ensures CountsConsecutive(c, log, cutoff)
  {
    hide Last, FailuresIn, AllFrom, LastFailed;
    if AllFrom(log, cutoff) && LastFailed(log, 1) {
      if c.failureThreshold == 1 {
        OneCounts(log, c.windowSize, cutoff);
      } else {
        FullWindow(log, c.windowSize, cutoff);
      }
    }
  }

  lemma OneCounts(log: seq<Outcome>, size: nat, cutoff: int)
    requires size > 0 && AllFrom(log, cutoff) && LastFailed(log, 1)
    ensures FailuresIn(Last(log, size), cutoff) >= 1
  {
    var w := Last(log, size);
    assert w[|w| - 1] == log[|log| - 1];
  }

  /** A window holds as many failures as it has room for exactly when that many last calls failed. */
  lemma FullWindow(log: seq<Outcome>, size: nat, cutoff: int)
    requires AllFrom(log, cutoff)
    ensures FailuresIn(Last(log, size), cutoff) >= size <==> LastFailed(log, size)
  {
    hide FailuresIn;
    var w := Last(log, size);
    var off := |log| - |w|;
    FailuresFull(w, cutoff);
    if LastFailed(log, size) {
      assert forall k :: 0 <= k < |w| ==> w[k] == log[off + k];
    }
    if FailuresIn(w, cutoff) >= size {
      forall k | off <= k < |log| ensures log[k].failed { assert w[k - off] == log[k]; }
    }
  }

  /** Too few failures fit into the window, or a success between them goes unnoticed. */
  lemma SpreadFailures(c: Config) returns (log: seq<Outcome>)
    requires Sane(c) && c.failureThreshold != 1 && c.failureThreshold != c.windowSize
    ensures !CountsConsecutive(c, log, 0)
  {
    var failure := Outcome(0, true);
    if c.windowSize < c.failureThreshold {
      log := seq(c.failureThreshold, _ => failure);
      FailuresFull(Last(log, c.windowSize), 0);
    } else {
      var ends := seq(c.failureThreshold - 1, _ => failure);
      log := [failure, Outcome(0, false)] + ends;
      FailuresAppend([failure, Outcome(0, false)], ends, 0);
      FailuresFull(ends, 0);
      TwoOutcomes(failure, Outcome(0, false), 0);
      assert log[|log| - c.failureThreshold] == Outcome(0, false);
      assert Last(log, c.windowSize) == log;
    }
  }

  lemma TwoOutcomes(a: Outcome, b: Outcome, cutoff: int)
    ensures FailuresIn([a, b], cutoff)
         == (if a.time >= cutoff && a.failed then 1 else 0) + if b.time >= cutoff && b.failed then 1 else 0
  {
    assert [a, b][..1] == [a] && [a][..0] == [];
    assert FailuresIn([a], cutoff) == FailuresIn([], cutoff) + if a.time >= cutoff && a.failed then 1 else 0;
  }

  lemma RecentIs(c: Config, log: seq<Outcome>, t: Try)
    requires Sane(c) && |log| <= c.windowSize
    ensures Recent(c, log, t) == FailuresIn(log, t.attempt.counted - c.windowMs)
  {
  }

  /** A failure, a success and a failure open a breaker that is to open on two consecutive ones. */
  lemma SeparateFailuresTrip()
    ensures var c := WithDefaults(Config(2, 0, 0, 0, 0, 0));
            var g := Guarded(Core(Closed, 0, 0, 0, NO_STATS), []);
            var ts := [Try(Attempt(0, 0, 0, 0, 0, 0, 0, 1), 0), Try(Attempt(1, 1, 1, 1, 1, 1, 1, 0), 0),
                       Try(Attempt(2, 2, 2, 2, 2, 2, 2, 1), 0)];
            TryAll(g, c, ts).core.state == Open && !LastFailed(TryAll(g, c, ts).log, 2)
  {
    var c := WithDefaults(Config(2, 0, 0, 0, 0, 0));
    var g := Guarded(Core(Closed, 0, 0, 0, NO_STATS), []);
    var ts := [Try(Attempt(0, 0, 0, 0, 0, 0, 0, 1), 0), Try(Attempt(1, 1, 1, 1, 1, 1, 1, 0), 0),
               Try(Attempt(2, 2, 2, 2, 2, 2, 2, 1), 0)];
    hide TryAll, TryCall, Outcomes, Recent, Last;
    var os := Outcomes(ts);
    var one, two := Outcomes(ts[..1]), Outcomes(ts[..2]);
    assert g.log + os == os && g.log + one == one && g.log + two == two;
    RecentIs(c, os, ts[2]);
    RecentIs(c, one, ts[0]);
    FailuresFull(one, 0 - 60000);
    assert os[..2] == [Outcome(0, true), Outcome(1, false)];
    TwoOutcomes(os[0], os[1], 2 - 60000);
    assert FailuresIn(os, 2 - 60000) == 2;
    forall n | 0 < n <= 2 ensures !Trips(g.log, c, ts[..2][..n]) {
      assert n == 1 || n == 2;
      assert ts[..2][..n] == ts[..n] && ts[..n][n - 1] == ts[n - 1];
    }
    ClosedUntilTripped(g, c, ts);
    assert !os[1].failed;
  }

  /** A ring in the order the outcomes came. */
  ghost function RingOf(w: seq<Outcome>, pos: nat, filled: bool): seq<Outcome>
    requires pos < |w|
  {
    if filled then w[pos..] + w[..pos] else w[..pos]
  }

  /** The ring holds the last outcomes of the log, in order and no others. */
  ghost predicate Holds(w: seq<Outcome>, pos: nat, filled: bool, log: seq<Outcome>) {
    pos < |w| && RingOf(w, pos, filled) == Last(log, |w|) && (filled <==> |log| >= |w|)
  }

  /** One more outcome in the next slot, which wraps at the end. */
  lemma RingStep(w: seq<Outcome>, pos: nat, filled: bool, log: seq<Outcome>, o: Outcome)
    requires Holds(w, pos, filled, log)
    ensures var wraps := pos + 1 == |w|;
            Holds(w[pos := o], if wraps then 0 else pos + 1, filled || wraps, log + [o])
  {
    var v := w[pos := o];
    assert |RingOf(w, pos, filled)| == if filled then |w| else pos;
    if filled {
      assert (w[pos..] + w[..pos])[1..] == w[pos + 1..] + w[..pos];
      assert v[pos + 1..] + v[..pos + 1] == w[pos + 1..] + w[..pos] + [o];
      assert Last(log + [o], |w|) == Last(log, |w|)[1..] + [o];
    } else {
      assert v[..pos + 1] == w[..pos] + [o];
    }
    if pos + 1 == |w| {
      assert v[0..] + v[..0] == v[..pos + 1] == v;
    }
  }

  class Breaker {
    const config: Config
    var state: State
    var failures: nat
    var successes: nat
    var changedAt: int
    var stats: Stats
    const window: array<Outcome>
    var windowPos: nat
    var windowFilled: bool
    /** Every finished call since the start or the last reset. */
    ghost var log: seq<Outcome>

    ghost function View(): Core
      reads this
    {
      Core(state, failures, successes, changedAt, stats)
    }

    ghost predicate Valid()
      reads this, window
    {
      Sane(config) && Consistent(View(), config) && WindowOk()
    }

    ghost predicate WindowOk()
      reads this, window
    {
      window.Length == config.windowSize && Holds(window[..], windowPos, windowFilled, log)
    }

    constructor (c: Config, now: int)
      ensures Valid() && fresh(window) && config == WithDefaults(c) && log == []
      ensures View() == Core(Closed, 0, 0, now, NO_STATS)
      ensures Sane(c) ==> config == c
      ensures c == Config(0, 0, 0, 0, 0, 0) ==> config == Config(5, 3, 30000, 3, 100, 60000)
    {
      var d := WithDefaults(c);
      config := d;
      state, failures, successes, changedAt, stats := Closed, 0, 0, now, NO_STATS;
      window := new Outcome[d.windowSize](_ => Outcome(0, false));
      windowPos, windowFilled, log := 0, false, [];
    }

    /** Counts in ring order what `FailuresIn` counts in time order. */
    method WindowFailures(now: int) returns (count: nat)
      requires WindowOk()
      ensures count == FailuresIn(Last(log, config.windowSize), now - config.windowMs)
    {
      var cutoff := now - config.windowMs;
      count := 0;
      var n := if windowFilled then config.windowSize else windowPos;
      for i := 0 to n
        invariant count == FailuresIn(window[..i], cutoff)
      {
        assert window[..i + 1][..i] == window[..i];
        if window[i].time >= cutoff && window[i].failed {
          count := count + 1;
        }
      }
      if windowFilled {
        FailuresAppend(window[..windowPos], window[windowPos..], cutoff);
        FailuresAppend(window[windowPos..], window[..windowPos], cutoff);
        assert window[..n] == window[..windowPos] + window[windowPos..];
      }
    }

    method WindowRecord(now: int, failed: bool)
      requires WindowOk()
      modifies this`windowPos, this`windowFilled, this`log, window
      ensures WindowOk() && log == old(log) + [Outcome(now, failed)]
    {
      ghost var o := Outcome(now, failed);
      ghost var was := window[..];
      assert windowPos < window.Length;
      hide Holds;
      RingStep(was, windowPos, windowFilled, log, o);
      window[windowPos] := Outcome(now, failed);
      assert window[..] == was[windowPos := o];
      windowPos := windowPos + 1;
      log := log + [o];
      if windowPos >= config.windowSize {
        windowPos := 0;
        windowFilled := true;
      }
    }

    method Transition(s: State, now: int)
      modifies this`state, this`failures, this`successes, this`changedAt, this`stats
      ensures View() == Transitioned(old(View()), s, now)
      ensures old(state) == s ==> View() == old(View())
      ensures old(state) != s ==>
                var since := if s == Open then now else old(stats).openedAt;
                View() == Core(s, 0, 0, now, old(stats).(lastChange := now, openedAt := since))
    {
      if state == s { return; }
      state, changedAt, failures, successes := s, now, 0, 0;
      stats := stats.(lastChange := now);
      if s == Open { stats := stats.(openedAt := now); }
    }

    method Call(a: Attempt, timeoutMs: int) returns (result: int)
      requires Valid()
      modifies this, window
      ensures Valid()
      ensures Guarded(View(), log) == TryCall(old(Guarded(View(), log)), config, Try(a, timeoutMs))
      ensures result == if Executes(old(View()), config, a) then a.result else -1
      ensures var early := old(state) == Open && a.now - old(changedAt) < config.timeoutMs;
              var spent := old(state) == HalfOpen && old(successes) + old(failures) >= config.halfOpenMax;
              var failed := a.result != 0 || (timeoutMs > 0 && a.end - a.start > timeoutMs);
              if early || spent then
                && result == -1 && log == old(log)
                && View() == old(View()).(stats := old(stats).(calls := old(stats).calls + 1,
                                                               fastFails := old(stats).fastFails + 1))
              else
                && result == a.result && log == old(log) + [Outcome(a.recorded, failed)]
                && stats.fastFails == old(stats).fastFails
                && var done := if old(state) == Open then 1 else old(successes) + 1;
                   var recent := FailuresIn(Last(log, config.windowSize), a.counted - config.windowMs);
                   state == if failed then if old(state) != Closed || recent >= config.failureThreshold then Open
                                           else Closed
                            else if old(state) == Closed || done >= config.successThreshold then Closed
                            else HalfOpen
    {
      hide Last, FailuresIn;
      ghost var before := View();
      stats := stats.(calls := stats.calls + 1);
      if state == Open {
        if a.now - changedAt >= config.timeoutMs {
          Transition(HalfOpen, a.woken);
        } else {
          stats := stats.(fastFails := stats.fastFails + 1);
          CallKeeps(before, config, a, timeoutMs,
                    FailuresIn(Last(log, config.windowSize), a.counted - config.windowMs));
          return -1;
        }
      }
      if state == HalfOpen {
        if successes + failures >= config.halfOpenMax {
          stats := stats.(fastFails := stats.fastFails + 1);
          CallKeeps(before, config, a, timeoutMs,
                    FailuresIn(Last(log, config.windowSize), a.counted - config.windowMs));
          return -1;
        }
      }
      Settle(a, timeoutMs);
      CallKeeps(before, config, a, timeoutMs, FailuresIn(Last(log, config.windowSize), a.counted - config.windowMs));
      return a.result;
    }

    /** Records how the operation went and moves the state machine on. */
    method Settle(a: Attempt, timeoutMs: int)
      requires WindowOk()
      modifies this, window
      ensures WindowOk() && log == old(log) + [Outcome(a.recorded, Failed(a, timeoutMs))]
      ensures View() == Finish(old(View()), config, a, timeoutMs,
                               FailuresIn(Last(log, config.windowSize), a.counted - config.windowMs))
    {
      hide Last, FailuresIn, Transitioned;
      ghost var before := View();
      var timedOut := timeoutMs > 0 && a.end - a.start > timeoutMs;
      var failed := a.result != 0 || timedOut;
      WindowRecord(a.recorded, failed);
      if failed {
        stats := stats.(failures := stats.failures + 1, lastFailure := a.now);
        if timedOut { stats := stats.(timeouts := stats.timeouts + 1); }
        failures, successes := failures + 1, 0;
        assert View() == Failing(before, a, timeoutMs);
        if state == HalfOpen {
          Transition(Open, a.changed);
        } else if state == Closed {
          var recent := WindowFailures(a.counted);
          if recent >= config.failureThreshold {
            Transition(Open, a.changed);
          }
        }
      } else {
        stats := stats.(successes := stats.successes + 1, lastSuccess := a.now);
        successes, failures := successes + 1, 0;
        assert View() == Succeeding(before, a);
        if state == HalfOpen && successes >= config.successThreshold {
          Transition(Closed, a.changed);
        }
      }
    }

    /** What a caller is told: an open breaker whose time is up reads as half open. */
    method GetState(now: int) returns (s: State)
      ensures forall a: Attempt :: a.now == now ==> s == Woken(View(), config, a).state
      ensures s == if state == Open && now - changedAt >= config.timeoutMs then HalfOpen else state
    {
      if state == Open {
        if now - changedAt >= config.timeoutMs { return HalfOpen; }
      }
      return state;
    }

    method Reset(now: int)
      requires Valid()
      modifies this, window
      ensures Valid() && log == []
      ensures View() == Transitioned(Core(old(state), 0, 0, old(changedAt), NO_STATS), Closed, now)
      ensures state == Closed && failures == successes == 0
      ensures changedAt == if old(state) == Closed then old(changedAt) else now
      ensures stats == if old(state) == Closed then NO_STATS else NO_STATS.(lastChange := now)
    {
      failures, successes, stats := 0, 0, NO_STATS;
      forall i | 0 <= i < window.Length { window[i] := Outcome(0, false); }
      windowPos, windowFilled := 0, false;
      log := [];
      Transition(Closed, now);
    }

    /** Lets a probe through before the timeout is up; half open again, it is a call like any other. */
    method HalfOpenProbe(a: Attempt, forcedAt: int, timeoutMs: int) returns (result: int)
      requires Valid()
      modifies this, window
      ensures Valid()
      ensures var k := if old(state) == Open then Transitioned(old(View()), HalfOpen, forcedAt) else old(View());
              View() == Called(k, config, a, timeoutMs,
                  FailuresIn(Last(log, config.windowSize), a.counted - config.windowMs))
      ensures old(state) == Open ==>
                && result == a.result && log == old(log) + [Outcome(a.recorded, Failed(a, timeoutMs))]
                && state == if Failed(a, timeoutMs) then Open
                            else if config.successThreshold == 1 then Closed else HalfOpen
    {
      if state == Open {
        Transition(HalfOpen, forcedAt);
      }
      result := Call(a, timeoutMs);
    }
  }
}
