/**
 Token bucket, sliding-window log and their composition. Clock readings are
 arguments and never run backwards; each limiter keeps a ghost log of what it
 granted, about which the bounds are stated.
 */
module RateLimiter {

  // ------------------------------------------------------------ token bucket

  datatype Grant = Grant(time: real, amount: nat)

  ghost function Sum(g: seq<Grant>): nat {
    if g == [] then 0 else Sum(g[..|g| - 1]) + g[|g| - 1].amount
  }

  /** The tokens granted at times from `s` to `e`, both included. */
  ghost function GrantedIn(g: seq<Grant>, s: real, e: real): nat {
    if g == [] then 0
    else GrantedIn(g[..|g| - 1], s, e) + if s <= g[|g| - 1].time <= e then g[|g| - 1].amount else 0
  }

  ghost predicate InOrder(g: seq<Grant>) {
    forall i, j :: 0 <= i < j < |g| ==> g[i].time <= g[j].time
  }

  /** Since grant `i`, no more than one bucketful and the refill went out. */
  ghost predicate Potential(g: seq<Grant>, rate: real, capacity: real, tokens: real, now: real, i: nat)
    requires i < |g|
  {
    Sum(g[i..]) as real + tokens <= capacity + Earned(rate, now - g[i].time)
  }

  ghost predicate Spaced(g: seq<Grant>, rate: real, capacity: real, i: nat, j: nat)
    requires i < j <= |g|
  {
    Sum(g[i..j]) as real <= capacity + Earned(rate, g[j - 1].time - g[i].time)
  }

  ghost predicate BucketBound(g: seq<Grant>, rate: real, capacity: real) {
    forall i, j :: 0 <= i < j <= |g| ==> Spaced(g, rate, capacity, i, j)
  }

  /** The tokens a time span adds to the bucket. */
  ghost function Earned(rate: real, span: real): real {
    rate * span
  }

  lemma EarnedIs(rate: real, span: real)
    ensures Earned(rate, span) == span * rate
  {
  }

  lemma EarnedSplit(rate: real, a: real, b: real, c: real)
    ensures Earned(rate, c - a) == Earned(rate, b - a) + Earned(rate, c - b)
  {
  }

  lemma EarnedZero(rate: real)
    ensures Earned(rate, 0.0) == 0.0
  {
  }

  lemma EarnedMonotone(rate: real, a: real, b: real)
    requires rate > 0.0 && a <= b
    ensures Earned(rate, a) <= Earned(rate, b)
  {
  }

  /** The grants `i` to `j` are those of the times from `s` to `e`. */
  ghost predicate Spans(g: seq<Grant>, s: real, e: real, i: nat, j: nat) {
    i <= j <= |g| && forall k :: 0 <= k < |g| ==> (s <= g[k].time <= e <==> i <= k < j)
  }

  lemma {:induction false} GrantedIsSum(g: seq<Grant>, s: real, e: real, i: nat, j: nat)
    requires Spans(g, s, e, i, j)
    ensures GrantedIn(g, s, e) == Sum(g[i..j])
  {
    if g != [] {
      var n := |g| - 1;
      var i', j' := if i > n then n else i, if j > n then n else j;
      SpansPrefix(g, s, e, i, j);
      GrantedIsSum(g[..n], s, e, i', j');
      SumPrefix(g, i, j);
    }
  }

  lemma SpansPrefix(g: seq<Grant>, s: real, e: real, i: nat, j: nat)
    requires g != [] && Spans(g, s, e, i, j)
    ensures var n := |g| - 1;
            && Spans(g[..n], s, e, if i > n then n else i, if j > n then n else j)
            && (s <= g[n].time <= e <==> i < j == |g|)
  {
    var n := |g| - 1;
    forall k | 0 <= k < n ensures g[..n][k] == g[k] { }
  }

  lemma SumPrefix(g: seq<Grant>, i: nat, j: nat)
    requires i <= j <= |g| && g != []
    ensures var n := |g| - 1;
            var i', j' := if i > n then n else i, if j > n then n else j;
            Sum(g[i..j]) == Sum(g[..n][i'..j']) + if i < j == |g| then g[n].amount else 0
  {
    var n := |g| - 1;
    if i < j == |g| {
      Slice(g, i, n, n);
      assert g[i..j][..n - i] == g[i..n] && g[i..j][n - i] == g[n];
    } else if j == |g| {
      assert g[i..j] == [] && g[..n][n..n] == [];
    } else {
      Slice(g, i, j, n);
    }
  }

  lemma Slice<T>(g: seq<T>, i: nat, j: nat, n: nat)
    requires i <= j <= n <= |g|
    ensures g[..n][i..j] == g[i..j]
  {
    assert |g[..n][i..j]| == j - i == |g[i..j]|;
    forall k | 0 <= k < j - i ensures g[..n][i..j][k] == g[i..j][k] { }
  }

  /** The token-bucket theorem for one interval of time. */
  lemma BucketTheorem(g: seq<Grant>, rate: real, capacity: real, s: real, e: real)
    requires InOrder(g) && BucketBound(g, rate, capacity) && rate > 0.0 && capacity >= 0.0 && s <= e
    ensures GrantedIn(g, s, e) as real <= capacity + Earned(rate, e - s)
  {
    hide Earned, Sum, GrantedIn;
    var i, j := TimeRange(g, s, e);
    GrantedIsSum(g, s, e, i, j);
    if i < j {
      assert Spaced(g, rate, capacity, i, j);
      EarnedMonotone(rate, g[j - 1].time - g[i].time, e - s);
    } else {
      EmptySum(g, i);
      EarnedZero(rate);
      EarnedMonotone(rate, 0.0, e - s);
    }
  }

  lemma SumOne(g: seq<Grant>, a: nat)
    requires |g| == 1 && g[0].amount == a
    ensures Sum(g) == a
  {
    assert g[..0] == [];
    assert Sum(g[..0]) == 0;
  }

  lemma EmptySum(g: seq<Grant>, i: nat)
    requires i <= |g|
    ensures Sum(g[i..i]) == 0
  {
  }

  /** The grants of an interval are consecutive. */
  lemma TimeRange(g: seq<Grant>, s: real, e: real) returns (i: nat, j: nat)
    requires InOrder(g) && s <= e
    ensures Spans(g, s, e, i, j)
  {
    i, j := 0, |g|;
    while i < |g| && g[i].time < s
      invariant i <= |g| && forall k :: 0 <= k < i ==> g[k].time < s
    {
      i := i + 1;
    }
    while j > i && g[j - 1].time > e
      invariant i <= j <= |g| && forall k :: j <= k < |g| ==> g[k].time > e
    {
      j := j - 1;
    }
  }

  function Min(a: real, b: real): real {
    if a <= b then a else b
  }

  /** A bucket and a request for tokens, as values. */
  datatype Bucket = Bucket(rate: real, capacity: real, tokens: real, lastRefill: real) {
    ghost predicate Sound() {
      rate > 0.0 && 0.0 <= tokens <= capacity
    }
  }

  datatype Request = Request(n: int, now: real)

  /** The bucket after a request, and the tokens granted. */
  ghost function Ask(b: Bucket, r: Request): (Bucket, int) {
    if r.n <= 0 then (b, 0)
    else
      var t := Min(b.capacity, b.tokens + Earned(b.rate, r.now - b.lastRefill));
      var a := if t >= r.n as real then r.n else t.Floor;
      (b.(tokens := t - a as real, lastRefill := r.now), a)
  }

  /** The bucket after requests in turn, and the tokens granted in all. */
  ghost function AskAll(b: Bucket, rs: seq<Request>): (Bucket, int)
    decreases |rs|
  {
    if rs == [] then (b, 0)
    else
      var (after, a) := Ask(b, rs[0]);
      var (end, more) := AskAll(after, rs[1..]);
      (end, a + more)
  }

  ghost predicate InTurn(rs: seq<Request>, from: real) {
    && (forall i :: 0 <= i < |rs| ==> from <= rs[i].now)
    && (forall i, j :: 0 <= i < j < |rs| ==> rs[i].now <= rs[j].now)
  }

  lemma AskIs(b: Bucket, n: int, now: real, t: real, a: int, after: Bucket)
    requires n > 0 && t == Min(b.capacity, b.tokens + Earned(b.rate, now - b.lastRefill))
    requires a == if t >= n as real then n else t.Floor
    requires after == b.(tokens := after.tokens, lastRefill := now) && after.tokens == t - a as real
    ensures Ask(b, Request(n, now)) == (after, a)
  {
  }

  lemma AskKeeps(b: Bucket, r: Request)
    requires b.Sound() && b.lastRefill <= r.now
    ensures var (after, _) := Ask(b, r);
            after.Sound() && after.lastRefill <= r.now && after.rate == b.rate && after.capacity == b.capacity
  {
    hide Earned;
    EarnedZero(b.rate);
    EarnedMonotone(b.rate, 0.0, r.now - b.lastRefill);
  }

  lemma {:induction false} AskAllKeeps(b: Bucket, rs: seq<Request>)
    requires b.Sound() && InTurn(rs, b.lastRefill)
    ensures var (after, _) := AskAll(b, rs);
            after.Sound() && after.rate == b.rate && after.capacity == b.capacity
    decreases |rs|
  {
    if rs != [] {
      AskKeeps(b, rs[0]);
      AskAllKeeps(Ask(b, rs[0]).0, rs[1..]);
    }
  }

  /** Whatever went before, n tokens are there once the rate has earned them. */
  lemma ServedOnceEarned(b: Bucket, rs: seq<Request>, r: Request)
    requires b.Sound() && InTurn(rs, b.lastRefill) && 0.0 <= r.n as real <= b.capacity
    ensures var (after, _) := AskAll(b, rs);
            r.now - after.lastRefill >= r.n as real / b.rate ==> Ask(after, r).1 == r.n
  {
    hide Ask, AskAll, InTurn;
    AskAllKeeps(b, rs);
    var after := AskAll(b, rs).0;
    if r.now - after.lastRefill >= r.n as real / b.rate { ServedNow(after, r); }
  }

  lemma ServedNow(b: Bucket, r: Request)
    requires b.Sound() && 0.0 <= r.n as real <= b.capacity && r.now - b.lastRefill >= r.n as real / b.rate
    ensures Ask(b, r).1 == r.n
  {
    hide Earned;
    var q := r.n as real / b.rate;
    EarnedMonotone(b.rate, q, r.now - b.lastRefill);
    EarnedIs(b.rate, q);
    assert b.rate * q == r.n as real;
  }

  /** Asked for a whole bucketful each time, and before a token can be lost to a full bucket. */
  ghost predicate Greedy(b: Bucket, rs: seq<Request>) {
    && (forall i :: 0 <= i < |rs| ==> rs[i].n > 0 && rs[i].n as real >= b.capacity)
    && (rs != [] ==> b.tokens + Earned(b.rate, rs[0].now - b.lastRefill) <= b.capacity)
    && (forall i :: 0 < i < |rs| ==> 1.0 + Earned(b.rate, rs[i].now - rs[i - 1].now) <= b.capacity)
  }

  /** The bucket gives what it earns: together the grants are all the whole tokens there have been. */
  lemma {:induction false} NothingLost(b: Bucket, rs: seq<Request>)
    requires b.Sound() && InTurn(rs, b.lastRefill) && Greedy(b, rs) && rs != []
    ensures AskAll(b, rs).1 == (b.tokens + Earned(b.rate, rs[|rs| - 1].now - b.lastRefill)).Floor
    decreases |rs|
  {
    var r, end := rs[0], rs[|rs| - 1].now;
    var (after, a) := Ask(b, r);
    AskKeeps(b, r);
    AskAllOfIt(b, r);
    hide Ask, Earned;
    EarnedSplit(b.rate, b.lastRefill, r.now, end);
    assert AskAll(b, rs).1 == a + AskAll(after, rs[1..]).1;
    if |rs| == 1 {
      EarnedZero(b.rate);
    } else {
      GreedyAgain(b, rs, after);
      hide Greedy, InTurn, AskAll;
      NothingLost(after, rs[1..]);
    }
  }

  lemma GreedyAgain(b: Bucket, rs: seq<Request>, after: Bucket)
    requires |rs| > 1 && InTurn(rs, b.lastRefill) && Greedy(b, rs)
    requires after.rate == b.rate && after.capacity == b.capacity
    requires after.tokens < 1.0 && after.lastRefill == rs[0].now
    ensures InTurn(rs[1..], after.lastRefill) && Greedy(after, rs[1..])
  {
    hide Earned;
  }

  /** One such request takes every whole token. */
  lemma AskAllOfIt(b: Bucket, r: Request)
    requires b.Sound() && b.lastRefill <= r.now && r.n > 0 && r.n as real >= b.capacity
    requires b.tokens + Earned(b.rate, r.now - b.lastRefill) <= b.capacity
    ensures var (after, a) := Ask(b, r);
            && after.tokens + a as real == b.tokens + Earned(b.rate, r.now - b.lastRefill)
            && 0.0 <= after.tokens < 1.0 && after.lastRefill == r.now
  {
    AskKeeps(b, r);
    hide Earned;
  }

  class TokenBucket {
    var tokens: real
    const rate: real
    const capacity: real
    var lastRefill: real
    var totalRequests: nat
    var totalRejected: nat
    /** Every grant since the start or the last reset. */
    ghost var grants: seq<Grant>

    ghost predicate Valid()
      reads this
    {
      && rate > 0.0 && capacity > 0.0
      && 0.0 <= tokens <= capacity
      && InOrder(grants) && (forall i :: 0 <= i < |grants| ==> grants[i].time <= lastRefill)
      && (forall i :: 0 <= i < |grants| ==> Potential(grants, rate, capacity, tokens, lastRefill, i))
      && BucketBound(grants, rate, capacity)
      && totalRequests == Sum(grants)
    }

    ghost function View(): Bucket
      reads this`tokens, this`lastRefill
    {
      Bucket(rate, capacity, tokens, lastRefill)
    }

    constructor (rate: real, capacity: real, now: real)
      ensures Valid() && grants == [] && tokens == this.capacity && lastRefill == now
      ensures this.rate == if rate > 0.0 then rate else 1.0
      ensures this.capacity == if capacity > 0.0 then capacity else this.rate
      ensures totalRequests == totalRejected == 0
    {
      var r := if rate > 0.0 then rate else 1.0;
      this.rate := r;
      this.capacity := if capacity > 0.0 then capacity else r;
      tokens := if capacity > 0.0 then capacity else r;
      lastRefill, totalRequests, totalRejected, grants := now, 0, 0, [];
    }

    method Refill(now: real)
      requires Valid() && now >= lastRefill
      modifies this`tokens, this`lastRefill
      ensures Valid() && lastRefill == now
      ensures tokens == Min(capacity, old(tokens) + rate * (now - old(lastRefill)))
      ensures tokens == Min(capacity, old(tokens) + Earned(rate, now - old(lastRefill)))
    {
      var elapsed := now - lastRefill;
      if elapsed <= 0.0 {
        EarnedZero(rate);
        return;
      }
      hide Earned, InOrder, BucketBound, Potential, Sum;
      EarnedIs(rate, elapsed);
      ghost var after := Min(capacity, tokens + rate * elapsed);
      RefillKeeps(grants, rate, capacity, tokens, lastRefill, now, after);
      tokens := tokens + elapsed * rate;
      if tokens > capacity { tokens := capacity; }
      lastRefill := now;
      assert tokens == after;
    }

    /** Grants up to `n` tokens, as many as there are whole tokens. */
    method ConsumeN(n: int, now: real) returns (allowed: int)
      requires Valid() && now >= lastRefill
      modifies this
      ensures Valid()
      ensures n <= 0 ==> allowed == 0 && tokens == old(tokens) && lastRefill == old(lastRefill) && grants == old(grants)
                         && totalRequests == old(totalRequests) && totalRejected == old(totalRejected)
      ensures n > 0 ==>
                var t := Min(capacity, old(tokens) + Earned(rate, now - old(lastRefill)));
                && allowed == (if t >= n as real then n else t.Floor)
                && 0 <= allowed <= n
                && tokens == t - allowed as real && lastRefill == now
                && grants == old(grants) + [Grant(now, allowed)]
                && totalRequests == old(totalRequests) + allowed && totalRejected == old(totalRejected) + n - allowed
      ensures Ask(old(View()), Request(n, now)) == (View(), allowed)
    {
      if n <= 0 { return 0; }
      hide Earned, InOrder, BucketBound, Potential, Sum, Ask, Min;
      ghost var before := View();
      Refill(now);
      ghost var t := tokens;
      allowed := WholeTokens(n);
      Take(allowed);
      totalRejected := totalRejected + (n - allowed);
      AskIs(before, n, now, t, allowed, View());
    }

    /** Hands out `a` tokens right after a refill. */
    method Take(a: nat)
      requires Valid() && a as real <= tokens
      modifies this`tokens, this`totalRequests, this`grants
      ensures Valid() && tokens == old(tokens) - a as real && totalRequests == old(totalRequests) + a
      ensures grants == old(grants) + [Grant(lastRefill, a)]
    {
      hide InOrder, BucketBound, Potential, Sum;
      GrantKeeps(grants, rate, capacity, tokens, lastRefill, a, tokens - a as real);
      if a > 0 {
        tokens := tokens - a as real;
        totalRequests := totalRequests + a;
      }
      grants := grants + [Grant(lastRefill, a)];
    }

    method WholeTokens(n: int) returns (allowed: int)
      requires n > 0 && tokens >= 0.0
      ensures allowed == if tokens >= n as real then n else tokens.Floor
      ensures 0 <= allowed <= n && allowed as real <= tokens
    {
      allowed := if tokens >= n as real then n else tokens.Floor;
    }

    method Consume(now: real) returns (ok: bool)
      requires Valid() && now >= lastRefill
      modifies this
      ensures Valid()
      ensures var t := Min(capacity, old(tokens) + Earned(rate, now - old(lastRefill)));
              && (ok <==> t >= 1.0) && lastRefill == now
              && tokens == (if ok then t - 1.0 else t)
              && grants == old(grants) + [Grant(now, if ok then 1 else 0)]
    {
      var n := ConsumeN(1, now);
      ok := n == 1;
    }

    method Reset(now: real)
      requires Valid()
      modifies this
      ensures Valid() && tokens == capacity && lastRefill == now && grants == []
      ensures totalRequests == totalRejected == 0
    {
      tokens, lastRefill, totalRequests, totalRejected := capacity, now, 0, 0;
      grants := [];
    }
  }

  lemma RefillKeeps(g: seq<Grant>, rate: real, capacity: real, t: real, last: real, now: real, t': real)
    requires rate > 0.0 && capacity > 0.0 && 0.0 <= t <= capacity && last <= now
    requires t' == Min(capacity, t + Earned(rate, now - last))
    requires forall i :: 0 <= i < |g| ==> Potential(g, rate, capacity, t, last, i)
    ensures 0.0 <= t' <= capacity
    ensures forall i :: 0 <= i < |g| ==> Potential(g, rate, capacity, t', now, i)
  {
    hide Earned, Sum;
    EarnedZero(rate);
    EarnedMonotone(rate, 0.0, now - last);
    forall i | 0 <= i < |g| ensures Potential(g, rate, capacity, t', now, i) {
      assert Potential(g, rate, capacity, t, last, i);
      EarnedSplit(rate, g[i].time, last, now);
    }
  }

  /** Taking `a` of `before` tokens out at `now` keeps every bound. */
  lemma GrantKeeps(g: seq<Grant>, rate: real, capacity: real, before: real, now: real, a: nat, left: real)
    requires rate > 0.0 && before <= capacity && 0.0 <= left == before - a as real
    requires InOrder(g) && forall i :: 0 <= i < |g| ==> g[i].time <= now
    requires forall i :: 0 <= i < |g| ==> Potential(g, rate, capacity, before, now, i)
    requires BucketBound(g, rate, capacity)
    ensures var h := g + [Grant(now, a)];
            && InOrder(h) && (forall i :: 0 <= i < |h| ==> Potential(h, rate, capacity, left, now, i))
            && BucketBound(h, rate, capacity) && Sum(h) == Sum(g) + a
  {
    hide Earned;
    var h := g + [Grant(now, a)];
    assert h[..|g|] == g;
    EarnedZero(rate);
    forall i | 0 <= i < |h| ensures Potential(h, rate, capacity, left, now, i) {
      if i < |g| {
        assert Potential(g, rate, capacity, before, now, i);
        assert h[i..][..|g| - i] == g[i..];
        assert Sum(h[i..]) == Sum(g[i..]) + a;
      } else {
        SumOne(h[i..], a);
        assert h[i].time == now;
      }
    }
    forall i, j | 0 <= i < j <= |h| ensures Spaced(h, rate, capacity, i, j) {
      if j <= |g| {
        assert Spaced(g, rate, capacity, i, j);
        assert h[i..j] == g[i..j];
      } else {
        assert Potential(h, rate, capacity, left, now, i);
        assert h[i..j] == h[i..];
      }
    }
  }

  // ---------------------------------------------------------- sliding window

  const SLOTS := 4096

  /** The requests at times from `s` up to, not including, `e`. */
  ghost function AllowedIn(log: seq<real>, s: real, e: real): nat {
    if log == [] then 0
    else AllowedIn(log[..|log| - 1], s, e) + if s <= log[|log| - 1] < e then 1 else 0
  }

  /** The entries whose age at `now` is below the window length. */
  ghost function Live(log: seq<real>, now: real, window: real): seq<real> {
    if log == [] then []
    else Live(log[..|log| - 1], now, window) + if now - log[|log| - 1] < window then [log[|log| - 1]] else []
  }

  ghost predicate Ordered(log: seq<real>) {
    forall i, j :: 0 <= i < j < |log| ==> log[i] <= log[j]
  }

  ghost predicate UpTo(log: seq<real>, now: real) {
    forall i :: 0 <= i < |log| ==> log[i] <= now
  }

  /** Any `max` + 1 consecutive requests span at least one window. */
  ghost predicate WindowBound(log: seq<real>, max: nat, window: real) {
    forall i, j :: 0 <= i && j == i + max < |log| ==> log[j] - log[i] >= window
  }

  ghost predicate DeadBefore(log: seq<real>, k: nat, now: real, window: real)
    requires k <= |log|
  {
    forall i :: 0 <= i < k ==> now - log[i] >= window
  }

  /** Live entries of an ordered log are its tail. */
  lemma {:induction false} LiveIsTail(log: seq<real>, now: real, window: real) returns (k: nat)
    requires Ordered(log)
    ensures k <= |log| && Live(log, now, window) == log[k..] && DeadBefore(log, k, now, window)
    ensures forall i :: k <= i < |log| ==> now - log[i] < window
  {
    k := 0;
    while k < |log| && now - log[k] >= window
      invariant k <= |log| && DeadBefore(log, k, now, window)
    {
      k := k + 1;
    }
    forall i | k <= i < |log| ensures now - log[i] < window { assert log[k] <= log[i]; }
    LiveSkipsDead(log, k, now, window);
    AllLive(log[k..], now, window);
  }

  lemma {:induction false} AllLive(log: seq<real>, now: real, window: real)
    requires Ordered(log) && (log != [] ==> now - log[0] < window)
    ensures Live(log, now, window) == log
  {
    if log != [] {
      AllLive(log[..|log| - 1], now, window);
    }
  }

  lemma {:induction false} LiveSkipsDead(log: seq<real>, k: nat, now: real, window: real)
    requires k <= |log| && DeadBefore(log, k, now, window)
    ensures Live(log, now, window) == Live(log[k..], now, window)
  {
    if log == [] {
    } else if k == |log| {
      LiveSkipsDead(log[..k - 1], k - 1, now, window);
      assert log[..k - 1][k - 1..] == [];
    } else {
      var n := |log| - 1;
      LiveSkipsDead(log[..n], k, now, window);
      assert log[k..][..n - k] == log[..n][k..];
    }
  }

  lemma {:induction false} AllowedInTail(log: seq<real>, s: real, e: real, k: nat)
    requires k <= |log| && forall i :: 0 <= i < k ==> log[i] < s
    ensures AllowedIn(log, s, e) <= |log| - k
  {
    if log != [] {
      var n := |log| - 1;
      AllowedInTail(log[..n], s, e, if k < n then k else n);
    }
  }

  /** No half-open stretch of one window length holds more than `max` requests. */
  lemma {:induction false} WindowTheorem(log: seq<real>, max: nat, window: real, s: real)
    requires Ordered(log) && WindowBound(log, max, window)
    ensures AllowedIn(log, s, s + window) <= max
  {
    if log != [] {
      var n := |log| - 1;
      if s <= log[n] < s + window {
        if |log| > max {
          assert log[n] - log[n - max] >= window;
          AllowedInTail(log, s, s + window, n - max + 1);
        } else {
          AllowedInTail(log, s, s + window, 0);
        }
      } else {
        WindowTheorem(log[..n], max, window, s);
      }
    }
  }

  /** Evicting the ring's `c` newest entries at `now` leaves the live part of the whole log. */
  lemma EvictLemma(log: seq<real>, c: nat, last: real, now: real, window: real) returns (k: nat)
    requires Ordered(log) && UpTo(log, last) && last <= now && c <= |log| && DeadBefore(log, |log| - c, last, window)
    ensures k <= |log| && Live(log[|log| - c..], now, window) == Live(log, now, window) == log[k..]
    ensures DeadBefore(log, k, now, window) && UpTo(log, now)
    ensures forall i :: k <= i < |log| ==> now - log[i] < window
  {
    LiveSkipsDead(log, |log| - c, now, window);
    k := LiveIsTail(log, now, window);
  }

  /** Admitting one more request while fewer than `max` are live keeps the bound. */
  lemma PushKeeps(log: seq<real>, k: nat, max: nat, window: real, now: real, later: real)
    requires Ordered(log) && WindowBound(log, max, window) && |log| - max < k <= |log| && max > 0
    requires now <= later && UpTo(log, now) && DeadBefore(log, k, now, window)
    ensures Ordered(log + [later]) && UpTo(log + [later], later) && WindowBound(log + [later], max, window)
    ensures DeadBefore(log + [later], k, later, window)
  {
  }

  /** Fewer than `max` are live exactly when the last but `max` is not. */
  lemma FullIs(log: seq<real>, max: nat, now: real, window: real)
    requires Ordered(log) && max > 0
    ensures var n := |log| - max; |Live(log, now, window)| < max <==> n < 0 || now - log[n] >= window
  {
    var k := LiveIsTail(log, now, window);
  }

  lemma TailPush(log: seq<real>, c: nat, later: real)
    requires c <= |log|
    ensures (log + [later])[|log| - c..] == log[|log| - c..] + [later]
  {
  }

  class SlidingWindow {
    const windowSec: real
    const maxRequests: nat
    const timestamps: array<real>
    var head: nat
    var count: nat
    var totalAllowed: nat
    var totalRejected: nat
    /** When each request was allowed, since the start or the last reset. */
    ghost var log: seq<real>
    ghost var lastNow: real

    ghost predicate Valid()
      reads this, timestamps
    {
      && timestamps.Length == SLOTS && 0 < maxRequests <= SLOTS && windowSec > 0.0
      && count <= maxRequests && head == count % SLOTS
      && Ordered(log) && UpTo(log, lastNow)
      && count <= |log| == totalAllowed
      && Contents() == log[|log| - count..]
      && DeadBefore(log, |log| - count, lastNow, windowSec)
      && WindowBound(log, maxRequests, windowSec)
    }

    /** The ring, oldest first. */
    ghost function Contents(): seq<real>
      reads this, timestamps
      requires count <= timestamps.Length
    {
      timestamps[..count]
    }

    constructor (windowSec: real, maxRequests: int, ghost now: real)
      requires maxRequests <= SLOTS
      ensures Valid() && fresh(timestamps) && log == [] && lastNow == now
      ensures this.windowSec == if windowSec > 0.0 then windowSec else 1.0
      ensures this.maxRequests == if maxRequests > 0 then maxRequests else 1
      ensures totalAllowed == totalRejected == 0
    {
      this.windowSec := if windowSec > 0.0 then windowSec else 1.0;
      this.maxRequests := if maxRequests > 0 then maxRequests else 1;
      timestamps := new real[SLOTS](_ => 0.0);
      head, count, totalAllowed, totalRejected := 0, 0, 0, 0;
      log, lastNow := [], now;
    }

    lemma HasRoom()
      requires Valid()
      ensures maxRequests > 0
    {
    }

    /** Copies the entries still within the window out of the ring. */
    method CollectLive(now: real) returns (keptTimes: array<real>, kept: nat)
      requires timestamps.Length == SLOTS && count <= SLOTS && head == count % SLOTS
      ensures keptTimes.Length == SLOTS && fresh(keptTimes) && kept <= count
      ensures keptTimes[..kept] == Live(Contents(), now, windowSec)
    {
      keptTimes := new real[SLOTS];
      var i := 0;
      kept := 0;
      while i < count
        invariant 0 <= i <= count && kept <= i
        invariant keptTimes[..kept] == Live(timestamps[..i], now, windowSec)
      {
        var idx := (head - count + i + SLOTS) % SLOTS;
        assert idx == i;
        assert timestamps[..i + 1][..i] == timestamps[..i];
        if now - timestamps[idx] < windowSec {
          keptTimes[kept] := timestamps[idx];
          kept := kept + 1;
        }
        i := i + 1;
      }
    }

    method Rebuild(keptTimes: array<real>, kept: nat)
      requires timestamps.Length == SLOTS == keptTimes.Length && kept <= SLOTS && timestamps != keptTimes
      modifies this`head, this`count, timestamps
      ensures head == kept % SLOTS && count == kept && Contents() == old(keptTimes[..kept])
    {
      var i := 0;
      while i < kept
        invariant 0 <= i <= kept && timestamps[..i] == keptTimes[..i]
        invariant keptTimes[..kept] == old(keptTimes[..kept])
      {
        timestamps[i] := keptTimes[i];
        i := i + 1;
      }
      head, count := kept % SLOTS, kept;
    }

    /** Drops every entry that has left the window; the ring then holds exactly the live part of the log. */
    method Evict(now: real)
      requires Valid() && now >= lastNow
      modifies this`head, this`count, this`lastNow, timestamps
      ensures Valid() && lastNow == now
      ensures Contents() == Live(log, now, windowSec)
    {
      hide Ordered, WindowBound, UpTo, DeadBefore, Live;
      var keptTimes, kept := CollectLive(now);
      ghost var k := EvictLemma(log, count, lastNow, now, windowSec);
      Rebuild(keptTimes, kept);
      lastNow := now;
    }

    /** Reads the clock once to evict and once more to stamp the request. */
    method Allow(now: real, later: real) returns (ok: bool)
      requires Valid() && lastNow <= now <= later
      modifies this, timestamps
      ensures Valid() && lastNow == if ok then later else now
      ensures ok <==> |Live(old(log), now, windowSec)| < maxRequests
      ensures var n := |old(log)| - maxRequests; ok <==> n < 0 || now - old(log)[n] >= windowSec
      ensures log == old(log) + if ok then [later] else []
      ensures Contents() == Live(old(log), now, windowSec) + if ok then [later] else []
      ensures totalAllowed == old(totalAllowed) + (if ok then 1 else 0)
      ensures totalRejected == old(totalRejected) + if ok then 0 else 1
    {
      hide Ordered, WindowBound, UpTo, DeadBefore, Live;
      FullIs(log, maxRequests, now, windowSec);
      Evict(now);
      assert count == |Live(log, now, windowSec)|;
      if count < maxRequests {
        Push(later);
        return true;
      }
      totalRejected := totalRejected + 1;
      return false;
    }

    method Push(later: real)
      requires Valid() && count < maxRequests && lastNow <= later
      modifies this`head, this`count, this`totalAllowed, this`log, this`lastNow, timestamps
      ensures Valid() && lastNow == later && log == old(log) + [later]
      ensures Contents() == old(Contents()) + [later] && totalAllowed == old(totalAllowed) + 1
    {
      hide Ordered, WindowBound, UpTo, DeadBefore;
      PushKeeps(log, |log| - count, maxRequests, windowSec, lastNow, later);
      TailPush(log, count, later);
      assert head == count;
      ghost var before := Contents();
      timestamps[head] := later;
      assert timestamps[..count + 1] == before + [later];
      head, count, totalAllowed := (head + 1) % SLOTS, count + 1, totalAllowed + 1;
      log, lastNow := log + [later], later;
    }

    method Available(now: real) returns (free: int)
      requires Valid() && now >= lastNow
      modifies this`head, this`count, this`lastNow, timestamps
      ensures Valid() && lastNow == now
      ensures free == maxRequests - |Live(log, now, windowSec)| && 0 <= free
    {
      Evict(now);
      free := maxRequests - count;
    }

    method Reset()
      requires Valid()
      modifies this
      ensures Valid() && log == [] && Contents() == [] && totalAllowed == totalRejected == 0
      ensures lastNow == old(lastNow)
    {
      head, count, totalAllowed, totalRejected := 0, 0, 0, 0;
      log := [];
    }
  }

  // ------------------------------------------------------- composite limiter

  /** Every request the composite allowed had a token and a window slot of its own. */
  ghost predicate Covered(tokens: seq<Grant>, slots: seq<real>, grants: seq<Grant>, log: seq<real>) {
    && (forall s, e :: GrantedIn(tokens, s, e) <= GrantedIn(grants, s, e))
    && (forall s, e :: AllowedIn(slots, s, e) <= AllowedIn(log, s, e))
  }

  lemma GrantedInPush(g: seq<Grant>, x: Grant)
    ensures forall s, e :: GrantedIn(g + [x], s, e) == GrantedIn(g, s, e) + if s <= x.time <= e then x.amount else 0
  {
    assert (g + [x])[..|g|] == g;
  }

  lemma AllowedInPush(log: seq<real>, t: real)
    ensures forall s, e :: AllowedIn(log + [t], s, e) == AllowedIn(log, s, e) + if s <= t < e then 1 else 0
  {
    assert (log + [t])[..|log|] == log;
  }

  class CompositeLimiter {
    const burst: TokenBucket
    const sustained: SlidingWindow
    var rejectOnBurst: bool
    var rejectOnWindow: bool
    /** The token and the window slot of each request the composite allowed. */
    ghost var tokens: seq<Grant>
    ghost var slots: seq<real>

    ghost predicate Valid()
      reads this, burst, sustained, sustained.timestamps
    {
      && burst.Valid() && sustained.Valid()
      && |tokens| == |slots| && (forall i :: 0 <= i < |tokens| ==> tokens[i].amount == 1)
      && Covered(tokens, slots, burst.grants, sustained.log)
    }

    constructor (burstRate: real, burstCap: real, windowSec: real, maxPerWindow: int, now: real)
      requires maxPerWindow <= SLOTS
      ensures Valid() && fresh(burst) && fresh(sustained) && fresh(sustained.timestamps)
      ensures burst.lastRefill == sustained.lastNow == now && tokens == [] && slots == []
      ensures !rejectOnBurst && !rejectOnWindow
    {
      burst := new TokenBucket(burstRate, burstCap, now);
      sustained := new SlidingWindow(windowSec, maxPerWindow, now);
      rejectOnBurst, rejectOnWindow := false, false;
      tokens, slots := [], [];
    }

    /** Three clock readings: the bucket's refill, the window's eviction, the window's stamp. */
    method Allow(now: real, evictAt: real, stampAt: real) returns (ok: bool)
      requires Valid() && burst.lastRefill <= now && sustained.lastNow <= evictAt && now <= evictAt <= stampAt
      modifies this, burst, sustained, sustained.timestamps
      ensures Valid()
      ensures var t := old(burst.tokens) + Earned(burst.rate, now - old(burst.lastRefill));
              rejectOnBurst <==> Min(burst.capacity, t) < 1.0
      ensures var n := |old(sustained.log)| - sustained.maxRequests;
              rejectOnWindow <==> n >= 0 && evictAt - old(sustained.log)[n] < sustained.windowSec
      ensures ok == (!rejectOnBurst && !rejectOnWindow)
      ensures tokens == old(tokens) + if ok then [Grant(now, 1)] else []
      ensures slots == old(slots) + if ok then [stampAt] else []
      ensures burst.grants == old(burst.grants) + [Grant(now, if rejectOnBurst then 0 else 1)]
      ensures sustained.log == old(sustained.log) + if rejectOnWindow then [] else [stampAt]
      ensures burst.lastRefill == now && sustained.lastNow <= stampAt
    {
      hide Earned, GrantedIn, AllowedIn, Live, Sum, InOrder, BucketBound, Potential, Ordered, WindowBound, UpTo,
        DeadBefore, Min, Covered, TokenBucket.Valid, SlidingWindow.Valid;
      sustained.HasRoom();
      ghost var t, log := burst.tokens + Earned(burst.rate, now - burst.lastRefill), sustained.log;
      ghost var n := |log| - sustained.maxRequests;
      rejectOnBurst, rejectOnWindow := false, false;
      var burstOk := burst.Consume(now);
      assert burstOk <==> Min(burst.capacity, t) >= 1.0;
      var windowOk := sustained.Allow(evictAt, stampAt);
      assert windowOk <==> n < 0 || evictAt - log[n] >= sustained.windowSec;
      if !burstOk { rejectOnBurst := true; }
      if !windowOk { rejectOnWindow := true; }
      ok := burstOk && windowOk;
      CoveredStep(tokens, slots, old(burst.grants), old(sustained.log), now, stampAt, burstOk, windowOk);
      if ok {
        tokens, slots := tokens + [Grant(now, 1)], slots + [stampAt];
      }
      assert tokens == old(tokens) + (if ok then [Grant(now, 1)] else []);
      assert slots == old(slots) + if ok then [stampAt] else [];
      assert sustained.log == old(sustained.log) + if windowOk then [stampAt] else [];
    }
  }

  lemma CoveredStep(tokens: seq<Grant>, slots: seq<real>, grants: seq<Grant>, log: seq<real>,
                    now: real, stamp: real, burstOk: bool, windowOk: bool)
    requires Covered(tokens, slots, grants, log)
    ensures var ok := burstOk && windowOk;
            Covered(tokens + (if ok then [Grant(now, 1)] else []), slots + (if ok then [stamp] else []),
                    grants + [Grant(now, if burstOk then 1 else 0)], log + if windowOk then [stamp] else [])
  {
    hide GrantedIn, AllowedIn;
    GrantedInPush(grants, Grant(now, if burstOk then 1 else 0));
    AllowedInPush(log, stamp);
    GrantedInPush(tokens, Grant(now, 1));
    AllowedInPush(slots, stamp);
    assert tokens + [] == tokens && slots + [] == slots && log + [] == log;
  }

  /** What the composite lets through obeys both bounds. */
  lemma CompositeBound(c: CompositeLimiter, s: real, e: real)
    requires c.Valid() && s <= e
    ensures GrantedIn(c.tokens, s, e) as real <= c.burst.capacity + Earned(c.burst.rate, e - s)
    ensures AllowedIn(c.slots, s, s + c.sustained.windowSec) <= c.sustained.maxRequests
  {
    hide GrantedIn, AllowedIn, Sum;
    BucketTheorem(c.burst.grants, c.burst.rate, c.burst.capacity, s, e);
    WindowTheorem(c.sustained.log, c.sustained.maxRequests, c.sustained.windowSec, s);
  }
}
