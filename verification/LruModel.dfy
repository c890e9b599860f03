/**
 The cache as a list in most-recently-used order: the simple form that the
 linked list and hash table of LruCache are proved to implement, and the
 whole-run properties of that form.
 */
module LruModel {
  import opened CStrings
  import opened Sequences

  const KEY_BUFFER: nat := 128
  const VALUE_BUFFER: nat := 1024
  const NANOS: int := 1_000_000_000

  datatype Record = Record(key: Str, value: Str, ttlSec: int, createdAt: int)

  /** `entries` runs from the most to the least recently used record. */
  datatype State = State(entries: seq<Record>, capacity: int, defaultTtl: int,
                         hits: nat, misses: nat, evictions: nat)

  /** The first position holding `key`, or the length when there is none. */
  function IndexOf(s: seq<Record>, key: Str): (i: nat)
    ensures i <= |s|
    ensures i < |s| ==> s[i].key == key
    ensures forall j :: 0 <= j < i ==> s[j].key != key
  {
    if s == [] then 0 else if s[0].key == key then 0 else 1 + IndexOf(s[1..], key)
  }

  predicate Expired(r: Record, now: int) {
    r.ttlSec > 0 && now - r.createdAt >= r.ttlSec * NANOS
  }

  /** The records that survive an active clean-up, in their order. */
  function Live(s: seq<Record>, now: int): seq<Record> {
    if s == [] then []
    else if Expired(s[0], now) then Live(s[1..], now)
    else [s[0]] + Live(s[1..], now)
  }

  // ---------------------------------------------------------------- operations

  function Init(capacity: int, defaultTtl: int): State {
    State([], if capacity > 0 then capacity else 64, if defaultTtl >= 0 then defaultTtl else 0, 0, 0, 0)
  }

  function Get(c: State, key: Str, now: int): (State, Option<Str>) {
    var i := IndexOf(c.entries, key);
    if i == |c.entries| then
      (c.(misses := c.misses + 1), None)
    else if Expired(c.entries[i], now) then
      (c.(entries := RemoveAt(c.entries, i), misses := c.misses + 1, evictions := c.evictions + 1), None)
    else
      (c.(entries := [c.entries[i]] + RemoveAt(c.entries, i), hits := c.hits + 1), Some(c.entries[i].value))
  }

  function EffectiveTtl(c: State, ttlSec: int): int {
    if ttlSec > 0 then ttlSec else c.defaultTtl
  }

  function EvictLru(c: State): (State, int) {
    if c.entries == [] then (c, -1)
    else (c.(entries := c.entries[..|c.entries| - 1], evictions := c.evictions + 1), 0)
  }

  function Put(c: State, key: Str, value: Str, ttlSec: int, now: int): State {
    var i := IndexOf(c.entries, key);
    var stored := Truncate(value, VALUE_BUFFER - 1);
    if i < |c.entries| then
      var r := Record(c.entries[i].key, stored, EffectiveTtl(c, ttlSec), now);
      c.(entries := [r] + RemoveAt(c.entries, i))
    else
      var r := Record(Truncate(key, KEY_BUFFER - 1), stored, EffectiveTtl(c, ttlSec), now);
      var room := if |c.entries| >= c.capacity then EvictLru(c).0 else c;
      room.(entries := [r] + room.entries)
  }

  function Delete(c: State, key: Str): (State, int) {
    var i := IndexOf(c.entries, key);
    if i == |c.entries| then (c, -1) else (c.(entries := RemoveAt(c.entries, i)), 0)
  }

  function EvictExpired(c: State, now: int): (State, int) {
    var live := Live(c.entries, now);
    var n := |c.entries| - |live|;
    LiveLength(c.entries, now);
    (c.(entries := live, evictions := c.evictions + n), n)
  }

  function Clear(c: State): State {
    c.(entries := [])
  }

  predicate Has(c: State, key: Str, now: int) {
    var i := IndexOf(c.entries, key);
    i < |c.entries| && !Expired(c.entries[i], now)
  }

  lemma LiveLength(s: seq<Record>, now: int)
    ensures |Live(s, now)| <= |s|
  {
  }

  /** The readings of the clock in one pass, in order. */
  type Clock = nat -> int

  /** The same when the clock is read for each record, the last one first. */
  function LiveBy(s: seq<Record>, clock: Clock): (r: seq<Record>)
    ensures |r| <= |s|
  {
    if s == [] then []
    else if Expired(s[0], clock(|s| - 1)) then LiveBy(s[1..], clock)
    else [s[0]] + LiveBy(s[1..], clock)
  }

  function EvictExpiredBy(c: State, clock: Clock): (State, int) {
    var live := LiveBy(c.entries, clock);
    var n := |c.entries| - |live|;
    (c.(entries := live, evictions := c.evictions + n), n)
  }

  lemma LiveByStep(s: seq<Record>, k: nat, clock: Clock)
    requires k < |s|
    ensures LiveBy(s[k..], clock)
            == (if Expired(s[k], clock(|s| - 1 - k)) then [] else [s[k]]) + LiveBy(s[k + 1..], clock)
  {
    hide Expired;
    assert s[k..][1..] == s[k + 1..];
  }

  /**
   The survivors of `s[k..]` are the records whose own reading finds them
   unexpired, each once and in their order.
   */
  lemma {:induction false} Survivors(s: seq<Record>, k: nat, clock: Clock) returns (at: seq<nat>)
    requires k <= |s|
    ensures |at| == |LiveBy(s[k..], clock)|
    ensures forall j :: 0 <= j < |at| ==> k <= at[j] < |s| && LiveBy(s[k..], clock)[j] == s[at[j]]
    ensures forall i, j :: 0 <= i < j < |at| ==> at[i] < at[j]
    ensures forall i :: k <= i < |s| ==> (i in at <==> !Expired(s[i], clock(|s| - 1 - i)))
    decreases |s| - k
  {
    at := [];
    if k < |s| {
      var rest := Survivors(s, k + 1, clock);
      LiveByStep(s, k, clock);
      hide Expired, LiveBy;
      at := if Expired(s[k], clock(|s| - 1 - k)) then rest else [k] + rest;
    }
  }

  /** While the clock stands still that is the clean-up of the runs below. */
  lemma {:induction false} StandingClock(s: seq<Record>, clock: Clock, now: int)
    requires forall n :: 0 <= n < |s| ==> clock(n) == now
    ensures LiveBy(s, clock) == Live(s, now)
  {
    if s != [] { StandingClock(s[1..], clock, now); }
  }

  /** Otherwise it leaves at least what a pass at its last reading leaves, and at most what one at its first does. */
  lemma {:induction false} RunningClock(s: seq<Record>, clock: Clock, first: int, last: int)
    requires forall n :: 0 <= n < |s| ==> first <= clock(n) <= last
    ensures multiset(Live(s, last)) <= multiset(LiveBy(s, clock)) <= multiset(Live(s, first))
  {
    if s != [] {
      RunningClock(s[1..], clock, first, last);
      assert Expired(s[0], first) ==> Expired(s[0], clock(|s| - 1));
      assert Expired(s[0], clock(|s| - 1)) ==> Expired(s[0], last);
      hide Expired;
      MultisetPush(s[0], Live(s[1..], last));
      MultisetPush(s[0], LiveBy(s[1..], clock));
      MultisetPush(s[0], Live(s[1..], first));
    }
  }

  lemma MultisetPush<T>(x: T, s: seq<T>)
    ensures multiset([x] + s) == multiset{x} + multiset(s)
  {
  }

  // ---------------------------------------------------------------------- runs

  datatype Op =
    | OpGet(key: Str)
    | OpPut(key: Str, value: Str, ttlSec: int)
    | OpDelete(key: Str)
    | OpEvictLru
    | OpEvictExpired
    | OpClear

  /** One operation and the clock reading it takes. */
  datatype Event = Event(op: Op, now: int)

  function Step(c: State, e: Event): State {
    match e.op
    case OpGet(key) => Get(c, key, e.now).0
    case OpPut(key, value, ttl) => Put(c, key, value, ttl, e.now)
    case OpDelete(key) => Delete(c, key).0
    case OpEvictLru => EvictLru(c).0
    case OpEvictExpired => EvictExpired(c, e.now).0
    case OpClear => Clear(c)
  }

  function Run(c: State, trace: seq<Event>): State
    decreases |trace|
  {
    if trace == [] then c else Run(Step(c, trace[0]), trace[1..])
  }

  /** Sizes that every run keeps: the capacity bound and the stored buffers. */
  predicate WellFormed(c: State) {
    && 0 < c.capacity
    && |c.entries| <= c.capacity
    && forall i :: 0 <= i < |c.entries| ==> Fits(c.entries[i])
  }

  predicate Fits(r: Record) {
    |r.key| < KEY_BUFFER && |r.value| < VALUE_BUFFER
  }

  lemma {:induction false} LiveFits(s: seq<Record>, now: int)
    requires forall i :: 0 <= i < |s| ==> Fits(s[i])
    ensures forall i :: 0 <= i < |Live(s, now)| ==> Fits(Live(s, now)[i])
  {
    if s != [] { LiveFits(s[1..], now); }
  }

  /** No run ever exceeds the capacity or a buffer, whatever its arguments. */
  lemma StepWellFormed(c: State, e: Event)
    requires WellFormed(c)
    ensures WellFormed(Step(c, e)) && Step(c, e).capacity == c.capacity
  {
    match e.op
    case OpGet(key) => RemoveFits(c.entries, IndexOf(c.entries, key));
    case OpPut(key, _, _) => RemoveFits(c.entries, IndexOf(c.entries, key));
    case OpDelete(key) => RemoveFits(c.entries, IndexOf(c.entries, key));
    case OpEvictExpired =>
      LiveFits(c.entries, e.now);
      LiveLength(c.entries, e.now);
    case _ =>
  }

  lemma RemoveFits(s: seq<Record>, i: nat)
    requires forall j :: 0 <= j < |s| ==> Fits(s[j])
    ensures i < |s| ==> forall j :: 0 <= j < |s| - 1 ==> Fits(RemoveAt(s, i)[j])
  {
  }

  lemma {:induction false} RunWellFormed(c: State, trace: seq<Event>)
    requires WellFormed(c)
    ensures WellFormed(Run(c, trace)) && Run(c, trace).capacity == c.capacity
    decreases |trace|
  {
    if trace != [] {
      StepWellFormed(c, trace[0]);
      RunWellFormed(Step(c, trace[0]), trace[1..]);
    }
  }

  /**
   What the cache is for: a value just stored is found again, cut to the
   value buffer, unless it has already expired. This holds exactly for keys
   that fit the key buffer: a longer key is stored truncated but looked up
   in full.
   */
  lemma GetAfterPut(c: State, key: Str, value: Str, ttlSec: int, putAt: int, getAt: int)
    requires WellFormed(c)
    ensures var ttl := EffectiveTtl(c, ttlSec);
            Get(Put(c, key, value, ttlSec, putAt), key, getAt).1
            == (if |key| < KEY_BUFFER && (ttl <= 0 || getAt - putAt < ttl * NANOS)
                then Some(Truncate(value, VALUE_BUFFER - 1)) else None)
  {
    var c' := Put(c, key, value, ttlSec, putAt);
    if |key| < KEY_BUFFER {
      assert c'.entries[0].key == key;
      assert IndexOf(c'.entries, key) == 0;
    } else {
      StepWellFormed(c, Event(OpPut(key, value, ttlSec), putAt));
      assert IndexOf(c'.entries, key) == |c'.entries|;
    }
  }

  /**
   What a deletion is for: with distinct keys, the key is answered no more,
   and every other key as before.
   */
  lemma DeleteForgets(c: State, key: Str, other: Str, now: int)
    requires DistinctKeys(c.entries) && other != key
    ensures Get(Delete(c, key).0, key, now).1 == None
    ensures Get(Delete(c, key).0, other, now).1 == Get(c, other, now).1
  {
    hide RemoveAt;
    var s, i := c.entries, IndexOf(c.entries, key);
    if i < |s| {
      RemoveDistinct(s, key);
      AbsentIsNoIndex(RemoveAt(s, i), key);
      RemovedFinds(s, i, other);
    }
  }

  lemma RemovedFinds(s: seq<Record>, i: nat, key: Str)
    requires i < |s| && s[i].key != key
    ensures IndexOf(RemoveAt(s, i), key) == IndexOf(s, key) - if i < IndexOf(s, key) then 1 else 0
  {
    hide RemoveAt, IndexOf;
    var t, k := RemoveAt(s, i), IndexOf(s, key);
    var m := IndexOf(t, key);
    assert forall j :: 0 <= j < |t| ==> t[j] == s[if j < i then j else j + 1];
    if k < |s| { assert t[if k < i then k else k - 1].key == key; }
  }

  predicate DistinctKeys(s: seq<Record>) {
    forall i, j :: 0 <= i < j < |s| ==> s[i].key != s[j].key
  }

  /** An operation with keys that fit keeps the stored keys distinct. */
  lemma StepDistinct(c: State, e: Event)
    requires WellFormed(c) && DistinctKeys(c.entries)
    requires e.op.OpPut? ==> |e.op.key| < KEY_BUFFER
    ensures DistinctKeys(Step(c, e).entries)
  {
    match e.op
    case OpGet(key) =>
      RemoveDistinct(c.entries, key);
    case OpPut(key, value, ttl) =>
      PutDistinct(c, key, value, ttl, e.now);
    case OpDelete(key) =>
      RemoveDistinct(c.entries, key);
    case OpEvictExpired =>
      LiveDistinct(c.entries, e.now);
    case _ =>
  }

  lemma PutDistinct(c: State, key: Str, value: Str, ttlSec: int, now: int)
    requires DistinctKeys(c.entries) && |key| < KEY_BUFFER
    ensures DistinctKeys(Put(c, key, value, ttlSec, now).entries)
  {
    RemoveDistinct(c.entries, key);
    hide RemoveAt, EffectiveTtl, IndexOf;
    var n := |c.entries|;
    assert forall j :: 0 <= j < n - 1 ==> c.entries[..n - 1][j] == c.entries[j];
  }

  lemma RemoveDistinct(s: seq<Record>, key: Str)
    requires DistinctKeys(s)
    ensures var i := IndexOf(s, key); i < |s| ==>
              DistinctKeys(RemoveAt(s, i)) && !HasKey(RemoveAt(s, i), key)
  {
    var i := IndexOf(s, key);
    if i < |s| {
      var t := RemoveAt(s, i);
      assert forall j :: 0 <= j < |t| ==> t[j] == s[if j < i then j else j + 1];
    }
  }

  lemma {:induction false} LiveDistinct(s: seq<Record>, now: int)
    requires DistinctKeys(s)
    ensures DistinctKeys(Live(s, now))
  {
    if s != [] {
      LiveDistinct(s[1..], now);
      if HasKey(s[1..], s[0].key) { assert false; }
      LiveKeepsAbsent(s[1..], now, s[0].key);
    }
  }

  // ----------------------------------------------------------------- inclusion

  predicate HasKey(s: seq<Record>, key: Str) {
    exists i :: 0 <= i < |s| && s[i].key == key
  }

  /**
   The records of `s` appear in `l`, with the same contents and in the same
   order; and a record of `l` that `s` lacks has no record of its key left
   further down in `s` either, so the first record of a key that `s` has at
   all is the first one in `l` too.
   */
  predicate Included(s: seq<Record>, l: seq<Record>)
    decreases l
  {
    if s == [] then true
    else if l == [] then false
    else if l[0] == s[0] then Included(s[1..], l[1..])
    else !HasKey(s, l[0].key) && Included(s, l[1..])
  }

  /** What every common trace keeps between a small and a large cache. */
  predicate Related(s: State, l: State) {
    && 0 < s.capacity <= l.capacity
    && |s.entries| <= s.capacity && |l.entries| <= l.capacity
    && s.defaultTtl == l.defaultTtl
    && Included(s.entries, l.entries)
    && |l.entries| - |s.entries| <= l.capacity - s.capacity
    && s.hits <= l.hits
    && s.hits + s.misses == l.hits + l.misses
  }

  lemma {:induction false} IncludedLength(s: seq<Record>, l: seq<Record>)
    requires Included(s, l)
    ensures |s| <= |l|
    decreases l
  {
    if s != [] {
      if l[0] == s[0] { IncludedLength(s[1..], l[1..]); } else { IncludedLength(s, l[1..]); }
    }
  }

  lemma IncludedEmpty(l: seq<Record>)
    ensures Included([], l)
  {
  }

  /** A key of the small list is found in the large one, with the same record. */
  lemma {:induction false} IncludedFind(s: seq<Record>, l: seq<Record>, key: Str)
    requires Included(s, l)
    requires IndexOf(s, key) < |s|
    ensures IndexOf(l, key) < |l|
    ensures l[IndexOf(l, key)] == s[IndexOf(s, key)]
    ensures Included(RemoveAt(s, IndexOf(s, key)), RemoveAt(l, IndexOf(l, key)))
    decreases l
  {
    var p := IndexOf(s, key);
    if l[0] == s[0] {
      if s[0].key == key {
        assert RemoveAt(s, 0) == s[1..] && RemoveAt(l, 0) == l[1..];
      } else {
        IncludedFind(s[1..], l[1..], key);
        RemoveTail(s, key);
        RemoveTail(l, key);
      }
    } else {
      assert l[0].key != key;
      IncludedFind(s, l[1..], key);
      RemoveTail(l, key);
      RemoveKeepsAbsent(s, p, l[0].key);
      if RemoveAt(s, p) == [] { IncludedEmpty(RemoveAt(l, IndexOf(l, key))); }
      else { RemoveKeepsAbsent(s, p, l[0].key); }
    }
  }

  lemma RemoveTail(s: seq<Record>, key: Str)
    requires s != [] && s[0].key != key && IndexOf(s, key) < |s|
    ensures IndexOf(s, key) == 1 + IndexOf(s[1..], key)
    ensures RemoveAt(s, IndexOf(s, key)) == [s[0]] + RemoveAt(s[1..], IndexOf(s[1..], key))
  {
  }

  lemma RemoveKeepsAbsent(s: seq<Record>, i: nat, key: Str)
    requires i < |s| && !HasKey(s, key)
    ensures !HasKey(RemoveAt(s, i), key)
  {
    var t := RemoveAt(s, i);
    forall j | 0 <= j < |t| ensures t[j].key != key {
      assert t[j] == s[if j < i then j else j + 1];
    }
  }

  /** Removing a record whose key the small list lacks keeps the inclusion. */
  lemma {:induction false} IncludedSkip(s: seq<Record>, l: seq<Record>, key: Str)
    requires Included(s, l)
    requires IndexOf(s, key) == |s| && IndexOf(l, key) < |l|
    ensures Included(s, RemoveAt(l, IndexOf(l, key)))
    decreases l
  {
    if s == [] {
    } else if l[0].key == key {
      assert RemoveAt(l, 0) == l[1..];
    } else {
      RemoveTail(l, key);
      if l[0] == s[0] { IncludedSkip(s[1..], l[1..], key); } else { IncludedSkip(s, l[1..], key); }
    }
  }

  lemma IncludedPush(s: seq<Record>, l: seq<Record>, r: Record)
    requires Included(s, l)
    ensures Included([r] + s, [r] + l)
  {
    assert ([r] + s)[1..] == s && ([r] + l)[1..] == l;
  }

  lemma IncludedPushLarge(s: seq<Record>, l: seq<Record>, r: Record)
    requires Included(s, l) && !HasKey(s, r.key)
    ensures Included(s, [r] + l)
  {
    assert ([r] + l)[1..] == l;
    if s != [] { assert s[0].key != r.key; }
  }

  lemma {:induction false} IncludedDropSmall(s: seq<Record>, l: seq<Record>)
    requires Included(s, l) && s != []
    ensures Included(s[..|s| - 1], l)
    decreases l
  {
    var t := s[..|s| - 1];
    if t != [] {
      assert t[1..] == s[1..][..|s[1..]| - 1];
      if l[0] == s[0] {
        IncludedDropSmall(s[1..], l[1..]);
      } else {
        IncludedDropSmall(s, l[1..]);
        forall j | 0 <= j < |t| ensures t[j].key != l[0].key { assert t[j] == s[j]; }
      }
    }
  }

  lemma {:induction false} IncludedDropBoth(s: seq<Record>, l: seq<Record>)
    requires Included(s, l) && s != []
    ensures l != [] && Included(s[..|s| - 1], l[..|l| - 1])
    decreases l
  {
    var t, m := s[..|s| - 1], l[..|l| - 1];
    if t == [] {
    } else if l[0] == s[0] {
      IncludedLength(s, l);
      IncludedDropBoth(s[1..], l[1..]);
      assert t[1..] == s[1..][..|s[1..]| - 1] && m[1..] == l[1..][..|l[1..]| - 1];
    } else {
      IncludedLength(s, l[1..]);
      IncludedDropBoth(s, l[1..]);
      assert m[1..] == l[1..][..|l[1..]| - 1];
      forall j | 0 <= j < |t| ensures t[j].key != l[0].key { assert t[j] == s[j]; }
    }
  }

  lemma {:induction false} LiveKeepsAbsent(s: seq<Record>, now: int, key: Str)
    requires !HasKey(s, key)
    ensures !HasKey(Live(s, now), key)
  {
    if s != [] {
      forall j | 0 <= j < |s[1..]| ensures s[1..][j].key != key { assert s[1..][j] == s[j + 1]; }
      LiveKeepsAbsent(s[1..], now, key);
      assert s[0].key != key;
    }
  }

  /** Cleaning up both lists keeps the inclusion and does not widen the gap. */
  lemma {:induction false} IncludedLive(s: seq<Record>, l: seq<Record>, now: int)
    requires Included(s, l)
    ensures Included(Live(s, now), Live(l, now))
    ensures |Live(l, now)| - |Live(s, now)| <= |l| - |s|
    decreases l
  {
    if s == [] {
      LiveLength(l, now);
    } else if l[0] == s[0] {
      IncludedLive(s[1..], l[1..], now);
      if !Expired(s[0], now) { IncludedPush(Live(s[1..], now), Live(l[1..], now), s[0]); }
    } else {
      IncludedLive(s, l[1..], now);
      LiveKeepsAbsent(s, now, l[0].key);
      if !Expired(l[0], now) { IncludedPushLarge(Live(s, now), Live(l[1..], now), l[0]); }
    }
  }

  lemma AbsentIsNoIndex(s: seq<Record>, key: Str)
    ensures HasKey(s, key) <==> IndexOf(s, key) < |s|
  {
  }

  lemma InclusionGet(s: State, l: State, key: Str, now: int)
    requires Related(s, l)
    ensures Related(Get(s, key, now).0, Get(l, key, now).0)
    ensures Get(s, key, now).1.Some? ==> Get(l, key, now).1 == Get(s, key, now).1
  {
    var p, q := IndexOf(s.entries, key), IndexOf(l.entries, key);
    AbsentIsNoIndex(s.entries, key);
    if p < |s.entries| {
      IncludedFind(s.entries, l.entries, key);
      IncludedPush(RemoveAt(s.entries, p), RemoveAt(l.entries, q), s.entries[p]);
    } else if q < |l.entries| {
      IncludedSkip(s.entries, l.entries, key);
      IncludedPushLarge(s.entries, RemoveAt(l.entries, q), l.entries[q]);
    }
  }

  lemma InclusionPut(s: State, l: State, key: Str, value: Str, ttlSec: int, now: int)
    requires Related(s, l) && WellFormed(l)
    ensures Related(Put(s, key, value, ttlSec, now), Put(l, key, value, ttlSec, now))
  {
    var p, q := IndexOf(s.entries, key), IndexOf(l.entries, key);
    var s', l' := Put(s, key, value, ttlSec, now), Put(l, key, value, ttlSec, now);
    AbsentIsNoIndex(s.entries, key);
    if p < |s.entries| {
      IncludedFind(s.entries, l.entries, key);
      IncludedPush(RemoveAt(s.entries, p), RemoveAt(l.entries, q), s'.entries[0]);
    } else {
      var kept := if |s.entries| >= s.capacity then s.entries[..|s.entries| - 1] else s.entries;
      var below: seq<Record>;
      if q < |l.entries| {
        below := RemoveAt(l.entries, q);
        IncludedSkip(s.entries, l.entries, key);
        assert Fits(l.entries[q]);
        if kept != s.entries { IncludedDropSmall(s.entries, below); }
      } else {
        below := if |l.entries| >= l.capacity then l.entries[..|l.entries| - 1] else l.entries;
        if kept != s.entries {
          if below == l.entries { IncludedDropSmall(s.entries, below); }
          else { IncludedDropBoth(s.entries, l.entries); }
        }
      }
      assert Included(kept, below);
      assert l'.entries == [l'.entries[0]] + below && s'.entries == [s'.entries[0]] + kept;
      IncludedPush(kept, below, s'.entries[0]);
    }
  }

  lemma InclusionStep(s: State, l: State, e: Event)
    requires Related(s, l) && WellFormed(l)
    ensures Related(Step(s, e), Step(l, e))
  {
    LiveLength(s.entries, e.now);
    LiveLength(l.entries, e.now);
    match e.op
    case OpGet(key) => InclusionGet(s, l, key, e.now);
    case OpPut(key, value, ttl) => InclusionPut(s, l, key, value, ttl, e.now);
    case OpDelete(key) => InclusionDelete(s, l, key);
    case OpEvictLru =>
      if s.entries == [] {
        IncludedEmpty(EvictLru(l).0.entries);
      } else {
        IncludedDropBoth(s.entries, l.entries);
      }
    case OpEvictExpired => IncludedLive(s.entries, l.entries, e.now);
    case OpClear =>
  }

  lemma InclusionDelete(s: State, l: State, key: Str)
    requires Related(s, l)
    ensures Related(Delete(s, key).0, Delete(l, key).0)
  {
    AbsentIsNoIndex(s.entries, key);
    if IndexOf(s.entries, key) < |s.entries| {
      IncludedFind(s.entries, l.entries, key);
    } else if IndexOf(l.entries, key) < |l.entries| {
      IncludedSkip(s.entries, l.entries, key);
    }
  }

  lemma {:induction false} InclusionRun(s: State, l: State, trace: seq<Event>)
    requires Related(s, l) && WellFormed(l)
    ensures Related(Run(s, trace), Run(l, trace))
    decreases |trace|
  {
    if trace != [] {
      StepWellFormed(l, trace[0]);
      InclusionStep(s, l, trace[0]);
      InclusionRun(Step(s, trace[0]), Step(l, trace[0]), trace[1..]);
    }
  }

  /**
   LRU inclusion: after any trace run from empty on two caches, the larger
   one answers every lookup the smaller one answers, with the same value,
   holds all of its records, and has had at least as many hits.
   */
  lemma LruInclusion(small: int, large: int, ttl: int, trace: seq<Event>, key: Str, now: int)
    requires 0 < small <= large
    ensures var s, l := Run(Init(small, ttl), trace), Run(Init(large, ttl), trace);
            && Included(s.entries, l.entries)
            && s.hits <= l.hits
            && s.hits + s.misses == l.hits + l.misses
            && (Get(s, key, now).1.Some? ==> Get(l, key, now).1 == Get(s, key, now).1)
  {
    InclusionRun(Init(small, ttl), Init(large, ttl), trace);
    InclusionGet(Run(Init(small, ttl), trace), Run(Init(large, ttl), trace), key, now);
  }
}
