/**
 The dependency-injection container: depth-first cycle detection with three
 colours, Kahn's bulk resolution, and recursive construction of services.
 */
module DiContainer {
  import opened DependencyGraph
  import opened Sequences
  import opened KahnOrder

  const MAX_SERVICES: nat := 64
  const MAX_DEPENDENCIES: nat := 16
  const NAME_LEN: nat := 64
  const WHITE: int := 0
  const GRAY: int := 1
  const BLACK: int := 2

  /** Gray nodes are the search path, black ones are finished, the rest white. */
  ghost predicate Coloured(colors: seq<int>, n: nat, path: seq<nat>, done: seq<nat>) {
    && n <= |colors|
    && (forall i :: 0 <= i < n ==>
          colors[i] == if i in path then GRAY else if i in done then BLACK else WHITE)
    && (forall i :: i in path ==> i < n && i !in done)
    && (forall i :: i in done ==> i < n)
  }

  ghost function ColourOf(colors: seq<int>, i: nat): int {
    if i < |colors| then colors[i] else WHITE
  }

  lemma NodeColour(colors: seq<int>, n: nat, path: seq<nat>, done: seq<nat>, i: nat)
    requires Coloured(colors, n, path, done) && i < n
    ensures i < |colors| && colors[i] == if i in path then GRAY else if i in done then BLACK else WHITE
  {
  }

  lemma EnterNode(colors: seq<int>, n: nat, path: seq<nat>, done: seq<nat>, idx: nat)
    requires Coloured(colors, n, path, done) && idx < n && ColourOf(colors, idx) == WHITE
    ensures idx < |colors| && idx !in path && idx !in done
    ensures Coloured(colors[idx := GRAY], n, path + [idx], done)
  {
  }

  lemma LeaveNode(colors: seq<int>, n: nat, path: seq<nat>, done: seq<nat>, idx: nat)
    requires Coloured(colors, n, path + [idx], done) && idx < n && idx !in path
    ensures idx < |colors| && Coloured(colors[idx := BLACK], n, path, done + [idx])
  {
    assert idx in path + [idx];
    assert forall i :: i in path ==> i in path + [idx];
  }

  /** One factory call: its number, whom it built, what it was handed, what came back. */
  datatype Call = Call(number: nat, service: nat, args: seq<nat>, result: nat)

  datatype Outcome = NotCalled | Called(call: Call)

  /** A dependency slot got null only if its name is empty. */
  ghost predicate ArgsOk(s: seq<Service>, c: Call) {
    && c.service < |s| && |c.args| == |s[c.service].deps|
    && forall j :: 0 <= j < |c.args| && c.args[j] == 0 ==> s[c.service].deps[j] == ""
  }

  /** A singleton dependency was handed over as the one cached instance. */
  ghost predicate Shared(s: seq<Service>, inst: seq<nat>, init: seq<bool>, service: nat, args: seq<nat>)
    requires service < |s| && |args| <= |s[service].deps| && |s| <= |inst| == |init|
  {
    forall j :: 0 <= j < |args| && args[j] != 0 ==>
      var b := Find(s, s[service].deps[j]);
      b >= 0 && (s[b].scope == Singleton ==> init[b] && args[j] == inst[b])
  }

  /** One of these factory calls, for service `i`, returned `r`. */
  ghost predicate Made(calls: seq<Call>, i: nat, r: nat) {
    exists k :: 0 <= k < |calls| && calls[k].service == i && calls[k].result == r
  }

  /** Everything handed over was returned by a call of the factory of the dependency named. */
  ghost predicate ArgsMade(s: seq<Service>, calls: seq<Call>, service: nat, args: seq<nat>)
    requires service < |s| && |args| <= |s[service].deps|
  {
    forall j :: 0 <= j < |args| && args[j] != 0 ==>
      var b := Find(s, s[service].deps[j]);
      b >= 0 && Made(calls, b, args[j])
  }

  /** That holds of every call with those before it. */
  ghost predicate AllMade(s: seq<Service>, calls: seq<Call>) {
    forall k :: 0 <= k < |calls| ==>
      && calls[k].service < |s| && |calls[k].args| <= |s[calls[k].service].deps|
      && ArgsMade(s, calls[..k], calls[k].service, calls[k].args)
  }

  /** What the request keeps was made by the service's own factory. */
  ghost predicate RequestsMade(requests: seq<nat>, calls: seq<Call>) {
    forall i :: 0 <= i < |requests| && requests[i] != 0 ==> Made(calls, i, requests[i])
  }

  lemma MadeStays(calls: seq<Call>, more: seq<Call>, i: nat, r: nat)
    requires calls <= more && Made(calls, i, r)
    ensures Made(more, i, r)
  {
    var k :| 0 <= k < |calls| && calls[k].service == i && calls[k].result == r;
    assert more[k] == calls[k];
  }

  lemma ArgsMadeStay(s: seq<Service>, calls: seq<Call>, more: seq<Call>, service: nat, args: seq<nat>)
    requires service < |s| && |args| <= |s[service].deps| && calls <= more && ArgsMade(s, calls, service, args)
    ensures ArgsMade(s, more, service, args)
  {
    hide Made;
    forall j | 0 <= j < |args| && args[j] != 0
      ensures var b := Find(s, s[service].deps[j]); b >= 0 && Made(more, b, args[j])
    {
      MadeStays(calls, more, Find(s, s[service].deps[j]), args[j]);
    }
  }

  lemma AllMadeStays(s: seq<Service>, x: Service, calls: seq<Call>)
    requires AllMade(s, calls)
    ensures AllMade(s + [x], calls)
  {
    hide Made, Find;
    forall k | 0 <= k < |calls| ensures ArgsMade(s + [x], calls[..k], calls[k].service, calls[k].args) {
      assert ArgsMade(s, calls[..k], calls[k].service, calls[k].args);
      forall j | 0 <= j < |calls[k].args| { FindStable(s, x, s[calls[k].service].deps[j]); }
    }
  }

  lemma AllMadeNext(s: seq<Service>, calls: seq<Call>, c: Call)
    requires AllMade(s, calls) && c.service < |s| && |c.args| <= |s[c.service].deps|
    requires ArgsMade(s, calls, c.service, c.args)
    ensures AllMade(s, calls + [c])
  {
    hide ArgsMade;
    var calls' := calls + [c];
    forall k | 0 <= k < |calls'|
      ensures calls'[k].service < |s| && |calls'[k].args| <= |s[calls'[k].service].deps|
              && ArgsMade(s, calls'[..k], calls'[k].service, calls'[k].args)
    {
      assert calls'[..k] == calls[..k];
      assert k == |calls| ==> calls[..k] == calls;
    }
  }

  /** A request that keeps what a call for service `i` returned, if it did. */
  lemma RequestsMadeStay(requests: seq<nat>, calls: seq<Call>, more: seq<Call>, requests': seq<nat>)
    requires RequestsMade(requests, calls) && calls <= more && |requests'| == |requests|
    requires forall i :: 0 <= i < |requests| ==> requests'[i] in {0, requests[i]} || Made(more, i, requests'[i])
    ensures RequestsMade(requests', more)
  {
    hide Made;
    forall i | 0 <= i < |requests'| && requests'[i] != 0 ensures Made(more, i, requests'[i]) {
      if requests'[i] == requests[i] { MadeStays(calls, more, i, requests[i]); }
    }
  }

  lemma SharedStays(s: seq<Service>, inst: seq<nat>, init: seq<bool>, inst': seq<nat>, init': seq<bool>,
                    service: nat, args: seq<nat>)
    requires service < |s| && |args| <= |s[service].deps| && |s| <= |inst| == |init| == |inst'| == |init'|
    requires Shared(s, inst, init, service, args)
    requires forall k :: 0 <= k < |init| && init[k] ==> init'[k] && inst'[k] == inst[k]
    ensures Shared(s, inst', init', service, args)
  {
  }

  /** What the cache fields say about singleton `i` agrees with the factory calls. */
  ghost predicate CacheOk(inst: seq<nat>, init: seq<bool>, calls: seq<Call>, i: nat)
    requires i < |inst| == |init|
  {
    && (init[i] <==> inst[i] != 0)
    && (!init[i] ==> forall c <- calls :: c.service == i ==> c.result == 0)
    && (init[i] ==> exists k :: 0 <= k < |calls| && BuiltOnceBy(inst, calls, i, k))
  }

  /** Call `k` made the instance of `i`: it is the last call for `i` and the only success. */
  ghost predicate BuiltOnceBy(inst: seq<nat>, calls: seq<Call>, i: nat, k: nat)
    requires i < |inst| && k < |calls|
  {
    && calls[k].service == i && calls[k].result == inst[i]
    && (forall m :: 0 <= m < k && calls[m].service == i ==> calls[m].result == 0)
    && (forall m :: k < m < |calls| ==> calls[m].service != i)
  }

  ghost predicate History(s: seq<Service>, inst: seq<nat>, init: seq<bool>, calls: seq<Call>) {
    && |s| <= |inst| == |init|
    && (forall c <- calls :: ArgsOk(s, c))
    && (forall c <- calls ::
          c.service < |s| && |c.args| <= |s[c.service].deps| && Shared(s, inst, init, c.service, c.args))
    && (forall i :: 0 <= i < |s| && s[i].scope == Singleton ==> CacheOk(inst, init, calls, i))
    && (forall i :: 0 <= i < |s| && s[i].scope != Singleton ==> !init[i])
  }

  /** Appending a call that leaves the caches as they are. */
  lemma HistoryCall(s: seq<Service>, inst: seq<nat>, init: seq<bool>, calls: seq<Call>, c: Call)
    requires History(s, inst, init, calls) && ArgsOk(s, c) && Shared(s, inst, init, c.service, c.args)
    requires s[c.service].scope == Singleton ==> c.result == 0 && !init[c.service]
    ensures History(s, inst, init, calls + [c])
  {
    var calls' := calls + [c];
    forall i | 0 <= i < |s| && s[i].scope == Singleton ensures CacheOk(inst, init, calls', i) {
      assert CacheOk(inst, init, calls, i);
      if init[i] {
        var k :| 0 <= k < |calls| && BuiltOnceBy(inst, calls, i, k);
        assert BuiltOnceBy(inst, calls', i, k);
      }
    }
  }

  /** Appending the successful call of a singleton and caching its result. */
  lemma HistoryBuilt(s: seq<Service>, inst: seq<nat>, init: seq<bool>, calls: seq<Call>, c: Call)
    requires History(s, inst, init, calls) && ArgsOk(s, c) && Shared(s, inst, init, c.service, c.args)
    requires s[c.service].scope == Singleton && c.result != 0 && !init[c.service]
    ensures History(s, inst[c.service := c.result], init[c.service := true], calls + [c])
  {
    var i, inst', init', calls' := c.service, inst[c.service := c.result], init[c.service := true], calls + [c];
    assert CacheOk(inst, init, calls, i);
    assert BuiltOnceBy(inst', calls', i, |calls|);
    forall k | 0 <= k < |s| && s[k].scope == Singleton && k != i ensures CacheOk(inst', init', calls', k) {
      assert CacheOk(inst, init, calls, k);
      if init[k] {
        var m :| 0 <= m < |calls| && BuiltOnceBy(inst, calls, k, m);
        assert BuiltOnceBy(inst', calls', k, m);
      }
    }
  }

  /** Registration copies names into 64-byte buffers. */
  function Stored(name: string): (r: string)
    ensures r <= name && |r| == if |name| < 64 then |name| else 63
  {
    if |name| < NAME_LEN then name else name[..NAME_LEN - 1]
  }

  function AllStored(deps: seq<string>): (r: seq<string>)
    ensures |r| == |deps| && forall j :: 0 <= j < |deps| ==> r[j] == Stored(deps[j])
  {
    if deps == [] then [] else [Stored(deps[0])] + AllStored(deps[1..])
  }

  lemma HistoryIgnoresOthers(s: seq<Service>, inst: seq<nat>, init: seq<bool>, inst': seq<nat>, init': seq<bool>,
                             calls: seq<Call>)
    requires History(s, inst, init, calls) && |inst'| == |init'| == |inst|
    requires forall k :: 0 <= k < |s| && s[k].scope == Singleton ==> inst'[k] == inst[k] && init'[k] == init[k]
    requires forall k :: 0 <= k < |s| && s[k].scope != Singleton ==> !init'[k]
    ensures History(s, inst', init', calls)
  {
    forall i | 0 <= i < |s| && s[i].scope == Singleton ensures CacheOk(inst', init', calls, i) {
      assert CacheOk(inst, init, calls, i);
      if init[i] {
        var k :| 0 <= k < |calls| && BuiltOnceBy(inst, calls, i, k);
        assert BuiltOnceBy(inst', calls, i, k);
      }
    }
  }

  lemma FindStable(s: seq<Service>, x: Service, name: string)
    ensures Find(s, name) >= 0 ==> Find(s + [x], name) == Find(s, name)
  {
    assert (s + [x])[..|s|] == s;
  }

  /** Registering one more service does not disturb what was built. */
  lemma HistoryRegister(s: seq<Service>, x: Service, inst: seq<nat>, init: seq<bool>, calls: seq<Call>)
    requires History(s, inst, init, calls) && |s| < |inst|
    ensures History(s + [x], inst[|s| := 0], init[|s| := false], calls)
  {
    var s', inst', init' := s + [x], inst[|s| := 0], init[|s| := false];
    forall c <- calls ensures ArgsOk(s', c) && Shared(s', inst', init', c.service, c.args) {
      assert ArgsOk(s, c);
      forall j | 0 <= j < |c.args| && c.args[j] != 0
        ensures var b := Find(s', s'[c.service].deps[j]);
                b >= 0 && (s'[b].scope == Singleton ==> init'[b] && c.args[j] == inst'[b])
      {
        FindStable(s, x, s[c.service].deps[j]);
      }
    }
    forall i | 0 <= i < |s'| && s'[i].scope == Singleton ensures CacheOk(inst', init', calls, i) {
      if i < |s| {
        assert CacheOk(inst, init, calls, i);
        if init[i] {
          var k :| 0 <= k < |calls| && BuiltOnceBy(inst, calls, i, k);
          assert BuiltOnceBy(inst', calls, i, k);
        }
      }
    }
  }

  /** Every service a walk from `i` reaches has its dependencies registered. */
  ghost predicate Buildable(s: seq<Service>, i: nat) {
    forall p :: Walk(s, p) && p[0] == i ==> DepsRegistered(s, p[|p| - 1])
  }

  ghost predicate DepsRegistered(s: seq<Service>, i: nat) {
    i < |s| && forall j :: 0 <= j < |s[i].deps| && s[i].deps[j] != "" ==> Find(s, s[i].deps[j]) >= 0
  }

  lemma WalkBefore(s: seq<Service>, a: nat, p: seq<nat>)
    requires Walk(s, p) && Edge(s, a, p[0])
    ensures Walk(s, [a] + p)
  {
    assert a < |s|;
    hide Edge;
    var q := [a] + p;
    forall k | 0 < k < |q| ensures Step(s, q, k) {
      if k > 1 { assert Step(s, p, k - 1); }
    }
  }

  lemma BuildableStep(s: seq<Service>, a: nat, b: nat)
    requires Buildable(s, a) && Edge(s, a, b) && b < |s|
    ensures Buildable(s, b)
  {
    hide DepsRegistered;
    forall p | Walk(s, p) && p[0] == b ensures DepsRegistered(s, p[|p| - 1]) {
      var q := [a] + p;
      WalkBefore(s, a, p);
      assert q[0] == a && q[|q| - 1] == p[|p| - 1];
    }
  }

  class DIContainer {
    var services: seq<Service>
    const instance: array<nat>
    const initialized: array<bool>
    const requestInstances: array<nat>
    var inRequest: bool
    var resolveDepth: int
    /** What the n-th factory call of the container's life returns; 0 is null. */
    const make: (nat, nat) -> nat
    var callCount: nat
    ghost var calls: seq<Call>

    ghost predicate Sized()
      reads this`services
    {
      && instance.Length == initialized.Length == requestInstances.Length == MAX_SERVICES
      && instance != requestInstances
      && |services| <= MAX_SERVICES
    }

    /** Every logged call really is an outcome of the factories. */
    ghost predicate Numbered()
      reads this`calls, this`callCount
    {
      forall c <- calls :: c.number < callCount && c.result == make(c.service, c.number)
    }

    ghost predicate Valid()
      reads this`services, this`calls, this`callCount, instance, initialized, requestInstances
    {
      && Sized() && Numbered() && History(services, instance[..], initialized[..], calls)
      && AllMade(services, calls) && RequestsMade(requestInstances[..], calls)
    }

    constructor (make: (nat, nat) -> nat)
      ensures Valid() && services == [] && calls == [] && !inRequest && this.make == make
      ensures fresh(instance) && fresh(initialized) && fresh(requestInstances)
    {
      services, inRequest, resolveDepth, callCount, calls := [], false, 0, 0, [];
      instance := new nat[MAX_SERVICES](_ => 0);
      initialized := new bool[MAX_SERVICES](_ => false);
      requestInstances := new nat[MAX_SERVICES](_ => 0);
      this.make := make;
    }

    method Register(name: string, scope: Scope, deps: seq<string>) returns (rc: int)
      requires Valid()
      modifies this`services, instance, initialized
      ensures Valid()
      ensures rc == if |old(services)| >= MAX_SERVICES then -1 else if |deps| > MAX_DEPENDENCIES then -2 else 0
      ensures rc != 0 ==>
                && services == old(services) && instance[..] == old(instance[..])
                && initialized[..] == old(initialized[..])
      ensures rc == 0 ==>
                && services == old(services) + [Service(Stored(name), scope, AllStored(deps))]
                && instance[..] == old(instance[..])[|old(services)| := 0]
                && initialized[..] == old(initialized[..])[|old(services)| := false]
    {
      hide History, AllMade, RequestsMade;
      if |services| >= MAX_SERVICES { return -1; }
      if |deps| > MAX_DEPENDENCIES { return -2; }
      var entry := Service(Stored(name), scope, AllStored(deps));
      AllMadeStays(services, entry, calls);
      ghost var requests := requestInstances[..];
      HistoryRegister(services, entry, instance[..], initialized[..], calls);
      instance[|services|], initialized[|services|] := 0, false;
      services := services + [entry];
      assert requestInstances[..] == requests;
      rc := 0;
    }

    method BeginRequest()
      requires Valid()
      modifies this`inRequest, requestInstances
      ensures Valid() && inRequest
      ensures forall k :: 0 <= k < MAX_SERVICES ==> requestInstances[k] == 0
    {
      hide History, AllMade;
      inRequest := true;
      forall k | 0 <= k < requestInstances.Length { requestInstances[k] := 0; }
      assert instance[..] == old(instance[..]) && initialized[..] == old(initialized[..]);
    }

    /** Drops what the request built; singletons stay. */
    method EndRequest()
      requires Valid()
      modifies this`inRequest, instance, initialized, requestInstances
      ensures Valid() && !inRequest
      ensures forall k :: 0 <= k < |services| ==> requestInstances[k] == 0
      ensures forall k :: 0 <= k < |services| && services[k].scope != Request ==>
                instance[k] == old(instance[k]) && initialized[k] == old(initialized[k])
    {
      hide History, AllMade, RequestsMade;
      ghost var inst, init, requests := instance[..], initialized[..], requestInstances[..];
      forall k | 0 <= k < |services| && services[k].scope != Singleton ensures !init[k] { CacheOf(k); }
      for i := 0 to |services|
        invariant forall k :: 0 <= k < MAX_SERVICES ==> requestInstances[k] == if k < i then 0 else requests[k]
        invariant forall k :: 0 <= k < MAX_SERVICES && !(k < i && services[k].scope == Request) ==>
                    instance[k] == inst[k] && initialized[k] == init[k]
        invariant forall k :: 0 <= k < i && services[k].scope == Request ==> !initialized[k]
      {
        if services[i].scope == Request {
          initialized[i] := false;
          instance[i] := 0;
        }
        requestInstances[i] := 0;
      }
      HistoryIgnoresOthers(services, inst, init, instance[..], initialized[..], calls);
      RequestsMadeStay(requests, calls, calls, requestInstances[..]);
      inRequest := false;
    }

    /** Linear search by name. */
    method FindEntry(name: string) returns (i: int)
      ensures i == Find(services, name)
    {
      i := 0;
      while i < |services|
        invariant 0 <= i <= |services|
        invariant forall k :: 0 <= k < i ==> services[k].name != name
      {
        if services[i].name == name {
          FindIs(services, name, i);
          return;
        }
        i := i + 1;
      }
      i := -1;
    }

    method CycleDfs(colors: array<int>, idx: nat, ghost path: seq<nat>, ghost done: seq<nat>)
      returns (found: bool, ghost done': seq<nat>)
      requires idx < |services| && Coloured(colors[..], |services|, path, done)
      requires Walk(services, path + [idx]) && ColourOf(colors[..], idx) == WHITE
      requires Topological(services, done)
      modifies colors
      ensures found ==> CycleFrom(services, (path + [idx])[0])
      ensures !found ==> Coloured(colors[..], |services|, path, done') && Topological(services, done')
      ensures !found ==> done <= done' && idx in done'
      decreases set i | 0 <= i < |services| && i !in path && i !in done
    {
      hide Coloured, Walk, Topological, CycleFrom;
      ghost var here := path + [idx];
      EnterNode(colors[..], |services|, path, done, idx);
      colors[idx] := GRAY;
      done' := done;
      for i := 0 to |services[idx].deps|
        invariant Coloured(colors[..], |services|, here, done') && Topological(services, done') && done <= done'
        invariant forall k :: 0 <= k < i ==>
                  Find(services, services[idx].deps[k]) < 0 || Find(services, services[idx].deps[k]) in done'
      {
        var dep := FindEntry(services[idx].deps[i]);
        if dep >= 0 {
          EdgeByDep(services, idx, i);
          WalkAppend(services, here, dep);
          NodeColour(colors[..], |services|, here, done', dep);
          if colors[dep] == GRAY {
            GrayClosesCycle(here, dep);
            return true, done';
          }
          if colors[dep] == WHITE {
            Shrinks(path, done, here, done', idx);
            found, done' := CycleDfs(colors, dep, here, done');
            assert (here + [dep])[0] == here[0];
            if found { return; }
          }
        }
      }
      NodeColour(colors[..], |services|, here, done', idx);
      LeaveNode(colors[..], |services|, path, done', idx);
      colors[idx] := BLACK;
      FinishedLast(done', idx);
      done' := done' + [idx];
      found := false;
    }

    lemma GrayClosesCycle(here: seq<nat>, dep: nat)
      requires Walk(services, here + [dep]) && dep in here
      ensures CycleFrom(services, here[0])
    {
      var j := FirstPos(here, dep);
      RepeatCloses(services, here + [dep], j, |here|);
    }

    lemma FinishedLast(done: seq<nat>, idx: nat)
      requires idx < |services| && Topological(services, done)
      requires forall k :: 0 <= k < |services[idx].deps| && Find(services, services[idx].deps[k]) >= 0 ==>
                Find(services, services[idx].deps[k]) in done
      ensures Topological(services, done + [idx])
    {
      var d := done + [idx];
      forall k, b | 0 <= k < |d| && Edge(services, d[k], b) ensures b in d[..k] {
        if k < |done| { assert d[..k] == done[..k]; } else { assert d[..k] == done; }
      }
    }

    lemma Shrinks(path: seq<nat>, done: seq<nat>, here: seq<nat>, done': seq<nat>, idx: nat)
      requires here == path + [idx] && done <= done' && idx !in path && idx !in done && idx < |services|
      ensures (set i | 0 <= i < |services| && i !in here && i !in done')
                < (set i | 0 <= i < |services| && i !in path && i !in done)
    {
      var a, b := (set i | 0 <= i < |services| && i !in here && i !in done'),
          (set i | 0 <= i < |services| && i !in path && i !in done);
      assert idx in b && idx !in a;
    }

    /** Reports 1 exactly when a registered cycle can be reached from `name`. */
    method HasCycle(name: string) returns (r: int)
      requires |services| <= MAX_SERVICES
      ensures r == 0 || r == 1
      ensures r == 1 <==> Find(services, name) >= 0 && CycleFrom(services, Find(services, name))
    {
      var idx := FindEntry(name);
      if idx < 0 { return 0; }
      var colors := new int[MAX_SERVICES](_ => WHITE);
      assert [] + [idx] == [idx];
      var found, done := CycleDfs(colors, idx, [], []);
      if !found { TopologicalNoCycle(services, done, idx); }
      r := if found then 1 else 0;
    }

    /** The caches of the services on the search path are left alone. */
    twostate predicate Kept(path: seq<nat>)
      reads instance, initialized, requestInstances
    {
      && instance.Length == initialized.Length == requestInstances.Length == MAX_SERVICES
      && (forall k :: 0 <= k < MAX_SERVICES && (k in path || old(initialized[k])) ==>
            instance[k] == old(instance[k]) && initialized[k] == old(initialized[k]))
      && (forall k :: 0 <= k < MAX_SERVICES && (k in path || old(requestInstances[k]) != 0) ==>
            requestInstances[k] == old(requestInstances[k]))
    }

    /** `path` followed by `i` is a walk from a service that reaches no cycle. */
    ghost predicate OnAcyclicPath(path: seq<nat>, i: int)
      reads this`services
    {
      i >= 0 ==> Walk(services, path + [i]) && !CycleFrom(services, (path + [i])[0])
    }

    ghost predicate AlwaysMakes() {
      forall i, n :: make(i, n) != 0
    }

    /** Whether the call that ended a construction may be entered in the log. */
    ghost predicate Loggable(idx: nat, outcome: Outcome, r: nat)
      reads this`services, this`callCount, this`calls, instance, initialized
    {
      match outcome
      case NotCalled => r == 0
      case Called(c) =>
        && c.service == idx < |services| <= instance.Length == initialized.Length
        && c.result == r == make(idx, c.number) && c.number < callCount
        && ArgsOk(services, c) && Shared(services, instance[..], initialized[..], idx, c.args)
        && ArgsMade(services, calls, idx, c.args)
    }

    /** The instance a name resolves to, or 0 for null. */
    method Resolve(name: string, ghost path: seq<nat>) returns (r: nat)
      requires Valid() && OnAcyclicPath(path, Find(services, name))
      modifies this`callCount, this`calls, this`resolveDepth, instance, initialized, requestInstances
      ensures Valid() && old(calls) <= calls && Kept(path)
      ensures Find(services, name) < 0 ==> r == 0 && calls == old(calls)
      ensures Find(services, name) >= 0 ==> Resolved(Find(services, name), r, old(calls))
      ensures r != 0 ==> Find(services, name) >= 0 && Made(calls, Find(services, name), r)
      ensures (var i := Find(services, name);
               i >= 0 && Cached(i, old(initialized[..]), old(requestInstances[..]))) ==> calls == old(calls)
      ensures Find(services, name) >= 0 && AlwaysMakes() && Buildable(services, Find(services, name)) ==> r != 0
      decreases |services| - |path|, 1
    {
      hide History, Walk, Buildable, AllMade, RequestsMade, Made;
      var i := FindEntry(name);
      if i < 0 { return 0; }
      CacheOf(i);
      CachesMade(i);
      var scope := services[i].scope;
      if scope == Singleton && initialized[i] { return instance[i]; }
      if scope == Request && inRequest && requestInstances[i] != 0 { return requestInstances[i]; }
      NotOnPath(path, i);
      resolveDepth := 0;
      r := Construct(i, path);
    }

    /** Builds service `i`, caches the result as its scope says, and logs the call. */
    method Construct(i: nat, ghost path: seq<nat>) returns (r: nat)
      requires Valid() && i < |services| && OnAcyclicPath(path, i) && resolveDepth == 0
      requires !Cached(i, initialized[..], requestInstances[..])
      modifies this`callCount, this`calls, this`resolveDepth, instance, initialized, requestInstances
      ensures Valid() && old(calls) <= calls && Kept(path)
      ensures Resolved(i, r, old(calls)) && (r != 0 ==> Made(calls, i, r))
      ensures AlwaysMakes() && Buildable(services, i) ==> r != 0
      decreases |services| - |path|, 0
    {
      hide History, Walk, Buildable, CycleFrom, ArgsOk, Shared, ArgsMade, AllMade, RequestsMade, Made;
      NotOnPath(path, i);
      CacheOf(i);
      ghost var outcome;
      r, outcome := Build(i, path + [i]);
      if outcome.Called? {
        LogStep(i, outcome.call, r);
        MadeStep(i, outcome.call, r);
      }
      ghost var inst, init, requests := instance[..], initialized[..], requestInstances[..];
      if services[i].scope == Singleton {
        instance[i], initialized[i] := r, r != 0;
        assert instance[..] == inst[i := r] && initialized[..] == init[i := r != 0];
        assert r == 0 && outcome.Called? ==> instance[..] == inst && initialized[..] == init;
      } else if services[i].scope == Request && inRequest {
        requestInstances[i] := r;
      }
      RequestsMadeStay(requests, calls, calls + (if outcome.Called? then [outcome.call] else []), requestInstances[..]);
      if outcome.Called? { calls := calls + [outcome.call]; }
    }

    lemma NotOnPath(path: seq<nat>, i: nat)
      requires OnAcyclicPath(path, i)
      ensures i in path + [i] && i !in path && |path| < |services|
    {
      var p := path + [i];
      AcyclicWalkNoRepeats(services, p);
      forall k | 0 <= k < |path| ensures path[k] != i { assert p[k] != p[|path|]; }
    }

    lemma MadeStep(i: nat, c: Call, r: nat)
      requires Valid() && Loggable(i, Called(c), r)
      ensures AllMade(services, calls + [c]) && Made(calls + [c], i, r)
    {
      hide ArgsMade, AllMade, Shared;
      AllMadeNext(services, calls, c);
      assert (calls + [c])[|calls|] == c;
    }

    /** What is cached for a service was made by its factory. */
    lemma CachesMade(i: nat)
      requires Valid() && i < |services|
      ensures services[i].scope == Singleton && initialized[i] ==> Made(calls, i, instance[i])
      ensures requestInstances[i] != 0 ==> Made(calls, i, requestInstances[i])
    {
      if services[i].scope == Singleton && initialized[i] {
        assert CacheOk(instance[..], initialized[..], calls, i);
        var k :| 0 <= k < |calls| && BuiltOnceBy(instance[..], calls, i, k);
      }
    }

    /** Logging a call, together with caching a singleton, keeps the history. */
    lemma LogStep(i: nat, c: Call, r: nat)
      requires Valid() && Loggable(i, Called(c), r) && !initialized[i]
      ensures var built := services[i].scope == Singleton && r != 0;
              History(services,
                      if built then instance[..][i := r] else instance[..],
                      if built then initialized[..][i := true] else initialized[..],
                      calls + [c])
      ensures services[i].scope == Singleton ==> instance[i] == 0
    {
      if services[i].scope == Singleton {
        assert CacheOk(instance[..], initialized[..], calls, i);
        if r != 0 { HistoryBuilt(services, instance[..], initialized[..], calls, c); }
        else { HistoryCall(services, instance[..], initialized[..], calls, c); }
      } else {
        HistoryCall(services, instance[..], initialized[..], calls, c);
      }
    }

    /** Resolves the `j`-th dependency of a service being built. */
    method NextArg(idx: nat, j: nat, ghost args: seq<nat>, ghost path: seq<nat>) returns (d: nat)
      requires Valid() && idx < |services| && j < |services[idx].deps| && |args| == j
      requires Walk(services, path) && path[|path| - 1] == idx && !CycleFrom(services, path[0])
      requires Shared(services, instance[..], initialized[..], idx, args) && ArgsMade(services, calls, idx, args)
      modifies this`callCount, this`calls, this`resolveDepth, instance, initialized, requestInstances
      ensures Valid() && old(calls) <= calls && Kept(path)
      ensures Shared(services, instance[..], initialized[..], idx, args + [d])
      ensures ArgsMade(services, calls, idx, args + [d])
      ensures var b := Find(services, services[idx].deps[j]);
              if b < 0 then d == 0 else Resolved(b, d, old(calls))
      ensures AlwaysMakes() && Buildable(services, idx) && d == 0 ==> services[idx].deps[j] == ""
      decreases |services| - |path|, 2
    {
      hide History, Walk, Buildable, CycleFrom, Shared, Made, AllMade, RequestsMade;
      DependencyOnPath(path, idx, j);
      ghost var inst, init, before := instance[..], initialized[..], calls;
      d := Resolve(services[idx].deps[j], path);
      SharedStays(services, inst, init, instance[..], initialized[..], idx, args);
      ArgsMadeStay(services, before, calls, idx, args);
      ArgHandedOver(idx, args, j, d);
    }

    /** Builds the dependencies in order, then calls the factory. Every caller has just set the depth counter to 0. */
    method Build(idx: nat, ghost path: seq<nat>) returns (r: nat, ghost outcome: Outcome)
      requires Valid() && idx < |services| && resolveDepth == 0
      requires Walk(services, path) && path[|path| - 1] == idx && !CycleFrom(services, path[0])
      requires !initialized[idx]
      modifies this`callCount, this`calls, this`resolveDepth, instance, initialized, requestInstances
      ensures Valid() && old(calls) <= calls && Kept(path)
      ensures Loggable(idx, outcome, r)
      ensures AlwaysMakes() && Buildable(services, idx) ==> r != 0
      decreases |services| - |path|, 3
    {
      hide History, Walk, Buildable, CycleFrom, Shared, ArgsMade, AllMade, RequestsMade, Resolved;
      AcyclicWalkNoRepeats(services, path);
      // So the depth guard of the source never fires.
      assert resolveDepth <= MAX_SERVICES;
      resolveDepth := resolveDepth + 1;
      var args: seq<nat> := [];
      NoArgs(idx);
      for j := 0 to |services[idx].deps|
        invariant Valid() && old(calls) <= calls && Kept(path) && |args| == j
        invariant Shared(services, instance[..], initialized[..], idx, args) && ArgsMade(services, calls, idx, args)
        invariant forall m :: 0 <= m < j && args[m] == 0 ==> services[idx].deps[m] == ""
      {
        var d := NextArg(idx, j, args, path);
        if d == 0 && services[idx].deps[j] != "" {
          resolveDepth := resolveDepth - 1;
          return 0, NotCalled;
        }
        args := args + [d];
      }
      resolveDepth := resolveDepth - 1;
      r := make(idx, callCount);
      outcome := Called(Call(callCount, idx, args, r));
      callCount := callCount + 1;
    }

    lemma NoArgs(idx: nat)
      requires Valid() && idx < |services|
      ensures Shared(services, instance[..], initialized[..], idx, []) && ArgsMade(services, calls, idx, [])
    {
    }

    lemma ArgHandedOver(idx: nat, args: seq<nat>, j: nat, d: nat)
      requires Valid() && idx < |services| && j < |services[idx].deps| && |args| == j
      requires Shared(services, instance[..], initialized[..], idx, args)
      requires var b := Find(services, services[idx].deps[j]);
               if b < 0 then d == 0 else services[b].scope == Singleton ==>
                   d == instance[b] && (d != 0 <==> initialized[b])
      ensures Shared(services, instance[..], initialized[..], idx, args + [d])
    {
      hide History;
    }

    lemma DependencyOnPath(path: seq<nat>, idx: nat, j: nat)
      requires Walk(services, path) && path[|path| - 1] == idx && !CycleFrom(services, path[0])
      requires idx < |services| && j < |services[idx].deps|
      ensures OnAcyclicPath(path, Find(services, services[idx].deps[j]))
      ensures Buildable(services, idx) ==>
                var b := Find(services, services[idx].deps[j]);
                if b < 0 then services[idx].deps[j] == "" else Buildable(services, b)
    {
      var b := Find(services, services[idx].deps[j]);
      if b >= 0 {
        EdgeByDep(services, idx, j);
        WalkAppend(services, path, b);
        assert (path + [b])[0] == path[0];
        if Buildable(services, idx) { BuildableStep(services, idx, b); }
      } else if Buildable(services, idx) {
        assert Walk(services, [idx]);
        assert DepsRegistered(services, [idx][0]);
      }
    }

    lemma CacheOf(i: nat)
      requires Valid() && i < |services|
      ensures if services[i].scope == Singleton then initialized[i] <==> instance[i] != 0 else !initialized[i]
    {
      assert services[i].scope == Singleton ==> CacheOk(instance[..], initialized[..], calls, i);
    }

    /** How a result relates to the caches and the log. */
    ghost predicate Resolved(i: nat, r: nat, before: seq<Call>)
      requires i < |services| <= instance.Length == initialized.Length == requestInstances.Length
      reads this`services, this`inRequest, this`calls, instance, initialized, requestInstances
    {
      match services[i].scope
      case Singleton => r == instance[i] && (r != 0 <==> initialized[i])
      case Request =>
        if inRequest then r == requestInstances[i]
        else r != 0 ==> before < calls && calls[|calls| - 1].service == i && calls[|calls| - 1].result == r
      case Transient =>
        r != 0 ==> before < calls && calls[|calls| - 1].service == i && calls[|calls| - 1].result == r
    }

    ghost predicate Cached(i: nat, init: seq<bool>, requests: seq<nat>)
      requires i < |services| <= |init| == |requests|
      reads this`services, this`inRequest
    {
      match services[i].scope
      case Singleton => init[i]
      case Request => inRequest && requests[i] != 0
      case Transient => false
    }

    /**
     One dependency list: `name` has been dequeued, so the in-degree of
     service `i` drops once per mention, and `i` is queued when it meets 0.
     */
    method RelaxOne(deg: array<int>, queue: array<nat>, tail: nat, i: nat, name: string) returns (tail': nat)
      requires i < |services| <= deg.Length
      requires deg[i] > 0 >= deg[i] - multiset(services[i].deps)[name] ==> tail < queue.Length
      modifies deg, queue
      ensures deg[..] == old(deg[..])[i := old(deg[i]) - multiset(services[i].deps)[name]]
      ensures if old(deg[i]) > 0 >= deg[i]
              then tail < queue.Length && tail' == tail + 1 && queue[..] == old(queue[..])[tail := i]
              else tail' == tail && queue[..] == old(queue[..])
    {
      tail' := tail;
      var deps := services[i].deps;
      for j := 0 to |deps|
        invariant deg[..] == old(deg[..])[i := old(deg[i]) - multiset(deps[..j])[name]]
        invariant if old(deg[i]) > 0 >= deg[i]
                  then tail < queue.Length && tail' == tail + 1 && queue[..] == old(queue[..])[tail := i]
                  else tail' == tail && queue[..] == old(queue[..])
      {
        CountMention(deps, j, name);
        if deps[j] == name {
          deg[i] := deg[i] - 1;
          if deg[i] == 0 {
            queue[tail'] := i;
            tail' := tail' + 1;
          }
        }
      }
      assert deps[..|deps|] == deps;
    }

    /** Dequeuing service `u`: all in-degrees drop, and new services queue up. */
    method Relax(deg: array<int>, queue: array<nat>, tail: nat, u: nat, ghost run: seq<nat>, ghost q: seq<nat>)
      returns (tail': nat, ghost q': seq<nat>)
      requires |services| <= MAX_SERVICES == deg.Length == queue.Length && tail <= MAX_SERVICES
      requires queue[..tail] == q && Sorting(services, deg[..], run, q) && |run| < |q| && q[|run|] == u
      modifies deg, queue
      ensures tail' <= MAX_SERVICES && queue[..tail'] == q'
      ensures Sorting(services, deg[..], run + [u], q')
    {
      hide Sorting, Relaxed, HitSum;
      tail', q' := tail, q;
      ghost var before := deg[..];
      RelaxedStart(services, before, run, q);
      for i := 0 to |services|
        invariant tail' <= MAX_SERVICES && queue[..tail'] == q'
        invariant Relaxed(services, before, deg[..], run, u, q, q', i)
      {
        RelaxedStep(services, before, deg[..], run, u, q, q', i);
        ghost var d := deg[i];
        var t := RelaxOne(deg, queue, tail', i, services[u].name);
        if t > tail' {
          assert queue[..t] == q' + [i];
          q' := q' + [i];
        } else {
          assert queue[..t] == q';
        }
        tail' := t;
      }
      RelaxedEnd(services, before, deg[..], run, u, q, q');
    }

    /** Kahn's sort, building every singleton when it is dequeued. */
    method ResolveAll() returns (rc: int, ghost run: seq<nat>)
      requires Valid() && SingletonsEnd(services)
      modifies this`callCount, this`calls, this`resolveDepth, instance, initialized, requestInstances
      ensures Valid() && KahnRun(services, run)
      ensures rc == if |run| == |services| then 0 else -1
      ensures NeededOnce(services) ==>
                (rc == 0 <==> AllRegistered(services) && forall i :: 0 <= i < |services| ==> !CycleFrom(services, i))
      ensures UniqueNames(services) && AlwaysMakes() ==>
                forall i <- run :: services[i].scope == Singleton ==> initialized[i]
    {
      hide History, Sorting, UniqueNames, NeededOnce, CycleFrom, KahnRun, KahnPrefix, Buildable, Walk, SingletonsEnd;
      var deg := new int[MAX_SERVICES](_ => 0);
      var queue := new nat[MAX_SERVICES](_ => 0);
      var tail := CountDependencies(deg, queue);
      ghost var q: seq<nat> := queue[..tail];
      var head, resolved := 0, 0;
      run := [];
      while head < tail
        invariant head <= tail <= MAX_SERVICES && queue[..tail] == q && |run| == resolved == head
        invariant Sorting(services, deg[..], run, q) && Valid()
        invariant UniqueNames(services) && AlwaysMakes() ==>
                    forall i <- run ::
                        i < MAX_SERVICES && i < |services| && (services[i].scope == Singleton ==> initialized[i])
        decreases |services| - head
      {
        QueueHead(services, deg[..], run, q);
        DequeuedIsBuildable(services, deg[..], run, q);
        var u := queue[head];
        assert u == q[head];
        head := head + 1;
        resolved := resolved + 1;
        if services[u].scope == Singleton { ResolveDequeued(u); }
        tail, q := Relax(deg, queue, tail, u, run, q);
        run := run + [u];
        QueuePrefix(services, deg[..], run, q);
      }
      SortingEnd(services, deg[..], run, q);
      if NeededOnce(services) { KahnIffAcyclic(services, run); }
      rc := if resolved == |services| then 0 else -1;
    }

    method ResolveDequeued(u: nat)
      requires Valid() && u < |services| && services[u].scope == Singleton
      requires OnAcyclicPath([], Find(services, services[u].name))
      requires UniqueNames(services) ==> Find(services, services[u].name) == u && Buildable(services, u)
      modifies this`callCount, this`calls, this`resolveDepth, instance, initialized, requestInstances
      ensures Valid() && Kept([])
      ensures UniqueNames(services) && AlwaysMakes() ==> initialized[u]
    {
      hide History, UniqueNames, CycleFrom, Buildable, Walk;
      var _ := Resolve(services[u].name, []);
    }

    /** In-degrees start as dependency counts; services without any are queued. */
    method CountDependencies(deg: array<int>, queue: array<nat>) returns (tail: nat)
      requires |services| <= MAX_SERVICES == deg.Length == queue.Length
      modifies deg, queue
      ensures tail <= MAX_SERVICES && Sorting(services, deg[..], [], queue[..tail])
    {
      hide Counted, Sorting, NoRepeats;
      tail := 0;
      CountedNone(services, deg[..]);
      for i := 0 to |services|
        invariant tail <= i && Counted(services, deg[..], queue[..tail], i)
      {
        CountedStep(services, deg[..], queue[..tail], i);
        ghost var q, d := queue[..tail], deg[..];
        deg[i] := |services[i].deps|;
        assert deg[..] == d[i := |services[i].deps|];
        if deg[i] == 0 {
          queue[tail] := i;
          tail := tail + 1;
          assert queue[..tail] == q + [i];
        }
      }
      CountedAll(services, deg[..], queue[..tail]);
    }
  }

  /** In-degrees set, and services without dependencies queued, below `i`. */
  ghost predicate Counted(s: seq<Service>, deg: seq<int>, q: seq<nat>, i: nat) {
    && i <= |s| <= |deg| && NoRepeats(q)
    && (forall k :: 0 <= k < i ==> deg[k] == |s[k].deps|)
    && (forall k :: 0 <= k < |q| ==> q[k] < i && |s[q[k]].deps| == 0)
    && (forall k :: 0 <= k < i && |s[k].deps| == 0 ==> k in q)
  }

  lemma CountedNone(s: seq<Service>, deg: seq<int>)
    requires |s| <= |deg|
    ensures Counted(s, deg, [], 0)
  {
  }

  lemma CountedStep(s: seq<Service>, deg: seq<int>, q: seq<nat>, i: nat)
    requires Counted(s, deg, q, i) && i < |s|
    ensures i < |deg| && Counted(s, deg[i := |s[i].deps|], if |s[i].deps| == 0 then q + [i] else q, i + 1)
  {
    hide NoRepeats;
    if |s[i].deps| == 0 {
      assert i !in q by { assert forall k :: 0 <= k < |q| ==> q[k] < i; }
      NoRepeatsAppend(q, i);
      var q' := q + [i];
      forall k | 0 <= k < |q'| ensures q'[k] < i + 1 && |s[q'[k]].deps| == 0 {
        assert q'[k] == if k < |q| then q[k] else i;
      }
      forall k | 0 <= k < i + 1 && |s[k].deps| == 0 ensures k in q' {
        if k < i { assert k in q; } else { assert q'[|q|] == i; }
      }
    }
  }

  lemma CountedAll(s: seq<Service>, deg: seq<int>, q: seq<nat>)
    requires Counted(s, deg, q, |s|)
    ensures Sorting(s, deg, [], q)
  {
    hide NoRepeats;
  }

  lemma QueueHead(s: seq<Service>, deg: seq<int>, run: seq<nat>, q: seq<nat>)
    requires Sorting(s, deg, run, q) && |run| < |q|
    ensures q[|run|] < |s| && |q| <= |s|
  {
    NoRepeatsBound(q, |s|);
  }

  lemma QueuePrefix(s: seq<Service>, deg: seq<int>, run: seq<nat>, q: seq<nat>)
    requires Sorting(s, deg, run, q)
    ensures |run| <= |q| <= |s| && run == q[..|run|]
  {
    NoRepeatsBound(q, |s|);
  }

  /** What has been dequeued, with the next in the queue, is a Kahn prefix. */
  lemma DequeuedPrefix(s: seq<Service>, deg: seq<int>, run: seq<nat>, q: seq<nat>, n: nat)
    requires Sorting(s, deg, run, q) && n <= |q| && n <= |run| + 1
    ensures KahnPrefix(s, q[..n])
  {
    hide HitSum, NoRepeats;
    var p := q[..n];
    assert NoRepeats(p) by { PrefixNoRepeats(q, n); }
    forall k | 0 <= k < n ensures HitSum(s, p[k], p[..k]) >= |s[p[k]].deps| {
      assert p[..k] == q[..k] && p[k] == q[k];
    }
  }

  lemma PrefixNoRepeats(q: seq<nat>, n: nat)
    requires NoRepeats(q) && n <= |q|
    ensures NoRepeats(q[..n])
  {
  }

  lemma SortingEnd(s: seq<Service>, deg: seq<int>, run: seq<nat>, q: seq<nat>)
    requires Sorting(s, deg, run, q) && |run| == |q|
    ensures KahnRun(s, run)
  {
    DequeuedPrefix(s, deg, run, q, |q|);
    assert q[..|q|] == q == run;
  }

  /** Resolving a dequeued singleton by its name never meets a cycle, whichever order the sort takes. */
  ghost predicate SingletonsEnd(s: seq<Service>) {
    forall p, u :: KahnPrefix(s, p) && u in p ==> SingletonEnds(s, u)
  }

  ghost predicate SingletonEnds(s: seq<Service>, u: nat) {
    u < |s| && s[u].scope == Singleton ==> var i := Find(s, s[u].name); i >= 0 ==> !CycleFrom(s, i)
  }

  /** That can be read off any one finished run. */
  lemma SingletonsEndIff(s: seq<Service>, run: seq<nat>)
    requires KahnRun(s, run)
    ensures SingletonsEnd(s) <==> forall u <- run :: SingletonEnds(s, u)
  {
    hide SingletonEnds;
    forall p, u | KahnPrefix(s, p) && u in p ensures u in run { RunsAgree(s, p, run); }
  }

  /** Unique names are enough, and so is a graph without cycles. */
  lemma SingletonsEndIf(s: seq<Service>)
    requires UniqueNames(s) || forall i :: 0 <= i < |s| ==> !CycleFrom(s, i)
    ensures SingletonsEnd(s)
  {
    hide CycleFrom, KahnPrefix;
    if UniqueNames(s) {
      forall p, u | KahnPrefix(s, p) && u in p ensures SingletonEnds(s, u) {
        UniqueNeededOnce(s);
        RunIsTopological(s, p);
        TopologicalNoCycle(s, p, u);
        assert u < |s| ==> Find(s, s[u].name) == u;
      }
    }
  }

  /** The singleton about to be built has no cycle ahead, and with unique names only finished services. */
  lemma DequeuedIsBuildable(s: seq<Service>, deg: seq<int>, run: seq<nat>, q: seq<nat>)
    requires SingletonsEnd(s) && Sorting(s, deg, run, q) && |run| < |q|
    ensures q[|run|] < |s|
    ensures s[q[|run|]].scope == Singleton ==>
              var i := Find(s, s[q[|run|]].name);
              && i >= 0 && Walk(s, [] + [i]) && !CycleFrom(s, ([] + [i])[0])
              && (UniqueNames(s) ==> i == q[|run|] && Buildable(s, i))
  {
    hide Sorting, CycleFrom, Walk, Buildable, UniqueNames, Find, SingletonsEnd;
    HeadEnds(s, deg, run, q);
    var i := Find(s, s[q[|run|]].name);
    assert [] + [i] == [i];
    TrivialWalk(s, i);
    if UniqueNames(s) { HeadIsBuildable(s, deg, run, q); }
  }

  lemma HeadEnds(s: seq<Service>, deg: seq<int>, run: seq<nat>, q: seq<nat>)
    requires SingletonsEnd(s) && Sorting(s, deg, run, q) && |run| < |q|
    ensures q[|run|] < |s| && SingletonEnds(s, q[|run|])
  {
    hide Sorting, KahnPrefix, SingletonEnds;
    QueueHead(s, deg, run, q);
    DequeuedPrefix(s, deg, run, q, |run| + 1);
    assert q[..|run| + 1][|run|] == q[|run|];
  }

  lemma HeadIsBuildable(s: seq<Service>, deg: seq<int>, run: seq<nat>, q: seq<nat>)
    requires UniqueNames(s) && Sorting(s, deg, run, q) && |run| < |q|
    ensures var u := q[|run|];
            u < |s| && Find(s, s[u].name) == u && !CycleFrom(s, u) && Buildable(s, u)
  {
    hide Sorting, CycleFrom, Walk, Buildable, KahnPrefix, Find, Topological, UniqueNames, NeededOnce;
    QueueHead(s, deg, run, q);
    var p, u := q[..|run| + 1], q[|run|];
    UniqueNeededOnce(s);
    FirstOfItsName(s, u);
    assert p[|run|] == u;
    DequeuedPrefix(s, deg, run, q, |run| + 1);
    RunIsTopological(s, p);
    TopologicalNoCycle(s, p, u);
    PrefixIsBuildable(s, p, u);
  }

  lemma FirstOfItsName(s: seq<Service>, u: nat)
    requires UniqueNames(s) && u < |s|
    ensures Find(s, s[u].name) == u
  {
    hide Find;
    assert Find(s, s[u].name) >= 0;
  }

  lemma PrefixIsBuildable(s: seq<Service>, p: seq<nat>, u: nat)
    requires NeededOnce(s) && KahnPrefix(s, p) && u in p
    ensures Buildable(s, u)
  {
    RunIsTopological(s, p);
    forall w | Walk(s, w) && w[0] == u ensures DepsRegistered(s, w[|w| - 1]) {
      var i := w[|w| - 1];
      if |w| > 1 { WalkDescends(s, p, w, 0, |w| - 1); }
      forall j | 0 <= j < |s[i].deps| ensures Find(s, s[i].deps[j]) >= 0 {
        DependenciesFirst(s, p, FirstPos(p, i), j);
      }
    }
  }

  lemma CountMention(deps: seq<string>, j: nat, name: string)
    requires j < |deps|
    ensures multiset(deps[..j + 1])[name] == multiset(deps[..j])[name] + if deps[j] == name then 1 else 0
    ensures multiset(deps[..j + 1])[name] <= multiset(deps)[name]
  {
    assert deps[..j + 1] == deps[..j] + [deps[j]];
    assert deps == deps[..j + 1] + deps[j + 1..];
    assert multiset(deps) == multiset(deps[..j + 1]) + multiset(deps[j + 1..]);
  }

  // ------------------------------------------------- the state of the sort

  /**
   In-degrees count what is still missing after `run` was dequeued; the queue
   holds exactly the services at or below 0, each enqueued rightfully.
   */
  ghost predicate Sorting(s: seq<Service>, deg: seq<int>, run: seq<nat>, q: seq<nat>) {
    && |s| <= |deg| && run <= q && NoRepeats(q)
    && (forall k :: 0 <= k < |q| ==> q[k] < |s|)
    && (forall i :: 0 <= i < |s| ==> deg[i] == |s[i].deps| - HitSum(s, i, run))
    && (forall i :: 0 <= i < |s| ==> (i in q <==> deg[i] <= 0))
    && (forall k :: 0 <= k < |q| ==> HitSum(s, q[k], if k <= |run| then q[..k] else run) >= |s[q[k]].deps|)
  }

  /** Halfway through dequeuing `u`: services below `i` have been looked at. */
  ghost predicate Relaxed(s: seq<Service>, before: seq<int>, deg: seq<int>, run: seq<nat>, u: nat, q: seq<nat>,
                          q': seq<nat>, i: nat) {
    && i <= |s| <= |before| == |deg| && u < |s| && q <= q' && NoRepeats(q')
    && Sorting(s, before, run, q)
    && (forall k :: 0 <= k < |q'| ==> q'[k] < |s|)
    && (forall k :: 0 <= k < |s| ==> deg[k] == before[k] - if k < i then multiset(s[k].deps)[s[u].name] else 0)
    && (forall k :: 0 <= k < |s| ==> (k in q' <==> deg[k] <= 0))
  }

  lemma RelaxedStart(s: seq<Service>, deg: seq<int>, run: seq<nat>, q: seq<nat>)
    requires Sorting(s, deg, run, q) && |run| < |q|
    ensures Relaxed(s, deg, deg, run, q[|run|], q, q, 0)
  {
  }

  lemma RelaxedStep(s: seq<Service>, before: seq<int>, deg: seq<int>, run: seq<nat>, u: nat, q: seq<nat>,
                    q': seq<nat>, i: nat)
    requires Relaxed(s, before, deg, run, u, q, q', i) && i < |s|
    ensures u < |s| && i < |deg| && |q'| <= |s|
    ensures var d := deg[i] - multiset(s[i].deps)[s[u].name];
            var arrives := deg[i] > 0 && d <= 0;
            && Relaxed(s, before, deg[i := d], run, u, q, if arrives then q' + [i] else q', i + 1)
            && (arrives ==> |q'| < |s|)
  {
    hide Sorting, NoRepeats;
    NoRepeatsBound(q', |s|);
    var d := deg[i] - multiset(s[i].deps)[s[u].name];
    if deg[i] > 0 && d <= 0 {
      NoRepeatsAppend(q', i);
      NoRepeatsBound(q' + [i], |s|);
    }
  }

  lemma RelaxedEnd(s: seq<Service>, before: seq<int>, deg: seq<int>, run: seq<nat>, u: nat, q: seq<nat>, q': seq<nat>)
    requires Relaxed(s, before, deg, run, u, q, q', |s|) && |run| < |q| && q[|run|] == u
    ensures Sorting(s, deg, run + [u], q')
  {
    hide HitSum, NoRepeats;
    var run' := run + [u];
    assert run' == q[..|run| + 1] == q'[..|run| + 1];
    HitSumAppend(s, run, u);
    RightfullyQueued(s, before, deg, run, u, q, q');
  }

  lemma HitSumAppend(s: seq<Service>, run: seq<nat>, u: nat)
    requires u < |s| && forall k :: 0 <= k < |run| ==> run[k] < |s|
    ensures forall i :: 0 <= i < |s| ==> HitSum(s, i, run + [u]) == HitSum(s, i, run) + multiset(s[i].deps)[s[u].name]
  {
    assert (run + [u])[..|run|] == run;
  }

  lemma RightfullyQueued(s: seq<Service>, before: seq<int>, deg: seq<int>, run: seq<nat>, u: nat, q: seq<nat>,
                         q': seq<nat>)
    requires Relaxed(s, before, deg, run, u, q, q', |s|) && |run| < |q| && q[|run|] == u
    ensures forall k :: 0 <= k < |q'| ==>
              HitSum(s, q'[k], if k <= |run| + 1 then q'[..k] else run + [u]) >= |s[q'[k]].deps|
  {
    hide HitSum, NoRepeats;
    HitSumAppend(s, run, u);
    forall k | 0 <= k < |q'|
      ensures HitSum(s, q'[k], if k <= |run| + 1 then q'[..k] else run + [u]) >= |s[q'[k]].deps|
    {
      if k <= |run| {
        assert q'[..k] == q[..k];
      } else if k == |run| + 1 {
        assert q'[..k] == run + [u];
      }
      if k < |q| { assert q'[k] == q[k]; } else { assert q'[k] in q'; }
    }
  }

  lemma FindIs(s: seq<Service>, name: string, i: nat)
    requires i < |s| && s[i].name == name && forall k :: 0 <= k < i ==> s[k].name != name
    ensures Find(s, name) == i
  {
    hide Find;
    assert Find(s, name) >= 0;
  }
}
