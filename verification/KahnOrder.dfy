/** What a run of Kahn's algorithm over dependency names dequeues. */
module KahnOrder {
  import opened DependencyGraph
  import opened Sequences

  /** How many in-degree decrements service `i` has had once `run` is dequeued. */
  function HitSum(s: seq<Service>, i: nat, run: seq<nat>): nat
    requires i < |s| && forall k :: 0 <= k < |run| ==> run[k] < |s|
  {
    if run == [] then 0
    else HitSum(s, i, run[..|run| - 1]) + multiset(s[i].deps)[s[run[|run| - 1]].name]
  }

  /** Every dequeued service had as many decrements as dependencies. */
  ghost predicate KahnPrefix(s: seq<Service>, run: seq<nat>) {
    && NoRepeats(run)
    && (forall k :: 0 <= k < |run| ==> run[k] < |s|)
    && forall k :: 0 <= k < |run| ==> HitSum(s, run[k], run[..k]) >= |s[run[k]].deps|
  }

  /** ... and nothing else can be dequeued. */
  ghost predicate KahnRun(s: seq<Service>, run: seq<nat>) {
    KahnPrefix(s, run) && forall i :: 0 <= i < |s| && i !in run ==> HitSum(s, i, run) < |s[i].deps|
  }

  ghost predicate NamesDep(s: seq<Service>, run: seq<nat>, dep: string) {
    exists k :: 0 <= k < |run| && run[k] < |s| && s[run[k]].name == dep
  }

  /** The dependencies that are names of dequeued services, counted one by one. */
  ghost function CountNamed(s: seq<Service>, run: seq<nat>, deps: seq<string>): (c: nat)
    ensures c <= |deps|
  {
    if deps == [] then 0
    else CountNamed(s, run, deps[..|deps| - 1]) + if NamesDep(s, run, deps[|deps| - 1]) then 1 else 0
  }

  lemma {:induction false} CountNamedStep(s: seq<Service>, run: seq<nat>, u: nat, deps: seq<string>)
    requires u < |s| && (s[u].name in deps ==> !NamesDep(s, run, s[u].name))
    ensures CountNamed(s, run + [u], deps) == CountNamed(s, run, deps) + multiset(deps)[s[u].name]
  {
    if deps != [] {
      var n := |deps| - 1;
      assert deps == deps[..n] + [deps[n]];
      assert multiset(deps) == multiset(deps[..n]) + multiset{deps[n]};
      CountNamedStep(s, run, u, deps[..n]);
      NamesDepAppend(s, run, u, deps[n]);
    }
  }

  lemma NamesDepAppend(s: seq<Service>, run: seq<nat>, u: nat, dep: string)
    requires u < |s|
    ensures NamesDep(s, run + [u], dep) <==> NamesDep(s, run, dep) || s[u].name == dep
  {
    var r := run + [u];
    if NamesDep(s, run, dep) {
      var k :| 0 <= k < |run| && run[k] < |s| && s[run[k]].name == dep;
      assert r[k] == run[k];
    }
    assert r[|run|] == u;
  }

  lemma {:induction false} CountNamedNone(s: seq<Service>, deps: seq<string>)
    ensures CountNamed(s, [], deps) == 0
  {
    if deps != [] { CountNamedNone(s, deps[..|deps| - 1]); }
  }

  lemma NewName(s: seq<Service>, i: nat, run: seq<nat>)
    requires NeededOnce(s) && NoRepeats(run) && run != [] && i < |s| && forall k :: 0 <= k < |run| ==> run[k] < |s|
    ensures var n := |run| - 1; s[run[n]].name in s[i].deps ==> !NamesDep(s, run[..n], s[run[n]].name)
  {
    var n := |run| - 1;
    if s[run[n]].name in s[i].deps {
      forall k | 0 <= k < n ensures s[run[..n][k]].name != s[run[n]].name {
        NameDiffers(s, run[n], run[k]);
      }
    }
  }

  lemma NameDiffers(s: seq<Service>, a: nat, b: nat)
    requires NeededOnce(s) && a < |s| && b < |s| && a != b && Needed(s, s[a].name)
    ensures s[a].name != s[b].name
  {
  }

  /** When names depended on are registered once, the decrements count dependencies, none twice. */
  lemma {:induction false} HitSumCounts(s: seq<Service>, i: nat, run: seq<nat>)
    requires NeededOnce(s) && NoRepeats(run) && i < |s| && forall k :: 0 <= k < |run| ==> run[k] < |s|
    ensures HitSum(s, i, run) == CountNamed(s, run, s[i].deps)
  {
    if run == [] {
      CountNamedNone(s, s[i].deps);
    } else {
      var n := |run| - 1;
      var shorter := run[..n];
      HitSumCounts(s, i, shorter);
      assert run == shorter + [run[n]];
      NewName(s, i, run);
      CountNamedStep(s, shorter, run[n], s[i].deps);
    }
  }

  lemma SameName(s: seq<Service>, a: nat, b: nat)
    requires NeededOnce(s) && a < |s| && b < |s| && s[a].name == s[b].name && Needed(s, s[a].name)
    ensures a == b
  {
  }

  lemma {:induction false} CountNamedFull(s: seq<Service>, run: seq<nat>, deps: seq<string>, j: nat)
    requires j < |deps|
    ensures CountNamed(s, run, deps) == |deps| ==> NamesDep(s, run, deps[j])
  {
    var n := |deps| - 1;
    if j < n { CountNamedFull(s, run, deps[..n], j); }
  }

  lemma {:induction false} CountNamedShort(s: seq<Service>, run: seq<nat>, deps: seq<string>) returns (j: nat)
    requires CountNamed(s, run, deps) < |deps|
    ensures j < |deps| && !NamesDep(s, run, deps[j])
  {
    var n := |deps| - 1;
    if NamesDep(s, run, deps[n]) { j := CountNamedShort(s, run, deps[..n]); } else { j := n; }
  }

  /** A service is dequeued after all its dependencies. */
  lemma DependenciesFirst(s: seq<Service>, run: seq<nat>, k: nat, j: nat)
    requires NeededOnce(s) && KahnPrefix(s, run) && k < |run| && j < |s[run[k]].deps|
    ensures NamesDep(s, run[..k], s[run[k]].deps[j])
    ensures var b := Find(s, s[run[k]].deps[j]); b >= 0 && b in run[..k]
  {
    var i := run[k];
    HitSumCounts(s, i, run[..k]);
    CountNamedFull(s, run[..k], s[i].deps, j);
    var m :| 0 <= m < k && s[run[..k][m]].name == s[i].deps[j];
    SameName(s, run[m], Find(s, s[i].deps[j]));
    assert run[..k][m] == run[m];
  }

  lemma RunIsTopological(s: seq<Service>, run: seq<nat>)
    requires NeededOnce(s) && KahnPrefix(s, run)
    ensures Topological(s, run)
  {
    forall k, b | 0 <= k < |run| && Edge(s, run[k], b) ensures b in run[..k] {
      var j :| 0 <= j < |s[run[k]].deps| && Find(s, s[run[k]].deps[j]) == b;
      DependenciesFirst(s, run, k, j);
    }
  }

  /** What stays in the queue's way: a service left over waits for another. */
  lemma LeftOverWaits(s: seq<Service>, run: seq<nat>, i: nat) returns (b: nat)
    requires NeededOnce(s) && KahnRun(s, run) && AllRegistered(s) && i < |s| && i !in run
    ensures b < |s| && b !in run && Edge(s, i, b)
  {
    HitSumCounts(s, i, run);
    var j := CountNamedShort(s, run, s[i].deps);
    b := Find(s, s[i].deps[j]);
    if b in run {
      var k := FirstPos(run, b);
      assert NamesDep(s, run, s[i].deps[j]);
    }
  }

  lemma {:induction false} WalkOfLeftOvers(s: seq<Service>, run: seq<nat>, i: nat, len: nat) returns (p: seq<nat>)
    requires NeededOnce(s) && KahnRun(s, run) && AllRegistered(s) && i < |s| && i !in run
    ensures Walk(s, p) && p[0] == i && |p| == len + 1 && p[len] < |s| && p[len] !in run
  {
    hide Walk, KahnRun, AllRegistered, NeededOnce, Edge;
    if len == 0 {
      p := [i];
      TrivialWalk(s, i);
    } else {
      var q := WalkOfLeftOvers(s, run, i, len - 1);
      var b := LeftOverWaits(s, run, q[len - 1]);
      WalkAppend(s, q, b);
      p := q + [b];
    }
  }

  /** Kahn's sort covers all services exactly when the graph is complete and acyclic. */
  lemma KahnIffAcyclic(s: seq<Service>, run: seq<nat>)
    requires NeededOnce(s) && KahnRun(s, run)
    ensures |run| == |s| <==> AllRegistered(s) && forall i :: 0 <= i < |s| ==> !CycleFrom(s, i)
  {
    hide CycleFrom, Walk;
    if |run| == |s| {
      RunIsTopological(s, run);
      forall i | 0 <= i < |s| ensures i in run && !CycleFrom(s, i) {
        FullRun(run, |s|, i);
        TopologicalNoCycle(s, run, i);
      }
      forall i, j | 0 <= i < |s| && 0 <= j < |s[i].deps| ensures Find(s, s[i].deps[j]) >= 0 {
        DependenciesFirst(s, run, FirstPos(run, i), j);
      }
    } else if AllRegistered(s) && forall i :: 0 <= i < |s| ==> !CycleFrom(s, i) {
      var i := MissingFrom(run, |s|);
      var p := WalkOfLeftOvers(s, run, i, |s|);
      AcyclicWalkNoRepeats(s, p);
    }
  }

  lemma {:induction false} HitSumRemove(s: seq<Service>, i: nat, run: seq<nat>, j: nat)
    requires i < |s| && (forall k :: 0 <= k < |run| ==> run[k] < |s|) && j < |run|
    ensures forall k :: 0 <= k < |run| - 1 ==> RemoveAt(run, j)[k] < |s|
    ensures HitSum(s, i, run) == HitSum(s, i, RemoveAt(run, j)) + multiset(s[i].deps)[s[run[j]].name]
  {
    hide RemoveAt;
    var n := |run| - 1;
    if j == n {
      assert RemoveAt(run, j) == run[..n];
    } else {
      HitSumRemove(s, i, run[..n], j);
      assert RemoveAt(run, j)[..n - 1] == RemoveAt(run[..n], j) && RemoveAt(run, j)[n - 1] == run[n];
    }
  }

  /** Dequeuing more services only makes more decrements, whatever the order. */
  lemma {:induction false} HitSumGrows(s: seq<Service>, i: nat, a: seq<nat>, b: seq<nat>)
    requires i < |s| && NoRepeats(a) && (forall u <- a :: u in b)
    requires forall k :: 0 <= k < |b| ==> b[k] < |s|
    ensures forall k :: 0 <= k < |a| ==> a[k] < |s|
    ensures HitSum(s, i, a) <= HitSum(s, i, b)
  {
    if a != [] {
      var n := |a| - 1;
      assert a[n] in b;
      var j := FirstPos(b, a[n]);
      HitSumRemove(s, i, b, j);
      OthersRemain(a, b, j);
      HitSumGrows(s, i, a[..n], RemoveAt(b, j));
    }
  }

  lemma OthersRemain(a: seq<nat>, b: seq<nat>, j: nat)
    requires a != [] && NoRepeats(a) && (forall u <- a :: u in b) && j < |b| && b[j] == a[|a| - 1]
    ensures forall u <- a[..|a| - 1] :: u in RemoveAt(b, j)
  {
    hide RemoveAt;
    forall u <- a[..|a| - 1] ensures u in RemoveAt(b, j) {
      var k :| 0 <= k < |a| - 1 && a[k] == u;
      assert a[k] in b;
      var m :| 0 <= m < |b| && b[m] == u;
      assert RemoveAt(b, j)[if m < j then m else m - 1] == u;
    }
  }

  /** What the sort dequeues does not depend on the order it dequeues in: a finished run has all of every other. */
  lemma {:induction false} RunsAgree(s: seq<Service>, p: seq<nat>, run: seq<nat>)
    requires KahnPrefix(s, p) && KahnRun(s, run)
    ensures forall u <- p :: u in run
  {
    if p != [] {
      var n := |p| - 1;
      PrefixBefore(s, p);
      RunsAgree(s, p[..n], run);
      HitSumGrows(s, p[n], p[..n], run);
      forall u <- p ensures u in run {
        if u != p[n] { assert u in p[..n]; }
      }
    }
  }

  lemma PrefixBefore(s: seq<Service>, p: seq<nat>)
    requires KahnPrefix(s, p) && p != []
    ensures KahnPrefix(s, p[..|p| - 1])
  {
    hide HitSum;
    var q := p[..|p| - 1];
    forall k | 0 <= k < |q| ensures HitSum(s, q[k], q[..k]) >= |s[q[k]].deps| { assert q[..k] == p[..k]; }
  }

  lemma {:induction false} FullRun(run: seq<nat>, n: nat, i: nat)
    requires NoRepeats(run) && |run| == n && i < n && forall k :: 0 <= k < |run| ==> run[k] < n
    ensures i in run
  {
    if i !in run {
      var longer := run + [i];
      assert NoRepeats(longer);
      NoRepeatsBound(longer, n);
    }
  }

  lemma {:induction false} MissingFrom(run: seq<nat>, n: nat) returns (i: nat)
    requires NoRepeats(run) && |run| != n && forall k :: 0 <= k < |run| ==> run[k] < n
    ensures i < n && i !in run
  {
    NoRepeatsBound(run, n);
    if n - 1 in run {
      var k := FirstPos(run, n - 1);
      var q := run[..k] + run[k + 1..];
      assert forall m :: 0 <= m < |q| ==> q[m] == run[if m < k then m else m + 1];
      i := MissingFrom(q, n - 1);
    } else {
      i := n - 1;
    }
  }

  /**
   Two services of a name that is depended on count twice, so a service is
   dequeued although another dependency of it is not registered at all.
   */
  lemma DuplicateNamesFoolTheSort() returns (s: seq<Service>, run: seq<nat>)
    ensures KahnRun(s, run) && |run| == |s| && !AllRegistered(s)
  {
    s := [Service("a", Singleton, ["b", "c"]), Service("b", Singleton, []), Service("b", Singleton, [])];
    run := [1, 2, 0];
    TwoHits(s);
    hide HitSum, Find;
    assert run[..2] == [1, 2];
    assert s[0].deps[1] == "c" && Find(s, "c") < 0;
  }

  lemma TwoHits(s: seq<Service>)
    requires |s| == 3 && s[0].deps == ["b", "c"] && s[1].name == "b" && s[2].name == "b"
    ensures HitSum(s, 0, [1, 2]) == 2
  {
    assert [1, 2][..1] == [1] && [1][..0] == [];
    assert s[0].deps[0] == "b" && s[0].deps[1] == "c";
    assert multiset(s[0].deps) == multiset{"b", "c"};
    assert HitSum(s, 0, [1]) == HitSum(s, 0, []) + 1;
  }
}
