/** Registered services, and the graph their dependency names make. */
module DependencyGraph {
  import opened Sequences

  datatype Scope = Singleton | Transient | Request

  datatype Service = Service(name: string, scope: Scope, deps: seq<string>)

  /** The first service of that name, or -1. */
  function Find(s: seq<Service>, name: string): (i: int)
    ensures -1 <= i < |s|
    ensures i >= 0 ==> s[i].name == name && forall k :: 0 <= k < i ==> s[k].name != name
    ensures i < 0 ==> forall k :: 0 <= k < |s| ==> s[k].name != name
  {
    if s == [] then -1
    else
      var i := Find(s[..|s| - 1], name);
      if i >= 0 then i else if s[|s| - 1].name == name then |s| - 1 else -1
  }

  /** Service `a` names service `b` among its dependencies. */
  ghost predicate Edge(s: seq<Service>, a: nat, b: nat) {
    a < |s| && exists j :: 0 <= j < |s[a].deps| && Find(s, s[a].deps[j]) == b
  }

  ghost predicate Walk(s: seq<Service>, p: seq<nat>) {
    && p != []
    && (forall i :: 0 <= i < |p| ==> p[i] < |s|)
    && forall k :: 0 < k < |p| ==> Step(s, p, k)
  }

  ghost predicate Step(s: seq<Service>, p: seq<nat>, k: nat)
    requires 0 < k < |p|
  {
    Edge(s, p[k - 1], p[k])
  }

  /** A walk that comes back to an earlier node at its end. */
  ghost predicate Closes(s: seq<Service>, p: seq<nat>) {
    Walk(s, p) && exists j :: 0 <= j < |p| - 1 && p[j] == p[|p| - 1]
  }

  /** A dependency cycle can be reached from service `r`. */
  ghost predicate CycleFrom(s: seq<Service>, r: nat) {
    exists p :: Closes(s, p) && p[0] == r
  }

  /** Every dependency of a listed service is listed before it. */
  ghost predicate Topological(s: seq<Service>, done: seq<nat>) {
    forall k, b :: 0 <= k < |done| && Edge(s, done[k], b) ==> b in done[..k]
  }

  ghost predicate UniqueNames(s: seq<Service>) {
    forall i, j :: 0 <= i < j < |s| ==> s[i].name != s[j].name
  }

  ghost predicate Needed(s: seq<Service>, name: string) {
    exists i :: 0 <= i < |s| && name in s[i].deps
  }

  /** No name that a service depends on is registered twice; other names may be. */
  ghost predicate NeededOnce(s: seq<Service>) {
    forall i, j :: 0 <= i < j < |s| && Needed(s, s[i].name) ==> s[i].name != s[j].name
  }

  lemma UniqueNeededOnce(s: seq<Service>)
    requires UniqueNames(s)
    ensures NeededOnce(s)
  {
  }

  ghost predicate AllRegistered(s: seq<Service>) {
    forall i, j :: 0 <= i < |s| && 0 <= j < |s[i].deps| ==> Find(s, s[i].deps[j]) >= 0
  }

  ghost function FirstPos(done: seq<nat>, a: nat): (k: nat)
    requires a in done
    ensures k < |done| && done[k] == a
    ensures forall m :: 0 <= m < k ==> done[m] != a
  {
    if done[0] == a then 0 else 1 + FirstPos(done[1..], a)
  }

  /** Walks from a listed service only ever step to services listed earlier. */
  lemma {:induction false} WalkDescends(s: seq<Service>, done: seq<nat>, p: seq<nat>, j: nat, k: nat)
    requires Topological(s, done) && Walk(s, p) && p[0] in done && j < k < |p|
    ensures p[j] in done && p[k] in done && FirstPos(done, p[k]) < FirstPos(done, p[j])
    decreases k
  {
    if k == 1 {
      assert Step(s, p, 1);
      WalkStep(s, done, p[0], p[1]);
    } else {
      WalkDescends(s, done, p, if j == k - 1 then j - 1 else j, k - 1);
      assert Step(s, p, k);
      WalkStep(s, done, p[k - 1], p[k]);
    }
  }

  lemma WalkStep(s: seq<Service>, done: seq<nat>, a: nat, b: nat)
    requires Topological(s, done) && a in done && Edge(s, a, b)
    ensures b in done && FirstPos(done, b) < FirstPos(done, a)
  {
    var k := FirstPos(done, a);
    assert b in done[..k];
    var m :| 0 <= m < k && done[m] == b;
  }

  /** Nothing in a topological list reaches a cycle. */
  lemma TopologicalNoCycle(s: seq<Service>, done: seq<nat>, r: nat)
    requires Topological(s, done) && r in done
    ensures !CycleFrom(s, r)
  {
    if CycleFrom(s, r) {
      var p :| Closes(s, p) && p[0] == r;
      var j :| 0 <= j < |p| - 1 && p[j] == p[|p| - 1];
      WalkDescends(s, done, p, j, |p| - 1);
    }
  }

  lemma TrivialWalk(s: seq<Service>, i: nat)
    requires i < |s|
    ensures Walk(s, [i])
  {
  }

  lemma WalkAppend(s: seq<Service>, p: seq<nat>, b: nat)
    requires Walk(s, p) && b < |s| && Edge(s, p[|p| - 1], b)
    ensures Walk(s, p + [b])
  {
    var q := p + [b];
    forall k | 0 < k < |q| ensures Step(s, q, k) {
      if k < |p| { assert Step(s, p, k); }
    }
  }

  lemma NoRepeatsAppend(p: seq<nat>, i: nat)
    requires NoRepeats(p) && i !in p
    ensures NoRepeats(p + [i])
  {
  }

  /** Without a cycle ahead, a walk never repeats a node. */
  lemma AcyclicWalkNoRepeats(s: seq<Service>, p: seq<nat>)
    requires Walk(s, p) && !CycleFrom(s, p[0])
    ensures NoRepeats(p) && |p| <= |s|
  {
    forall i, j | 0 <= i < j < |p| ensures p[i] != p[j] {
      if p[i] == p[j] { RepeatCloses(s, p, i, j); }
    }
    NoRepeatsBound(p, |s|);
  }

  lemma RepeatCloses(s: seq<Service>, p: seq<nat>, i: nat, j: nat)
    requires Walk(s, p) && i < j < |p| && p[i] == p[j]
    ensures CycleFrom(s, p[0])
  {
    var q := p[..j + 1];
    forall k | 0 < k < |q| ensures Step(s, q, k) { assert Step(s, p, k); }
    assert Closes(s, q);
  }

  lemma NoneBelowZero(p: seq<nat>, n: nat)
    requires forall i :: 0 <= i < |p| ==> p[i] < n
    ensures n == 0 ==> |p| == 0
  {
    if |p| > 0 { assert p[0] < n; }
  }

  lemma {:induction false} NoRepeatsBound(p: seq<nat>, n: nat)
    requires NoRepeats(p) && forall i :: 0 <= i < |p| ==> p[i] < n
    ensures |p| <= n
  {
    if n > 0 && n - 1 in p {
      var k := FirstPos(p, n - 1);
      var q := p[..k] + p[k + 1..];
      assert forall i :: 0 <= i < |q| ==> q[i] == p[if i < k then i else i + 1];
      NoRepeatsBound(q, n - 1);
    } else if n > 0 {
      NoRepeatsBound(p, n - 1);
    } else {
      NoneBelowZero(p, n);
    }
  }

  lemma EdgeByDep(s: seq<Service>, a: nat, j: nat)
    requires a < |s| && j < |s[a].deps| && Find(s, s[a].deps[j]) >= 0
    ensures Edge(s, a, Find(s, s[a].deps[j]))
  {
  }
}
