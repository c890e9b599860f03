/**
 How the least-recently-used rule compares with any other way of choosing what
 to keep in as many places: it misses at most `k` times as often, plus `k`.
 */
module LruCompetitive {
  import opened CStrings
  import opened LruModel
  import opened Sequences

  // ------------------------------------------------------------- the two sides

  /** A lookup and what is stored under the key when it misses. */
  datatype Ask = Ask(key: Str, value: Str, now: int)

  /** One lookup; a miss is followed by storing the value without a lifetime. */
  function Asked(c: State, a: Ask): State {
    var (c', r) := Get(c, a.key, a.now);
    if r == None then Put(c', a.key, a.value, 0, a.now) else c'
  }

  function AskAll(c: State, asks: seq<Ask>): State {
    if asks == [] then c else Asked(AskAll(c, asks[..|asks| - 1]), asks[|asks| - 1])
  }

  /**
   Any policy, as the keys it holds before each lookup and at the end: at most
   `k`, the one just looked up among them, and nothing else fetched. It may
   know the future, and may start with anything.
   */
  ghost predicate Policy(asks: seq<Ask>, held: seq<set<Str>>, k: nat) {
    && |held| == |asks| + 1 && (forall i :: 0 <= i < |held| ==> |held[i]| <= k)
    && forall i {:trigger asks[i]} :: 0 <= i < |asks| ==>
         asks[i].key in held[i + 1] && held[i + 1] <= held[i] + {asks[i].key}
  }

  ghost function Faults(asks: seq<Ask>, held: seq<set<Str>>): nat
    requires |held| == |asks| + 1
  {
    if asks == [] then 0
    else
      var n := |asks| - 1;
      Faults(asks[..n], held[..n + 1]) + if asks[n].key in held[n] then 0 else 1
  }

  // ---------------------------------------------------------- the recency list

  function Keys(s: seq<Record>): (r: seq<Str>)
    ensures |r| == |s| && forall i :: 0 <= i < |s| ==> r[i] == s[i].key
  {
    if s == [] then [] else [s[0].key] + Keys(s[1..])
  }

  function KeyPos(l: seq<Str>, x: Str): (i: nat)
    ensures i <= |l| && (i < |l| ==> l[i] == x) && forall j :: 0 <= j < i ==> l[j] != x
  {
    if l == [] || l[0] == x then 0 else 1 + KeyPos(l[1..], x)
  }

  /** The keys after `x` was looked up, `x` in front. */
  function Touched(l: seq<Str>, k: nat, x: Str): seq<Str> {
    var i := KeyPos(l, x);
    if i < |l| then [x] + RemoveAt(l, i)
    else [x] + if |l| >= k && l != [] then l[..|l| - 1] else l
  }

  /** Nothing stored has a lifetime, and no key is stored twice or cut. */
  ghost predicate Lasting(c: State) {
    && c.defaultTtl == 0 && 0 < c.capacity && |c.entries| <= c.capacity && NoRepeats(Keys(c.entries))
    && forall i :: 0 <= i < |c.entries| ==> c.entries[i].ttlSec == 0
  }

  lemma KeysAppend(a: seq<Record>, b: seq<Record>)
    ensures Keys(a + b) == Keys(a) + Keys(b)
  {
  }

  lemma KeysRemove(s: seq<Record>, i: nat)
    requires i < |s|
    ensures Keys(RemoveAt(s, i)) == RemoveAt(Keys(s), i)
  {
  }

  lemma KeysIndex(s: seq<Record>, key: Str)
    ensures IndexOf(s, key) == KeyPos(Keys(s), key)
  {
    var i, j := IndexOf(s, key), KeyPos(Keys(s), key);
    assert i < |s| ==> Keys(s)[i] == key;
    assert j < |s| ==> s[j].key == key;
  }

  /** A lookup is a hit exactly on a key of the list, and moves the key to its front. */
  lemma AskTouches(c: State, a: Ask)
    requires Lasting(c) && |a.key| < KEY_BUFFER
    ensures var c' := Asked(c, a);
            && c'.capacity == c.capacity && c'.defaultTtl == 0
            && Keys(c'.entries) == Touched(Keys(c.entries), c.capacity, a.key)
            && c'.misses == c.misses + (if a.key in Keys(c.entries) then 0 else 1)
            && forall i :: 0 <= i < |c'.entries| ==> c'.entries[i].ttlSec == 0
  {
    var s, i := c.entries, IndexOf(c.entries, a.key);
    KeysIndex(s, a.key);
    if i < |s| {
      HitTouches(c, a, i);
    } else {
      MissTouches(c, a);
    }
  }

  lemma HitTouches(c: State, a: Ask, i: nat)
    requires Lasting(c) && i == IndexOf(c.entries, a.key) == KeyPos(Keys(c.entries), a.key) < |c.entries|
    ensures var c' := Asked(c, a);
            && c'.capacity == c.capacity && c'.defaultTtl == 0 && c'.misses == c.misses
            && Keys(c'.entries) == Touched(Keys(c.entries), c.capacity, a.key)
            && a.key in Keys(c.entries)
            && forall j :: 0 <= j < |c'.entries| ==> c'.entries[j].ttlSec == 0
  {
    hide IndexOf, RemoveAt, KeyPos, Keys;
    var s := c.entries;
    KeysRemove(s, i);
    KeysAppend([s[i]], RemoveAt(s, i));
    assert Keys([s[i]]) == [a.key];
    assert a.key == Keys(s)[i];
  }

  lemma MissTouches(c: State, a: Ask)
    requires Lasting(c) && IndexOf(c.entries, a.key) == KeyPos(Keys(c.entries), a.key) == |c.entries|
    requires |a.key| < KEY_BUFFER
    ensures var c' := Asked(c, a);
            && c'.capacity == c.capacity && c'.defaultTtl == 0 && c'.misses == c.misses + 1
            && Keys(c'.entries) == Touched(Keys(c.entries), c.capacity, a.key)
            && a.key !in Keys(c.entries)
            && forall j :: 0 <= j < |c'.entries| ==> c'.entries[j].ttlSec == 0
  {
    hide IndexOf, RemoveAt, KeyPos, Keys;
    var s, n := c.entries, |c.entries|;
    var r := Record(a.key, Truncate(a.value, VALUE_BUFFER - 1), 0, a.now);
    var kept := if n >= c.capacity then s[..n - 1] else s;
    assert Asked(c, a).entries == [r] + kept;
    KeysAppend([r], kept);
    assert Keys([r]) == [a.key];
    if n >= c.capacity { assert Keys(kept) == Keys(s)[..n - 1]; }
  }

  // -------------------------------------------------------------- the potential

  /** What the list is behind a policy holding `t`: each key it lacks counts by how recent it is. */
  ghost function Debt(l: seq<Str>, t: set<Str>, w: nat): nat
    requires |l| <= w
  {
    if l == [] then 0 else (if l[0] in t then 0 else w) + Debt(l[1..], t, w - 1)
  }

  lemma {:induction false} DebtLighter(l: seq<Str>, t: set<Str>, w: nat)
    requires |l| < w
    ensures Debt(l, t, w - 1) <= Debt(l, t, w)
  {
    if l != [] { DebtLighter(l[1..], t, w - 1); }
  }

  lemma {:induction false} DebtPrefix(l: seq<Str>, t: set<Str>, w: nat)
    requires 0 < |l| <= w
    ensures Debt(l[..|l| - 1], t, w - 1) <= Debt(l, t, w)
  {
    if |l| > 1 {
      assert l[..|l| - 1][1..] == l[1..][..|l| - 2];
      DebtPrefix(l[1..], t, w - 1);
    }
  }

  /** Taking out a key the policy holds and moving those before it down. */
  lemma {:induction false} DebtRemove(l: seq<Str>, i: nat, t: set<Str>, w: nat)
    requires i < |l| <= w && l[i] in t
    ensures Debt(RemoveAt(l, i), t, w - 1) <= Debt(l, t, w)
  {
    if i > 0 { DebtRemove(l[1..], i - 1, t, w - 1); }
  }

  /** Losing the last key of a list with one the policy lacks, and moving all down. */
  lemma {:induction false} DebtDrop(l: seq<Str>, j: nat, t: set<Str>, w: nat)
    requires j < |l| <= w && l[j] !in t
    ensures Debt(l[..|l| - 1], t, w - 1) < Debt(l, t, w)
  {
    if j == 0 {
      if |l| > 1 {
        assert l[..|l| - 1][1..] == l[1..][..|l| - 2];
        DebtPrefix(l[1..], t, w - 1);
      }
    } else {
      assert l[..|l| - 1][1..] == l[1..][..|l| - 2];
      DebtDrop(l[1..], j - 1, t, w - 1);
    }
  }

  lemma {:induction false} DebtMore(l: seq<Str>, t: set<Str>, u: set<Str>, w: nat)
    requires |l| <= w && forall x <- l :: x in t ==> x in u
    ensures Debt(l, u, w) <= Debt(l, t, w)
  {
    if l != [] {
      assert l[0] in l && forall x <- l[1..] :: x in l;
      DebtMore(l[1..], t, u, w - 1);
    }
  }

  /** A policy that gives up one key falls behind by at most the weight of one place. */
  lemma {:induction false} DebtSwap(l: seq<Str>, t: set<Str>, u: set<Str>, y: Str, w: nat)
    requires NoRepeats(l) && |l| <= w && t - {y} <= u
    ensures Debt(l, u, w) <= Debt(l, t, w) + w
  {
    if l != [] {
      var rest := l[1..];
      assert NoRepeats(rest);
      if l[0] == y {
        forall x <- rest ensures x != y {
          var j :| 0 <= j < |rest| && rest[j] == x;
          assert l[j + 1] == x;
        }
        DebtMore(rest, t, u, w - 1);
      } else {
        DebtSwap(rest, t, u, y, w - 1);
      }
    }
  }

  // ---------------------------------------------------------------- one lookup

  /**
   A policy that only gives up a key to make room for a missing one does as
   well as one that may give up any: from `t`, holding at least `s`, it goes
   on to hold at least `s'`.
   */
  lemma Lazy(t: set<Str>, s: set<Str>, s': set<Str>, x: Str, k: nat) returns (u: set<Str>, y: Str)
    requires s <= t && |t| <= k && |s'| <= k && x in s' && s' <= s + {x}
    ensures s' <= u && |u| <= k && x in u
    ensures x in t ==> u == t
    ensures t - {y} <= u <= t + {x}
  {
    u, y := t + {x}, x;
    if x !in t && |t| == k {
      if t <= s' { SubsetCount(t, s'); }
      y :| y in t && y !in s';
      u := t - {y} + {x};
    }
  }

  /** A full list without `x` has a key that a policy holding `x` in as many places lacks. */
  lemma SomeLacking(l: seq<Str>, t: set<Str>, x: Str) returns (j: nat)
    requires NoRepeats(l) && |t| <= |l| && x in t && x !in l
    ensures j < |l| && l[j] !in t
  {
    MembersCount(l);
    if Members(l) <= t { SubsetCount(Members(l), t); }
    var y :| y in Members(l) && y !in t;
    j :| 0 <= j < |l| && l[j] == y;
  }

  lemma TouchedKeeps(l: seq<Str>, k: nat, x: Str)
    requires NoRepeats(l) && |l| <= k && k > 0
    ensures NoRepeats(Touched(l, k, x)) && |Touched(l, k, x)| <= k
  {
    hide KeyPos, RemoveAt;
    var i := KeyPos(l, x);
    if i < |l| {
      var r := RemoveAt(l, i);
      assert forall j :: 0 <= j < |r| ==> r[j] == l[if j < i then j else j + 1];
    }
  }

  /** A lookup of a key the policy holds: a hit owes nothing, and a miss pays for itself or fills a place. */
  lemma TouchPays(l: seq<Str>, t: set<Str>, x: Str, k: nat)
    requires NoRepeats(l) && |l| <= k && k > 0 && x in t && |t| <= k
    ensures |Touched(l, k, x)| <= k
    ensures (if x in l then 0 else 1) + Debt(Touched(l, k, x), t, k) + |l| <= Debt(l, t, k) + |Touched(l, k, x)|
  {
    hide KeyPos, RemoveAt;
    var i := KeyPos(l, x);
    var m := Touched(l, k, x);
    if i < |l| {
      DebtRemove(l, i, t, k);
      assert m[1..] == RemoveAt(l, i);
    } else if |l| < k {
      DebtLighter(l, t, k);
      assert m[1..] == l;
    } else {
      var j := SomeLacking(l, t, x);
      DebtDrop(l, j, t, k);
      assert m[1..] == l[..|l| - 1];
    }
  }

  // --------------------------------------------------------------- whole traces

  /** Against a lazy policy at least as good as the given one: the misses and the debt are paid by its faults. */
  lemma {:induction false} Competes(c: State, asks: seq<Ask>, held: seq<set<Str>>) returns (t: set<Str>)
    requires Lasting(c) && c.entries == [] && Policy(asks, held, c.capacity)
    requires forall i :: 0 <= i < |asks| ==> |asks[i].key| < KEY_BUFFER
    ensures var r := AskAll(c, asks);
            && Lasting(r) && r.capacity == c.capacity && |t| <= c.capacity && held[|asks|] <= t
            && r.misses + Debt(Keys(r.entries), t, c.capacity)
               <= c.misses + c.capacity * Faults(asks, held) + |r.entries|
  {
    hide Touched, Asked, NoRepeats, Keys;
    var k := c.capacity;
    if asks == [] {
      t := held[0];
      NothingOwed(c, t);
    } else {
      var n := |asks| - 1;
      var a := asks[n];
      hide Policy, Faults;
      PolicyBefore(asks, held, k);
      var u := Competes(c, asks[..n], held[..n + 1]);
      var before := AskAll(c, asks[..n]);
      var y;
      t, y := Lazy(u, held[n], held[n + 1], a.key, k);
      var l := Keys(before.entries);
      OneMore(l, u, t, a.key, y, k, Faults(asks[..n], held[..n + 1]), if a.key in held[n] then 0 else 1);
      AskTouches(before, a);
      TouchedKeeps(l, k, a.key);
    }
  }

  lemma NothingOwed(c: State, t: set<Str>)
    requires c.entries == [] && c.capacity > 0
    ensures Keys(c.entries) == [] && Debt([], t, c.capacity) == 0
  {
  }

  lemma PolicyBefore(asks: seq<Ask>, held: seq<set<Str>>, k: nat)
    requires asks != [] && Policy(asks, held, k)
    ensures var n := |asks| - 1;
            && Policy(asks[..n], held[..n + 1], k) && held[..n + 1][n] == held[n]
            && |held[n + 1]| <= k && asks[n].key in held[n + 1] && held[n + 1] <= held[n] + {asks[n].key}
            && Faults(asks, held) == Faults(asks[..n], held[..n + 1]) + if asks[n].key in held[n] then 0 else 1
  {
    var n := |asks| - 1;
    assert forall i :: 0 <= i < n ==> asks[..n][i] == asks[i];
  }

  lemma OneMore(l: seq<Str>, u: set<Str>, t: set<Str>, x: Str, y: Str, k: nat, faults: nat, fault: nat)
    requires NoRepeats(l) && |l| <= k && k > 0 && x in t && |t| <= k && u - {y} <= t && (x in u ==> t == u)
    requires fault <= 1 && (fault == 0 ==> x in u)
    ensures |Touched(l, k, x)| <= k
    ensures (if x in l then 0 else 1) + Debt(Touched(l, k, x), t, k) + |l|
            <= Debt(l, u, k) + k * (faults + fault) - k * faults + |Touched(l, k, x)|
  {
    TouchPays(l, t, x, k);
    if fault == 1 { DebtSwap(l, u, t, y, k); }
  }

  /**
   On lookups of keys that fit, with nothing expiring, an empty cache of `k`
   places misses at most `k` times as often as any policy with as many, and
   `k` times more.
   */
  lemma LruIsCompetitive(capacity: int, asks: seq<Ask>, held: seq<set<Str>>)
    requires forall i :: 0 <= i < |asks| ==> |asks[i].key| < KEY_BUFFER
    requires Policy(asks, held, Init(capacity, 0).capacity)
    ensures var k := Init(capacity, 0).capacity;
            AskAll(Init(capacity, 0), asks).misses <= k * Faults(asks, held) + k
  {
    var c := Init(capacity, 0);
    assert Keys(c.entries) == [];
    var t := Competes(c, asks, held);
  }

  // ------------------------------------------------------- no smaller factor

  /** An online rule: what it holds is a function of the keys asked for so far. */
  type Rule = seq<Str> -> set<Str>

  function AsksOf(keys: seq<Str>): (asks: seq<Ask>)
    ensures |asks| == |keys| && forall i :: 0 <= i < |keys| ==> asks[i] == Ask(keys[i], [], 0)
  {
    if keys == [] then [] else AsksOf(keys[..|keys| - 1]) + [Ask(keys[|keys| - 1], [], 0)]
  }

  /** One of more names than the rule holds is always missing: asked for, it is a miss each time. */
  lemma {:induction false} Adversary(rule: Rule, names: seq<Str>, n: nat) returns (keys: seq<Str>)
    requires NoRepeats(names) && forall h :: |rule(h)| < |names|
    ensures |keys| == n && (forall i :: 0 <= i < n ==> keys[i] in names)
    ensures forall i :: 0 <= i < n ==> keys[i] !in rule(keys[..i])
  {
    if n == 0 {
      keys := [];
    } else {
      var before := Adversary(rule, names, n - 1);
      MembersCount(names);
      if Members(names) <= rule(before) { SubsetCount(Members(names), rule(before)); }
      var x :| x in Members(names) && x !in rule(before);
      keys := before + [x];
      forall i | 0 <= i < n ensures keys[i] !in rule(keys[..i]) {
        assert keys[..i] == before[..i];
        assert before[..n - 1] == before;
      }
    }
  }

  /** Of the names but `x`, the one asked for last of all. */
  lemma {:induction false} Furthest(names: seq<Str>, x: Str, keys: seq<Str>) returns (y: Str)
    requires exists z :: z in names && z != x
    ensures y in names && y != x && forall z :: z in names && z != x ==> KeyPos(keys, z) <= KeyPos(keys, y)
  {
    var n := |names| - 1;
    var rest := names[..n];
    assert names == rest + [names[n]];
    if z :| z in rest && z != x {
      y := Furthest(rest, x, keys);
      if names[n] != x && KeyPos(keys, names[n]) > KeyPos(keys, y) { y := names[n]; }
    } else {
      y := names[n];
    }
  }

  /** Before a name that is asked for last of all but `x`, all others but `x` have been. */
  lemma LastIsFar(names: seq<Str>, x: Str, keys: seq<Str>, y: Str)
    requires NoRepeats(names) && x in names && KeyPos(keys, y) < |keys|
    requires forall z :: z in names && z != x ==> KeyPos(keys, z) <= KeyPos(keys, y)
    ensures KeyPos(keys, y) >= |names| - 2
  {
    hide KeyPos;
    var d := KeyPos(keys, y);
    var head := keys[..d + 1];
    forall z | z in Members(names) - {x} ensures z in Members(head) {
      assert head[KeyPos(keys, z)] == z;
    }
    MembersCount(names);
    MembersCount(head);
    SubsetCount(Members(names) - {x}, Members(head));
  }

  lemma KeyPosStep(keys: seq<Str>, x: Str)
    requires keys != []
    ensures KeyPos(keys, x) == if keys[0] == x then 0 else 1 + KeyPos(keys[1..], x)
  {
  }

  lemma {:induction false} FaultsFirst(a: Ask, asks: seq<Ask>, t: set<Str>, held: seq<set<Str>>)
    requires |held| == |asks| + 1
    ensures Faults([a] + asks, [t] + held) == (if a.key in t then 0 else 1) + Faults(asks, held)
  {
    var all, sets := [a] + asks, [t] + held;
    if asks == [] {
      assert all[..0] == [];
      assert Faults(all[..0], sets[..1]) == 0;
    } else {
      var n := |asks| - 1;
      FaultsFirst(a, asks[..n], t, held[..n + 1]);
      assert all[..n + 1] == [a] + asks[..n] && sets[..n + 2] == [t] + held[..n + 1];
    }
  }

  /** A policy may start with any keys from which its next ones can be had. */
  lemma PolicyFirst(x: Str, later: seq<Str>, t: set<Str>, held: seq<set<Str>>, k: nat)
    requires Policy(AsksOf(later), held, k) && |t| <= k && x in held[0] && held[0] <= t + {x}
    ensures var asks := AsksOf([x] + later);
            && Policy(asks, [t] + held, k)
            && Faults(asks, [t] + held) == (if x in t then 0 else 1) + Faults(AsksOf(later), held)
  {
    hide Faults;
    var a := Ask(x, [], 0);
    assert AsksOf([x] + later) == [a] + AsksOf(later);
    FaultsFirst(a, AsksOf(later), t, held);
  }

  lemma NoAsks(t: set<Str>, k: nat)
    requires |t| <= k
    ensures AsksOf([]) == [] && Policy([], [t], k) && Faults([], [t]) == 0
  {
  }

  lemma Products(k: nat, f: nat)
    ensures k * (1 + f) == k + k * f && k * (0 + f) == k * f
  {
  }

  /** Which name to be without after the first ask: a missing one makes room for itself. */
  lemma NextHole(names: seq<Str>, keys: seq<Str>, hole: Str) returns (next: Str)
    requires NoRepeats(names) && |names| >= 2 && hole in names && keys != [] && keys[0] in names
    ensures next in names && next != keys[0]
    ensures Members(names) - {next} <= Members(names) - {hole} + {keys[0]}
    ensures keys[0] == hole ==> KeyPos(keys, hole) == 0
                                && (KeyPos(keys[1..], next) == |keys| - 1 || KeyPos(keys[1..], next) >= |names| - 2)
    ensures keys[0] != hole ==> next == hole && KeyPos(keys, hole) == 1 + KeyPos(keys[1..], hole)
  {
    KeyPosStep(keys, hole);
    hide KeyPos;
    next := hole;
    if keys[0] == hole {
      assert names[0] != names[1] && names[0] in names && names[1] in names;
      next := Furthest(names, hole, keys[1..]);
      if KeyPos(keys[1..], next) < |keys| - 1 { LastIsFar(names, hole, keys[1..], next); }
    }
  }

  lemma AllButOne(names: seq<Str>, x: Str)
    requires NoRepeats(names) && x in names
    ensures |Members(names) - {x}| == |names| - 1 && forall y :: y in names && y != x ==> y in Members(names) - {x}
  {
    MembersCount(names);
  }

  /**
   Knowing the future of asks for `k + 1` names: whenever the one missing is
   asked for, give up the one asked for last of all. At least `k - 1` asks go
   by between two misses.
   */
  lemma {:induction false} Foreseeing(names: seq<Str>, keys: seq<Str>, hole: Str) returns (held: seq<set<Str>>)
    requires NoRepeats(names) && |names| >= 2 && hole in names && forall i :: 0 <= i < |keys| ==> keys[i] in names
    ensures var k := |names| - 1;
            && |held| == |keys| + 1 && Policy(AsksOf(keys), held, k) && held[0] == Members(names) - {hole}
            && k * Faults(AsksOf(keys), held) <= |keys| - KeyPos(keys, hole) + k - 1
            && (KeyPos(keys, hole) == |keys| ==> Faults(AsksOf(keys), held) == 0)
    decreases |keys|
  {
    hide Faults, Policy, KeyPos, Members, AsksOf, NoRepeats;
    var k := |names| - 1;
    var t := Members(names) - {hole};
    AllButOne(names, hole);
    if keys == [] {
      held := [t];
      NoAsks(t, k);
    } else {
      var later := keys[1..];
      var next := NextHole(names, keys, hole);
      var after := Foreseeing(names, later, next);
      AllButOne(names, next);
      assert [keys[0]] + later == keys;
      PolicyFirst(keys[0], later, t, after, k);
      Products(k, Faults(AsksOf(later), after));
      held := [t] + after;
    }
  }

  /**
   No deterministic online rule does better than the factor `k`: for every
   rule holding at most `k` keys there are asks of any length, for `k + 1`
   names, all of which it misses, and a policy that misses once in `k`.
   */
  lemma NoRuleBeatsK(rule: Rule, names: seq<Str>, n: nat) returns (keys: seq<Str>, held: seq<set<Str>>)
    requires NoRepeats(names) && |names| >= 2 && forall h :: |rule(h)| < |names|
    ensures |keys| == n && (forall i :: 0 <= i < n ==> keys[i] in names)
    ensures forall i :: 0 <= i < n ==> keys[i] !in rule(keys[..i])
    ensures var k := |names| - 1;
            Policy(AsksOf(keys), held, k) && k * Faults(AsksOf(keys), held) - k < n
  {
    keys := Adversary(rule, names, n);
    held := Foreseeing(names, keys, names[0]);
  }

  /** What the cache holds after these asks. */
  ghost function LruHolds(k: nat, keys: seq<Str>): set<Str> {
    Members(Keys(AskAll(Init(k, 0), AsksOf(keys)).entries))
  }

  lemma {:induction false} AskAllWellFormed(k: nat, asks: seq<Ask>)
    requires k > 0
    ensures var c := AskAll(Init(k, 0), asks); WellFormed(c) && c.capacity == k
  {
    hide WellFormed, Get, Put;
    if asks == [] {
      assert WellFormed(Init(k, 0)) by { EmptyWellFormed(k); }
    } else {
      var n := |asks| - 1;
      var c, a := AskAll(Init(k, 0), asks[..n]), asks[n];
      AskAllWellFormed(k, asks[..n]);
      StepWellFormed(c, Event(OpGet(a.key), a.now));
      StepWellFormed(Get(c, a.key, a.now).0, Event(OpPut(a.key, a.value, 0), a.now));
    }
  }

  lemma EmptyWellFormed(k: nat)
    requires k > 0
    ensures WellFormed(Init(k, 0))
  {
  }

  /** Asks none of which it holds are all misses. */
  lemma {:induction false} AllMissed(k: nat, keys: seq<Str>)
    requires k > 0 && forall i :: 0 <= i < |keys| ==> |keys[i]| < KEY_BUFFER && keys[i] !in LruHolds(k, keys[..i])
    ensures var c := AskAll(Init(k, 0), AsksOf(keys)); Lasting(c) && c.capacity == k && c.misses == |keys|
  {
    hide LruHolds, Asked, Keys, Touched, NoRepeats, AskAll, AsksOf;
    if keys == [] {
      NothingAsked(k);
    } else {
      var n := |keys| - 1;
      var before := keys[..n];
      forall i | 0 <= i < n ensures |before[i]| < KEY_BUFFER && before[i] !in LruHolds(k, before[..i]) {
        assert before[..i] == keys[..i];
      }
      AllMissed(k, before);
      var c := AskAll(Init(k, 0), AsksOf(before));
      OneMoreAsk(Init(k, 0), keys);
      NotHeld(k, before, keys[n]);
      AskTouches(c, Ask(keys[n], [], 0));
      TouchedKeeps(Keys(c.entries), k, keys[n]);
    }
  }

  lemma NothingAsked(k: nat)
    requires k > 0
    ensures var c := AskAll(Init(k, 0), AsksOf([])); Lasting(c) && c.capacity == k && c.misses == 0
  {
  }

  lemma OneMoreAsk(c: State, keys: seq<Str>)
    requires keys != []
    ensures var n := |keys| - 1;
            AskAll(c, AsksOf(keys)) == Asked(AskAll(c, AsksOf(keys[..n])), Ask(keys[n], [], 0))
  {
    hide Asked;
    var n := |keys| - 1;
    assert AsksOf(keys)[..n] == AsksOf(keys[..n]);
  }

  lemma NotHeld(k: nat, keys: seq<Str>, x: Str)
    requires x !in LruHolds(k, keys)
    ensures x !in Keys(AskAll(Init(k, 0), AsksOf(keys)).entries)
  {
  }

  /** So the factor is exact: traces of any length reach it but for less than `k` misses. */
  lemma FactorIsReached(names: seq<Str>, n: nat) returns (asks: seq<Ask>, held: seq<set<Str>>)
    requires NoRepeats(names) && |names| >= 2 && forall x <- names :: |x| < KEY_BUFFER
    ensures var k := |names| - 1;
            && |asks| == n && Policy(asks, held, k)
            && k * Faults(asks, held) - k < AskAll(Init(k, 0), asks).misses == n
  {
    var k := |names| - 1;
    forall h ensures |LruHolds(k, h)| <= k {
      AskAllWellFormed(k, AsksOf(h));
      MembersCount(Keys(AskAll(Init(k, 0), AsksOf(h)).entries));
    }
    hide LruHolds, Policy, Faults;
    var keys;
    keys, held := NoRuleBeatsK(h => LruHolds(k, h), names, n);
    forall i | 0 <= i < n ensures |keys[i]| < KEY_BUFFER && keys[i] !in LruHolds(k, keys[..i]) {
      assert keys[i] in names;
    }
    AllMissed(k, keys);
    asks := AsksOf(keys);
  }
}
