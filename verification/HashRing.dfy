/**
 The consistent-hash ring. A physical node holds `virtualCount` points on a
 circle of 2^32 positions, and a key belongs to the node that holds the first
 point at or clockwise after the key's position.
 */
module HashRing {
  import opened CStrings
  import opened Sequences
  import opened Words

  const CIRCLE: nat := W32
  const NODE_BUFFER: nat := 128
  const DEFAULT_VIRTUAL: int := 150
  const MAX_VIRTUAL: int := 4096

  // --------------------------------------------------------------- hashing

  function Mix32(h0: nat): (h: nat)
    ensures h < CIRCLE
  {
    var h1 := Xor32(h0, h0 / 0x1_0000);
    var h2 := h1 * 0x85ebca6b % W32;
    var h3 := Xor32(h2, h2 / 0x2000);
    var h4 := h3 * 0xc2b2ae35 % W32;
    Xor32(h4, h4 / 0x1_0000)
  }

  function Fnv32(h: nat, key: Str): nat
    decreases |key|
  {
    if key == [] then h else Fnv32(Xor32(h, key[0]) * 0x01000193 % W32, key[1..])
  }

  function HashKey(key: Str): (h: nat)
    ensures h < CIRCLE
  {
    Mix32(Fnv32(0x811c9dc5, key))
  }

  type Position = x: nat | x < CIRCLE

  /** The position of replica `v` of the node called `name`. */
  function PointHash(name: Str, v: nat): Position {
    Mix32(Xor32(HashKey(name), v * 0x9e3779b9 % W32))
  }

  lemma ShiftsAre(h: nat)
    requires h < W32
    ensures h / 0x1_0000 == Shr(h, 16) && h / 0x2000 == Shr(h, 13)
  {
    assert Pow2(13) == 0x2000 && Pow2(16) == 0x1_0000;
    ShrIs(h, 16, h / 0x1_0000);
    ShrIs(h, 13, h / 0x2000);
  }

  lemma Fold(a: nat, b: nat)
    requires a < W32 && b < W32
    ensures Xor32(a, a / 0x1_0000) == Xor32(b, b / 0x1_0000) ==> a == b
    ensures Xor32(a, a / 0x2000) == Xor32(b, b / 0x2000) ==> a == b
  {
    hide Xor, Shr, Pow2;
    Pow32();
    ShiftsAre(a);
    ShiftsAre(b);
    if Xor32(a, a / 0x1_0000) == Xor32(b, b / 0x1_0000) { FoldInjective(32, a, b, 16); }
    if Xor32(a, a / 0x2000) == Xor32(b, b / 0x2000) { FoldInjective(32, a, b, 13); }
  }

  /** The last stirring of the bits loses none of them. */
  lemma MixInjective(a: nat, b: nat)
    requires a < W32 && b < W32 && Mix32(a) == Mix32(b)
    ensures a == b
  {
    hide Xor32;
    var a1, b1 := Xor32(a, a / 0x1_0000), Xor32(b, b / 0x1_0000);
    var a2, b2 := a1 * 0x85ebca6b % W32, b1 * 0x85ebca6b % W32;
    var a3, b3 := Xor32(a2, a2 / 0x2000), Xor32(b2, b2 / 0x2000);
    var a4, b4 := a3 * 0xc2b2ae35 % W32, b3 * 0xc2b2ae35 % W32;
    Fold(a4, b4);
    ProductInjective(0xc2b2ae35, 2127672349, 1618177690, a3, b3);
    Fold(a2, b2);
    ProductInjective(0x85ebca6b, 2781581891, 1455126516, a1, b1);
    Fold(a, b);
  }

  /** The replicas of one node never share a position. */
  lemma ReplicasDiffer(name: Str, u: nat, v: nat)
    requires u < W32 && v < W32 && PointHash(name, u) == PointHash(name, v)
    ensures u == v
  {
    hide Mix32, HashKey, Xor, Pow2;
    var h := HashKey(name);
    var a, b := u * 0x9e3779b9 % W32, v * 0x9e3779b9 % W32;
    MixInjective(Xor32(h, a), Xor32(h, b));
    Pow32();
    XorInjective(32, h, a, b);
    ProductInjective(0x9e3779b9, 340573321, 210485888, u, v);
  }

  lemma Fnv32Step(g: nat, h: nat, a: byte, b: byte)
    requires g < W32 && h < W32 && Xor32(g, a) * 0x01000193 % W32 == Xor32(h, b) * 0x01000193 % W32
    ensures a == b ==> g == h
    ensures g == h ==> a == b
  {
    hide Xor, Pow2;
    Pow32();
    ProductInjective(0x01000193, 899433627, 3513497, Xor32(g, a), Xor32(h, b));
    if a == b {
      XorCommutes(32, g, a);
      XorCommutes(32, h, a);
      XorInjective(32, a, g, h);
    }
    if g == h { XorInjective(32, g, a, b); }
  }

  lemma {:induction false} Fnv32Injective(g: nat, h: nat, key: Str)
    requires g < W32 && h < W32 && Fnv32(g, key) == Fnv32(h, key)
    ensures g == h
    decreases |key|
  {
    hide Xor32;
    if key != [] {
      Fnv32Injective(Xor32(g, key[0]) * 0x01000193 % W32, Xor32(h, key[0]) * 0x01000193 % W32, key[1..]);
      Fnv32Step(g, h, key[0], key[0]);
    }
  }

  lemma {:induction false} Fnv32Apart(h: nat, s: Str, t: Str, k: nat)
    requires h < W32 && ApartAt(s, t, k)
    ensures Fnv32(h, s) != Fnv32(h, t)
    decreases |s|
  {
    hide Xor32;
    var g := Xor32(h, s[0]) * 0x01000193 % W32;
    if k > 0 {
      Fnv32Apart(g, s[1..], t[1..], k - 1);
    } else {
      assert s[1..] == t[1..];
      var g' := Xor32(h, t[0]) * 0x01000193 % W32;
      if Fnv32(g, s[1..]) == Fnv32(g', t[1..]) {
        Fnv32Injective(g, g', s[1..]);
        Fnv32Step(h, h, s[0], t[0]);
      }
    }
  }

  lemma {:induction false} Fnv32Fits(h: nat, key: Str)
    requires h < W32
    ensures Fnv32(h, key) < W32
    decreases |key|
  {
    hide Xor32;
    if key != [] { Fnv32Fits(Xor32(h, key[0]) * 0x01000193 % W32, key[1..]); }
  }

  /** A key with one byte changed has another position. */
  lemma OneByteMovesKey(s: Str, t: Str)
    requires OneByteApart(s, t)
    ensures HashKey(s) != HashKey(t)
  {
    hide Mix32, Fnv32;
    var k: nat :| ApartAt(s, t, k);
    Fnv32Apart(0x811c9dc5, s, t, k);
    Fnv32Fits(0x811c9dc5, s);
    Fnv32Fits(0x811c9dc5, t);
    if HashKey(s) == HashKey(t) { MixInjective(Fnv32(0x811c9dc5, s), Fnv32(0x811c9dc5, t)); }
  }

  // ------------------------------------------------- who owns a position

  /** Where the points of a node go: `count` of them, by any function of its name. */
  datatype Rule = Rule(count: nat, point: (Str, nat) -> Position)

  /** How far clockwise position `x` lies from position `h`. */
  function Distance(h: nat, x: nat): nat
    requires h < CIRCLE && x < CIRCLE
  {
    if x >= h then x - h else x + CIRCLE - h
  }

  /** Node `name` holds a point at position `x`. */
  ghost predicate Holds(name: Str, rule: Rule, x: nat) {
    exists v: nat :: v < rule.count && rule.point(name, v) == x
  }

  /** `name` holds a point at `x`, and no point of the ring is closer to `h`. */
  ghost predicate Closest(names: seq<Str>, rule: Rule, h: nat, name: Str, x: nat)
    requires h < CIRCLE
  {
    && name in names && Holds(name, rule, x) && x < CIRCLE
    && forall m, v: nat :: m in names && v < rule.count ==> Distance(h, x) <= Distance(h, rule.point(m, v))
  }

  /** The rule of the ring, stated without any array. */
  ghost predicate Owns(names: seq<Str>, rule: Rule, h: nat, name: Str)
    requires h < CIRCLE
  {
    exists x :: Closest(names, rule, h, name, x)
  }

  /** No two nodes of the ring hold a point at the same position. */
  ghost predicate NoCollision(names: seq<Str>, rule: Rule) {
    forall a, b, u: nat, v: nat ::
      a in names && b in names && u < rule.count && v < rule.count && rule.point(a, u) == rule.point(b, v) ==> a == b
  }

  lemma SameDistance(h: nat, x: nat, y: nat)
    requires h < CIRCLE && x < CIRCLE && y < CIRCLE && Distance(h, x) == Distance(h, y)
    ensures x == y
  {
  }

  lemma OwnerUnique(names: seq<Str>, rule: Rule, h: nat, a: Str, b: Str)
    requires h < CIRCLE && NoCollision(names, rule)
    requires Owns(names, rule, h, a) && Owns(names, rule, h, b)
    ensures a == b
  {
    var x :| Closest(names, rule, h, a, x);
    var y :| Closest(names, rule, h, b, y);
    var u: nat :| u < rule.count && rule.point(a, u) == x;
    var v: nat :| v < rule.count && rule.point(b, v) == y;
    assert Distance(h, x) == Distance(h, y);
    SameDistance(h, x, y);
  }

  /** Positions have one owner each exactly when no two nodes collide. */
  lemma OneOwnerIffNoCollision(names: seq<Str>, rule: Rule)
    ensures NoCollision(names, rule)
            <==> forall h, a, b :: 0 <= h < CIRCLE && Owns(names, rule, h, a) && Owns(names, rule, h, b) ==> a == b
  {
    if NoCollision(names, rule) {
      forall h, a, b | 0 <= h < CIRCLE && Owns(names, rule, h, a) && Owns(names, rule, h, b) ensures a == b {
        OwnerUnique(names, rule, h, a, b);
      }
    } else {
      var a, b, u: nat, v: nat :|
        a in names && b in names && u < rule.count && v < rule.count && rule.point(a, u) == rule.point(b, v) && a != b;
      var h := rule.point(a, u);
      assert Closest(names, rule, h, a, h) && Closest(names, rule, h, b, h);
      assert Owns(names, rule, h, a) && Owns(names, rule, h, b);
    }
  }

  /**
   Minimal movement when a node joins: whoever owns a position afterwards is
   the new node or owned it before; without a collision among the nodes that
   were there, an owner that is not the new node is the same owner.
   */
  lemma MovementOnAdd(names: seq<Str>, rule: Rule, added: Str, h: nat, after: Str, before: Str)
    requires h < CIRCLE
    requires Owns(names + [added], rule, h, after) && after != added
    ensures Owns(names, rule, h, after)
    ensures NoCollision(names, rule) && Owns(names, rule, h, before) ==> after == before
  {
    var x :| Closest(names + [added], rule, h, after, x);
    forall m, v: nat | m in names && v < rule.count ensures Distance(h, x) <= Distance(h, rule.point(m, v)) {
      assert m in names + [added];
    }
    assert Closest(names, rule, h, after, x);
    if NoCollision(names, rule) && Owns(names, rule, h, before) {
      OwnerUnique(names, rule, h, after, before);
    }
  }

  /**
   Minimal movement when a node leaves: an owner that stays still owns what
   it owned, so only positions of the removed node change hands.
   */
  lemma MovementOnRemove(names: seq<Str>, rule: Rule, i: nat, h: nat, before: Str, after: Str)
    requires h < CIRCLE && i < |names|
    requires Owns(names, rule, h, before) && before != names[i]
    ensures Owns(RemoveAt(names, i), rule, h, before)
    ensures NoCollision(RemoveAt(names, i), rule) && Owns(RemoveAt(names, i), rule, h, after) ==> after == before
  {
    var rest := RemoveAt(names, i);
    var x :| Closest(names, rule, h, before, x);
    RemovedMembers(names, i, before);
    forall m, v: nat | m in rest && v < rule.count ensures Distance(h, x) <= Distance(h, rule.point(m, v)) {
      assert m in names;
    }
    assert Closest(rest, rule, h, before, x);
    if NoCollision(rest, rule) && Owns(rest, rule, h, after) {
      OwnerUnique(rest, rule, h, after, before);
    }
  }

  lemma RemovedMembers(names: seq<Str>, i: nat, m: Str)
    requires i < |names| && m in names && m != names[i]
    ensures m in RemoveAt(names, i)
  {
    hide RemoveAt;
    var j :| 0 <= j < |names| && names[j] == m;
    assert RemoveAt(names, i)[if j < i then j else j - 1] == m;
  }

  // ------------------------------------------------------- the vnode array

  datatype VNode = VNode(hash: nat, idx: nat)

  predicate Sorted(s: seq<VNode>) {
    forall i, j :: 0 <= i < j < |s| ==> s[i].hash <= s[j].hash
  }

  /** The points of node number `idx`, in replica order. */
  function NodePoints(name: Str, idx: nat, rule: Rule): (s: seq<VNode>)
    ensures |s| == rule.count
    ensures forall v :: 0 <= v < rule.count ==> s[v] == VNode(rule.point(name, v), idx)
    decreases rule.count
  {
    if rule.count == 0 then []
    else NodePoints(name, idx, rule.(count := rule.count - 1)) + [VNode(rule.point(name, rule.count - 1), idx)]
  }

  /** The points of all nodes, before sorting. */
  function AllPoints(names: seq<Str>, rule: Rule): seq<VNode> {
    if names == [] then []
    else
      var n := |names| - 1;
      AllPoints(names[..n], rule) + NodePoints(names[n], n, rule)
  }

  lemma AllPointsAppend(names: seq<Str>, name: Str, rule: Rule, s: seq<VNode>)
    requires multiset(s) == multiset(AllPoints(names, rule))
    ensures multiset(s + NodePoints(name, |names|, rule)) == multiset(AllPoints(names + [name], rule))
  {
    assert (names + [name])[..|names|] == names;
  }

  lemma {:induction false} PointsAreHeld(names: seq<Str>, rule: Rule, p: VNode)
    ensures p in AllPoints(names, rule)
            <==> p.idx < |names| && exists v: nat :: v < rule.count && rule.point(names[p.idx], v) == p.hash
  {
    if names != [] {
      var n := |names| - 1;
      PointsAreHeld(names[..n], rule, p);
      var last := NodePoints(names[n], n, rule);
      if p.idx == n {
        assert forall v :: 0 <= v < rule.count ==> last[v] == VNode(rule.point(names[n], v), n);
        if v: nat :| v < rule.count && rule.point(names[n], v) == p.hash {
          assert last[v] == p;
        }
      } else {
        assert p !in last;
        if p.idx < n { assert names[..n][p.idx] == names[p.idx]; }
      }
    }
  }

  /** First position whose hash is at least `h`, or the length. */
  ghost predicate LowerBound(s: seq<VNode>, h: nat, i: nat) {
    && i <= |s|
    && (forall j :: 0 <= j < i ==> s[j].hash < h)
    && (forall j :: i <= j < |s| ==> s[j].hash >= h)
  }

  /** An array the ring may hold: the points of its nodes, sorted by hash. */
  ghost predicate Consistent(names: seq<Str>, rule: Rule, s: seq<VNode>) {
    Sorted(s) && multiset(s) == multiset(AllPoints(names, rule))
  }

  /** The slot a lookup ends at. */
  function Slot(s: seq<VNode>, lower: nat): nat {
    if lower >= |s| then 0 else lower
  }

  lemma InArray(names: seq<Str>, rule: Rule, s: seq<VNode>, p: VNode)
    requires Consistent(names, rule, s)
    ensures p in s <==> p.idx < |names| && exists v: nat :: v < rule.count && rule.point(names[p.idx], v) == p.hash
  {
    hide AllPoints;
    PointsAreHeld(names, rule, p);
    assert p in s <==> p in multiset(s);
    assert p in AllPoints(names, rule) <==> p in multiset(AllPoints(names, rule));
  }

  /** What a lookup finds is an owner by the rule of the ring. */
  lemma LookupOwns(names: seq<Str>, rule: Rule, s: seq<VNode>, h: nat, lower: nat)
    requires h < CIRCLE && Consistent(names, rule, s) && s != [] && LowerBound(s, h, lower)
    ensures var p := s[Slot(s, lower)];
            p.idx < |names| && p.hash < CIRCLE && Closest(names, rule, h, names[p.idx], p.hash)
  {
    hide AllPoints;
    var p := s[Slot(s, lower)];
    InArray(names, rule, s, p);
    forall m, v: nat | m in names && v < rule.count ensures Distance(h, p.hash) <= Distance(h, rule.point(m, v)) {
      var k :| 0 <= k < |names| && names[k] == m;
      var q := VNode(rule.point(m, v), k);
      InArray(names, rule, s, q);
      var j :| 0 <= j < |s| && s[j] == q;
      assert q.hash < CIRCLE;
    }
  }

  /**
   Every owner by the rule can be what a lookup finds: among points with one
   hash the sort may put any of them first.
   */
  lemma OwnerCanBeFound(names: seq<Str>, rule: Rule, s: seq<VNode>, h: nat, lower: nat, name: Str)
    returns (t: seq<VNode>)
    requires h < CIRCLE && Consistent(names, rule, s) && s != [] && LowerBound(s, h, lower)
    requires Owns(names, rule, h, name)
    ensures Consistent(names, rule, t) && |t| == |s| && LowerBound(t, h, lower)
    ensures var p := t[Slot(t, lower)]; p.idx < |names| && names[p.idx] == name
  {
    hide AllPoints, LowerBound;
    LookupOwns(names, rule, s, h, lower);
    var x :| Closest(names, rule, h, name, x);
    var v: nat :| v < rule.count && rule.point(name, v) == x;
    var k :| 0 <= k < |names| && names[k] == name;
    InArray(names, rule, s, VNode(x, k));
    var j :| 0 <= j < |s| && s[j] == VNode(x, k);
    var i := Slot(s, lower);
    SameDistance(h, s[i].hash, x);
    t := Swapped(s, i, j);
    SameBound(s, t, h, lower);
  }

  lemma SameBound(s: seq<VNode>, t: seq<VNode>, h: nat, lower: nat)
    requires |s| == |t| && (forall k :: 0 <= k < |s| ==> t[k].hash == s[k].hash) && LowerBound(s, h, lower)
    ensures LowerBound(t, h, lower)
  {
  }

  /** Exchanging two entries with one hash keeps a sorted array sorted. */
  function Swapped(s: seq<VNode>, i: nat, j: nat): (t: seq<VNode>)
    requires i < |s| && j < |s| && s[i].hash == s[j].hash
    ensures |t| == |s| && multiset(t) == multiset(s) && t[i] == s[j]
    ensures forall k :: 0 <= k < |s| ==> t[k].hash == s[k].hash
  {
    s[i := s[j]][j := s[i]]
  }

  /** Without collisions the sorted array is unique: it is what a rebuild gives. */
  lemma {:induction false} SortedUnique(s: seq<VNode>, t: seq<VNode>)
    requires Sorted(s) && Sorted(t) && multiset(s) == multiset(t)
    requires TiesEqual(s)
    ensures s == t
  {
    assert |multiset(s)| == |s| && |multiset(t)| == |t|;
    if s != [] {
      hide TiesEqual;
      SameHead(s, t);
      TiesTail(s);
      TailMultiset(s);
      TailMultiset(t);
      SortedUnique(s[1..], t[1..]);
      assert s == [s[0]] + s[1..] && t == [t[0]] + t[1..];
    }
  }

  ghost predicate TiesEqual(s: seq<VNode>) {
    forall i, j :: 0 <= i < j < |s| && s[i].hash == s[j].hash ==> s[i] == s[j]
  }

  lemma TiesTail(s: seq<VNode>)
    requires TiesEqual(s) && s != []
    ensures TiesEqual(s[1..])
  {
  }

  lemma TailMultiset(s: seq<VNode>)
    requires s != []
    ensures multiset(s[1..]) == multiset(s) - multiset{s[0]}
  {
    assert s == [s[0]] + s[1..];
  }

  lemma SameHead(s: seq<VNode>, t: seq<VNode>)
    requires s != [] && t != [] && Sorted(s) && Sorted(t) && multiset(s) == multiset(t)
    requires TiesEqual(s)
    ensures s[0] == t[0]
  {
    assert s[0] in multiset(s) && t[0] in multiset(t);
    assert s[0] in t && t[0] in s;
    var i :| 0 <= i < |t| && t[i] == s[0];
    var j :| 0 <= j < |s| && s[j] == t[0];
  }

  lemma ConsistentUnique(names: seq<Str>, rule: Rule, s: seq<VNode>, t: seq<VNode>)
    requires Consistent(names, rule, s) && Consistent(names, rule, t)
    requires NoCollision(names, rule) && NoRepeats(names)
    ensures s == t
  {
    hide AllPoints;
    forall i, j | 0 <= i < j < |s| && s[i].hash == s[j].hash ensures s[i] == s[j] {
      InArray(names, rule, s, s[i]);
      InArray(names, rule, s, s[j]);
    }
    SortedUnique(s, t);
  }

  // ------------------------------------------------- removal by compaction

  /** What is left of `s` when node `t` goes and later nodes move up one. */
  function Compact(t: nat, s: seq<VNode>): seq<VNode> {
    if s == [] then []
    else
      var n := |s| - 1;
      var p := s[n];
      if p.idx == t then Compact(t, s[..n])
      else Compact(t, s[..n]) + [Lowered(t, p)]
  }

  function Lowered(t: nat, p: VNode): VNode {
    if p.idx > t then VNode(p.hash, p.idx - 1) else p
  }

  function Renumbered(t: nat, p: VNode): VNode {
    if p.idx >= t then VNode(p.hash, p.idx + 1) else p
  }

  lemma LoweredIs(t: nat, x: VNode, p: VNode)
    ensures x.idx != t && Lowered(t, x) == p <==> x == Renumbered(t, p)
  {
  }

  lemma CompactSnoc(t: nat, s: seq<VNode>, x: VNode)
    ensures Compact(t, s + [x]) == Compact(t, s) + if x.idx == t then [] else [Lowered(t, x)]
  {
    assert (s + [x])[..|s|] == s;
  }

  lemma {:induction false} CompactCount(t: nat, s: seq<VNode>, p: VNode)
    ensures multiset(Compact(t, s))[p] == multiset(s)[Renumbered(t, p)]
  {
    if s != [] {
      var n := |s| - 1;
      CompactCount(t, s[..n], p);
      hide Compact, Lowered, Renumbered;
      assert s == s[..n] + [s[n]];
      CompactSnoc(t, s[..n], s[n]);
      LoweredIs(t, s[n], p);
      CountAppend(s[..n], s[n], Renumbered(t, p));
      CountAppend(Compact(t, s[..n]), Lowered(t, s[n]), p);
    }
  }

  lemma CountAppend<T>(s: seq<T>, x: T, p: T)
    ensures multiset(s + [x])[p] == multiset(s)[p] + if x == p then 1 else 0
  {
    assert multiset(s + [x]) == multiset(s) + multiset{x};
  }

  /** One step of compacting `s` in place, in `v`: the first `w` points are what is left of the first `i`. */
  lemma CompactStep(t: nat, s: seq<VNode>, v: seq<VNode>, w: nat, i: nat)
    requires w <= i < |s| == |v| && v[..w] == Compact(t, s[..i]) && v[i..] == s[i..]
    ensures v[i] == s[i] && v[i + 1..] == s[i + 1..]
    ensures s[i].idx == t ==> v[..w] == Compact(t, s[..i + 1])
    ensures s[i].idx != t ==>
              var p := Lowered(t, s[i]);
              v[i := p][w := p][..w + 1] == Compact(t, s[..i + 1]) && v[i := p][w := p][i + 1..] == s[i + 1..]
  {
    assert v[i] == v[i..][0] && v[i + 1..] == v[i..][1..] && s[i + 1..] == s[i..][1..];
    assert s[..i + 1][..i] == s[..i] && s[..i + 1][i] == s[i];
    hide Compact;
    if s[i].idx != t {
      var p := Lowered(t, s[i]);
      assert v[i := p][w := p][..w + 1] == v[..w] + [p];
      assert v[i := p][w := p][i + 1..] == v[i + 1..];
    }
  }

  lemma CompactPermutes(t: nat, s: seq<VNode>, u: seq<VNode>)
    requires multiset(s) == multiset(u)
    ensures multiset(Compact(t, s)) == multiset(Compact(t, u))
  {
    forall p ensures multiset(Compact(t, s))[p] == multiset(Compact(t, u))[p] {
      CompactCount(t, s, p);
      CompactCount(t, u, p);
    }
  }

  lemma {:induction false} CompactAppend(t: nat, s: seq<VNode>, u: seq<VNode>)
    ensures Compact(t, s + u) == Compact(t, s) + Compact(t, u)
  {
    if u == [] {
      assert s + u == s;
    } else {
      var n := |u| - 1;
      assert (s + u)[..|s + u| - 1] == s + u[..n];
      CompactAppend(t, s, u[..n]);
    }
  }

  lemma PointsStep(name: Str, idx: nat, rule: Rule)
    ensures rule.count == 0 ==> NodePoints(name, idx, rule) == []
    ensures rule.count > 0 ==>
              NodePoints(name, idx, rule)
              == NodePoints(name, idx, rule.(count := rule.count - 1)) + [VNode(rule.point(name, rule.count - 1), idx)]
  {
  }

  lemma {:induction false} CompactNode(t: nat, name: Str, idx: nat, rule: Rule)
    ensures Compact(t, NodePoints(name, idx, rule))
            == if idx == t then [] else NodePoints(name, if idx > t then idx - 1 else idx, rule)
    decreases rule.count
  {
    var idx' := if idx > t then idx - 1 else idx;
    PointsStep(name, idx, rule);
    PointsStep(name, idx', rule);
    if rule.count > 0 {
      hide Compact, NodePoints;
      var less := rule.(count := rule.count - 1);
      CompactNode(t, name, idx, less);
      CompactPoint(t, NodePoints(name, idx, less), rule.point(name, less.count), idx);
    }
  }

  lemma CompactPoint(t: nat, s: seq<VNode>, h: Position, idx: nat)
    ensures Compact(t, s + [VNode(h, idx)])
            == if idx == t then Compact(t, s) else Compact(t, s) + [VNode(h, if idx > t then idx - 1 else idx)]
  {
    CompactSnoc(t, s, VNode(h, idx));
    assert Compact(t, s) + [] == Compact(t, s);
  }

  /** Compacting the points of all nodes leaves the points of those that stay. */
  lemma {:induction false} CompactAll(names: seq<Str>, t: nat, rule: Rule)
    requires t < |names|
    ensures Compact(t, AllPoints(names, rule)) == AllPoints(RemoveAt(names, t), rule)
  {
    hide Compact, NodePoints, RemoveAt;
    var n := |names| - 1;
    CompactAppend(t, AllPoints(names[..n], rule), NodePoints(names[n], n, rule));
    CompactNode(t, names[n], n, rule);
    if t == n {
      CompactBelow(names[..n], t, rule);
      assert RemoveAt(names, t) == names[..n];
    } else {
      CompactAll(names[..n], t, rule);
      var rest := RemoveAt(names, t);
      assert rest[..n - 1] == RemoveAt(names[..n], t) && rest[n - 1] == names[n];
    }
  }

  lemma {:induction false} CompactBelow(names: seq<Str>, t: nat, rule: Rule)
    requires |names| <= t
    ensures Compact(t, AllPoints(names, rule)) == AllPoints(names, rule)
  {
    if names != [] {
      var n := |names| - 1;
      CompactBelow(names[..n], t, rule);
      CompactAppend(t, AllPoints(names[..n], rule), NodePoints(names[n], n, rule));
      CompactNode(t, names[n], n, rule);
    }
  }

  /**
   Lookups are independent of how the sort orders equal hashes exactly when
   no two nodes collide.
   */
  lemma LookupDeterminedIffNoCollision(names: seq<Str>, rule: Rule, s: seq<VNode>)
    requires Consistent(names, rule, s)
    ensures NoCollision(names, rule)
            <==> forall t, u, h, i, j {:trigger LookupFinds(names, rule, t, h, i), LookupFinds(names, rule, u, h, j)} ::
                   LookupFinds(names, rule, t, h, i) && LookupFinds(names, rule, u, h, j)
                   ==> FoundName(names, t, i) == FoundName(names, u, j)
  {
    hide AllPoints;
    if NoCollision(names, rule) {
      forall t, u, h, i, j | LookupFinds(names, rule, t, h, i) && LookupFinds(names, rule, u, h, j)
        ensures FoundName(names, t, i) == FoundName(names, u, j)
      {
        LookupOwns(names, rule, t, h, i);
        LookupOwns(names, rule, u, h, j);
        OwnerUnique(names, rule, h, FoundName(names, t, i), FoundName(names, u, j));
      }
    } else {
      OneOwnerIffNoCollision(names, rule);
      var h, a, b :| 0 <= h < CIRCLE && Owns(names, rule, h, a) && Owns(names, rule, h, b) && a != b;
      var x :| Closest(names, rule, h, a, x);
      var k :| 0 <= k < |names| && names[k] == a;
      InArray(names, rule, s, VNode(x, k));
      var lower := SomeLowerBound(s, h);
      var t := OwnerCanBeFound(names, rule, s, h, lower, a);
      var u := OwnerCanBeFound(names, rule, s, h, lower, b);
      assert LookupFinds(names, rule, t, h, lower) && LookupFinds(names, rule, u, h, lower);
    }
  }

  /** `t` is a legal array in which a search for `h` stops at `lower`. */
  ghost predicate LookupFinds(names: seq<Str>, rule: Rule, t: seq<VNode>, h: nat, lower: nat) {
    && h < CIRCLE && Consistent(names, rule, t) && t != [] && LowerBound(t, h, lower)
  }

  ghost function FoundName(names: seq<Str>, t: seq<VNode>, lower: nat): Str {
    if Slot(t, lower) < |t| && t[Slot(t, lower)].idx < |names| then names[t[Slot(t, lower)].idx] else []
  }

  lemma {:induction false} SomeLowerBound(s: seq<VNode>, h: nat) returns (i: nat)
    requires Sorted(s)
    ensures LowerBound(s, h, i)
  {
    i := 0;
    while i < |s| && s[i].hash < h
      invariant i <= |s| && forall j :: 0 <= j < i ==> s[j].hash < h
    {
      i := i + 1;
    }
  }

  // ------------------------------------------------------------ the ring

  /** The library sort: any arrangement that is sorted by hash. */
  method SortByHash(s: seq<VNode>) returns (t: seq<VNode>)
    ensures Sorted(t) && multiset(t) == multiset(s)
  {
    t := [];
    for i := 0 to |s|
      invariant Sorted(t) && multiset(t) == multiset(s[..i])
    {
      assert s[..i + 1] == s[..i] + [s[i]];
      InsertSorted(t, s[i]);
      t := Insert(t, s[i]);
    }
    assert s[..|s|] == s;
  }

  function Insert(t: seq<VNode>, p: VNode): (r: seq<VNode>)
    ensures |r| == |t| + 1
  {
    if t == [] || p.hash < t[0].hash then [p] + t else [t[0]] + Insert(t[1..], p)
  }

  lemma {:induction false} InsertSorted(t: seq<VNode>, p: VNode)
    requires Sorted(t)
    ensures Sorted(Insert(t, p)) && multiset(Insert(t, p)) == multiset(t) + multiset{p}
    ensures Insert(t, p)[0].hash == if t == [] || p.hash < t[0].hash then p.hash else t[0].hash
  {
    if t == [] || p.hash < t[0].hash {
      SortedCons(p, t);
    } else {
      var u := t[1..];
      assert t == [t[0]] + u;
      InsertSorted(u, p);
      SortedCons(t[0], Insert(u, p));
    }
  }

  lemma SortedCons(p: VNode, t: seq<VNode>)
    requires Sorted(t) && (t != [] ==> p.hash <= t[0].hash)
    ensures Sorted([p] + t)
  {
  }

  class Ring {
    const virtualCount: nat
    var names: seq<Str>
    var vnodes: seq<VNode>

    /** The ring's own rule. */
    function Placed(): Rule {
      Rule(virtualCount, PointHash)
    }

    ghost predicate Valid()
      reads this
    {
      0 < virtualCount && NoRepeats(names) && Consistent(names, Placed(), vnodes)
    }

    constructor (perPhysical: int)
      ensures Valid() && names == []
      ensures virtualCount == if perPhysical <= 0 then 150 else if perPhysical > 4096 then 4096 else perPhysical
    {
      var count := if perPhysical > 0 then perPhysical else DEFAULT_VIRTUAL;
      virtualCount := if count > MAX_VIRTUAL then MAX_VIRTUAL else count;
      names, vnodes := [], [];
    }

    method FindVnode(hash: nat) returns (idx: int, ghost lower: nat)
      requires Sorted(vnodes)
      ensures LowerBound(vnodes, hash, lower)
      ensures idx == if vnodes == [] then -1 else Slot(vnodes, lower)
    {
      lower := 0;
      if |vnodes| == 0 { return -1, 0; }
      var lo, hi := 0, |vnodes| - 1;
      while lo <= hi
        invariant 0 <= lo <= hi + 1 <= |vnodes|
        invariant forall j :: 0 <= j < lo ==> vnodes[j].hash < hash
        invariant forall j :: hi < j < |vnodes| ==> vnodes[j].hash >= hash
      {
        var mid := (lo + hi) / 2;
        if vnodes[mid].hash < hash { lo := mid + 1; } else { hi := mid - 1; }
      }
      lower := lo;
      idx := if lo >= |vnodes| then 0 else lo;
    }

    method IndexOfName(name: Str) returns (i: int)
      ensures -1 <= i < |names|
      ensures i >= 0 ==> names[i] == name
      ensures i < 0 ==> name !in names
    {
      i := 0;
      while i < |names|
        invariant 0 <= i <= |names| && name !in names[..i]
      {
        if names[i] == name { return; }
        i := i + 1;
      }
      i := -1;
    }

    /** Appends the points of one node. */
    method AppendPoints(name: Str, idx: nat)
      modifies this`vnodes
      ensures vnodes == old(vnodes) + NodePoints(name, idx, Placed())
    {
      hide PointHash;
      for v := 0 to virtualCount
        invariant vnodes == old(vnodes) + NodePoints(name, idx, Rule(v, PointHash))
      {
        vnodes := vnodes + [VNode(PointHash(name, v), idx)];
      }
    }

    method AddNode(name: Str) returns (rc: int)
      requires Valid()
      modifies this
      ensures Valid() && rc == 0
      ensures name in old(names) ==> names == old(names) && vnodes == old(vnodes)
      ensures name !in old(names) ==> names == old(names) + [name]
    {
      hide PointHash, AllPoints, NodePoints;
      var i := IndexOfName(name);
      if i >= 0 { return 0; }
      var idx := |names|;
      names := names + [name];
      AppendPoints(name, idx);
      AllPointsAppend(old(names), name, Placed(), old(vnodes));
      vnodes := SortByHash(vnodes);
      rc := 0;
    }

    method RemoveNode(name: Str) returns (rc: int)
      requires Valid()
      modifies this
      ensures Valid()
      ensures name !in old(names) ==> rc == -1 && names == old(names) && vnodes == old(vnodes)
      ensures name in old(names) ==>
                rc == 0 && exists i: nat ::
                    i < |old(names)| && old(names)[i] == name && names == RemoveAt(old(names), i)
    {
      hide PointHash, AllPoints, Compact;
      var target := IndexOfName(name);
      if target < 0 { return -1; }
      names := RemoveAt(names, target);
      CompactVnodes(target);
      CompactPermutes(target, old(vnodes), AllPoints(old(names), Placed()));
      CompactAll(old(names), target, Placed());
      vnodes := SortByHash(vnodes);
      rc := 0;
    }

    /** Drops the points of node `target` in place and renumbers the rest. */
    method CompactVnodes(target: nat)
      modifies this`vnodes
      ensures vnodes == Compact(target, old(vnodes))
    {
      assert Compact(target, []) == [] && vnodes[..0] == [];
      hide Compact;
      var w := 0;
      ghost var s := vnodes;
      for i := 0 to |vnodes|
        invariant |vnodes| == |s| && w <= i
        invariant vnodes[..w] == Compact(target, s[..i])
        invariant vnodes[i..] == s[i..]
      {
        CompactStep(target, s, vnodes, w, i);
        if vnodes[i].idx != target {
          if vnodes[i].idx > target {
            vnodes := vnodes[i := VNode(vnodes[i].hash, vnodes[i].idx - 1)];
          }
          vnodes := vnodes[w := vnodes[i]];
          w := w + 1;
        }
      }
      assert s[..|s|] == s;
      vnodes := vnodes[..w];
    }

    /** The node responsible for a key, cut to the caller's buffer. */
    method GetNode(key: Str) returns (rc: int, out: Str)
      requires Valid()
      ensures rc == if names == [] then -1 else 0
      ensures names != [] ==>
                exists owner :: Owns(names, Placed(), HashKey(key), owner) && out == Truncate(owner, NODE_BUFFER - 1)
    {
      hide PointHash, AllPoints, HashKey;
      out := [];
      NonEmpty();
      if |vnodes| == 0 { return -1, []; }
      var hash := HashKey(key);
      var idx, lower := FindVnode(hash);
      LookupOwns(names, Placed(), vnodes, hash, lower);
      var pi := vnodes[idx].idx;
      assert Owns(names, Placed(), hash, names[pi]);
      out := Truncate(names[pi], NODE_BUFFER - 1);
      rc := 0;
    }

    lemma NonEmpty()
      requires Valid()
      ensures vnodes == [] <==> names == []
    {
      hide PointHash, AllPoints;
      if names == [] && vnodes != [] { InArray(names, Placed(), vnodes, vnodes[0]); }
      if names != [] { InArray(names, Placed(), vnodes, VNode(PointHash(names[0], 0), 0)); }
    }

    method Rebalance()
      requires Valid()
      modifies this`vnodes
      ensures Valid()
      ensures NoCollision(names, Placed()) ==> vnodes == old(vnodes)
    {
      hide PointHash, NodePoints;
      NonEmpty();
      if |names| == 0 { return; }
      vnodes := [];
      for i := 0 to |names|
        invariant vnodes == AllPoints(names[..i], Placed())
      {
        assert names[..i + 1][..i] == names[..i];
        AppendPoints(names[i], i);
      }
      assert names[..|names|] == names;
      vnodes := SortByHash(vnodes);
      if NoCollision(names, Placed()) { ConsistentUnique(names, Placed(), vnodes, old(vnodes)); }
    }

    /**
     The first `reqN` different nodes met walking clockwise from the key.
     `picked` holds their numbers and `at` the steps at which they were met.
     */
    method GetNodes(key: Str, reqN: int)
      returns (found: int, out: seq<Str>, ghost picked: seq<nat>, ghost at: seq<nat>, ghost lower: nat)
      requires Valid()
      ensures reqN <= 0 ==> found == -1 && out == []
      ensures reqN > 0 ==> found == |out| == if reqN <= |names| then reqN else |names|
      ensures LowerBound(vnodes, HashKey(key), lower)
      ensures Handed(names, picked, out)
      ensures reqN > 0 ==> Walked(vnodes, Slot(vnodes, lower), picked, at)
    {
      hide Valid, PointHash, AllPoints, HashKey, Consistent, Walked, WalkedTo, Handed, Truncate;
      var hash := HashKey(key);
      var start: int;
      SortedVnodes();
      start, lower := FindVnode(hash);
      found, out, picked, at := -1, [], [], [];
      WalkedStart(vnodes, start);
      NoneHanded();
      if reqN <= 0 { return; }
      NonEmpty();
      if |vnodes| == 0 { found := 0; return; }
      var n := if reqN > |names| then |names| else reqN;
      var seen := new bool[|names|](_ => false);
      found := 0;
      var i := 0;
      while i < |vnodes| && found < n
        invariant 0 <= i <= |vnodes| && found == |out| == |picked| <= n
        invariant forall k :: 0 <= k < |names| ==> (seen[k] <==> k in picked)
        invariant Handed(names, picked, out) && WalkedTo(vnodes, start, picked, at, i)
      {
        var vi := (start + i) % |vnodes|;
        IndexInRange(vi);
        var pi := vnodes[vi].idx;
        WalkedStep(vnodes, start, picked, at, i);
        if !seen[pi] {
          seen[pi] := true;
          OneMoreHanded(picked, out, pi);
          out := out + [Truncate(names[pi], NODE_BUFFER - 1)];
          picked, at := picked + [pi], at + [i];
          found := found + 1;
        }
        i := i + 1;
      }
      WalkedSoFar(start, picked, at, i);
      if found < n { Covering(picked, |names|); }
    }

    lemma NoneHanded()
      ensures Handed(names, [], [])
    {
    }

    lemma OneMoreHanded(picked: seq<nat>, out: seq<Str>, pi: nat)
      requires Handed(names, picked, out) && pi < |names|
      ensures Handed(names, picked + [pi], out + [Truncate(names[pi], NODE_BUFFER - 1)])
    {
      hide Truncate;
    }

    lemma WalkedSoFar(start: nat, picked: seq<nat>, at: seq<nat>, i: nat)
      requires Valid() && start < |vnodes| && WalkedTo(vnodes, start, picked, at, i)
      ensures Walked(vnodes, start, picked, at)
      ensures i == |vnodes| ==> forall k: nat :: k < |names| ==> k in picked
    {
      hide Valid, Walked, Met;
      if i == |vnodes| {
        forall k: nat | k < |names| ensures k in picked { EveryNodeMet(start, k, picked); }
      }
    }

    lemma SortedVnodes()
      requires Valid()
      ensures Sorted(vnodes)
    {
    }

    lemma IndexInRange(i: nat)
      requires Valid() && i < |vnodes|
      ensures vnodes[i].idx < |names|
    {
      hide PointHash, AllPoints;
      InArray(names, Placed(), vnodes, vnodes[i]);
    }

    /** A full walk meets every node: each holds at least one point. */
    lemma EveryNodeMet(start: nat, k: nat, picked: seq<nat>)
      requires Valid() && k < |names| && start < |vnodes|
      requires forall w :: 0 <= w < |vnodes| ==> Met(vnodes, start, w) in picked
      ensures k in picked
    {
      hide PointHash, AllPoints, Consistent;
      InArray(names, Placed(), vnodes, VNode(PointHash(names[k], 0), k));
      var j :| 0 <= j < |vnodes| && vnodes[j] == VNode(PointHash(names[k], 0), k);
      var w := if j >= start then j - start else j + |vnodes| - start;
      WrapAround(start, w, |vnodes|, j);
      assert Met(vnodes, start, w) in picked;
    }
  }

  lemma WrapAround(start: nat, w: nat, n: nat, j: nat)
    requires start < n && j < n && start + w == (if w < n - start then j else j + n)
    ensures (start + w) % n == j
  {
    var x := start + w;
    var q := x / n;
    assert x == n * q + x % n;
    TwiceAtMost(n, q);
  }

  lemma TwiceAtMost(n: nat, q: nat)
    ensures q >= 2 ==> n * q >= n * 2
  {
  }

  /** The node whose point is met at step `w` of a walk. */
  ghost function Met(vnodes: seq<VNode>, start: nat, w: nat): nat
    requires vnodes != []
  {
    vnodes[(start + w) % |vnodes|].idx
  }

  /**
   `picked` lists node numbers in the order in which a clockwise walk from
   `start` first meets them, none left out and none twice.
   */
  ghost predicate Walked(vnodes: seq<VNode>, start: nat, picked: seq<nat>, at: seq<nat>) {
    && |at| == |picked| && (vnodes == [] ==> picked == [])
    && (forall i, j :: 0 <= i < j < |picked| ==> picked[i] != picked[j] && at[i] < at[j])
    && (forall j :: 0 <= j < |at| ==> at[j] < |vnodes| && Met(vnodes, start, at[j]) == picked[j])
    && (forall j, w :: 0 <= j < |at| && 0 <= w < at[j] ==> Met(vnodes, start, w) in picked[..j])
  }

  lemma WalkedStart(vnodes: seq<VNode>, start: int)
    ensures start >= 0 ==> Walked(vnodes, start, [], []) && WalkedTo(vnodes, start, [], [], 0)
    ensures vnodes == [] ==> Walked(vnodes, 0, [], [])
  {
  }

  /** ... and all that is met in the first `i` steps has been picked. */
  ghost predicate WalkedTo(vnodes: seq<VNode>, start: nat, picked: seq<nat>, at: seq<nat>, i: nat) {
    && i <= |vnodes| && Walked(vnodes, start, picked, at) && (forall j :: 0 <= j < |at| ==> at[j] < i)
    && forall w :: 0 <= w < i ==> Met(vnodes, start, w) in picked
  }

  lemma WalkedStep(vnodes: seq<VNode>, start: nat, picked: seq<nat>, at: seq<nat>, i: nat)
    requires WalkedTo(vnodes, start, picked, at, i) && i < |vnodes|
    ensures var m := Met(vnodes, start, i);
            if m in picked then WalkedTo(vnodes, start, picked, at, i + 1)
            else WalkedTo(vnodes, start, picked + [m], at + [i], i + 1)
  {
    hide Met, Walked;
    var m := Met(vnodes, start, i);
    if m !in picked {
      WalkedExtends(vnodes, start, picked, at, i);
      assert (picked + [m])[|picked|] == m;
    }
  }

  lemma WalkedExtends(vnodes: seq<VNode>, start: nat, picked: seq<nat>, at: seq<nat>, i: nat)
    requires WalkedTo(vnodes, start, picked, at, i) && i < |vnodes| && Met(vnodes, start, i) !in picked
    ensures Walked(vnodes, start, picked + [Met(vnodes, start, i)], at + [i])
  {
    hide Met;
    var p, a := picked + [Met(vnodes, start, i)], at + [i];
    forall j, w | 0 <= j < |a| && 0 <= w < a[j] ensures Met(vnodes, start, w) in p[..j] {
      assert j < |at| ==> p[..j] == picked[..j];
      assert j == |at| ==> p[..j] == picked;
    }
  }

  /** The names picked, each cut to the caller's buffer. */
  ghost predicate Handed(names: seq<Str>, picked: seq<nat>, out: seq<Str>) {
    |picked| == |out|
    && forall j :: 0 <= j < |out| ==> picked[j] < |names| && out[j] == Truncate(names[picked[j]], NODE_BUFFER - 1)
  }

  /** A list that mentions all of 0..n-1 has at least n entries. */
  lemma {:induction false} Covering(s: seq<nat>, n: nat)
    requires forall k: nat :: k < n ==> k in s
    ensures |s| >= n
  {
    if n > 0 {
      assert n - 1 in s;
      var i :| 0 <= i < |s| && s[i] == n - 1;
      var t := s[..i] + s[i + 1..];
      forall k: nat | k < n - 1 ensures k in t {
        assert k in s;
        var j :| 0 <= j < |s| && s[j] == k;
        assert t[if j < i then j else j - 1] == k;
      }
      Covering(t, n - 1);
    }
  }
}
