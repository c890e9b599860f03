/**
 The cache as it is built: one set of nodes linked twice, by `prev`/`next`
 in recency order and by `hashNext` in 256 hash chains. Every operation is
 proved to act on the recency list as LruModel says.
 */
module LruCache {
  import opened CStrings
  import opened LruModel
  import opened Sequences

  const BUCKETS: nat := 256
  const WORD: nat := 0x1_0000_0000_0000_0000

  ghost function Bucket(key: Str): (b: nat)
    ensures b < BUCKETS
  {
    Djb2(WORD, 5381, key) % BUCKETS
  }

  class CacheEntry {
    const key: Str
    var value: Str
    var createdAt: int
    var ttlSec: int
    var prev: CacheEntry?
    var next: CacheEntry?
    var hashNext: CacheEntry?
    /** When the node was made: later nodes have larger stamps. */
    ghost const stamp: nat

    constructor (key: Str, value: Str, ttlSec: int, now: int, ghost stamp: nat)
      ensures this.key == key && this.value == value && this.ttlSec == ttlSec && createdAt == now
      ensures this.stamp == stamp && prev == null && next == null && hashNext == null
    {
      this.key, this.value, this.ttlSec, createdAt := key, value, ttlSec, now;
      this.stamp := stamp;
      prev, next, hashNext := null, null, null;
    }

    ghost function Rec(): Record
      reads this`value, this`ttlSec, this`createdAt
    {
      Record(key, value, ttlSec, createdAt)
    }

    method IsExpired(now: int) returns (b: bool)
      ensures b == Expired(Rec(), now)
    {
      if ttlSec <= 0 { return false; }
      b := now - createdAt >= ttlSec * NANOS;
    }
  }

  /** The node at position `i` of a chain, or the null that ends it. */
  ghost function At(s: seq<CacheEntry>, i: int): CacheEntry? {
    if 0 <= i < |s| then s[i] else null
  }

  ghost function Records(s: seq<CacheEntry>): (r: seq<Record>)
    reads s`value, s`ttlSec, s`createdAt
    ensures |r| == |s|
    ensures forall i :: 0 <= i < |s| ==> r[i] == s[i].Rec()
  {
    if s == [] then [] else [s[0].Rec()] + Records(s[1..])
  }

  /** The nodes of `s` are linked in both directions and in this order. */
  ghost predicate Linked(s: seq<CacheEntry>)
    reads s`prev, s`next
  {
    && NoRepeats(s)
    && (s != [] ==> s[0].prev == null && s[|s| - 1].next == null)
    && (forall i {:trigger s[i].prev} :: 0 < i < |s| ==> s[i].prev == s[i - 1])
    && (forall i {:trigger s[i].next} :: 0 <= i < |s| - 1 ==> s[i].next == s[i + 1])
  }

  /** The nodes of `s` form one hash chain, newest first. */
  ghost predicate Chained(first: CacheEntry?, s: seq<CacheEntry>)
    reads s`hashNext
  {
    && first == At(s, 0)
    && (forall i {:trigger s[i].hashNext} :: 0 <= i < |s| ==> s[i].hashNext == At(s, i + 1))
    && (forall i, j {:trigger s[i].stamp, s[j].stamp} :: 0 <= i < j < |s| ==> s[i].stamp > s[j].stamp)
  }

  /** List and chains hold the same nodes, each in the bucket of its key. */
  ghost predicate SameNodes(order: seq<CacheEntry>, chains: seq<seq<CacheEntry>>) {
    && |chains| == BUCKETS
    && (forall n <- order :: n in chains[Bucket(n.key)])
    && (forall b :: 0 <= b < BUCKETS ==> forall n <- chains[b] :: n in order)
  }

  ghost function NoChains(): (s: seq<seq<CacheEntry>>)
    ensures |s| == BUCKETS && forall b :: 0 <= b < BUCKETS ==> s[b] == []
  {
    seq(BUCKETS, _ => [])
  }

  class LRUCache {
    var head: CacheEntry?
    var tail: CacheEntry?
    const buckets: array<CacheEntry?>
    var capacity: int
    var size: int
    var hits: nat
    var misses: nat
    var evictions: nat
    var defaultTtl: int
    /** The nodes in recency order. */
    ghost var order: seq<CacheEntry>
    /** The nodes of each bucket, in chain order. */
    ghost var chains: seq<seq<CacheEntry>>
    /** All nodes in the chains. */
    ghost var nodes: set<CacheEntry>
    ghost var stamps: nat

    ghost predicate ListOk()
      reads this`head, this`tail, this`order, order`prev, order`next
    {
      && Linked(order)
      && (if order == [] then head == null && tail == null
          else head == order[0] && tail == order[|order| - 1])
    }

    ghost predicate ChainOk(b: nat)
      requires b < |chains| == buckets.Length
      reads this`chains, this`nodes, buckets, nodes`hashNext
    {
      && (forall n <- chains[b] :: n in nodes)
      && Chained(buckets[b], chains[b]) && forall i :: 0 <= i < |chains[b]| ==> Bucket(chains[b][i].key) == b
    }

    ghost predicate TableOk()
      reads this`chains, this`nodes, buckets, nodes`hashNext
    {
      && |chains| == buckets.Length == BUCKETS
      && forall b :: 0 <= b < BUCKETS ==> ChainOk(b)
    }

    ghost predicate Valid()
      reads this`head, this`tail, this`order, this`chains, this`nodes, this`size, this`stamps
      reads buckets, order`prev, order`next, nodes`hashNext
    {
      && ListOk()
      && TableOk()
      && SameNodes(order, chains)
      && Aged(order, stamps)
      && size == |order|
    }

    /** The abstract value of the cache. */
    ghost function View(): State
      reads this`order, this`capacity, this`defaultTtl, this`hits, this`misses, this`evictions
      reads order`value, order`ttlSec, order`createdAt
    {
      State(Records(order), capacity, defaultTtl, hits, misses, evictions)
    }

    constructor (capacity: int, defaultTtl: int)
      ensures Valid() && fresh(buckets) && order == []
      ensures View() == Init(capacity, defaultTtl)
      ensures View() == State([], if capacity > 0 then capacity else 64, if defaultTtl >= 0 then defaultTtl else 0,
                              0, 0, 0)
    {
      head, tail := null, null;
      buckets := new CacheEntry?[BUCKETS](_ => null);
      this.capacity := if capacity > 0 then capacity else 64;
      size, hits, misses, evictions := 0, 0, 0, 0;
      this.defaultTtl := if defaultTtl >= 0 then defaultTtl else 0;
      order := [];
      chains := NoChains();
      nodes, stamps := {}, 0;
    }

    method DetachNode(entry: CacheEntry, ghost p: nat)
      requires ListOk() && p < |order| && order[p] == entry
      modifies this`head, this`tail, this`order, order`prev, order`next
      ensures ListOk() && order == RemoveAt(old(order), p)
      ensures entry.prev == null && entry.next == null
    {
      hide RemoveAt;
      ghost var s := order;
      assert entry.prev == At(s, p - 1) && entry.next == At(s, p + 1);
      if entry.prev != null { entry.prev.next := entry.next; } else { head := entry.next; }
      assert entry.prev == old(entry.prev) && entry.next == old(entry.next);
      if entry.next != null { entry.next.prev := entry.prev; } else { tail := entry.prev; }
      entry.prev, entry.next := null, null;
      forall i {:trigger s[i].prev} | 0 <= i < |s| && i != p
        ensures s[i].prev == At(s, if i == p + 1 then p - 1 else i - 1)
      {
        assert s[i] != entry;
        assert i != p + 1 && p + 1 < |s| ==> s[i] != s[p + 1];
      }
      forall i {:trigger s[i].next} | 0 <= i < |s| && i != p
        ensures s[i].next == At(s, if i + 1 == p then p + 1 else i + 1)
      {
        assert s[i] != entry;
        assert i + 1 != p && p > 0 ==> s[i] != s[p - 1];
      }
      RemovedLinks(s, p, RemoveAt(s, p));
      order := RemoveAt(s, p);
    }

    /** Links a detached node in front of the list. */
    method LinkAtHead(entry: CacheEntry)
      requires ListOk() && entry !in order && entry.prev == null
      modifies this`head, this`tail, this`order, entry`next, order`prev
      ensures ListOk() && order == [entry] + old(order)
    {
      entry.next := head;
      if head != null { head.prev := entry; }
      head := entry;
      if tail == null { tail := entry; }
      order := [entry] + order;
    }

    method MoveToHead(entry: CacheEntry, ghost p: nat)
      requires ListOk() && p < |order| && order[p] == entry
      modifies this`head, this`tail, this`order, order`prev, order`next
      ensures ListOk() && order == [entry] + RemoveAt(old(order), p)
    {
      if head == entry {
        assert p == 0;
        assert order == [entry] + RemoveAt(order, 0);
        return;
      }
      DetachNode(entry, p);
      LinkAtHead(entry);
    }

    method HashFind(key: Str) returns (entry: CacheEntry?, ghost p: nat)
      requires Valid()
      ensures p == IndexOf(Records(order), key)
      ensures entry == At(order, p)
      ensures forall q :: 0 <= q < p ==> order[q].key != key
    {
      hide Valid, Records, IndexOf, SameNodes, Aged, ListOk, Chained;
      ChainOf(Bucket(key));
      var h := HashDjb2(WORD, key);
      ghost var c := chains[Bucket(key)];
      ghost var i := 0;
      entry := buckets[h % BUCKETS];
      while entry != null
        invariant i <= |c| && entry == At(c, i)
        invariant forall j :: 0 <= j < i ==> c[j].key != key
        decreases |c| - i
      {
        if entry.key == key {
          p := FoundAt(key, i);
          return;
        }
        entry := entry.hashNext;
        i := i + 1;
      }
      NotFound(key);
      p := |order|;
    }

    lemma ChainOf(b: nat)
      requires Valid() && b < BUCKETS
      ensures |chains| == buckets.Length == BUCKETS
      ensures buckets[b] == At(chains[b], 0)
      ensures forall i {:trigger chains[b][i].hashNext} :: 0 <= i < |chains[b]| ==>
                chains[b][i].hashNext == At(chains[b], i + 1)
    {
      assert ChainOk(b);
    }

    lemma FoundAt(key: Str, i: nat) returns (p: nat)
      requires Valid()
      requires var c := chains[Bucket(key)];
               i < |c| && c[i].key == key && forall j :: 0 <= j < i ==> c[j].key != key
      ensures p < |order| && order[p] == chains[Bucket(key)][i]
      ensures p == IndexOf(Records(order), key)
      ensures forall q :: 0 <= q < p ==> order[q].key != key
    {
      var c := chains[Bucket(key)];
      assert ChainOk(Bucket(key));
      p := PositionOf(order, c[i]);
      FirstInChainIsFirst(order, c, stamps, i, p);
      IndexOfIs(Records(order), key, p);
    }

    lemma NotFound(key: Str)
      requires Valid()
      requires forall n <- chains[Bucket(key)] :: n.key != key
      ensures IndexOf(Records(order), key) == |order|
      ensures forall q :: 0 <= q < |order| ==> order[q].key != key
    {
      assert forall n <- order :: n.key == key ==> n in chains[Bucket(key)];
      IndexOfIs(Records(order), key, |order|);
    }

    method HashInsert(entry: CacheEntry)
      requires TableOk() && entry !in nodes
      requires forall n <- chains[Bucket(entry.key)] :: n.stamp < entry.stamp
      modifies this`chains, this`nodes, entry`hashNext, buckets
      ensures TableOk()
      ensures nodes == old(nodes) + {entry}
      ensures var b := Bucket(entry.key); chains == old(chains)[b := [entry] + old(chains)[b]]
    {
      var h := HashDjb2(WORD, entry.key);
      ghost var b := Bucket(entry.key);
      assert ChainOk(b);
      ghost var c := chains[b];
      forall a | 0 <= a < BUCKETS ensures entry !in chains[a] { assert ChainOk(a); }
      entry.hashNext := buckets[h % BUCKETS];
      buckets[h % BUCKETS] := entry;
      chains, nodes := chains[b := [entry] + c], nodes + {entry};
      forall a | 0 <= a < BUCKETS ensures ChainOk(a) {
        assert old(ChainOk(a));
        if a == b { PushedChain(buckets[b], entry, c); }
      }
    }

    /** Walks a chain to the node before `entry`, null at the front. */
    method HashPredecessor(entry: CacheEntry, h: nat, ghost k: nat) returns (before: CacheEntry?)
      requires h < |chains| == buckets.Length && ChainOk(h) && k < |chains[h]| && chains[h][k] == entry
      ensures before == At(chains[h], k - 1)
    {
      ChainDistinct(buckets[h], chains[h]);
      before := null;
      var at := buckets[h];
      ghost var i := 0;
      while at != entry
        invariant i <= k && at == chains[h][i] && before == At(chains[h], i - 1)
        decreases k - i
      {
        before, at := at, at.hashNext;
        i := i + 1;
      }
    }

    /** Makes the link that led to `entry` skip it. */
    method HashUnlink(entry: CacheEntry, h: nat, ghost k: nat)
      requires h < |chains| == buckets.Length && ChainOk(h) && k < |chains[h]| && chains[h][k] == entry
      modifies nodes`hashNext, buckets
      ensures Chained(buckets[h], RemoveAt(chains[h], k))
      ensures forall a :: 0 <= a < buckets.Length && a != h ==> buckets[a] == old(buckets[a])
      ensures forall n <- nodes :: n !in chains[h] ==> n.hashNext == old(n.hashNext)
    {
      ghost var c := chains[h];
      var before := HashPredecessor(entry, h, k);
      if before == null { buckets[h] := entry.hashNext; } else { before.hashNext := entry.hashNext; }
      forall i | 0 <= i < |c| && i != k ensures c[i].hashNext == At(c, if i + 1 == k then k + 1 else i + 1) {
        assert old(c[i].hashNext) == At(c, i + 1);
        if i + 1 != k && before != null { assert c[i].stamp != before.stamp; }
      }
      RemovedChain(buckets[h], c, k, RemoveAt(c, k));
    }

    method HashRemove(entry: CacheEntry, ghost k: nat)
      requires TableOk()
      requires var c := chains[Bucket(entry.key)]; k < |c| && c[k] == entry
      modifies this`chains, this`nodes, nodes`hashNext, buckets
      ensures TableOk()
      ensures nodes == old(nodes) - {entry}
      ensures var b := Bucket(entry.key); chains == old(chains)[b := RemoveAt(old(chains)[b], k)]
    {
      var hash := HashDjb2(WORD, entry.key);
      var h := hash % BUCKETS;
      ghost var c := chains[h];
      assert ChainOk(h);
      HashUnlink(entry, h, k);
      ghost var d := RemoveAt(c, k);
      forall i | 0 <= i < |d| ensures d[i] in c && d[i] != entry {
        var j := if i < k then i else i + 1;
        assert d[i] == c[j];
        assert c[j].stamp != c[k].stamp;
      }
      chains, nodes := chains[h := d], nodes - {entry};
      forall a | 0 <= a < BUCKETS && a != h ensures ChainOk(a) {
        assert old(ChainOk(a));
        assert forall n <- chains[a] :: n !in c;
      }
      assert ChainOk(h);
    }

    /** Takes a node out of both structures: the steps every removal shares. */
    method Discard(entry: CacheEntry, ghost p: nat)
      requires Valid() && p < |order| && order[p] == entry
      modifies this`head, this`tail, this`order, this`size, this`chains, this`nodes
      modifies nodes`prev, nodes`next, nodes`hashNext, buckets
      ensures Valid() && order == RemoveAt(old(order), p) && nodes == old(nodes) - {entry}
      ensures Records(order) == RemoveAt(old(Records(order)), p)
    {
      hide ListOk, Linked, Chained, Aged, SameNodes, TableOk, ChainOk, Records, RemoveAt, Djb2;
      RecordsRemove(order, p);
      ghost var k := ChainPosition(entry);
      NodesOfOrder();
      RemoveAged(order, stamps, p);
      SameAfterRemove(p, k);
      DetachNode(entry, p);
      HashRemove(entry, k);
      size := size - 1;
    }

    lemma ChainPosition(entry: CacheEntry) returns (k: nat)
      requires TableOk() && SameNodes(order, chains) && entry in order
      ensures var c := chains[Bucket(entry.key)]; k < |c| && c[k] == entry
    {
      k := PositionOf(chains[Bucket(entry.key)], entry);
    }

    lemma SameAfterRemove(p: nat, k: nat)
      requires TableOk() && SameNodes(order, chains) && ListOk() && p < |order|
      requires var c := chains[Bucket(order[p].key)]; k < |c| && c[k] == order[p]
      ensures var b := Bucket(order[p].key);
              SameNodes(RemoveAt(order, p), chains[b := RemoveAt(chains[b], k)])
    {
      var b := Bucket(order[p].key);
      assert ChainOk(b);
      ChainDistinct(buckets[b], chains[b]);
      forall a, n | 0 <= a < BUCKETS && n in chains[a] ensures Bucket(n.key) == a {
        assert ChainOk(a);
      }
      hide SameNodes, Linked, Chained, ChainOk, Djb2, RemoveAt;
      assert NoRepeats(order) by { OrderDistinct(); }
      SameRemoved(order, chains, p, k);
    }

    lemma OrderDistinct()
      requires ListOk()
      ensures NoRepeats(order)
    {
    }

    lemma NodesOfOrder()
      requires TableOk() && SameNodes(order, chains)
      ensures forall n <- order :: n in nodes
    {
      forall n <- order ensures n in nodes { assert ChainOk(Bucket(n.key)); }
    }

    /** Makes the first node of its key the most recently used one. */
    method Promote(entry: CacheEntry, ghost p: nat)
      requires Valid() && p < |order| && order[p] == entry
      requires forall q :: 0 <= q < p ==> order[q].key != entry.key
      modifies this`head, this`tail, this`order, nodes`prev, nodes`next
      ensures Valid() && order == [entry] + RemoveAt(old(order), p)
      ensures Records(order) == [old(Records(order))[p]] + RemoveAt(old(Records(order)), p)
    {
      hide Linked, Chained, Aged, SameNodes, TableOk, ChainOk, Records, RemoveAt;
      RecordsRemove(order, p);
      NodesOfOrder();
      MoveFirst(order, stamps, p);
      MoveSame(order, chains, p);
      MoveToHead(entry, p);
    }

    method DropIfExpired(entry: CacheEntry, ghost p: nat, now: int) returns (gone: bool)
      requires Valid() && p < |order| && order[p] == entry
      modifies this, buckets, nodes
      ensures Valid() && nodes <= old(nodes)
      ensures gone == Expired(old(Records(order))[p], now)
      ensures gone ==> order == RemoveAt(old(order), p)
      ensures gone ==> View() == old(View().(entries := RemoveAt(Records(order), p), evictions := evictions + 1))
      ensures !gone ==> order == old(order) && View() == old(View())
    {
      hide Valid, Records, RemoveAt;
      gone := entry.IsExpired(now);
      if gone {
        Discard(entry, p);
        evictions := evictions + 1;
      }
    }

    method Get(key: Str, now: int) returns (r: Option<Str>)
      requires Valid()
      modifies this, buckets, nodes
      ensures Valid() && nodes <= old(nodes)
      ensures View() == LruModel.Get(old(View()), key, now).0
      ensures r == LruModel.Get(old(View()), key, now).1
      ensures var s, i := old(Records(order)), IndexOf(old(Records(order)), key);
              if i == |s| then
                r == None && View() == old(View()).(misses := old(misses) + 1)
              else if Expired(s[i], now) then
                && r == None
                && View() == old(View()).(entries := RemoveAt(s, i), misses := old(misses) + 1,
                                          evictions := old(evictions) + 1)
              else
                && r == Some(s[i].value)
                && View() == old(View()).(entries := [s[i]] + RemoveAt(s, i), hits := old(hits) + 1)
    {
      hide Valid, Records, RemoveAt, IndexOf;
      var entry, p := HashFind(key);
      if entry == null {
        misses := misses + 1;
        return None;
      }
      assert Records(order)[p] == entry.Rec();
      var gone := DropIfExpired(entry, p, now);
      if gone {
        misses := misses + 1;
        return None;
      }
      ghost var v := View();
      r := Some(entry.value);
      Promote(entry, p);
      assert View() == v.(entries := [v.entries[p]] + RemoveAt(v.entries, p));
      hits := hits + 1;
    }

    method Has(key: Str, now: int) returns (b: bool)
      requires Valid()
      ensures b == LruModel.Has(View(), key, now)
      ensures b <==> var i := IndexOf(Records(order), key); i < |order| && !Expired(Records(order)[i], now)
    {
      hide Valid, IndexOf;
      var entry, p := HashFind(key);
      if entry == null { return false; }
      assert Records(order)[p] == entry.Rec();
      var expired := entry.IsExpired(now);
      b := !expired;
    }

    method LinkBoth(entry: CacheEntry)
      requires ListOk() && TableOk() && entry !in order && entry !in nodes && entry.prev == null
      requires forall n <- chains[Bucket(entry.key)] :: n.stamp < entry.stamp
      modifies this`head, this`tail, this`order, this`chains, this`nodes
      modifies order`prev, entry`next, entry`hashNext, buckets
      ensures ListOk() && TableOk() && order == [entry] + old(order) && nodes == old(nodes) + {entry}
      ensures var b := Bucket(entry.key); chains == old(chains)[b := [entry] + old(chains)[b]]
    {
      hide Linked, Chained, ChainOk, Djb2;
      LinkAtHead(entry);
      HashInsert(entry);
    }

    /** Links a new node in front of the list and of its hash chain. */
    method Admit(entry: CacheEntry)
      requires Valid() && entry !in nodes && entry.prev == null && entry.stamp == stamps
      modifies this`head, this`tail, this`order, this`size, this`chains, this`nodes, this`stamps
      modifies nodes`prev, entry`next, entry`hashNext, buckets
      ensures Valid() && order == [entry] + old(order) && nodes == old(nodes) + {entry}
      ensures Records(order) == [entry.Rec()] + old(Records(order))
    {
      hide ListOk, Linked, Chained, Aged, Records, TableOk, ChainOk, SameNodes, Djb2;
      ChainsYounger(entry);
      PushAgedNew(entry, order, stamps);
      PushSame(entry, order, chains);
      PushRecords(entry, order);
      NodesOfOrder();
      LinkBoth(entry);
      assert Records(order) == [entry.Rec()] + old(Records(order));
      size := size + 1;
      stamps := stamps + 1;
    }

    lemma ChainsYounger(entry: CacheEntry)
      requires TableOk() && SameNodes(order, chains) && Aged(order, stamps) && entry.stamp == stamps
      ensures forall n <- chains[Bucket(entry.key)] :: n.stamp < entry.stamp
    {
    }

    lemma Ends()
      requires Valid()
      ensures tail == At(order, |order| - 1) && (tail == null <==> order == [])
      ensures size == |order|
      ensures forall n <- order :: n in nodes
      ensures forall i, j :: 0 <= i < j < |order| ==> order[i] != order[j]
    {
      NodesOfOrder();
    }

    method EvictLru() returns (rc: int)
      requires Valid()
      modifies this, buckets, nodes
      ensures Valid() && nodes <= old(nodes)
      ensures View() == LruModel.EvictLru(old(View())).0
      ensures rc == LruModel.EvictLru(old(View())).1
      ensures var s := old(Records(order));
              if s == [] then
                rc == -1 && View() == old(View())
              else
                rc == 0 && View() == old(View()).(entries := s[..|s| - 1], evictions := old(evictions) + 1)
    {
      hide Valid, Records, RemoveAt;
      Ends();
      if tail == null { return -1; }
      ghost var v := View();
      RemoveLast(v.entries);
      Discard(tail, |order| - 1);
      evictions := evictions + 1;
      rc := 0;
    }

    method Put(key: Str, value: Str, ttlSec: int, now: int)
      requires Valid() && capacity > 0
      modifies this, buckets, nodes
      ensures Valid() && fresh(nodes - old(nodes))
      ensures View() == LruModel.Put(old(View()), key, value, ttlSec, now)
      ensures var s, i := old(Records(order)), IndexOf(old(Records(order)), key);
              var ttl := if ttlSec > 0 then ttlSec else defaultTtl;
              var first := Record(Truncate(key, 127), Truncate(value, 1023), ttl, now);
              if i < |s| then
                View() == old(View()).(entries := [first.(key := key)] + RemoveAt(s, i))
              else if |s| < capacity then
                View() == old(View()).(entries := [first] + s)
              else
                View() == old(View()).(entries := [first] + s[..|s| - 1], evictions := old(evictions) + 1)
    {
      hide Valid, Records, RemoveAt, IndexOf, Truncate;
      var entry, p := HashFind(key);
      if entry != null {
        assert Records(order)[p] == entry.Rec();
        Overwrite(entry, p, Truncate(value, VALUE_BUFFER - 1), if ttlSec > 0 then ttlSec else defaultTtl, now);
        return;
      }
      Ends();
      if size >= capacity {
        var _ := EvictLru();
      }
      InsertNew(Truncate(key, KEY_BUFFER - 1), Truncate(value, VALUE_BUFFER - 1),
                if ttlSec > 0 then ttlSec else defaultTtl, now);
    }

    /** Makes a node and admits it. */
    method InsertNew(key: Str, value: Str, ttlSec: int, now: int)
      requires Valid()
      modifies this`head, this`tail, this`order, this`size, this`chains, this`nodes, this`stamps
      modifies nodes`prev, buckets
      ensures Valid() && fresh(nodes - old(nodes))
      ensures View() == old(View()).(entries := [Record(key, value, ttlSec, now)] + old(Records(order)))
    {
      hide Valid, Records;
      var entry := new CacheEntry(key, value, ttlSec, now, stamps);
      Admit(entry);
    }

    /** Stores new contents in a node and makes it the most recently used. */
    method Overwrite(entry: CacheEntry, ghost p: nat, value: Str, ttlSec: int, now: int)
      requires Valid() && p < |order| && order[p] == entry
      requires forall q :: 0 <= q < p ==> order[q].key != entry.key
      modifies this`head, this`tail, this`order, nodes`prev, nodes`next, nodes`value, nodes`ttlSec, nodes`createdAt
      ensures Valid()
      ensures var s := old(Records(order));
              View() == old(View()).(entries := [Record(entry.key, value, ttlSec, now)] + RemoveAt(s, p))
    {
      hide Valid, RemoveAt, Records;
      Ends();
      entry.value := value;
      entry.ttlSec := ttlSec;
      entry.createdAt := now;
      UpdatedRecords(old(Records(order)), Records(order), p);
      Promote(entry, p);
    }

    method Delete(key: Str) returns (rc: int)
      requires Valid()
      modifies this, buckets, nodes
      ensures Valid() && nodes <= old(nodes)
      ensures View() == LruModel.Delete(old(View()), key).0
      ensures rc == LruModel.Delete(old(View()), key).1
      ensures var s, i := old(Records(order)), IndexOf(old(Records(order)), key);
              if i == |s| then
                rc == -1 && View() == old(View())
              else
                rc == 0 && View() == old(View()).(entries := s[..i] + s[i + 1..])
    {
      hide Valid, Records, RemoveAt, IndexOf;
      var entry, p := HashFind(key);
      if entry == null { return -1; }
      RemoveAtIs(Records(order), p);
      Discard(entry, p);
      rc := 0;
    }

    /** Walks the list from its tail, reading the clock for each node, and drops every expired one. */
    method EvictExpired(clock: Clock) returns (evicted: nat)
      requires Valid()
      modifies this, buckets, nodes
      ensures Valid() && nodes <= old(nodes)
      ensures View() == EvictExpiredBy(old(View()), clock).0
      ensures evicted == EvictExpiredBy(old(View()), clock).1
      ensures var live := LiveBy(old(Records(order)), clock);
              && evicted == |old(Records(order))| - |live|
              && View() == old(View()).(entries := live, evictions := old(evictions) + evicted)
    {
      hide Valid, Records, RemoveAt, Swept, At;
      Ends();
      EndOf(order);
      ghost var before := Records(order);
      SweptStart(before, clock);
      var curr := tail;
      var readings := 0;
      evicted := 0;
      ghost var k := |order|;
      while curr != null
        invariant Valid() && nodes <= old(nodes)
        invariant 0 <= k <= |order| && curr == At(order, k - 1) && readings + k == |before|
        invariant Swept(before, Records(order), k, clock)
        invariant |order| + evicted == |before|
        invariant View() == old(View()).(entries := Records(order), evictions := old(evictions) + evicted)
        decreases k
      {
        AtBounds(order, k - 1);
        Neighbours(k - 1);
        var next := curr.prev;
        SweptStep(before, Records(order), k - 1, clock);
        SameBefore(order, k - 1);
        var gone := DropIfExpired(curr, k - 1, clock(readings));
        readings := readings + 1;
        if gone { evicted := evicted + 1; }
        k := k - 1;
        curr := next;
      }
      AtBounds(order, k - 1);
      SweptEnd(before, Records(order), clock);
    }

    lemma Neighbours(i: nat)
      requires Valid() && i < |order|
      ensures order[i].prev == At(order, i - 1)
    {
    }

    method Clear()
      requires Valid()
      modifies this, buckets
      ensures Valid() && order == [] && nodes == {}
      ensures View() == LruModel.Clear(old(View()))
      ensures View() == old(View()).(entries := [])
    {
      hide Valid, Records, NoChains, ListOk, TableOk, SameNodes, Aged;
      BucketCount();
      head, tail, size := null, null, 0;
      ClearBuckets();
      order, nodes := [], {};
      chains := NoChains();
      EmptyIsValid();
    }

    method ClearBuckets()
      modifies buckets
      ensures forall i :: 0 <= i < buckets.Length ==> buckets[i] == null
    {
      forall i | 0 <= i < buckets.Length { buckets[i] := null; }
    }

    lemma BucketCount()
      requires Valid()
      ensures buckets.Length == BUCKETS
    {
    }

    lemma EmptyIsValid()
      requires order == [] && size == 0 && head == null && tail == null
      requires |chains| == buckets.Length == BUCKETS
      requires forall b :: 0 <= b < BUCKETS ==> chains[b] == [] && buckets[b] == null
      ensures Valid() && Records(order) == []
    {
    }
  }

  /** A clean-up that has reached position `k` from the end. */
  ghost predicate Swept(before: seq<Record>, r: seq<Record>, k: nat, clock: Clock) {
    && k <= |r| <= |before|
    && r[..k] == before[..k]
    && r[k..] == LiveBy(before[k..], clock)
  }

  lemma SweptStart(before: seq<Record>, clock: Clock)
    ensures Swept(before, before, |before|, clock)
  {
  }

  lemma SweptStep(before: seq<Record>, r: seq<Record>, k: nat, clock: Clock)
    requires Swept(before, r, k + 1, clock)
    ensures k < |r| && Swept(before, if Expired(r[k], clock(|before| - 1 - k)) then RemoveAt(r, k) else r, k, clock)
  {
    hide LiveBy, Expired;
    assert r[k] == r[..k + 1][k] == before[k];
    LiveByStep(before, k, clock);
    assert r[..k + 1][..k] == r[..k] && before[..k + 1][..k] == before[..k];
    assert r[k..] == [r[k]] + r[k + 1..];
    RemoveSplit(r, k);
  }

  lemma SweptEnd(before: seq<Record>, r: seq<Record>, clock: Clock)
    requires Swept(before, r, 0, clock)
    ensures r == LiveBy(before, clock)
  {
    assert r[0..] == r && before[0..] == before;
  }

  lemma AtBounds(s: seq<CacheEntry>, i: int)
    ensures At(s, i) != null <==> 0 <= i < |s|
    ensures At(s, i) != null ==> At(s, i) == s[i]
  {
  }

  lemma EndOf(s: seq<CacheEntry>)
    ensures At(s, |s| - 1) == null <==> s == []
  {
  }

  lemma SameBefore(s: seq<CacheEntry>, k: nat)
    requires k < |s|
    ensures At(RemoveAt(s, k), k - 1) == At(s, k - 1)
  {
  }

  lemma RemoveSplit(s: seq<Record>, k: nat)
    requires k < |s|
    ensures RemoveAt(s, k)[..k] == s[..k] && RemoveAt(s, k)[k..] == s[k + 1..]
  {
  }

  lemma RemoveLast(s: seq<Record>)
    requires s != []
    ensures RemoveAt(s, |s| - 1) == s[..|s| - 1]
  {
  }

  /** Changing one record does not change the others. */
  lemma UpdatedRecords(s: seq<Record>, t: seq<Record>, p: nat)
    requires p < |s| == |t|
    requires forall i :: 0 <= i < |s| && i != p ==> s[i] == t[i]
    ensures RemoveAt(s, p) == RemoveAt(t, p)
  {
  }

  lemma PushAgedNew(n: CacheEntry, s: seq<CacheEntry>, stamps: nat)
    requires Aged(s, stamps) && n.stamp == stamps
    ensures Aged([n] + s, stamps + 1)
  {
    var u := [n] + s;
    assert forall i :: 0 < i < |u| ==> u[i] == s[i - 1];
  }

  lemma PushSame(n: CacheEntry, order: seq<CacheEntry>, chains: seq<seq<CacheEntry>>)
    requires SameNodes(order, chains)
    ensures var b := Bucket(n.key); SameNodes([n] + order, chains[b := [n] + chains[b]])
  {
  }

  lemma PushRecords(n: CacheEntry, s: seq<CacheEntry>)
    ensures Records([n] + s) == [n.Rec()] + Records(s)
  {
  }

  lemma RemoveAged(s: seq<CacheEntry>, stamps: nat, p: nat)
    requires p < |s| && Aged(s, stamps)
    ensures Aged(RemoveAt(s, p), stamps)
  {
    var t := RemoveAt(s, p);
    assert forall i :: 0 <= i < |t| ==> t[i] == s[if i < p then i else i + 1];
  }

  /** Moving the first node of its key to the front keeps each key's order. */
  lemma MoveFirst(s: seq<CacheEntry>, stamps: nat, p: nat)
    requires p < |s| && Aged(s, stamps)
    requires forall q :: 0 <= q < p ==> s[q].key != s[p].key
    ensures Aged([s[p]] + RemoveAt(s, p), stamps)
  {
    hide RemoveAt;
    var t := RemoveAt(s, p);
    RemoveAged(s, stamps, p);
    forall i | 0 <= i < |t| && t[i].key == s[p].key ensures s[p].stamp > t[i].stamp {
      assert i >= p;
      assert t[i] == s[i + 1];
    }
    PushAged(s[p], t, stamps);
  }

  lemma PushAged(n: CacheEntry, t: seq<CacheEntry>, stamps: nat)
    requires Aged(t, stamps) && n.stamp < stamps
    requires forall i :: 0 <= i < |t| && t[i].key == n.key ==> n.stamp > t[i].stamp
    ensures Aged([n] + t, stamps)
  {
    var u := [n] + t;
    assert forall i :: 0 < i < |u| ==> u[i] == t[i - 1];
  }

  lemma MoveSame(s: seq<CacheEntry>, chains: seq<seq<CacheEntry>>, p: nat)
    requires p < |s| && Linked(s) && SameNodes(s, chains)
    ensures SameNodes([s[p]] + RemoveAt(s, p), chains)
  {
    hide RemoveAt;
    RemoveMembers(s, p);
  }

  lemma RecordsRemove(s: seq<CacheEntry>, p: nat)
    requires p < |s|
    ensures Records(RemoveAt(s, p)) == RemoveAt(Records(s), p)
    ensures Records([s[p]] + RemoveAt(s, p)) == [Records(s)[p]] + RemoveAt(Records(s), p)
  {
    var t := RemoveAt(s, p);
    assert forall i :: 0 <= i < |t| ==> t[i] == s[if i < p then i else i + 1];
  }

  lemma RemoveMembers(s: seq<CacheEntry>, p: nat)
    requires p < |s| && NoRepeats(s)
    ensures forall n :: n in RemoveAt(s, p) <==> n in s && n != s[p]
  {
  }

  lemma SameRemoved(order: seq<CacheEntry>, chains: seq<seq<CacheEntry>>, p: nat, k: nat)
    requires SameNodes(order, chains) && NoRepeats(order) && p < |order|
    requires forall a, n :: 0 <= a < BUCKETS && n in chains[a] ==> Bucket(n.key) == a
    requires var c := chains[Bucket(order[p].key)]; NoRepeats(c) && k < |c| && c[k] == order[p]
    ensures var b := Bucket(order[p].key);
            SameNodes(RemoveAt(order, p), chains[b := RemoveAt(chains[b], k)])
  {
    var b := Bucket(order[p].key);
    var rest, chains' := RemoveAt(order, p), chains[b := RemoveAt(chains[b], k)];
    forall n | n in rest ensures n in chains'[Bucket(n.key)] {
      hide *;
      RemovedMember(order, p, n);
      MemberOfChain(order, chains, n);
      RemovedMember(chains[b], k, n);
    }
    forall a, n | 0 <= a < BUCKETS && n in chains'[a] ensures n in rest {
      hide *;
      if a == b { RemovedMember(chains[b], k, n); }
      MemberOfOrder(order, chains, a, n);
      RemovedMember(order, p, n);
    }
  }

  lemma RemovedMember(s: seq<CacheEntry>, p: nat, n: CacheEntry)
    requires p < |s| && NoRepeats(s)
    ensures n in RemoveAt(s, p) <==> n in s && n != s[p]
  {
    RemoveMembers(s, p);
  }

  lemma MemberOfChain(order: seq<CacheEntry>, chains: seq<seq<CacheEntry>>, n: CacheEntry)
    requires SameNodes(order, chains) && n in order
    ensures n in chains[Bucket(n.key)]
  {
  }

  lemma MemberOfOrder(order: seq<CacheEntry>, chains: seq<seq<CacheEntry>>, b: nat, n: CacheEntry)
    requires SameNodes(order, chains) && b < BUCKETS && n in chains[b]
    ensures n in order
  {
  }

  lemma RemovedLinks(s: seq<CacheEntry>, p: nat, t: seq<CacheEntry>)
    requires p < |s| && t == RemoveAt(s, p) && NoRepeats(s)
    requires forall i {:trigger s[i].prev} :: 0 <= i < |s| && i != p ==>
              s[i].prev == At(s, if i == p + 1 then p - 1 else i - 1)
    requires forall i {:trigger s[i].next} :: 0 <= i < |s| && i != p ==>
              s[i].next == At(s, if i + 1 == p then p + 1 else i + 1)
    ensures Linked(t)
  {
    hide RemoveAt;
    forall i {:trigger t[i].prev} | 0 <= i < |t| ensures t[i].prev == At(t, i - 1) {
      assert t[i] == s[if i < p then i else i + 1];
    }
    forall i {:trigger t[i].next} | 0 <= i < |t| ensures t[i].next == At(t, i + 1) {
      assert t[i] == s[if i < p then i else i + 1];
    }
  }

  lemma ChainDistinct(first: CacheEntry?, c: seq<CacheEntry>)
    requires Chained(first, c)
    ensures NoRepeats(c)
  {
    forall i, j | 0 <= i < j < |c| ensures c[i] != c[j] {
      assert c[i].stamp > c[j].stamp;
    }
  }

  lemma PushedChain(first: CacheEntry?, entry: CacheEntry, c: seq<CacheEntry>)
    requires Chained(entry.hashNext, c) && first == entry
    requires forall n <- c :: n.stamp < entry.stamp
    ensures Chained(first, [entry] + c)
  {
    var d := [entry] + c;
    forall i | 0 <= i < |d| ensures d[i].hashNext == At(d, i + 1) {
      if i > 0 { assert c[i - 1].hashNext == At(c, i); }
    }
  }

  lemma RemovedChain(first: CacheEntry?, c: seq<CacheEntry>, k: nat, d: seq<CacheEntry>)
    requires k < |c| && d == RemoveAt(c, k)
    requires forall i, j {:trigger c[i].stamp, c[j].stamp} :: 0 <= i < j < |c| ==> c[i].stamp > c[j].stamp
    requires first == if k == 0 then At(c, 1) else c[0]
    requires forall i {:trigger c[i].hashNext} :: 0 <= i < |c| && i != k ==>
              c[i].hashNext == At(c, if i + 1 == k then k + 1 else i + 1)
    ensures Chained(first, d)
  {
    forall i | 0 <= i < |d| ensures d[i].hashNext == At(d, i + 1) {
      assert d[i] == c[if i < k then i else i + 1];
    }
  }

  ghost function PositionOf(s: seq<CacheEntry>, n: CacheEntry): (p: nat)
    requires n in s
    ensures p < |s| && s[p] == n
  {
    if s[0] == n then 0 else 1 + PositionOf(s[1..], n)
  }

  /** The first node of its key in the hash chain is the first in the list. */
  lemma FirstInChainIsFirst(order: seq<CacheEntry>, chain: seq<CacheEntry>, stamps: nat, i: nat, p: nat)
    requires Aged(order, stamps) && NoRepeats(order)
    requires i < |chain| && p < |order| && order[p] == chain[i]
    requires forall n <- order :: n.key == chain[i].key ==> n in chain
    requires forall j, k {:trigger chain[j].stamp, chain[k].stamp} :: 0 <= j < k < |chain| ==>
              chain[j].stamp > chain[k].stamp
    requires forall j :: 0 <= j < i ==> chain[j].key != chain[i].key
    ensures forall q :: 0 <= q < p ==> order[q].key != chain[i].key
  {
    forall q | 0 <= q < p ensures order[q].key != chain[i].key {
      if order[q].key == chain[i].key {
        assert order[q].stamp > order[p].stamp;
        var j := PositionOf(chain, order[q]);
      }
    }
  }

  lemma IndexOfIs(s: seq<Record>, key: Str, p: nat)
    requires p <= |s| && (p < |s| ==> s[p].key == key)
    requires forall q :: 0 <= q < p ==> s[q].key != key
    ensures IndexOf(s, key) == p
  {
  }

  /** Nodes with the same key stand in the list newest first. */
  ghost predicate Aged(s: seq<CacheEntry>, stamps: nat) {
    && (forall i, j {:trigger s[i].stamp, s[j].stamp} ::
          0 <= i < j < |s| && s[i].key == s[j].key ==> s[i].stamp > s[j].stamp)
    && (forall n <- s :: n.stamp < stamps)
  }
}
