/**
 The configuration centre: 256 hash chains of versioned entries. An entry
 stores its current value and an archive of the earlier ones; what a caller
 sees of a name is the history of its values.
 */
module ConfigCenter {
  import opened CStrings
  import opened Sequences
  import Words

  const BUCKETS := 256
  const NS_LEN := 64
  const GROUP_LEN := 64
  const KEY_LEN := 128
  const COLON: byte := 58

  datatype Name = Name(ns: Str, group: Str, key: Str)

  datatype Version = Version(version: int, value: Str, createdAt: int)

  datatype Entry = Entry(name: Name, value: Str, version: int, createdAt: int, updatedAt: int,
                         encrypted: bool, versions: seq<Version>)

  /** What a read hands to its caller. */
  datatype View = View(name: Name, value: Str, version: int, createdAt: int, updatedAt: int, encrypted: bool)

  datatype Level = Strong | Quorum | Eventual

  /** The name fits the entry's buffers. */
  predicate Fits(n: Name) {
    |n.ns| < NS_LEN && |n.group| < GROUP_LEN && |n.key| < KEY_LEN
  }

  /** The name as the entry's buffers keep it. */
  function Stored(n: Name): (m: Name)
    ensures Fits(m) && (Fits(n) <==> m == n) && m.ns <= n.ns && m.group <= n.group && m.key <= n.key
    ensures |n.ns| >= NS_LEN ==> |m.ns| == 63
    ensures |n.group| >= GROUP_LEN ==> |m.group| == 63
    ensures |n.key| >= KEY_LEN ==> |m.key| == 127
  {
    Name(Truncate(n.ns, NS_LEN - 1), Truncate(n.group, GROUP_LEN - 1), Truncate(n.key, KEY_LEN - 1))
  }

  function Composite(n: Name): Str {
    Truncate(n.ns + [COLON] + n.group + [COLON] + n.key, NS_LEN + GROUP_LEN + KEY_LEN + 3)
  }

  ghost function Bucket(n: Name): (b: nat)
    ensures b < BUCKETS
  {
    Djb2(Words.W32, 5381, Composite(n)) % BUCKETS
  }

  /** The first position holding `n`, or the length when there is none. */
  function FindIn(chain: seq<Entry>, n: Name): (i: nat)
    ensures i <= |chain|
    ensures i < |chain| ==> chain[i].name == n
    ensures forall j :: 0 <= j < i ==> chain[j].name != n
  {
    if chain == [] || chain[0].name == n then 0 else 1 + FindIn(chain[1..], n)
  }

  /** Versions count up from 1 without a gap, the current one last. */
  predicate WellFormed(e: Entry) {
    && e.version == |e.versions| + 1
    && forall i :: 0 <= i < |e.versions| ==> e.versions[i].version == i + 1
  }

  /** The values of an entry, the first written first and the current one last. */
  function History(e: Entry): (h: seq<Str>)
    ensures |h| == |e.versions| + 1 && h[|e.versions|] == e.value
    ensures forall i :: 0 <= i < |e.versions| ==> h[i] == e.versions[i].value
  {
    seq(|e.versions|, i requires 0 <= i < |e.versions| => e.versions[i].value) + [e.value]
  }

  /** Appends the current value to the archive (the growth of the array behind it is not modelled). */
  function Archived(e: Entry): Entry {
    e.(versions := e.versions + [Version(e.version, e.value, e.updatedAt)])
  }

  /** The entry after `value` has been written over `before`. */
  function Written(before: Option<Entry>, n: Name, value: Str, now: int): (e: Entry)
    ensures e.value == value && e.updatedAt == now
    ensures e.createdAt == if before.Some? then before.value.createdAt else now
    ensures e.encrypted <==> before.Some? && before.value.encrypted
  {
    match before
    case None => Entry(Stored(n), value, 1, now, now, false, [])
    case Some(e) => Archived(e).(value := value, version := e.version + 1, updatedAt := now)
  }

  function Values(found: Option<Entry>): seq<Str> {
    if found.None? then [] else History(found.value)
  }

  function Show(e: Entry): View {
    View(e.name, e.value, e.version, e.createdAt, e.updatedAt, e.encrypted)
  }

  lemma WrittenAppends(before: Option<Entry>, n: Name, value: Str, now: int)
    requires before.Some? ==> WellFormed(before.value)
    ensures WellFormed(Written(before, n, value, now))
    ensures Values(Some(Written(before, n, value, now))) == Values(before) + [value]
  {
    var e := Written(before, n, value, now);
    if before.Some? {
      assert History(e) == History(before.value) + [value];
    }
  }

  // -------------------------------------------------------- histories alone

  datatype Op =
    | OpPut(name: Name, value: Str)
    | OpRollback(name: Name, version: int)
    | OpDelete(name: Name)

  /** What an operation does to the history `h` kept under `n`. */
  function Step(h: seq<Str>, op: Op, n: Name): seq<Str> {
    if op.name != n then h
    else match op
      case OpPut(_, value) => h + [value]
      case OpRollback(_, v) => if 1 <= v < |h| then h + [h[v - 1]] else h
      case OpDelete(_) => []
  }

  function Replay(ops: seq<Op>, n: Name): seq<Str> {
    if ops == [] then [] else Step(Replay(ops[..|ops| - 1], n), ops[|ops| - 1], n)
  }

  /** As long as a name is not deleted, no version of it is ever changed or lost. */
  lemma {:induction false} VersionsAreForever(ops: seq<Op>, k: nat, n: Name)
    requires k <= |ops| && forall i :: k <= i < |ops| ==> ops[i] != OpDelete(n)
    ensures Replay(ops[..k], n) <= Replay(ops, n)
  {
    if k < |ops| {
      var m := |ops| - 1;
      VersionsAreForever(ops[..m], k, n);
      assert ops[..m][..k] == ops[..k];
    } else {
      assert ops[..k] == ops;
    }
  }

  /** Rolling back restores what was current at that version, and can itself be rolled back. */
  lemma RollbackRestores(ops: seq<Op>, k: nat, n: Name, v: int)
    requires 0 < k <= |ops| && v == |Replay(ops[..k], n)|
    requires forall i :: k <= i < |ops| ==> ops[i] != OpDelete(n)
    ensures var h := Replay(ops, n);
            var back := Step(h, OpRollback(n, v), n);
            1 <= v < |h| ==> && back[|back| - 1] == Replay(ops[..k], n)[v - 1]
                             && Step(back, OpRollback(n, |h|), n) == back + [h[|h| - 1]]
  {
    VersionsAreForever(ops, k, n);
  }

  /** A deleted name starts over; no other name notices. */
  lemma DeletionForgets(ops: seq<Op>, n: Name, m: Name, value: Str)
    requires m != n
    ensures Replay(ops + [OpDelete(n)], n) == [] && Replay(ops + [OpDelete(n)], m) == Replay(ops, m)
    ensures Replay(ops + [OpDelete(n)] + [OpPut(n, value)], n) == [value]
  {
    var after := ops + [OpDelete(n)];
    assert after[..|ops|] == ops;
    assert (after + [OpPut(n, value)])[..|after|] == after;
  }

  lemma VersionAt(e: Entry, v: int)
    requires WellFormed(e)
    ensures 1 <= v < e.version ==> e.versions[v - 1].version == v
  {
    if 1 <= v < e.version {
      var k := v - 1;
      assert e.versions[k].version == k + 1;
    }
  }

  /** Where the archive holds version `v`, or its length when it does not. */
  method FindVersion(e: Entry, v: int) returns (j: nat)
    requires WellFormed(e)
    ensures j <= |e.versions|
    ensures j == if 1 <= v < e.version then v - 1 else |e.versions|
    ensures e.version == |History(e)|
  {
    j := 0;
    while j < |e.versions| && e.versions[j].version != v
      invariant 0 <= j <= |e.versions|
      invariant forall k :: 0 <= k < j ==> e.versions[k].version != v
    {
      j := j + 1;
    }
    VersionAt(e, v);
  }

  // ------------------------------------------------------------ encryption

  function XorByte(a: byte, b: byte): byte {
    Words.Pow8();
    Words.Xor(8, a, b)
  }

  function Crypted(input: Str, key: Str): (output: Str)
    requires key != []
    ensures |output| == |input|
    ensures forall i :: 0 <= i < |input| ==> output[i] == XorByte(input[i], key[i % |key|])
  {
    seq(|input|, i requires 0 <= i < |input| => XorByte(input[i], key[i % |key|]))
  }

  method XorCrypt(input: Str, key: Str, len: nat) returns (output: Str)
    requires key != [] && len <= |input|
    ensures output == Crypted(input[..len], key)
  {
    output := [];
    for i := 0 to len
      invariant |output| == i && forall j :: 0 <= j < i ==> output[j] == XorByte(input[j], key[j % |key|])
    {
      output := output + [XorByte(input[i], key[i % |key|])];
    }
  }

  /** The byte 5A with the key 3C is 66. */
  lemma CryptedByte()
    ensures Crypted([0x5A], [0x3C]) == [0x66]
  {
    Words.XorSample();
    hide Words.Xor;
    assert XorByte(0x5A, 0x3C) == 0x66;
    OneByteKey([0x5A], [0x3C]);
  }

  lemma OneByteKey(input: Str, key: Str)
    requires |input| == |key| == 1
    ensures Crypted(input, key) == [XorByte(input[0], key[0])]
  {
    hide XorByte;
  }

  lemma XorByteUndoes(a: byte, b: byte)
    ensures XorByte(XorByte(a, b), b) == a
    ensures XorByte(a, b) == 0 <==> a == b
  {
    Words.Pow8();
    Words.XorUndoes(8, a, b);
    Words.XorZero(8, a, b);
  }

  /** Where the ciphertext has its first NUL: at the first byte equal to the key's byte there. */
  lemma CipherCut(v: Str, key: Str)
    requires key != []
    ensures var k := |Cut(Crypted(v, key))|;
            && (forall i :: 0 <= i < k ==> v[i] != key[i % |key|]) && (k < |v| ==> v[k] == key[k % |key|])
  {
    var c := Crypted(v, key);
    forall i | 0 <= i < |v| ensures c[i] == 0 <==> v[i] == key[i % |key|] {
      XorByteUndoes(v[i], key[i % |key|]);
    }
  }

  /** Decrypting what encrypting stored gives the value back exactly when it nowhere meets the key, and fits. */
  lemma DecryptInvertsEncryptIff(v: Str, key: Str, room: nat)
    requires key != [] && IsCString(v)
    ensures var stored := Cut(Crypted(v, key));
            var out := Cut(Crypted(Truncate(stored, room), key));
            out == v <==> |v| <= room && forall i :: 0 <= i < |v| ==> v[i] != key[i % |key|]
  {
    var stored := Cut(Crypted(v, key));
    CipherCut(v, key);
    var short := Truncate(stored, room);
    var plain := Crypted(short, key);
    forall i | 0 <= i < |short| ensures plain[i] == v[i] {
      XorByteUndoes(v[i], key[i % |key|]);
    }
    assert StrChr(plain, 0) == |plain|;
    assert plain == v[..|short|];
  }

  // ------------------------------------------------------------- one chain

  ghost predicate ChainOk(chain: seq<Entry>) {
    forall e :: e in chain ==> WellFormed(e) && Fits(e.name)
  }

  ghost predicate TidyChain(chain: seq<Entry>, b: nat) {
    && (forall i :: 0 <= i < |chain| ==> Bucket(chain[i].name) == b)
    && forall i, j :: 0 <= i < j < |chain| ==> chain[i].name != chain[j].name
  }

  function LookupIn(chain: seq<Entry>, n: Name): (e: Option<Entry>)
    ensures e.Some? ==> e.value in chain && e.value.name == n
  {
    var i := FindIn(chain, n);
    if i < |chain| then Some(chain[i]) else None
  }

  lemma FindInIs(chain: seq<Entry>, n: Name, i: nat)
    requires i <= |chain| && (i < |chain| ==> chain[i].name == n) && forall j :: 0 <= j < i ==> chain[j].name != n
    ensures FindIn(chain, n) == i
  {
  }

  lemma Replaced(chain: seq<Entry>, i: nat, e: Entry, m: Name)
    requires i < |chain| && FindIn(chain, e.name) == i
    ensures LookupIn(chain[i := e], m) == if m == e.name then Some(e) else LookupIn(chain, m)
  {
    FindInIs(chain[i := e], m, FindIn(chain, m));
  }

  lemma ReplacedKeeps(chain: seq<Entry>, i: nat, e: Entry, b: nat)
    requires i < |chain| && chain[i].name == e.name
    ensures ChainOk(chain) && WellFormed(e) && Fits(e.name) ==> ChainOk(chain[i := e])
    ensures TidyChain(chain, b) ==> TidyChain(chain[i := e], b)
  {
    hide Bucket, WellFormed, Fits;
  }

  lemma Pushed(chain: seq<Entry>, e: Entry, m: Name)
    ensures LookupIn([e] + chain, m) == if m == e.name then Some(e) else LookupIn(chain, m)
  {
    assert ([e] + chain)[1..] == chain;
  }

  lemma PushedKeeps(chain: seq<Entry>, e: Entry)
    ensures ChainOk(chain) && WellFormed(e) && Fits(e.name) ==> ChainOk([e] + chain)
    ensures LookupIn(chain, e.name) == None ==> TidyChain(chain, Bucket(e.name)) ==>
              TidyChain([e] + chain, Bucket(e.name))
  {
    hide Bucket, WellFormed, Fits;
    forall j | 0 <= j < |chain| && chain[j].name == e.name ensures LookupIn(chain, e.name) != None {
    }
  }

  lemma Removed(chain: seq<Entry>, i: nat, n: Name, m: Name)
    requires i < |chain| && FindIn(chain, n) == i && m != n
    ensures LookupIn(RemoveAt(chain, i), m) == LookupIn(chain, m)
  {
    hide FindIn, RemoveAt;
    var k := FindIn(chain, m);
    FindInIs(RemoveAt(chain, i), m, if k < i then k else k - 1);
  }

  lemma RemovedTidy(chain: seq<Entry>, i: nat, n: Name, b: nat)
    requires i < |chain| && FindIn(chain, n) == i
    ensures ChainOk(chain) ==> ChainOk(RemoveAt(chain, i))
    ensures TidyChain(chain, b) ==> TidyChain(RemoveAt(chain, i), b) && LookupIn(RemoveAt(chain, i), n) == None
  {
    hide FindIn, RemoveAt, Bucket, WellFormed, Fits;
    var rest := RemoveAt(chain, i);
    if TidyChain(chain, b) {
      forall j | 0 <= j < |rest| ensures rest[j].name != n {
        assert chain[i].name == n;
      }
    }
  }

  // --------------------------------------------------------------- the centre

  /** Makes the newest archived version current, for any entry; nothing happens exactly when none is newer. */
  method RepairEntry(before: Entry, now: int) returns (e: Entry, repaired: bool)
    ensures repaired <==> exists k :: 0 <= k < |before.versions| && before.versions[k].version > before.version
    ensures !repaired ==> e == before
    ensures before.versions <= e.versions && forall k :: 0 <= k < |e.versions| ==> e.versions[k].version <= e.version
    ensures repaired ==> exists k :: 0 <= k < |before.versions| && e.version == before.versions[k].version
                                     && e.value == before.versions[k].value
  {
    e, repaired := before, false;
    var latest, i := e.version, 0;
    while i < |e.versions|
      invariant 0 <= i <= |e.versions| && latest == e.version && before.versions <= e.versions
      invariant forall k :: 0 <= k < i || |before.versions| <= k < |e.versions| ==> e.versions[k].version <= latest
      invariant !repaired ==> e == before
      invariant repaired ==> latest > before.version
      invariant repaired ==> exists k :: 0 <= k < |before.versions| && latest == before.versions[k].version
                                         && e.value == before.versions[k].value
      decreases |before.versions| - (if i < |before.versions| then i else |before.versions|), |e.versions| - i
    {
      if e.versions[i].version > latest {
        latest := e.versions[i].version;
        e := Archived(e);
        e := e.(value := e.versions[i].value, version := latest, updatedAt := now);
        repaired := true;
      }
      i := i + 1;
    }
  }

  class Center {
    const buckets: array<seq<Entry>>

    ghost predicate Valid()
      reads this, buckets
    {
      buckets.Length == BUCKETS && forall b {:trigger buckets[b]} :: 0 <= b < BUCKETS ==> ChainOk(buckets[b])
    }

    /** Every entry is in the chain its name hashes to, and no name is there twice. */
    ghost predicate Tidy()
      reads this, buckets
      requires Valid()
    {
      forall b {:trigger buckets[b]} :: 0 <= b < BUCKETS ==> TidyChain(buckets[b], b)
    }

    ghost function Lookup(n: Name): (e: Option<Entry>)
      reads this, buckets
      requires Valid()
      ensures e.Some? ==> WellFormed(e.value) && e.value.name == n && Fits(n)
    {
      LookupIn(buckets[Bucket(n)], n)
    }

    /** The values written under a name, oldest first. */
    ghost function Hist(n: Name): seq<Str>
      reads this, buckets
      requires Valid()
    {
      Values(Lookup(n))
    }

    constructor ()
      ensures Valid() && fresh(buckets) && Tidy() && forall n :: Lookup(n) == None
    {
      buckets := new seq<Entry>[BUCKETS](_ => []);
    }

    method Find(n: Name) returns (b: nat, i: nat)
      requires Valid()
      ensures b == Bucket(n) && i == FindIn(buckets[b], n)
      ensures Lookup(n) == (if i < |buckets[b]| then Some(buckets[b][i]) else None)
    {
      var h := HashDjb2(Words.W32, Composite(n));
      b, i := h % BUCKETS, 0;
      while i < |buckets[b]| && buckets[b][i].name != n
        invariant 0 <= i <= |buckets[b]|
        invariant FindIn(buckets[b], n) == i + FindIn(buckets[b][i..], n)
      {
        assert buckets[b][i..][1..] == buckets[b][i + 1..];
        i := i + 1;
      }
    }

    /** Puts a new entry in place of the one at position `i`, which has its name. */
    method Replace(b: nat, i: nat, e: Entry)
      requires Valid() && b == Bucket(e.name) && i < |buckets[b]| && i == FindIn(buckets[b], e.name)
      requires WellFormed(e) && Fits(e.name)
      modifies buckets
      ensures Valid() && (old(Tidy()) ==> Tidy())
      ensures forall m :: Lookup(m) == if m == e.name then Some(e) else old(Lookup(m))
    {
      hide ChainOk, TidyChain, LookupIn, FindIn, Bucket, WellFormed;
      ReplacedKeeps(buckets[b], i, e, b);
      buckets[b] := buckets[b][i := e];
      forall m ensures Lookup(m) == if m == e.name then Some(e) else old(Lookup(m)) {
        if Bucket(m) == b {
          Replaced(old(buckets[b]), i, e, m);
        } else {
          assert buckets[Bucket(m)] == old(buckets[Bucket(m)]);
        }
      }
    }

    method Push(b: nat, e: Entry)
      requires Valid() && b < BUCKETS && WellFormed(e) && Fits(e.name)
      modifies buckets
      ensures Valid() && (old(Tidy()) && b == Bucket(e.name) && old(Lookup(e.name)) == None ==> Tidy())
      ensures forall m :: Lookup(m) == if m == e.name && Bucket(m) == b then Some(e) else old(Lookup(m))
    {
      hide ChainOk, TidyChain, LookupIn, FindIn, Bucket, WellFormed;
      PushedKeeps(buckets[b], e);
      buckets[b] := [e] + buckets[b];
      forall m ensures Lookup(m) == if m == e.name && Bucket(m) == b then Some(e) else old(Lookup(m)) {
        if Bucket(m) == b {
          Pushed(old(buckets[b]), e, m);
        } else {
          assert buckets[Bucket(m)] == old(buckets[Bucket(m)]);
        }
      }
    }

    /** Writes a new version; a name too long for its buffers makes an entry no lookup of that name finds. */
    method Put(n: Name, value: Str, now: int)
      requires Valid()
      modifies buckets
      ensures Valid() && (old(Tidy()) && Fits(n) ==> Tidy())
      ensures forall m :: Lookup(m) ==
                if m == Stored(n) && Bucket(m) == Bucket(n) then Some(Written(old(Lookup(n)), n, value, now))
                else old(Lookup(m))
      ensures Fits(n) ==> forall m :: Hist(m) == Step(old(Hist(m)), OpPut(n, value), m)
      ensures Fits(n) ==> Hist(n) == old(Hist(n)) + [value] && forall m :: m != n ==> Hist(m) == old(Hist(m))
    {
      hide ChainOk, TidyChain, FindIn, Bucket, WellFormed, History;
      var b, i := Find(n);
      WrittenAppends(Lookup(n), n, value, now);
      if i < |buckets[b]| {
        var e := Archived(buckets[b][i]);
        Replace(b, i, e.(value := value, version := e.version + 1, updatedAt := now));
        return;
      }
      Push(b, Entry(Stored(n), value, 1, now, now, false, []));
    }

    method Get(n: Name) returns (r: Option<View>)
      requires Valid()
      ensures r == match Lookup(n) case None => None case Some(e) => Some(Show(e))
      ensures r.None? <==> Hist(n) == []
      ensures r.Some? ==>
                && r.value.name == n && r.value.version == |Hist(n)| && r.value.value == Hist(n)[|Hist(n)| - 1]
                && var e := Lookup(n).value;
                   r.value.createdAt == e.createdAt && r.value.updatedAt == e.updatedAt
                   && r.value.encrypted == e.encrypted
    {
      var b, i := Find(n);
      if i == |buckets[b]| { return None; }
      return Some(Show(buckets[b][i]));
    }

    /** Unlinks the entry found under the name; what a duplicate of it would then answer is all that can be left. */
    method Delete(n: Name) returns (ok: bool)
      requires Valid()
      modifies buckets
      ensures Valid() && (ok <==> old(Lookup(n)).Some?)
      ensures forall m :: m != n || !ok ==> Lookup(m) == old(Lookup(m))
      ensures ok ==>
                var chain := old(buckets[Bucket(n)]);
                buckets[..] == old(buckets[..])[Bucket(n) := RemoveAt(chain, FindIn(chain, n))]
      ensures old(Tidy()) ==> Lookup(n).None? && Hist(n) == []
      ensures old(Tidy()) ==> Tidy() && forall m :: Hist(m) == Step(old(Hist(m)), OpDelete(n), m)
    {
      hide ChainOk, TidyChain, FindIn, Bucket, WellFormed, History, RemoveAt;
      var b, i := Find(n);
      if i == |buckets[b]| { return false; }
      RemovedTidy(buckets[b], i, n, b);
      forall m | m != n ensures LookupIn(RemoveAt(buckets[b], i), m) == LookupIn(buckets[b], m) {
        Removed(buckets[b], i, n, m);
      }
      buckets[b] := RemoveAt(buckets[b], i);
      return true;
    }

    /** The value current at version `v`, for exactly the versions there have been. */
    method GetVersion(n: Name, v: int) returns (r: Option<View>)
      requires Valid()
      ensures r.Some? <==> 1 <= v <= |Hist(n)|
      ensures r.Some? ==> r.value.value == Hist(n)[v - 1] && r.value.version == v && r.value.name == n
    {
      var b, i := Find(n);
      if i == |buckets[b]| { return None; }
      var e := buckets[b][i];
      assert WellFormed(e);
      if v == e.version {
        r := Get(n);
        return;
      }
      var j := FindVersion(e, v);
      if j == |e.versions| { return None; }
      var a := e.versions[j];
      return Some(View(e.name, a.value, a.version, a.createdAt, a.createdAt, e.encrypted));
    }

    /** Writes an archived value again as a new version; refused for the current version as for one there never was. */
    method Rollback(n: Name, v: int, now: int) returns (ok: bool)
      requires Valid()
      modifies buckets
      ensures Valid() && (old(Tidy()) ==> Tidy())
      ensures ok <==> 1 <= v < |old(Hist(n))|
      ensures forall m :: Lookup(m) ==
                if m == n && ok then Some(Written(old(Lookup(n)), n, old(Hist(n))[v - 1], now)) else old(Lookup(m))
      ensures forall m :: Hist(m) == Step(old(Hist(m)), OpRollback(n, v), m)
      ensures Hist(n) == (if ok then old(Hist(n)) + [old(Hist(n))[v - 1]] else old(Hist(n)))
      ensures forall m :: m != n ==> Hist(m) == old(Hist(m))
    {
      hide ChainOk, TidyChain, FindIn, Bucket, History, WellFormed, LookupIn;
      var b, i := Find(n);
      if i == |buckets[b]| { return false; }
      var e := buckets[b][i];
      ghost var h := Hist(n);
      var j := FindVersion(e, v);
      if j == |e.versions| { return false; }
      WrittenAppends(Lookup(n), n, h[v - 1], now);
      var a := Archived(e);
      Replace(b, i, a.(value := a.versions[j].value, version := a.version + 1, updatedAt := now));
      return true;
    }

    /** Looks for archived versions newer than the current one; the entries of a centre have none. */
    method ReadRepair(n: Name, now: int) returns (code: int)
      requires Valid()
      modifies buckets
      ensures Valid() && buckets[..] == old(buckets[..])
      ensures code == if Lookup(n).None? then -1 else 0
    {
      var b, i := Find(n);
      if i == |buckets[b]| { return -1; }
      assert WellFormed(buckets[b][i]);
      var e, repaired := RepairEntry(buckets[b][i], now);
      assert buckets[b][i := e] == buckets[b];
      buckets[b] := buckets[b][i := e];
      return if repaired then 1 else 0;
    }

    method QuorumRead(n: Name) returns (r: Option<View>)
      requires Valid()
      ensures r == match Lookup(n) case None => None case Some(e) => Some(Show(e))
    {
      var b, i := Find(n);
      if i == |buckets[b]| { return None; }
      var e := buckets[b][i];
      assert WellFormed(e);
      var bestVersion, bestTimestamp := -1, 0;
      if e.version > bestVersion {
        bestVersion, bestTimestamp := e.version, e.updatedAt;
      }
      if bestVersion < 0 { return None; }
      return Some(View(e.name, e.value, bestVersion, e.createdAt, bestTimestamp, e.encrypted));
    }

    /** Every consistency level answers as the plain read does and leaves the centre as it is. */
    method GetConsistent(n: Name, level: Level, repair: bool, now: int) returns (r: Option<View>)
      requires Valid()
      modifies buckets
      ensures Valid() && buckets[..] == old(buckets[..])
      ensures r == match Lookup(n) case None => None case Some(e) => Some(Show(e))
    {
      match level
      case Quorum => r := QuorumRead(n);
      case Strong =>
        r := Get(n);
        if r.Some? && repair {
          var _ := ReadRepair(n, now);
        }
      case Eventual => r := Get(n);
    }

    /** The encrypted value is written like any other; an entry no lookup finds is not marked as encrypted. */
    method PutEncrypted(n: Name, value: Str, encKey: Str, now: int)
      requires Valid() && encKey != []
      modifies buckets
      ensures Valid() && (old(Tidy()) && Fits(n) ==> Tidy())
      ensures var w := Written(old(Lookup(n)), n, Cut(Crypted(value, encKey)), now);
              forall m :: Lookup(m) ==
                if m == Stored(n) && Bucket(m) == Bucket(n) then Some(if Fits(n) then w.(encrypted := true) else w)
                else old(Lookup(m))
    {
      hide ChainOk, TidyChain, FindIn, LookupIn, Bucket, Crypted, Cut;
      var enc := XorCrypt(value, encKey, |value|);
      assert value[..|value|] == value;
      Put(n, Cut(enc), now);
      var b, i := Find(n);
      if i < |buckets[b]| {
        Replace(b, i, buckets[b][i].(encrypted := true));
      }
    }

    method GetDecrypted(n: Name, outSize: nat, encKey: Str) returns (out: Option<Str>)
      requires Valid() && outSize > 0 && encKey != []
      ensures out == match Lookup(n)
                     case None => None
                     case Some(e) => Some(Cut(Crypted(Truncate(e.value, outSize - 1), encKey)))
    {
      var b, i := Find(n);
      if i == |buckets[b]| { return None; }
      var e := buckets[b][i];
      var len := if |e.value| < outSize - 1 then |e.value| else outSize - 1;
      var plain := XorCrypt(e.value, encKey, len);
      assert e.value[..len] == Truncate(e.value, outSize - 1);
      return Some(Cut(plain));
    }
  }
}
