/** The text snapshot of a configuration centre: one record per line, and reading it back. */
module ConfigSnapshot {
  import opened CStrings
  import opened ConfigCenter
  import Decimal

  const NEWLINE: byte := 10
  const EQUALS: byte := 61
  const BAR: byte := 124
  /** The buffer a line is read into, terminator included. */
  const LINE_SIZE: nat := 128 + 64 + 64 + 65536 + 256

  datatype Record = Record(name: Name, version: int, value: Str)

  /** A string cut at a separator. */
  datatype Split = Split(head: Str, tail: Str)

  // ---------------------------------------------------------------- printing

  function Header(e: Entry): Str {
    e.name.ns + ([COLON] + (e.name.group + ([COLON] + (e.name.key + ([EQUALS] +
      (Decimal.Print(e.version) + ([BAR] + (Decimal.Digits(|e.value|) + [COLON]))))))))
  }

  function PrintRecord(e: Entry): Str {
    Header(e) + e.value + [NEWLINE]
  }

  /** Entry "n:g:k" at version 12 with value "v=1" is printed as `n:g:k=12|3:v=1` and a newline. */
  lemma PrintedRecord(e: Entry)
    requires e.name == Name([110], [103], [107]) && e.version == 12 && e.value == [118, 61, 49]
    ensures PrintRecord(e) == [110, 58, 103, 58, 107, 61, 49, 50, 124, 51, 58, 118, 61, 49, 10]
  {
    assert Decimal.Print(12) == [49, 50] && Decimal.Digits(3) == [51];
  }

  function PrintAll(es: seq<Entry>): Str {
    if es == [] then [] else PrintRecord(es[0]) + PrintAll(es[1..])
  }

  function AllEntries(chains: seq<seq<Entry>>): seq<Entry> {
    if chains == [] then [] else AllEntries(chains[..|chains| - 1]) + chains[|chains| - 1]
  }

  lemma {:induction false} PrintAllAppends(es: seq<Entry>, e: Entry)
    ensures PrintAll(es + [e]) == PrintAll(es) + PrintRecord(e)
  {
    hide PrintRecord;
    if es == [] {
      assert PrintAll([e]) == PrintRecord(e) + PrintAll([]);
    } else {
      PrintAllAppends(es[1..], e);
      assert (es + [e])[1..] == es[1..] + [e];
    }
  }

  method Save(center: Center) returns (text: Str)
    requires center.Valid()
    ensures text == PrintAll(AllEntries(center.buckets[..]))
  {
    hide PrintRecord;
    text := [];
    ghost var all := center.buckets[..];
    for i := 0 to center.buckets.Length
      invariant text == PrintAll(AllEntries(all[..i]))
    {
      var chain := center.buckets[i];
      assert AllEntries(all[..i]) + chain[..0] == AllEntries(all[..i]);
      for j := 0 to |chain|
        invariant text == PrintAll(AllEntries(all[..i]) + chain[..j])
      {
        PrintAllAppends(AllEntries(all[..i]) + chain[..j], chain[j]);
        assert AllEntries(all[..i]) + chain[..j + 1] == AllEntries(all[..i]) + chain[..j] + [chain[j]];
        text := text + PrintRecord(chain[j]);
      }
      assert all[..i + 1][..i] == all[..i];
      assert chain[..|chain|] == chain;
    }
    assert all[..center.buckets.Length] == all;
  }

  // ----------------------------------------------------------------- parsing

  /** How much `fgets` reads: up to and with the first newline, or what the buffer holds. */
  function FirstLine(text: Str): (k: nat)
    ensures k <= |text| && k < LINE_SIZE && (text != [] ==> k > 0)
  {
    var room := Truncate(text, LINE_SIZE - 1);
    var k := StrChr(room, NEWLINE);
    if k < |room| then k + 1 else |room|
  }

  function SplitAt(s: Str, c: byte): Option<Split> {
    var k := StrChr(s, c);
    if k == |s| then None else Some(Split(s[..k], s[k + 1..]))
  }

  /** A declared length at or past the end of the line's value changes nothing. */
  function ParseValue(s: Str, declared: int): Str {
    var v := s[..StrChr(s, NEWLINE)];
    if 0 <= declared < |v| then v[..declared] else v
  }

  function ParseLine(line: Str): (r: Option<Record>)
    ensures r.Some? ==> Fits(r.value.name)
  {
    var a := SplitAt(line, COLON);
    if a.None? then None else
    var b := SplitAt(a.value.tail, COLON);
    if b.None? then None else
    var c := SplitAt(b.value.tail, EQUALS);
    if c.None? then None else
    ParseRest(Stored(Name(a.value.head, b.value.head, c.value.head)), c.value.tail)
  }

  /** The version, the declared length and the value, after the name. */
  function ParseRest(n: Name, s: Str): (r: Option<Record>)
    ensures r.Some? ==> r.value.name == n
  {
    var d := SplitAt(s, BAR);
    if d.None? then None else
    var e := SplitAt(d.value.tail, COLON);
    if e.None? then None else
    Some(Record(n, Decimal.Parse(d.value.head), ParseValue(e.value.tail, Decimal.Parse(e.value.head))))
  }

  /** The records a file is read as; lines that do not parse are skipped. */
  function Records(text: Str): seq<Record>
    decreases |text|
  {
    if text == [] then [] else
    var k := FirstLine(text);
    var r := ParseLine(text[..k]);
    (if r.None? then [] else [r.value]) + Records(text[k..])
  }

  /** What reading `r` does to the history under `n`: it is written if new or of a higher version. */
  function Restore(h: seq<Str>, r: Record, n: Name): seq<Str> {
    if r.name == n && (h == [] || r.version > |h|) then h + [r.value] else h
  }

  function RestoreAll(h: seq<Str>, rs: seq<Record>, n: Name): seq<Str>
    decreases |rs|
  {
    if rs == [] then h else RestoreAll(Restore(h, rs[0], n), rs[1..], n)
  }

  lemma RestoreFirst(r: Record, rs: seq<Record>)
    ensures forall h, n :: RestoreAll(h, [r] + rs, n) == RestoreAll(Restore(h, r, n), rs, n)
  {
    assert ([r] + rs)[1..] == rs;
  }

  method Load(center: Center, text: Str, now: int)
    requires center.Valid()
    modifies center.buckets
    ensures center.Valid() && (old(center.Tidy()) ==> center.Tidy())
    ensures forall n :: center.Hist(n) == RestoreAll(old(center.Hist(n)), Records(text), n)
  {
    hide ParseLine, FirstLine, Restore;
    var rest := text;
    while rest != []
      invariant center.Valid() && (old(center.Tidy()) ==> center.Tidy())
      invariant forall n ::
                RestoreAll(center.Hist(n), Records(rest), n) == RestoreAll(old(center.Hist(n)), Records(text), n)
      decreases |rest|
    {
      var k := FirstLine(rest);
      var r := ParseLine(rest[..k]);
      ghost var later := Records(rest[k..]);
      if r.Some? {
        assert Records(rest) == [r.value] + later;
        RestoreFirst(r.value, later);
        RestoreRecord(center, r.value, now);
      } else {
        assert Records(rest) == [] + later == later;
      }
      rest := rest[k..];
    }
  }

  method RestoreRecord(center: Center, r: Record, now: int)
    requires center.Valid() && Fits(r.name)
    modifies center.buckets
    ensures center.Valid() && (old(center.Tidy()) ==> center.Tidy())
    ensures forall n :: center.Hist(n) == Restore(old(center.Hist(n)), r, n)
    ensures var h := old(center.Hist(r.name));
            center.Hist(r.name) == if h == [] || r.version > |h| then h + [r.value] else h
    ensures forall n :: n != r.name ==> center.Hist(n) == old(center.Hist(n))
  {
    var b, i := center.Find(r.name);
    if i == |center.buckets[b]| || r.version > center.buckets[b][i].version {
      center.Put(r.name, r.value, now);
    }
  }

  // -------------------------------------------------------------- round trip

  /** Exactly the entries whose printed record reads back as itself. */
  ghost predicate Printable(e: Entry) {
    && COLON !in e.name.ns && COLON !in e.name.group && EQUALS !in e.name.key
    && NEWLINE !in Header(e) && NEWLINE !in e.value
    && |PrintRecord(e)| <= LINE_SIZE
  }

  function AsRecord(e: Entry): Record {
    Record(e.name, e.version, e.value)
  }

  /**
   Cutting what is left of `a`, separator, `t`: the head is `a` exactly when `a`
   has no separator and is all there.
   */
  lemma SplitFirst(line: Str, a: Str, c: byte, t: Str)
    requires line <= a + ([c] + t)
    ensures var s := SplitAt(line, c);
            && (s.Some? ==> |s.value.head| <= |a|)
            && (s.Some? && s.value.head == a <==> c !in a && |a| < |line|)
            && (s.Some? && s.value.head == a ==> s.value.tail == line[|a| + 1..] && s.value.tail <= t)
            && (c !in a ==> (s.Some? <==> |a| < |line|))
  {
    var all := a + ([c] + t);
    if c !in a && |a| < |line| {
      assert line[|a|] == all[|a|] == c;
      forall j | 0 <= j < |a| ensures line[j] != c { assert line[j] == all[j] == a[j]; }
      StrChrIs(line, c, |a|);
      assert line[..|a|] == a;
      assert all[|a| + 1..] == t;
    } else if |a| < |line| {
      var j :| 0 <= j < |a| && a[j] == c;
      assert line[j] == all[j] == c;
    } else {
      assert forall j :: 0 <= j < |line| ==> line[j] == all[j] == a[j];
    }
  }

  lemma ValueReads(line: Str, value: Str)
    requires line <= value + [NEWLINE]
    ensures ParseValue(line, |value|) == value <==> NEWLINE !in value && |value| <= |line|
  {
    var all := value + [NEWLINE];
    assert forall j :: 0 <= j < |line| ==> line[j] == all[j];
    if |value| <= |line| {
      assert forall j :: 0 <= j < |value| ==> line[j] == value[j];
      if NEWLINE !in value {
        StrChrIs(line, NEWLINE, |value|);
        assert line[..|value|] == value;
      } else {
        var j :| 0 <= j < |value| && value[j] == NEWLINE;
        assert line[j] == NEWLINE;
      }
    }
  }

  /** What is printed after an entry's name. */
  function Rest(e: Entry): Str {
    Decimal.Print(e.version) + ([BAR] + (Decimal.Digits(|e.value|) + ([COLON] + (e.value + [NEWLINE]))))
  }

  lemma RecordIs(e: Entry)
    ensures PrintRecord(e) == e.name.ns + ([COLON] + (e.name.group + ([COLON] + (e.name.key + ([EQUALS] + Rest(e))))))
  {
  }

  lemma ParseRestIff(line: Str, e: Entry)
    requires line <= Rest(e)
    ensures ParseRest(e.name, line) == Some(AsRecord(e)) <==> NEWLINE !in e.value && |Rest(e)| - 1 <= |line|
  {
    hide SplitAt, ParseValue, Decimal.Parse, Decimal.Print, Decimal.Digits;
    var v, l := Decimal.Print(e.version), Decimal.Digits(|e.value|);
    SplitFirst(line, v, BAR, l + ([COLON] + (e.value + [NEWLINE])));
    if |v| < |line| {
      var line1 := line[|v| + 1..];
      SplitFirst(line1, l, COLON, e.value + [NEWLINE]);
      Decimal.ParsePrint(e.version, []);
      Decimal.ParsePrint(|e.value|, []);
      Decimal.PrintNat(|e.value|);
      assert v + [] == v && l + [] == l;
      if |l| < |line1| {
        ValueReads(line1[|l| + 1..], e.value);
      }
    }
  }

  /**
   A line cut from an entry's printed record reads as the entry exactly when
   nothing in it is mistaken for a separator and the value is all there.
   */
  lemma ParseLineIff(line: Str, e: Entry)
    requires Fits(e.name) && line <= PrintRecord(e)
    ensures ParseLine(line) == Some(AsRecord(e)) <==>
              COLON !in e.name.ns && COLON !in e.name.group && EQUALS !in e.name.key && NEWLINE !in e.value
              && |PrintRecord(e)| - 1 <= |line|
  {
    hide SplitAt, ParseRest, Rest, StrChr, PrintRecord;
    var t2 := e.name.key + ([EQUALS] + Rest(e));
    var t1 := e.name.group + ([COLON] + t2);
    RecordIs(e);
    SplitFirst(line, e.name.ns, COLON, t1);
    if COLON !in e.name.ns && |e.name.ns| < |line| {
      var line1 := line[|e.name.ns| + 1..];
      SplitFirst(line1, e.name.group, COLON, t2);
      if COLON !in e.name.group && |e.name.group| < |line1| {
        var line2 := line1[|e.name.group| + 1..];
        SplitFirst(line2, e.name.key, EQUALS, Rest(e));
        if EQUALS !in e.name.key && |e.name.key| < |line2| {
          ParseRestIff(line2[|e.name.key| + 1..], e);
        }
      }
    }
    RestLength(e);
  }

  lemma RestLength(e: Entry)
    ensures |Rest(e)| >= 3
  {
  }

  /** The first line of a file that starts with text ended by a newline. */
  lemma FirstLineOf(body: Str, rest: Str)
    ensures var k := FirstLine(body + [NEWLINE] + rest);
            && k <= |body| + 1
            && (NEWLINE !in body ==> (|body| <= k <==> |body| < LINE_SIZE))
            && (forall j :: 0 <= j < |body| && body[j] == NEWLINE ==> k <= j + 1)
            && (NEWLINE !in body && |body| + 1 < LINE_SIZE ==> k == |body| + 1)
            && (NEWLINE !in body && |body| + 1 == LINE_SIZE ==> k == |body|)
  {
    var text := body + [NEWLINE] + rest;
    var room := Truncate(text, LINE_SIZE - 1);
    var k := StrChr(room, NEWLINE);
    assert forall j :: 0 <= j < |body| ==> text[j] == body[j];
    assert text[|body|] == NEWLINE;
    assert forall j :: 0 <= j < |room| ==> room[j] == text[j];
    if NEWLINE !in body {
      if |body| + 1 < LINE_SIZE { StrChrIs(room, NEWLINE, |body|); }
    }
  }

  lemma HeaderEnds(e: Entry)
    ensures Header(e) != [] && Header(e)[|Header(e)| - 1] == COLON
  {
  }

  /** At the head of a file an entry's record is read back as the entry exactly when it is printable. */
  lemma RecordRoundTripIff(e: Entry, rest: Str)
    requires Fits(e.name)
    ensures var text := PrintRecord(e) + rest;
            ParseLine(text[..FirstLine(text)]) == Some(AsRecord(e)) <==> Printable(e)
  {
    hide Header, ParseLine, FirstLine, Decimal.Print, Decimal.Digits;
    var p := PrintRecord(e);
    var text := p + rest;
    var body := Header(e) + e.value;
    FirstLineOf(body, rest);
    var k := FirstLine(text);
    assert text == body + [NEWLINE] + rest;
    assert text[..k] == p[..k];
    ParseLineIff(text[..k], e);
    HeaderEnds(e);
    assert forall j :: 0 <= j < |Header(e)| ==> body[j] == Header(e)[j];
    assert NEWLINE !in body <==> NEWLINE !in Header(e) && NEWLINE !in e.value;
  }

  lemma RecordsOfOne(e: Entry, rest: Str)
    requires Fits(e.name) && Printable(e)
    ensures Records(PrintRecord(e) + rest) == [AsRecord(e)] + Records(rest)
  {
    hide Header, ParseLine, FirstLine, Decimal.Print, Decimal.Digits;
    var p := PrintRecord(e);
    var text := p + rest;
    RecordRoundTripIff(e, rest);
    var body := Header(e) + e.value;
    FirstLineOf(body, rest);
    assert text == body + [NEWLINE] + rest;
    var k := FirstLine(text);
    if |p| < LINE_SIZE {
      assert text[k..] == rest;
    } else {
      assert text[k..] == [NEWLINE] + rest;
      BlankLine(rest);
    }
  }

  /** A lone newline is skipped. */
  lemma BlankLine(rest: Str)
    ensures Records([NEWLINE] + rest) == Records(rest)
  {
    FirstLineOf([], rest);
    assert [] + [NEWLINE] + rest == [NEWLINE] + rest;
    assert ([NEWLINE] + rest)[..1] == [NEWLINE];
    assert ([NEWLINE] + rest)[1..] == rest;
    assert ParseLine([NEWLINE]) == None;
  }

  lemma {:induction false} RecordsOfAll(es: seq<Entry>)
    requires forall e :: e in es ==> Fits(e.name) && Printable(e)
    ensures |Records(PrintAll(es))| == |es|
    ensures forall i :: 0 <= i < |es| ==> Records(PrintAll(es))[i] == AsRecord(es[i])
  {
    hide PrintRecord, Printable, ParseLine, FirstLine;
    if es != [] {
      RecordsOfOne(es[0], PrintAll(es[1..]));
      RecordsOfAll(es[1..]);
    }
  }

  /** Restoring records of distinct names into nothing writes each value once. */
  lemma {:induction false} RestoreDistinct(h: seq<Str>, rs: seq<Record>, n: Name)
    requires forall i, j :: 0 <= i < j < |rs| ==> rs[i].name != rs[j].name
    requires h == [] || forall i :: 0 <= i < |rs| ==> rs[i].name != n
    ensures (forall i :: 0 <= i < |rs| ==> rs[i].name != n) ==> RestoreAll(h, rs, n) == h
    ensures forall i :: 0 <= i < |rs| && rs[i].name == n ==> RestoreAll(h, rs, n) == [rs[i].value]
    decreases |rs|
  {
    if rs != [] {
      RestoreDistinct(Restore(h, rs[0], n), rs[1..], n);
    }
  }

  ghost predicate Distinct(es: seq<Entry>) {
    forall i, j :: 0 <= i < j < |es| ==> es[i].name != es[j].name
  }

  /** In tidy chains no name occurs twice, in one chain or in two. */
  lemma {:induction false} EntriesDistinct(chains: seq<seq<Entry>>)
    requires forall b :: 0 <= b < |chains| ==> TidyChain(chains[b], b)
    ensures var es := AllEntries(chains);
            Distinct(es) && forall i :: 0 <= i < |es| ==> Bucket(es[i].name) < |chains|
  {
    hide Bucket;
    if chains != [] {
      var m := |chains| - 1;
      EntriesDistinct(chains[..m]);
      var es, chain := AllEntries(chains[..m]), chains[m];
      assert TidyChain(chain, m);
      forall i, j | 0 <= i < |es| && 0 <= j < |chain| ensures es[i].name != chain[j].name {
      }
    }
  }

  lemma {:induction false} InAllEntries(chains: seq<seq<Entry>>, b: nat, i: nat) returns (k: nat)
    requires b < |chains| && i < |chains[b]|
    ensures k < |AllEntries(chains)| && AllEntries(chains)[k] == chains[b][i]
  {
    var m := |chains| - 1;
    if b == m {
      k := |AllEntries(chains[..m])| + i;
    } else {
      k := InAllEntries(chains[..m], b, i);
    }
  }

  lemma {:induction false} FromAllEntries(chains: seq<seq<Entry>>, k: nat) returns (b: nat, i: nat)
    requires k < |AllEntries(chains)|
    ensures b < |chains| && i < |chains[b]| && AllEntries(chains)[k] == chains[b][i]
  {
    var m := |chains| - 1;
    var es := AllEntries(chains[..m]);
    if k < |es| {
      b, i := FromAllEntries(chains[..m], k);
    } else {
      b, i := m, k - |es|;
    }
  }

  /** Every entry a lookup finds in the centre is printable. */
  ghost predicate AllPrintable(c: Center)
    reads c, c.buckets
    requires c.Valid()
  {
    forall m :: c.Lookup(m).Some? ==> Printable(c.Lookup(m).value)
  }

  lemma EntryFound(c: Center, k: nat)
    requires c.Valid() && c.Tidy() && k < |AllEntries(c.buckets[..])|
    ensures var e := AllEntries(c.buckets[..])[k];
            c.Lookup(e.name) == Some(e) && Fits(e.name)
  {
    hide Bucket, WellFormed, Fits;
    var b, i := FromAllEntries(c.buckets[..], k);
    var chain := c.buckets[b];
    assert TidyChain(chain, b) && ChainOk(chain);
    assert chain[i] in chain;
    FindInIs(chain, chain[i].name, i);
  }

  lemma FoundEntry(c: Center, n: Name) returns (k: nat)
    requires c.Valid() && c.Lookup(n).Some?
    ensures k < |AllEntries(c.buckets[..])| && AllEntries(c.buckets[..])[k] == c.Lookup(n).value
  {
    k := InAllEntries(c.buckets[..], Bucket(n), FindIn(c.buckets[Bucket(n)], n));
  }

  /** Reading a saved snapshot into nothing leaves under each name its current value, as version 1. */
  lemma SnapshotRestores(c: Center, n: Name)
    requires c.Valid() && c.Tidy() && AllPrintable(c)
    ensures RestoreAll([], Records(PrintAll(AllEntries(c.buckets[..]))), n)
         == if c.Lookup(n).None? then [] else [c.Lookup(n).value.value]
  {
    hide Printable, Records, PrintAll, RestoreAll, AllEntries, TidyChain, ChainOk, LookupIn;
    var es := AllEntries(c.buckets[..]);
    forall e | e in es ensures Fits(e.name) && Printable(e) {
      var k :| 0 <= k < |es| && es[k] == e;
      EntryFound(c, k);
    }
    assert forall b :: 0 <= b < |c.buckets[..]| ==> TidyChain(c.buckets[..][b], b);
    EntriesDistinct(c.buckets[..]);
    RecordsOfAll(es);
    var rs := Records(PrintAll(es));
    forall i, j | 0 <= i < j < |rs| ensures rs[i].name != rs[j].name {
      assert es[i].name != es[j].name;
    }
    RestoreDistinct([], rs, n);
    if c.Lookup(n).Some? {
      var k := FoundEntry(c, n);
      assert rs[k] == AsRecord(es[k]);
    } else {
      forall i | 0 <= i < |rs| ensures rs[i].name != n {
        EntryFound(c, i);
      }
    }
  }

  lemma {:induction false} RestoreNothing(h: seq<Str>, rs: seq<Record>, n: Name)
    requires forall i :: 0 <= i < |rs| && rs[i].name == n ==> h != [] && rs[i].version <= |h|
    ensures RestoreAll(h, rs, n) == h
    decreases |rs|
  {
    if rs != [] { RestoreNothing(h, rs[1..], n); }
  }

  /** Loading a centre's snapshot into the centre itself changes no history. */
  lemma SnapshotOntoItself(c: Center, n: Name)
    requires c.Valid() && c.Tidy() && AllPrintable(c)
    ensures RestoreAll(c.Hist(n), Records(PrintAll(AllEntries(c.buckets[..]))), n) == c.Hist(n)
  {
    hide Printable, Records, PrintAll, RestoreAll, AllEntries, TidyChain, ChainOk, LookupIn;
    var es := AllEntries(c.buckets[..]);
    forall e | e in es ensures Fits(e.name) && Printable(e) {
      var k :| 0 <= k < |es| && es[k] == e;
      EntryFound(c, k);
    }
    RecordsOfAll(es);
    var rs := Records(PrintAll(es));
    forall i | 0 <= i < |rs| && rs[i].name == n ensures c.Hist(n) != [] && rs[i].version <= |c.Hist(n)| {
      EntryFound(c, i);
    }
    RestoreNothing(c.Hist(n), rs, n);
  }

  /** A centre rebuilt from its own snapshot: the same names with the same values. */
  method Rebuild(c: Center, now: int) returns (d: Center)
    requires c.Valid() && c.Tidy() && AllPrintable(c)
    ensures d.Valid() && d.Tidy() && fresh(d)
    ensures forall n :: d.Hist(n) == if c.Lookup(n).None? then [] else [c.Lookup(n).value.value]
  {
    hide AllPrintable;
    var text := Save(c);
    d := new Center();
    forall n ensures RestoreAll([], Records(text), n) == if c.Lookup(n).None? then [] else [c.Lookup(n).value.value] {
      SnapshotRestores(c, n);
    }
    Load(d, text, now);
  }

  /** Values within the documented limit and names without separators are always printable. */
  lemma DocumentedLimitsPrintable(e: Entry)
    requires WellFormed(e) && Fits(e.name) && e.version < 0x8000_0000 && |e.value| <= 65536
    requires COLON !in e.name.ns && COLON !in e.name.group && EQUALS !in e.name.key
    requires NEWLINE !in e.name.ns && NEWLINE !in e.name.group && NEWLINE !in e.name.key && NEWLINE !in e.value
    ensures Printable(e)
  {
    hide Decimal.Print, Decimal.Digits;
    assert Decimal.Power10(5) == 100_000;
    assert Decimal.Power10(10) == 100_000 * Decimal.Power10(5);
    Decimal.PrintNat(e.version);
    Decimal.DigitsLength(e.version, 10);
    Decimal.DigitsLength(|e.value|, 5);
  }
}
