/**
 The audit log: records in place, each carrying the FNV-1a hash of its own
 text and a copy of its predecessor's, and the scan that checks them.
 */
module AuditLog {
  import opened CStrings
  import opened Words
  import Decimal

  const MAX_EVENTS := 4096
  const BAR: byte := 124
  const OFFSET_BASIS: nat := 14695981039346656037
  const PRIME: nat := 1099511628211
  /** The prime's inverse modulo 2^64, and how far their product exceeds 1. */
  const INVERSE: nat := 14886173955864302971
  const QUOTIENT: nat := 887285111055

  // -------------------------------------------------------------------- hash

  function FnvStep(hash: nat, b: byte): (h: nat)
    ensures h < W64
  {
    Xor64(hash, b) * PRIME % W64
  }

  function Fnv(s: Str): (h: nat)
    ensures h < W64
  {
    if s == [] then OFFSET_BASIS else FnvStep(Fnv(s[..|s| - 1]), s[|s| - 1])
  }

  /** The hash of the one letter "a", as published for FNV-1a. */
  lemma FnvOfA()
    ensures Fnv([97]) == 0xaf63dc4c8601ec8c
  {
    assert [97][..0] == [];
    Pow57();
    XorNothing(57, 114812351869895750);
    assert Xor(58, 229624703739791500, 1) == 229624703739791501;
    assert Xor(59, 459249407479583001, 3) == 459249407479583002;
    assert Xor(60, 918498814959166002, 6) == 918498814959166004;
    assert Xor(61, 1836997629918332004, 12) == 1836997629918332008;
    assert Xor(62, 3673995259836664009, 24) == 3673995259836664017;
    assert Xor(63, 7347990519673328018, 48) == 7347990519673328034;
    assert Xor(64, 14695981039346656037, 97) == 14695981039346656068;
  }

  method Fnv1a64(data: Str) returns (hash: nat)
    ensures hash == Fnv(data)
  {
    hash := OFFSET_BASIS;
    for i := 0 to |data|
      invariant hash == Fnv(data[..i])
    {
      assert data[..i + 1][..i] == data[..i];
      hash := Xor64(hash, data[i]) * PRIME % W64;
    }
    assert data[..|data|] == data;
  }

  lemma ModIs(a: int, x: nat, m: int)
    requires a == x + m * W64 && x < W64
    ensures a % W64 == x
  {
  }

  /** Multiplying by the prime can be undone. */
  lemma PrimeUndone(x: nat)
    requires x < W64
    ensures (x * PRIME % W64) * INVERSE % W64 == x
  {
    var k := x * PRIME / W64;
    var r := x * PRIME % W64;
    assert PRIME * INVERSE == 1 + QUOTIENT * W64;
    assert r == x * PRIME - k * W64;
    calc {
      r * INVERSE;
      (x * PRIME - k * W64) * INVERSE;
      x * (PRIME * INVERSE) - k * INVERSE * W64;
      x * (1 + QUOTIENT * W64) - k * INVERSE * W64;
      x + (x * QUOTIENT - k * INVERSE) * W64;
    }
    ModIs(r * INVERSE, x, x * QUOTIENT - k * INVERSE);
  }

  /** A step loses nothing of the hash before it, nor of its byte. */
  lemma FnvStepInjective(g: nat, h: nat, a: byte, b: byte)
    requires g < W64 && h < W64 && FnvStep(g, a) == FnvStep(h, b)
    ensures a == b ==> g == h
    ensures g == h ==> a == b
  {
    hide Xor;
    PrimeUndone(Xor64(g, a));
    PrimeUndone(Xor64(h, b));
    assert Xor64(g, a) == Xor64(h, b);
    Pow64();
    if a == b {
      XorCommutes(64, g, a);
      XorCommutes(64, h, a);
      XorInjective(64, a, g, h);
    }
    if g == h {
      XorInjective(64, g, a, b);
    }
  }

  /** Texts that part at some point and then continue alike hash alike only if they had done so there. */
  lemma {:induction false} FnvSameTail(s: Str, t: Str, tail: Str)
    requires Fnv(s + tail) == Fnv(t + tail)
    ensures Fnv(s) == Fnv(t)
  {
    if tail == [] {
      assert s + tail == s && t + tail == t;
    } else {
      var n := |tail| - 1;
      assert (s + tail)[..|s| + n] == s + tail[..n];
      assert (t + tail)[..|t| + n] == t + tail[..n];
      FnvStepInjective(Fnv(s + tail[..n]), Fnv(t + tail[..n]), tail[n], tail[n]);
      FnvSameTail(s, t, tail[..n]);
    }
  }

  lemma FnvLast(s: Str, b: byte)
    ensures Fnv(s + [b]) == FnvStep(Fnv(s), b)
  {
    assert (s + [b])[..|s|] == s;
  }

  lemma OneByteChangesHash(s: Str, t: Str)
    requires OneByteApart(s, t)
    ensures Fnv(s) != Fnv(t)
  {
    hide Fnv, FnvStep;
    var k: nat :| ApartAt(s, t, k);
    var head, tail := s[..k], s[k + 1..];
    assert s == head + [s[k]] + tail;
    assert t == head + [t[k]] + tail;
    if Fnv(s) == Fnv(t) {
      FnvSameTail(head + [s[k]], head + [t[k]], tail);
      FnvLast(head, s[k]);
      FnvLast(head, t[k]);
      FnvStepInjective(Fnv(head), Fnv(head), s[k], t[k]);
    }
  }

  // --------------------------------------------------------------------- hex

  function HexDigit(d: nat): (c: byte)
    requires d < 16
    ensures c as char == "0123456789abcdef"[d]
  {
    if d < 10 then 48 + d else 87 + d
  }

  /** `n` lower-case hexadecimal digits. */
  function Hex(h: nat, n: nat): (s: Str)
    ensures |s| == n
  {
    if n == 0 then [] else Hex(h / 16, n - 1) + [HexDigit(h % 16)]
  }

  /** Leading zeros, lower case, the highest digit first. */
  lemma HexOf251()
    ensures Hex(0xFB, 4) == [48, 48, 102, 98]
  {
    assert Hex(0, 2) == [48, 48];
    assert Hex(0xF, 3) == [48, 48, 102];
  }

  function Power16(n: nat): nat {
    if n == 0 then 1 else 16 * Power16(n - 1)
  }

  lemma {:induction false} HexInjective(a: nat, b: nat, n: nat)
    requires a < Power16(n) && b < Power16(n) && Hex(a, n) == Hex(b, n)
    ensures a == b
  {
    if n > 0 {
      assert Hex(a, n)[..n - 1] == Hex(a / 16, n - 1);
      assert Hex(b, n)[..n - 1] == Hex(b / 16, n - 1);
      assert Hex(a, n)[n - 1] == HexDigit(a % 16);
      assert Hex(b, n)[n - 1] == HexDigit(b % 16);
      HexInjective(a / 16, b / 16, n - 1);
    }
  }

  // ----------------------------------------------------------------- records

  datatype Record = Record(eventId: nat, eventType: int, severity: int, subject: Str, obj: Str, action: Str,
                           message: Str, sourceIp: Str, prevHash: Str, currHash: Str, timestamp: int, outcome: int)

  const GENESIS: Str := [48, 48, 48, 48, 48, 48, 48, 48, 48, 48, 48, 48, 48, 48, 48, 48]

  /** The hashed text of a record; it covers neither of the stored hashes. */
  function Text(r: Record): Str {
    Decimal.Digits(r.eventId) + [BAR] + Decimal.Print(r.eventType) + [BAR] + Decimal.Print(r.severity) + [BAR] +
    r.subject + [BAR] + r.obj + [BAR] + r.action + [BAR] + r.message + [BAR] + r.sourceIp + [BAR] +
    Decimal.Print(r.timestamp) + [BAR] + Decimal.Print(r.outcome)
  }

  /** The ten fields as they are printed. */
  function Fields(r: Record): (fs: seq<Str>)
    ensures |fs| == 10
  {
    [Decimal.Digits(r.eventId), Decimal.Print(r.eventType), Decimal.Print(r.severity), r.subject, r.obj, r.action,
     r.message, r.sourceIp, Decimal.Print(r.timestamp), Decimal.Print(r.outcome)]
  }

  /** Strings with a bar between each two. */
  function Joined(fs: seq<Str>): Str
    requires fs != []
    decreases |fs|
  {
    var n := |fs| - 1;
    if n == 0 then fs[0] else Joined(fs[..n]) + [BAR] + fs[n]
  }

  lemma JoinedNext(fs: seq<Str>, k: nat)
    requires 0 < k < |fs|
    ensures Joined(fs[..1]) == fs[0]
    ensures Joined(fs[..k + 1]) == Joined(fs[..k]) + [BAR] + fs[k]
  {
    assert fs[..k + 1][..k] == fs[..k];
  }

  lemma TextJoins(r: Record)
    ensures Text(r) == Joined(Fields(r))
  {
    hide Decimal.Digits, Decimal.Print, Joined;
    var fs := Fields(r);
    JoinedNext(fs, 1);
    JoinedNext(fs, 2);
    JoinedNext(fs, 3);
    JoinedNext(fs, 4);
    JoinedNext(fs, 5);
    JoinedNext(fs, 6);
    JoinedNext(fs, 7);
    JoinedNext(fs, 8);
    JoinedNext(fs, 9);
    assert fs[..10] == fs;
  }

  /** The lists differ at `k` and nowhere else. */
  ghost predicate DifferAt(fs: seq<Str>, gs: seq<Str>, k: nat) {
    |fs| == |gs| && k < |fs| && fs[k] != gs[k] && forall j :: 0 <= j < |fs| && j != k ==> fs[j] == gs[j]
  }

  /** Joined, they differ too, and by one byte if that is all the difference there was. */
  lemma {:induction false} JoinedDiffer(fs: seq<Str>, gs: seq<Str>, k: nat)
    requires DifferAt(fs, gs, k)
    ensures Joined(fs) != Joined(gs)
    ensures OneByteApart(fs[k], gs[k]) ==> OneByteApart(Joined(fs), Joined(gs))
    decreases |fs|
  {
    hide OneByteApart;
    var n := |fs| - 1;
    if n > 0 {
      var f, g := Joined(fs[..n]) + [BAR], Joined(gs[..n]) + [BAR];
      if k < n {
        JoinedDiffer(fs[..n], gs[..n], k);
        ApartBefore(Joined(fs[..n]), Joined(gs[..n]), [BAR]);
        ApartBefore(f, g, fs[n]);
      } else {
        assert fs[..n] == gs[..n];
        ApartAfter(f, fs[n], gs[n]);
      }
    }
  }

  lemma ApartBefore(s: Str, t: Str, after: Str)
    requires s != t
    ensures s + after != t + after
    ensures OneByteApart(s, t) ==> OneByteApart(s + after, t + after)
  {
    if |s| == |t| {
      var k :| 0 <= k < |s| && s[k] != t[k];
      assert (s + after)[k] == s[k] && (t + after)[k] == t[k];
    }
    if OneByteApart(s, t) {
      var k: nat :| ApartAt(s, t, k);
      assert ApartAt(s + after, t + after, k);
    }
  }

  lemma ApartAfter(before: Str, s: Str, t: Str)
    requires s != t
    ensures before + s != before + t
    ensures OneByteApart(s, t) ==> OneByteApart(before + s, before + t)
  {
    var n := |before|;
    if |s| == |t| {
      var k :| 0 <= k < |s| && s[k] != t[k];
      assert (before + s)[n + k] == s[k] && (before + t)[n + k] == t[k];
    }
    if OneByteApart(s, t) {
      var k: nat :| ApartAt(s, t, k);
      assert ApartAt(before + s, before + t, n + k);
    }
  }

  /** Changing any one field of a record, number or string, changes its text. */
  lemma OneFieldChangesText(r: Record, s: Record, k: nat)
    requires DifferAt(Fields(r), Fields(s), k)
    ensures Text(r) != Text(s)
    ensures OneByteApart(Fields(r)[k], Fields(s)[k]) ==> OneByteApart(Text(r), Text(s))
  {
    hide Fields, Text, Joined;
    TextJoins(r);
    TextJoins(s);
    JoinedDiffer(Fields(r), Fields(s), k);
  }

  predicate NoBar(s: Str) {
    BAR !in s
  }

  /** Without bars of their own, joined strings are told apart. */
  lemma {:induction false} JoinedInjective(fs: seq<Str>, gs: seq<Str>)
    requires |fs| == |gs| > 0 && Joined(fs) == Joined(gs)
    requires forall j :: 0 <= j < |fs| ==> NoBar(fs[j]) && NoBar(gs[j])
    ensures fs == gs
    decreases |fs|
  {
    var n := |fs| - 1;
    if n > 0 {
      LastBar(Joined(fs[..n]), Joined(gs[..n]), fs[n], gs[n]);
      JoinedInjective(fs[..n], gs[..n]);
      assert fs == fs[..n] + [fs[n]] && gs == gs[..n] + [gs[n]];
    }
  }

  lemma LastBar(s: Str, t: Str, a: Str, b: Str)
    requires s + [BAR] + a == t + [BAR] + b && NoBar(a) && NoBar(b)
    ensures s == t && a == b
  {
    var u := s + [BAR] + a;
    assert u[|s|] == BAR && u[|t|] == BAR;
    assert a == u[|s| + 1..] && b == u[|t| + 1..];
    assert s == u[..|s|] && t == u[..|t|];
  }

  ghost predicate NoBars(r: Record) {
    NoBar(r.subject) && NoBar(r.obj) && NoBar(r.action) && NoBar(r.message) && NoBar(r.sourceIp)
  }

  /** Records whose strings hold no bar have the same text only if they agree on all but the stored hashes. */
  lemma TextDetermines(r: Record, s: Record)
    requires NoBars(r) && NoBars(s) && Text(r) == Text(s)
    ensures s == r.(prevHash := s.prevHash, currHash := s.currHash)
  {
    hide Text, Joined, Decimal.Print, Decimal.Digits, NoBar;
    Decimal.PrintNat(r.eventId);
    Decimal.PrintNat(s.eventId);
    TextJoins(r);
    TextJoins(s);
    FieldsNoBar(r);
    FieldsNoBar(s);
    JoinedInjective(Fields(r), Fields(s));
    FieldsDetermine(r, s);
  }

  lemma FieldsNoBar(r: Record)
    requires NoBars(r)
    ensures forall j :: 0 <= j < 10 ==> NoBar(Fields(r)[j])
  {
    hide Decimal.Print, Decimal.Digits;
  }

  lemma FieldsDetermine(r: Record, s: Record)
    requires Fields(r) == Fields(s)
    ensures s == r.(prevHash := s.prevHash, currHash := s.currHash)
  {
    hide Decimal.Print, Decimal.Digits;
    var f, g := Fields(r), Fields(s);
    Decimal.PrintNat(r.eventId);
    Decimal.PrintNat(s.eventId);
    assert f[0] == g[0] && f[1] == g[1] && f[2] == g[2] && f[3] == g[3] && f[4] == g[4];
    assert f[5] == g[5] && f[6] == g[6] && f[7] == g[7] && f[8] == g[8] && f[9] == g[9];
    Decimal.PrintInjective(r.eventId, s.eventId);
    Decimal.PrintInjective(r.eventType, s.eventType);
    Decimal.PrintInjective(r.severity, s.severity);
    Decimal.PrintInjective(r.timestamp, s.timestamp);
    Decimal.PrintInjective(r.outcome, s.outcome);
  }

  /** With bars they need not: moving a bar between two neighbouring strings is never noticed. */
  lemma BarMovesUnseen(rs: seq<Record>, k: nat, a: Str, b: Str, c: Str)
    requires k < |rs| && Check(rs, RecordHash, 0) == 0
    requires rs[k].subject == a && rs[k].obj == b + [BAR] + c
    ensures var r := rs[k].(subject := a + [BAR] + b, obj := c);
            r != rs[k] && Check(rs[k := r], RecordHash, 0) == 0
  {
    var r := rs[k].(subject := a + [BAR] + b, obj := c);
    assert Text(r) == Text(rs[k]) by {
      hide Decimal.Print, Decimal.Digits;
      assert (a + [BAR] + b) + [BAR] + c == a + [BAR] + (b + [BAR] + c);
      SubjectAndObject(r);
      SubjectAndObject(rs[k]);
    }
    hide Text, Check;
    ChangeDetectedIff(rs, RecordHash, k, r);
  }

  lemma SubjectAndObject(r: Record)
    ensures Text(r) == Decimal.Digits(r.eventId) + [BAR] + Decimal.Print(r.eventType) + [BAR]
                       + Decimal.Print(r.severity) + [BAR] + (r.subject + [BAR] + r.obj)
                       + ([BAR] + r.action + [BAR] + r.message + [BAR] + r.sourceIp + [BAR]
                          + Decimal.Print(r.timestamp) + [BAR] + Decimal.Print(r.outcome))
  {
    hide Decimal.Print, Decimal.Digits;
  }

  /** `s` is `r` with another number in one of its five. */
  ghost predicate OneNumberApart(r: Record, s: Record) {
    && r != s
    && (s == r.(eventId := s.eventId) || s == r.(eventType := s.eventType) || s == r.(severity := s.severity)
        || s == r.(timestamp := s.timestamp) || s == r.(outcome := s.outcome))
  }

  /** `s` is `r` with one byte changed in one of its five strings. */
  ghost predicate OneStringByteApart(r: Record, s: Record) {
    || (s == r.(subject := s.subject) && OneByteApart(r.subject, s.subject))
    || (s == r.(obj := s.obj) && OneByteApart(r.obj, s.obj))
    || (s == r.(action := s.action) && OneByteApart(r.action, s.action))
    || (s == r.(message := s.message) && OneByteApart(r.message, s.message))
    || (s == r.(sourceIp := s.sourceIp) && OneByteApart(r.sourceIp, s.sourceIp))
  }

  lemma OneNumberChangesText(r: Record, s: Record)
    requires OneNumberApart(r, s)
    ensures Text(r) != Text(s)
  {
    hide Text, Decimal.Print, Decimal.Digits, OneByteApart;
    Decimal.PrintNat(r.eventId);
    Decimal.PrintNat(s.eventId);
    var (k, m, n) := if r.eventId != s.eventId then (0, r.eventId, s.eventId)
                     else if r.eventType != s.eventType then (1, r.eventType, s.eventType)
                     else if r.severity != s.severity then (2, r.severity, s.severity)
                     else if r.timestamp != s.timestamp then (8, r.timestamp, s.timestamp)
                     else (9, r.outcome, s.outcome);
    if Decimal.Print(m) == Decimal.Print(n) { Decimal.PrintInjective(m, n); }
    OneFieldChangesText(r, s, k);
  }

  lemma OneStringByteChangesText(r: Record, s: Record)
    requires OneStringByteApart(r, s)
    ensures OneByteApart(Text(r), Text(s))
  {
    hide Text, Decimal.Print, Decimal.Digits, OneByteApart;
    ApartDiffers(r, s);
    var k := if r.subject != s.subject then 3 else if r.obj != s.obj then 4 else if r.action != s.action then 5
             else if r.message != s.message then 6 else 7;
    OneFieldChangesText(r, s, k);
  }

  lemma ApartDiffers(r: Record, s: Record)
    requires OneStringByteApart(r, s)
    ensures r != s
  {
  }

  function RecordHash(r: Record): Str {
    Hex(Fnv(Text(r)), 16)
  }

  lemma RecordHashInjective(r: Record, s: Record)
    requires RecordHash(r) == RecordHash(s)
    ensures Fnv(Text(r)) == Fnv(Text(s))
  {
    hide Text, Fnv, Hex;
    assert Power16(8) == W32;
    assert Power16(12) == 65536 * Power16(8);
    assert Power16(16) == 65536 * Power16(12);
    HexInjective(Fnv(Text(r)), Fnv(Text(s)), 16);
  }

  function PrevOf(rs: seq<Record>, i: nat): Str
    requires i <= |rs|
  {
    if i == 0 then GENESIS else rs[i - 1].currHash
  }

  /** A way to hash records. */
  type Digest = Record -> Str

  ghost predicate Linked(rs: seq<Record>, hash: Digest, i: nat)
    requires i < |rs|
  {
    rs[i].currHash == hash(rs[i]) && rs[i].prevHash == PrevOf(rs, i)
  }

  /** What the scan from record `i` on returns. */
  ghost function Check(rs: seq<Record>, hash: Digest, i: nat): int
    requires i <= |rs|
    decreases |rs| - i
  {
    if i == |rs| then 0
    else if rs[i].currHash != hash(rs[i]) then -1
    else if rs[i].prevHash != PrevOf(rs, i) then -2
    else Check(rs, hash, i + 1)
  }

  /** The scan is content exactly when every record's hash is its own and names its predecessor's. */
  lemma {:induction false} CheckIff(rs: seq<Record>, hash: Digest, i: nat)
    requires i <= |rs|
    ensures Check(rs, hash, i) == 0 <==> forall j :: i <= j < |rs| ==> Linked(rs, hash, j)
    ensures Check(rs, hash, i) in {0, -1, -2}
    decreases |rs| - i
  {
    if i < |rs| {
      CheckIff(rs, hash, i + 1);
      if Check(rs, hash, i) != 0 && Check(rs, hash, i + 1) == 0 {
        assert !Linked(rs, hash, i);
      }
    }
  }

  lemma {:induction false} CheckFails(rs: seq<Record>, hash: Digest, i: nat, k: nat)
    requires i <= k < |rs| && forall j :: i <= j < k ==> Linked(rs, hash, j)
    ensures rs[k].currHash != hash(rs[k]) ==> Check(rs, hash, i) == -1
    ensures rs[k].currHash == hash(rs[k]) && rs[k].prevHash != PrevOf(rs, k) ==> Check(rs, hash, i) == -2
    decreases k - i
  {
    if i < k {
      assert Linked(rs, hash, i);
      CheckFails(rs, hash, i + 1, k);
    }
  }

  /** A record changed under its stored hashes is noticed exactly when the change changes its hash. */
  lemma ChangeDetectedIff(rs: seq<Record>, hash: Digest, k: nat, r: Record)
    requires k < |rs| && Check(rs, hash, 0) == 0
    requires r.currHash == rs[k].currHash && r.prevHash == rs[k].prevHash
    ensures Check(rs[k := r], hash, 0) == if hash(r) == hash(rs[k]) then 0 else -1
  {
    CheckIff(rs, hash, 0);
    assert Linked(rs, hash, k);
    var ts := rs[k := r];
    forall j | 0 <= j < |ts| && j != k ensures Linked(ts, hash, j) {
      assert Linked(rs, hash, j);
    }
    CheckIff(ts, hash, 0);
    CheckFails(ts, hash, 0, k);
  }

  /** Tamper evidence: one byte of any record's text changed, its stored hashes left. */
  lemma OneByteDetected(rs: seq<Record>, k: nat, r: Record)
    requires k < |rs| && Check(rs, RecordHash, 0) == 0
    requires r.currHash == rs[k].currHash && r.prevHash == rs[k].prevHash && OneByteApart(Text(rs[k]), Text(r))
    ensures Check(rs[k := r], RecordHash, 0) == -1
  {
    hide Text, Fnv, RecordHash, OneByteApart;
    OneByteChangesHash(Text(rs[k]), Text(r));
    if RecordHash(r) == RecordHash(rs[k]) { RecordHashInjective(r, rs[k]); }
    ChangeDetectedIff(rs, RecordHash, k, r);
  }

  /** The same for the fields: one byte of the subject, object, action, message or source address. */
  lemma FieldByteDetected(rs: seq<Record>, k: nat, r: Record)
    requires k < |rs| && Check(rs, RecordHash, 0) == 0 && OneStringByteApart(rs[k], r)
    ensures Check(rs[k := r], RecordHash, 0) == -1
  {
    hide Text, Check, OneByteApart;
    OneStringByteChangesText(rs[k], r);
    OneByteDetected(rs, k, r);
  }

  /** A record replaced and hashed anew is noticed exactly when a later record still names the old hash. */
  lemma RehashedDetectedIff(rs: seq<Record>, hash: Digest, k: nat, r: Record)
    requires k < |rs| && Check(rs, hash, 0) == 0
    requires r.currHash == hash(r) && r.prevHash == rs[k].prevHash
    ensures Check(rs[k := r], hash, 0) == if k + 1 < |rs| && r.currHash != rs[k].currHash then -2 else 0
  {
    CheckIff(rs, hash, 0);
    var ts := rs[k := r];
    forall j | 0 <= j < |ts| && j != k + 1 ensures Linked(ts, hash, j) {
      assert Linked(rs, hash, j);
    }
    CheckIff(ts, hash, 0);
    if k + 1 < |rs| {
      assert Linked(rs, hash, k + 1);
      CheckFails(ts, hash, 0, k + 1);
    }
  }

  function Relinked(r: Record, prev: Str, curr: Str): Record {
    r.(prevHash := prev, currHash := curr)
  }

  /** The hash leaves the stored hashes out, as the log's own does. */
  ghost predicate IgnoresLinks(hash: Digest) {
    forall r, prev, curr :: hash(Relinked(r, prev, curr)) == hash(r)
  }

  /**
   With a hash that does not cover the link to the predecessor, relinking the
   next record is enough to hide any rewriting, and no later hash changes.
   */
  lemma RelinkingHides(rs: seq<Record>, hash: Digest, k: nat, r: Record)
    requires IgnoresLinks(hash) && k + 1 < |rs| && Check(rs, hash, 0) == 0
    requires r.currHash == hash(r) && r.prevHash == rs[k].prevHash
    ensures Check(rs[k := r][k + 1 := rs[k + 1].(prevHash := r.currHash)], hash, 0) == 0
  {
    CheckIff(rs, hash, 0);
    var next := rs[k + 1].(prevHash := r.currHash);
    var ts := rs[k := r][k + 1 := next];
    assert Linked(rs, hash, k + 1);
    assert next == Relinked(rs[k + 1], r.currHash, rs[k + 1].currHash);
    forall j | 0 <= j < |ts| ensures Linked(ts, hash, j) {
      assert Linked(rs, hash, j);
    }
    CheckIff(ts, hash, 0);
  }

  lemma RecordHashIgnoresLinks()
    ensures IgnoresLinks(RecordHash)
  {
    forall r, prev, curr ensures RecordHash(Relinked(r, prev, curr)) == RecordHash(r) {
      HashIgnoresLinks(r, prev, curr);
    }
  }

  function Field(s: Option<Str>, n: nat): (r: Str)
    ensures s.None? ==> r == []
    ensures s.Some? ==> r <= s.value && |r| == if |s.value| < n then |s.value| else n
  {
    if s.None? then [] else Truncate(s.value, n)
  }

  /** A record of an event, its strings cut to their buffers, not yet linked or hashed. */
  function Event(id: nat, eventType: int, severity: int, subject: Option<Str>, obj: Option<Str>, action: Option<Str>,
                 sourceIp: Option<Str>, outcome: int, message: Option<Str>, now: int): (r: Record)
    ensures r.eventId == id
  {
    Record(id, eventType, severity, Field(subject, 127), Field(obj, 255), Field(action, 127),
           Field(message, 511), Field(sourceIp, 63), [], [], now, outcome)
  }

  lemma LinkedGrows(rs: seq<Record>, hash: Digest, r: Record)
    requires forall j :: 0 <= j < |rs| ==> Linked(rs, hash, j)
    requires r.currHash == hash(r) && r.prevHash == PrevOf(rs, |rs|)
    ensures forall j :: 0 <= j <= |rs| ==> Linked(rs + [r], hash, j)
  {
    forall j | 0 <= j <= |rs| ensures Linked(rs + [r], hash, j) {
      if j < |rs| { assert Linked(rs, hash, j); }
    }
  }

  class Log {
    const records: array<Record>
    var count: nat
    var totalEvents: nat
    var nextEventId: nat
    var tampered: bool
    const integrityEnabled: bool

    ghost predicate Valid()
      reads this, records
    {
      && records.Length == MAX_EVENTS && count <= MAX_EVENTS && totalEvents == count && nextEventId == count + 1
      && forall i :: 0 <= i < count ==> records[i].eventId == i + 1
    }

    /** The log has been built with integrity on and by logging only. */
    ghost predicate Sound()
      reads this, records
      requires Valid()
    {
      integrityEnabled ==> forall i :: 0 <= i < count ==> Linked(records[..count], RecordHash, i)
    }

    constructor (enableIntegrity: bool)
      ensures Valid() && fresh(records) && Sound() && count == 0 && integrityEnabled == enableIntegrity && !tampered
    {
      var blank := Record(0, 0, 0, [], [], [], [], [], [], [], 0, 0);
      records := new Record[MAX_EVENTS](_ => blank);
      count, totalEvents, nextEventId, tampered, integrityEnabled := 0, 0, 1, false, enableIntegrity;
    }

    method LogEvent(eventType: int, severity: int, subject: Option<Str>, obj: Option<Str>, action: Option<Str>,
                    sourceIp: Option<Str>, outcome: int, message: Option<Str>, now: int) returns (code: int)
      requires Valid()
      modifies this`count, this`totalEvents, this`nextEventId, records
      ensures Valid() && (old(Sound()) ==> Sound())
      ensures code == if old(count) >= MAX_EVENTS then -1 else 0
      ensures code == -1 ==> records[..] == old(records[..]) && count == old(count)
      ensures code == 0 ==> count == old(count) + 1 && records[..old(count)] == old(records[..count])
      ensures code == 0 ==>
                var r := records[old(count)];
                && r.eventId == count && r.eventType == eventType && r.severity == severity
                && r.subject == Field(subject, 127) && r.obj == Field(obj, 255) && r.action == Field(action, 127)
                && r.message == Field(message, 511) && r.sourceIp == Field(sourceIp, 63)
                && r.timestamp == now && r.outcome == outcome
    {
      hide RecordHash, Linked, Field;
      if count >= MAX_EVENTS { return -1; }
      var r := Event(nextEventId, eventType, severity, subject, obj, action, sourceIp, outcome, message, now);
      r := Chained(r);
      Append(r);
      return 0;
    }

    /** Links a record to the last one and hashes it, if the log is to be checked. */
    method Chained(r: Record) returns (linked: Record)
      requires Valid()
      ensures linked == r.(prevHash := linked.prevHash, currHash := linked.currHash)
      ensures integrityEnabled ==>
                linked.currHash == RecordHash(linked) && linked.prevHash == PrevOf(records[..count], count)
    {
      hide RecordHash;
      if !integrityEnabled { return r; }
      var prev := if count == 0 then GENESIS else records[count - 1].currHash;
      var hash := ComputeRecordHash(r);
      HashIgnoresLinks(r, prev, hash);
      linked := r.(prevHash := prev, currHash := hash);
    }

    method Append(r: Record)
      requires Valid() && count < MAX_EVENTS && r.eventId == nextEventId
      requires integrityEnabled ==> r.currHash == RecordHash(r) && r.prevHash == PrevOf(records[..count], count)
      modifies this`count, this`totalEvents, this`nextEventId, records
      ensures Valid() && (old(Sound()) ==> Sound()) && count == old(count) + 1
      ensures records[..old(count)] == old(records[..count]) && records[old(count)] == r
    {
      hide RecordHash, Linked;
      ghost var before := records[..count];
      if integrityEnabled && Sound() { LinkedGrows(before, RecordHash, r); }
      nextEventId := nextEventId + 1;
      records[count] := r;
      count := count + 1;
      totalEvents := totalEvents + 1;
      assert records[..count] == before + [r];
    }

    /** Returns 0, or -1 for a record that is not its hash, or -2 for one that does not follow its predecessor. */
    method VerifyIntegrity() returns (code: int)
      requires Valid()
      modifies this`tampered
      ensures code == if integrityEnabled then Check(records[..count], RecordHash, 0) else 0
      ensures tampered == if integrityEnabled then code != 0 else old(tampered)
      ensures Sound() ==> code == 0
    {
      if !integrityEnabled { return 0; }
      hide RecordHash;
      tampered := false;
      ghost var rs := records[..count];
      CheckIff(rs, RecordHash, 0);
      for i := 0 to count
        invariant Check(rs, RecordHash, 0) == Check(rs, RecordHash, i) && !tampered
      {
        assert rs[i] == records[i];
        var computed := ComputeRecordHash(records[i]);
        if records[i].currHash != computed {
          tampered := true;
          return -1;
        }
        var expected := if i == 0 then GENESIS else records[i - 1].currHash;
        if records[i].prevHash != expected {
          tampered := true;
          return -2;
        }
      }
      return 0;
    }
  }

  method ComputeRecordHash(r: Record) returns (hash: Str)
    ensures hash == RecordHash(r)
  {
    var h := Fnv1a64(Text(r));
    hash := Hex(h, 16);
  }

  lemma HashIgnoresLinks(r: Record, prev: Str, hash: Str)
    ensures RecordHash(r.(prevHash := prev, currHash := hash)) == RecordHash(r)
  {
  }

  /** Every record fits the buffer its text is printed into, so the hash covers all of it. */
  lemma TextFits(r: Record)
    requires r.eventId < Decimal.Power10(20) && |r.subject| < 128 && |r.obj| < 256 && |r.action| < 128
    requires |r.message| < 512 && |r.sourceIp| < 64
    requires Decimal.Short(r.eventType) && Decimal.Short(r.severity) && Decimal.Short(r.timestamp)
    requires Decimal.Short(r.outcome)
    ensures |Text(r)| < 2048
  {
    hide Decimal.Digits, Decimal.Power10;
    Decimal.DigitsLength(r.eventId, 20);
    Decimal.PrintLength(r.eventType);
    Decimal.PrintLength(r.severity);
    Decimal.PrintLength(r.timestamp);
    Decimal.PrintLength(r.outcome);
  }
}
