/** Unpadded base64url (section 5 of RFC 4648), by groups of three bytes and four characters. */
module Base64Url {
  import opened CStrings

  type Bytes = seq<byte>

  /** The alphabet: upper case, lower case, digits, minus, underscore. */
  function Char(v: nat): (c: byte)
    requires v < 64
    ensures IsChar(c) && Value(c) == v
  {
    if v < 26 then 65 + v else if v < 52 then 71 + v else if v < 62 then v - 4 else if v == 62 then 45 else 95
  }

  predicate IsChar(c: byte) {
    65 <= c <= 90 || 97 <= c <= 122 || 48 <= c <= 57 || c == 45 || c == 95
  }

  function Value(c: byte): (v: nat)
    requires IsChar(c)
    ensures v < 64
  {
    if c == 45 then 62 else if c == 95 then 63
    else if c >= 97 then c - 71 else if c >= 65 then c - 65 else c + 4
  }

  // ---------------------------------------------------------------- encoding

  function Triple(a: byte, b: byte, c: byte): (t: nat)
    ensures t < 0x100_0000
  {
    a * 65536 + b * 256 + c
  }

  /** The four characters of 24 bits. */
  function Quad(t: nat): (q: Str)
    requires t < 0x100_0000
    ensures |q| == 4 && forall i :: 0 <= i < 4 ==> IsChar(q[i])
  {
    [Char(t / 262144), Char(t / 4096 % 64), Char(t / 64 % 64), Char(t % 64)]
  }

  /** Whole groups, the last filled up with zero bytes. */
  function Groups(s: Bytes): (q: Str)
    decreases |s|
  {
    if s == [] then []
    else if |s| == 1 then Quad(Triple(s[0], 0, 0))
    else if |s| == 2 then Quad(Triple(s[0], s[1], 0))
    else Quad(Triple(s[0], s[1], s[2])) + Groups(s[3..])
  }

  /** Two characters for a last single byte, three for a last pair. */
  function Encoded(s: Bytes): (e: Str)
    ensures AllChars(e)
    decreases |s|
  {
    if s == [] then []
    else if |s| == 1 then Quad(Triple(s[0], 0, 0))[..2]
    else if |s| == 2 then Quad(Triple(s[0], s[1], 0))[..3]
    else Quad(Triple(s[0], s[1], s[2])) + Encoded(s[3..])
  }

  /** Groups of three begun by `n` bytes. */
  function GroupCount(n: nat): nat {
    if n == 0 then 0 else if n <= 3 then 1 else 1 + GroupCount(n - 3)
  }

  /** What is missing in the last group of three. */
  function Pad(n: nat): (p: nat)
    ensures p <= 2
  {
    if n == 0 then 0 else if n <= 3 then 3 - n else Pad(n - 3)
  }

  /** The closed forms the code computes. */
  lemma {:induction false} PadIs(n: nat)
    ensures Pad(n) == (3 - n % 3) % 3 && GroupCount(n) == (n + 2) / 3
  {
    if n > 3 {
      PadIs(n - 3);
      assert n % 3 == (n - 3) % 3;
      assert (n + 2) / 3 == (n - 3 + 2) / 3 + 1;
    } else {
      assert n == 0 || n == 1 || n == 2 || n == 3;
    }
  }

  lemma {:induction false} EncodedTrims(s: Bytes)
    ensures |Groups(s)| == 4 * GroupCount(|s|) && Pad(|s|) <= |Groups(s)|
    ensures Encoded(s) == Groups(s)[..|Groups(s)| - Pad(|s|)]
    decreases |s|
  {
    hide Quad, Triple, Pad, GroupCount;
    if |s| > 2 {
      EncodedTrims(s[3..]);
      PadStep(|s|);
    } else {
      PadSmall(|s|);
    }
  }

  lemma PadSmall(n: nat)
    requires n <= 2
    ensures Pad(n) == (if n == 0 then 0 else 3 - n) && GroupCount(n) == if n == 0 then 0 else 1
  {
  }

  lemma PadStep(n: nat)
    requires n > 2
    ensures Pad(n) == Pad(n - 3) && GroupCount(n) == GroupCount(n - 3) + 1
  {
  }

  // ---------------------------------------------------------------- decoding

  predicate AllChars(s: Str) {
    forall i :: 0 <= i < |s| ==> IsChar(s[i])
  }

  /** The character's six bits, zero past the end. */
  function Sextet(s: Str, i: nat): (v: nat)
    requires AllChars(s)
    ensures v < 64
  {
    if i < |s| then Value(s[i]) else 0
  }

  function Unpack(s: Str): (t: nat)
    requires AllChars(s)
    ensures t < 0x100_0000
  {
    Sextet(s, 0) * 262144 + Sextet(s, 1) * 4096 + Sextet(s, 2) * 64 + Sextet(s, 3)
  }

  /** Three bytes for every four characters begun. */
  function Ungroup(s: Str): (b: Bytes)
    requires AllChars(s)
    ensures |b| >= (if s == [] then 0 else 3)
  {
    if s == [] then [] else
    var t := Unpack(s);
    [t / 65536, t / 256 % 256, t % 256] + if |s| <= 4 then [] else Ungroup(s[4..])
  }

  /** What is missing in the last group of four. */
  function DecodePad(n: nat): (p: nat)
    ensures p <= 3 && (n == 0 ==> p == 0)
  {
    if n == 0 then 0 else if n <= 4 then 4 - n else DecodePad(n - 4)
  }

  lemma {:induction false} DecodePadIs(n: nat)
    ensures DecodePad(n) == (4 - n % 4) % 4
  {
    if n > 4 {
      DecodePadIs(n - 4);
      assert n % 4 == (n - 4) % 4;
    } else {
      assert n == 0 || n == 1 || n == 2 || n == 3 || n == 4;
    }
  }

  /** The bytes that fit, less what the last of `n` characters leaves missing. */
  function Trimmed(b: Bytes, n: nat, capacity: nat): (r: Bytes)
    requires capacity >= 3 && |b| >= if n == 0 then 0 else 3
    ensures |r| <= capacity
  {
    var t := Truncate(b, capacity);
    t[..|t| - DecodePad(n)]
  }

  /** Refused for a foreign character; otherwise the bytes that fit, less the padding. */
  function Decoded(s: Str, capacity: nat): (r: Option<Bytes>)
    requires capacity >= 3
    ensures r.Some? ==> |r.value| <= capacity
  {
    if !AllChars(s) then None else Some(Trimmed(Ungroup(s), |s|, capacity))
  }

  // -------------------------------------------------------------- round trip

  lemma UnpackQuad(t: nat)
    requires t < 0x100_0000
    ensures Unpack(Quad(t)) == t
  {
    hide Char, Value;
    SplitSextets(t);
  }

  lemma TripleBytes(a: byte, b: byte, c: byte)
    ensures var t := Triple(a, b, c); t / 65536 == a && t / 256 % 256 == b && t % 256 == c
  {
    var t := Triple(a, b, c);
    assert t / 256 == 256 * a + b;
  }

  /** Four characters give back the three bytes they were made of. */
  lemma QuadUnpacks(a: byte, b: byte, c: byte)
    ensures var t := Unpack(Quad(Triple(a, b, c)));
            t / 65536 == a && t / 256 % 256 == b && t % 256 == c
  {
    hide Unpack, Quad, Triple;
    UnpackQuad(Triple(a, b, c));
    TripleBytes(a, b, c);
  }

  lemma SplitSextets(t: nat)
    ensures t == t / 262144 * 262144 + t / 4096 % 64 * 4096 + t / 64 % 64 * 64 + t % 64
  {
    assert t / 4096 == t / 262144 * 64 + t / 4096 % 64;
    assert t / 64 == t / 4096 * 64 + t / 64 % 64;
  }

  /** Characters left out at the end read as zero bits, which they were. */
  lemma ShortQuadUnpacks(a: byte, b: byte)
    ensures Unpack(Quad(Triple(a, 0, 0))[..2]) == Unpack(Quad(Triple(a, 0, 0)))
    ensures Unpack(Quad(Triple(a, b, 0))[..3]) == Unpack(Quad(Triple(a, b, 0)))
  {
    hide Char, Value;
    MultipleOf64(1024 * a);
    MultipleOf64(16 * a);
    MultipleOf64(1024 * a + 4 * b);
    assert Triple(a, 0, 0) == 64 * (1024 * a) && Triple(a, b, 0) == 64 * (1024 * a + 4 * b);
    assert Triple(a, 0, 0) / 64 == 64 * (16 * a);
  }

  lemma MultipleOf64(n: nat)
    ensures 64 * n % 64 == 0 && 64 * n / 64 == n
  {
  }

  lemma SameUnpack(q: Str, s: Str)
    requires AllChars(s) && |q| == 4 && q <= s
    ensures AllChars(q) && Unpack(s) == Unpack(q)
  {
    assert forall i :: 0 <= i < 4 ==> q[i] == s[i];
  }

  function Bytes3(t: nat): Bytes
    requires t < 0x100_0000
  {
    [t / 65536, t / 256 % 256, t % 256]
  }

  lemma {:induction false} UngroupEncoded(s: Bytes)
    ensures var u := Ungroup(Encoded(s));
            && |u| == 3 * GroupCount(|s|) == |s| + Pad(|s|) && u[..|s|] == s
            && DecodePad(|Encoded(s)|) == Pad(|s|)
    decreases |s|
  {
    hide Quad, Triple, Unpack, Pad, GroupCount;
    if s == [] {
      PadSmall(0);
    } else if |s| <= 2 {
      PadSmall(|s|);
      var b := if |s| == 2 then s[1] else 0;
      ShortQuadUnpacks(s[0], b);
      QuadUnpacks(s[0], b, 0);
    } else {
      var q := Quad(Triple(s[0], s[1], s[2]));
      QuadUnpacks(s[0], s[1], s[2]);
      UngroupEncoded(s[3..]);
      PadStep(|s|);
      EncodedStep(s);
      UngroupStep(q, Encoded(s[3..]));
      DecodePadStep(|Encoded(s[3..])|);
      hide Ungroup, Encoded, AllChars, DecodePad, Bytes3;
      Regroup(s, Bytes3(Unpack(q)), Ungroup(Encoded(s[3..])));
    }
  }

  lemma EncodedStep(s: Bytes)
    requires |s| > 2
    ensures Encoded(s) == Quad(Triple(s[0], s[1], s[2])) + Encoded(s[3..])
    ensures |Encoded(s)| == 4 + |Encoded(s[3..])|
  {
    hide Quad, Triple;
  }

  lemma Regroup(s: Bytes, b: Bytes, u: Bytes)
    requires |s| > 2 && b == [s[0], s[1], s[2]] && |u| >= |s| - 3 && u[..|s| - 3] == s[3..]
    ensures (b + u)[..|s|] == s
  {
    assert (b + u)[..|s|] == b + u[..|s| - 3];
  }

  lemma UngroupStep(q: Str, rest: Str)
    requires |q| == 4 && AllChars(q) && AllChars(rest)
    ensures AllChars(q + rest) && Ungroup(q + rest) == Bytes3(Unpack(q)) + Ungroup(rest)
  {
    hide Unpack, IsChar;
    SameUnpack(q, q + rest);
    assert (q + rest)[4..] == rest;
  }

  lemma DecodePadStep(n: nat)
    ensures DecodePad(n + 4) == DecodePad(n)
  {
  }

  /** Decoding gives an encoded string back exactly when there is room for its whole groups. */
  lemma RoundTripIff(s: Bytes, capacity: nat)
    requires capacity >= 3
    ensures Decoded(Encoded(s), capacity) == Some(s) <==> capacity >= 3 * GroupCount(|s|)
  {
    hide Encoded, Ungroup, AllChars, DecodePad, Pad, GroupCount, Trimmed;
    UngroupEncoded(s);
    TrimmedIff(Ungroup(Encoded(s)), s, |Encoded(s)|, capacity);
  }

  lemma TrimmedIff(u: Bytes, s: Bytes, n: nat, capacity: nat)
    requires capacity >= 3 && |u| >= if n == 0 then 0 else 3
    requires |u| == |s| + DecodePad(n) && u[..|s|] == s
    ensures Trimmed(u, n, capacity) == s <==> capacity >= |u|
  {
    hide DecodePad;
    if capacity >= |u| {
      assert Truncate(u, capacity) == u;
    } else {
      assert |Trimmed(u, n, capacity)| < |s|;
    }
  }

  /** The test vectors of section 10 of RFC 4648 for one byte and for three, and the two characters of this alphabet. */
  lemma KnownEncodings()
    ensures Encoded([102]) == [90, 103]
    ensures Encoded([102, 111, 111]) == [90, 109, 57, 118]
    ensures Encoded([251, 255]) == [45, 95, 56]
  {
    assert [102, 111, 111][3..] == [];
  }

  // ------------------------------------------------------------- the methods

  method Encode(src: Bytes, dst: array<byte>) returns (len: nat)
    requires 4 * GroupCount(|src|) < dst.Length
    modifies dst
    ensures len < dst.Length && dst[..len] == Encoded(src) && dst[len] == 0
  {
    hide Quad, Triple, Groups, Encoded, Pad, GroupCount;
    EncodedTrims(src);
    NoGroups();
    var i, j := 0, 0;
    assert src[0..] == src;
    while i < |src|
      invariant 0 <= i <= |src| && 0 <= j <= |Groups(src)|
      invariant dst[..j] + Groups(src[i..]) == Groups(src)
      decreases |src| - i
    {
      ghost var rest := src[i..];
      ghost var done := dst[..j];
      var a, b, c := src[i], 0, 0;
      i := i + 1;
      if i < |src| { b := src[i]; i := i + 1; }
      if i < |src| { c := src[i]; i := i + 1; }
      GroupsStep(rest, src[i..], a, b, c);
      var q := Quad(Triple(a, b, c));
      WriteQuad(q, dst, j);
      j := j + 4;
    }
    assert src[i..] == [];
    PadIs(|src|);
    var pad := (3 - |src| % 3) % 3;
    len := j - pad;
    dst[len] := 0;
  }

  method WriteQuad(q: Str, dst: array<byte>, j: nat)
    requires |q| == 4 && j + 4 <= dst.Length
    modifies dst
    ensures dst[..j + 4] == old(dst[..j]) + q
  {
    dst[j], dst[j + 1], dst[j + 2], dst[j + 3] := q[0], q[1], q[2], q[3];
    assert dst[j..j + 4] == q;
    assert dst[..j + 4] == dst[..j] + dst[j..j + 4];
  }

  lemma NoGroups()
    ensures Groups([]) == []
  {
  }

  lemma GroupsStep(s: Bytes, rest: Bytes, a: byte, b: byte, c: byte)
    requires s != [] && rest == s[if |s| < 3 then |s| else 3..]
    requires a == s[0] && b == (if |s| > 1 then s[1] else 0) && c == if |s| > 2 then s[2] else 0
    ensures Groups(s) == Quad(Triple(a, b, c)) + Groups(rest)
  {
    hide Quad, Triple;
  }

  lemma UngroupRest(s: Str, n: nat)
    requires AllChars(s) && s != [] && n == if |s| < 4 then |s| else 4
    ensures Ungroup(s) == Bytes3(Unpack(s[..n])) + Ungroup(s[n..])
  {
    hide Unpack;
    SamePrefix(s, n);
  }

  lemma UngroupNext(src: Str, i: nat, n: nat)
    requires i < |src| && AllChars(src) && n == if |src| - i < 4 then |src| - i else 4
    ensures AllChars(src[i..]) && AllChars(src[i..i + n]) && AllChars(src[i + n..])
    ensures Ungroup(src[i..]) == Bytes3(Unpack(src[i..i + n])) + Ungroup(src[i + n..])
  {
    hide Ungroup, Unpack, Bytes3, IsChar;
    UngroupRest(src[i..], n);
    assert src[i..][..n] == src[i..i + n] && src[i..][n..] == src[i + n..];
  }

  lemma SamePrefix(s: Str, n: nat)
    requires AllChars(s) && s != [] && n == if |s| < 4 then |s| else 4
    ensures Unpack(s[..n]) == Unpack(s)
  {
  }

  lemma NoBytes()
    ensures Ungroup([]) == []
  {
  }

  /** One more byte, if there is room for it. */
  method Emit(b: byte, dst: array<byte>, j: nat, ghost done: Bytes) returns (k: nat)
    requires j <= dst.Length && dst[..j] == Truncate(done, dst.Length)
    modifies dst
    ensures k <= dst.Length && dst[..k] == Truncate(done + [b], dst.Length)
  {
    k := j;
    if j < dst.Length {
      dst[j] := b;
      k := j + 1;
    }
  }

  /** The three bytes of a group, as far as they fit. */
  method EmitGroup(t: nat, dst: array<byte>, j: nat, ghost done: Bytes) returns (k: nat)
    requires t < 0x100_0000 && j <= dst.Length && dst[..j] == Truncate(done, dst.Length)
    modifies dst
    ensures k <= dst.Length && dst[..k] == Truncate(done + Bytes3(t), dst.Length)
  {
    hide Truncate;
    var b0: byte, b1: byte, b2: byte := t / 65536, t / 256 % 256, t % 256;
    assert Bytes3(t) == [b0, b1, b2];
    hide Bytes3;
    k := Emit(b0, dst, j, done);
    k := Emit(b1, dst, k, done + [b0]);
    k := Emit(b2, dst, k, done + [b0] + [b1]);
    assert done + [b0] + [b1] + [b2] == done + Bytes3(t);
  }

  /** A character and its value, or -1 for a foreign one; past the end zero. */
  function Lookup(src: Str, i: nat): (v: int)
    ensures v >= 0 <==> i >= |src| || IsChar(src[i])
  {
    if i >= |src| then 0 else if IsChar(src[i]) then Value(src[i]) else -1
  }

  method Decode(src: Str, dst: array<byte>) returns (ok: bool, len: nat)
    requires dst.Length >= 3
    modifies dst
    ensures ok <==> AllChars(src)
    ensures ok ==> len <= dst.Length && Decoded(src, dst.Length) == Some(dst[..len])
  {
    hide Ungroup, Unpack, AllChars, Truncate, Decoded, DecodePad, Trimmed, Bytes3;
    NoChars();
    var i: nat, j: nat := 0, 0;
    ghost var done: Bytes := [];
    TruncateNothing(dst.Length);
    NoBytes();
    assert src[0..] == src;
    while i < |src|
      invariant 0 <= i <= |src| && AllChars(src[..i]) && j <= dst.Length
      invariant dst[..j] == Truncate(done, dst.Length)
      invariant AllChars(src) ==> AllChars(src[i..]) && done + Ungroup(src[i..]) == Ungroup(src)
      decreases |src| - i
    {
      var valid, n, t := ReadGroup(src, i);
      Parts(src, i, i + n);
      if !valid {
        return false, 0;
      }
      if AllChars(src) { UngroupNext(src, i, n); }
      j := EmitGroup(t, dst, j, done);
      done := done + Bytes3(t);
      i := i + n;
    }
    assert src[..i] == src && src[i..] == [];
    assert done == Ungroup(src);
    DecodedIs(src, dst.Length, dst[..j]);
    DecodePadIs(|src|);
    var pad := (4 - |src| % 4) % 4;
    len := j - pad;
    assert dst[..len] == dst[..j][..len];
    ok := true;
  }

  /** The next four characters, or the last fewer, as 24 bits; not valid if one of them is foreign. */
  method ReadGroup(src: Str, i: nat) returns (valid: bool, n: nat, t: nat)
    requires i < |src|
    ensures n == (if |src| - i < 4 then |src| - i else 4) && (valid <==> AllChars(src[i..i + n]))
    ensures valid ==> t == Unpack(src[i..i + n])
  {
    hide Lookup, IsChar, AllChars, Unpack;
    var v0, v1, v2, v3 := Lookup(src, i), Lookup(src, i + 1), Lookup(src, i + 2), Lookup(src, i + 3);
    n := if |src| - i < 4 then |src| - i else 4;
    GroupReads(src, i, n);
    if v0 < 0 || v1 < 0 || v2 < 0 || v3 < 0 { return false, n, 0; }
    t := v0 * 262144 + v1 * 4096 + v2 * 64 + v3;
    return true, n, t;
  }

  /** A group is valid exactly when none of its four lookups is negative, and these make up its bits. */
  lemma GroupReads(src: Str, i: nat, n: nat)
    requires i < |src| && n == if |src| - i < 4 then |src| - i else 4
    ensures var v0, v1, v2, v3 := Lookup(src, i), Lookup(src, i + 1), Lookup(src, i + 2), Lookup(src, i + 3);
            && (AllChars(src[i..i + n]) <==> v0 >= 0 && v1 >= 0 && v2 >= 0 && v3 >= 0)
            && (AllChars(src[i..i + n]) ==> Unpack(src[i..i + n]) == v0 * 262144 + v1 * 4096 + v2 * 64 + v3)
  {
    hide IsChar;
    var g := src[i..i + n];
    forall k | 0 <= k < 4 ensures (Lookup(src, i + k) >= 0 <==> k >= n || IsChar(g[k])) {
      if k < n { assert g[k] == src[i + k]; }
    }
    if AllChars(g) {
      forall k | 0 <= k < 4 ensures Sextet(g, k) == Lookup(src, i + k) {
        if k < n { assert g[k] == src[i + k] && IsChar(g[k]); }
      }
      assert Unpack(g) == Sextet(g, 0) * 262144 + Sextet(g, 1) * 4096 + Sextet(g, 2) * 64 + Sextet(g, 3);
    } else {
      var k :| 0 <= k < n && !IsChar(g[k]);
      assert Lookup(src, i + k) < 0;
    }
  }

  lemma Parts(s: Str, i: nat, j: nat)
    requires i <= j <= |s|
    ensures AllChars(s) ==> AllChars(s[i..j]) && AllChars(s[i..])
    ensures AllChars(s[..i]) && AllChars(s[i..j]) ==> AllChars(s[..j])
  {
    hide IsChar;
    if AllChars(s[..i]) && AllChars(s[i..j]) {
      forall k | 0 <= k < j ensures IsChar(s[..j][k]) {
        assert s[..j][k] == if k < i then s[..i][k] else s[i..j][k - i];
      }
    }
  }

  lemma NoChars()
    ensures AllChars([])
  {
  }

  lemma TruncateNothing(n: nat)
    ensures Truncate([], n) == []
  {
  }

  lemma DecodedIs(src: Str, capacity: nat, fitting: Bytes)
    requires AllChars(src) && capacity >= 3 && fitting == Truncate(Ungroup(src), capacity)
    ensures DecodePad(|src|) <= |fitting| && Decoded(src, capacity) == Some(fitting[..|fitting| - DecodePad(|src|)])
  {
    hide Ungroup, AllChars, DecodePad;
  }
}
