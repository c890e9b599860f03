/**
 The wire format: varints, zigzag, and tagged fields, as functions on byte
 sequences, with the proofs that decoding undoes encoding.
 */
module WireFormat {
  import opened CStrings
  import opened Words

  const MAX_FRAME: nat := 65536

  type Bytes = seq<byte>

  datatype ProtoType =
    | Double | Float | Int64 | Uint64 | Int32 | Fixed64 | Fixed32 | Bool | String | Bytes_
    | Uint32 | Enum | Sfixed32 | Sfixed64 | Sint32 | Sint64 | Message

  datatype FieldDef = FieldDef(number: int, ptype: ProtoType)

  /** A caller's buffer and the length claimed for it. */
  datatype FieldValue = FieldValue(bytes: Bytes, len: int)

  /** One field as the decoder reports it. */
  datatype Decoded = Decoded(number: int, ptype: ProtoType, payload: Bytes)

  // ------------------------------------------------------------------ varint

  function Power128(i: nat): (p: nat)
    ensures p > 0
  {
    if i == 0 then 1 else 128 * Power128(i - 1)
  }

  function Varint(v: nat): (s: Bytes)
    ensures s != []
  {
    if v > 0x7F then [v % 128 + 128] + Varint(v / 128) else [v]
  }

  /** Reads on from byte `i`, the lower bytes being worth `acc`; the tenth byte must end the number. */
  function VarintFrom(s: Bytes, i: nat, acc: nat): (r: Option<(nat, nat)>)
    ensures r.Some? ==> i < r.value.0 <= |s|
    decreases |s| - i
  {
    if i >= |s| then None else
    var sum := acc + s[i] % 128 * Power128(i) % W64;
    if s[i] < 128 then Some((i + 1, sum))
    else if 7 * (i + 1) >= 64 then None
    else VarintFrom(s, i + 1, sum)
  }

  /** Bytes consumed and number read. */
  function VarintOf(s: Bytes): (r: Option<(nat, nat)>)
    ensures r.Some? ==> 0 < r.value.0 <= |s|
  {
    VarintFrom(s, 0, 0)
  }

  lemma NinePowers()
    ensures Power128(9) == 0x8000_0000_0000_0000 && 2 * Power128(9) == W64
  {
    assert Power128(3) == 0x20_0000;
    assert Power128(6) == 0x20_0000 * Power128(3);
    assert Power128(9) == 0x20_0000 * Power128(6);
  }

  lemma {:induction false} PowersGrow(i: nat, j: nat)
    requires i <= j
    ensures Power128(i) <= Power128(j)
  {
    if i < j { PowersGrow(i, j - 1); }
  }

  lemma TimesAtLeast(w: nat, p: nat, k: nat)
    requires w >= k
    ensures w * p >= k * p
  {
  }

  lemma SplitProduct(w: nat, p: nat)
    ensures w * p == w % 128 * p + w / 128 * (128 * p)
    ensures w % 128 * p <= w * p && w / 128 * (128 * p) <= w * p
  {
    assert w == w % 128 + 128 * (w / 128);
    assert w / 128 * (128 * p) == 128 * (w / 128) * p;
  }

  /** A number with more than one digit to come cannot reach the tenth byte. */
  lemma NotTheTenth(w: nat, i: nat)
    requires w >= 128 && w * Power128(i) < W64
    ensures i < 9
  {
    if i >= 9 {
      TimesAtLeast(w, Power128(i), 128);
      NinePowers();
      PowersGrow(9, i);
    }
  }

  /** The first byte of an encoded number holds its lowest digit, and the others encode the rest. */
  lemma FirstByte(s: Bytes, i: nat, w: nat, rest: Bytes)
    requires i <= |s| && s[i..] == Varint(w) + rest
    ensures i < |s| && s[i] % 128 == w % 128 && (s[i] < 128 <==> w < 128)
    ensures w < 128 ==> |Varint(w)| == 1
    ensures w >= 128 ==> s[i + 1..] == Varint(w / 128) + rest && |Varint(w)| == 1 + |Varint(w / 128)|
  {
    assert s[i] == (Varint(w) + rest)[0] == Varint(w)[0];
    if w >= 128 {
      var tail := Varint(w / 128);
      assert Varint(w) == [w % 128 + 128] + tail;
      hide Varint;
      assert s[i + 1..] == s[i..][1..] == tail + rest;
    }
  }

  /** A number whose lower digits are read already is read to its end. */
  lemma {:induction false} VarintReads(s: Bytes, i: nat, w: nat, acc: nat, rest: Bytes)
    requires i <= |s| && s[i..] == Varint(w) + rest && acc + w * Power128(i) < W64
    ensures VarintFrom(s, i, acc) == Some((i + |Varint(w)|, acc + w * Power128(i)))
    decreases w
  {
    hide Varint;
    var p := Power128(i);
    SplitProduct(w, p);
    FirstByte(s, i, w, rest);
    var digit := w % 128 * p;
    assert digit % W64 == digit;
    if w >= 128 {
      NotTheTenth(w, i);
      assert Power128(i + 1) == 128 * p;
      VarintReads(s, i + 1, w / 128, acc + digit, rest);
    }
  }

  /** Decoding inverts encoding for every 64-bit number, whatever follows it. */
  lemma VarintRoundTrip(v: nat, rest: Bytes)
    requires v < W64
    ensures VarintOf(Varint(v) + rest) == Some((|Varint(v)|, v))
  {
    var s := Varint(v) + rest;
    assert s[0..] == s;
    VarintReads(s, 0, v, 0, rest);
  }

  /** The decoder gives up exactly when none of the first ten bytes ends a number. */
  lemma {:induction false} VarintFailsIff(s: Bytes, i: nat, acc: nat)
    requires i < 10
    ensures VarintFrom(s, i, acc) == None <==> forall k :: i <= k < |s| && k < 10 ==> s[k] >= 128
    decreases 10 - i
  {
    if i < |s| && s[i] >= 128 && i < 9 {
      VarintFailsIff(s, i + 1, acc + s[i] % 128 * Power128(i) % W64);
    }
  }

  /** No encoding takes more than the ten bytes the encoder sets aside. */
  lemma VarintFits(v: nat)
    requires v < W64
    ensures |Varint(v)| <= 10
  {
    VarintRoundTrip(v, []);
    assert Varint(v) + [] == Varint(v);
    VarintShort(Varint(v), 0, 0);
  }

  lemma {:induction false} VarintShort(s: Bytes, i: nat, acc: nat)
    requires i < 10
    ensures var r := VarintFrom(s, i, acc); r.Some? ==> r.value.0 <= 10
    decreases 10 - i
  {
    if i < |s| && s[i] >= 128 && i < 9 {
      VarintShort(s, i + 1, acc + s[i] % 128 * Power128(i) % W64);
    }
  }

  // ------------------------------------------------------------------ zigzag

  /** `n` is a `w`-bit signed number. */
  predicate IsSigned(w: nat, n: int) {
    w > 0 && -(Pow2(w - 1) as int) <= n < Pow2(w - 1)
  }

  /** The signed number a `w`-bit word stands for. */
  function Signed(w: nat, u: nat): (r: int)
    requires w > 0 && u < Pow2(w)
    ensures IsSigned(w, r) && (r == u || r == u - Pow2(w))
  {
    if u < Pow2(w - 1) then u else u - Pow2(w)
  }

  /** The word a signed number is stored as. */
  function Unsigned(w: nat, n: int): (u: nat)
    requires -(Pow2(w) as int) <= n < Pow2(w)
    ensures u < Pow2(w)
  {
    if n < 0 then n + Pow2(w) else n
  }

  /** `(n << 1) ^ (n >> (w - 1))` on a `w`-bit signed word. */
  function ZigZag(w: nat, n: int): (r: nat)
    requires IsSigned(w, n)
    ensures r < Pow2(w)
  {
    Xor(w, Unsigned(w, 2 * n), if n < 0 then Pow2(w) - 1 else 0)
  }

  /** `(v >> 1) ^ -(v & 1)`, read as signed. */
  function UnZigZag(w: nat, v: nat): int
    requires w > 0
  {
    Signed(w, Xor(w, v / 2, if v % 2 == 1 then Pow2(w) - 1 else 0))
  }

  /** Exclusive or with all ones is the complement, with zero the identity. */
  lemma {:induction false} XorMask(w: nat, a: nat)
    requires a < Pow2(w)
    ensures Xor(w, a, Pow2(w) - 1) == Pow2(w) - 1 - a
    ensures Xor(w, a, 0) == a
  {
    if w > 0 {
      XorMask(w - 1, a / 2);
      assert (Pow2(w) - 1) / 2 == Pow2(w - 1) - 1;
    }
  }

  /** Small numbers of either sign get small codes. */
  lemma ZigZagIs(w: nat, n: int)
    requires IsSigned(w, n)
    ensures ZigZag(w, n) == if n >= 0 then 2 * n else -2 * n - 1
  {
    hide Xor;
    XorMask(w, Unsigned(w, 2 * n));
  }

  lemma UnZigZagIs(w: nat, v: nat)
    requires w > 0 && v < Pow2(w)
    ensures UnZigZag(w, v) == if v % 2 == 0 then v / 2 else -(v / 2) - 1
  {
    hide Xor;
    XorMask(w, v / 2);
  }

  /** Zigzag is a bijection between signed and unsigned words. */
  lemma ZigZagBijection(w: nat, n: int, v: nat)
    requires w > 0
    ensures IsSigned(w, n) ==> UnZigZag(w, ZigZag(w, n)) == n
    ensures v < Pow2(w) ==> IsSigned(w, UnZigZag(w, v)) && ZigZag(w, UnZigZag(w, v)) == v
  {
    hide Xor, ZigZag, UnZigZag;
    if IsSigned(w, n) {
      ZigZagIs(w, n);
      UnZigZagIs(w, ZigZag(w, n));
    }
    if v < Pow2(w) {
      UnZigZagIs(w, v);
      ZigZagIs(w, UnZigZag(w, v));
    }
  }

  // ------------------------------------------------------------------- bytes

  /** The `n` low bytes of a word, as a little-endian machine stores them. */
  function Little(v: nat, n: nat): (s: Bytes)
    ensures |s| == n
  {
    if n == 0 then [] else [v % 256] + Little(v / 256, n - 1)
  }

  function FromLittle(s: Bytes): nat {
    if s == [] then 0 else s[0] + 256 * FromLittle(s[1..])
  }

  function Power256(n: nat): (p: nat)
    ensures p > 0
  {
    if n == 0 then 1 else 256 * Power256(n - 1)
  }

  lemma {:induction false} FromLittleBounded(s: Bytes)
    ensures FromLittle(s) < Power256(|s|)
  {
    if s != [] { FromLittleBounded(s[1..]); }
  }

  /** Loading a stored word gives it back. */
  lemma {:induction false} LoadStore(v: nat, n: nat)
    requires v < Power256(n)
    ensures FromLittle(Little(v, n)) == v
  {
    if n > 0 { LoadStore(v / 256, n - 1); }
  }

  lemma Power256Words()
    ensures Power256(1) == 256 && Power256(4) == W32 && Power256(8) == W64
  {
    assert Power256(2) == 65536;
    assert Power256(4) == 65536 * Power256(2);
    assert Power256(6) == 65536 * Power256(4);
    assert Power256(8) == 65536 * Power256(6);
  }

  // ------------------------------------------------------------------ fields

  function WireType(t: ProtoType): (w: int)
    ensures w in {0, 1, 2, 5}
  {
    match t
    case Int32 | Int64 | Uint32 | Uint64 | Bool | Enum | Sint32 | Sint64 => 0
    case Fixed64 | Sfixed64 | Double => 1
    case String | Bytes_ | Message => 2
    case Fixed32 | Sfixed32 | Float => 5
  }

  /** What the decoder reports a wire type as. */
  function ReportedType(wire: int): ProtoType {
    if wire == 0 then Uint64 else if wire == 1 then Fixed64 else if wire == 2 then Bytes_ else Fixed32
  }

  /** How many bytes of the caller's buffer the encoder reads. */
  function ReadLength(t: ProtoType, len: int): int {
    match WireType(t)
    case 0 => if len >= 8 then 8 else if len >= 4 then 4 else 1
    case 1 => 8
    case 2 => len
    case _ => 4
  }

  predicate Readable(t: ProtoType, v: FieldValue) {
    0 <= ReadLength(t, v.len) <= |v.bytes|
  }

  /** The number a varint field carries, before zigzag. */
  function RawNumber(t: ProtoType, v: FieldValue): nat
    requires WireType(t) == 0 && Readable(t, v)
  {
    FromLittle(v.bytes[..ReadLength(t, v.len)])
  }

  function VarintNumber(t: ProtoType, v: FieldValue): nat
    requires WireType(t) == 0 && Readable(t, v)
  {
    Pow32();
    Pow64();
    var raw := RawNumber(t, v);
    if t == Sint32 then ZigZag(32, Signed(32, raw % W32))
    else if t == Sint64 then ZigZag(64, Signed(64, raw % W64))
    else raw
  }

  /** What comes back of a field's value: a varint widened to eight bytes, anything else byte for byte. */
  function Payload(t: ProtoType, v: FieldValue): Bytes
    requires Readable(t, v)
  {
    if WireType(t) == 0 then Little(VarintNumber(t, v), 8) else v.bytes[..ReadLength(t, v.len)]
  }

  /** The tag, in a 32-bit word: a field number of 2^29 or more loses its high bits. */
  function Key(number: int, t: ProtoType): (k: nat)
    ensures k < W32 && k % 8 == WireType(t) && k / 8 == number % 0x2000_0000
  {
    TagParts(number, WireType(t));
    8 * number % W32 + WireType(t)
  }

  lemma TagParts(number: int, w: nat)
    requires w < 8
    ensures var k := 8 * number % W32 + w;
            k < W32 && k % 8 == w && k / 8 == number % 0x2000_0000
  {
    var q, r := number / 0x2000_0000, number % 0x2000_0000;
    assert 8 * number == W32 * q + 8 * r;
    assert 8 * number % W32 == 8 * r;
  }

  function Body(t: ProtoType, v: FieldValue): Bytes
    requires Readable(t, v)
  {
    if WireType(t) == 0 then Varint(VarintNumber(t, v))
    else if WireType(t) == 2 then Varint(v.len) + Payload(t, v)
    else Payload(t, v)
  }

  /** A field on the wire; nothing for a number that is not positive. */
  function FieldBytes(d: FieldDef, v: FieldValue): Bytes
    requires Readable(d.ptype, v)
  {
    if d.number <= 0 then [] else Varint(Key(d.number, d.ptype)) + Body(d.ptype, v)
  }

  /** A field's payload and the bytes it took; a length past the end is cut to the end. */
  function PayloadOf(wire: int, s: Bytes): (r: Option<(Bytes, nat)>)
    ensures r.Some? ==> r.value.1 <= |s|
  {
    match wire
    case 0 =>
      var v := VarintOf(s);
      if v.None? then None else Some((Little(v.value.1, 8), v.value.0))
    case 1 => if |s| < 8 then None else Some((s[..8], 8))
    case 2 =>
      var v := VarintOf(s);
      if v.None? then None else
      var from := v.value.0;
      var n := if v.value.1 > |s| - from then |s| - from else v.value.1;
      Some((s[from..from + n], from + n))
    case 5 => if |s| < 4 then None else Some((s[..4], 4))
    case _ => None
  }

  /** The field number in a tag, as a 32-bit signed number. */
  function NumberIn(key: nat): int {
    Pow32();
    Signed(32, key / 8 % W32)
  }

  /** One field off the wire and the bytes it took. */
  function FieldOf(s: Bytes): (r: Option<(Decoded, nat)>)
    ensures r.Some? ==> 0 < r.value.1 <= |s|
  {
    var key := VarintOf(s);
    if key.None? then None else
    var off, wire := key.value.0, key.value.1 % 8;
    var p := PayloadOf(wire, s[off..]);
    if p.None? then None
    else Some((Decoded(NumberIn(key.value.1), ReportedType(wire), p.value.0), off + p.value.1))
  }

  /** The examples of the format's documentation: 300 as a varint, and 150 in field 1. */
  lemma DocumentedNumbers()
    ensures Varint(300) == [0xAC, 0x02]
    ensures FieldBytes(FieldDef(1, Int32), FieldValue([150, 0, 0, 0], 4)) == [0x08, 0x96, 0x01]
  {
    hide VarintNumber, RawNumber;
    assert Varint(150) == [0x96, 0x01];
    NumberOf150();
    assert Varint(0x08) == [0x08];
  }

  /** ... and the string "testing" in field 2. */
  lemma DocumentedString(v: FieldValue)
    requires v == FieldValue([116, 101, 115, 116, 105, 110, 103], 7)
    ensures FieldBytes(FieldDef(2, String), v) == [0x12, 0x07, 116, 101, 115, 116, 105, 110, 103]
  {
    hide VarintNumber, RawNumber;
    assert v.bytes[..7] == v.bytes;
    assert Varint(0x12) == [0x12] && Varint(7) == [7];
  }

  lemma NumberOf150()
    ensures VarintNumber(Int32, FieldValue([150, 0, 0, 0], 4)) == 150
  {
    var s: Bytes := [150, 0, 0, 0];
    assert s[..4] == s && s[1..] == [0, 0, 0] && s[1..][1..] == [0, 0] && [0, 0][1..] == [0] && [0][1..] == [];
    assert FromLittle([0]) == 0;
    assert FromLittle([0, 0]) == 0;
    assert FromLittle([0, 0, 0]) == 0;
  }

  /** Four bytes in field 3 and eight in field 4 are sent as they are. */
  lemma FixedWidths(t: ProtoType, u: ProtoType, v: FieldValue, w: FieldValue)
    requires t in {Fixed32, Sfixed32, Float} && u in {Fixed64, Sfixed64, Double} && |v.bytes| == 4 && |w.bytes| == 8
    ensures FieldBytes(FieldDef(3, t), v) == [0x1D] + v.bytes
    ensures FieldBytes(FieldDef(4, u), w) == [0x21] + w.bytes
  {
    assert v.bytes[..4] == v.bytes && w.bytes[..8] == w.bytes;
    assert Varint(0x1D) == [0x1D] && Varint(0x21) == [0x21];
  }


  /** A field cannot be read exactly when its tag, its number or its length does not end, or its bytes are not there. */
  lemma FieldFailsIff(s: Bytes)
    ensures FieldOf(s).None? <==>
              var key := VarintOf(s);
              key.None? || var rest, wire := s[key.value.0..], key.value.1 % 8;
                           || wire in {3, 4, 6, 7} || (wire in {0, 2} && VarintOf(rest).None?)
                           || (wire == 1 && |rest| < 8) || (wire == 5 && |rest| < 4)
  {
    hide VarintOf, NumberIn, Little;
  }

  /** A length past the end of the message is cut to the end. */
  lemma LengthIsCut(s: Bytes, key: (nat, nat), len: (nat, nat))
    requires VarintOf(s) == Some(key) && key.1 % 8 == 2 && VarintOf(s[key.0..]) == Some(len)
    ensures var from := key.0 + len.0;
            && FieldOf(s).Some?
            && FieldOf(s).value.0.payload == if len.1 > |s| - from then s[from..] else s[from..from + len.1]
  {
    hide VarintOf, NumberIn, Little;
    PayloadIsCut(s[key.0..], len);
    hide PayloadOf;
    var rest, from := s[key.0..], key.0 + len.0;
    assert rest[len.0..] == s[from..];
    if len.1 <= |s| - from { assert rest[len.0..len.0 + len.1] == s[from..from + len.1]; }
  }

  lemma PayloadIsCut(s: Bytes, len: (nat, nat))
    requires VarintOf(s) == Some(len)
    ensures var p := PayloadOf(2, s);
            p.Some? && p.value.0 == if len.1 > |s| - len.0 then s[len.0..] else s[len.0..len.0 + len.1]
  {
    hide VarintOf, Little;
  }

  /** What the decoder reports of a field that was sent. */
  function Echo(d: FieldDef, v: FieldValue): Decoded
    requires Readable(d.ptype, v)
  {
    Decoded(d.number % 0x2000_0000, ReportedType(WireType(d.ptype)), Payload(d.ptype, v))
  }

  lemma VarintNumberBounded(t: ProtoType, v: FieldValue)
    requires WireType(t) == 0 && Readable(t, v)
    ensures VarintNumber(t, v) < W64
  {
    hide ZigZag, Signed, RawNumber;
    Pow32();
    Pow64();
    RawBounded(t, v);
  }

  lemma RawBounded(t: ProtoType, v: FieldValue)
    requires WireType(t) == 0 && Readable(t, v)
    ensures RawNumber(t, v) < W64
  {
    hide FromLittle;
    var n := ReadLength(t, v.len);
    Power256Words();
    FromLittleBounded(v.bytes[..n]);
    assert n == 8 || n == 4 || n == 1;
  }

  lemma NumberComesBack(n: nat, rest: Bytes)
    requires n < W64
    ensures PayloadOf(0, Varint(n) + rest) == Some((Little(n, 8), |Varint(n)|))
  {
    hide VarintOf, Varint, Little;
    VarintRoundTrip(n, rest);
  }

  lemma DelimitedComesBack(payload: Bytes, rest: Bytes)
    requires |payload| < W64
    ensures PayloadOf(2, Varint(|payload|) + payload + rest) == Some((payload, |Varint(|payload|)| + |payload|))
  {
    hide VarintOf, Varint;
    var from := |Varint(|payload|)|;
    var s := Varint(|payload|) + payload + rest;
    VarintRoundTrip(|payload|, payload + rest);
    assert s == Varint(|payload|) + (payload + rest);
    assert s[from..from + |payload|] == payload;
  }

  lemma PayloadRoundTrip(t: ProtoType, v: FieldValue, rest: Bytes)
    requires Readable(t, v) && v.len < W64
    ensures PayloadOf(WireType(t), Body(t, v) + rest) == Some((Payload(t, v), |Body(t, v)|))
  {
    hide VarintOf, Varint, VarintNumber, RawNumber, Little;
    if WireType(t) == 0 {
      VarintNumberBounded(t, v);
      NumberComesBack(VarintNumber(t, v), rest);
    } else if WireType(t) == 2 {
      assert |Payload(t, v)| == v.len;
      DelimitedComesBack(Payload(t, v), rest);
    } else {
      assert (Payload(t, v) + rest)[..|Payload(t, v)|] == Payload(t, v);
    }
  }

  /** A field is read back whole, whatever follows it; its number modulo 2^29. */
  lemma FieldRoundTrip(d: FieldDef, v: FieldValue, rest: Bytes)
    requires d.number > 0 && Readable(d.ptype, v) && v.len < W64
    ensures FieldOf(FieldBytes(d, v) + rest) == Some((Echo(d, v), |FieldBytes(d, v)|))
  {
    hide VarintOf, Varint, PayloadOf, Body, Payload, NumberIn;
    var key, body := Key(d.number, d.ptype), Body(d.ptype, v);
    var s := FieldBytes(d, v) + rest;
    assert s == Varint(key) + (body + rest);
    VarintRoundTrip(key, body + rest);
    assert s[|Varint(key)|..] == body + rest;
    NumberReads(d);
    PayloadRoundTrip(d.ptype, v, rest);
  }

  lemma NumberReads(d: FieldDef)
    requires d.number > 0
    ensures NumberIn(Key(d.number, d.ptype)) == d.number % 0x2000_0000
  {
    Pow32();
    assert Pow2(31) * 2 == Pow2(32);
  }

  /** A field number comes back exactly when it is below 2^29. */
  lemma NumberReturnsIff(d: FieldDef, v: FieldValue)
    requires d.number > 0 && Readable(d.ptype, v)
    ensures Echo(d, v).number == d.number <==> d.number < 0x2000_0000
  {
    hide Payload, ReadLength, WireType;
  }

  /** A zigzag field's payload decodes to the signed number that was sent. */
  lemma SignedReturns(d: FieldDef, v: FieldValue)
    requires d.ptype in {Sint32, Sint64} && Readable(d.ptype, v)
    ensures Pow2(32) == W32 && Pow2(64) == W64
    ensures d.ptype == Sint32 ==>
              UnZigZag(32, FromLittle(Echo(d, v).payload)) == Signed(32, RawNumber(d.ptype, v) % W32)
    ensures d.ptype == Sint64 ==>
              UnZigZag(64, FromLittle(Echo(d, v).payload)) == Signed(64, RawNumber(d.ptype, v) % W64)
  {
    hide ZigZag, UnZigZag, FromLittle, Little, RawNumber, Pow2;
    Pow32();
    Pow64();
    Power256Words();
    VarintNumberBounded(d.ptype, v);
    var n := VarintNumber(d.ptype, v);
    LoadStore(n, 8);
    ZigZagBijection(32, Signed(32, RawNumber(d.ptype, v) % W32), 0);
    ZigZagBijection(64, Signed(64, RawNumber(d.ptype, v) % W64), 0);
  }

  // ---------------------------------------------------------------- messages

  ghost predicate AllReadable(defs: seq<FieldDef>, vals: seq<FieldValue>, n: nat) {
    n <= |defs| && n <= |vals| && forall i :: 0 <= i < n ==> Readable(defs[i].ptype, vals[i])
  }

  /** The first `n` fields one after another. */
  ghost function Prefix(defs: seq<FieldDef>, vals: seq<FieldValue>, n: nat): Bytes
    requires AllReadable(defs, vals, n)
  {
    if n == 0 then [] else Prefix(defs, vals, n - 1) + FieldBytes(defs[n - 1], vals[n - 1])
  }

  /** How many of `n` fields are written: it stops before a bad number and after filling a frame. */
  ghost function Sent(defs: seq<FieldDef>, vals: seq<FieldValue>, n: nat, k: nat): (m: nat)
    requires k <= n && AllReadable(defs, vals, n)
    ensures k <= m <= n
    decreases n - k
  {
    if k == n || defs[k].number <= 0 then k
    else if |Prefix(defs, vals, k + 1)| >= MAX_FRAME then k + 1
    else Sent(defs, vals, n, k + 1)
  }

  /** Where it stops short of all, a bad number comes next or a frame has just been filled; before, neither was so. */
  lemma {:induction false} SentStops(defs: seq<FieldDef>, vals: seq<FieldValue>, n: nat, k: nat)
    requires k <= n && AllReadable(defs, vals, n)
    ensures var m := Sent(defs, vals, n, k);
            && (m < n ==> defs[m].number <= 0 || (m > k && |Prefix(defs, vals, m)| >= MAX_FRAME))
            && (forall j :: k < j < m ==> |Prefix(defs, vals, j)| < MAX_FRAME)
            && (forall j :: k <= j < m ==> defs[j].number > 0)
    decreases n - k
  {
    hide Prefix, Readable;
    if k < n { SentStops(defs, vals, n, k + 1); }
  }

  /** Up to `max` fields off the wire, until one cannot be read. */
  ghost function MessageOf(s: Bytes, max: nat): (seq<Decoded>, nat) {
    if s == [] || max == 0 then ([], 0) else
    var f := FieldOf(s);
    if f.None? then ([], 0) else
    var more := MessageOf(s[f.value.1..], max - 1);
    ([f.value.0] + more.0, f.value.1 + more.1)
  }

  /** A lower limit reads the first of the fields that a higher one reads, as many as it allows. */
  lemma {:induction false} FewerFields(s: Bytes, few: nat, many: nat)
    requires few <= many
    ensures var r := MessageOf(s, many).0;
            MessageOf(s, few).0 == if few < |r| then r[..few] else r
    decreases few
  {
    hide FieldOf;
    var f := FieldOf(s);
    if s != [] && few > 0 && f.Some? {
      FewerFields(s[f.value.1..], few - 1, many - 1);
    }
  }

  ghost predicate Sendable(defs: seq<FieldDef>, vals: seq<FieldValue>, n: nat) {
    AllReadable(defs, vals, n) && forall i :: 0 <= i < n ==> defs[i].number > 0 && vals[i].len < W64
  }

  /** Reading fields `k` to `n` off the rest of a message consumes it all and reports each as it was sent. */
  lemma {:induction false} MessageReads(defs: seq<FieldDef>, vals: seq<FieldValue>, n: nat, k: nat, max: nat)
    requires k <= n && Sendable(defs, vals, n) && max >= n - k
    ensures |Prefix(defs, vals, k)| <= |Prefix(defs, vals, n)|
    ensures var all := Prefix(defs, vals, n);
            var r := MessageOf(all[|Prefix(defs, vals, k)|..], max);
            && all[..|Prefix(defs, vals, k)|] == Prefix(defs, vals, k)
            && r.1 == |all| - |Prefix(defs, vals, k)| && |r.0| == n - k
            && forall i :: k <= i < n ==> r.0[i - k] == Echo(defs[i], vals[i])
    decreases n - k
  {
    hide FieldBytes, FieldOf, Echo;
    if k < n {
      MessageReads(defs, vals, n, k + 1, max - 1);
      var all, here := Prefix(defs, vals, n), Prefix(defs, vals, k);
      var next := Prefix(defs, vals, k + 1);
      var field := FieldBytes(defs[k], vals[k]);
      assert next == here + field;
      hide Prefix;
      FieldAt(all, here, field);
      FieldRoundTrip(defs[k], vals[k], all[|next|..]);
      MessageFirst(all[|here|..], max, Echo(defs[k], vals[k]), |field|);
      hide MessageOf, Readable;
    }
  }

  lemma MessageFirst(s: Bytes, max: nat, d: Decoded, len: nat)
    requires max > 0 && FieldOf(s) == Some((d, len)) && len <= |s|
    ensures MessageOf(s, max).0 == [d] + MessageOf(s[len..], max - 1).0
    ensures MessageOf(s, max).1 == len + MessageOf(s[len..], max - 1).1
  {
    hide FieldOf;
  }

  lemma FieldAt(all: Bytes, here: Bytes, field: Bytes)
    requires |here| + |field| <= |all| && all[..|here| + |field|] == here + field
    ensures all[..|here|] == here
    ensures all[|here|..] == field + all[|here| + |field|..]
    ensures all[|here|..][|field|..] == all[|here| + |field|..]
  {
    var next := here + field;
    assert all[..|here|] == next[..|here|] && all[|here|..|next|] == next[|here|..];
  }

  lemma WholeMessage(defs: seq<FieldDef>, vals: seq<FieldValue>, m: nat, max: nat)
    requires Sendable(defs, vals, m) && max >= m
    ensures var r := MessageOf(Prefix(defs, vals, m), max);
            |r.0| == m && r.1 == |Prefix(defs, vals, m)| && forall i :: 0 <= i < m ==> r.0[i] == Echo(defs[i], vals[i])
  {
    assert Prefix(defs, vals, 0) == [];
    hide FieldBytes, Echo, MessageOf, Prefix, Readable;
    MessageReads(defs, vals, m, 0, max);
    var all := Prefix(defs, vals, m);
    assert all[|Prefix(defs, vals, 0)|..] == all;
  }

  lemma {:induction false} PrefixGrows(defs: seq<FieldDef>, vals: seq<FieldValue>, n: nat, k: nat)
    requires k <= n && AllReadable(defs, vals, n)
    ensures |Prefix(defs, vals, k)| <= |Prefix(defs, vals, n)|
    decreases n
  {
    hide FieldBytes, Readable;
    if k < n { PrefixGrows(defs, vals, n - 1, k); }
  }

  /** Every field is written exactly when every number is positive and all fields but the last leave room in a frame. */
  lemma {:induction false} AllSentIff(defs: seq<FieldDef>, vals: seq<FieldValue>, n: nat, k: nat)
    requires k <= n && AllReadable(defs, vals, n)
    ensures Sent(defs, vals, n, k) == n <==>
              (forall i :: k <= i < n ==> defs[i].number > 0) && (k < n - 1 ==> |Prefix(defs, vals, n - 1)| < MAX_FRAME)
    decreases n - k
  {
    hide Prefix;
    if k < n {
      AllSentIff(defs, vals, n, k + 1);
      if k + 1 <= n - 1 { PrefixGrows(defs, vals, n - 1, k + 1); }
    }
  }

  /**
   Encoding and then decoding: the fields sent come back in order, each as its
   echo, and nothing is left over; they are all the fields exactly when every
   number is positive and all fields but the last leave room in a frame.
   */
  lemma MessageRoundTrip(defs: seq<FieldDef>, vals: seq<FieldValue>, n: nat, max: nat)
    requires AllReadable(defs, vals, n) && max >= n && forall i :: 0 <= i < n ==> vals[i].len < W64
    ensures var m := Sent(defs, vals, n, 0);
            var r := MessageOf(Prefix(defs, vals, m), max);
            && |r.0| == m && r.1 == |Prefix(defs, vals, m)|
            && (forall i :: 0 <= i < m ==> r.0[i] == Echo(defs[i], vals[i]))
            && (m == n <==> (forall i :: 0 <= i < n ==> defs[i].number > 0)
                            && (n > 1 ==> |Prefix(defs, vals, n - 1)| < MAX_FRAME))
  {
    hide FieldBytes, Echo, MessageOf, Prefix, Sent, Readable;
    SentStops(defs, vals, n, 0);
    WholeMessage(defs, vals, Sent(defs, vals, n, 0), max);
    AllSentIff(defs, vals, n, 0);
  }
}
