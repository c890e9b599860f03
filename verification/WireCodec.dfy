/** The encoder and decoder as they work: byte buffers and offsets, proved against WireFormat. */
module WireCodec {
  import opened CStrings
  import opened Words
  import opened WireFormat

  /** `buf` now holds `s` at `off` and is otherwise as it was `before`. */
  ghost predicate Wrote(before: Bytes, after: Bytes, off: nat, s: Bytes) {
    && |after| == |before| && off + |s| <= |before|
    && after == before[..off] + s + before[off + |s|..]
  }

  lemma WroteOnward(a: Bytes, b: Bytes, c: Bytes, off: nat, s: Bytes, t: Bytes)
    requires Wrote(a, b, off, s) && Wrote(b, c, off + |s|, t)
    ensures Wrote(a, c, off, s + t)
  {
    assert b[..off + |s|] == a[..off] + s;
    assert b[off + |s| + |t|..] == a[off + |s| + |t|..];
  }

  lemma WroteByte(before: Bytes, off: nat, b: byte)
    requires off < |before|
    ensures Wrote(before, before[off := b], off, [b])
  {
  }

  lemma WroteNothing(before: Bytes, off: nat)
    requires off <= |before|
    ensures Wrote(before, before, off, [])
  {
  }

  method Copy(buf: array<byte>, off: nat, s: Bytes)
    requires off + |s| <= buf.Length
    modifies buf
    ensures Wrote(old(buf[..]), buf[..], off, s)
  {
    for i := 0 to |s|
      invariant buf[..off] == old(buf[..off]) && buf[off..off + i] == s[..i]
      invariant buf[off + i..] == old(buf[off + i..])
    {
      buf[off + i] := s[i];
    }
  }

  method PutByte(buf: array<byte>, off: nat, b: byte)
    requires off < buf.Length
    modifies buf
    ensures Wrote(old(buf[..]), buf[..], off, [b])
  {
    WroteByte(buf[..], off, b);
    buf[off] := b;
    assert buf[..] == old(buf[..])[off := b];
  }

  lemma VarintDigit(done: Bytes, v: nat)
    requires v > 0x7F
    ensures done + Varint(v) == done + [v % 128 + 128] + Varint(v / 128)
  {
  }

  lemma VarintLast(v: nat)
    requires v <= 0x7F
    ensures Varint(v) == [v] && v % 128 == v
  {
  }

  method EncodeVarint(value: nat, buf: array<byte>, off: nat) returns (pos: nat)
    requires off + |Varint(value)| <= buf.Length
    modifies buf
    ensures pos == |Varint(value)| && Wrote(old(buf[..]), buf[..], off, Varint(value))
  {
    hide Wrote, Varint;
    WroteNothing(buf[..], off);
    pos := 0;
    var v := value;
    ghost var done: Bytes := [];
    while v > 0x7F
      invariant |done| == pos && done + Varint(v) == Varint(value)
      invariant Wrote(old(buf[..]), buf[..], off, done)
      decreases v
    {
      ghost var before := buf[..];
      var digit: byte := v % 128 + 128;
      PutByte(buf, off + pos, digit);
      WroteOnward(old(buf[..]), before, buf[..], off, done, [digit]);
      VarintDigit(done, v);
      done := done + [digit];
      pos := pos + 1;
      v := v / 128;
    }
    ghost var before := buf[..];
    VarintLast(v);
    PutByte(buf, off + pos, v % 128);
    WroteOnward(old(buf[..]), before, buf[..], off, done, [v]);
    pos := pos + 1;
  }

  method DecodeVarint(buf: array<byte>, off: nat, maxLen: int) returns (r: Option<(nat, nat)>)
    requires maxLen <= 0 || off + maxLen <= buf.Length
    ensures r == if maxLen <= 0 then None else VarintOf(buf[off..off + maxLen])
  {
    if maxLen <= 0 { return None; }
    ghost var s := buf[off..off + maxLen];
    var value: nat, shift, weight := 0, 0, 1;
    for i := 0 to maxLen
      invariant shift == 7 * i && weight == Power128(i) && VarintOf(s) == VarintFrom(s, i, value)
    {
      assert s[i] == buf[off + i];
      value := value + buf[off + i] % 128 * weight % W64;
      if buf[off + i] < 128 { return Some((i + 1, value)); }
      shift := shift + 7;
      weight := 128 * weight;
      if shift >= 64 { return None; }
    }
    return None;
  }

  method EncodeField(buf: array<byte>, off: nat, d: FieldDef, v: FieldValue) returns (written: nat)
    requires Readable(d.ptype, v) && off + |FieldBytes(d, v)| <= buf.Length
    modifies buf
    ensures written == |FieldBytes(d, v)| && Wrote(old(buf[..]), buf[..], off, FieldBytes(d, v))
    ensures written == 0 <==> d.number <= 0
  {
    hide Varint, Wrote, Body, Key;
    if d.number <= 0 {
      WroteNothing(buf[..], off);
      return 0;
    }
    var key := Key(d.number, d.ptype);
    var n := EncodeVarint(key, buf, off);
    ghost var keyed := buf[..];
    var m := EncodeBody(buf, off + n, d.ptype, v);
    WroteOnward(old(buf[..]), keyed, buf[..], off, Varint(key), Body(d.ptype, v));
    written := n + m;
  }

  method EncodeBody(buf: array<byte>, off: nat, t: ProtoType, v: FieldValue) returns (written: nat)
    requires Readable(t, v) && off + |Body(t, v)| <= buf.Length
    modifies buf
    ensures written == |Body(t, v)| && Wrote(old(buf[..]), buf[..], off, Body(t, v))
  {
    hide Varint, Wrote, VarintNumber, RawNumber;
    match WireType(t)
    case 0 =>
      written := EncodeVarint(VarintNumber(t, v), buf, off);
    case 2 =>
      var m := EncodeVarint(v.len, buf, off);
      ghost var sized := buf[..];
      Copy(buf, off + m, v.bytes[..v.len]);
      WroteOnward(old(buf[..]), sized, buf[..], off, Varint(v.len), v.bytes[..v.len]);
      written := m + v.len;
    case _ =>
      written := ReadLength(t, v.len);
      Copy(buf, off, v.bytes[..written]);
  }

  lemma Slice(buf: array<byte>, off: nat, len: nat, i: nat, j: nat)
    requires off + len <= buf.Length && i <= j <= len
    ensures buf[off..off + len][i..j] == buf[off + i..off + j]
    ensures j == len ==> buf[off..off + len][i..] == buf[off + i..off + j]
  {
    var s := buf[off..off + len];
    assert forall k :: 0 <= k < len ==> s[k] == buf[off + k];
    assert j == len ==> s[i..] == s[i..j];
  }

  method DecodeField(buf: array<byte>, off: nat, len: int) returns (r: Option<(Decoded, nat)>)
    requires len <= 0 || off + len <= buf.Length
    ensures r == if len <= 0 then None else FieldOf(buf[off..off + len])
  {
    hide VarintOf, PayloadOf, NumberIn;
    if len <= 0 { return None; }
    var key := DecodeVarint(buf, off, len);
    if key.None? { return None; }
    var at, wire := key.value.0, key.value.1 % 8;
    Slice(buf, off, len, at, len);
    var p := DecodePayload(buf, off + at, len - at, wire);
    if p.None? { return None; }
    return Some((Decoded(NumberIn(key.value.1), ReportedType(wire), p.value.0), at + p.value.1));
  }

  method DecodePayload(buf: array<byte>, off: nat, len: nat, wire: int) returns (r: Option<(Bytes, nat)>)
    requires off + len <= buf.Length
    ensures r == PayloadOf(wire, buf[off..off + len])
  {
    hide VarintOf, Little;
    EmptyVarint();
    match wire
    case 0 =>
      var v := DecodeVarint(buf, off, len);
      if v.None? { return None; }
      return Some((Little(v.value.1, 8), v.value.0));
    case 1 =>
      if len < 8 { return None; }
      Slice(buf, off, len, 0, 8);
      return Some((buf[off..off + 8], 8));
    case 2 =>
      var v := DecodeVarint(buf, off, len);
      if v.None? { return None; }
      var at, slen := v.value.0, v.value.1;
      if slen > len - at { slen := len - at; }
      Slice(buf, off, len, at, at + slen);
      return Some((buf[off + at..off + at + slen], at + slen));
    case 5 =>
      if len < 4 { return None; }
      Slice(buf, off, len, 0, 4);
      return Some((buf[off..off + 4], 4));
    case _ =>
      return None;
  }

  lemma EmptyVarint()
    ensures VarintOf([]) == None
  {
  }

  /** What the next field adds, and whether it is the last one written. */
  lemma NextField(defs: seq<FieldDef>, vals: seq<FieldValue>, n: nat, i: nat)
    requires i < n && AllReadable(defs, vals, n)
    ensures AllReadable(defs, vals, i) && AllReadable(defs, vals, i + 1) && Readable(defs[i].ptype, vals[i])
    ensures var field, m := FieldBytes(defs[i], vals[i]), Sent(defs, vals, n, i);
            && Prefix(defs, vals, i + 1) == Prefix(defs, vals, i) + field
            && |Prefix(defs, vals, i)| + |field| <= |Prefix(defs, vals, m)|
            && m == if defs[i].number <= 0 then i
                    else if |Prefix(defs, vals, i + 1)| >= MAX_FRAME then i + 1 else Sent(defs, vals, n, i + 1)
  {
    PrefixGrows(defs, vals, Sent(defs, vals, n, i), if defs[i].number <= 0 then i else i + 1);
  }

  lemma NoFields(defs: seq<FieldDef>, vals: seq<FieldValue>, n: nat)
    requires AllReadable(defs, vals, n)
    ensures AllReadable(defs, vals, 0) && Prefix(defs, vals, 0) == [] && Sent(defs, vals, n, n) == n
  {
  }

  /** The fields both the caller and the message definition know of. */
  function Common(defs: seq<FieldDef>, fieldCount: nat): (n: nat)
    ensures n <= |defs| && n <= fieldCount
  {
    if fieldCount < |defs| then fieldCount else |defs|
  }

  /** Refuses a message in which a field to be written has no positive number. */
  method EncodeMessage(defs: seq<FieldDef>, vals: seq<FieldValue>, fieldCount: nat, out: array<byte>)
    returns (ok: bool, outLen: nat)
    requires AllReadable(defs, vals, Common(defs, fieldCount))
    requires |Prefix(defs, vals, Sent(defs, vals, Common(defs, fieldCount), 0))| <= out.Length
    modifies out
    ensures var n := Common(defs, fieldCount);
            var m := Sent(defs, vals, n, 0);
            && (ok <==> m == n || |Prefix(defs, vals, m)| >= MAX_FRAME)
            && (ok ==> outLen == |Prefix(defs, vals, m)|)
            && Wrote(old(out[..]), out[..], 0, Prefix(defs, vals, m))
  {
    hide FieldBytes, Wrote, Readable, Prefix, Sent, AllReadable;
    WroteNothing(out[..], 0);
    ghost var n := Common(defs, fieldCount);
    ghost var m := Sent(defs, vals, n, 0);
    var off, i := 0, 0;
    NoFields(defs, vals, n);
    CommonValues(defs, vals, n);
    while i < fieldCount && i < |defs|
      invariant 0 <= i <= n && AllReadable(defs, vals, i) && Sent(defs, vals, n, i) == m
      invariant off == |Prefix(defs, vals, i)| < MAX_FRAME && Wrote(old(out[..]), out[..], 0, Prefix(defs, vals, i))
    {
      NextField(defs, vals, n, i);
      var written := AppendField(out, off, defs[i], vals[i], old(out[..]), Prefix(defs, vals, i));
      if written <= 0 {
        return false, 0;
      }
      off := off + written;
      i := i + 1;
      if off >= MAX_FRAME {
        return true, off;
      }
    }
    return true, off;
  }

  lemma CommonValues(defs: seq<FieldDef>, vals: seq<FieldValue>, n: nat)
    requires AllReadable(defs, vals, n)
    ensures n <= |vals|
  {
  }

  /** Encodes one field after the bytes `sofar`. */
  method AppendField(out: array<byte>, off: nat, d: FieldDef, v: FieldValue, ghost start: Bytes, ghost sofar: Bytes)
    returns (written: nat)
    requires Readable(d.ptype, v) && off == |sofar| && off + |FieldBytes(d, v)| <= out.Length
    requires Wrote(start, out[..], 0, sofar)
    modifies out
    ensures Wrote(start, out[..], 0, sofar + FieldBytes(d, v))
    ensures written == |FieldBytes(d, v)| && (written == 0 <==> d.number <= 0)
    ensures written == 0 ==> sofar + FieldBytes(d, v) == sofar
  {
    hide FieldBytes, Wrote;
    ghost var before := out[..];
    written := EncodeField(out, off, d, v);
    WroteOnward(start, before, out[..], 0, sofar, FieldBytes(d, v));
  }

  lemma MessageMore(s: Bytes, off: nat, max: nat)
    requires off < |s| && max > 0 && FieldOf(s[off..]).Some?
    ensures var f := FieldOf(s[off..]).value;
            var here, more := MessageOf(s[off..], max), MessageOf(s[off + f.1..], max - 1);
            off + f.1 <= |s| && here.0 == [f.0] + more.0 && here.1 == f.1 + more.1
  {
    var f := FieldOf(s[off..]).value;
    assert s[off..][f.1..] == s[off + f.1..];
  }

  method DecodeMessage(maxFields: nat, data: array<byte>, len: nat) returns (fields: seq<Decoded>)
    requires len <= data.Length
    ensures fields == MessageOf(data[..len], maxFields).0
  {
    hide FieldOf, MessageOf;
    var off, count := 0, 0;
    fields := [];
    ghost var s := data[..len];
    assert s[0..] == s;
    while off < len && count < maxFields
      invariant 0 <= off <= len && count == |fields| <= maxFields
      invariant MessageOf(s, maxFields).0 == fields + MessageOf(s[off..], maxFields - count).0
    {
      assert data[off..off + (len - off)] == s[off..];
      var f := DecodeField(data, off, len - off);
      if f.None? {
        MessageStops(s[off..], maxFields - count);
        return;
      }
      MessageMore(s, off, maxFields - count);
      fields := fields + [f.value.0];
      off := off + f.value.1;
      count := count + 1;
    }
    MessageStops(s[off..], maxFields - count);
  }

  lemma MessageStops(s: Bytes, max: nat)
    requires s == [] || max == 0 || FieldOf(s).None?
    ensures MessageOf(s, max) == ([], 0)
  {
  }
}
