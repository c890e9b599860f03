/**
 Tokens: three base64url parts joined by dots, the second the claims as JSON,
 the third the MAC of the first two. The MAC itself is a parameter.
 */
module JwtAuth {
  import opened CStrings
  import opened ClaimsJson
  import B = Base64Url
  import Decimal

  const DOT: byte := 46
  const HEADER_LEN := 256
  const PAYLOAD_LEN := 2048
  const TOKEN_LEN := 4096
  const SIG_LEN := 128
  /** The longest claims text whose encoding fits the payload's buffer. */
  const JSON_ROOM := 1533

  const ISS: Str := [105, 115, 115]
  const SUB: Str := [115, 117, 98]
  const AUD: Str := [97, 117, 100]
  const EXP: Str := [101, 120, 112]
  const IAT: Str := [105, 97, 116]
  const NBF: Str := [110, 98, 102]
  const JTI: Str := [106, 116, 105]
  const SCOPE: Str := [115, 99, 111, 112, 101]

  datatype Claims = Claims(iss: Str, sub: Str, aud: Str, exp: int, iat: int, nbf: int, jti: Str, scope: Str)

  datatype Algorithm = NoAlg | HS256 | HS384 | HS512 | RS256 | RS384 | RS512

  datatype Mac = Mac(sign: Str -> B.Bytes, verify: (Str, B.Bytes) -> bool)

  /** Only the algorithm `none` comes without a MAC. */
  datatype Engine = Engine(alg: Algorithm, mac: Option<Mac>)

  datatype Outcome =
    | Accepted(claims: Claims)
    | Rejected(code: int)
      /** A part that is no base64url or fills its buffer: the C code goes on with memory it did not write. */
    | Undefined

  // ---------------------------------------------------------------- escaping

  predicate Special(c: byte) {
    c == QUOTE || c == BACKSLASH
  }

  /** What `src` becomes in a buffer of which `j` bytes are used. */
  function Escaped(src: Str, j: nat, size: nat): Str {
    if src == [] || j + 2 >= size then []
    else if Special(src[0]) then [BACKSLASH, src[0]] + Escaped(src[1..], j + 2, size)
    else [src[0]] + Escaped(src[1..], j + 1, size)
  }

  lemma EscapedStep(done: Str, src: Str, j: nat, size: nat)
    ensures src == [] || j + 2 >= size ==> Escaped(src, j, size) == []
    ensures src != [] && j + 2 < size ==>
              var e := if Special(src[0]) then [BACKSLASH, src[0]] else [src[0]];
              done + Escaped(src, j, size) == done + e + Escaped(src[1..], j + |e|, size)
  {
  }

  method EscapeStr(src: Str, size: nat) returns (dst: Str)
    ensures dst == Escaped(src, 0, size)
  {
    hide Escaped;
    dst := [];
    var i := 0;
    assert src[0..] == src;
    while i < |src| && |dst| + 2 < size
      invariant 0 <= i <= |src|
      invariant dst + Escaped(src[i..], |dst|, size) == Escaped(src, 0, size)
    {
      EscapedStep(dst, src[i..], |dst|, size);
      assert src[i..][1..] == src[i + 1..];
      ghost var before := dst;
      if Special(src[i]) {
        dst := dst + [BACKSLASH];
      }
      dst := dst + [src[i]];
      assert dst == before + if Special(src[i]) then [BACKSLASH, src[i]] else [src[i]];
      i := i + 1;
    }
    EscapedStep(dst, src[i..], |dst|, size);
  }

  /** A quote and a backslash each get a backslash before them; the text and its terminator fit the buffer. */
  lemma {:induction false} EscapedFits(src: Str, j: nat, size: nat)
    requires j < size
    ensures j + |Escaped(src, j, size)| < size
    ensures Escaped([97, QUOTE, 98, BACKSLASH], 0, 16) == [97, BACKSLASH, QUOTE, 98, BACKSLASH, BACKSLASH]
    decreases |src|
  {
    EscapedSample();
    if src != [] && j + 2 < size {
      EscapedFits(src[1..], j + (if Special(src[0]) then 2 else 1), size);
    }
  }

  lemma EscapedSample()
    ensures Escaped([97, QUOTE, 98, BACKSLASH], 0, 16) == [97, BACKSLASH, QUOTE, 98, BACKSLASH, BACKSLASH]
  {
    assert Escaped([BACKSLASH], 4, 16) == [BACKSLASH, BACKSLASH];
    assert Escaped([98, BACKSLASH], 3, 16) == [98, BACKSLASH, BACKSLASH];
    assert Escaped([QUOTE, 98, BACKSLASH], 1, 16) == [BACKSLASH, QUOTE, 98, BACKSLASH, BACKSLASH];
  }

  predicate Plain(s: Str) {
    QUOTE !in s && BACKSLASH !in s
  }

  /**
   With room for twice the string, escaping keeps a plain string and lengthens any
   other; it neither adds nor loses quotes.
   */
  lemma {:induction false} EscapedIs(src: Str, j: nat, size: nat)
    requires j + 2 * |src| < size
    ensures Plain(src) ==> Escaped(src, j, size) == src
    ensures !Plain(src) ==> |Escaped(src, j, size)| > |src|
    ensures |Escaped(src, j, size)| >= |src|
    ensures QUOTE in Escaped(src, j, size) <==> QUOTE in src
    decreases |src|
  {
    if src != [] {
      EscapedIs(src[1..], j + (if Special(src[0]) then 2 else 1), size);
      assert src == [src[0]] + src[1..];
    }
  }

  // ------------------------------------------------------------------ claims

  function Fields(c: Claims): (fs: seq<Field>)
    ensures |fs| == 8
  {
    [Text(ISS, Escaped(c.iss, 0, 256)), Text(SUB, Escaped(c.sub, 0, 256)), Text(AUD, Escaped(c.aud, 0, 512)),
     Number(EXP, c.exp), Number(IAT, c.iat), Number(NBF, c.nbf),
     Text(JTI, Escaped(c.jti, 0, 128)), Text(SCOPE, Escaped(c.scope, 0, 512))]
  }

  function StrOr(r: Option<Str>): Str {
    if r.None? then [] else r.value
  }

  function IntOr(r: Option<int>): int {
    if r.None? then 0 else r.value
  }

  function ParseClaims(json: Str): Claims {
    Claims(StrOr(ParseStr(json, ISS, 128)), StrOr(ParseStr(json, SUB, 128)), StrOr(ParseStr(json, AUD, 256)),
           IntOr(ParseInt(json, EXP)), IntOr(ParseInt(json, IAT)), IntOr(ParseInt(json, NBF)),
           StrOr(ParseStr(json, JTI, 64)), StrOr(ParseStr(json, SCOPE, 256)))
  }

  /** The claims are in their buffers, as C strings and 64-bit numbers. */
  ghost predicate InBuffers(c: Claims) {
    && |c.iss| < 128 && |c.sub| < 128 && |c.aud| < 256 && |c.jti| < 64 && |c.scope| < 256
    && IsCString(c.iss) && IsCString(c.sub) && IsCString(c.aud) && IsCString(c.jti) && IsCString(c.scope)
    && Decimal.Short(c.exp) && Decimal.Short(c.iat) && Decimal.Short(c.nbf)
  }

  predicate PlainClaims(c: Claims) {
    Plain(c.iss) && Plain(c.sub) && Plain(c.aud) && Plain(c.jti) && Plain(c.scope)
  }

  predicate QuoteFree(c: Claims) {
    QUOTE !in c.iss && QUOTE !in c.sub && QUOTE !in c.aud && QUOTE !in c.jti && QUOTE !in c.scope
  }

  lemma EscapedFields(c: Claims)
    requires InBuffers(c)
    ensures QuoteFree(c) ==> Readable(Fields(c))
    ensures PlainClaims(c) ==>
              Fields(c) == [Text(ISS, c.iss), Text(SUB, c.sub), Text(AUD, c.aud), Number(EXP, c.exp),
                            Number(IAT, c.iat), Number(NBF, c.nbf), Text(JTI, c.jti), Text(SCOPE, c.scope)]
  {
    hide Escaped, GoodKey, Readable, Fields;
    if QuoteFree(c) { FieldsReadable(c); }
    if PlainClaims(c) { FieldsPlain(c); }
  }

  lemma FieldsReadable(c: Claims)
    requires InBuffers(c) && QuoteFree(c)
    ensures Readable(Fields(c))
  {
    hide Escaped, GoodKey;
    KeysDiffer(Fields(c));
    EscapedIs(c.iss, 0, 256);
    EscapedIs(c.sub, 0, 256);
    EscapedIs(c.aud, 0, 512);
    EscapedIs(c.jti, 0, 128);
    EscapedIs(c.scope, 0, 512);
  }

  lemma FieldsPlain(c: Claims)
    requires InBuffers(c) && PlainClaims(c)
    ensures Fields(c) == [Text(ISS, c.iss), Text(SUB, c.sub), Text(AUD, c.aud), Number(EXP, c.exp), Number(IAT, c.iat),
                          Number(NBF, c.nbf), Text(JTI, c.jti), Text(SCOPE, c.scope)]
  {
    hide Escaped;
    EscapedIs(c.iss, 0, 256);
    EscapedIs(c.sub, 0, 256);
    EscapedIs(c.aud, 0, 512);
    EscapedIs(c.jti, 0, 128);
    EscapedIs(c.scope, 0, 512);
  }

  /** The first two letters of a key, which tell the eight keys apart. */
  function Letters(k: Str): int {
    if |k| < 2 then 0 else 256 * (k[0] as int) + k[1] as int
  }

  lemma KeysDiffer(fs: seq<Field>)
    requires |fs| == 8 && fs[0].key == ISS && fs[1].key == SUB && fs[2].key == AUD && fs[3].key == EXP
    requires fs[4].key == IAT
    requires fs[5].key == NBF && fs[6].key == JTI && fs[7].key == SCOPE
    ensures forall i, j :: 0 <= i < j < 8 ==> fs[i].key != fs[j].key
    ensures forall i :: 0 <= i < 8 ==> GoodKey(fs[i].key)
  {
    hide Letters, GoodKey;
    LettersOf();
    LettersDiffer(fs);
  }

  lemma LettersDiffer(fs: seq<Field>)
    requires |fs| == 8 && Letters(fs[0].key) == 26995 && Letters(fs[1].key) == 29557 && Letters(fs[2].key) == 24949
    requires Letters(fs[3].key) == 25976 && Letters(fs[4].key) == 26977 && Letters(fs[5].key) == 28258
    requires Letters(fs[6].key) == 27252 && Letters(fs[7].key) == 29539
    requires GoodKey(fs[0].key) && GoodKey(fs[1].key) && GoodKey(fs[2].key) && GoodKey(fs[3].key)
    requires GoodKey(fs[4].key) && GoodKey(fs[5].key) && GoodKey(fs[6].key) && GoodKey(fs[7].key)
    ensures forall i, j :: 0 <= i < j < 8 ==> fs[i].key != fs[j].key
    ensures forall i :: 0 <= i < 8 ==> GoodKey(fs[i].key)
  {
    hide Letters, GoodKey;
    forall i, j | 0 <= i < j < 8 ensures Letters(fs[i].key) != Letters(fs[j].key) {
    }
  }

  lemma LettersOf()
    ensures Letters(ISS) == 26995 && Letters(SUB) == 29557 && Letters(AUD) == 24949 && Letters(EXP) == 25976
    ensures Letters(IAT) == 26977 && Letters(NBF) == 28258 && Letters(JTI) == 27252 && Letters(SCOPE) == 29539
    ensures GoodKey(ISS) && GoodKey(SUB) && GoodKey(AUD) && GoodKey(EXP) && GoodKey(IAT) && GoodKey(NBF)
    ensures GoodKey(JTI) && GoodKey(SCOPE)
  {
  }

  lemma ParsedFields(fs: seq<Field>)
    requires Readable(fs) && |fs| == 8 && fs[0].Text? && fs[1].Text? && fs[2].Text? && fs[3].Number? && fs[4].Number?
    requires fs[5].Number? && fs[6].Text? && fs[7].Text?
    requires fs[0].key == ISS && fs[1].key == SUB && fs[2].key == AUD && fs[3].key == EXP && fs[4].key == IAT
    requires fs[5].key == NBF && fs[6].key == JTI && fs[7].key == SCOPE
    ensures ParseClaims(Json(fs)) == Claims(Truncate(fs[0].value, 127), Truncate(fs[1].value, 127),
                                            Truncate(fs[2].value, 255), fs[3].n, fs[4].n, fs[5].n,
                                            Truncate(fs[6].value, 63), Truncate(fs[7].value, 255))
  {
    hide Json, ParseStr, ParseInt, Readable, Truncate;
    FieldReads(fs, 0, 128);
    FieldReads(fs, 1, 128);
    FieldReads(fs, 2, 256);
    FieldReads(fs, 3, 0);
    FieldReads(fs, 4, 0);
    FieldReads(fs, 5, 0);
    FieldReads(fs, 6, 64);
    FieldReads(fs, 7, 256);
  }

  /** Claims without quotes and backslashes are read back from their text. */
  lemma ClaimsRoundTrip(c: Claims)
    requires InBuffers(c) && PlainClaims(c)
    ensures ParseClaims(Json(Fields(c))) == c
  {
    hide Fields, Json, ParseClaims, Readable;
    EscapedFields(c);
    ParsedFields(Fields(c));
  }

  /** From its first backslash on the string is backslashes. */
  predicate BackslashTail(s: Str) {
    forall i, j :: 0 <= i < j < |s| && s[i] == BACKSLASH ==> s[j] == BACKSLASH
  }

  /** Reading back into a buffer for `n` characters gives such a string whole. */
  predicate Survives(s: Str, n: nat) {
    QUOTE !in s && (BACKSLASH !in s || (|s| == n && BackslashTail(s)))
  }

  predicate AllSurvive(c: Claims) {
    Survives(c.iss, 127) && Survives(c.sub, 127) && Survives(c.aud, 255) && Survives(c.jti, 63)
        && Survives(c.scope, 255)
  }

  function Backslashes(n: nat): (s: Str)
    ensures |s| == n && forall i :: 0 <= i < n ==> s[i] == BACKSLASH
  {
    if n == 0 then [] else [BACKSLASH] + Backslashes(n - 1)
  }

  lemma BackslashesMore(n: nat)
    ensures Backslashes(n) + [BACKSLASH] == Backslashes(n + 1)
  {
  }

  /** A string that begins its own escaped form after a backslash is backslashes throughout, and the other way round. */
  lemma {:induction false} DoubledIff(s: Str, m: nat, j: nat, size: nat)
    requires QUOTE !in s && j + 2 * |s| < size && m > 0
    ensures |Escaped(s, j, size)| >= |s|
    ensures (Backslashes(m) + Escaped(s, j, size))[..|s|] == s <==> forall i :: 0 <= i < |s| ==> s[i] == BACKSLASH
    decreases |s|
  {
    if s != [] {
      var t, e := s[1..], Escaped(s, j, size);
      assert s == [s[0]] + t;
      if s[0] == BACKSLASH {
        DoubledIff(t, m + 1, j + 2, size);
        var e' := Escaped(t, j + 2, size);
        var all := Backslashes(m) + e;
        BackslashesMore(m);
        assert all == [BACKSLASH] + (Backslashes(m + 1) + e') by {
          assert Backslashes(m) + [BACKSLASH, BACKSLASH] == [BACKSLASH] + Backslashes(m + 1);
        }
        assert all[..|s|] == [BACKSLASH] + (Backslashes(m + 1) + e')[..|t|];
      } else {
        EscapedIs(s, j, size);
        assert (Backslashes(m) + e)[..|s|][0] == BACKSLASH;
      }
    }
  }

  /** A string begins its own escaped form exactly when it ends in backslashes from its first on. */
  lemma {:induction false} BeginsIff(s: Str, j: nat, size: nat)
    requires QUOTE !in s && j + 2 * |s| < size
    ensures |Escaped(s, j, size)| >= |s|
    ensures Escaped(s, j, size)[..|s|] == s <==> BackslashTail(s)
    decreases |s|
  {
    if s != [] {
      var t, e := s[1..], Escaped(s, j, size);
      assert s == [s[0]] + t;
      if s[0] == BACKSLASH {
        var e' := Escaped(t, j + 2, size);
        DoubledIff(t, 1, j + 2, size);
        assert e[..|s|] == [BACKSLASH] + (Backslashes(1) + e')[..|t|];
        assert BackslashTail(s) <==> forall i :: 0 <= i < |t| ==> t[i] == BACKSLASH;
      } else {
        var e' := Escaped(t, j + 1, size);
        BeginsIff(t, j + 1, size);
        assert e[..|s|] == [s[0]] + e'[..|t|];
        TailStep(s);
      }
    }
  }

  lemma TailStep(s: Str)
    requires s != [] && s[0] != BACKSLASH
    ensures BackslashTail(s) <==> BackslashTail(s[1..])
  {
    var t := s[1..];
    if BackslashTail(t) {
      forall i, j | 0 <= i < j < |s| && s[i] == BACKSLASH ensures s[j] == BACKSLASH {
        assert t[i - 1] == s[i] && t[j - 1] == s[j];
      }
    }
  }

  lemma SurvivesIff(s: Str, n: nat, size: nat)
    requires |s| <= n && 2 * n < size
    ensures QUOTE !in s ==> (Truncate(Escaped(s, 0, size), n) == s <==> Survives(s, n))
  {
    hide Escaped;
    if QUOTE !in s {
      EscapedIs(s, 0, size);
      BeginsIff(s, 0, size);
    }
  }

  /**
   The reader does not undo the escapes: claims come back exactly when each is
   free of quotes, and free of backslashes or as long as its buffer allows
   with nothing but backslashes from its first one on.
   */
  lemma ClaimsReturnIff(c: Claims)
    requires InBuffers(c)
    ensures ParseClaims(Json(Fields(c))) == c <==> AllSurvive(c)
  {
    hide Json, ParseStr, ParseInt, Readable, Escaped, Survives;
    if QuoteFree(c) {
      EscapedFields(c);
      ParsedFields(Fields(c));
      SurvivesIff(c.iss, 127, 256);
      SurvivesIff(c.sub, 127, 256);
      SurvivesIff(c.aud, 255, 512);
      SurvivesIff(c.jti, 63, 128);
      SurvivesIff(c.scope, 255, 512);
    } else {
      QuotesLost(c);
    }
  }

  lemma QuotesLost(c: Claims)
    requires !QuoteFree(c)
    ensures ParseClaims(Json(Fields(c))) != c && !AllSurvive(c)
  {
    hide Json, ParseStr, ParseInt, Escaped;
    var json := Json(Fields(c));
    NoQuoteReads(json, ISS, 128);
    NoQuoteReads(json, SUB, 128);
    NoQuoteReads(json, AUD, 256);
    NoQuoteReads(json, JTI, 64);
    NoQuoteReads(json, SCOPE, 256);
  }

  // ------------------------------------------------------------------ tokens

  /** The algorithm's name, spelled by its bytes. */
  function AlgName(alg: Algorithm): (s: Str)
    ensures |s| <= 5
    ensures var t := match alg
                     case NoAlg => "none"
                     case HS256 => "HS256"
                     case HS384 => "HS384"
                     case HS512 => "HS512"
                     case RS256 => "RS256"
                     case RS384 => "RS384"
                     case RS512 => "RS512";
            |s| == |t| && forall i :: 0 <= i < |t| ==> s[i] as char == t[i]
  {
    match alg
    case NoAlg => [110, 111, 110, 101]
    case HS256 => [72, 83, 50, 53, 54]
    case HS384 => [72, 83, 51, 56, 52]
    case HS512 => [72, 83, 53, 49, 50]
    case RS256 => [82, 83, 50, 53, 54]
    case RS384 => [82, 83, 51, 56, 52]
    case RS512 => [82, 83, 53, 49, 50]
  }

  function Header(alg: Algorithm): (s: Str)
    ensures 0 < |s| <= 27
  {
    [123, 34, 97, 108, 103, 34, 58, 34] + AlgName(alg) + [34, 44, 34, 116, 121, 112, 34, 58, 34, 74, 87, 84, 34, 125]
  }

  /** The header in letters. */
  lemma HeaderReads()
    ensures var s := "{\"alg\":\"HS256\",\"typ\":\"JWT\"}";
            |Header(HS256)| == |s| && forall i :: 0 <= i < |s| ==> Header(HS256)[i] as char == s[i]
  {
  }

  /** The text that is signed. */
  function SigningInput(alg: Algorithm, json: Str): Str {
    B.Encoded(Header(alg)) + [DOT] + B.Encoded(json)
  }

  function Signature(eng: Engine, text: Str): B.Bytes {
    if eng.mac.None? then [] else eng.mac.value.sign(text)
  }

  function TokenText(eng: Engine, c: Claims): Str {
    var input := SigningInput(eng.alg, Json(Fields(c)));
    input + [DOT] + B.Encoded(Signature(eng, input))
  }

  /** The MAC accepts its own output, which fits the buffers in whole groups. */
  ghost predicate Sound(mac: Mac) {
    forall m {:trigger mac.sign(m)} :: mac.verify(m, mac.sign(m)) && |mac.sign(m)| <= 126
  }

  method EncodeText(src: Str, size: nat) returns (text: Str)
    requires 4 * B.GroupCount(|src|) < size
    ensures text == B.Encoded(src)
  {
    var dst := new byte[size];
    var n := B.Encode(src, dst);
    text := dst[..n];
  }

  /** The claims' text must fit the payload's buffer, which is not checked. */
  method Encode(eng: Engine, c: Claims, tokenSize: nat) returns (token: Str)
    requires tokenSize > 0 && |Json(Fields(c))| <= JSON_ROOM
    requires eng.mac.Some? ==> forall m :: |eng.mac.value.sign(m)| <= SIG_LEN
    ensures token == Truncate(TokenText(eng, c), tokenSize - 1)
  {
    hide Json, Fields, Header, Escaped, B.Encoded, B.GroupCount;
    B.PadIs(|Header(eng.alg)|);
    B.PadIs(|Json(Fields(c))|);
    var headerB64 := EncodeText(Header(eng.alg), HEADER_LEN);
    var json := Json(Fields(c));
    var payloadB64 := EncodeText(json, PAYLOAD_LEN);
    var input := headerB64 + [DOT] + payloadB64;
    var sig := if eng.mac.Some? then eng.mac.value.sign(input) else [];
    B.PadIs(|sig|);
    var sigB64 := EncodeText(sig, 256);
    token := Truncate(input + [DOT] + sigB64, tokenSize - 1);
  }

  /** `strtok` on dots: the next nonempty run without one, and what is left after the dot that ends it. */
  function NextToken(s: Str): (r: Option<(Str, Str)>)
    decreases |s|
  {
    if s == [] then None
    else if s[0] == DOT then NextToken(s[1..])
    else
      var k := StrChr(s, DOT);
      Some((s[..k], if k < |s| then s[k + 1..] else []))
  }

  lemma TailSlice(s: Str, i: nat, j: nat)
    requires i <= j < |s|
    ensures s[1..][i..j] == s[i + 1..j + 1] && s[1..][j..] == s[j + 1..]
    ensures j > 0 ==> s[1..][j - 1] == s[j]
  {
    var t := s[1..];
    assert |t[i..j]| == |s[i + 1..j + 1]|;
    assert forall k :: 0 <= k < j - i ==> t[i..j][k] == t[i + k] == s[i + 1 + k];
    assert forall k :: 0 <= k < |t| - j ==> t[j..][k] == s[j + 1..][k];
  }

  /** The first part is what is left of the text without its leading dots, up to the next dot. */
  lemma {:induction false} TokenParts(s: Str) returns (k: nat)
    ensures k <= |s| && forall i :: 0 <= i < k ==> s[i] == DOT
    ensures NextToken(s).None? <==> k == |s|
    ensures NextToken(s).Some? ==>
              var (part, rest) := NextToken(s).value;
              var end := k + |part|;
              && part != [] && DOT !in part && end <= |s| && s[k..end] == part
              && if end == |s| then rest == [] else s[end] == DOT && rest == s[end + 1..]
  {
    k := 0;
    if s != [] && s[0] == DOT {
      var t := s[1..];
      var j := TokenParts(t);
      k := j + 1;
      assert NextToken(s) == NextToken(t);
      hide NextToken;
      if NextToken(t).Some? {
        var end := j + |NextToken(t).value.0|;
        TailSlice(s, j, end);
        if end < |t| { TailSlice(s, j, end + 1); }
      }
    } else if s != [] {
      assert s[0..|NextToken(s).value.0|] == NextToken(s).value.0;
    }
  }

  /** A part decoded into a buffer with room left for a terminator. */
  function DecodePart(part: Str, size: nat): Option<B.Bytes>
    requires size >= 3
  {
    var r := B.Decoded(part, size);
    if r.Some? && |r.value| < size then r else None
  }

  function DecodeToken(eng: Engine, token: Str): Outcome {
    if |token| >= TOKEN_LEN then Rejected(-1) else
    var h := NextToken(token);
    if h.None? then Rejected(-2) else
    var p := NextToken(h.value.1);
    if p.None? then Rejected(-2) else
    var s := NextToken(p.value.1);
    var header := DecodePart(h.value.0, HEADER_LEN);
    var payload := DecodePart(p.value.0, PAYLOAD_LEN);
    if header.None? || payload.None? then Undefined else
    var claims := ParseClaims(Cut(payload.value));
    if eng.mac.None? || s.None? then Accepted(claims) else
    var sig := B.Decoded(s.value.0, SIG_LEN);
    if sig.None? then Undefined
    else if eng.mac.value.verify(h.value.0 + [DOT] + p.value.0, sig.value) then Accepted(claims)
    else Rejected(-3)
  }

  /** A token is refused exactly for being too long, for having fewer than two parts, or for a third the MAC refuses. */
  lemma RefusedIff(eng: Engine, token: Str)
    ensures DecodeToken(eng, token) == Rejected(-1) <==> |token| >= TOKEN_LEN
    ensures var h := NextToken(token);
            DecodeToken(eng, token) == Rejected(-2)
            <==> |token| < TOKEN_LEN && (h.None? || NextToken(h.value.1).None?)
    ensures DecodeToken(eng, token) == Rejected(-3) <==>
              && eng.mac.Some? && |token| < TOKEN_LEN && NextToken(token).Some?
              && var (h, afterH) := NextToken(token).value;
                 && NextToken(afterH).Some?
                 && var (p, afterP) := NextToken(afterH).value;
                    && DecodePart(h, HEADER_LEN).Some? && DecodePart(p, PAYLOAD_LEN).Some? && NextToken(afterP).Some?
                    && match B.Decoded(NextToken(afterP).value.0, SIG_LEN)
                       case None => false
                       case Some(sig) => !eng.mac.value.verify(h + [DOT] + p, sig)
    ensures DecodeToken(eng, token).Rejected? ==> DecodeToken(eng, token).code in {-1, -2, -3}
  {
    hide NextToken, ParseClaims, Cut, DecodePart, B.Decoded;
  }

  method DecodeText(part: Str, size: nat) returns (r: Option<B.Bytes>)
    requires size >= 3
    ensures r == B.Decoded(part, size)
  {
    var dst := new byte[size];
    var ok, n := B.Decode(part, dst);
    if !ok { return None; }
    return Some(dst[..n]);
  }

  method Decode(eng: Engine, token: Str) returns (r: Outcome)
    ensures r == DecodeToken(eng, token)
  {
    hide B.Decoded, ParseClaims, NextToken, Cut;
    if |token| >= TOKEN_LEN { return Rejected(-1); }
    var h := NextToken(token);
    if h.None? { return Rejected(-2); }
    var p := NextToken(h.value.1);
    if p.None? { return Rejected(-2); }
    var s := NextToken(p.value.1);
    var header := DecodeText(h.value.0, HEADER_LEN);
    if header.None? || |header.value| == HEADER_LEN { return Undefined; }
    var payload := DecodeText(p.value.0, PAYLOAD_LEN);
    if payload.None? || |payload.value| == PAYLOAD_LEN { return Undefined; }
    var input := h.value.0 + [DOT] + p.value.0;
    if eng.mac.Some? && s.Some? {
      var sig := DecodeText(s.value.0, SIG_LEN);
      if sig.None? { return Undefined; }
      if !eng.mac.value.verify(input, sig.value) { return Rejected(-3); }
    }
    return Accepted(ParseClaims(Cut(payload.value)));
  }

  // -------------------------------------------------------------- round trip

  lemma NoDots(s: B.Bytes)
    ensures DOT !in B.Encoded(s)
  {
    hide B.Encoded;
    assert !B.IsChar(DOT);
  }

  lemma NextIs(a: Str, rest: Str)
    requires a != [] && DOT !in a
    ensures NextToken(a + [DOT] + rest) == Some((a, rest))
    ensures NextToken(a) == Some((a, []))
  {
    var s := a + [DOT] + rest;
    assert s[0] == a[0];
    StrChrIs(s, DOT, |a|);
    StrChrIs(a, DOT, |a|);
    assert s[..|a|] == a && s[|a| + 1..] == rest;
    assert a[..|a|] == a;
  }

  lemma EncodedNonempty(s: B.Bytes)
    requires s != []
    ensures B.Encoded(s) != []
  {
  }

  lemma {:induction false} RoomForGroups(n: nat)
    ensures n <= 3 * B.GroupCount(n)
  {
    if n > 3 { RoomForGroups(n - 3); }
  }

  lemma PartReturns(s: B.Bytes, size: nat)
    requires 3 <= size && 3 * B.GroupCount(|s|) < size
    ensures DecodePart(B.Encoded(s), size) == Some(s)
    ensures |B.Encoded(s)| <= 4 * B.GroupCount(|s|) && (s != [] ==> B.Encoded(s) != [])
  {
    hide B.Decoded, B.Encoded, B.Groups, B.GroupCount, B.Pad;
    RoomForGroups(|s|);
    B.RoundTripIff(s, size);
    B.EncodedTrims(s);
    if s != [] { EncodedNonempty(s); }
  }

  lemma ThreeTokens(h: Str, p: Str, s: Str)
    requires h != [] && p != [] && DOT !in h && DOT !in p && DOT !in s
    ensures NextToken(h + [DOT] + p + [DOT] + s) == Some((h, p + [DOT] + s))
    ensures NextToken(p + [DOT] + s) == Some((p, s))
    ensures NextToken(s) == if s == [] then None else Some((s, []))
  {
    hide NextToken;
    assert h + [DOT] + p + [DOT] + s == h + [DOT] + (p + [DOT] + s);
    NextIs(h, p + [DOT] + s);
    NextIs(p, s);
    if s != [] { NextIs(s, []); } else { NoToken(); }
  }

  lemma NoToken()
    ensures NextToken([]) == None
  {
  }

  /** A token with these parts, each of which decodes. */
  lemma PartsDecode(eng: Engine, header: B.Bytes, json: Str, sig: B.Bytes, h: Str, p: Str, s: Str)
    requires h != [] && p != [] && DOT !in h && DOT !in p && DOT !in s && |h| + |p| + |s| + 2 < TOKEN_LEN
    requires DecodePart(h, HEADER_LEN) == Some(header) && DecodePart(p, PAYLOAD_LEN) == Some(json)
    requires B.Decoded(s, SIG_LEN) == Some(sig) && IsCString(json)
    requires eng.mac.Some? ==> eng.mac.value.verify(h + [DOT] + p, sig)
    ensures DecodeToken(eng, h + [DOT] + p + [DOT] + s) == Accepted(ParseClaims(json))
  {
    hide NextToken, DecodePart, B.Decoded, ParseClaims, Cut, IsCString;
    ThreeTokens(h, p, s);
    WholeCut(json);
  }

  /** The parts of a token, cut apart and decoded. */
  lemma PartsReturn(eng: Engine, c: Claims)
    requires var json := Json(Fields(c)); |json| <= JSON_ROOM && IsCString(json)
    requires eng.mac.Some? ==> Sound(eng.mac.value)
    ensures DecodeToken(eng, TokenText(eng, c)) == Accepted(ParseClaims(Json(Fields(c))))
  {
    hide B.Encoded, B.Decoded, B.GroupCount, Json, Fields, Header, DecodePart, DecodeToken, ParseClaims, Sound,
      Signature, IsCString;
    var json := Json(Fields(c));
    var header := Header(eng.alg);
    var input := SigningInput(eng.alg, json);
    var sig := Signature(eng, input);
    SignatureFits(eng, input);
    B.PadIs(|header|);
    B.PadIs(|json|);
    PartReturns(header, HEADER_LEN);
    PartReturns(json, PAYLOAD_LEN);
    SignaturePart(sig);
    NoDots(header);
    NoDots(json);
    NoDots(sig);
    JsonNonempty(Fields(c));
    PartsDecode(eng, header, json, sig, B.Encoded(header), B.Encoded(json), B.Encoded(sig));
  }

  /** With a MAC, what is accepted has a third part that the MAC verifies, or no third part at all. */
  lemma AcceptedIsVerified(eng: Engine, token: Str)
    requires eng.mac.Some? && DecodeToken(eng, token).Accepted?
    ensures NextToken(token).Some? && NextToken(NextToken(token).value.1).Some?
    ensures var (h, afterH) := NextToken(token).value;
            var (p, afterP) := NextToken(afterH).value;
            var s := NextToken(afterP);
            s.None? || exists sig ::
                B.Decoded(s.value.0, SIG_LEN) == Some(sig) && eng.mac.value.verify(h + [DOT] + p, sig)
  {
    hide NextToken, ParseClaims, Cut, DecodePart, B.Decoded;
  }

  /** A token that ends with its second part is accepted, whatever the MAC, exactly when both parts decode. */
  lemma TwoPartsAccepted(eng: Engine, token: Str)
    requires |token| < TOKEN_LEN && NextToken(token).Some? && NextToken(NextToken(token).value.1).Some?
    requires NextToken(NextToken(NextToken(token).value.1).value.1).None?
    ensures var (h, afterH) := NextToken(token).value;
            var p := NextToken(afterH).value.0;
            DecodeToken(eng, token) == if DecodePart(h, HEADER_LEN).None? then Undefined
                                       else match DecodePart(p, PAYLOAD_LEN)
                                         case None => Undefined
                                         case Some(payload) => Accepted(ParseClaims(Cut(payload)))
  {
    hide NextToken, ParseClaims, Cut, DecodePart;
  }

  /** So is what is signed of a token of plain claims, on its own. */
  lemma SigningInputAccepted(eng: Engine, alg: Algorithm, c: Claims)
    requires InBuffers(c) && PlainClaims(c)
    ensures DecodeToken(eng, SigningInput(alg, Json(Fields(c)))) == Accepted(c)
  {
    hide B.Encoded, B.Decoded, B.GroupCount, Json, Fields, Header, DecodePart, ParseClaims, NextToken, Cut, DecodeToken;
    var json, header := Json(Fields(c)), Header(alg);
    JsonFits(c);
    ClaimsRoundTrip(c);
    B.PadIs(|header|);
    B.PadIs(|json|);
    PartReturns(header, HEADER_LEN);
    PartReturns(json, PAYLOAD_LEN);
    NoDots(header);
    NoDots(json);
    JsonNonempty(Fields(c));
    NextIs(B.Encoded(header), B.Encoded(json));
    NextIs(B.Encoded(json), []);
    NoToken();
    WholeCut(json);
    TwoPartsAccepted(eng, SigningInput(alg, json));
  }

  lemma JsonNonempty(fs: seq<Field>)
    requires fs != []
    ensures Json(fs) != []
  {
    hide Body;
  }

  lemma SignatureFits(eng: Engine, text: Str)
    requires eng.mac.Some? ==> Sound(eng.mac.value)
    ensures |Signature(eng, text)| <= 126
    ensures eng.mac.Some? ==> eng.mac.value.verify(text, Signature(eng, text))
  {
  }

  lemma SignaturePart(sig: B.Bytes)
    requires |sig| <= 126
    ensures B.Decoded(B.Encoded(sig), SIG_LEN) == Some(sig) && |B.Encoded(sig)| <= 168
  {
    hide B.Decoded, B.Encoded, B.Groups;
    B.PadIs(|sig|);
    B.RoundTripIff(sig, SIG_LEN);
    B.EncodedTrims(sig);
  }

  lemma WholeCut(s: Str)
    requires IsCString(s)
    ensures Cut(s) == s
  {
  }

  /** Decoding an encoded token gives the claims back, for any MAC that verifies its own output. */
  lemma TokenRoundTrip(eng: Engine, c: Claims, tokenSize: nat)
    requires InBuffers(c) && PlainClaims(c) && (eng.mac.Some? ==> Sound(eng.mac.value))
    requires tokenSize > |TokenText(eng, c)|
    ensures |Json(Fields(c))| <= JSON_ROOM
    ensures DecodeToken(eng, Truncate(TokenText(eng, c), tokenSize - 1)) == Accepted(c)
  {
    hide Json, Fields, TokenText, DecodeToken, ParseClaims;
    JsonFits(c);
    ClaimsRoundTrip(c);
    PartsReturn(eng, c);
  }

  /** Plain claims never overrun the payload's buffer. */
  lemma JsonFits(c: Claims)
    requires InBuffers(c) && PlainClaims(c)
    ensures |Json(Fields(c))| <= JSON_ROOM && IsCString(Json(Fields(c)))
  {
    hide Body, Fields, IsCString, Readable;
    EscapedFields(c);
    var fs := Fields(c);
    BodyExtent(fs);
    FieldsExtent(c);
    FieldsAreC(c);
    BodyIsCString(fs);
    BraceIsC(Body(fs));
  }

  lemma BraceIsC(s: Str)
    requires IsCString(s)
    ensures IsCString([OPEN] + s)
  {
  }

  lemma FieldsAreC(c: Claims)
    requires InBuffers(c) && PlainClaims(c)
    ensures forall i :: 0 <= i < 8 ==> IsCField(Fields(c)[i])
  {
    hide Escaped, Readable;
    EscapedFields(c);
  }

  lemma FieldsExtent(c: Claims)
    requires InBuffers(c) && PlainClaims(c)
    ensures Extent(Fields(c)) <= 1000
  {
    hide Fields, Readable, Extent;
    EscapedFields(c);
    var fs := Fields(c);
    Decimal.PrintLength(c.exp);
    Decimal.PrintLength(c.iat);
    Decimal.PrintLength(c.nbf);
    ExtentOf(fs);
    ExtentOf(fs[1..]);
    ExtentOf(fs[2..]);
    ExtentOf(fs[3..]);
    ExtentOf(fs[4..]);
    ExtentOf(fs[5..]);
    ExtentOf(fs[6..]);
    ExtentOf(fs[7..]);
    ExtentOf(fs[8..]);
  }

  lemma ExtentOf(fs: seq<Field>)
    ensures Extent(fs) == if fs == [] then 0
                          else |fs[0].key| + (if fs[0].Text? then |fs[0].value| + 2 else |Decimal.Print(fs[0].n)|) + 4
                               + Extent(fs[1..])
  {
  }
}
