/** The claims of a token as JSON text, and the key searches that read them back. */
module ClaimsJson {
  import opened CStrings
  import Decimal

  const QUOTE: byte := 34
  const COMMA: byte := 44
  const COLON: byte := 58
  const BACKSLASH: byte := 92
  const OPEN: byte := 123
  const CLOSE: byte := 125

  datatype Field =
    | Text(key: Str, value: Str)
    | Number(key: Str, n: int)

  function Quoted(x: Str): Str {
    [QUOTE] + x + [QUOTE]
  }

  function ValueText(f: Field): Str {
    match f
    case Text(_, v) => Quoted(v)
    case Number(_, n) => Decimal.Print(n)
  }

  function FieldText(f: Field): Str {
    Quoted(f.key) + [COLON] + ValueText(f)
  }

  function Body(fs: seq<Field>): Str
    requires fs != []
  {
    if |fs| == 1 then FieldText(fs[0]) + [CLOSE] else FieldText(fs[0]) + [COMMA] + Body(fs[1..])
  }

  function Json(fs: seq<Field>): Str
    requires fs != []
  {
    [OPEN] + Body(fs)
  }

  /** The fields iss = x and exp = 5 are written as `{"iss":"x","exp":5}`. */
  lemma TextOfTwoFields()
    ensures Json([Text([105, 115, 115], [120]), Number([101, 120, 112], 5)])
            == [123, 34, 105, 115, 115, 34, 58, 34, 120, 34, 44, 34, 101, 120, 112, 34, 58, 53, 125]
  {
    var fs := [Text([105, 115, 115], [120]), Number([101, 120, 112], 5)];
    assert Body(fs[1..]) == FieldText(fs[1]) + [CLOSE];
    assert Decimal.Print(5) == [53];
    assert FieldText(fs[0]) == [34, 105, 115, 115, 34, 58, 34, 120, 34];
    assert FieldText(fs[1]) == [34, 101, 120, 112, 34, 58, 53];
  }

  // --------------------------------------------------------------- searching

  predicate At(text: Str, pattern: Str, p: nat) {
    p <= |text| && pattern <= text[p..]
  }

  /** Where `strstr` finds the pattern first. */
  function StrStr(text: Str, pattern: Str): (r: Option<nat>)
    ensures r.Some? ==> r.value + |pattern| <= |text|
    decreases |text|
  {
    if At(text, pattern, 0) then Some(0)
    else if text == [] then None
    else
      var r := StrStr(text[1..], pattern);
      if r.None? then None else Some(r.value + 1)
  }

  function Shifted(r: Option<nat>, n: nat): Option<nat> {
    if r.None? then None else Some(r.value + n)
  }

  /** Text in which the pattern does not begin is passed over. */
  lemma {:induction false} Skip(head: Str, tail: Str, pattern: Str)
    requires forall p: nat :: p < |head| ==> !At(head + tail, pattern, p)
    ensures StrStr(head + tail, pattern) == Shifted(StrStr(tail, pattern), |head|)
  {
    var text := head + tail;
    if head == [] {
      assert text == tail;
    } else {
      assert !At(text, pattern, 0);
      assert text[1..] == head[1..] + tail;
      forall p: nat | p < |head[1..]| ensures !At(head[1..] + tail, pattern, p) {
        assert !At(text, pattern, p + 1);
        assert text[p + 1..] == text[1..][p..];
      }
      Skip(head[1..], tail, pattern);
    }
  }

  lemma Mismatch(text: Str, pattern: Str, p: nat, i: nat)
    requires i < |pattern| && p + i < |text| && text[p + i] != pattern[i]
    ensures !At(text, pattern, p)
  {
    assert text[p..][i] == text[p + i];
  }

  /** A key fit to be searched for: it has no quote and does not begin like what can follow one. */
  predicate GoodKey(k: Str) {
    k != [] && QUOTE !in k && k[0] != COLON && k[0] != COMMA && k[0] != CLOSE
  }

  /** `"k":` followed by `more`. */
  function Pattern(k: Str, more: Str): (p: Str)
    ensures |p| == |k| + 3 + |more|
  {
    [QUOTE] + (k + ([QUOTE, COLON] + more))
  }

  lemma PatternChars(k: Str, more: Str)
    ensures var p := Pattern(k, more);
            && p[0] == QUOTE && p[|k| + 1] == QUOTE && p[|k| + 2] == COLON
            && forall i :: 0 <= i < |k| ==> p[i + 1] == k[i]
  {
  }

  lemma SkipPlain(s: Str, tail: Str, k: Str, more: Str)
    requires QUOTE !in s
    ensures StrStr(s + tail, Pattern(k, more)) == Shifted(StrStr(tail, Pattern(k, more)), |s|)
  {
    PatternChars(k, more);
    forall p: nat | p < |s| ensures !At(s + tail, Pattern(k, more), p) {
      assert (s + tail)[p] == s[p];
      Mismatch(s + tail, Pattern(k, more), p, 0);
    }
    Skip(s, tail, Pattern(k, more));
  }

  /** A quoted string followed by anything but the pattern's colon, or another key, is passed over. */
  lemma SkipQuoted(x: Str, c: byte, tail: Str, k: Str, more: Str)
    requires GoodKey(k) && QUOTE !in x && k[0] != c && (c != COLON || x != k)
    ensures StrStr(Quoted(x) + ([c] + tail), Pattern(k, more)) == Shifted(StrStr([c] + tail, Pattern(k, more)), |x| + 2)
  {
    var pattern := Pattern(k, more);
    var text := Quoted(x) + ([c] + tail);
    PatternChars(k, more);
    assert text[0] == QUOTE && text[|x| + 1] == QUOTE && text[|x| + 2] == c;
    assert forall i :: 0 <= i < |x| ==> text[i + 1] == x[i];
    forall p: nat | p < |x| + 2 ensures !At(text, pattern, p) {
      if p == |x| + 1 {
        Mismatch(text, pattern, p, 1);
      } else if p > 0 {
        assert text[p] == x[p - 1];
        Mismatch(text, pattern, p, 0);
      } else if |k| < |x| {
        Mismatch(text, pattern, 0, |k| + 1);
      } else if |k| > |x| {
        assert pattern[|x| + 1] == k[|x|];
        Mismatch(text, pattern, 0, |x| + 1);
      } else if c != COLON {
        Mismatch(text, pattern, 0, |k| + 2);
      } else {
        var i :| 0 <= i < |k| && k[i] != x[i];
        Mismatch(text, pattern, 0, i + 1);
      }
    }
    Skip(Quoted(x), [c] + tail, pattern);
  }

  // ----------------------------------------------------------------- parsing

  /** The text after the first `"key":more`. */
  function After(json: Str, key: Str, more: Str): Option<Str> {
    var pattern := Pattern(key, more);
    var p := StrStr(json, pattern);
    if p.None? then None else Some(json[p.value + |pattern|..])
  }

  function ParseInt(json: Str, key: Str): Option<int> {
    var s := After(json, key, []);
    if s.None? then None else Some(Decimal.Parse(s.value))
  }

  function ParseStr(json: Str, key: Str, size: nat): Option<Str>
    requires size > 0
  {
    var s := After(json, key, [QUOTE]);
    if s.None? then None else
    var end := StrChr(s.value, QUOTE);
    if end == |s.value| then None else Some(Truncate(s.value[..end], size - 1))
  }

  /** Fields with different keys whose strings hold no quote. */
  ghost predicate Readable(fs: seq<Field>) {
    && fs != []
    && (forall i :: 0 <= i < |fs| ==> GoodKey(fs[i].key) && (fs[i].Text? ==> QUOTE !in fs[i].value))
    && forall i, j :: 0 <= i < j < |fs| ==> fs[i].key != fs[j].key
  }

  /** What a field's search pattern ends in. */
  function More(f: Field): Str {
    if f.Text? then [QUOTE] else []
  }

  /** The value as it is found: after the pattern, and what follows it. */
  function Tail(f: Field, rest: Str): Str {
    match f
    case Text(_, v) => v + ([QUOTE] + rest)
    case Number(_, n) => Decimal.Print(n) + rest
  }

  lemma FoundAtOnce(pattern: Str, tail: Str)
    ensures StrStr(pattern + tail, pattern) == Some(0)
  {
    assert (pattern + tail)[0..] == pattern + tail;
  }

  lemma FoundFirst(text: Str, f: Field, rest: Str)
    requires text == Quoted(f.key) + ([COLON] + (ValueText(f) + rest))
    ensures After(text, f.key, More(f)) == Some(Tail(f, rest))
  {
    hide StrStr, Decimal.Print, Quoted, Pattern;
    var pattern := Pattern(f.key, More(f));
    FoundAtOnce(pattern, Tail(f, rest));
    KeyIs(f.key, More(f), Tail(f, rest));
    ValueIs(f, rest);
    assert (pattern + Tail(f, rest))[|pattern|..] == Tail(f, rest);
  }

  lemma KeyIs(k: Str, more: Str, t: Str)
    ensures Quoted(k) + ([COLON] + (more + t)) == Pattern(k, more) + t
  {
  }

  lemma ValueIs(f: Field, rest: Str)
    ensures ValueText(f) + rest == More(f) + Tail(f, rest)
  {
    hide Decimal.Print;
    match f
    case Text(_, v) =>
      QuotedIs(v, rest);
    case Number(_, n) =>
      assert [] + (Decimal.Print(n) + rest) == Decimal.Print(n) + rest;
  }

  lemma QuotedIs(v: Str, rest: Str)
    ensures Quoted(v) + rest == [QUOTE] + (v + ([QUOTE] + rest))
  {
  }

  lemma AfterShifts(text: Str, head: Str, tail: Str, k: Str, more: Str)
    requires text == head + tail && StrStr(text, Pattern(k, more)) == Shifted(StrStr(tail, Pattern(k, more)), |head|)
    ensures After(text, k, more) == After(tail, k, more)
  {
    hide StrStr, Pattern;
    var p := StrStr(tail, Pattern(k, more));
    if p.Some? {
      assert text[p.value + |head| + |Pattern(k, more)|..] == tail[p.value + |Pattern(k, more)|..];
    }
  }

  lemma ValueSkipped(f: Field, tail: Str, k: Str, more: Str)
    requires GoodKey(k) && (f.Text? ==> QUOTE !in f.value)
    ensures After(ValueText(f) + ([COMMA] + tail), k, more) == After(tail, k, more)
  {
    hide StrStr, Pattern, After, Decimal.Print, Quoted;
    var comma := [COMMA] + tail;
    SkipPlain([COMMA], tail, k, more);
    AfterShifts(comma, [COMMA], tail, k, more);
    match f {
      case Text(_, v) =>
        SkipQuoted(v, COMMA, tail, k, more);
        QuotedLength(v);
      case Number(_, n) => SkipPlain(Decimal.Print(n), comma, k, more);
    }
    AfterShifts(ValueText(f) + comma, ValueText(f), comma, k, more);
  }

  lemma QuotedLength(x: Str)
    ensures |Quoted(x)| == |x| + 2
  {
  }

  /** A whole field and the comma after it are passed over in the search for another key. */
  lemma FieldSkipped(f: Field, tail: Str, k: Str, more: Str)
    requires GoodKey(k) && GoodKey(f.key) && f.key != k && (f.Text? ==> QUOTE !in f.value)
    ensures After(FieldText(f) + [COMMA] + tail, k, more) == After(tail, k, more)
  {
    hide StrStr, Pattern, After, ValueText, Quoted;
    var value := ValueText(f) + ([COMMA] + tail);
    var colon := [COLON] + value;
    ValueSkipped(f, tail, k, more);
    SkipPlain([COLON], value, k, more);
    AfterShifts(colon, [COLON], value, k, more);
    SkipQuoted(f.key, COLON, value, k, more);
    QuotedLength(f.key);
    AfterShifts(Quoted(f.key) + colon, Quoted(f.key), colon, k, more);
    assert FieldText(f) + [COMMA] + tail == Quoted(f.key) + colon;
  }

  /** Searching for the key of a field finds that field's own value. */
  lemma {:induction false} FieldFound(fs: seq<Field>, i: nat) returns (rest: Str)
    requires Readable(fs) && i < |fs|
    ensures rest != [] && !Decimal.IsDigit(rest[0])
    ensures After(Body(fs), fs[i].key, More(fs[i])) == Some(Tail(fs[i], rest))
    decreases |fs|
  {
    hide After, FieldText;
    if i == 0 {
      rest := if |fs| == 1 then [CLOSE] else [COMMA] + Body(fs[1..]);
      assert Body(fs) == FieldText(fs[0]) + rest;
      FieldStarts(fs[0], rest);
      FoundFirst(Quoted(fs[0].key) + ([COLON] + (ValueText(fs[0]) + rest)), fs[0], rest);
    } else {
      rest := FieldFound(fs[1..], i - 1);
      FieldSkipped(fs[0], Body(fs[1..]), fs[i].key, More(fs[i]));
    }
  }

  lemma FieldStarts(f: Field, rest: Str)
    ensures FieldText(f) + rest == Quoted(f.key) + ([COLON] + (ValueText(f) + rest))
  {
  }

  /** A string, as far as it fits its buffer, and a number are read back as they were written. */
  lemma FieldReads(fs: seq<Field>, i: nat, size: nat)
    requires Readable(fs) && i < |fs|
    ensures fs[i].Text? && size > 0 ==> ParseStr(Json(fs), fs[i].key, size) == Some(Truncate(fs[i].value, size - 1))
    ensures fs[i].Number? ==> ParseInt(Json(fs), fs[i].key) == Some(fs[i].n)
  {
    hide After, Body, Decimal.Parse, Decimal.Print;
    var rest := FieldFound(fs, i);
    var k, more := fs[i].key, More(fs[i]);
    SkipPlain([OPEN], Body(fs), k, more);
    AfterShifts(Json(fs), [OPEN], Body(fs), k, more);
    match fs[i] {
      case Text(_, v) =>
        StrChrIs(v + ([QUOTE] + rest), QUOTE, |v|);
        assert (v + ([QUOTE] + rest))[..|v|] == v;
      case Number(_, n) =>
        Decimal.ParsePrint(n, rest);
    }
  }

  /** No string that is read back holds a quote. */
  lemma NoQuoteReads(json: Str, key: Str, size: nat)
    requires size > 0
    ensures var r := ParseStr(json, key, size); r.Some? ==> QUOTE !in r.value
  {
  }

  // ------------------------------------------------------------------ extent

  function Extent(fs: seq<Field>): nat {
    if fs == [] then 0 else |FieldText(fs[0])| + 1 + Extent(fs[1..])
  }

  lemma {:induction false} BodyExtent(fs: seq<Field>)
    requires fs != []
    ensures |Body(fs)| == Extent(fs)
  {
    hide FieldText;
    if |fs| > 1 { BodyExtent(fs[1..]); }
  }

  predicate IsCField(f: Field) {
    IsCString(f.key) && (f.Text? ==> IsCString(f.value))
  }

  lemma {:induction false} BodyIsCString(fs: seq<Field>)
    requires fs != [] && forall i :: 0 <= i < |fs| ==> IsCField(fs[i])
    ensures IsCString(Body(fs))
  {
    FieldIsCString(fs[0]);
    hide FieldText, IsCField;
    if |fs| > 1 { BodyIsCString(fs[1..]); }
  }

  lemma FieldIsCString(f: Field)
    requires IsCField(f)
    ensures IsCString(FieldText(f))
  {
    hide Decimal.Digits;
  }
}
