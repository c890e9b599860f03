/** Decimal numerals: what `%d` prints and what `atoi` and its relatives read back. */
module Decimal {
  import opened CStrings

  const ZERO: byte := 48
  const NINE: byte := 57
  const MINUS: byte := 45
  const PLUS: byte := 43

  predicate IsDigit(c: byte) {
    ZERO <= c <= NINE
  }

  /** The white space `atoi` skips: blank, and tab to carriage return. */
  predicate IsSpace(c: byte) {
    c == 32 || 9 <= c <= 13
  }

  function Digits(n: nat): (s: Str)
    ensures s != [] && forall i :: 0 <= i < |s| ==> IsDigit(s[i])
  {
    if n < 10 then [ZERO + n] else Digits(n / 10) + [ZERO + n % 10]
  }

  /** What `printf("%lld", n)` writes. */
  function Print(n: int): (s: Str)
    ensures s != [] && forall i :: 0 <= i < |s| ==> IsDigit(s[i]) || s[i] == MINUS
  {
    if n < 0 then [MINUS] + Digits(-n) else Digits(n)
  }

  /** The value of the digits `s` starts with, after those worth `acc`. */
  function Leading(s: Str, acc: nat): nat {
    if s == [] || !IsDigit(s[0]) then acc else Leading(s[1..], 10 * acc + (s[0] - ZERO))
  }

  /** `atoi` where it is defined: blanks, a sign, digits, and anything after them. */
  function Parse(s: Str): int {
    if s == [] then 0
    else if IsSpace(s[0]) then Parse(s[1..])
    else if s[0] == MINUS then 0 - Leading(s[1..], 0)
    else if s[0] == PLUS then Leading(s[1..], 0)
    else Leading(s, 0)
  }

  /** `" +42x"`, `"-7"`, `"--7"` and no text at all, as `atoi` reads them. */
  lemma ParsedTexts()
    ensures Parse([32, 43, 52, 50, 120]) == 42 && Parse([45, 55]) == -7 && Parse([45, 45, 55]) == 0 && Parse([]) == 0
  {
    assert Leading([120], 42) == 42;
    assert Leading([50, 120], 4) == 42;
    assert Leading([52, 50, 120], 0) == 42;
    assert [32, 43, 52, 50, 120][1..] == [43, 52, 50, 120] && [43, 52, 50, 120][1..] == [52, 50, 120];
    assert [45, 55][1..] == [55] && Leading([55], 0) == 7;
    assert [45, 45, 55][1..] == [45, 55] && Leading([45, 55], 0) == 0;
  }

  lemma {:induction false} LeadingDigits(n: nat, rest: Str)
    requires rest == [] || !IsDigit(rest[0])
    ensures Leading(Digits(n) + rest, 0) == n
  {
    LeadingValue(n, rest);
    LeadingStops(rest, n);
  }

  lemma {:induction false} LeadingValue(n: nat, rest: Str)
    ensures Leading(Digits(n) + rest, 0) == Leading(rest, n)
  {
    if n >= 10 {
      var last := [ZERO + n % 10];
      assert Digits(n) + rest == Digits(n / 10) + (last + rest);
      LeadingValue(n / 10, last + rest);
      assert (last + rest)[1..] == rest;
    } else {
      assert (Digits(n) + rest)[1..] == rest;
    }
  }

  lemma LeadingStops(rest: Str, acc: nat)
    requires rest == [] || !IsDigit(rest[0])
    ensures Leading(rest, acc) == acc
  {
  }

  lemma ParseUnsigned(s: Str)
    requires s != [] && IsDigit(s[0])
    ensures Parse(s) == Leading(s, 0)
  {
  }

  lemma ParseNegative(s: Str)
    ensures Parse([MINUS] + s) == -(Leading(s, 0) as int)
  {
    assert ([MINUS] + s)[1..] == s;
  }

  /** A printed number is read back, whatever follows it that is not a digit. */
  lemma ParsePrint(n: int, rest: Str)
    requires rest == [] || !IsDigit(rest[0])
    ensures Parse(Print(n) + rest) == n
  {
    hide Digits, Leading, Parse;
    var abs := if n < 0 then -n else n;
    var s := Digits(abs) + rest;
    LeadingDigits(abs, rest);
    if n < 0 {
      ParseNegative(s);
      assert Print(n) + rest == [MINUS] + s;
    } else {
      assert IsDigit(Digits(abs)[0]);
      ParseUnsigned(s);
    }
  }

  lemma PrintInjective(m: int, n: int)
    requires Print(m) == Print(n)
    ensures m == n
  {
    hide Print, Parse;
    assert Print(m) + [] == Print(m) && Print(n) + [] == Print(n);
    ParsePrint(m, []);
    ParsePrint(n, []);
  }

  lemma PrintNat(n: nat)
    ensures Print(n) == Digits(n)
  {
  }

  function Power10(k: nat): nat {
    if k == 0 then 1 else 10 * Power10(k - 1)
  }

  lemma {:induction false} DigitsLength(n: nat, k: nat)
    requires k >= 1 && n < Power10(k)
    ensures |Digits(n)| <= k
  {
    if n >= 10 {
      DigitsLength(n / 10, k - 1);
    }
  }

  /** Every 64-bit number is. */
  ghost predicate Short(n: int) {
    -(Power10(19) as int) < n < Power10(19)
  }

  lemma PrintLength(n: int)
    requires Short(n)
    ensures |Print(n)| <= 20
  {
    hide Digits, Power10;
    DigitsLength(if n < 0 then -n else n, 19);
  }
}
