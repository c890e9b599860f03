/** C strings as sequences of bytes without their terminating NUL, and the hash used on them. */
module CStrings {

  type byte = x: int | 0 <= x < 256

  type Str = seq<byte>

  datatype Option<+T> = None | Some(value: T)

  /** What `strncpy(dst, s, n)` followed by `dst[n] = 0` leaves in `dst`. */
  function Truncate(s: Str, n: nat): Str {
    if |s| <= n then s else s[..n]
  }

  /** Where `strchr` finds `c` first, or the length when it does not. */
  function StrChr(s: Str, c: byte): (i: nat)
    ensures i <= |s|
    ensures i < |s| ==> s[i] == c
    ensures forall j :: 0 <= j < i ==> s[j] != c
  {
    if s == [] || s[0] == c then 0 else 1 + StrChr(s[1..], c)
  }

  lemma StrChrIs(s: Str, c: byte, i: nat)
    requires i <= |s| && (i < |s| ==> s[i] == c) && forall j :: 0 <= j < i ==> s[j] != c
    ensures StrChr(s, c) == i
  {
  }

  /** A string that holds the terminator nowhere. */
  predicate IsCString(s: Str) {
    forall i :: 0 <= i < |s| ==> s[i] != 0
  }

  /** What string functions see of a buffer: everything before its first NUL. */
  function Cut(s: Str): (r: Str)
    ensures IsCString(r) && (r == s || r + [0] <= s)
  {
    s[..StrChr(s, 0)]
  }

  ghost predicate ApartAt(s: Str, t: Str, k: nat) {
    |s| == |t| && k < |s| && s[k] != t[k] && forall j :: 0 <= j < |s| && j != k ==> s[j] == t[j]
  }

  /** `t` is `s` with exactly one byte changed. */
  ghost predicate OneByteApart(s: Str, t: Str) {
    exists k: nat :: ApartAt(s, t, k)
  }

  /** The djb2 hash of `s` started from `h`, in unsigned words below `word`. */
  function Djb2(word: nat, h: nat, s: Str): nat
    requires word > 0
    decreases |s|
  {
    if s == [] then h else Djb2(word, (h * 33 + s[0]) % word, s[1..])
  }

  /** Each further byte is added to 33 times what the bytes before it gave. */
  lemma {:induction false} Djb2Appends(word: nat, h: nat, s: Str, c: byte)
    requires word > 0
    ensures Djb2(word, h, []) == h
    ensures Djb2(word, h, s + [c]) == (Djb2(word, h, s) * 33 + c) % word
    decreases |s|
  {
    if s == [] {
      assert (s + [c])[1..] == [];
    } else {
      assert (s + [c])[1..] == s[1..] + [c];
      Djb2Appends(word, (h * 33 + s[0]) % word, s[1..], c);
    }
  }

  method HashDjb2(word: nat, str: Str) returns (hash: nat)
    requires word > 0
    ensures hash == Djb2(word, 5381, str)
  {
    hash := 5381;
    for i := 0 to |str|
      invariant Djb2(word, 5381, str) == Djb2(word, hash, str[i..])
    {
      assert str[i..][1..] == str[i + 1..];
      hash := (hash * 33 + str[i]) % word;
    }
  }
}
