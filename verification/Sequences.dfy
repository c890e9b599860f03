/** Removal from the middle of a sequence, sequences without repetition, and their members. */
module Sequences {

  function RemoveAt<T>(s: seq<T>, i: nat): (r: seq<T>)
    requires i < |s|
    ensures |r| == |s| - 1
    ensures forall j :: 0 <= j < |r| ==> r[j] == s[if j < i then j else j + 1]
  {
    if i == 0 then s[1..] else [s[0]] + RemoveAt(s[1..], i - 1)
  }

  lemma RemoveAtIs<T>(s: seq<T>, i: nat)
    requires i < |s|
    ensures RemoveAt(s, i) == s[..i] + s[i + 1..]
  {
    hide RemoveAt;
    var t := s[..i] + s[i + 1..];
    assert forall j :: 0 <= j < |t| ==> t[j] == RemoveAt(s, i)[j];
  }

  ghost predicate NoRepeats<T>(s: seq<T>) {
    forall i, j :: 0 <= i < j < |s| ==> s[i] != s[j]
  }

  ghost function Members<T>(s: seq<T>): set<T> {
    set x | x in s
  }

  /** A sequence has at most as many members as elements, and as many when none is repeated. */
  lemma {:induction false} MembersCount<T>(s: seq<T>)
    ensures |Members(s)| <= |s|
    ensures NoRepeats(s) ==> |Members(s)| == |s|
  {
    if s != [] {
      var n := |s| - 1;
      MembersCount(s[..n]);
      assert Members(s) == Members(s[..n]) + {s[n]};
    }
  }

  lemma SubsetCount<T>(a: set<T>, b: set<T>)
    requires a <= b
    ensures |a| <= |b| && (a != b ==> |a| < |b|)
  {
    assert b == a + (b - a);
  }
}
