/** Sequences without repetition, and counting. */
module Sequences {

  ghost predicate Distinct<T>(s: seq<T>) {
    forall i, j | 0 <= i < j < |s| :: s[i] != s[j]
  }

  /** The sequence without the (only) occurrence of `e`. */
  function Without<T(==)>(s: seq<T>, e: T): seq<T> {
    if s == [] then [] else if s[0] == e then s[1..] else [s[0]] + Without(s[1..], e)
  }

  lemma {:induction false} WithoutAt<T>(s: seq<T>, e: T, k: int)
    requires Distinct(s) && 0 <= k < |s| && s[k] == e
    ensures Without(s, e) == s[..k] + s[k + 1..]
  {
    if k > 0 {
      WithoutAt(s[1..], e, k - 1);
      assert s[0] != s[k];
      assert s[..k] + s[k + 1..] == [s[0]] + (s[1..][..k - 1] + s[1..][k..]);
    }
  }

  lemma {:induction false} WithoutMembers<T>(s: seq<T>, e: T)
    requires Distinct(s)
    ensures forall x :: x in Without(s, e) <==> x in s && x != e
    ensures Distinct(Without(s, e)) && |Without(s, e)| == if e in s then |s| - 1 else |s|
  {
    if s != [] {
      var h, t := s[0], s[1..];
      assert s == [h] + t && h !in t;
      WithoutMembers(t, e);
      assert h !in Without(t, e);
    }
  }

  function OneIf(b: bool): nat {
    if b then 1 else 0
  }
}
