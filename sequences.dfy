/** Sequence utilities: distinctness and first-seen de-duplication. */
module Sequences {

  predicate Distinct<T(==)>(s: seq<T>) {
    forall i, j :: 0 <= i < j < |s| ==> s[i] != s[j]
  }

  /** The strings of `s` in the order of their first occurrence, each once. */
  function FirstSeen(s: seq<string>): seq<string> {
    if s == [] then []
    else
      var init, last := s[..|s| - 1], s[|s| - 1];
      if last in init then FirstSeen(init) else FirstSeen(init) + [last]
  }

  /** De-duplication keeps each element once: no repeats, and the same
      elements as the input. */
  lemma {:induction false} FirstSeenMembers(s: seq<string>)
    ensures Distinct(FirstSeen(s))
    ensures forall x :: x in FirstSeen(s) <==> x in s
  {
    if s != [] {
      var init, last := s[..|s| - 1], s[|s| - 1];
      FirstSeenMembers(init);
      assert forall x :: x in s <==> x in init || x == last;
    }
  }

  /** The position of the first occurrence of `x` in `s`. */
  function FirstIndex<T(==)>(s: seq<T>, x: T): (i: nat)
    requires x in s
    ensures i < |s| && s[i] == x && x !in s[..i]
  {
    if s[0] == x then 0 else 1 + FirstIndex(s[1..], x)
  }

  /** `FirstSeen` orders elements by where they first occur in `s`. */
  lemma {:induction false} FirstSeenOrder(s: seq<string>, i: nat, j: nat)
    requires i < j < |FirstSeen(s)|
    ensures FirstSeen(s)[i] in s && FirstSeen(s)[j] in s
    ensures FirstIndex(s, FirstSeen(s)[i]) < FirstIndex(s, FirstSeen(s)[j])
  {
    var init, last := s[..|s| - 1], s[|s| - 1];
    var r := FirstSeen(s);
    var x, y := r[i], r[j];
    FirstSeenMembers(s);
    FirstSeenMembers(init);
    FirstIndexPrefix(s, x);
    FirstIndexPrefix(s, y);
    if last in init {
      assert r == FirstSeen(init);
      FirstSeenOrder(init, i, j);
    } else if j < |FirstSeen(init)| {
      assert r[i] == FirstSeen(init)[i] && r[j] == FirstSeen(init)[j];
      FirstSeenOrder(init, i, j);
    } else {
      assert y == last && x in init;
    }
  }

  /** Extending a sequence at the end does not move a first occurrence that
      is already present. */
  lemma FirstIndexPrefix<T>(s: seq<T>, x: T)
    requires |s| > 0 && x in s
    ensures x in s[..|s| - 1] ==> FirstIndex(s, x) == FirstIndex(s[..|s| - 1], x)
    ensures x !in s[..|s| - 1] ==> FirstIndex(s, x) == |s| - 1
  {
    var i := FirstIndex(s, x);
    if x in s[..|s| - 1] {
      var k := FirstIndex(s[..|s| - 1], x);
      assert s[..i] == s[..|s| - 1][..i] by {
        assert x !in s[..i];
        assert i <= k;
      }
      FirstIndexUnique(s[..|s| - 1], x, i);
    }
  }

  lemma FirstIndexUnique<T>(s: seq<T>, x: T, i: nat)
    requires i < |s| && s[i] == x && x !in s[..i]
    ensures FirstIndex(s, x) == i
  {
  }

  /** De-duplicating a sequence extended by one element. */
  lemma FirstSeenSnoc(s: seq<string>, x: string)
    ensures FirstSeen(s + [x]) == if x in s then FirstSeen(s) else FirstSeen(s) + [x]
  {
    assert (s + [x])[..|s|] == s;
  }

  /** The `n`-th element of a sequence without repeats is not among the
      elements before it. */
  lemma DistinctLast<T>(s: seq<T>, n: nat)
    requires Distinct(s) && 0 < n <= |s|
    ensures s[n - 1] !in s[..n - 1] && s[..n] == s[..n - 1] + [s[n - 1]]
  {
  }
}
