/** Sorting a vector and dropping its repeats: `sort_unstable` followed by `dedup`. */
module Sorting {
  predicate StrictlyIncreasing(s: seq<int>) {
    forall i, j :: 0 <= i < j < |s| ==> s[i] < s[j]
  }

  /** Adds `x` to a strictly increasing sequence, unless it is there already. */
  function Insert(x: int, s: seq<int>): (r: seq<int>)
    requires StrictlyIncreasing(s)
    ensures StrictlyIncreasing(r)
    ensures forall y :: y in r <==> y == x || y in s
  {
    if s == [] then [x]
    else if x < s[0] then
      assert forall y :: y in [x] + s <==> y == x || y in s;
      [x] + s
    else if x == s[0] then s
    else
      var rest := Insert(x, s[1..]);
      assert forall y :: y in s <==> y == s[0] || y in s[1..];
      assert forall i :: 0 <= i < |rest| ==> rest[i] in rest && s[0] < rest[i];
      assert forall y :: y in [s[0]] + rest <==> y == s[0] || y in rest;
      [s[0]] + rest
  }

  function SortDedup(s: seq<int>): (r: seq<int>)
    ensures StrictlyIncreasing(r)
    ensures forall y :: y in r <==> y in s
  {
    if s == [] then []
    else
      assert s == [s[0]] + s[1..];
      Insert(s[0], SortDedup(s[1..]))
  }

  /** A strictly increasing sequence is determined by its elements. */
  lemma {:induction false} SameElements(a: seq<int>, b: seq<int>)
    requires StrictlyIncreasing(a) && StrictlyIncreasing(b)
    requires forall y :: y in a <==> y in b
    ensures a == b
  {
    assert a != [] ==> a[0] in a && a[0] in b;
    assert b != [] ==> b[0] in b && b[0] in a;
    if a != [] && b != [] {
      assert a[0] == b[0];
      forall y
        ensures y in a[1..] <==> y in b[1..]
      {
        assert a == [a[0]] + a[1..] && b == [b[0]] + b[1..];
        assert y in a[1..] ==> y in a && y != a[0];
        assert y in b[1..] ==> y in b && y != b[0];
      }
      SameElements(a[1..], b[1..]);
    }
  }

  /** A subset has no more elements. */
  lemma {:induction false} SubsetSize<T>(a: set<T>, b: set<T>)
    requires a <= b
    ensures |a| <= |b|
  {
    if x :| x in a {
      SubsetSize(a - {x}, b - {x});
      assert |a - {x}| == |a| - 1 && |b - {x}| == |b| - 1;
    } else {
      assert a == {};
    }
  }
}
