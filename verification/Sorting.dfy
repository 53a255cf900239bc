/** Sorted sequences of integers, standing for Go's sort.Slice on numeric slices. */
module Sorting {

  predicate Sorted(s: seq<int>) {
    forall i, j :: 0 <= i < j < |s| ==> s[i] <= s[j]
  }

  function Insert(x: int, s: seq<int>): (r: seq<int>)
    requires Sorted(s)
    ensures Sorted(r)
    ensures multiset(r) == multiset(s) + multiset{x}
    decreases |s|
  {
    if s == [] || x <= s[0] then
      [x] + s
    else
      var t := Insert(x, s[1..]);
      ConsKeepsSorted(s[0], s[1..], x, t);
      assert s == [s[0]] + s[1..];
      [s[0]] + t
  }

  lemma ConsKeepsSorted(y: int, s: seq<int>, x: int, t: seq<int>)
    requires y <= x && (forall z :: z in s ==> y <= z)
    requires Sorted(t) && multiset(t) == multiset(s) + multiset{x}
    ensures Sorted([y] + t)
  {
    forall i | 0 <= i < |t| ensures y <= t[i] {
      OneMoreElement(t, s, x, t[i]);
    }
  }

  /** The sorted rearrangement of s. */
  function Sort(s: seq<int>): (r: seq<int>)
    ensures Sorted(r)
    ensures multiset(r) == multiset(s)
    ensures |r| == |s|
  {
    if s == [] then []
    else
      assert s == [s[0]] + s[1..];
      var t := Sort(s[1..]);
      SameSize(Insert(s[0], t), s);
      Insert(s[0], t)
  }

  lemma OneMoreElement<T>(t: seq<T>, s: seq<T>, x: T, z: T)
    requires multiset(t) == multiset(s) + multiset{x} && z in t
    ensures z == x || z in s
  {
    assert z in multiset(t);
  }

  lemma SameElements<T>(a: seq<T>, b: seq<T>)
    requires multiset(a) == multiset(b)
    ensures forall x :: x in a <==> x in b
  {
    forall x ensures x in a <==> x in b {
      assert x in a <==> x in multiset(a);
      assert x in b <==> x in multiset(b);
    }
  }

  lemma SameSize(a: seq<int>, b: seq<int>)
    requires multiset(a) == multiset(b)
    ensures |a| == |b|
  {
    assert |multiset(a)| == |multiset(b)|;
  }

  lemma TailsMatch(a: seq<int>, b: seq<int>)
    requires a != [] && b != [] && a[0] == b[0] && multiset(a) == multiset(b)
    ensures multiset(a[1..]) == multiset(b[1..])
  {
    assert a == [a[0]] + a[1..] && b == [b[0]] + b[1..];
    assert multiset(a[1..]) == multiset(a) - multiset{a[0]};
    assert multiset(b[1..]) == multiset(b) - multiset{b[0]};
  }

  /** A sorted sequence is determined by its elements, so the order in which they were collected is irrelevant. */
  lemma {:induction false} SortedIsUnique(a: seq<int>, b: seq<int>)
    requires Sorted(a) && Sorted(b)
    requires multiset(a) == multiset(b)
    ensures a == b
  {
    if a == [] {
      assert |multiset(b)| == 0;
    } else {
      SameSize(a, b);
      assert a[0] == b[0] by {
        assert a[0] in multiset(b) && b[0] in multiset(a);
      }
      TailsMatch(a, b);
      SortedIsUnique(a[1..], b[1..]);
    }
  }
}
