/** Sorting and order statistics on integer sequences, used to state what
    `np.median` returns. */
module Sorting {

  predicate Sorted(s: seq<int>)
  {
    forall i, j :: 0 <= i < j < |s| ==> s[i] <= s[j]
  }

  function Insert(x: int, s: seq<int>): (t: seq<int>)
    requires Sorted(s)
    ensures |t| == |s| + 1
    ensures t[0] == x || (|s| > 0 && t[0] == s[0])
    ensures Sorted(t)
    ensures multiset(t) == multiset(s) + multiset{x}
  {
    if s == [] then [x]
    else if x <= s[0] then [x] + s
    else
      var rest := Insert(x, s[1..]);
      assert s == [s[0]] + s[1..];
      var t := [s[0]] + rest;
      assert forall j :: 1 <= j < |t| ==> t[j] == rest[j - 1];
      t
  }

  /** A sorted permutation of s (insertion sort). */
  function Sort(s: seq<int>): (t: seq<int>)
    ensures Sorted(t)
    ensures multiset(t) == multiset(s)
    ensures |t| == |s|
  {
    if s == [] then []
    else
      assert s == [s[0]] + s[1..];
      var t := Insert(s[0], Sort(s[1..]));
      assert |t| == |multiset(t)| == |multiset(s)| == |s|;
      t
  }

  function SeqMin(s: seq<int>): (m: int)
    requires |s| >= 1
    ensures m in s
    ensures forall k :: 0 <= k < |s| ==> m <= s[k]
  {
    if |s| == 1 then s[0]
    else
      var m := SeqMin(s[..|s| - 1]);
      if s[|s| - 1] < m then s[|s| - 1] else m
  }

  function SeqMax(s: seq<int>): (m: int)
    requires |s| >= 1
    ensures m in s
    ensures forall k :: 0 <= k < |s| ==> s[k] <= m
  {
    if |s| == 1 then s[0]
    else
      var m := SeqMax(s[..|s| - 1]);
      if s[|s| - 1] > m then s[|s| - 1] else m
  }

  /** Number of elements of s that satisfy p. */
  function CountIf(s: seq<int>, p: int -> bool): nat
  {
    if |s| == 0 then 0 else CountIf(s[..|s| - 1], p) + (if p(s[|s| - 1]) then 1 else 0)
  }

  function Below(v: int): int -> bool
  {
    x => x < v
  }

  function Above(v: int): int -> bool
  {
    x => x > v
  }

  lemma {:induction false} CountIfAppend(a: seq<int>, b: seq<int>, p: int -> bool)
    ensures CountIf(a + b, p) == CountIf(a, p) + CountIf(b, p)
  {
    if |b| > 0 {
      assert (a + b)[..|a + b| - 1] == a + b[..|b| - 1];
      CountIfAppend(a, b[..|b| - 1], p);
    } else {
      assert a + b == a;
    }
  }

  lemma {:induction false} CountIfAtMostLength(s: seq<int>, p: int -> bool)
    ensures CountIf(s, p) <= |s|
  {
    if |s| > 0 {
      CountIfAtMostLength(s[..|s| - 1], p);
    }
  }

  lemma {:induction false} CountIfNone(s: seq<int>, p: int -> bool)
    requires forall k :: 0 <= k < |s| ==> !p(s[k])
    ensures CountIf(s, p) == 0
  {
    if |s| > 0 {
      CountIfNone(s[..|s| - 1], p);
    }
  }

  /** The count depends only on the multiset of elements. */
  lemma {:induction false} CountIfPermutation(s: seq<int>, t: seq<int>, p: int -> bool)
    requires multiset(s) == multiset(t)
    ensures CountIf(s, p) == CountIf(t, p)
    decreases |s|
  {
    if |s| > 0 {
      var x := s[|s| - 1];
      var init := s[..|s| - 1];
      assert s == init + [x];
      assert x in multiset(t);
      var k :| 0 <= k < |t| && t[k] == x;
      var rest := t[..k] + t[k + 1..];
      assert t == t[..k] + [t[k]] + t[k + 1..];
      assert multiset(rest) == multiset(t) - multiset{x};
      assert multiset(init) == multiset(s) - multiset{x};
      CountIfPermutation(init, rest, p);
      CountIfAppend(t[..k] + [t[k]], t[k + 1..], p);
      CountIfAppend(t[..k], [t[k]], p);
      CountIfAppend(t[..k], t[k + 1..], p);
      assert [t[k]][..0] == [];
    } else {
      assert t == [];
    }
  }

  /** In a sorted sequence nothing at or after position k lies below t[k]. */
  lemma SortedCountBelow(t: seq<int>, k: nat)
    requires Sorted(t) && k < |t|
    ensures CountIf(t, Below(t[k])) <= k
  {
    var lo, hi := t[..k], t[k..];
    assert t == lo + hi;
    CountIfAppend(lo, hi, Below(t[k]));
    CountIfAtMostLength(lo, Below(t[k]));
    forall q | 0 <= q < |hi|
      ensures !Below(t[k])(hi[q])
    {
      assert hi[q] == t[k + q];
    }
    CountIfNone(hi, Below(t[k]));
  }

  /** In a sorted sequence nothing at or before position k lies above t[k]. */
  lemma SortedCountAbove(t: seq<int>, k: nat)
    requires Sorted(t) && k < |t|
    ensures CountIf(t, Above(t[k])) <= |t| - 1 - k
  {
    var lo, hi := t[..k + 1], t[k + 1..];
    assert t == lo + hi;
    CountIfAppend(lo, hi, Above(t[k]));
    forall q | 0 <= q < |lo|
      ensures !Above(t[k])(lo[q])
    {
      assert lo[q] == t[q];
    }
    CountIfNone(lo, Above(t[k]));
    CountIfAtMostLength(hi, Above(t[k]));
  }

  /** The middle element of a sorted odd-length permutation of s has at most
      |s| / 2 elements of s strictly below it and at most |s| / 2 strictly
      above it: it is a median of s. */
  lemma SortedMiddleIsMedian(s: seq<int>)
    requires |s| % 2 == 1
    ensures CountIf(s, Below(Sort(s)[|s| / 2])) <= |s| / 2
    ensures CountIf(s, Above(Sort(s)[|s| / 2])) <= |s| / 2
  {
    var t := Sort(s);
    var mid := |s| / 2;
    CountIfPermutation(s, t, Below(t[mid]));
    CountIfPermutation(s, t, Above(t[mid]));
    SortedCountBelow(t, mid);
    SortedCountAbove(t, mid);
  }
}
