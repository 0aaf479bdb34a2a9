/** Facts about sequences used by the Python list and dict models. */
module Seqs {

  /** No element occurs twice. */
  predicate Distinct<T(==)>(s: seq<T>)
  {
    forall i, j :: 0 <= i < j < |s| ==> s[i] != s[j]
  }

  /** Index of the first occurrence of `x` in `xs` (Python's `xs.index(x)`). */
  function FirstIndex<T(==)>(xs: seq<T>, x: T): (r: nat)
    requires x in xs
    ensures r < |xs| && xs[r] == x
    ensures forall k :: 0 <= k < r ==> xs[k] != x
  {
    if xs[0] == x then 0 else 1 + FirstIndex(xs[1..], x)
  }

  /** `r` lists elements of `xs`, each once, in the order of their first occurrence in `xs`. */
  predicate OrderedBy<T(==)>(r: seq<T>, xs: seq<T>)
  {
    && (forall i :: 0 <= i < |r| ==> r[i] in xs)
    && (forall i, j :: 0 <= i < j < |r| && r[i] in xs && r[j] in xs ==>
          FirstIndex(xs, r[i]) < FirstIndex(xs, r[j]))
  }

  /** Extending a sequence at its end keeps the first index of what it already holds. */
  lemma FirstIndexOfPrefix<T>(p: seq<T>, q: seq<T>, y: T)
    requires y in p
    ensures y in p + q && FirstIndex(p + q, y) == FirstIndex(p, y)
  {
    var k := FirstIndex(p, y);
    var m := FirstIndex(p + q, y);
    assert (p + q)[k] == y;
    assert m <= k;
    assert p[m] == (p + q)[m];
  }

  /** The first index of an element that only the extension holds is past the prefix. */
  lemma FirstIndexPastPrefix<T>(p: seq<T>, q: seq<T>, y: T)
    requires y !in p && y in q
    ensures y in p + q && FirstIndex(p + q, y) == |p| + FirstIndex(q, y)
  {
    var k := FirstIndex(q, y);
    var m := FirstIndex(p + q, y);
    assert (p + q)[|p| + k] == y;
    assert q[m - |p|] == (p + q)[m];
  }

  lemma OrderedByIsDistinct<T>(r: seq<T>, xs: seq<T>)
    requires OrderedBy(r, xs)
    ensures Distinct(r)
  {
    forall i, j | 0 <= i < j < |r| ensures r[i] != r[j] {
      assert FirstIndex(xs, r[i]) < FirstIndex(xs, r[j]);
    }
  }

  /** In a sequence without repetitions every element occurs at most once. */
  lemma {:induction false} DistinctMultiplicity<T>(s: seq<T>, x: T)
    requires Distinct(s)
    ensures multiset(s)[x] == if x in s then 1 else 0
  {
    if s != [] {
      var p := s[..|s| - 1];
      assert s == p + [s[|s| - 1]];
      assert Distinct(p);
      DistinctMultiplicity(p, x);
      if x == s[|s| - 1] {
        assert x !in p;
      }
    }
  }

  /** Two sequences without repetitions and with the same elements are permutations of each other. */
  lemma SameElementsPermutation<T>(a: seq<T>, b: seq<T>)
    requires Distinct(a) && Distinct(b)
    requires forall x :: x in a <==> x in b
    ensures multiset(a) == multiset(b)
  {
    forall x ensures multiset(a)[x] == multiset(b)[x] {
      DistinctMultiplicity(a, x);
      DistinctMultiplicity(b, x);
    }
  }

  /** Ordering by first occurrence survives extending the reference sequence. */
  lemma OrderedByExtend<T>(r: seq<T>, p: seq<T>, q: seq<T>)
    requires OrderedBy(r, p)
    ensures OrderedBy(r, p + q)
  {
    forall i | 0 <= i < |r| ensures r[i] in p + q && FirstIndex(p + q, r[i]) == FirstIndex(p, r[i]) {
      FirstIndexOfPrefix(p, q, r[i]);
    }
  }

  /** An element new to the reference sequence may be appended last. */
  lemma OrderedByAppend<T>(r: seq<T>, p: seq<T>, x: T)
    requires OrderedBy(r, p) && x !in p
    ensures OrderedBy(r + [x], p + [x])
  {
    OrderedByExtend(r, p, [x]);
    FirstIndexPastPrefix(p, [x], x);
    var r' := r + [x];
    forall i, j | 0 <= i < j < |r'|
      ensures FirstIndex(p + [x], r'[i]) < FirstIndex(p + [x], r'[j])
    {
      if j == |r| {
        assert r'[i] == r[i] && r[i] in p;
      } else {
        assert r'[i] == r[i] && r'[j] == r[j];
      }
    }
  }

  /**
   * The elements of `xs`, each once, in the order of their first occurrence:
   * what a loop that appends each element not yet collected builds.
   */
  function Dedup<T(==)>(xs: seq<T>): (r: seq<T>)
    ensures forall i :: 0 <= i < |xs| ==> xs[i] in r
    ensures OrderedBy(r, xs)
    ensures Distinct(r)
  {
    if xs == [] then []
    else
      var p := xs[..|xs| - 1];
      var x := xs[|xs| - 1];
      assert xs == p + [x];
      var r := Dedup(p);
      if x in r then
        OrderedByExtend(r, p, [x]);
        r
      else
        OrderedByAppend(r, p, x);
        OrderedByIsDistinct(r + [x], xs);
        r + [x]
  }

  /** Splitting off the last element of the right operand of a concatenation. */
  lemma ConcatSnoc<T>(x: seq<T>, y: seq<T>)
    requires y != []
    ensures x + y == (x + y[..|y| - 1]) + [y[|y| - 1]]
  {
  }

  /** Dedup unfolded at an explicit last element. */
  lemma DedupSnoc<T>(xs: seq<T>, x: T)
    ensures Dedup(xs + [x]) == if x in Dedup(xs) then Dedup(xs) else Dedup(xs) + [x]
  {
    assert (xs + [x])[..|xs|] == xs;
  }
}
