/** Sorting an array in place with a caller-supplied comparator, as `std::sort` does. */
module Sorting {

  /** What `std::sort` demands of its comparator: irreflexive, transitive, and transitive incomparability. */
  ghost predicate IsStrictWeakOrder<T(!new)>(less: (T, T) -> bool) {
    && (forall a :: !less(a, a))
    && (forall a, b, c :: less(a, b) && less(b, c) ==> less(a, c))
    && (forall a, b, c :: !less(a, b) && !less(b, c) ==> !less(a, c))
  }

  /** No element of `s` comes before an earlier one. */
  predicate SortedBy<T>(s: seq<T>, less: (T, T) -> bool) {
    forall i, j :: 0 <= i < j < |s| ==> !less(s[j], s[i])
  }

  /** Every element of `s` comes before every later one. */
  predicate StrictlyOrderedBy<T>(s: seq<T>, less: (T, T) -> bool) {
    forall i, j :: 0 <= i < j < |s| ==> less(s[i], s[j])
  }

  /** A sequence whose neighbours are each strictly ordered is strictly ordered throughout, hence sorted. */
  lemma {:induction false} ChainIsSortedBy<T(!new)>(s: seq<T>, less: (T, T) -> bool)
    requires IsStrictWeakOrder(less)
    requires forall i :: 0 <= i < |s| - 1 ==> less(s[i], s[i + 1])
    ensures StrictlyOrderedBy(s, less) && SortedBy(s, less)
  {
    if |s| > 1 {
      var rest := s[1..];
      forall i | 0 <= i < |rest| - 1 ensures less(rest[i], rest[i + 1]) {
        assert rest[i] == s[i + 1] && rest[i + 1] == s[i + 2];
      }
      ChainIsSortedBy(rest, less);
      forall i, j | 0 <= i < j < |s| ensures less(s[i], s[j]) {
        if 0 < i {
          assert s[i] == rest[i - 1] && s[j] == rest[j - 1];
        } else if 1 < j {
          assert s[1] == rest[0] && s[j] == rest[j - 1];
        }
      }
    }
  }

  /** Four elements each before the next are in strict order, hence sorted. */
  lemma ChainOfFour<T(!new)>(a: T, b: T, c: T, d: T, less: (T, T) -> bool)
    requires IsStrictWeakOrder(less)
    requires less(a, b) && less(b, c) && less(c, d)
    ensures StrictlyOrderedBy([a, b, c, d], less) && SortedBy([a, b, c, d], less)
  {
    ChainIsSortedBy([a, b, c, d], less);
  }

  /** Three elements where `x` comes before `z` but neither `x`/`y` nor `y`/`z` is ordered refute a strict weak ordering. */
  lemma IncomparabilityNotTransitive<T(!new)>(less: (T, T) -> bool, x: T, y: T, z: T)
    requires !less(x, y) && !less(y, z) && less(x, z)
    ensures !IsStrictWeakOrder(less)
  {
  }

  /**
   * A strictly ordered sequence is the only sorted arrangement of its
   * elements: any sorted permutation of it is equal to it. Only
   * irreflexivity of the order is needed.
   */
  lemma {:induction false} SortedStrictUnique<T(!new)>(s: seq<T>, t: seq<T>, less: (T, T) -> bool)
    requires forall a :: !less(a, a)
    requires StrictlyOrderedBy(s, less) && SortedBy(t, less)
    requires multiset(t) == multiset(s)
    ensures t == s
    decreases |s|
  {
    assert |t| == |multiset(t)| == |multiset(s)| == |s|;
    if |s| > 0 {
      SortedStrictHeads(s, t, less);
      MultisetOfTail(s);
      MultisetOfTail(t);
      assert StrictlyOrderedBy(s[1..], less) && SortedBy(t[1..], less);
      SortedStrictUnique(s[1..], t[1..], less);
      HeadAndTail(s);
      HeadAndTail(t);
    }
  }

  /** A sorted permutation of a strictly ordered sequence starts with the same element. */
  lemma SortedStrictHeads<T(!new)>(s: seq<T>, t: seq<T>, less: (T, T) -> bool)
    requires forall a :: !less(a, a)
    requires StrictlyOrderedBy(s, less) && SortedBy(t, less)
    requires multiset(t) == multiset(s) && |s| > 0
    ensures |t| > 0 && t[0] == s[0]
  {
    assert |t| == |multiset(t)| == |multiset(s)| == |s|;
    assert t[0] in multiset(s);
    var k :| 0 <= k < |s| && s[k] == t[0];
    assert s[0] in multiset(t);
    var j :| 0 <= j < |t| && t[j] == s[0];
    assert 0 < k ==> less(s[0], s[k]);
    assert 0 < j ==> !less(t[j], t[0]);
  }

  lemma HeadAndTail<T>(s: seq<T>)
    requires |s| > 0
    ensures [s[0]] + s[1..] == s
  {
  }

  lemma MultisetOfTail<T>(s: seq<T>)
    requires |s| > 0
    ensures multiset(s[1..]) == multiset(s) - multiset{s[0]}
  {
    assert s == [s[0]] + s[1..];
  }

  /** Insertion sort: a permutation of the input in which no element comes before an earlier one. */
  method SortBy<T(!new)>(a: array<T>, less: (T, T) -> bool)
    requires IsStrictWeakOrder(less)
    modifies a
    ensures SortedBy(a[..], less)
    ensures multiset(a[..]) == old(multiset(a[..]))
  {
    var i := 0;
    while i < a.Length
      invariant 0 <= i <= a.Length
      invariant forall p, q :: 0 <= p < q < i ==> !less(a[q], a[p])
      invariant multiset(a[..]) == old(multiset(a[..]))
    {
      InsertInto(a, i, less);
      i := i + 1;
    }
  }

  /** Moves `a[i]` left past every element it comes before, extending the sorted prefix by one. */
  method InsertInto<T(!new)>(a: array<T>, i: nat, less: (T, T) -> bool)
    requires IsStrictWeakOrder(less)
    requires i < a.Length
    requires forall p, q :: 0 <= p < q < i ==> !less(a[q], a[p])
    modifies a
    ensures forall p, q :: 0 <= p < q <= i ==> !less(a[q], a[p])
    ensures multiset(a[..]) == old(multiset(a[..]))
  {
    var j := i;
    while 0 < j && less(a[j], a[j - 1])
      invariant 0 <= j <= i
      invariant forall p, q :: 0 <= p < q < j ==> !less(a[q], a[p])
      invariant forall p, q :: j <= p < q <= i ==> !less(a[q], a[p])
      invariant forall p, q :: 0 <= p < j < q <= i ==> !less(a[q], a[p])
      invariant multiset(a[..]) == old(multiset(a[..]))
    {
      Swap(a, j - 1, j);
      j := j - 1;
    }
  }

  method Swap<T>(a: array<T>, i: nat, j: nat)
    requires i < j < a.Length
    modifies a
    ensures a[i] == old(a[j]) && a[j] == old(a[i])
    ensures forall k :: 0 <= k < a.Length && k != i && k != j ==> a[k] == old(a[k])
    ensures multiset(a[..]) == old(multiset(a[..]))
  {
    a[i], a[j] := a[j], a[i];
  }
}
