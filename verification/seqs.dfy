/** Filtering, counting and searching over sequences: the store's query primitives. */
module Seqs {
  import opened Wrappers

  /** The elements of `s` that satisfy `p`, in their original order. */
  function Filter<T>(s: seq<T>, p: T -> bool): (r: seq<T>)
    ensures |r| <= |s|
    ensures forall i :: 0 <= i < |r| ==> p(r[i])
    ensures forall x :: x in r ==> x in s && p(x)
    ensures forall i :: 0 <= i < |s| && p(s[i]) ==> s[i] in r
    ensures multiset(r) <= multiset(s)
  {
    if s == [] then []
    else
      assert s == [s[0]] + s[1..];
      assert forall i :: 1 <= i < |s| ==> s[i] == s[1..][i - 1];
      if p(s[0]) then [s[0]] + Filter(s[1..], p)
      else Filter(s[1..], p)
  }

  /** Filtering distributes over concatenation. */
  lemma {:induction false} FilterAppend<T>(a: seq<T>, b: seq<T>, p: T -> bool)
    ensures Filter(a + b, p) == Filter(a, p) + Filter(b, p)
  {
    if a == [] {
      assert a + b == b;
    } else {
      assert (a + b)[1..] == a[1..] + b;
      FilterAppend(a[1..], b, p);
    }
  }

  /** One more element adds one to the count exactly when it passes the test. */
  lemma FilterCountAppend<T>(s: seq<T>, x: T, p: T -> bool)
    ensures |Filter(s + [x], p)| == |Filter(s, p)| + (if p(x) then 1 else 0)
  {
    FilterAppend(s, [x], p);
  }

  /** A test that holds of every element keeps the whole sequence. */
  lemma {:induction false} FilterKeepsAll<T>(s: seq<T>, p: T -> bool)
    requires forall i :: 0 <= i < |s| ==> p(s[i])
    ensures Filter(s, p) == s
  {
    if s != [] {
      FilterKeepsAll(s[1..], p);
    }
  }

  /** Every element passes exactly one of a test and its negation. */
  lemma {:induction false} FilterComplement<T>(s: seq<T>, p: T -> bool, q: T -> bool)
    requires forall i :: 0 <= i < |s| ==> q(s[i]) == !p(s[i])
    ensures |Filter(s, p)| + |Filter(s, q)| == |s|
  {
    if s != [] {
      FilterComplement(s[1..], p, q);
    }
  }

  /** A test that implies another selects no more elements. */
  lemma {:induction false} FilterMonotone<T>(s: seq<T>, p: T -> bool, q: T -> bool)
    requires forall i :: 0 <= i < |s| ==> p(s[i]) ==> q(s[i])
    ensures |Filter(s, p)| <= |Filter(s, q)|
  {
    if s != [] {
      FilterMonotone(s[1..], p, q);
    }
  }

  /** Counting by two tests counts their union once and their overlap twice. */
  lemma {:induction false} FilterInclusionExclusion<T>(s: seq<T>, p: T -> bool, q: T -> bool,
                                                       union: T -> bool, both: T -> bool)
    requires forall i :: 0 <= i < |s| ==> union(s[i]) == (p(s[i]) || q(s[i]))
    requires forall i :: 0 <= i < |s| ==> both(s[i]) == (p(s[i]) && q(s[i]))
    ensures |Filter(s, p)| + |Filter(s, q)| == |Filter(s, union)| + |Filter(s, both)|
  {
    if s != [] {
      FilterInclusionExclusion(s[1..], p, q, union, both);
    }
  }

  /** Replacing one element changes the count by what the old and new elements contribute. */
  lemma FilterCountUpdate<T>(s: seq<T>, i: nat, x: T, p: T -> bool)
    requires i < |s|
    ensures |Filter(s[i := x], p)| + (if p(s[i]) then 1 else 0)
         == |Filter(s, p)| + (if p(x) then 1 else 0)
  {
    var front, back := s[..i], s[i + 1..];
    assert s == front + [s[i]] + back;
    assert s[i := x] == front + [x] + back;
    FilterAppend(front + [s[i]], back, p);
    FilterAppend(front + [x], back, p);
    FilterCountAppend(front, s[i], p);
    FilterCountAppend(front, x, p);
  }

  /** The position of the first element that satisfies `p`, if any. */
  function FirstIndex<T>(s: seq<T>, p: T -> bool): (r: Option<nat>)
    ensures r.Some? ==> r.value < |s| && p(s[r.value])
    ensures r.Some? ==> forall j :: 0 <= j < r.value ==> !p(s[j])
    ensures r.None? ==> forall j :: 0 <= j < |s| ==> !p(s[j])
  {
    if s == [] then None
    else if p(s[0]) then Some(0)
    else match FirstIndex(s[1..], p)
      case None => None
      case Some(i) => Some(i + 1)
  }

  /** The first element that satisfies `p`, if any (a `findOne`). */
  function FindFirst<T>(s: seq<T>, p: T -> bool): (r: Option<T>)
    ensures r.Some? ==> p(r.value) && exists i :: 0 <= i < |s| && s[i] == r.value
    ensures r.None? ==> forall j :: 0 <= j < |s| ==> !p(s[j])
  {
    match FirstIndex(s, p)
    case None => None
    case Some(i) => Some(s[i])
  }
}
