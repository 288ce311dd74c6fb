/** Generic sequence helpers used by the container policies: filtering by a
    predicate, the first and last index satisfying a predicate, and removal
    of one element. */
module Seqs {
  import opened Basics

  /** The elements of `s` satisfying `p`, in their original order. */
  function Filter<T>(s: seq<T>, p: T -> bool): (r: seq<T>)
    ensures |r| <= |s|
    decreases |s|
  {
    if |s| == 0 then []
    else Filter(s[..|s| - 1], p) + (if p(s[|s| - 1]) then [s[|s| - 1]] else [])
  }

  /** Filtering distributes over concatenation. */
  lemma {:induction false} FilterConcat<T>(a: seq<T>, b: seq<T>, p: T -> bool)
    ensures Filter(a + b, p) == Filter(a, p) + Filter(b, p)
    decreases |b|
  {
    if |b| == 0 {
      assert a + b == a;
    } else {
      var b' := b[..|b| - 1];
      assert (a + b)[..|a + b| - 1] == a + b';
      assert (a + b)[|a + b| - 1] == b[|b| - 1];
      FilterConcat(a, b', p);
    }
  }

  /** A sequence none of whose elements satisfies `p` filters to nothing. */
  lemma {:induction false} FilterNone<T>(s: seq<T>, p: T -> bool)
    requires forall i :: 0 <= i < |s| ==> !p(s[i])
    ensures Filter(s, p) == []
    decreases |s|
  {
    if |s| > 0 {
      FilterNone(s[..|s| - 1], p);
    }
  }

  /** The index of the first element satisfying `p`, as a linear search with
      an early exit (`std::find_if`, Python `next(filter(...))`) finds it. */
  function FirstIndex<T>(s: seq<T>, p: T -> bool): (r: Option<nat>)
    ensures r.None? <==> forall i :: 0 <= i < |s| ==> !p(s[i])
    ensures r.Some? ==> r.value < |s| && p(s[r.value])
    ensures r.Some? ==> forall j :: 0 <= j < r.value ==> !p(s[j])
  {
    if |s| == 0 then None
    else if p(s[0]) then Some(0)
    else match FirstIndex(s[1..], p)
      case None => None
      case Some(i) => Some(i + 1)
  }

  /** Two sequences that agree on `p` at every index have the same first
      index satisfying `p`. */
  lemma SameFirstIndex<T>(a: seq<T>, b: seq<T>, p: T -> bool)
    requires |a| == |b|
    requires forall i :: 0 <= i < |a| ==> p(a[i]) == p(b[i])
    ensures FirstIndex(a, p) == FirstIndex(b, p)
  {
  }

  /** The index of the last element satisfying `p`, as a full scan that keeps
      overwriting its candidate (a loop without `break`) finds it. */
  function LastIndex<T>(s: seq<T>, p: T -> bool): (r: Option<nat>)
    ensures r.None? <==> forall i :: 0 <= i < |s| ==> !p(s[i])
    ensures r.Some? ==> r.value < |s| && p(s[r.value])
    ensures r.Some? ==> forall j :: r.value < j < |s| ==> !p(s[j])
    decreases |s|
  {
    if |s| == 0 then None
    else if p(s[|s| - 1]) then Some(|s| - 1)
    else LastIndex(s[..|s| - 1], p)
  }

  /** `s` without its element at index `i`. */
  function RemoveAt<T>(s: seq<T>, i: nat): (r: seq<T>)
    requires i < |s|
    ensures |r| == |s| - 1
    ensures forall j :: 0 <= j < i ==> r[j] == s[j]
    ensures forall j :: i <= j < |r| ==> r[j] == s[j + 1]
  {
    s[..i] + s[i + 1..]
  }

  /** `s` without its first element; empty stays empty. */
  function DropFirst<T>(s: seq<T>): (r: seq<T>)
    ensures |s| > 0 ==> [s[0]] + r == s
    ensures |s| == 0 ==> r == []
  {
    if |s| == 0 then [] else s[1..]
  }

  /** `s` without its last element; empty stays empty. */
  function DropLast<T>(s: seq<T>): (r: seq<T>)
    ensures |s| > 0 ==> r + [s[|s| - 1]] == s
    ensures |s| == 0 ==> r == []
  {
    if |s| == 0 then [] else s[..|s| - 1]
  }

  lemma FilterSingleton<T>(x: T, p: T -> bool)
    ensures Filter([x], p) == if p(x) then [x] else []
  {
    assert [x][..0] == [];
  }

  /** Filtering a sequence split around one element. */
  lemma FilterSplit<T>(pre: seq<T>, x: T, post: seq<T>, p: T -> bool)
    ensures Filter(pre + [x] + post, p)
         == Filter(pre, p) + (if p(x) then [x] else []) + Filter(post, p)
  {
    FilterConcat(pre + [x], post, p);
    assert (pre + [x])[..|pre + [x]| - 1] == pre;
  }

  /** Removing the last element satisfying `p` keeps every element that does
      not satisfy it, and drops exactly the last of those that do. */
  lemma FilterRemoveLast<T>(s: seq<T>, p: T -> bool, q: T -> bool, i: nat)
    requires i < |s| && p(s[i]) && !q(s[i])
    requires forall j :: i < j < |s| ==> !p(s[j])
    ensures Filter(RemoveAt(s, i), q) == Filter(s, q)
    ensures |Filter(s, p)| > 0
    ensures Filter(RemoveAt(s, i), p) == DropLast(Filter(s, p))
  {
    var pre, x, post := s[..i], s[i], s[i + 1..];
    assert s == pre + [x] + post;
    assert RemoveAt(s, i) == pre + post;
    FilterRemoveOne(pre, x, post, q);
    FilterRemoveOne(pre, x, post, p);
    FilterNone(post, p);
  }

  /** Filtering with and without one element `x`. */
  lemma FilterRemoveOne<T>(pre: seq<T>, x: T, post: seq<T>, p: T -> bool)
    ensures !p(x) ==> Filter(pre + post, p) == Filter(pre + [x] + post, p)
    ensures p(x) ==> Filter(pre + [x] + post, p) == Filter(pre, p) + [x] + Filter(post, p)
    ensures Filter(pre + post, p) == Filter(pre, p) + Filter(post, p)
  {
    FilterSplit(pre, x, post, p);
    FilterConcat(pre, post, p);
  }

  /** Removing the first element satisfying `p` keeps every element that
      does not satisfy it, and drops exactly the first of those that do. */
  lemma FilterRemoveFirst<T>(s: seq<T>, p: T -> bool, q: T -> bool, i: nat)
    requires i < |s| && p(s[i]) && !q(s[i])
    requires forall j :: 0 <= j < i ==> !p(s[j])
    ensures Filter(RemoveAt(s, i), q) == Filter(s, q)
    ensures |Filter(s, p)| > 0
    ensures Filter(RemoveAt(s, i), p) == DropFirst(Filter(s, p))
  {
    var pre, x, post := s[..i], s[i], s[i + 1..];
    assert s == pre + [x] + post;
    assert RemoveAt(s, i) == pre + post;
    FilterRemoveOne(pre, x, post, q);
    FilterRemoveOne(pre, x, post, p);
    FilterNone(pre, p);
    assert Filter(pre, p) + [x] == [x];
    assert Filter(RemoveAt(s, i), p) == Filter(post, p);
  }
}
