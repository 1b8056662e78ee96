/** Boolean-mask selection on sequences: the positions a mask keeps, in
    order, and the elements at those positions. Column selection by a list
    comprehension and row selection by a boolean mask both reduce to this. */
module Masks {

  /** The positions where `keep` is true, in increasing order. */
  function Positions(keep: seq<bool>): (idx: seq<nat>)
    ensures |idx| <= |keep|
    ensures forall k :: 0 <= k < |idx| ==> idx[k] < |keep| && keep[idx[k]]
    ensures forall a, b :: 0 <= a < b < |idx| ==> idx[a] < idx[b]
    ensures forall i :: 0 <= i < |keep| && keep[i] ==> i in idx
  {
    if keep == [] then []
    else
      var n := |keep| - 1;
      var rest := Positions(keep[..n]);
      if keep[n] then rest + [n] else rest
  }

  /** The elements of `xs` at the given positions. */
  function Take<T>(xs: seq<T>, idx: seq<nat>): (ys: seq<T>)
    requires forall k :: 0 <= k < |idx| ==> idx[k] < |xs|
    ensures |ys| == |idx|
    ensures forall k :: 0 <= k < |ys| ==> ys[k] == xs[idx[k]]
  {
    seq(|idx|, k requires 0 <= k < |idx| => xs[idx[k]])
  }

  /** `xs[keep]`: the elements at the positions the mask keeps. */
  function Where<T>(xs: seq<T>, keep: seq<bool>): (ys: seq<T>)
    requires |keep| == |xs|
    ensures |ys| <= |xs|
    ensures ys == Kept(xs, keep)
  {
    TakePositionsKept(xs, keep);
    Take(xs, Positions(keep))
  }

  /** Boolean indexing read element by element: an element is kept exactly
      when its mask entry is true, after the elements kept before it. */
  function Kept<T>(xs: seq<T>, keep: seq<bool>): seq<T>
    requires |keep| == |xs|
  {
    if xs == [] then []
    else
      var n := |xs| - 1;
      Kept(xs[..n], keep[..n]) + (if keep[n] then [xs[n]] else [])
  }

  /** Taking the kept positions is boolean indexing element by element. */
  lemma {:induction false} TakePositionsKept<T>(xs: seq<T>, keep: seq<bool>)
    requires |keep| == |xs|
    ensures Take(xs, Positions(keep)) == Kept(xs, keep)
  {
    if xs != [] {
      var n := |xs| - 1;
      var rest := Positions(keep[..n]);
      TakePositionsKept(xs[..n], keep[..n]);
      TakePrefix(xs, rest, n);
      if keep[n] {
        assert Positions(keep) == rest + [n];
        TakeSnoc(xs, rest, n);
      } else {
        assert Positions(keep) == rest;
      }
    }
  }

  /** Positions below `n` take the same elements from a prefix of length `n`. */
  lemma TakePrefix<T>(xs: seq<T>, idx: seq<nat>, n: nat)
    requires n <= |xs|
    requires forall k :: 0 <= k < |idx| ==> idx[k] < n
    ensures Take(xs, idx) == Take(xs[..n], idx)
  {
  }

  /** Taking one more position appends its element. */
  lemma TakeSnoc<T>(xs: seq<T>, idx: seq<nat>, j: nat)
    requires forall k :: 0 <= k < |idx| ==> idx[k] < |xs|
    requires j < |xs|
    ensures Take(xs, idx + [j]) == Take(xs, idx) + [xs[j]]
  {
    assert forall k :: 0 <= k < |idx| ==> (idx + [j])[k] == idx[k];
  }

  function Negate(m: seq<bool>): (r: seq<bool>)
    ensures |r| == |m|
    ensures forall i :: 0 <= i < |m| ==> r[i] == !m[i]
  {
    seq(|m|, i requires 0 <= i < |m| => !m[i])
  }

  /** The position of the first occurrence of `x`, or `|s|` when absent. */
  function IndexOf<T(==)>(s: seq<T>, x: T): (i: nat)
    ensures i <= |s|
    ensures i < |s| <==> x in s
    ensures i < |s| ==> s[i] == x
    ensures forall j :: 0 <= j < i ==> s[j] != x
  {
    if s == [] then 0
    else if s[0] == x then 0
    else 1 + IndexOf(s[1..], x)
  }

  /** `[x for x in xs if x in allowed]` over a list without repeats: exactly
      the listed elements that are allowed, without repeats, in list order. */
  function FilterIn<T(==, !new)>(xs: seq<T>, allowed: seq<T>): (ys: seq<T>)
    requires Distinct(xs)
    ensures |ys| <= |xs|
    ensures Distinct(ys)
    ensures forall x :: x in ys <==> x in xs && x in allowed
    ensures forall a, b :: 0 <= a < b < |ys| ==> IndexOf(xs, ys[a]) < IndexOf(xs, ys[b])
  {
    var keep := seq(|xs|, i requires 0 <= i < |xs| => xs[i] in allowed);
    var idx := Positions(keep);
    TakeAscending(xs, idx);
    FilterMembers(xs, allowed, keep);
    Where(xs, keep)
  }

  /** Taking a list without repeats at increasing positions keeps it without
      repeats and keeps list order. */
  lemma TakeAscending<T>(xs: seq<T>, idx: seq<nat>)
    requires Distinct(xs)
    requires forall k :: 0 <= k < |idx| ==> idx[k] < |xs|
    requires forall a, b :: 0 <= a < b < |idx| ==> idx[a] < idx[b]
    ensures Distinct(Take(xs, idx))
    ensures forall k :: 0 <= k < |idx| ==> IndexOf(xs, Take(xs, idx)[k]) == idx[k]
  {
    var ys := Take(xs, idx);
    forall k | 0 <= k < |idx| ensures IndexOf(xs, ys[k]) == idx[k] {
      IndexOfDistinct(xs, idx[k]);
    }
  }

  /** The mask `x in allowed` keeps exactly the allowed elements. */
  lemma FilterMembers<T>(xs: seq<T>, allowed: seq<T>, keep: seq<bool>)
    requires |keep| == |xs|
    requires forall i :: 0 <= i < |xs| ==> keep[i] == (xs[i] in allowed)
    ensures forall x :: x in Where(xs, keep) <==> x in xs && x in allowed
  {
    var idx := Positions(keep);
    var ys := Where(xs, keep);
    forall x | x in xs && x in allowed ensures x in ys {
      var i :| 0 <= i < |xs| && xs[i] == x;
      assert keep[i];
      var k :| 0 <= k < |idx| && idx[k] == i;
      assert ys[k] == x;
    }
  }

  lemma IndexOfDistinct<T>(xs: seq<T>, i: nat)
    requires Distinct(xs) && i < |xs|
    ensures IndexOf(xs, xs[i]) == i
  {
  }

  /** Two lists without repeats and without a common element concatenate
      to a list without repeats. */
  lemma DistinctAppend<T>(a: seq<T>, b: seq<T>)
    requires Distinct(a) && Distinct(b)
    requires forall x :: x in a ==> x !in b
    ensures Distinct(a + b)
  {
    forall i, j | 0 <= i < j < |a + b| ensures (a + b)[i] != (a + b)[j] {
      if i < |a| && |a| <= j {
        assert (a + b)[i] in a && (a + b)[j] in b;
      }
    }
  }

  predicate Distinct<T(==)>(s: seq<T>)
  {
    forall i, j :: 0 <= i < j < |s| ==> s[i] != s[j]
  }
}
