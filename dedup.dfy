/** Keep-first deduplication on a key (the frame library's
    `drop_duplicates(subset=..., keep="first")`): mark every element whose key
    occurred earlier, then keep the unmarked ones. */
module Dedup {
  import opened Masks

  /** The left-to-right scan with a set of keys seen so far. Entry `k` of the
      result belongs to `xs[i + k]`. */
  function DuplicatedFrom<T, K(==)>(xs: seq<T>, key: T -> K, i: nat, seen: set<K>): (mask: seq<bool>)
    requires i <= |xs|
    ensures |mask| == |xs| - i
    ensures forall k :: 0 <= k < |mask| ==>
      (mask[k] <==> key(xs[i + k]) in seen || exists j :: i <= j < i + k && key(xs[j]) == key(xs[i + k]))
    decreases |xs| - i
  {
    if i == |xs| then []
    else
      var rest := DuplicatedFrom(xs, key, i + 1, seen + {key(xs[i])});
      var mask := [key(xs[i]) in seen] + rest;
      assert forall k :: 1 <= k < |mask| ==> mask[k] == rest[k - 1];
      mask
  }

  /** `duplicated(keep="first")`: an element is a duplicate exactly when some
      earlier element has the same key. */
  function Duplicated<T, K(==)>(xs: seq<T>, key: T -> K): (mask: seq<bool>)
    ensures |mask| == |xs|
    ensures forall i :: 0 <= i < |xs| ==>
      (mask[i] <==> exists j :: 0 <= j < i && key(xs[j]) == key(xs[i]))
  {
    var mask := DuplicatedFrom(xs, key, 0, {});
    assert forall i :: 0 <= i < |xs| ==> xs[0 + i] == xs[i];
    mask
  }

  /** The input positions that deduplication retains, in order. */
  function Retained<T, K(==)>(xs: seq<T>, key: T -> K): (idx: seq<nat>)
    ensures |idx| <= |xs|
    ensures forall k :: 0 <= k < |idx| ==> idx[k] < |xs|
    ensures forall a, b :: 0 <= a < b < |idx| ==> idx[a] < idx[b]
    ensures forall k, j :: 0 <= k < |idx| && 0 <= j < idx[k] ==> key(xs[j]) != key(xs[idx[k]])
    ensures forall i :: 0 <= i < |xs| && (forall j :: 0 <= j < i ==> key(xs[j]) != key(xs[i])) ==> i in idx
  {
    var keep := Negate(Duplicated(xs, key));
    Positions(keep)
  }

  /** `drop_duplicates(keep="first")`. */
  function DropDuplicates<T, K(==)>(xs: seq<T>, key: T -> K): (ys: seq<T>)
    ensures |ys| <= |xs|
    ensures ys == Take(xs, Retained(xs, key))
  {
    Where(xs, Negate(Duplicated(xs, key)))
  }

  /** Every element's key is carried by some retained element at or before it:
      the first element with that key. */
  lemma {:induction false} FirstWithKey<T, K>(xs: seq<T>, key: T -> K, i: nat) returns (k: nat)
    requires i < |xs|
    ensures k < |Retained(xs, key)|
    ensures Retained(xs, key)[k] <= i
    ensures key(xs[Retained(xs, key)[k]]) == key(xs[i])
    decreases i
  {
    var mask := Duplicated(xs, key);
    var idx := Retained(xs, key);
    if mask[i] {
      var j :| 0 <= j < i && key(xs[j]) == key(xs[i]);
      k := FirstWithKey(xs, key, j);
    } else {
      assert Negate(mask)[i];
      assert i in idx;
      k :| 0 <= k < |idx| && idx[k] == i;
    }
  }

  /** No two retained elements share a key. */
  lemma {:induction false} DropDuplicatesUniqueKeys<T, K>(xs: seq<T>, key: T -> K)
    ensures var ys := DropDuplicates(xs, key);
      forall a, b :: 0 <= a < b < |ys| ==> key(ys[a]) != key(ys[b])
  {
    var ys := DropDuplicates(xs, key);
    var idx := Retained(xs, key);
    forall a, b | 0 <= a < b < |ys| ensures key(ys[a]) != key(ys[b]) {
      assert idx[a] < idx[b];
    }
  }

  /** Deduplication loses no key: every input key is the key of some output element. */
  lemma {:induction false} DropDuplicatesKeepsKeys<T, K>(xs: seq<T>, key: T -> K)
    ensures var ys := DropDuplicates(xs, key);
      forall i :: 0 <= i < |xs| ==> exists k :: 0 <= k < |ys| && key(ys[k]) == key(xs[i])
  {
    var ys := DropDuplicates(xs, key);
    forall i | 0 <= i < |xs| ensures exists k :: 0 <= k < |ys| && key(ys[k]) == key(xs[i]) {
      var k := FirstWithKey(xs, key, i);
      assert key(ys[k]) == key(xs[i]);
    }
  }

  /** The output keys are exactly the input keys. */
  lemma {:induction false} DropDuplicatesSameKeys<T, K>(xs: seq<T>, key: T -> K)
    ensures var ys := DropDuplicates(xs, key);
      (set y | y in ys :: key(y)) == (set x | x in xs :: key(x))
  {
    var ys := DropDuplicates(xs, key);
    var idx := Retained(xs, key);
    var out := set y | y in ys :: key(y);
    var inp := set x | x in xs :: key(x);
    forall v | v in out ensures v in inp {
      var y :| y in ys && key(y) == v;
      var k :| 0 <= k < |ys| && ys[k] == y;
      assert xs[idx[k]] in xs;
    }
    forall v | v in inp ensures v in out {
      var x :| x in xs && key(x) == v;
      var i :| 0 <= i < |xs| && xs[i] == x;
      var k := FirstWithKey(xs, key, i);
      assert ys[k] in ys;
    }
  }

  /** Deduplication looks only at keys: two sequences with the same key at
      every position keep the same positions. */
  lemma RetainedSameKeys<T, U, K>(xs: seq<T>, kx: T -> K, ys: seq<U>, ky: U -> K)
    requires |xs| == |ys|
    requires forall i :: 0 <= i < |xs| ==> kx(xs[i]) == ky(ys[i])
    ensures Retained(xs, kx) == Retained(ys, ky)
  {
    var mx := Duplicated(xs, kx);
    var my := Duplicated(ys, ky);
    forall i | 0 <= i < |xs| ensures mx[i] == my[i] {
      if mx[i] {
        var j :| 0 <= j < i && kx(xs[j]) == kx(xs[i]);
        assert ky(ys[j]) == ky(ys[i]);
      }
      if my[i] {
        var j :| 0 <= j < i && ky(ys[j]) == ky(ys[i]);
        assert kx(xs[j]) == kx(xs[i]);
      }
    }
    assert mx == my;
  }
}
