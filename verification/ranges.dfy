/**
  Inclusive ranges of 64-bit unsigned values, the elements stored by the
  interval tree (`ITRange` of include/qemu/interval-tree.h), together with
  the small range helpers of util/interval-tree.c: the tree comparator,
  the intersection and the superset test.
 */
module Ranges {

  /** Largest `unsigned long long`. */
  const MAX: int := 0xFFFF_FFFF_FFFF_FFFF

  /** `ITValue`: an `unsigned long long`. */
  type ITValue = x: int | 0 <= x <= MAX

  /** `ITRange`: both bounds are inclusive. Nothing forces start <= end. */
  datatype ITRange = ITRange(start: ITValue, end: ITValue)

  datatype Option<T> = None | Some(value: T)

  /** A range that denotes at least one value. */
  predicate Proper(r: ITRange) {
    r.start <= r.end
  }

  /** Whether value `v` lies in the inclusive range `r`. */
  predicate Contains(r: ITRange, v: int) {
    r.start <= v <= r.end
  }

  /**
    The GTree comparator `it_tree_compare`: 1 when `r1` lies wholly above
    `r2`, -1 when wholly below, and 0 ("equal") when they overlap.
   */
  function Compare(r1: ITRange, r2: ITRange): (c: int)
    ensures c == -1 || c == 0 || c == 1
  {
    if r1.start > r2.end then 1
    else if r1.end < r2.start then -1
    else 0
  }

  /**
    For proper ranges the comparator says "equal" exactly when the two
    ranges share a value, 1 exactly when every value of `r1` is above every
    value of `r2`, and -1 exactly when every value of `r1` is below.
   */
  lemma CompareMeansOverlap(r1: ITRange, r2: ITRange)
    requires Proper(r1) && Proper(r2)
    ensures Compare(r1, r2) == 0 <==> exists v :: Contains(r1, v) && Contains(r2, v)
    ensures Compare(r1, r2) == 1 <==>
              forall v1, v2 :: Contains(r1, v1) && Contains(r2, v2) ==> v1 > v2
    ensures Compare(r1, r2) == -1 <==>
              forall v1, v2 :: Contains(r1, v1) && Contains(r2, v2) ==> v1 < v2
  {
    var lo := if r1.start < r2.start then r2.start else r1.start;
    if Compare(r1, r2) == 0 {
      assert Contains(r1, lo) && Contains(r2, lo);
      assert !(r1.start > r2.end) && Contains(r1, r1.end) && Contains(r2, r2.start);
      assert !(r1.end < r2.start) && Contains(r1, r1.start) && Contains(r2, r2.end);
    } else if Compare(r1, r2) == 1 {
      assert Contains(r1, r1.start) && Contains(r2, r2.end);
    } else {
      assert Contains(r1, r1.end) && Contains(r2, r2.start);
    }
  }

  /** Two values lying in the same range always compare "equal". */
  lemma SharedValueCompares(r1: ITRange, r2: ITRange, v: int)
    requires Contains(r1, v) && Contains(r2, v)
    ensures Compare(r1, r2) == 0 && Compare(r2, r1) == 0
  {
  }

  /**
    `it_range_and`: the intersection of two ranges. It is proper exactly
    when the ranges overlap, and holds exactly the values common to both.
   */
  function And(a: ITRange, b: ITRange): (r: ITRange)
    ensures forall v :: Contains(r, v) <==> Contains(a, v) && Contains(b, v)
    ensures Proper(a) && Proper(b) ==> (Proper(r) <==> Compare(a, b) == 0)
  {
    ITRange(if a.start < b.start then b.start else a.start,
            if a.end < b.end then a.end else b.end)
  }

  /**
    `it_range_cover`: whether `a` is a superset of `b`. For a proper `b`
    this is exactly inclusion of the value sets.
   */
  predicate Cover(a: ITRange, b: ITRange)
    ensures Proper(b) ==> (Cover(a, b) <==> forall v :: Contains(b, v) ==> Contains(a, v))
  {
    assert Proper(b) ==> Contains(b, b.start) && Contains(b, b.end);
    a.start <= b.start && a.end >= b.end
  }
}
