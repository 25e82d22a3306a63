/**
  The interval tree of util/interval-tree.c: a set of inclusive ranges of
  64-bit values kept in a GTree ordered by `it_tree_compare`, behind the
  API of include/qemu/interval-tree.h.

  The GTree is abstracted as the sequence of its ranges in ascending order
  (the order of an in-order walk). The tree invariant `Valid` says the
  stored ranges are proper, pairwise disjoint and never adjacent; the
  abstraction `Covers` says which values the tree holds. Insert adds its
  range to the covered values, remove subtracts its range, and `Canonical`
  shows that a valid tree is determined by the values it covers, which is
  what the internal merging of adjacent ranges buys.
 */
module IntervalTree {
  import opened Ranges

  /** `IT_OK`. */
  const ItOk: int := 0
  /** `IT_ERR_OVERLAP`. */
  const ItErrOverlap: int := -1

  /** The GTree, as the sequence of its keys in comparator order. */
  type Tree = seq<ITRange>

  /** The status an operation returns together with the tree it leaves. */
  datatype Outcome = Outcome(code: int, tree: Tree)

  /**
    Tree invariant: every range is proper and lies strictly before, and not
    next to, every later range.
   */
  predicate Valid(t: Tree)
    decreases |t|
  {
    |t| == 0 ||
    (Proper(t[0]) && (forall x | x in t[1..] :: t[0].end + 1 < x.start) && Valid(t[1..]))
  }

  /** Whether value `v` lies in some stored range. */
  predicate Covers(t: Tree, v: int) {
    exists x | x in t :: Contains(x, v)
  }

  /** Whether `n` keeps at least one value of distance from every range of `t`. */
  predicate Separate(t: Tree, n: ITRange) {
    forall x | x in t :: x.end + 1 < n.start || n.end + 1 < x.start
  }

  /* ---------------------------------------------------------------------
     Facts about valid trees
     --------------------------------------------------------------------- */

  lemma {:induction false} ValidMember(t: Tree, x: ITRange)
    requires Valid(t) && x in t
    ensures Proper(x)
    ensures t[0].start <= x.start
    ensures x != t[0] ==> x in t[1..] && t[0].end + 1 < x.start
  {
    assert t == [t[0]] + t[1..];
    if x != t[0] {
      assert x in t[1..];
      ValidMember(t[1..], x);
    }
  }

  /** Two distinct stored ranges are disjoint and not adjacent. */
  lemma {:induction false} ValidSeparated(t: Tree, x: ITRange, y: ITRange)
    requires Valid(t) && x in t && y in t && x != y
    ensures x.end + 1 < y.start || y.end + 1 < x.start
  {
    ValidMember(t, x);
    ValidMember(t, y);
    if x != t[0] && y != t[0] {
      ValidSeparated(t[1..], x, y);
    }
  }

  /** At most one stored range holds a given value. */
  lemma ContainingRangeUnique(t: Tree, x: ITRange, y: ITRange, v: int)
    requires Valid(t) && x in t && y in t
    requires Contains(x, v) && Contains(y, v)
    ensures x == y
  {
    if x != y {
      ValidSeparated(t, x, y);
    }
  }

  /** The values just outside a stored range are not stored. */
  lemma NeighboursUncovered(t: Tree, x: ITRange)
    requires Valid(t) && x in t
    ensures !Covers(t, x.start - 1) && !Covers(t, x.end + 1)
  {
    ValidMember(t, x);
    forall y | y in t
      ensures !Contains(y, x.start - 1) && !Contains(y, x.end + 1)
    {
      if y != x {
        ValidSeparated(t, x, y);
        ValidMember(t, y);
      }
    }
  }

  /**
    A proper range all of whose values are stored, and whose two outside
    neighbours are not, is itself one of the stored ranges.
   */
  lemma MaximalRunIsStored(t: Tree, x: ITRange)
    requires Valid(t) && Proper(x)
    requires forall v :: Contains(x, v) ==> Covers(t, v)
    requires !Covers(t, x.start - 1) && !Covers(t, x.end + 1)
    ensures x in t
  {
    assert Contains(x, x.start);
    var y :| y in t && Contains(y, x.start);
    ValidMember(t, y);
    assert !Contains(y, x.start - 1) && !Contains(y, x.end + 1);
    if y.end < x.end {
      assert Contains(x, y.end + 1);
      var z :| z in t && Contains(z, y.end + 1);
      ValidSeparated(t, y, z);
      ValidMember(t, z);
      assert false;
    }
  }

  /**
    Canonical form: two valid trees that store the same values are the same
    sequence of ranges. Merging adjacent ranges on insert is what makes the
    stored ranges a function of the stored values.
   */
  lemma {:induction false} Canonical(a: Tree, b: Tree)
    requires Valid(a) && Valid(b)
    requires forall v :: Covers(a, v) <==> Covers(b, v)
    ensures a == b
    decreases |a| + |b|
  {
    if |a| == 0 || |b| == 0 {
      if |a| > 0 {
        assert Contains(a[0], a[0].start) && Covers(a, a[0].start);
      }
      if |b| > 0 {
        assert Contains(b[0], b[0].start) && Covers(b, b[0].start);
      }
      return;
    }
    HeadDetermined(a, b);
    HeadDetermined(b, a);
    assert a[0].start == b[0].start;
    HeadEndDetermined(a, b);
    HeadEndDetermined(b, a);
    assert a[0] == b[0];
    TailCovers(a);
    TailCovers(b);
    Canonical(a[1..], b[1..]);
    assert a == [a[0]] + a[1..];
    assert b == [b[0]] + b[1..];
  }

  lemma HeadDetermined(a: Tree, b: Tree)
    requires Valid(a) && Valid(b) && |a| > 0 && |b| > 0
    requires forall v :: Covers(a, v) <==> Covers(b, v)
    ensures b[0].start <= a[0].start
  {
    ValidMember(a, a[0]);
    assert Contains(a[0], a[0].start);
    assert Covers(b, a[0].start);
    var y :| y in b && Contains(y, a[0].start);
    ValidMember(b, y);
  }

  lemma HeadEndDetermined(a: Tree, b: Tree)
    requires Valid(a) && Valid(b) && |a| > 0 && |b| > 0
    requires forall v :: Covers(a, v) <==> Covers(b, v)
    requires a[0].start == b[0].start
    ensures b[0].end <= a[0].end
  {
    if a[0].end < b[0].end {
      var v := a[0].end + 1;
      assert Contains(b[0], v) && Covers(b, v);
      var x :| x in a && Contains(x, v);
      ValidMember(a, x);
      assert false;
    }
  }

  /** The tail of a valid tree stores exactly the stored values above the head. */
  lemma TailCovers(t: Tree)
    requires Valid(t) && |t| > 0
    ensures forall v :: Covers(t[1..], v) <==> Covers(t, v) && v > t[0].end
  {
    forall v
      ensures Covers(t[1..], v) <==> Covers(t, v) && v > t[0].end
    {
      if Covers(t, v) && v > t[0].end {
        var x :| x in t && Contains(x, v);
        ValidMember(t, x);
      }
      if Covers(t[1..], v) {
        var x :| x in t[1..] && Contains(x, v);
        assert x in t;
      }
    }
  }

  /* ---------------------------------------------------------------------
     GTree primitives: lookup, removal and insertion of a node
     --------------------------------------------------------------------- */

  /**
    `g_tree_lookup` with `it_tree_compare`: some stored range that compares
    "equal" to the key, or None exactly when there is none. This model
    answers with the lowest such range; no property below depends on which.
   */
  function Lookup(t: Tree, key: ITRange): (r: Option<ITRange>)
    ensures r.Some? ==> r.value in t && Compare(key, r.value) == 0
    ensures r.None? <==> forall x | x in t :: Compare(key, x) != 0
  {
    if |t| == 0 then None
    else if Compare(key, t[0]) == 0 then Some(t[0])
    else
      assert t == [t[0]] + t[1..];
      Lookup(t[1..], key)
  }

  /**
    `g_tree_remove` of a stored key. The tree holds each range at most once,
    so dropping every copy is dropping the node.
   */
  function Delete(t: Tree, d: ITRange): (r: Tree)
    ensures forall x :: x in r <==> x in t && x != d
  {
    if |t| == 0 then []
    else
      assert t == [t[0]] + t[1..];
      if t[0] == d then Delete(t[1..], d) else [t[0]] + Delete(t[1..], d)
  }

  /** `g_tree_insert` of a fresh key: placed by ascending start. */
  function Place(t: Tree, n: ITRange): (r: Tree)
    ensures forall x :: x in r <==> x in t || x == n
  {
    if |t| == 0 then [n]
    else if n.start < t[0].start then [n] + t
    else
      assert t == [t[0]] + t[1..];
      [t[0]] + Place(t[1..], n)
  }

  lemma {:induction false} DeleteValid(t: Tree, d: ITRange)
    requires Valid(t)
    ensures Valid(Delete(t, d))
  {
    if |t| > 0 {
      DeleteValid(t[1..], d);
      if t[0] != d {
        var r := [t[0]] + Delete(t[1..], d);
        assert r[0] == t[0] && r[1..] == Delete(t[1..], d);
      }
    }
  }

  lemma {:induction false} PlaceValid(t: Tree, n: ITRange)
    requires Valid(t) && Proper(n) && Separate(t, n)
    ensures Valid(Place(t, n))
  {
    if |t| == 0 {
      assert Place(t, n)[1..] == [];
    } else if n.start < t[0].start {
      var r := [n] + t;
      assert r[1..] == t;
      forall x | x in t
        ensures n.end + 1 < x.start
      {
        ValidMember(t, x);
      }
    } else {
      assert t == [t[0]] + t[1..];
      PlaceValid(t[1..], n);
      var r := [t[0]] + Place(t[1..], n);
      assert r[0] == t[0] && r[1..] == Place(t[1..], n);
    }
  }

  /* ---------------------------------------------------------------------
     it_tree_find / it_tree_find_value
     --------------------------------------------------------------------- */

  /** `it_tree_find`: look up the key range `[start, end]`. */
  function Find(t: Tree, start: ITValue, end: ITValue): (r: Option<ITRange>)
    ensures r.Some? ==> r.value in t && Compare(ITRange(start, end), r.value) == 0
    ensures r.None? <==> forall x | x in t :: Compare(ITRange(start, end), x) != 0
  {
    Lookup(t, ITRange(start, end))
  }

  /**
    For a proper query, find answers a stored range sharing a value with
    `[start, end]` (both bounds inclusive), and answers None exactly when no
    value of `[start, end]` is stored.
   */
  lemma FindMeansOverlap(t: Tree, start: ITValue, end: ITValue)
    requires Valid(t) && start <= end
    ensures Find(t, start, end).Some? ==>
              Find(t, start, end).value in t &&
              exists v :: start <= v <= end && Contains(Find(t, start, end).value, v)
    ensures Find(t, start, end).None? <==> forall v :: start <= v <= end ==> !Covers(t, v)
  {
    var q := ITRange(start, end);
    var r := Find(t, start, end);
    if r.Some? {
      ValidMember(t, r.value);
      CompareMeansOverlap(q, r.value);
      var v :| Contains(q, v) && Contains(r.value, v);
      assert Covers(t, v);
    } else {
      forall v | start <= v <= end
        ensures !Covers(t, v)
      {
        if Covers(t, v) {
          var x :| x in t && Contains(x, v);
          SharedValueCompares(q, x, v);
        }
      }
    }
  }

  /**
    `it_tree_find_value`: the range `(v, v)`. It answers the stored range
    holding `v` (unique in a valid tree), or None exactly when `v` is not
    stored.
   */
  function FindValue(t: Tree, v: ITValue): (r: Option<ITRange>)
    ensures r.Some? <==> Covers(t, v)
    ensures r.Some? ==> r.value in t && Contains(r.value, v)
    ensures r.Some? && Valid(t) ==> forall x | x in t && Contains(x, v) :: x == r.value
  {
    var r := Find(t, v, v);
    assert r.Some? ==> Contains(r.value, v);
    assert forall x | x in t :: Compare(ITRange(v, v), x) == 0 <==> Contains(x, v);
    assert r.Some? && Valid(t) ==> forall x | x in t && Contains(x, v) :: x == r.value by {
      if r.Some? && Valid(t) {
        forall x | x in t && Contains(x, v)
          ensures x == r.value
        {
          ContainingRangeUnique(t, x, r.value, v);
        }
      }
    }
    r
  }

  /* ---------------------------------------------------------------------
     it_tree_insert
     --------------------------------------------------------------------- */

  /**
    The body of `it_tree_insert`, with the values it probes for a left and a
    right neighbour passed in: reject an overlapping range, otherwise absorb
    the range holding the left probe, then the range holding the right
    probe, and store the merged range.
   */
  function MergeInsert(t: Tree, start: ITValue, end: ITValue,
                       leftProbe: Option<ITValue>, rightProbe: Option<ITValue>): (r: Outcome)
    ensures r.code == ItOk || r.code == ItErrOverlap
    ensures r.code == ItErrOverlap <==> exists x | x in t :: Compare(ITRange(start, end), x) == 0
    ensures r.code == ItErrOverlap ==> r.tree == t
  {
    if Find(t, start, end).Some? then Outcome(ItErrOverlap, t)
    else
      var left := if leftProbe.Some? then FindValue(t, leftProbe.value) else None;
      var t1 := if left.Some? then Delete(t, left.value) else t;
      var s := if left.Some? then left.value.start else start;
      var right := if rightProbe.Some? then FindValue(t1, rightProbe.value) else None;
      var t2 := if right.Some? then Delete(t1, right.value) else t1;
      var e := if right.Some? then right.value.end else end;
      Outcome(ItOk, Place(t2, ITRange(s, e)))
  }

  /** The value just below `start`, when there is one. */
  function LeftProbe(start: ITValue): Option<ITValue> {
    if start > 0 then Some(start - 1) else None
  }

  /** The value just above `end`, when there is one. */
  function RightProbe(end: ITValue): Option<ITValue> {
    if end < MAX then Some(end + 1) else None
  }

  /**
    `it_tree_insert` (start <= end is asserted by the source). It fails with
    `IT_ERR_OVERLAP`, leaving the tree as it was, exactly when some value of
    `[start, end]` is already stored; otherwise it answers `IT_OK` and the
    stored values become the old ones plus `[start, end]`. Either way the
    tree stays valid: neighbours ending at `start - 1` or starting at
    `end + 1` have been merged in.
   */
  function Insert(t: Tree, start: ITValue, end: ITValue): (r: Outcome)
    requires Valid(t)
    requires start <= end
    ensures r.code == ItOk || r.code == ItErrOverlap
    ensures r.code == ItErrOverlap <==> exists v :: start <= v <= end && Covers(t, v)
    ensures r.code == ItErrOverlap ==> r.tree == t
    ensures Valid(r.tree)
    ensures r.code == ItOk ==> forall v :: Covers(r.tree, v) <==> Covers(t, v) || start <= v <= end
  {
    InsertCorrect(t, start, end);
    MergeInsert(t, start, end, LeftProbe(start), RightProbe(end))
  }

  lemma InsertCorrect(t: Tree, start: ITValue, end: ITValue)
    requires Valid(t)
    requires start <= end
    ensures var r := MergeInsert(t, start, end, LeftProbe(start), RightProbe(end));
      && (r.code == ItOk || r.code == ItErrOverlap)
      && (r.code == ItErrOverlap <==> exists v :: start <= v <= end && Covers(t, v))
      && (r.code == ItErrOverlap ==> r.tree == t)
      && Valid(r.tree)
      && (r.code == ItOk ==> forall v :: Covers(r.tree, v) <==> Covers(t, v) || start <= v <= end)
  {
    FindMeansOverlap(t, start, end);
    if Find(t, start, end).Some? {
      var v :| start <= v <= end && Contains(Find(t, start, end).value, v);
      assert Covers(t, v);
    } else {
      assert forall x | x in t :: x.end < start || end < x.start by {
        forall x | x in t
          ensures x.end < start || end < x.start
        {
          assert Compare(ITRange(start, end), x) != 0;
        }
      }
      InsertFresh(t, start, end);
    }
  }

  /** The success path of an insert: no stored range meets `[start, end]`. */
  lemma InsertFresh(t: Tree, start: ITValue, end: ITValue)
    requires Valid(t)
    requires start <= end
    requires Find(t, start, end).None?
    requires forall x | x in t :: x.end < start || end < x.start
    ensures var r := MergeInsert(t, start, end, LeftProbe(start), RightProbe(end));
      && r.code == ItOk
      && Valid(r.tree)
      && forall v :: Covers(r.tree, v) <==> Covers(t, v) || start <= v <= end
  {
    var left := if LeftProbe(start).Some? then FindValue(t, LeftProbe(start).value) else None;
    var t1 := if left.Some? then Delete(t, left.value) else t;
    var right := if RightProbe(end).Some? then FindValue(t1, RightProbe(end).value) else None;
    var t2 := if right.Some? then Delete(t1, right.value) else t1;
    var n := ITRange(if left.Some? then left.value.start else start,
                     if right.Some? then right.value.end else end);
    assert MergeInsert(t, start, end, LeftProbe(start), RightProbe(end)) == Outcome(ItOk, Place(t2, n));
    PlaceMerged(t, start, end, left, right);
  }

  /**
    Absorbing the neighbours the probes find and storing the merged range
    gives a valid tree holding the old values plus `[start, end]`.
   */
  lemma PlaceMerged(t: Tree, start: ITValue, end: ITValue, left: Option<ITRange>, right: Option<ITRange>)
    requires Valid(t)
    requires start <= end
    requires forall x | x in t :: x.end < start || end < x.start
    requires left == if LeftProbe(start).Some? then FindValue(t, LeftProbe(start).value) else None
    requires right == if RightProbe(end).Some? then
                        FindValue(if left.Some? then Delete(t, left.value) else t, RightProbe(end).value)
                      else None
    ensures var t1 := if left.Some? then Delete(t, left.value) else t;
            var t2 := if right.Some? then Delete(t1, right.value) else t1;
            var n := ITRange(if left.Some? then left.value.start else start,
                             if right.Some? then right.value.end else end);
            && Valid(Place(t2, n))
            && forall v :: Covers(Place(t2, n), v) <==> Covers(t, v) || start <= v <= end
  {
    var t1 := if left.Some? then Delete(t, left.value) else t;
    var t2 := if right.Some? then Delete(t1, right.value) else t1;
    var n := ITRange(if left.Some? then left.value.start else start,
                     if right.Some? then right.value.end else end);
    if left.Some? {
      ValidMember(t, left.value);
      DeleteValid(t, left.value);
    }
    if right.Some? {
      ValidMember(t, right.value);
      DeleteValid(t1, right.value);
    }
    MergeSeparate(t, t2, start, end, left, right);
    PlaceValid(t2, n);
    MergeCovers(t, t2, start, end, left, right);
    assert forall v :: Covers(Place(t2, n), v) <==> Covers(t, v) || start <= v <= end;
  }

  /**
    The merged range of an insert keeps a gap to every stored range that
    was not absorbed.
   */
  lemma MergeSeparate(t: Tree, t2: Tree, start: ITValue, end: ITValue,
                      left: Option<ITRange>, right: Option<ITRange>)
    requires Valid(t) && start <= end
    requires forall x | x in t :: x.end < start || end < x.start
    requires left.Some? ==> left.value in t && left.value.end + 1 == start
    requires left.None? && start > 0 ==> !Covers(t, start - 1)
    requires right.Some? ==> right.value in t && right.value.start == end + 1
    requires right.None? && end < MAX ==> !Covers(t, end + 1)
    requires forall x | x in t2 ::
               x in t && (left.Some? ==> x != left.value) && (right.Some? ==> x != right.value)
    ensures Separate(t2, ITRange(if left.Some? then left.value.start else start,
                                 if right.Some? then right.value.end else end))
  {
    var n := ITRange(if left.Some? then left.value.start else start,
                     if right.Some? then right.value.end else end);
    forall x | x in t2
      ensures x.end + 1 < n.start || n.end + 1 < x.start
    {
      ValidMember(t, x);
      if x.end < start {
        if left.Some? {
          ValidSeparated(t, x, left.value);
        } else if start > 0 {
          assert !Contains(x, start - 1);
        }
      } else {
        if right.Some? {
          ValidSeparated(t, x, right.value);
        } else if end < MAX {
          assert !Contains(x, end + 1);
        }
      }
    }
  }

  /**
    The merged range holds the inserted values and those of the absorbed
    neighbours, so the new tree stores the old values plus `[start, end]`.
   */
  lemma MergeCovers(t: Tree, t2: Tree, start: ITValue, end: ITValue,
                    left: Option<ITRange>, right: Option<ITRange>)
    requires Valid(t) && start <= end
    requires left.Some? ==> left.value in t && left.value.end + 1 == start
    requires right.Some? ==> right.value in t && right.value.start == end + 1
    requires forall x :: x in t2 <==>
               x in t && (left.Some? ==> x != left.value) && (right.Some? ==> x != right.value)
    ensures var n := ITRange(if left.Some? then left.value.start else start,
                             if right.Some? then right.value.end else end);
            forall v :: Covers(Place(t2, n), v) <==> Covers(t, v) || start <= v <= end
  {
    var n := ITRange(if left.Some? then left.value.start else start,
                     if right.Some? then right.value.end else end);
    if left.Some? {
      ValidMember(t, left.value);
    }
    if right.Some? {
      ValidMember(t, right.value);
    }
    forall v
      ensures Covers(Place(t2, n), v) <==> Covers(t, v) || start <= v <= end
    {
      if Covers(t, v) {
        var x :| x in t && Contains(x, v);
        if (left.Some? && x == left.value) || (right.Some? && x == right.value) {
          assert Contains(n, v);
        } else {
          assert x in t2;
        }
      }
      if start <= v <= end {
        assert Contains(n, v);
      }
      if Covers(Place(t2, n), v) {
        var x :| x in Place(t2, n) && Contains(x, v);
        if x == n {
          if left.Some? && v < start {
            assert Contains(left.value, v);
          } else if right.Some? && v > end {
            assert Contains(right.value, v);
          }
        }
      }
    }
  }

  /* ---------------------------------------------------------------------
     it_tree_remove_subset / it_tree_remove
     --------------------------------------------------------------------- */

  /**
    `it_tree_remove_subset`: drop the stored range `overlap` and store the
    pieces of it left and right of `r`, those that are non-empty.
   */
  function RemoveSubset(t: Tree, overlap: ITRange, r: ITRange): (res: Tree)
    ensures forall x :: x in res <==>
              || (x in t && x != overlap)
              || (overlap.start < r.start && x == ITRange(overlap.start, r.start - 1))
              || (r.end < overlap.end && x == ITRange(r.end + 1, overlap.end))
  {
    var t1 := Delete(t, overlap);
    var t2 := if overlap.start < r.start then Place(t1, ITRange(overlap.start, r.start - 1)) else t1;
    if r.end < overlap.end then Place(t2, ITRange(r.end + 1, overlap.end)) else t2
  }

  /**
    Removing a proper sub-range `r` of a stored range keeps the tree valid,
    replaces `overlap` by exactly its non-empty pieces `[overlap.start,
    r.start - 1]` and `[r.end + 1, overlap.end]`, and unstores exactly the
    values of `r`.
   */
  lemma RemoveSubsetCorrect(t: Tree, overlap: ITRange, r: ITRange)
    requires Valid(t) && overlap in t
    requires Proper(r) && Cover(overlap, r)
    ensures Valid(RemoveSubset(t, overlap, r))
    ensures forall x :: x in RemoveSubset(t, overlap, r) <==>
              || (x in t && x != overlap)
              || (overlap.start < r.start && x == ITRange(overlap.start, r.start - 1))
              || (r.end < overlap.end && x == ITRange(r.end + 1, overlap.end))
    ensures forall v :: Covers(RemoveSubset(t, overlap, r), v) <==> Covers(t, v) && !Contains(r, v)
  {
    RemoveSubsetValid(t, overlap, r);
    RemoveSubsetCovers(t, overlap, r);
  }

  lemma RemoveSubsetValid(t: Tree, overlap: ITRange, r: ITRange)
    requires Valid(t) && overlap in t
    requires Proper(r) && Cover(overlap, r)
    ensures Valid(RemoveSubset(t, overlap, r))
  {
    var t1 := Delete(t, overlap);
    var t2 := if overlap.start < r.start then Place(t1, ITRange(overlap.start, r.start - 1)) else t1;
    var t3 := if r.end < overlap.end then Place(t2, ITRange(r.end + 1, overlap.end)) else t2;
    RightPieceValid(t, overlap, r);
    assert RemoveSubset(t, overlap, r) == t3;
  }

  /** Dropping `overlap` and storing its left piece keeps the tree valid. */
  lemma LeftPieceValid(t: Tree, overlap: ITRange, r: ITRange)
    requires Valid(t) && overlap in t
    requires Proper(r) && Cover(overlap, r)
    ensures var t1 := Delete(t, overlap);
            Valid(if overlap.start < r.start then Place(t1, ITRange(overlap.start, r.start - 1)) else t1)
  {
    var t1 := Delete(t, overlap);
    DeleteValid(t, overlap);
    ValidMember(t, overlap);
    if overlap.start < r.start {
      var p1 := ITRange(overlap.start, r.start - 1);
      forall x | x in t1
        ensures x.end + 1 < p1.start || p1.end + 1 < x.start
      {
        ValidSeparated(t, x, overlap);
      }
      PlaceValid(t1, p1);
    }
  }

  /** Storing the right piece as well still keeps the tree valid. */
  lemma RightPieceValid(t: Tree, overlap: ITRange, r: ITRange)
    requires Valid(t) && overlap in t
    requires Proper(r) && Cover(overlap, r)
    ensures var t1 := Delete(t, overlap);
            var t2 := if overlap.start < r.start then Place(t1, ITRange(overlap.start, r.start - 1)) else t1;
            Valid(if r.end < overlap.end then Place(t2, ITRange(r.end + 1, overlap.end)) else t2)
  {
    var t1 := Delete(t, overlap);
    var t2 := if overlap.start < r.start then Place(t1, ITRange(overlap.start, r.start - 1)) else t1;
    LeftPieceValid(t, overlap, r);
    if r.end < overlap.end {
      ValidMember(t, overlap);
      var p2 := ITRange(r.end + 1, overlap.end);
      forall x | x in t2
        ensures x.end + 1 < p2.start || p2.end + 1 < x.start
      {
        if x in t1 {
          ValidSeparated(t, x, overlap);
        }
      }
      PlaceValid(t2, p2);
    }
  }

  lemma RemoveSubsetCovers(t: Tree, overlap: ITRange, r: ITRange)
    requires Valid(t) && overlap in t
    requires Proper(r) && Cover(overlap, r)
    ensures forall v :: Covers(RemoveSubset(t, overlap, r), v) <==> Covers(t, v) && !Contains(r, v)
  {
    var res := RemoveSubset(t, overlap, r);
    forall v
      ensures Covers(res, v) <==> Covers(t, v) && !Contains(r, v)
    {
      if Covers(t, v) && !Contains(r, v) {
        var x :| x in t && Contains(x, v);
        if x == overlap {
          if v < r.start {
            var p1 := ITRange(overlap.start, r.start - 1);
            assert p1 in res && Contains(p1, v);
          } else {
            var p2 := ITRange(r.end + 1, overlap.end);
            assert p2 in res && Contains(p2, v);
          }
        } else {
          assert x in res;
        }
      }
      if Covers(res, v) {
        var x :| x in res && Contains(x, v);
        if x in t && x != overlap {
          ValidSeparated(t, x, overlap);
        } else {
          assert Contains(overlap, v);
        }
      }
    }
  }

  /** The stored ranges that compare "equal" to the key `q`. */
  function Overlapping(t: Tree, q: ITRange): set<ITRange> {
    set x | x in t && Compare(q, x) == 0
  }

  /**
    One pass of the removal loop removes its overlapping range and stores
    only pieces outside the query, so fewer stored ranges overlap the query.
   */
  lemma RemovePassShrinks(t: Tree, overlap: ITRange, q: ITRange)
    requires Valid(t) && overlap in t && Proper(q) && Compare(q, overlap) == 0
    ensures |Overlapping(RemoveSubset(t, overlap, And(overlap, q)), q)| < |Overlapping(t, q)|
  {
    var a := And(overlap, q);
    var res := RemoveSubset(t, overlap, a);
    ValidMember(t, overlap);
    RemoveSubsetCorrect(t, overlap, a);
    var before := Overlapping(t, q);
    var after := Overlapping(res, q);
    assert after <= before - {overlap};
    assert overlap in before;
    SubsetSmaller(after, before - {overlap});
  }

  lemma SubsetSmaller<T>(a: set<T>, b: set<T>)
    requires a <= b
    ensures |a| <= |b|
  {
    if a != {} {
      var x :| x in a;
      SubsetSmaller(a - {x}, b - {x});
    }
  }

  /**
    `it_tree_remove`: always answers `IT_OK`. Afterwards no value of
    `[start, end]` is stored, every other stored value still is, the tree
    stays valid, and every stored range lying wholly outside
    `[start, end]` is still stored as it was. The range need not be one
    that was inserted. An inverted range (start > end) holds no value and
    removes nothing.

    The loop is the source's: while some stored range overlaps the query,
    either it covers the query (split it, done) or its intersection with
    the query is removed. Each pass lowers the number of stored ranges
    that overlap the query.
   */
  method Remove(t: Tree, start: ITValue, end: ITValue) returns (code: int, r: Tree)
    requires Valid(t)
    ensures code == ItOk
    ensures Valid(r)
    ensures forall v :: Covers(r, v) <==> Covers(t, v) && !(start <= v <= end)
    ensures forall x | x in t && (x.end < start || end < x.start) :: x in r
  {
    code := ItOk;
    r := t;
    if end < start {
      return;
    }
    var q := ITRange(start, end);
    while Find(r, start, end).Some?
      invariant Valid(r)
      invariant forall v :: !(start <= v <= end) ==> (Covers(r, v) <==> Covers(t, v))
      invariant forall v :: Covers(r, v) ==> Covers(t, v)
      decreases |Overlapping(r, q)|
    {
      var overlap := Find(r, start, end).value;
      ValidMember(r, overlap);
      if Cover(overlap, q) {
        RemoveSubsetCorrect(r, overlap, q);
        r := RemoveSubset(r, overlap, q);
        break;
      }
      var and := And(overlap, q);
      RemoveSubsetCorrect(r, overlap, and);
      RemovePassShrinks(r, overlap, q);
      r := RemoveSubset(r, overlap, and);
    }
    FindMeansOverlap(r, start, end);
    assert forall v :: start <= v <= end ==> !Covers(r, v);
    forall x | x in t && (x.end < start || end < x.start)
      ensures x in r
    {
      ValidMember(t, x);
      NeighboursUncovered(t, x);
      forall v | Contains(x, v)
        ensures Covers(r, v)
      {
        assert Covers(t, v);
      }
      MaximalRunIsStored(r, x);
    }
  }

  /* ---------------------------------------------------------------------
     it_tree_foreach
     --------------------------------------------------------------------- */

  /**
    `it_tree_foreach`: the ranges handed to the iterator `visit`, in
    ascending order. The walk goes through the stored ranges from the lowest
    and stops after the first one for which the iterator answers true.
   */
  function Foreach(t: Tree, visit: (ITValue, ITValue) -> bool): (visited: Tree)
    ensures |visited| <= |t| && visited == t[..|visited|]
    ensures forall i | 0 <= i < |visited| - 1 :: !visit(visited[i].start, visited[i].end)
    ensures |visited| < |t| ==>
              |visited| > 0 && visit(visited[|visited| - 1].start, visited[|visited| - 1].end)
  {
    if |t| == 0 then []
    else if visit(t[0].start, t[0].end) then [t[0]]
    else [t[0]] + Foreach(t[1..], visit)
  }

  /** An iterator that never answers true is handed every stored range. */
  lemma ForeachVisitsAll(t: Tree, visit: (ITValue, ITValue) -> bool)
    requires forall i | 0 <= i < |t| :: !visit(t[i].start, t[i].end)
    ensures Foreach(t, visit) == t
  {
  }
}
