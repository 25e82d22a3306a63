/**
  Two places where util/interval-tree.c, as written, leaves the tree
  invariant: the unsigned neighbour probes of `it_tree_insert` wrap around
  at the ends of the value range, and `it_tree_remove` accepts an inverted
  range, whose split computes pieces that overlap (`g_tree_insert` then
  replaces the value of the first piece's node with the second and frees
  the second, so values are lost) or, when start is just past end, pieces
  that are adjacent. The corrected
  behaviour is the one `IntervalTree.Insert` and `IntervalTree.Remove`
  model.
 */
module IntervalTreeFindings {
  import opened Ranges
  import opened IntervalTree

  /** `unsigned long long` arithmetic: results are taken modulo 2^64. */
  function Wrap(x: int): (r: ITValue)
    ensures 0 <= x <= MAX ==> r == x
    ensures x == -1 ==> r == MAX
    ensures x == MAX + 1 ==> r == 0
  {
    x % (MAX + 1)
  }

  /**
    `it_tree_insert` as written: the probes `start - 1` and `end + 1` are
    computed in unsigned arithmetic, so for `start == 0` the left probe is
    the maximum value and for `end == MAX` the right probe is 0.
   */
  function InsertAsWritten(t: Tree, start: ITValue, end: ITValue): (r: Outcome)
    requires start <= end
    ensures r.code == ItOk || r.code == ItErrOverlap
    ensures r.code == ItErrOverlap <==> exists x | x in t :: Compare(ITRange(start, end), x) == 0
    ensures r.code == ItErrOverlap ==> r.tree == t
  {
    MergeInsert(t, start, end, Some(Wrap(start - 1)), Some(Wrap(end + 1)))
  }

  /**
    Inserting `[0, 9]` next to a stored `[100, MAX]`: the wrapped left probe
    finds `[100, MAX]` and "absorbs" it, storing the inverted range
    `[100, 9]`. Neither 0 nor MAX is stored afterwards, although insert
    reported success. The corrected insert stores both ranges.
   */
  lemma InsertAtZeroWrapsAround()
    ensures Valid([ITRange(100, MAX)])
    ensures InsertAsWritten([ITRange(100, MAX)], 0, 9) == Outcome(ItOk, [ITRange(100, 9)])
    ensures !Valid([ITRange(100, 9)])
    ensures !Covers([ITRange(100, 9)], 0) && !Covers([ITRange(100, 9)], MAX)
    ensures Insert([ITRange(100, MAX)], 0, 9) == Outcome(ItOk, [ITRange(0, 9), ITRange(100, MAX)])
  {
    var t := [ITRange(100, MAX)];
    assert Find(t, 0, 9) == None;
    assert FindValue(t, MAX) == Some(ITRange(100, MAX));
    assert Delete(t, ITRange(100, MAX)) == [];
    assert FindValue([], 10) == None;
    var r := Insert(t, 0, 9);
    assert !Covers(t, 0);
    assert r.code == ItOk;
    var expected := [ITRange(0, 9), ITRange(100, MAX)];
    assert Valid(expected) by {
      assert expected[1..] == [ITRange(100, MAX)];
    }
    forall v
      ensures Covers(r.tree, v) <==> Covers(expected, v)
    {
      if Contains(ITRange(100, MAX), v) {
        assert Covers(t, v);
      }
    }
    Canonical(r.tree, expected);
  }

  /**
    The mirror image: inserting `[100, MAX]` next to a stored `[0, 9]`. The
    wrapped right probe 0 finds `[0, 9]`, and the inverted `[100, 9]` is
    stored.
   */
  lemma InsertAtMaxWrapsAround()
    ensures Valid([ITRange(0, 9)])
    ensures InsertAsWritten([ITRange(0, 9)], 100, MAX) == Outcome(ItOk, [ITRange(100, 9)])
  {
    var t := [ITRange(0, 9)];
    assert Find(t, 100, MAX) == None;
    assert FindValue(t, 99) == None;
    assert FindValue(t, 0) == Some(ITRange(0, 9));
    assert Delete(t, ITRange(0, 9)) == [];
  }

  /**
    A GTree node: the key it is ordered by and the value pointer stored
    with it. The interval tree always stores a range as both.
   */
  datatype Node = Node(key: ITRange, value: ITRange)

  /** The GTree with its values, in key order. */
  type NodeTree = seq<Node>

  /**
    `g_tree_insert(key, value)` with `it_tree_compare` and `g_free` as key
    destructor: when a stored key compares "equal" to `key`, that node keeps
    its own key and takes `value` as its value (the passed key is freed);
    otherwise a node `(key, value)` is added by ascending start.
   */
  function GTreeInsert(t: NodeTree, key: ITRange, value: ITRange): (r: NodeTree)
    ensures |r| == |t| || |r| == |t| + 1
    ensures |r| == |t| ==> exists n | n in t :: Compare(key, n.key) == 0
    ensures forall n | n in r :: n in t || n.value == value
    ensures forall n | n in r :: (exists m | m in t :: m.key == n.key) || n.key == key
    ensures |r| == |t| ==> forall n | n in r :: exists m | m in t :: m.key == n.key
    ensures |r| == |t| + 1 ==> forall n :: n in r <==> n in t || n == Node(key, value)
  {
    if |t| == 0 then [Node(key, value)]
    else if Compare(key, t[0].key) == 0 then [Node(t[0].key, value)] + t[1..]
    else if key.start < t[0].key.start then [Node(key, value)] + t
    else
      assert t == [t[0]] + t[1..];
      [t[0]] + GTreeInsert(t[1..], key, value)
  }

  /**
    The GTree ordering the interval tree relies on: every key is proper and
    lies wholly below every later key.
   */
  predicate KeysAscending(t: NodeTree)
    decreases |t|
  {
    |t| == 0 ||
    (Proper(t[0].key) && (forall n | n in t[1..] :: t[0].key.end < n.key.start) && KeysAscending(t[1..]))
  }

  /**
    On a properly ordered GTree, `g_tree_insert` collides, adding no node,
    exactly when some stored key compares "equal" to the new one.
   */
  lemma {:induction false} GTreeInsertAscending(t: NodeTree, key: ITRange, value: ITRange)
    requires KeysAscending(t) && Proper(key)
    ensures (exists n | n in t :: Compare(key, n.key) == 0) <==> |GTreeInsert(t, key, value)| == |t|
  {
    if |t| == 0 {
    } else if Compare(key, t[0].key) == 0 {
      assert t[0] in t;
    } else if key.start < t[0].key.start {
      assert t == [t[0]] + t[1..];
    } else {
      assert t == [t[0]] + t[1..];
      GTreeInsertAscending(t[1..], key, value);
    }
  }

  /**
    What a collision does: when `g_tree_insert` adds no node, some stored
    node compares "equal" to the key, that node keeps its key and takes
    `value` as its value, and every other node is left as it was.
   */
  lemma {:induction false} GTreeInsertCollision(t: NodeTree, key: ITRange, value: ITRange)
    ensures |GTreeInsert(t, key, value)| == |t| ==>
              exists i | 0 <= i < |t| ::
                Compare(key, t[i].key) == 0 && GTreeInsert(t, key, value) == t[i := Node(t[i].key, value)]
  {
    if |t| > 0 && Compare(key, t[0].key) != 0 && key.start >= t[0].key.start {
      var tail := t[1..];
      if |GTreeInsert(tail, key, value)| == |tail| {
        GTreeInsertCollision(tail, key, value);
        var i :| 0 <= i < |tail| && Compare(key, tail[i].key) == 0 &&
                 GTreeInsert(tail, key, value) == tail[i := Node(tail[i].key, value)];
        assert t[i + 1] == tail[i];
        CollisionStep(t, key, value, i);
      }
    } else if |t| > 0 && Compare(key, t[0].key) == 0 {
      HeadCollision(t, key, value);
    } else {
      assert |GTreeInsert(t, key, value)| == |t| + 1;
    }
  }

  /** A collision with the first node replaces that node's value. */
  lemma HeadCollision(t: NodeTree, key: ITRange, value: ITRange)
    requires |t| > 0 && Compare(key, t[0].key) == 0
    ensures GTreeInsert(t, key, value) == t[0 := Node(t[0].key, value)]
  {
    assert GTreeInsert(t, key, value) == [Node(t[0].key, value)] + t[1..];
  }

  /** A collision in the tail, seen from the whole tree. */
  lemma CollisionStep(t: NodeTree, key: ITRange, value: ITRange, i: int)
    requires |t| > 0 && Compare(key, t[0].key) != 0 && key.start >= t[0].key.start
    requires 0 <= i < |t| - 1
    requires GTreeInsert(t[1..], key, value) == t[1..][i := Node(t[i + 1].key, value)]
    ensures GTreeInsert(t, key, value) == t[i + 1 := Node(t[i + 1].key, value)]
  {
    ConsUpdate(t, i, Node(t[i + 1].key, value));
  }

  /** Updating a node past the head of a tree updates its tail. */
  lemma ConsUpdate(t: NodeTree, i: int, n: Node)
    requires 0 <= i < |t| - 1
    ensures t[i + 1 := n] == [t[0]] + t[1..][i := n]
  {
    var want := [t[0]] + t[1..][i := n];
    forall j | 0 <= j < |t|
      ensures t[i + 1 := n][j] == want[j]
    {
      if j > 0 {
        assert want[j] == t[1..][i := n][j - 1];
      }
    }
  }

  /** `g_tree_remove` of a stored key: its node goes. */
  function GTreeRemove(t: NodeTree, key: ITRange): (r: NodeTree)
    ensures forall n :: n in r <==> n in t && n.key != key
  {
    if |t| == 0 then []
    else
      assert t == [t[0]] + t[1..];
      if t[0].key == key then GTreeRemove(t[1..], key) else [t[0]] + GTreeRemove(t[1..], key)
  }

  /**
    `it_tree_remove_subset` as written, over nodes: remove `overlap`, then
    insert each non-empty piece as key and value through `g_tree_insert`.
   */
  function RemoveSubsetAsWritten(t: NodeTree, overlap: ITRange, r: ITRange): (res: NodeTree)
    ensures forall n | n in res ::
              || (n in t && n.key != overlap)
              || (overlap.start < r.start && n.value == ITRange(overlap.start, r.start - 1))
              || (r.end < overlap.end && n.value == ITRange(r.end + 1, overlap.end))
  {
    var t1 := GTreeRemove(t, overlap);
    var t2 := if overlap.start < r.start then
                var p1 := ITRange(overlap.start, r.start - 1); GTreeInsert(t1, p1, p1)
              else t1;
    if r.end < overlap.end then
      var p2 := ITRange(r.end + 1, overlap.end); GTreeInsert(t2, p2, p2)
    else t2
  }

  /**
    Removing the inverted range `[15, 12]` from a tree holding `[10, 19]`:
    the comparator still calls `[10, 19]` an overlap and `it_range_cover`
    calls it a cover, so the loop makes one pass and stops. That pass
    computes the overlapping pieces `[10, 14]` and `[13, 19]`; the second
    collides in `g_tree_insert` with the first, so the tree is left with the
    single node keyed `[10, 14]` whose value is the freed `[13, 19]`.
    The values 15..19 are no longer stored though remove answers `IT_OK`,
    and a later foreach fails its check that key and value are the same.
    The corrected `Remove` treats an inverted range as empty.
   */
  lemma RemoveInvertedRangeLosesValues()
    ensures Find([ITRange(10, 19)], 15, 12) == Some(ITRange(10, 19))
    ensures Cover(ITRange(10, 19), ITRange(15, 12))
    ensures Compare(ITRange(13, 19), ITRange(10, 14)) == 0
    ensures var left := RemoveSubsetAsWritten([Node(ITRange(10, 19), ITRange(10, 19))],
                                              ITRange(10, 19), ITRange(15, 12));
            && left == [Node(ITRange(10, 14), ITRange(13, 19))]
            && left[0].key != left[0].value
            && forall n, v | n in left && 15 <= v <= 19 :: !Contains(n.key, v)
  {
    var t := [Node(ITRange(10, 19), ITRange(10, 19))];
    assert GTreeRemove(t, ITRange(10, 19)) == [];
    var p1 := ITRange(10, 14);
    assert GTreeInsert([], p1, p1) == [Node(p1, p1)];
    var p2 := ITRange(13, 19);
    assert GTreeInsert([Node(p1, p1)], p2, p2) == [Node(p1, p2)];
  }

  /**
    The adjacent case of the same defect: removing `[13, 12]` (start just
    past end) from `[10, 19]` computes the pieces `[10, 12]` and `[13, 19]`.
    They do not collide, so both are stored and no value is lost, but the
    two stored ranges are adjacent, which merging on insert is meant to
    rule out.
   */
  lemma RemoveAdjacentInvertedRangeSplits()
    ensures Find([ITRange(10, 19)], 13, 12) == Some(ITRange(10, 19))
    ensures Cover(ITRange(10, 19), ITRange(13, 12))
    ensures Compare(ITRange(13, 19), ITRange(10, 12)) == 1
    ensures var left := RemoveSubsetAsWritten([Node(ITRange(10, 19), ITRange(10, 19))],
                                              ITRange(10, 19), ITRange(13, 12));
            && left == [Node(ITRange(10, 12), ITRange(10, 12)), Node(ITRange(13, 19), ITRange(13, 19))]
            && left[0].key.end + 1 == left[1].key.start
            && !Valid([left[0].key, left[1].key])
  {
    var t := [Node(ITRange(10, 19), ITRange(10, 19))];
    assert GTreeRemove(t, ITRange(10, 19)) == [];
    var p1 := ITRange(10, 12);
    assert GTreeInsert([], p1, p1) == [Node(p1, p1)];
    var p2 := ITRange(13, 19);
    assert GTreeInsert([Node(p1, p1)], p2, p2) == [Node(p1, p1), Node(p2, p2)];
    assert [p1, p2][1..] == [p2];
  }
}
