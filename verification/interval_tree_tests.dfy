/**
  The scenarios of tests/test-iova-tree.c, stated over the model: each
  `g_assert` of a test becomes a postcondition. Trees are pinned down
  through `Canonical`: a valid tree is the literal sequence that stores the
  same values.
 */
module IntervalTreeTests {
  import opened Ranges
  import opened IntervalTree

  /** The tree holding `[10, 19]` and `[30, 39]` that every test starts from. */
  function TwoRanges(): Tree {
    [ITRange(10, 19), ITRange(30, 39)]
  }

  lemma TwoRangesValid()
    ensures Valid(TwoRanges())
    ensures forall v :: Covers(TwoRanges(), v) <==> 10 <= v <= 19 || 30 <= v <= 39
  {
    assert TwoRanges()[1..] == [ITRange(30, 39)];
    forall v | 10 <= v <= 19 || 30 <= v <= 39
      ensures Covers(TwoRanges(), v)
    {
      if v <= 19 {
        assert Contains(TwoRanges()[0], v);
      } else {
        assert Contains(TwoRanges()[1], v);
      }
    }
  }

  /** Inserting `[10, 19]` and then `[30, 39]` into an empty tree builds it. */
  lemma BuildTwoRanges()
    ensures Insert([], 10, 19) == Outcome(ItOk, [ITRange(10, 19)])
    ensures Insert([ITRange(10, 19)], 30, 39) == Outcome(ItOk, TwoRanges())
  {
    var r1 := Insert([], 10, 19);
    assert Contains(ITRange(10, 19), 10);
    Canonical(r1.tree, [ITRange(10, 19)]);
    assert Valid([ITRange(10, 19)]);
    var r2 := Insert([ITRange(10, 19)], 30, 39);
    assert Covers([ITRange(10, 19)], 15) && !Covers([ITRange(10, 19)], 30);
    TwoRangesValid();
    Canonical(r2.tree, TwoRanges());
  }

  /**
    test_interval_tree_common, insertion and search (lines 49-69): inserting
    `[10, 19]` and `[30, 39]` succeeds; `[15, 19]` and `[0, 99]` are
    rejected with `IT_ERR_OVERLAP`, leaving the tree as it was; find of
    `[0, 9]` is NULL; `[10, 19]`, the value 15 and the query `[15, 99]` find
    `[10, 19]`, and the value 35 finds `[30, 39]`.
   */
  lemma CommonInsertAndFind()
    ensures Insert([], 10, 19).code == ItOk
    ensures Insert(Insert([], 10, 19).tree, 30, 39) == Outcome(ItOk, TwoRanges())
    ensures Insert(TwoRanges(), 15, 19) == Outcome(ItErrOverlap, TwoRanges())
    ensures Insert(TwoRanges(), 0, 99) == Outcome(ItErrOverlap, TwoRanges())
    ensures Find(TwoRanges(), 0, 9) == None
    ensures Find(TwoRanges(), 10, 19) == Some(ITRange(10, 19))
    ensures FindValue(TwoRanges(), 15) == Some(ITRange(10, 19))
    ensures Find(TwoRanges(), 15, 99) == Some(ITRange(10, 19))
    ensures FindValue(TwoRanges(), 35) == Some(ITRange(30, 39))
  {
    BuildTwoRanges();
    TwoRangesValid();
    assert Covers(TwoRanges(), 15);
    var a := Insert(TwoRanges(), 15, 19);
    var b := Insert(TwoRanges(), 0, 99);
  }

  /**
    Both stored ranges overlap the query `[15, 99]`: the header promises
    only that one of them is found, and `[10, 19]`, the answer the test
    expects, is one the contract allows.
   */
  lemma FindMayAnswerEitherOverlap()
    ensures ITRange(10, 19) in TwoRanges() && Compare(ITRange(15, 99), ITRange(10, 19)) == 0
    ensures ITRange(30, 39) in TwoRanges() && Compare(ITRange(15, 99), ITRange(30, 39)) == 0
  {
  }

  /**
    The test's iterator answers false for every range, so the walk never
    stops early; the ranges it records are what Foreach returns.
   */
  function NeverStop(start: ITValue, end: ITValue): bool {
    false
  }

  /**
    test_interval_tree_common, iteration (lines 25-39, 71-74): foreach hands
    the iterator `[10, 19]` and then `[30, 39]`, in ascending order.
   */
  lemma CommonForeach()
    ensures Foreach(TwoRanges(), NeverStop) == [ITRange(10, 19), ITRange(30, 39)]
  {
    ForeachVisitsAll(TwoRanges(), NeverStop);
  }

  /**
    test_interval_tree_common, removal (lines 76-80): removing `[10, 19]`
    answers `IT_OK`; `[10, 19]` is then not found, `[30, 39]` still is.
   */
  method CommonRemove() returns (code: int, t: Tree)
    ensures code == ItOk
    ensures Find(t, 10, 19) == None
    ensures Find(t, 30, 39) == Some(ITRange(30, 39))
  {
    TwoRangesValid();
    code, t := Remove(TwoRanges(), 10, 19);
    assert Contains(ITRange(30, 39), 30) && Covers(TwoRanges(), 30);
    assert Valid([ITRange(30, 39)]);
    Canonical(t, [ITRange(30, 39)]);
  }

  /**
    test_interval_tree_merging, left side (lines 98-102): `[40, 59]` is
    absorbed by `[30, 39]`, which lies on its left, giving `[30, 59]`.
   */
  lemma MergeLeft()
    ensures Insert(TwoRanges(), 40, 59) == Outcome(ItOk, [ITRange(10, 19), ITRange(30, 59)])
    ensures Find([ITRange(10, 19), ITRange(30, 59)], 30, 39) == Some(ITRange(30, 59))
  {
    TwoRangesValid();
    var s1 := [ITRange(10, 19), ITRange(30, 59)];
    assert s1[1..] == [ITRange(30, 59)];
    assert Valid(s1);
    var r1 := Insert(TwoRanges(), 40, 59);
    assert !Covers(TwoRanges(), 45);
    forall v
      ensures Covers(r1.tree, v) <==> Covers(s1, v)
    {
      if 10 <= v <= 19 {
        assert Contains(s1[0], v);
      } else if 30 <= v <= 59 {
        assert Contains(s1[1], v);
      }
    }
    Canonical(r1.tree, s1);
  }

  /**
    test_interval_tree_merging, right side (lines 104-108): `[0, 9]` is
    absorbed by `[10, 19]`, which lies on its right, giving `[0, 19]`.
   */
  lemma MergeRight()
    ensures Insert([ITRange(10, 19), ITRange(30, 59)], 0, 9) == Outcome(ItOk, [ITRange(0, 19), ITRange(30, 59)])
    ensures Find([ITRange(0, 19), ITRange(30, 59)], 10, 19) == Some(ITRange(0, 19))
  {
    var s1 := [ITRange(10, 19), ITRange(30, 59)];
    var s2 := [ITRange(0, 19), ITRange(30, 59)];
    assert s1[1..] == [ITRange(30, 59)];
    assert s2[1..] == [ITRange(30, 59)];
    assert Valid(s1) && Valid(s2);
    var r2 := Insert(s1, 0, 9);
    assert !Covers(s1, 5);
    forall v
      ensures Covers(r2.tree, v) <==> Covers(s2, v)
    {
      if 0 <= v <= 19 {
        assert Contains(s2[0], v);
        if 10 <= v {
          assert Contains(s1[0], v);
        }
      } else if 30 <= v <= 59 {
        assert Contains(s1[1], v) && Contains(s2[1], v);
      }
    }
    Canonical(r2.tree, s2);
  }

  /**
    test_interval_tree_merging, both sides (lines 110-118): `[20, 29]`
    joins `[0, 19]` and `[30, 59]` into the single range `[0, 59]`, which
    the queries `[20, 29]`, `[0, 29]` and `[40, 45]` all find.
   */
  lemma MergeBoth()
    ensures Insert([ITRange(0, 19), ITRange(30, 59)], 20, 29) == Outcome(ItOk, [ITRange(0, 59)])
    ensures Find([ITRange(0, 59)], 20, 29) == Some(ITRange(0, 59))
    ensures Find([ITRange(0, 59)], 0, 29) == Some(ITRange(0, 59))
    ensures Find([ITRange(0, 59)], 40, 45) == Some(ITRange(0, 59))
  {
    JoinBoth();
  }

  /** The insert of `[20, 29]` between `[0, 19]` and `[30, 59]`. */
  lemma JoinBoth()
    ensures Insert([ITRange(0, 19), ITRange(30, 59)], 20, 29) == Outcome(ItOk, [ITRange(0, 59)])
  {
    var s2 := [ITRange(0, 19), ITRange(30, 59)];
    var s3 := [ITRange(0, 59)];
    assert s2[1..] == [ITRange(30, 59)];
    assert Valid(s2) && Valid(s3);
    var r3 := Insert(s2, 20, 29);
    assert !Covers(s2, 25);
    forall v
      ensures Covers(r3.tree, v) <==> Covers(s3, v)
    {
      if 0 <= v <= 19 {
        assert Contains(s2[0], v);
      } else if 30 <= v <= 59 {
        assert Contains(s2[1], v);
      }
      if 0 <= v <= 59 {
        assert Contains(s3[0], v);
      }
    }
    Canonical(r3.tree, s3);
  }

  /** The tree of test_interval_tree_removal after the left trim. */
  function LeftTrimmed(): Tree {
    [ITRange(15, 19), ITRange(30, 39)]
  }

  lemma LeftTrimmedValid()
    ensures Valid(LeftTrimmed())
    ensures forall v :: Covers(LeftTrimmed(), v) <==> 15 <= v <= 19 || 30 <= v <= 39
  {
    assert LeftTrimmed()[1..] == [ITRange(30, 39)];
    forall v | 15 <= v <= 19 || 30 <= v <= 39
      ensures Covers(LeftTrimmed(), v)
    {
      if v <= 19 {
        assert Contains(LeftTrimmed()[0], v);
      } else {
        assert Contains(LeftTrimmed()[1], v);
      }
    }
  }

  /** A valid tree storing the values of the two ranges minus `[0, 14]` is the left-trimmed one. */
  lemma PinLeftTrim(t: Tree)
    requires Valid(t)
    requires forall v :: Covers(t, v) <==> Covers(TwoRanges(), v) && !(0 <= v <= 14)
    ensures t == LeftTrimmed()
    ensures Find(t, 10, 19) == Some(ITRange(15, 19))
  {
    TwoRangesValid();
    LeftTrimmedValid();
    Canonical(t, LeftTrimmed());
  }

  /**
    After removing `[35, 45]` from the left-trimmed tree, `[30, 39]` is
    trimmed to `[30, 34]`, and re-inserting `[35, 39]` restores it.
   */
  lemma PinRightTrim(t: Tree)
    requires Valid(t)
    requires forall v :: Covers(t, v) <==> Covers(LeftTrimmed(), v) && !(35 <= v <= 45)
    ensures t == [ITRange(15, 19), ITRange(30, 34)]
    ensures Find(t, 30, 39) == Some(ITRange(30, 34))
    ensures Insert(t, 35, 39) == Outcome(ItOk, LeftTrimmed())
  {
    LeftTrimmedValid();
    var rt := [ITRange(15, 19), ITRange(30, 34)];
    assert rt[1..] == [ITRange(30, 34)];
    assert Valid(rt);
    forall v
      ensures Covers(t, v) <==> Covers(rt, v)
    {
      if 15 <= v <= 19 {
        assert Contains(rt[0], v);
      } else if 30 <= v <= 34 {
        assert Contains(rt[1], v);
      }
    }
    Canonical(t, rt);
    var back := Insert(rt, 35, 39);
    assert !Covers(rt, 35);
    forall v
      ensures Covers(back.tree, v) <==> Covers(LeftTrimmed(), v)
    {
      if 15 <= v <= 19 {
        assert Contains(rt[0], v);
      } else if 30 <= v <= 34 {
        assert Contains(rt[1], v);
      }
    }
    Canonical(back.tree, LeftTrimmed());
  }

  /** Removing `[12, 16]` from the two ranges splits `[10, 19]` into `[10, 11]` and `[17, 19]`. */
  lemma PinMiddle(t: Tree)
    requires Valid(t)
    requires forall v :: Covers(t, v) <==> Covers(TwoRanges(), v) && !(12 <= v <= 16)
    ensures t == [ITRange(10, 11), ITRange(17, 19), ITRange(30, 39)]
    ensures FindValue(t, 10) == Some(ITRange(10, 11))
    ensures FindValue(t, 17) == Some(ITRange(17, 19))
  {
    TwoRangesValid();
    var m := [ITRange(10, 11), ITRange(17, 19), ITRange(30, 39)];
    assert m[1..] == [ITRange(17, 19), ITRange(30, 39)];
    assert m[1..][1..] == [ITRange(30, 39)];
    assert Valid(m);
    forall v
      ensures Covers(t, v) <==> Covers(m, v)
    {
      if 10 <= v <= 11 {
        assert Contains(m[0], v);
      } else if 17 <= v <= 19 {
        assert Contains(m[1], v);
      } else if 30 <= v <= 39 {
        assert Contains(m[2], v);
      }
    }
    Canonical(t, m);
    assert Contains(m[0], 10) && Contains(m[1], 17);
  }

  /**
    test_interval_tree_removal, lines 131-148: removing the gaps `[0, 9]`,
    `[50, 99]` and `[20, 29]` answers `IT_OK` and leaves both ranges stored.
   */
  method RemoveGaps() returns (code1: int, code2: int, code3: int, gaps: Tree)
    ensures code1 == ItOk && code2 == ItOk && code3 == ItOk
    ensures gaps == TwoRanges()
    ensures Find(gaps, 10, 19).Some? && Find(gaps, 30, 39).Some?
  {
    TwoRangesValid();
    code1, gaps := Remove(TwoRanges(), 0, 9);
    code2, gaps := Remove(gaps, 50, 99);
    code3, gaps := Remove(gaps, 20, 29);
    Canonical(gaps, TwoRanges());
  }

  /**
    test_interval_tree_removal, lines 150-162: both removes answer `IT_OK`.
    Removing `[0, 14]` trims `[10, 19]` to `[15, 19]`; the test's re-insert of `[10, 15]` overlaps
    `[15, 19]` and is rejected, so the tree stays trimmed; removing
    `[35, 45]` trims `[30, 39]` to `[30, 34]`; re-inserting `[35, 39]`
    merges back into `[30, 39]`.
   */
  method RemoveSubranges() returns (leftCode: int, leftTrim: Tree, restore: Outcome,
                                    rightCode: int, rightTrim: Tree, back: Outcome)
    ensures leftCode == ItOk && rightCode == ItOk
    ensures Find(leftTrim, 10, 19) == Some(ITRange(15, 19))
    ensures restore == Outcome(ItErrOverlap, LeftTrimmed())
    ensures Find(rightTrim, 30, 39) == Some(ITRange(30, 34))
    ensures back == Outcome(ItOk, LeftTrimmed())
  {
    TwoRangesValid();
    leftCode, leftTrim := Remove(TwoRanges(), 0, 14);
    PinLeftTrim(leftTrim);
    restore := Insert(leftTrim, 10, 15);
    LeftTrimmedValid();
    assert Covers(leftTrim, 15);
    rightCode, rightTrim := Remove(restore.tree, 35, 45);
    PinRightTrim(rightTrim);
    back := Insert(rightTrim, 35, 39);
  }

  /**
    test_interval_tree_removal, lines 164-178: both removes answer `IT_OK`.
    Removing `[0, 40]` deletes both ranges; after re-inserting `[10, 19]` and `[30, 39]`, removing
    `[12, 16]` splits `[10, 19]` into `[10, 11]` and `[17, 19]`.
   */
  method RemoveSpanningAndMiddle() returns (spanCode: int, spanned: Tree, middleCode: int, middle: Tree)
    ensures spanCode == ItOk && middleCode == ItOk
    ensures Find(spanned, 10, 19) == None && Find(spanned, 30, 39) == None
    ensures FindValue(middle, 10) == Some(ITRange(10, 11))
    ensures FindValue(middle, 17) == Some(ITRange(17, 19))
  {
    LeftTrimmedValid();
    spanCode, spanned := Remove(LeftTrimmed(), 0, 40);
    Canonical(spanned, []);
    BuildTwoRanges();
    var again := Insert(spanned, 10, 19);
    var both := Insert(again.tree, 30, 39);
    middleCode, middle := Remove(both.tree, 12, 16);
    PinMiddle(middle);
  }

  /**
    The re-insert the removal test evidently meant after the left trim:
    `[10, 14]` does not overlap `[15, 19]`, merges with it, and restores the
    two original ranges.
   */
  lemma RestoreLeftTrim()
    ensures Insert(LeftTrimmed(), 10, 14) == Outcome(ItOk, TwoRanges())
  {
    LeftTrimmedValid();
    TwoRangesValid();
    var r := Insert(LeftTrimmed(), 10, 14);
    assert !Covers(LeftTrimmed(), 12);
    Canonical(r.tree, TwoRanges());
  }
}
