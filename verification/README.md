# Interval tree and bitmap primitives, modelled in Dafny

This project models two pieces of QEMU-derived utility code.

The first is the **range interval tree** of `util/interval-tree.c`, with its API in
`include/qemu/interval-tree.h`. The tree is a set of inclusive ranges of
64-bit values kept in a GTree. It is ordered by a comparator that treats
overlapping ranges as "equal". Inserting a range rejects any overlap with
`IT_ERR_OVERLAP` and merges the new range with the stored ranges adjacent to
it. Removing a range trims or splits every stored range it meets.

The second is the **bitmap operations** exercised by `tests/test-bitmap.c`:
- range set and clear;
- the prefix test `bitmap_test`;
- the copies with a source offset and with a destination offset;
- the draining copy `bitmap_copy_and_clear_with_offset_atomic`.

The two test files, `tests/test-iova-tree.c` and `tests/test-bitmap.c`, are
restated as lemmas and methods. Each `g_assert` becomes a postcondition.
So does each checked return code.

Files:

- `ranges.dfy` (module `Ranges`): `ITValue` is an integer in `0 .. 2^64-1`, and
  `ITRange` has inclusive bounds. The module also holds the comparator
  `it_tree_compare`, `it_range_and` and `it_range_cover`.
- `interval_tree.dfy` (module `IntervalTree`):
  - The GTree is modelled as the sequence of its keys in comparator order.
  - The tree invariant `Valid`: ranges are proper, disjoint, and never
    adjacent.
  - The abstraction `Covers(t, v)`: whether value `v` is stored.
  - The operations are find, find-value, insert, remove-subset, remove and
    foreach.
  - `Canonical` shows that a valid tree is determined by the values it
    stores. This is what merging adjacent ranges buys.
- `interval_findings.dfy` (module `IntervalTreeFindings`): the source as
  written where it departs from its evident intent (see Findings).
- `interval_tree_tests.dfy` (module `IntervalTreeTests`): the three tests of
  `tests/test-iova-tree.c`.
- `bitmap.dfy` (module `Bitmaps`): bitmaps as `seq<bool>`, bit 0 first.
- `bitmap_tests.dfy` (module `BitmapTests`): the two tests of
  `tests/test-bitmap.c`.

Modelling choices:

- GTree lookup answers "some stored range comparing equal to the key". The
  model picks the lowest one. Which overlapping node GTree returns depends
  on the tree's balance, so the operations' contracts and proofs use only
  the weaker promise. One test postcondition relies on the lowest answer:
  `IntervalTreeTests.CommonInsertAndFind` states that the query `[15, 99]`
  finds `[10, 19]`, although `[30, 39]` overlaps it too. That matches GTree
  here. The tree was built by inserting `[10, 19]` and then `[30, 39]`, so
  `[10, 19]` is the root, and `g_tree_lookup` answers the first node on its
  search path that compares equal, which is the root.
- Insert and remove are stated over valid trees. These are the only trees
  that the corrected insert and remove produce, starting from an empty tree.
  The source as written can break the invariant, at the ends of the value
  range and with an inverted remove (see Findings). Insert also requires
  `start <= end`, which the source asserts.
- Remove is a method that keeps the source's `while` loop. Its termination
  measure is the number of stored ranges that overlap the query.
- In `tests/test-bitmap.c`, the comments "100-245", "60-205" and "135-280"
  name one bit past each set range. The asserts they annotate check
  100..244, 60..204 and 135..279, and the model states the asserts.

## Model

| member | source | states |
|---|---|---|
| `Ranges.Compare` | util/interval-tree.c:25-39 | The comparator answers only -1, 0 or 1. |
| `Ranges.CompareMeansOverlap` | util/interval-tree.c:25-39 | For proper ranges, 0 means the ranges share a value, 1 means r1 lies wholly above r2, and -1 means wholly below. Each holds in both directions. |
| `Ranges.SharedValueCompares` | util/interval-tree.c:25-39 | Two ranges containing a common value compare "equal" in either order. |
| `Ranges.And` | util/interval-tree.c:41-46 | The intersection holds exactly the values common to both ranges. For proper inputs, it is proper exactly when the comparator calls them overlapping. |
| `Ranges.Cover` | util/interval-tree.c:53-57 | For a proper `b`, "a covers b" is exactly inclusion of b's values in a's. |
| `IntervalTree.Lookup` | util/interval-tree.c:69-79 | The answer is a stored range comparing "equal" to the key. None is answered exactly when no stored range does. |
| `IntervalTree.Find` | util/interval-tree.c:69-79 | `it_tree_find` answers, when it answers a range, a stored range comparing "equal" to `[start, end]`, and NULL exactly when no stored range does. `IntervalTree.FindMeansOverlap` restates this as shared values for `start <= end`. |
| `IntervalTree.FindMeansOverlap` | util/interval-tree.c:69-79 | For `start <= end`, find answers a stored range sharing a value with `[start, end]`. It answers NULL exactly when no value of `[start, end]` is stored. |
| `IntervalTree.FindValue` | util/interval-tree.c:81-84 | The answer is non-NULL exactly when v is stored, and it contains v. In a valid tree it is the only stored range containing v. |
| `IntervalTree.Canonical` | include/qemu/interval-tree.h:14-19 | Two valid trees storing the same values are the same tree, because merging leaves one range per maximal run. |
| `IntervalTree.Delete` | util/interval-tree.c:114 | Removing a node leaves exactly the other stored ranges. |
| `IntervalTree.Place` | util/interval-tree.c:86-90 | Inserting a node adds exactly that range to the stored ranges. |
| `IntervalTree.DeleteValid` | util/interval-tree.c:114 | Removing a node keeps the tree valid. |
| `IntervalTree.PlaceValid` | util/interval-tree.c:86-90 | Inserting a proper range at distance at least one from every stored range keeps the tree valid. |
| `IntervalTree.Insert` | util/interval-tree.c:92-130 | The result is IT_OK or IT_ERR_OVERLAP. IT_ERR_OVERLAP comes back exactly when some value of `[start, end]` is already stored, and then the tree is unchanged. On IT_OK the stored values become the old ones plus `[start, end]`. Either way the tree stays valid, so adjacent neighbours were merged. |
| `IntervalTree.MergeInsert` | util/interval-tree.c:92-129 | Whatever the neighbour probes, the result is IT_OK or IT_ERR_OVERLAP. IT_ERR_OVERLAP comes back exactly when some stored range compares "equal" to `[start, end]`, and then the tree is unchanged. With the source's probes, `IntervalTree.InsertCorrect` and `IntervalTree.InsertFresh` state what the merged tree holds. |
| `IntervalTree.InsertCorrect` | util/interval-tree.c:105-108 | The source's merge sequence fails exactly on overlap, leaving the tree as it was, and otherwise meets the insert contract. |
| `IntervalTree.InsertFresh` | util/interval-tree.c:110-129 | With no overlap, absorbing the left and right neighbours and storing the merged range keeps the tree valid. It stores exactly the old values plus `[start, end]`. |
| `IntervalTree.MergeSeparate` | util/interval-tree.c:110-122 | The merged range keeps at least one value of gap from every stored range that was not absorbed. |
| `IntervalTree.MergeCovers` | util/interval-tree.c:110-127 | The tree with the merged range stores the old values plus `[start, end]`. |
| `IntervalTree.RemoveSubsetCorrect` | util/interval-tree.c:149-178 | Splitting a stored range around a proper sub-range keeps the tree valid. It replaces the range by exactly its non-empty left and right pieces and unstores exactly the sub-range's values. |
| `IntervalTree.RemoveSubsetValid` | util/interval-tree.c:155-177 | The split leaves a valid tree. |
| `IntervalTree.RemoveSubsetCovers` | util/interval-tree.c:155-177 | After the split, the tree stores exactly the old values minus the sub-range. |
| `IntervalTree.RemoveSubset` | util/interval-tree.c:150-178 | The result holds the old ranges other than `overlap`. It also holds the left piece `[overlap.start, start - 1]` when `overlap` starts before the sub-range, and the right piece `[end + 1, overlap.end]` when `overlap` ends after it, and nothing else. `IntervalTree.RemoveSubsetCorrect` states that the result is valid and stores the old values minus the sub-range. |
| `IntervalTree.RemovePassShrinks` | util/interval-tree.c:193-198 | A non-covering pass of the removal loop lowers the number of stored ranges overlapping the query, so the loop terminates. |
| `IntervalTree.Remove` | util/interval-tree.c:180-202 | The result is always IT_OK and the tree stays valid. Afterwards no value of `[start, end]` is stored, every other value is stored as before, and every stored range lying wholly outside `[start, end]` survives unchanged. |
| `IntervalTree.Foreach` | util/interval-tree.c:132-147 | The iterator sees a prefix of the stored ranges in ascending order. Every range before the last answered false. The walk stops early only right after a range that answered true. |
| `IntervalTree.ForeachVisitsAll` | include/qemu/interval-tree.h:107-117 | An iterator that never answers true is handed every stored range, in order. |
| `IntervalTreeFindings.Wrap` | include/qemu/interval-tree.h:31 | `unsigned long long` arithmetic: -1 wraps to the maximum, the maximum plus one wraps to 0, and in-range values are unchanged. |
| `IntervalTreeFindings.InsertAtZeroWrapsAround` | util/interval-tree.c:110-116 | As written, inserting `[0, 9]` beside a stored `[100, MAX]` reports IT_OK but stores the inverted `[100, 9]`, which is not valid and holds neither 0 nor MAX. The corrected insert stores both ranges. |
| `IntervalTreeFindings.InsertAtMaxWrapsAround` | util/interval-tree.c:117-122 | As written, inserting `[100, MAX]` beside a stored `[0, 9]` reports IT_OK and stores the inverted `[100, 9]`. |
| `IntervalTreeFindings.InsertAsWritten` | util/interval-tree.c:92-129 | As written, with the wrapping probes, the result is still IT_OK or IT_ERR_OVERLAP. IT_ERR_OVERLAP comes back exactly when some stored range compares "equal" to `[start, end]`, and then the tree is unchanged. `IntervalTreeFindings.InsertAtZeroWrapsAround` and `IntervalTreeFindings.InsertAtMaxWrapsAround` show the inverted ranges its IT_OK path can store. |
| `IntervalTreeFindings.GTreeInsert` | util/interval-tree.c:64 | `g_tree_insert`, with `g_free` as key destructor, adds at most one node. Every resulting node is an old node or carries `value`. When it adds none, some stored key compares "equal" to `key`, and every resulting key is a stored key. When it adds one, the result is exactly the old nodes plus `(key, value)`. |
| `IntervalTreeFindings.GTreeInsertCollision` | util/interval-tree.c:64 | When `g_tree_insert` adds no node, the result is the old tree with exactly one node changed: a node whose key compares "equal" to `key` keeps its key and takes `value`. |
| `IntervalTreeFindings.GTreeInsertAscending` | util/interval-tree.c:64 | On a GTree whose keys are proper and ascending, inserting a proper key adds no node exactly when some stored key compares "equal" to it. |
| `IntervalTreeFindings.GTreeRemove` | util/interval-tree.c:170 | `g_tree_remove` of a stored key leaves exactly the nodes with other keys. |
| `IntervalTreeFindings.RemoveSubsetAsWritten` | util/interval-tree.c:150-178 | As written on GTree nodes, with no check that the sub-range is proper, every resulting node is an old node whose key is not `overlap`, or carries the left or right piece as its value, each only when its guard holds. `IntervalTreeFindings.RemoveInvertedRangeLosesValues` and `IntervalTreeFindings.RemoveAdjacentInvertedRangeSplits` show the broken trees this allows. |
| `IntervalTreeFindings.RemoveInvertedRangeLosesValues` | util/interval-tree.c:180-192 | As written, removing `[15, 12]` from `[10, 19]` finds `[10, 19]` and calls it a cover. The split computes the overlapping pieces `[10, 14]` and `[13, 19]`, and the second collides with the first inside `g_tree_insert`. The result is one node with key `[10, 14]` and the freed value `[13, 19]`. Values 15..19 are lost, and key and value differ, which foreach's check at line 138 rejects. |
| `IntervalTreeFindings.RemoveAdjacentInvertedRangeSplits` | util/interval-tree.c:155-177 | As written, removing `[13, 12]` from `[10, 19]` computes `[10, 12]` and `[13, 19]`. These compare 1, so both are stored with key equal to value and no value is lost, but the two stored ranges are adjacent, which valid trees rule out. |
| `IntervalTreeTests.TwoRangesValid` | tests/test-iova-tree.c:50-53 | The test tree `[10, 19]`, `[30, 39]` is valid and stores exactly 10..19 and 30..39. |
| `IntervalTreeTests.BuildTwoRanges` | tests/test-iova-tree.c:50-53 | Inserting `[10, 19]` and then `[30, 39]` into an empty tree gives exactly those two ranges. |
| `IntervalTreeTests.CommonInsertAndFind` | tests/test-iova-tree.c:49-69 | Both inserts succeed, and `[15, 19]` and `[0, 99]` are rejected with the tree unchanged. `[0, 9]` is not found. `[10, 19]`, the value 15 and `[15, 99]` find `[10, 19]`, and the value 35 finds `[30, 39]`. |
| `IntervalTreeTests.FindMayAnswerEitherOverlap` | tests/test-iova-tree.c:66-67 | Both stored ranges overlap `[15, 99]`, so the `[10, 19]` the test expects is an answer find is allowed to give. |
| `IntervalTreeTests.CommonForeach` | tests/test-iova-tree.c:71-74 | A never-stopping iterator records `[10, 19]` and then `[30, 39]`. |
| `IntervalTreeTests.CommonRemove` | tests/test-iova-tree.c:76-80 | Removing `[10, 19]` answers IT_OK. `[10, 19]` is then not found, and `[30, 39]` still is. |
| `IntervalTreeTests.MergeLeft` | tests/test-iova-tree.c:98-102 | `[40, 59]` merges with its left neighbour into `[30, 59]`, which find of `[30, 39]` returns. |
| `IntervalTreeTests.MergeRight` | tests/test-iova-tree.c:104-108 | `[0, 9]` merges with its right neighbour into `[0, 19]`. |
| `IntervalTreeTests.MergeBoth` | tests/test-iova-tree.c:110-118 | `[20, 29]` joins both neighbours into the single range `[0, 59]`, which all three queries find. |
| `IntervalTreeTests.LeftTrimmedValid` | tests/test-iova-tree.c:150-154 | The tree `[15, 19]`, `[30, 39]` is valid and stores exactly 15..19 and 30..39. |
| `IntervalTreeTests.PinLeftTrim` | tests/test-iova-tree.c:151-154 | Any valid tree storing the test tree's values minus `[0, 14]` is `[15, 19]`, `[30, 39]`, and finding `[10, 19]` in it returns `[15, 19]`. |
| `IntervalTreeTests.PinRightTrim` | tests/test-iova-tree.c:158-162 | Trimming `[35, 45]` leaves `[30, 34]`, and re-inserting `[35, 39]` restores `[30, 39]`. |
| `IntervalTreeTests.PinMiddle` | tests/test-iova-tree.c:173-178 | Removing `[12, 16]` leaves `[10, 11]`, `[17, 19]`, `[30, 39]`. |
| `IntervalTreeTests.RemoveGaps` | tests/test-iova-tree.c:131-148 | Each removal of the gaps `[0, 9]`, `[50, 99]` and `[20, 29]` answers IT_OK, and together they leave the tree unchanged. |
| `IntervalTreeTests.RemoveSubranges` | tests/test-iova-tree.c:150-162 | Both removes answer IT_OK. The left and right trims give `[15, 19]` and `[30, 34]`. The test's re-insert of `[10, 15]` is rejected as overlapping, and `[35, 39]` merges back. |
| `IntervalTreeTests.RemoveSpanningAndMiddle` | tests/test-iova-tree.c:164-178 | Both removes answer IT_OK. Removing `[0, 40]` deletes both ranges. After re-inserting them, removing `[12, 16]` splits `[10, 19]` into `[10, 11]` and `[17, 19]`. |
| `IntervalTreeTests.RestoreLeftTrim` | tests/test-iova-tree.c:155 | Re-inserting `[10, 14]` after the left trim merges and restores the original two ranges. |
| `Bitmaps.BitWord` | tests/test-bitmap.c:25-27 | `BIT_WORD(nr)` is the word holding bit nr. |
| `Bitmaps.FromWord` | tests/test-bitmap.c:25-27 | `bitmap + w` sees bit i at bit `w * BITS_PER_LONG + i` of the original. |
| `Bitmaps.New` | tests/test-bitmap.c:17-20 | `bitmap_new(n)` has n bits, all clear. |
| `Bitmaps.Fill` | tests/test-bitmap.c:22 | The bits of the range take the value, and all others are unchanged. |
| `Bitmaps.Set` | tests/test-bitmap.c:22 | A bit is set afterwards exactly when it was set before or lies in `start .. start+nr-1`. |
| `Bitmaps.Clear` | tests/test-bitmap.c:29 | A bit is set afterwards exactly when it was set before and lies outside `start .. start+nr-1`. |
| `Bitmaps.Test` | tests/test-bitmap.c:20-32 | `bitmap_test(map, n)` is true exactly when one of the first n bits is set. |
| `Bitmaps.CopyBits` | tests/test-bitmap.c:55-58 | n bits from `srcOff` land at `dstOff`, and every other destination bit is unchanged. |
| `Bitmaps.CopyWithSrcOffset` | tests/test-bitmap.c:57 | Destination bit i becomes source bit `shift + i` for i < nbits. Later bits are unchanged. |
| `Bitmaps.CopyWithDstOffset` | tests/test-bitmap.c:55-56 | Destination bit `shift + i` becomes source bit i for i < nbits. Bits outside that window are unchanged. |
| `Bitmaps.CopyAndClearWithOffset` | tests/test-bitmap.c:58 | The destination is filled as by the source-offset copy, every copied source bit becomes 0, and other source bits are unchanged. |
| `Bitmaps.DrainConservesBits` | tests/test-bitmap.c:89-100 | Draining loses no set bit and invents none. Each set source bit either stays set outside the window or moves to its shifted place in the destination. |
| `Bitmaps.DrainTwice` | tests/test-bitmap.c:58 | A second drain of the same window changes no source bit and copies only zeros. |
| `Bitmaps.DstThenSrcOffsetRoundTrip` | tests/test-bitmap.c:55-57 | Copying to destination offset k and reading back from source offset k returns the original bits. |
| `Bitmaps.TwoDstOffsetsRoundTrip` | tests/test-bitmap.c:55-63 | Two destination-offset copies by k1 and k2 compose, so reading back from `k1 + k2` returns the original bits. |
| `Bitmaps.ClearUndoesSet` | tests/test-bitmap.c:22-32 | Clearing a range just set is the same as clearing it alone. |
| `BitmapTests.CheckBitmapTest` | tests/test-bitmap.c:14-35 | Every assert of check_bitmap_test holds of the model. |
| `BitmapTests.CopyRoundTrip` | tests/test-bitmap.c:44-63 | For any four random words, the plain and the draining copy back from offset 200 both reproduce them, and bits below 85 of bmap3 stay clear. |
| `BitmapTests.Window` | tests/test-bitmap.c:65-67 | After clear-all and set(100, 145), exactly bits 100..244 are set. |
| `BitmapTests.ShiftDown` | tests/test-bitmap.c:69-77 | The source-offset copy by 40 sets exactly bits 60..204 of the first 206. |
| `BitmapTests.ShiftUp` | tests/test-bitmap.c:79-87 | The destination-offset copy by 35 sets exactly bits 135..279 of the first 281. |
| `BitmapTests.DrainWindow` | tests/test-bitmap.c:89-100 | The draining copy fills the destination as the plain copy does and leaves the source all clear. |
| `BitmapTests.CopyShifted` | tests/test-bitmap.c:65-100 | Every assert of the second half of check_bitmap_copy_with_offset holds of the model. |

## Left out

- `io/task.c` and `include/sysemu/kvm_int.h` are not part of this model. They are context that does not use the interval tree or the bitmap operations modelled here.
- `it_tree_new` and `it_tree_destroy` are left out: they allocate and free, and the empty sequence stands for a new tree.
- GTree balancing, node allocation and `g_free` are left out. Only the in-order sequence of keys is modelled.
- `it_range_equal` is left out. It is defined but never called.
- The `g_assert(tree)`, `g_assert(iterator)` and `g_assert(key == value)` checks are left out, because the model has no null pointers and stores each range once.
- `IntervalTree.Lookup` states that some overlapping range is returned, not which one. GTree's answer depends on its balance, which is not modelled. The one test postcondition that relies on the model's lowest answer is explained above.
- `IntervalTree.Place` covers only keys that collide with no stored range, which is all that the corrected insert and remove pass it. The colliding case is modelled by `IntervalTreeFindings.GTreeInsert`.
- `IntervalTree.Foreach` does not model the header's "Return:" line for `it_tree_foreach`, because the function returns `void`.
- `IntervalTree.Remove` treats an inverted range as empty and returns at once. The source instead runs its loop; see Findings.
- `IntervalTree.Insert` skips the neighbour probe at 0 and at the maximum value. The source wraps around there; see Findings.
- `Bitmaps.CopyWithSrcOffset` and `Bitmaps.CopyWithDstOffset` leave every bit outside the copied window untouched. `util/bitmap.c`, which holds the word-level implementation, is not part of this model, and a word implementation may rewrite the unused tail of a last partial word.
- `Bitmaps.CopyAndClearWithOffset` is sequential. Its atomic exchange against concurrent writers is not modelled. It also keeps every destination bit past `nbits`, under the same partial-word assumption as `Bitmaps.CopyWithSrcOffset`.
- `BitmapTests.CopyRoundTrip` takes the four random words as a parameter, because `random()` is a source of randomness.
- The word-level `test_bit` and `*(bmap + i)` comparisons are stated bit by bit.

## Findings

| source | as written | input that shows it | evidently intended | confidence | as-written member | corrected member |
|---|---|---|---|---|---|---|
| util/interval-tree.c:110-122 | The neighbour probes `start - 1` and `end + 1` are unsigned, so they wrap to the maximum value at `start == 0` and to 0 at `end == MAX`. | Insert `[0, 9]` into a tree holding `[100, MAX]`. The left probe MAX finds `[100, MAX]`, and the inverted range `[100, 9]` is stored with IT_OK. | Insert has no left neighbour at 0 and no right neighbour at MAX. | not executed | `IntervalTreeFindings.InsertAtZeroWrapsAround` | `IntervalTree.Insert` |
| util/interval-tree.c:180-199 | Remove does not check `start <= end`. An inverted query still compares "equal" to a stored range and is "covered" by it, so the split runs with `range->start > range->end`. When `end + 1 < start`, the two pieces overlap, and `g_tree_insert` replaces the value of the first piece's node with the second and frees the second. When `start == end + 1`, the pieces are adjacent: both are stored, but the tree loses its non-adjacency. | Remove `[15, 12]` from a tree holding `[10, 19]`. The pieces are `[10, 14]` and `[13, 19]`. The tree is left with one node keyed `[10, 14]` whose value is the freed `[13, 19]`. Values 15..19 are lost while remove answers IT_OK. Removing `[13, 12]` instead stores the adjacent `[10, 12]` and `[13, 19]`. | An inverted range holds no value and removes nothing, as insert's `g_assert(start <= end)` suggests. | not executed | `IntervalTreeFindings.RemoveInvertedRangeLosesValues` | `IntervalTree.Remove` |
| tests/test-iova-tree.c:155 | After the left trim, the test restores with `it_tree_insert(tree, 10, 15)` and does not check the result. | `[10, 15]` overlaps the stored `[15, 19]`, so the insert returns IT_ERR_OVERLAP and the tree stays trimmed. | `[10, 14]`, which merges with `[15, 19]` and restores `[10, 19]`. | not executed | `IntervalTreeTests.RemoveSubranges` | `IntervalTreeTests.RestoreLeftTrim` |
