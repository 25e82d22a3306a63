/**
  The bit-array operations whose behaviour tests/test-bitmap.c asserts:
  range set and clear, the prefix test `bitmap_test`, the two shifted
  copies `bitmap_copy_with_src_offset` / `bitmap_copy_with_dst_offset`, and
  the draining copy `bitmap_copy_and_clear_with_offset_atomic`.

  A bitmap is the sequence of its bits, bit 0 first; the word layout
  (`BITS_PER_LONG` bits per `unsigned long`) only matters where a caller
  points into the middle of a bitmap by whole words.
 */
module Bitmaps {

  type Bitmap = seq<bool>

  /** Bits in one `unsigned long` word. */
  const BITS_PER_LONG: nat := 64

  /** `BIT_WORD(nr)`: the word holding bit `nr`. */
  function BitWord(nr: nat): (w: nat)
    ensures w * BITS_PER_LONG <= nr < (w + 1) * BITS_PER_LONG
  {
    nr / BITS_PER_LONG
  }

  /** `bitmap + w`: the bits seen through a pointer `w` words in. */
  function FromWord(b: Bitmap, w: nat): (r: Bitmap)
    requires w * BITS_PER_LONG <= |b|
    ensures |r| == |b| - w * BITS_PER_LONG
    ensures forall i | 0 <= i < |r| :: r[i] == b[w * BITS_PER_LONG + i]
  {
    b[w * BITS_PER_LONG..]
  }

  /** `bitmap_new`: a bitmap of `nbits` bits, none of them set. */
  function New(nbits: nat): (b: Bitmap)
    ensures |b| == nbits
    ensures forall i | 0 <= i < nbits :: !b[i]
  {
    seq(nbits, _ => false)
  }

  /**
    Give the `nr` bits from `start` on the value `value`, one bit at a time,
    leaving every other bit as it was.
   */
  function Fill(b: Bitmap, start: nat, nr: nat, value: bool): (r: Bitmap)
    requires start + nr <= |b|
    ensures |r| == |b|
    ensures forall i | start <= i < start + nr :: r[i] == value
    ensures forall i | 0 <= i < |b| && !(start <= i < start + nr) :: r[i] == b[i]
    decreases nr
  {
    if nr == 0 then b
    else Fill(b, start, nr - 1, value)[start + nr - 1 := value]
  }

  /** `bitmap_set(map, start, nr)`: bits `start .. start + nr - 1` become 1. */
  function Set(b: Bitmap, start: nat, nr: nat): (r: Bitmap)
    requires start + nr <= |b|
    ensures |r| == |b|
    ensures forall i | 0 <= i < |b| :: r[i] <==> b[i] || start <= i < start + nr
  {
    Fill(b, start, nr, true)
  }

  /** `bitmap_clear(map, start, nr)`: bits `start .. start + nr - 1` become 0. */
  function Clear(b: Bitmap, start: nat, nr: nat): (r: Bitmap)
    requires start + nr <= |b|
    ensures |r| == |b|
    ensures forall i | 0 <= i < |b| :: r[i] <==> b[i] && !(start <= i < start + nr)
  {
    Fill(b, start, nr, false)
  }

  /** `bitmap_test(map, nbits)`: whether any of the first `nbits` bits is set. */
  function Test(b: Bitmap, nbits: nat): (r: bool)
    requires nbits <= |b|
    ensures r <==> exists i | 0 <= i < nbits :: b[i]
  {
    nbits > 0 && (b[nbits - 1] || Test(b, nbits - 1))
  }

  /**
    The bit-granular copy both shifted copies reduce to: `n` bits of `src`
    from `srcOff` on land in `dst` from `dstOff` on; the other bits of
    `dst` are left as they were.
   */
  function CopyBits(dst: Bitmap, dstOff: nat, src: Bitmap, srcOff: nat, n: nat): (r: Bitmap)
    requires dstOff + n <= |dst| && srcOff + n <= |src|
    ensures |r| == |dst|
    ensures forall i | dstOff <= i < dstOff + n :: r[i] == src[srcOff + (i - dstOff)]
    ensures forall i | 0 <= i < |dst| && !(dstOff <= i < dstOff + n) :: r[i] == dst[i]
    decreases n
  {
    if n == 0 then dst
    else CopyBits(dst, dstOff, src, srcOff, n - 1)[dstOff + n - 1 := src[srcOff + n - 1]]
  }

  /**
    `bitmap_copy_with_src_offset(dst, src, shift, nbits)`: bit `i` of `dst`
    becomes bit `shift + i` of `src`, for every `i < nbits`.
   */
  function CopyWithSrcOffset(dst: Bitmap, src: Bitmap, shift: nat, nbits: nat): (r: Bitmap)
    requires nbits <= |dst| && shift + nbits <= |src|
    ensures |r| == |dst|
    ensures forall i | 0 <= i < nbits :: r[i] == src[shift + i]
    ensures forall i | nbits <= i < |dst| :: r[i] == dst[i]
  {
    CopyBits(dst, 0, src, shift, nbits)
  }

  /**
    `bitmap_copy_with_dst_offset(dst, src, shift, nbits)`: bit `shift + i`
    of `dst` becomes bit `i` of `src`, for every `i < nbits`.
   */
  function CopyWithDstOffset(dst: Bitmap, src: Bitmap, shift: nat, nbits: nat): (r: Bitmap)
    requires shift + nbits <= |dst| && nbits <= |src|
    ensures |r| == |dst|
    ensures forall i | 0 <= i < nbits :: r[shift + i] == src[i]
    ensures forall i | 0 <= i < |dst| && !(shift <= i < shift + nbits) :: r[i] == dst[i]
  {
    CopyBits(dst, shift, src, 0, nbits)
  }

  /** Both bitmaps a draining copy leaves behind. */
  datatype Drained = Drained(dst: Bitmap, src: Bitmap)

  /**
    `bitmap_copy_and_clear_with_offset_atomic(dst, src, shift, nbits)`,
    sequentially: `dst` is filled as by the source-offset copy, and every
    source bit that was copied is then 0. Other source bits are untouched.
   */
  function CopyAndClearWithOffset(dst: Bitmap, src: Bitmap, shift: nat, nbits: nat): (r: Drained)
    requires nbits <= |dst| && shift + nbits <= |src|
    ensures |r.dst| == |dst| && |r.src| == |src|
    ensures forall i | 0 <= i < nbits :: r.dst[i] == src[shift + i] && !r.src[shift + i]
    ensures forall i | nbits <= i < |dst| :: r.dst[i] == dst[i]
    ensures forall i | 0 <= i < |src| && !(shift <= i < shift + nbits) :: r.src[i] == src[i]
  {
    Drained(CopyWithSrcOffset(dst, src, shift, nbits), Clear(src, shift, nbits))
  }

  /* ---------------------------------------------------------------------
     Properties relating the operations
     --------------------------------------------------------------------- */

  /**
    Draining loses no bit and invents none: every bit set in the source
    beforehand is afterwards either still set in the source (it was not in
    the drained window) or set at its shifted place in `dst`; and every bit
    of the window in `dst` is set only if its source bit was.
   */
  lemma DrainConservesBits(dst: Bitmap, src: Bitmap, shift: nat, nbits: nat)
    requires nbits <= |dst| && shift + nbits <= |src|
    ensures var r := CopyAndClearWithOffset(dst, src, shift, nbits);
            forall i | 0 <= i < |src| && src[i] ::
              (r.src[i] && !(shift <= i < shift + nbits)) ||
              (shift <= i < shift + nbits && !r.src[i] && r.dst[i - shift])
    ensures var r := CopyAndClearWithOffset(dst, src, shift, nbits);
            forall i | 0 <= i < |src| && r.src[i] :: src[i]
  {
    var r := CopyAndClearWithOffset(dst, src, shift, nbits);
    forall i | 0 <= i < |src| && src[i] && shift <= i < shift + nbits
      ensures r.dst[i - shift]
    {
      assert r.dst[i - shift] == src[shift + (i - shift)];
    }
  }

  /**
    Draining the same window twice with no write in between: the second
    pass leaves the source as the first left it and copies only zeros.
   */
  lemma DrainTwice(dst: Bitmap, src: Bitmap, shift: nat, nbits: nat)
    requires nbits <= |dst| && shift + nbits <= |src|
    ensures var first := CopyAndClearWithOffset(dst, src, shift, nbits);
            var second := CopyAndClearWithOffset(first.dst, first.src, shift, nbits);
            second.src == first.src && !Test(second.dst, nbits)
  {
    var first := CopyAndClearWithOffset(dst, src, shift, nbits);
    var second := CopyAndClearWithOffset(first.dst, first.src, shift, nbits);
    assert second.src == first.src;
  }

  /**
    The source-offset copy undoes the destination-offset copy: placing
    `nbits` bits at `shift` and reading them back from `shift` returns them.
   */
  lemma DstThenSrcOffsetRoundTrip(out: Bitmap, dst: Bitmap, src: Bitmap, shift: nat, nbits: nat)
    requires shift + nbits <= |dst| && nbits <= |src| && nbits <= |out|
    ensures CopyWithSrcOffset(out, CopyWithDstOffset(dst, src, shift, nbits), shift, nbits)[..nbits]
              == src[..nbits]
  {
    var mid := CopyWithDstOffset(dst, src, shift, nbits);
    var back := CopyWithSrcOffset(out, mid, shift, nbits);
    forall i | 0 <= i < nbits
      ensures back[i] == src[i]
    {
      assert back[i] == mid[shift + i];
    }
  }

  /**
    Two destination-offset copies compose: copying `n` bits to offset `k1`
    and then the first `k1 + n` bits of the result to offset `k2` puts bit
    `i` of the original at `k1 + k2 + i`; so a source-offset copy from
    `k1 + k2` returns the original bits. This is the round trip of the
    bitmap test with `k1 = 115`, `k2 = 85`.
   */
  lemma TwoDstOffsetsRoundTrip(a: Bitmap, b: Bitmap, c: Bitmap, d: Bitmap, k1: nat, k2: nat, n: nat)
    requires n <= |a| && k1 + n <= |b| && k2 + (k1 + n) <= |c| && n <= |d|
    ensures var b' := CopyWithDstOffset(b, a, k1, n);
            var c' := CopyWithDstOffset(c, b', k2, k1 + n);
            CopyWithSrcOffset(d, c', k1 + k2, n)[..n] == a[..n]
  {
    var b' := CopyWithDstOffset(b, a, k1, n);
    var c' := CopyWithDstOffset(c, b', k2, k1 + n);
    var d' := CopyWithSrcOffset(d, c', k1 + k2, n);
    forall i | 0 <= i < n
      ensures d'[i] == a[i]
    {
      assert d'[i] == c'[k1 + k2 + i];
      assert c'[k2 + (k1 + i)] == b'[k1 + i];
      assert b'[k1 + i] == a[i];
    }
  }

  /** Clearing a range just set leaves it exactly as clearing alone would. */
  lemma ClearUndoesSet(b: Bitmap, start: nat, nr: nat)
    requires start + nr <= |b|
    ensures Clear(Set(b, start, nr), start, nr) == Clear(b, start, nr)
  {
    var x := Clear(Set(b, start, nr), start, nr);
    var y := Clear(b, start, nr);
    forall i | 0 <= i < |b|
      ensures x[i] == y[i]
    {
    }
  }
}
