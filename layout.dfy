/** Where the segments lie on the strip: each segment occupies the pixel range
    that follows the previous segment's, starting at index 0. */
module Layout {
  import opened Pixels

  /** The sum of the segment lengths. */
  function TotalLength(segs: seq<Segment>): nat
    decreases |segs|
  {
    if segs == [] then 0 else TotalLength(segs[..|segs| - 1]) + segs[|segs| - 1].length
  }

  /** The first pixel of segment `k` (the value of `led_start` when the walk reaches it);
      `Offset(segs, |segs|)` is where the walk ends. */
  function Offset(segs: seq<Segment>, k: nat): nat
    requires k <= |segs|
  {
    TotalLength(segs[..k])
  }

  /** Moving past segment `k` advances the offset by its length. */
  lemma OffsetStep(segs: seq<Segment>, k: nat)
    requires k < |segs|
    ensures Offset(segs, k + 1) == Offset(segs, k) + segs[k].length
  {
    assert segs[..k + 1][..k] == segs[..k];
  }

  /** The walk ends at the total length. */
  lemma OffsetEnd(segs: seq<Segment>)
    ensures Offset(segs, |segs|) == TotalLength(segs)
  {
    assert segs[..|segs|] == segs;
  }

  /** Segment ranges are laid out in order and never overlap: segment `j`
      ends at or before the start of every later segment `k`. */
  lemma {:induction false} SegmentRangesOrdered(segs: seq<Segment>, j: nat, k: nat)
    requires j < k <= |segs|
    ensures Offset(segs, j) + segs[j].length <= Offset(segs, k)
    decreases k
  {
    OffsetStep(segs, k - 1);
    if j < k - 1 {
      SegmentRangesOrdered(segs, j, k - 1);
    }
  }

  /** Every segment's range lies inside `[0, TotalLength(segs))`. */
  lemma SegmentWithinTotal(segs: seq<Segment>, k: nat)
    requires k < |segs|
    ensures Offset(segs, k) + segs[k].length <= TotalLength(segs)
  {
    SegmentRangesOrdered(segs, k, |segs|);
    OffsetEnd(segs);
  }

  /** The segment whose range holds pixel `i`. */
  function SegmentIndex(segs: seq<Segment>, i: nat): (k: nat)
    requires i < TotalLength(segs)
    ensures k < |segs|
    ensures Offset(segs, k) <= i < Offset(segs, k) + segs[k].length
    decreases |segs|
  {
    var init := segs[..|segs| - 1];
    if i >= TotalLength(init) then
      assert segs[..|segs| - 1] == init;
      |segs| - 1
    else
      var k := SegmentIndex(init, i);
      assert segs[..k] == init[..k];
      k
  }

  /** Only one segment holds a given pixel. */
  lemma SegmentIndexUnique(segs: seq<Segment>, i: nat, k: nat)
    requires k < |segs|
    requires Offset(segs, k) <= i < Offset(segs, k) + segs[k].length
    ensures i < TotalLength(segs)
    ensures SegmentIndex(segs, i) == k
  {
    SegmentWithinTotal(segs, k);
    var m := SegmentIndex(segs, i);
    if m < k {
      SegmentRangesOrdered(segs, m, k);
    } else if k < m {
      SegmentRangesOrdered(segs, k, m);
    }
  }

  /** The pixel a tick stages at index `i` of the segments' combined range. */
  function PixelFor(segs: seq<Segment>, now: U32, colorAt: ColorAt, i: nat): Pixel
    requires i < TotalLength(segs)
  {
    SegmentPixel(colorAt(segs[SegmentIndex(segs, i)], now))
  }

  /** Every pixel of segment `k` gets the same value: its colour at `now`, at brightness 40. */
  lemma SegmentUniform(segs: seq<Segment>, now: U32, colorAt: ColorAt, k: nat, i: nat)
    requires k < |segs|
    requires Offset(segs, k) <= i < Offset(segs, k) + segs[k].length
    ensures i < TotalLength(segs)
    ensures PixelFor(segs, now, colorAt, i) == SegmentPixel(colorAt(segs[k], now))
    ensures PixelFor(segs, now, colorAt, i).brightness == 40
  {
    SegmentIndexUnique(segs, i, k);
  }

  /** The strip buffer `buf` after every segment has been painted at `now`: indices in
      the combined range get their segment's pixel, the rest keep what they held. */
  function Paint(buf: seq<Pixel>, segs: seq<Segment>, now: U32, colorAt: ColorAt): seq<Pixel>
  {
    seq(|buf|, i requires 0 <= i < |buf| =>
      if i < TotalLength(segs) then PixelFor(segs, now, colorAt, i) else buf[i])
  }

  /** `buf` with `p` at the `n` indices from `start` on; indices past the buffer are dropped. */
  function Fill(buf: seq<Pixel>, start: nat, n: nat, p: Pixel): seq<Pixel>
  {
    seq(|buf|, i requires 0 <= i < |buf| => if start <= i < start + n then p else buf[i])
  }

  /** Painting all segments is painting all but the last, then filling the last one's range. */
  lemma PaintStep(buf: seq<Pixel>, segs: seq<Segment>, now: U32, colorAt: ColorAt)
    requires segs != []
    ensures var init := segs[..|segs| - 1];
            var last := segs[|segs| - 1];
            Paint(buf, segs, now, colorAt)
            == Fill(Paint(buf, init, now, colorAt), TotalLength(init), last.length, SegmentPixel(colorAt(last, now)))
  {
    var init := segs[..|segs| - 1];
    forall i | 0 <= i < |buf| && i < TotalLength(init)
      ensures PixelFor(segs, now, colorAt, i) == PixelFor(init, now, colorAt, i)
    {
      var k := SegmentIndex(init, i);
      assert init[k] == segs[k];
    }
  }

  /** A tick redraws the whole combined range, so what an earlier tick painted there is
      replaced, and the rest of the strip keeps what it held before either tick. */
  lemma PaintRedraws(buf: seq<Pixel>, segs: seq<Segment>, t1: U32, t2: U32, colorAt: ColorAt)
    ensures Paint(Paint(buf, segs, t1, colorAt), segs, t2, colorAt) == Paint(buf, segs, t2, colorAt)
  {
  }
}
