/** One frame of the render loop: walk the segments in order, stage each one's
    pixel across its range, and flush after every segment. */
module Render {
  import opened Pixels
  import opened Sink
  import opened Layout

  /** The `set_pixel` calls that stage `p` at the `n` indices from `start` on. */
  function SegmentWrites(start: nat, n: nat, p: Pixel): seq<Event>
  {
    seq(n, j requires 0 <= j < n => Write(start + j, p))
  }

  /** The calls a tick makes into a sink whose buffer held `buf` when the tick began:
      for each segment in turn, its writes and then one flush of the buffer so far. */
  function TickEvents(buf: seq<Pixel>, segs: seq<Segment>, now: U32, colorAt: ColorAt): seq<Event>
    decreases |segs|
  {
    if segs == [] then []
    else
      var init := segs[..|segs| - 1];
      var last := segs[|segs| - 1];
      TickEvents(buf, init, now, colorAt)
      + SegmentWrites(TotalLength(init), last.length, SegmentPixel(colorAt(last, now)))
      + [Transmit(Paint(buf, segs, now, colorAt))]
  }

  /** The frame-composition step of one tick: for every segment, compute its colour once,
      stage it over `[led_start, led_start + length)`, advance `led_start`, and flush. */
  method RenderSegments(apa: Apa, segs: seq<Segment>, now: U32, colorAt: ColorAt)
    modifies apa, apa.buffer
    ensures apa.buffer[..] == Paint(old(apa.buffer[..]), segs, now, colorAt)
    ensures apa.log == old(apa.log) + TickEvents(old(apa.buffer[..]), segs, now, colorAt)
  {
    ghost var buf0 := apa.buffer[..];
    ghost var log0 := apa.log;
    var ledStart := 0;
    for k := 0 to |segs|
      invariant ledStart == Offset(segs, k)
      invariant apa.buffer[..] == Paint(buf0, segs[..k], now, colorAt)
      invariant apa.log == log0 + TickEvents(buf0, segs[..k], now, colorAt)
    {
      var seg := segs[k];
      var color := colorAt(seg, now);
      var segmentColor := SegmentPixel(color);
      ghost var painted := apa.buffer[..];
      ghost var logged := apa.log;
      for i := ledStart to ledStart + seg.length
        invariant apa.buffer[..] == Fill(painted, ledStart, i - ledStart, segmentColor)
        invariant apa.log == logged + SegmentWrites(ledStart, i - ledStart, segmentColor)
      {
        apa.SetPixel(i, segmentColor);
        assert SegmentWrites(ledStart, i + 1 - ledStart, segmentColor)
            == SegmentWrites(ledStart, i - ledStart, segmentColor) + [Write(i, segmentColor)];
      }
      OffsetStep(segs, k);
      ledStart := ledStart + seg.length;
      assert segs[..k + 1][..k] == segs[..k];
      PaintStep(buf0, segs[..k + 1], now, colorAt);
      apa.Flush();
    }
    assert segs[..|segs|] == segs;
  }

  /** The `set_pixel` calls of a trace, in order. */
  function Writes(events: seq<Event>): seq<Event>
  {
    if events == [] then []
    else (if events[0].Write? then [events[0]] else []) + Writes(events[1..])
  }

  /** The frames a trace flushes, in order. */
  function Frames(events: seq<Event>): seq<seq<Pixel>>
  {
    if events == [] then []
    else (if events[0].Transmit? then [events[0].frame] else []) + Frames(events[1..])
  }

  lemma {:induction false} WritesAppend(a: seq<Event>, b: seq<Event>)
    ensures Writes(a + b) == Writes(a) + Writes(b)
  {
    if a != [] {
      assert (a + b)[0] == a[0];
      assert (a + b)[1..] == a[1..] + b;
      WritesAppend(a[1..], b);
    } else {
      assert a + b == b;
    }
  }

  lemma {:induction false} FramesAppend(a: seq<Event>, b: seq<Event>)
    ensures Frames(a + b) == Frames(a) + Frames(b)
  {
    if a != [] {
      assert (a + b)[0] == a[0];
      assert (a + b)[1..] == a[1..] + b;
      FramesAppend(a[1..], b);
    } else {
      assert a + b == b;
    }
  }

  lemma {:induction false} SegmentWritesOnly(start: nat, n: nat, p: Pixel)
    ensures Writes(SegmentWrites(start, n, p)) == SegmentWrites(start, n, p)
    ensures Frames(SegmentWrites(start, n, p)) == []
    decreases n
  {
    if n > 0 {
      assert SegmentWrites(start, n, p)[1..] == SegmentWrites(start + 1, n - 1, p);
      SegmentWritesOnly(start + 1, n - 1, p);
    }
  }

  /** A tick stages the indices `0, 1, ..., TotalLength(segs) - 1` exactly once each and in
      that order, each with the pixel of the segment whose range holds it: the ranges tile
      a prefix of the strip contiguously, in iteration order, and nothing past it is written. */
  lemma {:induction false} TickWritesInOrder(buf: seq<Pixel>, segs: seq<Segment>, now: U32, colorAt: ColorAt)
    ensures |Writes(TickEvents(buf, segs, now, colorAt))| == TotalLength(segs)
    ensures forall i :: 0 <= i < TotalLength(segs) ==>
              Writes(TickEvents(buf, segs, now, colorAt))[i] == Write(i, PixelFor(segs, now, colorAt, i))
    decreases |segs|
  {
    if segs != [] {
      var init := segs[..|segs| - 1];
      var last := segs[|segs| - 1];
      var p := SegmentPixel(colorAt(last, now));
      var head := TickEvents(buf, init, now, colorAt);
      var body := SegmentWrites(TotalLength(init), last.length, p);
      var flush := [Transmit(Paint(buf, segs, now, colorAt))];
      TickWritesInOrder(buf, init, now, colorAt);
      WritesAppend(head + body, flush);
      WritesAppend(head, body);
      SegmentWritesOnly(TotalLength(init), last.length, p);
      assert Writes(flush) == [];
      var w := Writes(TickEvents(buf, segs, now, colorAt));
      assert w == Writes(head) + body;
      forall i | 0 <= i < TotalLength(segs)
        ensures w[i] == Write(i, PixelFor(segs, now, colorAt, i))
      {
        if i < TotalLength(init) {
          var k := SegmentIndex(init, i);
          assert init[k] == segs[k];
        }
      }
    }
  }

  /** A tick flushes once per segment, and the flush after segment `k` transmits the
      buffer with segments `0..k` painted at `now`; the rest of the strip is as the tick
      found it. */
  lemma {:induction false} TickFrames(buf: seq<Pixel>, segs: seq<Segment>, now: U32, colorAt: ColorAt)
    ensures |Frames(TickEvents(buf, segs, now, colorAt))| == |segs|
    ensures forall k :: 0 <= k < |segs| ==>
              Frames(TickEvents(buf, segs, now, colorAt))[k] == Paint(buf, segs[..k + 1], now, colorAt)
    decreases |segs|
  {
    if segs != [] {
      var init := segs[..|segs| - 1];
      var last := segs[|segs| - 1];
      var p := SegmentPixel(colorAt(last, now));
      var head := TickEvents(buf, init, now, colorAt);
      var body := SegmentWrites(TotalLength(init), last.length, p);
      var flush := [Transmit(Paint(buf, segs, now, colorAt))];
      TickFrames(buf, init, now, colorAt);
      FramesAppend(head + body, flush);
      FramesAppend(head, body);
      SegmentWritesOnly(TotalLength(init), last.length, p);
      assert Frames(flush) == [Paint(buf, segs, now, colorAt)];
      var f := Frames(TickEvents(buf, segs, now, colorAt));
      assert f == Frames(head) + [Paint(buf, segs, now, colorAt)];
      forall k | 0 <= k < |segs|
        ensures f[k] == Paint(buf, segs[..k + 1], now, colorAt)
      {
        if k < |init| {
          assert init[..k + 1] == segs[..k + 1];
        } else {
          assert segs[..k + 1] == segs;
        }
      }
    }
  }

  /** Every pixel a tick stages carries brightness 40, whatever its segment. */
  lemma TickBrightness(buf: seq<Pixel>, segs: seq<Segment>, now: U32, colorAt: ColorAt)
    ensures forall e :: e in Writes(TickEvents(buf, segs, now, colorAt)) ==> e.Write? && e.pixel.brightness == 40
  {
    TickWritesInOrder(buf, segs, now, colorAt);
  }

  /** No index at or past the total length is staged during a tick, and no index is staged
      twice, so nothing one segment writes is overwritten by another in the same tick. */
  lemma TickWritesDisjoint(buf: seq<Pixel>, segs: seq<Segment>, now: U32, colorAt: ColorAt)
    ensures forall e :: e in Writes(TickEvents(buf, segs, now, colorAt)) ==> e.Write? && e.index < TotalLength(segs)
    ensures var w := Writes(TickEvents(buf, segs, now, colorAt));
            forall m, n :: 0 <= m < n < |w| ==> w[m].index < w[n].index
  {
    TickWritesInOrder(buf, segs, now, colorAt);
  }

  /** Two segments of lengths 2 and 3 are staged over `[0, 2)` and `[2, 5)`, in that order,
      each with its own colour. */
  lemma TwoSegmentLayout(a: Segment, b: Segment, buf: seq<Pixel>, now: U32, colorAt: ColorAt)
    requires a.length == 2 && b.length == 3
    ensures Offset([a, b], 1) == 2 && TotalLength([a, b]) == 5
    ensures |Writes(TickEvents(buf, [a, b], now, colorAt))| == 5
    ensures forall i :: 0 <= i < 5 ==>
              Writes(TickEvents(buf, [a, b], now, colorAt))[i]
              == Write(i, SegmentPixel(colorAt(if i < 2 then a else b, now)))
  {
    var segs := [a, b];
    assert segs[..1] == [a];
    assert segs[..2] == segs;
    OffsetStep(segs, 1);
    TickWritesInOrder(buf, segs, now, colorAt);
    forall i | 0 <= i < 5
      ensures PixelFor(segs, now, colorAt, i) == SegmentPixel(colorAt(if i < 2 then a else b, now))
    {
      SegmentUniform(segs, now, colorAt, if i < 2 then 0 else 1, i);
    }
  }
}
