/** The program's render loop: the built-in segment table, the brightness counter `bn`,
    the millisecond clock `now`, and the endless sequence of ticks (modelled over a finite
    list of clock readings, one per tick). */
module MainLoop {
  import opened Pixels
  import opened Sink
  import opened Layout
  import opened Render

  /** The configured strip length of the sink. */
  const StripLength: nat := 512

  /** The factor every default period is stretched by. */
  const Chill: nat := 16

  /** The four built-in segments, in strip order. */
  function DefaultSegments(): seq<Segment>
  {
    [ Segment(144, false, Srgb8(255, 150, 0), Srgb8(255, 30, 20), 4100 * Chill),
      Segment(60, false, Srgb8(166, 0, 255), Srgb8(2, 192, 192), 6100 * Chill),
      Segment(30, false, Srgb8(20, 200, 141), Srgb8(200, 176, 20), 5400 * Chill),
      Segment(30, false, Srgb8(200, 20, 30), Srgb8(200, 200, 10), 7100 * Chill) ]
  }

  /** The default segments occupy `[0, 144)`, `[144, 204)`, `[204, 234)` and `[234, 264)`,
      which fits the 512-pixel strip; every period is positive and fits a `u32`. */
  lemma DefaultLayout()
    ensures |DefaultSegments()| == 4
    ensures Offset(DefaultSegments(), 0) == 0 && Offset(DefaultSegments(), 1) == 144
    ensures Offset(DefaultSegments(), 2) == 204 && Offset(DefaultSegments(), 3) == 234
    ensures TotalLength(DefaultSegments()) == 264 <= StripLength
    ensures forall s :: s in DefaultSegments() ==> 0 < s.period < 0x1_0000_0000
  {
    var d := DefaultSegments();
    assert d[..0] == [];
    assert d[..1][..0] == [];
    assert d[..2][..1] == d[..1];
    assert d[..3][..2] == d[..2];
    assert d[..4][..3] == d[..3];
    assert d[..4] == d;
  }

  /** `bn = (bn + 1) % 110`: the counter steps up by one and wraps from 109 to 0. The `u8`
      addition must not overflow, so `bn` may not be 255. */
  function NextBn(bn: U8): (r: U8)
    requires bn < 255
    ensures r < 110
    ensures (r - (bn + 1)) % 110 == 0
    ensures bn < 109 ==> r == bn + 1
    ensures bn == 109 ==> r == 0
  {
    (bn + 1) % 110
  }

  /** The value of `bn` after `t` ticks, starting from 1. */
  function BnAfter(t: nat): (r: U8)
    ensures r < 110
  {
    if t == 0 then 1 else NextBn(BnAfter(t - 1))
  }

  /** `bn` counts ticks modulo 110, offset by its start value 1; so `bn + 1` never overflows. */
  lemma {:induction false} BnAfterCounts(t: nat)
    ensures BnAfter(t) == (1 + t) % 110
  {
    if t > 0 {
      BnAfterCounts(t - 1);
      SuccMod(t);
      var b := BnAfter(t - 1);
      if b == 109 {
        assert NextBn(b) == 0;
      } else {
        assert NextBn(b) == b + 1;
      }
    }
  }

  /** Counting modulo 110: the successor of 109 is 0. */
  lemma SuccMod(t: nat)
    ensures (1 + t) % 110 == if t % 110 == 109 then 0 else t % 110 + 1
  {
    var k, r := t / 110, t % 110;
    assert t == 110 * k + r;
    if r == 109 {
      assert 1 + t == 110 * (k + 1);
    } else {
      assert 1 + t == 110 * k + (r + 1);
    }
  }

  /** `dt.as_millis() as u32`: the elapsed milliseconds truncated to 32 bits. */
  function TruncateMillis(ms: nat): (r: U32)
    ensures (ms - r) % 0x1_0000_0000 == 0
    ensures ms < 0x1_0000_0000 ==> r == ms
  {
    ms % 0x1_0000_0000
  }

  /** The value of `now` when tick `t` begins: 0 for the first tick, then the truncated
      clock reading taken at the end of the previous tick. */
  function NowAt(clock: seq<nat>, t: nat): U32
    requires t <= |clock|
  {
    if t == 0 then 0 else TruncateMillis(clock[t - 1])
  }

  /** The strip buffer after `t` ticks over a buffer that started as `buf`. */
  function BufferAfter(buf: seq<Pixel>, state: seq<Segment>, colorAt: ColorAt, clock: seq<nat>, t: nat): seq<Pixel>
    requires t <= |clock|
  {
    if t == 0 then buf else Paint(buf, state, NowAt(clock, t - 1), colorAt)
  }

  /** The calls into the sink made by the first `t` ticks. */
  function LoopEvents(buf: seq<Pixel>, state: seq<Segment>, colorAt: ColorAt, clock: seq<nat>, t: nat): seq<Event>
    requires t <= |clock|
  {
    if t == 0 then []
    else LoopEvents(buf, state, colorAt, clock, t - 1)
         + TickEvents(BufferAfter(buf, state, colorAt, clock, t - 1), state, NowAt(clock, t - 1), colorAt)
  }

  /** Tick `t` starts from the buffer left by the ticks before it and adds its own calls. */
  lemma LoopStep(buf: seq<Pixel>, state: seq<Segment>, colorAt: ColorAt, clock: seq<nat>, t: nat)
    requires t < |clock|
    ensures BufferAfter(buf, state, colorAt, clock, t + 1)
            == Paint(BufferAfter(buf, state, colorAt, clock, t), state, NowAt(clock, t), colorAt)
    ensures LoopEvents(buf, state, colorAt, clock, t + 1)
            == LoopEvents(buf, state, colorAt, clock, t)
               + TickEvents(BufferAfter(buf, state, colorAt, clock, t), state, NowAt(clock, t), colorAt)
  {
    if t > 0 {
      PaintRedraws(buf, state, NowAt(clock, t - 1), NowAt(clock, t), colorAt);
    }
  }

  /** One pass of the loop body: step `bn`, render every segment at `now`, then take the
      new clock reading (in milliseconds) as the next `now`. The sleep is not modelled. */
  method Tick(apa: Apa, state: seq<Segment>, colorAt: ColorAt, bn: U8, now: U32, reading: nat)
    returns (bn': U8, now': U32)
    requires bn < 255
    modifies apa, apa.buffer
    ensures bn' == NextBn(bn)
    ensures now' == TruncateMillis(reading)
    ensures apa.buffer[..] == Paint(old(apa.buffer[..]), state, now, colorAt)
    ensures apa.log == old(apa.log) + TickEvents(old(apa.buffer[..]), state, now, colorAt)
  {
    bn' := NextBn(bn);
    RenderSegments(apa, state, now, colorAt);
    now' := TruncateMillis(reading);
  }

  lemma AppendStep<T>(a: seq<T>, b: seq<T>, c: seq<T>, d: seq<T>)
    requires d == b + c
    ensures a + b + c == a + d
  {
  }

  /** Runs one tick per clock reading, starting from `bn = 1` and `now = 0`. */
  method RenderLoop(apa: Apa, state: seq<Segment>, colorAt: ColorAt, clock: seq<nat>) returns (bn: U8, now: U32)
    modifies apa, apa.buffer
    ensures bn == BnAfter(|clock|)
    ensures now == NowAt(clock, |clock|)
    ensures apa.buffer[..] == BufferAfter(old(apa.buffer[..]), state, colorAt, clock, |clock|)
    ensures apa.log == old(apa.log) + LoopEvents(old(apa.buffer[..]), state, colorAt, clock, |clock|)
  {
    ghost var buf0 := apa.buffer[..];
    ghost var log0 := apa.log;
    bn := 1;
    now := 0;
    for t := 0 to |clock|
      invariant bn == BnAfter(t)
      invariant now == NowAt(clock, t)
      invariant apa.buffer[..] == BufferAfter(buf0, state, colorAt, clock, t)
      invariant apa.log == log0 + LoopEvents(buf0, state, colorAt, clock, t)
    {
      ghost var logged := apa.log;
      LoopStep(buf0, state, colorAt, clock, t);
      bn, now := Tick(apa, state, colorAt, bn, now, clock[t]);
      AppendStep(log0, LoopEvents(buf0, state, colorAt, clock, t), apa.log[|logged|..], LoopEvents(buf0, state, colorAt, clock, t + 1));
    }
  }

  /** The program: a 512-pixel sink, the default segments, and the render loop over the
      given clock readings. After at least one tick the strip shows every default segment's
      pixel over its range and the rest of the strip is still off. */
  method Run(colorAt: ColorAt, clock: seq<nat>) returns (apa: Apa, bn: U8, now: U32)
    ensures fresh(apa.buffer) && apa.buffer.Length == StripLength
    ensures bn == (1 + |clock|) % 110
    ensures now == NowAt(clock, |clock|)
    ensures |clock| > 0 ==> forall i :: 0 <= i < StripLength ==>
              apa.buffer[i] == if i < TotalLength(DefaultSegments()) then PixelFor(DefaultSegments(), NowAt(clock, |clock| - 1), colorAt, i) else Off
  {
    apa := new Apa(StripLength);
    DefaultLayout();
    bn, now := RenderLoop(apa, DefaultSegments(), colorAt, clock);
    BnAfterCounts(|clock|);
  }
}
