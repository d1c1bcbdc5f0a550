# LED strip render loop

This project models the render loop of an ESP32 firmware that drives an addressable
LED strip. The strip is split into an ordered list of animated segments. Each tick, the
loop walks the segments in order with a running offset `led_start` that starts at 0. For
each segment it:

- computes the segment's colour at the current time `now`;
- wraps the colour in a pixel with brightness 40;
- stages that pixel at every index of `[led_start, led_start + length)` in the sink `Apa`;
- advances `led_start` by the length;
- flushes the sink.

Around this walk the loop does three other things:

- It steps a counter `bn = (bn + 1) % 110`.
- It reads the elapsed time since start-up, truncated to 32-bit milliseconds, into `now`.
- It starts from a built-in table of four segments on a 512-pixel strip.

Modules, one file each:

- `Pixels` (`pixels.dfy`): the value types `Srgb8`, `Pixel` and `Segment`. It also holds
  `ColorAt`, the type of `Segment::color_at`.
- `Sink` (`sink.dfy`): the class `Apa`. It has a staging buffer (an `array`) and a log of
  every `set_pixel` and `flush` call. A flush records the buffer it transmits.
- `Layout` (`layout.dfy`): where the segments lie on the strip. It defines prefix sums
  (`Offset`), the segment that holds a pixel (`SegmentIndex`), and the reference picture of
  a painted strip (`Paint`).
- `Render` (`render.dfy`): the per-tick walk `RenderSegments`, a loop over the segments
  with an inner loop over each range. It is proved against `Paint` and against the call
  trace `TickEvents`, and the lemmas about that trace follow it.
- `MainLoop` (`main_loop.dfy`): the default table, `bn`, `now`, one loop body (`Tick`),
  the loop itself over a finite list of clock readings (`RenderLoop`), and start-up
  (`Run`).

`color_at` is defined in the external `color_mixer` crate. The model therefore takes it as
a function parameter and assumes nothing about it.

### What the firmware does and does not do

- The firmware has no runtime configuration, persistence or shared registry. Its segments
  are a fixed `State` of four constants.
- Every segment pixel is staged at brightness 40. No segment has a brightness of its own.
- The sink is flushed after every segment, not once per tick. So one tick transmits one
  frame per segment. Frame k shows segments 0..k at the current `now`; the rest of the
  strip is as the tick found it (off on the first tick, the previous tick's picture
  after that).

## Model

| member | source | states |
|---|---|---|
| `Sink.Apa.constructor` | src/main.rs:70-73 | the sink has a buffer of the configured length, every pixel off, and no calls logged |
| `Sink.Apa.SetPixel` | src/main.rs:142 | staging a pixel changes only that index of the buffer; an index past the strip changes nothing; the call is appended to the log |
| `Sink.Apa.Flush` | src/main.rs:145 | a flush appends to the log a transmission of the buffer exactly as staged, and leaves the buffer unchanged |
| `Layout.OffsetStep` | src/main.rs:144 | after segment k, `led_start` has grown by exactly that segment's length, so it is the sum of the lengths of segments 0..k |
| `Layout.OffsetEnd` | src/main.rs:133-146 | when the walk ends, `led_start` equals the total length of all segments |
| `Layout.SegmentRangesOrdered` | src/main.rs:138-144 | segment ranges follow iteration order and are pairwise disjoint: every range ends at or before the start of every later segment |
| `Layout.SegmentWithinTotal` | src/main.rs:141-144 | every segment's range lies inside `[0, total length)` |
| `Layout.SegmentIndex` | src/main.rs:138-141 | every pixel below the total length lies in the range of some segment k, between its prefix sum and its prefix sum plus its length |
| `Layout.SegmentIndexUnique` | src/main.rs:138-144 | no pixel lies in the ranges of two segments: any segment whose range holds pixel i is the one `SegmentIndex` names |
| `Layout.SegmentUniform` | src/main.rs:139-143 | every pixel in segment k's range gets the same value: segment k's colour at `now`, at brightness 40 |
| `Layout.PaintStep` | src/main.rs:138-144 | painting the segments one by one, filling each range in turn, gives the reference picture `Paint` |
| `Layout.PaintRedraws` | src/main.rs:124-146 | a second tick repaints the whole segment range, so what the previous tick staged there is replaced; indices past the range keep their original contents |
| `Render.RenderSegments` | src/main.rs:133-146 | one walk over the segments leaves the buffer equal to the reference picture `Paint`; the calls it makes are exactly `TickEvents`: per segment, its writes, then one flush |
| `Render.TickWritesInOrder` | src/main.rs:133-144 | during a tick, the k-th staged write goes to index k, for k from 0 up to the total length minus 1, with the pixel of the segment that holds k; there are no other writes |
| `Render.TickFrames` | src/main.rs:138-146 | a tick flushes exactly once per segment; the flush after segment k comes after all writes of segments 0..k, and transmits the buffer with exactly those segments painted |
| `Render.TickBrightness` | src/main.rs:140 | every pixel a tick stages has brightness 40, whatever the segment |
| `Render.TickWritesDisjoint` | src/main.rs:138-144 | no write of a tick goes to an index at or past the total length, and write indices strictly increase, so no pixel is overwritten within the tick |
| `Render.TwoSegmentLayout` | src/main.rs:138-146 | for two segments of lengths 2 and 3, the first is staged over [0, 2) and the second over [2, 5), each in its own colour |
| `MainLoop.DefaultLayout` | src/main.rs:71-108 | there are four default segments, at offsets 0, 144, 204 and 234; their total length of 264 fits the 512-pixel strip; every period (4100, 6100, 5400 and 7100 times 16) is positive and fits a `u32` |
| `MainLoop.NextBn` | src/main.rs:131 | the counter steps up by one and wraps from 109 to 0; its result is below 110 and congruent to `bn + 1` modulo 110 |
| `MainLoop.BnAfter` | src/main.rs:121-131 | starting from 1, `bn` stays below 110 after every tick, so `bn + 1` never overflows a `u8` |
| `MainLoop.BnAfterCounts` | src/main.rs:121-131 | after t ticks, `bn` is `(1 + t) % 110` |
| `MainLoop.TruncateMillis` | src/main.rs:149-150 | `now` is the elapsed milliseconds truncated to `u32`: it is congruent to them modulo 2^32, and equal to them below 2^32 |
| `MainLoop.LoopStep` | src/main.rs:124-151 | tick t starts from the buffer the earlier ticks left, which is the strip painted at the previous `now`; its calls follow theirs |
| `MainLoop.Tick` | src/main.rs:131-150 | one loop body steps `bn`, renders every segment at the current `now` (buffer and calls as in `RenderSegments`), and sets `now` to the truncated clock reading |
| `MainLoop.RenderLoop` | src/main.rs:121-151 | over t ticks from `bn = 1` and `now = 0`: `bn` is `BnAfter(t)`; `now` is the last truncated reading; the buffer is the strip painted at the last tick's `now`; the log holds every tick's calls in order |
| `MainLoop.Run` | src/main.rs:70-151 | with the default table on a 512-pixel sink, after at least one tick, pixels below 264 show their segment's pixel at the last tick's time and the rest of the strip is still off; `bn` is `(1 + ticks) % 110` |

## Left out

- The body of `Segment::color_at`, and the `State` and `Srgb8` types, come from the
  `color_mixer` crate, which is not part of this model. `color_at` is a function parameter
  with no assumed properties. So periodicity and endpoint colours are not modelled.
- Two facts about the `color_mixer` crate are assumed, not modelled.
  `State::new([...].iter().cloned()).iter()` is taken to yield the segments in the order
  they were built. `seg.length()` is taken to return the first argument of
  `Segment::new`. `MainLoop.DefaultSegments`, the offsets in `MainLoop.DefaultLayout` and
  the picture in `MainLoop.Run` rest on both.
- A segment's direction flag and period are carried but not used. Only `color_at` would
  read them.
- `apa_spi` (`Apa::new`, `set_pixel`, `flush`, `Pixel::new`) is not part of this model.
  The sink is modelled as a buffer plus a call log, with three choices of our own:
  - a fresh sink starts with every pixel off;
  - an index past the strip is dropped;
  - a flush transmits the staged buffer.
  The wire encoding, and which pixels the hardware actually shows, are not modelled.
- `Pixel::new(r, g, b, 40)` is assumed to be a plain record constructor that keeps the
  brightness 40 unchanged; `Pixels.SegmentPixel` models it that way, and
  `Render.TickBrightness` and `Layout.SegmentUniform` rest on it.
- The diagnostic closures `log_f` are a no-op logging side channel and are left out.
- The Wi-Fi thread, `src/wifi.rs`, and `build.rs` are network setup and build tooling.
- The 10 ms sleep is not modelled. The wall clock becomes a list of elapsed-millisecond
  readings, one per tick.
- The endless `loop` is modelled as a finite number of ticks, one per clock reading.
- Segment lengths and `led_start` are unbounded naturals. An overflow of
  `led_start + seg.length()` in `usize` is not modelled. The default table totals 264,
  far from any limit.
- `MainLoop.NextBn`: a `requires` excludes `bn = 255`, where `bn + 1` would overflow a
  `u8`. The overflow itself (a panic or a wrap, depending on the build) is not modelled.
  `MainLoop.BnAfter` proves that this case never arises from the start value 1.
- `Render.RenderSegments` evaluates `colorAt` once per segment. Because `colorAt` is a
  pure parameter, the number of evaluations is not observable. What the model proves
  instead is what one evaluation per segment guarantees: every pixel of a segment gets
  the identical value (`Layout.SegmentUniform`).
