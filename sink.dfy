/** The pixel sink the render loop writes to (`Apa`): a staging buffer of the
    configured strip length, and the trace of calls made into it. */
module Sink {
  import opened Pixels

  /** One call into the sink: `set_pixel(index, pixel)` or a `flush` that
      transmits the whole staged buffer. */
  datatype Event = Write(index: nat, pixel: Pixel) | Transmit(frame: seq<Pixel>)

  /** The pixel a freshly created sink holds. */
  const Off := Pixel(0, 0, 0, 0)

  /** The buffer after staging `p` at `index`: indices past the strip are dropped. */
  function Staged(buf: seq<Pixel>, index: nat, p: Pixel): seq<Pixel>
  {
    if index < |buf| then buf[index := p] else buf
  }

  class Apa {
    /** The staged pixels, one per physical LED. */
    const buffer: array<Pixel>
    /** Every `set_pixel` and `flush` call so far, in order. */
    var log: seq<Event>

    constructor (length: nat)
      ensures fresh(buffer) && buffer.Length == length
      ensures forall i :: 0 <= i < length ==> buffer[i] == Off
      ensures log == []
    {
      buffer := new Pixel[length](_ => Off);
      log := [];
    }

    /** `set_pixel`: stages one pixel; an index past the strip changes nothing but is still recorded. */
    method SetPixel(index: nat, p: Pixel)
      modifies this, buffer
      ensures buffer[..] == Staged(old(buffer[..]), index, p)
      ensures log == old(log) + [Write(index, p)]
    {
      if index < buffer.Length {
        buffer[index] := p;
      }
      log := log + [Write(index, p)];
    }

    /** `flush`: transmits the staged buffer as it is. */
    method Flush()
      modifies this
      ensures log == old(log) + [Transmit(buffer[..])]
    {
      log := log + [Transmit(buffer[..])];
    }
  }
}
