/** The byte streams DerTree talks to: an output sink (`OutputStream` /
    `ByteArrayOutputStream`), an input stream, and a content supplier. */
module Streams {
  import opened Bytes

  function Min(a: int, b: int): int {
    if a < b then a else b
  }

  /** An `OutputStream` that keeps everything written to it. */
  class Sink {
    var written: seq<byte>

    constructor ()
      ensures written == []
    {
      written := [];
    }

    /** `write(int)`: the low 8 bits of `b`. */
    method Write(b: int)
      modifies this
      ensures written == old(written) + [Low8(b)]
    {
      written := written + [Low8(b)];
    }

    /** `write(byte[])`. */
    method WriteAll(s: seq<byte>)
      modifies this
      ensures written == old(written) + s
    {
      written := written + s;
    }

    /** `write(byte[] b, int off, int len)`. */
    method WriteRange(b: array<byte>, off: nat, len: nat)
      requires off + len <= b.Length
      modifies this
      ensures written == old(written) + b[off..off + len]
    {
      written := written + b[off..off + len];
    }
  }

  /** An `InputStream` over the octets still to come. `available()` reports
      at most `window` of them, as a stream may whose further data is not
      at hand yet. */
  class Source {
    var remaining: seq<byte>
    const window: nat

    constructor (data: seq<byte>, window: nat)
      ensures remaining == data && this.window == window
    {
      remaining := data;
      this.window := window;
    }

    /** `available()`. */
    method Available() returns (n: int)
      ensures n == Min(|remaining|, window)
    {
      n := Min(|remaining|, window);
    }

    /** `read(byte[])`: 0 for an empty buffer, -1 at the end of the stream,
        otherwise as many octets as fit, at the start of `buffer`. */
    method Read(buffer: array<byte>) returns (n: int)
      modifies this, buffer
      ensures n >= -1
      ensures n == -1 <==> buffer.Length > 0 && old(remaining) == []
      ensures n == -1 ==> remaining == old(remaining)
      ensures n >= 0 ==> n == Min(buffer.Length, |old(remaining)|)
      ensures n >= 0 ==> buffer[..n] == old(remaining)[..n] && remaining == old(remaining)[n..]
    {
      if buffer.Length == 0 {
        n := 0;
      } else if remaining == [] {
        n := -1;
      } else {
        n := Min(buffer.Length, |remaining|);
        forall k | 0 <= k < n {
          buffer[k] := remaining[k];
        }
        remaining := remaining[n..];
      }
    }
  }

  /** A `Supplier<byte[]>`; it yields the same octets every time. */
  class Supplier {
    const value: seq<byte>

    constructor (value: seq<byte>)
      ensures this.value == value
    {
      this.value := value;
    }

    method Get() returns (r: seq<byte>)
      ensures r == value
    {
      r := value;
    }
  }
}
