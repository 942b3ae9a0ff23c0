// kernel/src/writer/mod.rs: the boot-time pixel writer. The frame buffer is
// memory the firmware hands over; here it is a byte array of at least
// `4 * pixelsPerScanLine * verticalResolution` bytes, which the UEFI GOP
// promises together with `horizontalResolution <= pixelsPerScanLine`.
// A pixel is four bytes; only the first three are written.

module Writer {
  import opened Common

  datatype PixelColor = PixelColor(r: bv8, g: bv8, b: bv8)

  /** The formats a writer can be built for. */
  predicate Supported(f: PixelFormat)
  {
    f == Rgb || f == Bgr
  }

  /** `pixel_at`: the byte offset of pixel (x, y) from the start of the frame buffer. */
  function PixelAt(ppsl: nat, x: nat, y: nat): nat
  {
    4 * (ppsl * y + x)
  }

  /** The three bytes `write_rgb` / `write_bgr` store, in memory order. */
  function Encode(f: PixelFormat, r: bv8, g: bv8, b: bv8): (s: seq<bv8>)
    requires Supported(f)
    ensures |s| == 3
  {
    if f == Rgb then [r, g, b] else [b, g, r]
  }

  /** The colour a display reads back from the three bytes of a pixel. */
  function Decode(f: PixelFormat, s: seq<bv8>): (c: (bv8, bv8, bv8))
    requires Supported(f) && |s| == 3
  {
    if f == Rgb then (s[0], s[1], s[2]) else (s[2], s[1], s[0])
  }

  /** Both formats store every channel: decoding gives the colour back. */
  lemma EncodeDecode(f: PixelFormat, r: bv8, g: bv8, b: bv8)
    requires Supported(f)
    ensures Decode(f, Encode(f, r, g, b)) == (r, g, b)
  {
  }

  /** The two formats store the same bytes in opposite orders. */
  lemma FormatsMirror(r: bv8, g: bv8, b: bv8)
    ensures Encode(Bgr, r, g, b) == [Encode(Rgb, r, g, b)[2], Encode(Rgb, r, g, b)[1], Encode(Rgb, r, g, b)[0]]
  {
  }

  /** Three bytes stored at `off`, everything else kept. */
  function Store(mem: seq<bv8>, off: nat, s: seq<bv8>): (m: seq<bv8>)
    requires |s| == 3 && off + 3 <= |mem|
    ensures |m| == |mem|
  {
    mem[off := s[0]][off + 1 := s[1]][off + 2 := s[2]]
  }

  /**
   * Pixels on the screen lie four bytes apart at least, so writing one
   * pixel never touches the bytes of another; and every visible pixel
   * lies inside a buffer of `4 * ppsl * vres` bytes.
   */
  lemma PixelsApart(ppsl: nat, x1: nat, y1: nat, x2: nat, y2: nat)
    requires x1 < ppsl && x2 < ppsl && (x1, y1) != (x2, y2)
    ensures PixelAt(ppsl, x1, y1) + 4 <= PixelAt(ppsl, x2, y2) || PixelAt(ppsl, x2, y2) + 4 <= PixelAt(ppsl, x1, y1)
  {
    if y1 < y2 {
      RowBefore(ppsl, x1, y1, x2, y2);
    } else if y2 < y1 {
      RowBefore(ppsl, x2, y2, x1, y1);
    }
  }

  lemma RowBefore(ppsl: nat, x1: nat, y1: nat, x2: nat, y2: nat)
    requires x1 < ppsl && y1 < y2
    ensures ppsl * y1 + x1 < ppsl * y2 + x2
  {
    MulLeMono(ppsl, y1 + 1, y2);
    assert ppsl * (y1 + 1) == ppsl * y1 + ppsl;
  }

  lemma MulLeMono(a: nat, b: nat, c: nat)
    requires b <= c
    ensures a * b <= a * c
  {
    var d := c - b;
    assert a * c == a * b + a * d;
  }

  /** Byte `k` of pixel (x, y). */
  function ByteOf(ppsl: nat, x: nat, y: nat, k: nat): nat
  {
    PixelAt(ppsl, x, y) + k
  }

  lemma PixelInBounds(ppsl: nat, vres: nat, x: nat, y: nat)
    requires x < ppsl && y < vres
    ensures PixelAt(ppsl, x, y) + 4 <= 4 * ppsl * vres
  {
    RowBefore(ppsl, x, y, 0, vres);
  }

  /** The three bytes of a visible pixel stored into a buffer of `4 * ppsl * vres` bytes. */
  function WritePixel(mem: seq<bv8>, ppsl: nat, vres: nat, x: nat, y: nat, s: seq<bv8>): (m: seq<bv8>)
    requires x < ppsl && y < vres && |mem| >= 4 * ppsl * vres && |s| == 3
    ensures PixelAt(ppsl, x, y) + 4 <= |mem|
  {
    PixelInBounds(ppsl, vres, x, y);
    Store(mem, PixelAt(ppsl, x, y), s)
  }

  /** A configuration and a buffer `PixelWriter::new` accepts. */
  predicate Screen(config: FrameBufferConfig, mem: seq<bv8>)
  {
    && Supported(config.pixelFormat)
    && config.horizontalResolution <= config.pixelsPerScanLine
    && |mem| >= 4 * config.pixelsPerScanLine * config.verticalResolution
  }

  /** The buffer after `write(x, y, c)`: a pixel outside the visible resolution is ignored. */
  function AfterWrite(config: FrameBufferConfig, mem: seq<bv8>, x: nat, y: nat, c: PixelColor): (m: seq<bv8>)
    requires Screen(config, mem)
    ensures |m| == |mem|
  {
    if x < config.horizontalResolution && y < config.verticalResolution then
      WritePixel(mem, config.pixelsPerScanLine, config.verticalResolution, x, y, Encode(config.pixelFormat, c.r, c.g, c.b))
    else mem
  }

  /** `PixelWriter`: the configuration and the memory it writes to. */
  class PixelWriter {
    const config: FrameBufferConfig
    const mem: array<bv8>

    ghost predicate Valid()
    {
      && Supported(config.pixelFormat)
      && config.horizontalResolution <= config.pixelsPerScanLine
      && mem.Length >= 4 * config.pixelsPerScanLine * config.verticalResolution
    }

    /** `PixelWriter::new`; it panics for the Bitmask and BltOnly formats. */
    constructor (config: FrameBufferConfig, mem: array<bv8>)
      requires Supported(config.pixelFormat)
      requires config.horizontalResolution <= config.pixelsPerScanLine
      requires mem.Length >= 4 * config.pixelsPerScanLine * config.verticalResolution
      ensures Valid() && this.config == config && this.mem == mem
    {
      this.config := config;
      this.mem := mem;
    }

    /**
     * `write`: a pixel outside the visible resolution is ignored; any other
     * gets the colour's three bytes in the configured order at its offset.
     */
    method Write(x: nat, y: nat, c: PixelColor)
      requires Valid()
      modifies mem
      ensures Screen(config, old(mem[..])) && mem[..] == AfterWrite(config, old(mem[..]), x, y, c)
    {
      if x >= config.horizontalResolution || y >= config.verticalResolution {
        return;
      }
      var off := PixelAt(config.pixelsPerScanLine, x, y);
      PixelInBounds(config.pixelsPerScanLine, config.verticalResolution, x, y);
      var s := Encode(config.pixelFormat, c.r, c.g, c.b);
      mem[off] := s[0];
      mem[off + 1] := s[1];
      mem[off + 2] := s[2];
      assert mem[..] == Store(old(mem[..]), off, s);
    }
  }

  /**
   * After a visible write the pixel reads back as the colour written, and
   * every byte outside its three — the fourth byte of the pixel and all
   * other pixels — is as it was.
   */
  lemma WriteReadsBack(f: PixelFormat, ppsl: nat, vres: nat, mem: seq<bv8>, x: nat, y: nat, c: PixelColor)
    requires Supported(f) && x < ppsl && y < vres && |mem| >= 4 * ppsl * vres
    ensures PixelAt(ppsl, x, y) + 4 <= |mem|
    ensures var off := PixelAt(ppsl, x, y);
      var m := WritePixel(mem, ppsl, vres, x, y, Encode(f, c.r, c.g, c.b));
      && Decode(f, m[off..off + 3]) == (c.r, c.g, c.b)
      && m[off + 3] == mem[off + 3]
      && forall x': nat, y': nat, k: nat :: x' < ppsl && y' < vres && (x', y') != (x, y) && k < 4 ==>
           && ByteOf(ppsl, x', y', k) < |mem|
           && m[ByteOf(ppsl, x', y', k)] == mem[ByteOf(ppsl, x', y', k)]
  {
    var off := PixelAt(ppsl, x, y);
    PixelInBounds(ppsl, vres, x, y);
    var m := WritePixel(mem, ppsl, vres, x, y, Encode(f, c.r, c.g, c.b));
    EncodeDecode(f, c.r, c.g, c.b);
    forall x': nat, y': nat, k: nat | x' < ppsl && y' < vres && (x', y') != (x, y) && k < 4
      ensures ByteOf(ppsl, x', y', k) < |mem|
      ensures m[ByteOf(ppsl, x', y', k)] == mem[ByteOf(ppsl, x', y', k)]
    {
      PixelsApart(ppsl, x, y, x', y');
      PixelInBounds(ppsl, vres, x', y');
    }
  }
}
