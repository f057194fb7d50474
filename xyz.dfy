/** A model of the XYZ image decoder of the KDE thumbnailer.

    An XYZ file is the four bytes 'X','Y','Z','1', the width and the height as
    16-bit values, and a zlib stream.  The stream inflates to a palette of 256
    RGB triples followed by one palette index per pixel; the decoder expands it
    into a row-major BGRA pixel buffer with opaque alpha.

    The host is taken to be a little-endian LP64 machine: `int` is 32 bits
    wide and `size_t`/`uLongf` are 64 bits wide. */
module Xyz {

  /** One unsigned byte. */
  type byte = x: int | 0 <= x < 256

  /** The file signature "XYZ1". */
  const MAGIC: seq<byte> := [0x58, 0x59, 0x5A, 0x31]
  /** Signature, width and height precede the compressed stream. */
  const HEADER_SIZE := 8
  /** 256 palette entries of three bytes each. */
  const PALETTE_SIZE := 768
  /** The alpha byte written for every pixel. */
  const OPAQUE: byte := 255
  /** zlib's `Z_OK`. */
  const Z_OK := 0

  const INT_MAX := 0x7FFF_FFFF
  const TWO_32 := 0x1_0000_0000
  const TWO_64 := 0x1_0000_0000_0000_0000

  // ---------------------------------------------------------------------
  // Header
  // ---------------------------------------------------------------------

  /** `strncmp(a, b, n) == 0`: the first `n` characters agree, or they agree
      up to and including a NUL character. */
  predicate StrNEqual(a: seq<byte>, b: seq<byte>, n: nat)
    requires n <= |a| && n <= |b|
  {
    n == 0 || (a[0] == b[0] && (a[0] == 0 || StrNEqual(a[1..], b[1..], n - 1)))
  }

  /** The signature test of the decoder. */
  predicate HasMagic(data: seq<byte>)
    requires |data| >= 4
  {
    StrNEqual(data, MAGIC, 4)
  }

  /** Since "XYZ1" holds no NUL, the `strncmp` test accepts exactly the inputs
      whose first four bytes are 'X', 'Y', 'Z', '1'. */
  lemma {:induction false} MagicExact(data: seq<byte>)
    requires |data| >= 4
    ensures HasMagic(data) <==> data[..4] == MAGIC
  {
    var d1, m1 := data[1..], MAGIC[1..];
    var d2, m2 := d1[1..], m1[1..];
    var d3, m3 := d2[1..], m2[1..];
    assert StrNEqual(d3, m3, 1) <==> d3[0] == m3[0];
    assert StrNEqual(d2, m2, 2) <==> d2[0] == m2[0] && d3[0] == m3[0];
    assert StrNEqual(d1, m1, 3) <==> d1[0] == m1[0] && d2[0] == m2[0] && d3[0] == m3[0];
    assert HasMagic(data) <==> data[0] == MAGIC[0] && d1[0] == m1[0] && d2[0] == m2[0] && d3[0] == m3[0];
    if HasMagic(data) {
      assert data[..4] == [data[0], d1[0], d2[0], d3[0]];
    }
  }

  /** A 16-bit value copied out of two bytes in the host's (little-endian) byte order. */
  function U16(lo: byte, hi: byte): (v: nat)
    ensures v < 0x1_0000
  {
    lo + 256 * hi
  }

  /** The two bytes that hold a 16-bit value in little-endian order. */
  function U16Bytes(v: nat): (bs: seq<byte>)
    requires v < 0x1_0000
    ensures |bs| == 2
  {
    [v % 256, v / 256]
  }

  /** Reading a 16-bit value and writing it back are inverse. */
  lemma U16RoundTrip(lo: byte, hi: byte)
    ensures U16Bytes(U16(lo, hi)) == [lo, hi]
  {
    DivModUnique(lo + 256 * hi, hi, lo);
  }

  /** Writing a 16-bit value and reading it back are inverse. */
  lemma U16BytesRoundTrip(v: nat)
    requires v < 0x1_0000
    ensures U16(U16Bytes(v)[0], U16Bytes(v)[1]) == v
  {
  }

  lemma DivModUnique(v: int, q: int, r: int)
    requires 0 <= r < 256 && v == 256 * q + r
    ensures v / 256 == q && v % 256 == r
  {
  }

  /** The width: the 16-bit value in bytes 4 and 5. */
  function Width(data: seq<byte>): (w: nat)
    requires |data| >= HEADER_SIZE
    ensures w < 0x1_0000 && U16Bytes(w) == data[4..6]
  {
    var v := U16(data[4], data[5]);
    U16RoundTrip(data[4], data[5]);
    assert data[4..6] == [data[4], data[5]];
    v
  }

  /** The height: the 16-bit value in bytes 6 and 7. */
  function Height(data: seq<byte>): (h: nat)
    requires |data| >= HEADER_SIZE
    ensures h < 0x1_0000 && U16Bytes(h) == data[6..8]
  {
    var v := U16(data[6], data[7]);
    U16RoundTrip(data[6], data[7]);
    assert data[6..8] == [data[6], data[7]];
    v
  }

  // ---------------------------------------------------------------------
  // Buffer sizes, as intended and as written in C
  // ---------------------------------------------------------------------

  /** The size of the decompression buffer: the palette and one index per pixel. */
  function BufferSize(w: nat, h: nat): nat
  {
    PALETTE_SIZE + w * h
  }

  /** The size of the pixel buffer: four bytes per pixel. */
  function PixelBytes(w: nat, h: nat): nat
  {
    w * h * 4
  }

  /** The value a 32-bit two's-complement `int` ends up holding. */
  function Int32(x: int): (r: int)
    ensures -INT_MAX - 1 <= r <= INT_MAX
    ensures (r - x) % TWO_32 == 0
  {
    var m := x % TWO_32;
    if m > INT_MAX then m - TWO_32 else m
  }

  /** Conversion of an `int` to the unsigned 64-bit `size_t` or `uLongf`. */
  function ToSize(x: int): (r: nat)
    ensures r < TWO_64
    ensures -TWO_64 < x < TWO_64 ==> r == (if x < 0 then x + TWO_64 else x)
  {
    x % TWO_64
  }

  /** `768 + (w * h)` as the decoder writes it: both operations in `int`,
      the sum then converted to `uLongf`. */
  function BufferSizeAsWritten(w: nat, h: nat): nat
  {
    ToSize(Int32(PALETTE_SIZE + Int32(w * h)))
  }

  /** `w * h * 4` as the decoder writes it: computed in `int`, then passed to
      `malloc` as a `size_t`. */
  function PixelBytesAsWritten(w: nat, h: nat): nat
  {
    ToSize(Int32(Int32(w * h) * 4))
  }

  /** A 32768 by 32768 header makes the pixel allocation zero bytes long,
      although the loop then writes four bytes for each of its 2^30 pixels. */
  lemma PixelBytesOverflow()
    ensures PixelBytesAsWritten(32768, 32768) == 0
    ensures PixelBytes(32768, 32768) == TWO_32
  {
  }

  /** A 65535 by 65535 header makes the decompression buffer size wrap to
      2^64 - 130303 instead of 768 + 4294836225. */
  lemma BufferSizeOverflow()
    ensures BufferSizeAsWritten(65535, 65535) == TWO_64 - 130303
    ensures BufferSize(65535, 65535) == 4294836993
  {
  }

  lemma MulLe(a: nat, b: nat, c: nat)
    requires a <= b
    ensures a * c <= b * c
  {
  }

  lemma ProductBound(w: nat, h: nat)
    requires w < 0x1_0000 && h < 0x1_0000
    ensures w * h <= 0xFFFF * 0xFFFF
  {
    MulLe(w, 0xFFFF, h);
    MulLe(h, 0xFFFF, 0xFFFF);
  }

  /** Computed in `size_t`, neither size wraps for any 16-bit width and height. */
  lemma SizesFit(w: nat, h: nat)
    requires w < 0x1_0000 && h < 0x1_0000
    ensures ToSize(BufferSize(w, h)) == BufferSize(w, h)
    ensures ToSize(PixelBytes(w, h)) == PixelBytes(w, h)
  {
    ProductBound(w, h);
  }

  /** The sizes as written agree with the intended ones exactly while
      `w * h * 4` fits in an `int`. */
  lemma AsWrittenAgreesWhenSmall(w: nat, h: nat)
    requires w * h * 4 <= INT_MAX
    ensures BufferSizeAsWritten(w, h) == BufferSize(w, h)
    ensures PixelBytesAsWritten(w, h) == PixelBytes(w, h)
  {
    assert Int32(w * h) == w * h;
    assert Int32(PALETTE_SIZE + w * h) == PALETTE_SIZE + w * h;
    assert Int32(w * h * 4) == w * h * 4;
  }

  // ---------------------------------------------------------------------
  // Decompression and palette expansion
  // ---------------------------------------------------------------------

  /** What zlib's `uncompress` reports: its status and the bytes it wrote to
      the start of the destination. */
  datatype Inflation = Inflation(status: int, written: seq<byte>)

  /** `uncompress` as an oracle: given the compressed bytes and the
      destination's capacity, the status and the bytes written. */
  type Inflater = (seq<byte>, nat) -> Inflation

  /** zlib never writes past the capacity it is given. */
  ghost predicate WithinCapacity(inflate: Inflater)
  {
    forall src: seq<byte>, capacity: nat :: |inflate(src, capacity).written| <= capacity
  }

  /** The zero-initialised destination after `uncompress` wrote `written` to
      its start. */
  function Filled(written: seq<byte>, size: nat): (buf: seq<byte>)
    requires |written| <= size
    ensures |buf| == size
    ensures forall k :: 0 <= k < |written| ==> buf[k] == written[k]
    ensures forall k :: |written| <= k < size ==> buf[k] == 0
  {
    written + seq(size - |written|, _ => 0)
  }

  /** The decompressed buffer of a file that carries the signature. */
  function Inflated(data: seq<byte>, inflate: Inflater): (r: Inflation)
    requires |data| >= HEADER_SIZE
    requires WithinCapacity(inflate)
    ensures |r.written| <= BufferSize(Width(data), Height(data))
  {
    inflate(data[HEADER_SIZE..], BufferSize(Width(data), Height(data)))
  }

  function Buffer(data: seq<byte>, inflate: Inflater): (buf: seq<byte>)
    requires |data| >= HEADER_SIZE
    requires WithinCapacity(inflate)
    ensures |buf| == BufferSize(Width(data), Height(data))
  {
    Filled(Inflated(data, inflate).written, BufferSize(Width(data), Height(data)))
  }

  /** The four output bytes of a pixel whose palette index is `p`: the
      palette entry's three bytes in reverse order, then opaque alpha. */
  function Bgra(buf: seq<byte>, p: byte): (c: seq<byte>)
    requires |buf| >= PALETTE_SIZE
    ensures |c| == 4
  {
    [buf[3 * p + 2], buf[3 * p + 1], buf[3 * p], OPAQUE]
  }

  /** The output for the first `n` pixels of the decompressed buffer `buf`. */
  function Expand(buf: seq<byte>, n: nat): (px: seq<byte>)
    requires PALETTE_SIZE + n <= |buf|
    ensures |px| == 4 * n
  {
    if n == 0 then [] else Expand(buf, n - 1) + Bgra(buf, buf[PALETTE_SIZE + n - 1])
  }

  /** Output bytes 4i..4i+3 are the expansion of index byte 768 + i. */
  lemma {:induction false} ExpandAt(buf: seq<byte>, n: nat, i: nat)
    requires PALETTE_SIZE + n <= |buf|
    requires i < n
    ensures Expand(buf, n)[4 * i..4 * i + 4] == Bgra(buf, buf[PALETTE_SIZE + i])
  {
    if i < n - 1 {
      ExpandAt(buf, n - 1, i);
      assert Expand(buf, n)[..4 * (n - 1)] == Expand(buf, n - 1);
    }
  }

  /** The outcome of decoding an XYZ file. */
  datatype Outcome =
    | NotXyz
    | InflateFailed(status: int)
    | Decoded(width: nat, height: nat, pixels: seq<byte>)

  /** What decoding `data` yields, with `inflate` standing for zlib. */
  function Decode(data: seq<byte>, inflate: Inflater): (r: Outcome)
    requires |data| >= HEADER_SIZE
    requires WithinCapacity(inflate)
  {
    if !HasMagic(data) then NotXyz
    else
      var status := Inflated(data, inflate).status;
      if status != Z_OK then InflateFailed(status)
      else
        var w, h := Width(data), Height(data);
        var n := w * h;
        Decoded(w, h, Expand(Buffer(data, inflate), n))
  }

  /** Only a signed file whose stream inflates with `Z_OK` produces pixels,
      and then with the header's dimensions. */
  lemma DecodeGuards(data: seq<byte>, inflate: Inflater)
    requires |data| >= HEADER_SIZE
    requires WithinCapacity(inflate)
    ensures Decode(data, inflate).Decoded? <==> data[..4] == MAGIC && Inflated(data, inflate).status == Z_OK
    ensures data[..4] != MAGIC ==> Decode(data, inflate) == NotXyz
    ensures Decode(data, inflate).Decoded? ==>
      Decode(data, inflate).width == Width(data) && Decode(data, inflate).height == Height(data)
  {
    MagicExact(data);
  }

  lemma RowMajorBound(w: nat, h: nat, x: nat, y: nat)
    requires x < w && y < h
    ensures y * w + x < w * h
  {
    MulLe(y + 1, h, w);
  }

  /** The pixel in column `x` of row `y` is pixel i = y*w + x, whose index byte
      768 + i lies inside the decompressed buffer; its four output bytes are
      the palette entry of that index, blue-green-red, then 255. */
  lemma DecodedPixel(data: seq<byte>, inflate: Inflater, x: nat, y: nat)
    requires |data| >= HEADER_SIZE
    requires WithinCapacity(inflate)
    requires Decode(data, inflate).Decoded?
    requires x < Width(data) && y < Height(data)
    ensures var w, h := Width(data), Height(data);
            var i := y * w + x;
            && |Decode(data, inflate).pixels| == PixelBytes(w, h)
            && PALETTE_SIZE + i < |Buffer(data, inflate)|
            && 4 * i + 4 <= PixelBytes(w, h)
            && Decode(data, inflate).pixels[4 * i..4 * i + 4]
               == Bgra(Buffer(data, inflate), Buffer(data, inflate)[PALETTE_SIZE + i])
  {
    var w, h := Width(data), Height(data);
    var buf := Buffer(data, inflate);
    var i := y * w + x;
    RowMajorBound(w, h, x, y);
    assert 4 * (w * h) == PixelBytes(w, h);
    ExpandAt(buf, w * h, i);
  }

  /** The index bytes that decompression did not write read as 0, so such
      pixels take palette entry 0. */
  lemma UnwrittenPixelsUsePaletteZero(data: seq<byte>, inflate: Inflater, i: nat)
    requires |data| >= HEADER_SIZE
    requires WithinCapacity(inflate)
    requires Decode(data, inflate).Decoded?
    requires i < Width(data) * Height(data)
    requires |Inflated(data, inflate).written| <= PALETTE_SIZE + i
    ensures Decode(data, inflate).pixels[4 * i..4 * i + 4] == Bgra(Buffer(data, inflate), 0)
  {
    ExpandAt(Buffer(data, inflate), Width(data) * Height(data), i);
  }

  // ---------------------------------------------------------------------
  // The decoder
  // ---------------------------------------------------------------------

  /** The image the decoder fills in; it takes ownership of the pixel buffer. */
  class Image {
    var width: nat
    var height: nat
    var pixels: array<byte>

    /** A newly made image is the null image. */
    constructor ()
      ensures width == 0 && height == 0 && pixels.Length == 0
    {
      width, height := 0, 0;
      pixels := new byte[0];
    }

    /** An image with no rows or no columns is null. */
    predicate IsNull()
      reads this
    {
      width == 0 || height == 0
    }
  }

  /** Writes the BGRA expansion of the first `n` pixels of `dst` into `pixels`,
      row by row: `h` rows of `w` pixels. */
  method ExpandPixels(dst: array<byte>, pixels: array<byte>, w: nat, h: nat)
    requires dst != pixels
    requires dst.Length == BufferSize(w, h)
    requires pixels.Length == PixelBytes(w, h)
    modifies pixels
    ensures pixels[..] == Expand(dst[..], w * h)
  {
    ghost var buf := dst[..];
    var src, d := PALETTE_SIZE, 0;
    ghost var i := 0;
    var y := 0;
    while y < h
      invariant 0 <= y <= h
      invariant i == y * w && i <= w * h
      invariant src == PALETTE_SIZE + i && d == 4 * i
      invariant pixels[..d] == Expand(buf, i)
    {
      MulLe(y + 1, h, w);
      var x := 0;
      while x < w
        invariant 0 <= x <= w
        invariant i == y * w + x && i + (w - x) <= w * h
        invariant src == PALETTE_SIZE + i && d == 4 * i
        invariant pixels[..d] == Expand(buf, i)
      {
        var pix: int := dst[src];
        src := src + 1;
        ghost var before := pixels[..d];
        pixels[d] := dst[3 * pix + 2];
        pixels[d + 1] := dst[3 * pix + 1];
        pixels[d + 2] := dst[3 * pix];
        pixels[d + 3] := OPAQUE;
        assert pixels[..d + 4] == before + Bgra(buf, pix);
        d := d + 4;
        i := i + 1;
        x := x + 1;
      }
      y := y + 1;
    }
    assert 4 * (w * h) == pixels.Length;
    assert pixels[..] == pixels[..d];
  }

  /** `XyzImage::toImage`: decodes `data` into `img` and reports whether a
      non-null image resulted.  The image is left untouched when the signature
      is wrong or decompression fails.  A header with a zero width or height
      yields the null image, which reports both dimensions as 0, as a
      `QImage` built with a dimension of 0 does. */
  method ToImage(data: seq<byte>, inflate: Inflater, img: Image) returns (ok: bool)
    requires |data| >= HEADER_SIZE
    requires WithinCapacity(inflate)
    modifies img
    ensures !Decode(data, inflate).Decoded? ==> !ok && unchanged(img)
    ensures Decode(data, inflate).Decoded? ==>
      && ok == (Decode(data, inflate).width > 0 && Decode(data, inflate).height > 0)
      && ok == !img.IsNull()
      && (ok ==> img.width == Decode(data, inflate).width && img.height == Decode(data, inflate).height)
      && (!ok ==> img.width == 0 && img.height == 0)
      && fresh(img.pixels)
      && img.pixels[..] == Decode(data, inflate).pixels
  {
    if !StrNEqual(data, MAGIC, 4) {
      return false;
    }
    var w := U16(data[4], data[5]);
    var h := U16(data[6], data[7]);
    var dstSize := BufferSize(w, h);
    var dst := new byte[dstSize](_ => 0);
    var result := inflate(data[HEADER_SIZE..], dstSize);
    forall k | 0 <= k < |result.written| {
      dst[k] := result.written[k];
    }
    if result.status != Z_OK {
      return false;
    }
    assert dst[..] == Buffer(data, inflate);
    var pixels := new byte[PixelBytes(w, h)](_ => 0);
    ExpandPixels(dst, pixels, w, h);
    if w == 0 || h == 0 {
      img.width, img.height := 0, 0;
    } else {
      img.width, img.height := w, h;
    }
    img.pixels := pixels;
    ok := !img.IsNull();
  }
}
