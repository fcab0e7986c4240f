/**
 * The pixel side of the NJP sprite loader: decoding the bottom-up, 4-byte
 * aligned rows of a pattern into RGBA, and recolouring the indexed (4 and 8
 * bits per pixel) patterns through a palette.
 *
 * Only the bytes a decoder reads are in the model, not the memory beyond
 * the buffer: a position outside `indexed` reads as 0 (see `ByteAt`), and
 * `PixelReadsInBounds` states when that never happens.
 */
module NjpPixels {
  import opened Bytes
  import opened Gfx2dTypes
  import opened Gfx2d

  /** Bytes per stored row: `width * bpp` bits rounded up to whole bytes, then to a multiple of 4. */
  function RowStride(width: int, bpp: int): int {
    Align4(CDiv(width * bpp + 7, 8))
  }

  /** The bytes a row of width pixels needs before alignment. */
  function RowBytes(width: int, bpp: int): int {
    CDiv(width * bpp + 7, 8)
  }

  /** The depths `convertIndexedToRGBA` decodes; any other depth gives magenta. */
  predicate KnownDepth(bpp: int) {
    bpp == 1 || bpp == 4 || bpp == 8 || bpp == 16 || bpp == 24 || bpp == 32
  }

  /** Bytes of one pixel at offset `PixelBase` (a shared byte for 1 and 4 bits per pixel). */
  function PixelBytes(bpp: int): nat {
    if bpp == 16 then 2 else if bpp == 24 then 3 else if bpp == 32 then 4 else 1
  }

  /** Offset of the first byte of pixel x in stored row srcY. */
  function PixelBase(bpp: int, stride: int, x: int, srcY: int): int {
    srcY * stride +
      (if bpp == 1 then x / 8 else if bpp == 4 then x / 2 else x * PixelBytes(bpp))
  }

  /** The 4-bit index of column x in byte b: high nibble for even x, low nibble for odd x. */
  function Nibble(b: byte, x: int): (n: byte)
    ensures n < 16
  {
    if x % 2 == 1 then b % 16 else b / 16
  }

  /** The bit of column x in byte b, most significant bit first. */
  function BitOf(b: byte, x: int): (bit: byte)
    ensures bit < 2
  {
    (b / [0x80, 0x40, 0x20, 0x10, 0x08, 0x04, 0x02, 0x01][x % 8]) % 2
  }

  /** A 5- or 6-bit channel of an RGB565 word scaled to 0..255, `v * 255 / max` in integers. */
  function Scale(v: int, max: int): (c: byte)
    requires max > 0 && 0 <= v <= max
    ensures v == 0 ==> c == 0
    ensures v == max ==> c == 255
  {
    ScaleInRange(v, max);
    v * 255 / max
  }

  lemma ScaleInRange(v: int, max: int)
    requires max > 0 && 0 <= v <= max
    ensures 0 <= v * 255 / max <= 255
    ensures v == max ==> v * 255 / max == 255
  {
    var q, r := v * 255 / max, v * 255 % max;
    assert v * 255 == q * max + r;
    if q > 255 {
      assert (q - 255) * max >= max by { MulAtLeast(q - 255, max); }
      assert false;
    }
    if v == max {
      DivModUnique(v * 255, max, 255, 0);
    }
  }

  /** The RGB565 magenta that 16-bit patterns use as their colour key. */
  const Key565 := 0xF81F

  /** Pixel x of stored row srcY, as `convertIndexedToRGBA` decodes it at depth bpp. */
  function DecodePixel(indexed: seq<byte>, bpp: int, stride: int, x: int, srcY: int): Color {
    var base := PixelBase(bpp, stride, x, srcY);
    var b0, b1, b2, b3 := ByteAt(indexed, base), ByteAt(indexed, base + 1), ByteAt(indexed, base + 2), ByteAt(indexed, base + 3);
    if bpp == 8 then
      if b0 == 0 then Transparent else Color(b0, b0, b0, 255)
    else if bpp == 16 then
      var pixel := b0 as int + 0x100 * (b1 as int);
      if pixel == Key565 then Transparent
      else Color(Scale((pixel / 0x800) % 0x20, 31), Scale((pixel / 0x20) % 0x40, 63), Scale(pixel % 0x20, 31), 255)
    else if bpp == 24 then
      if b2 == 255 && b1 == 0 && b0 == 255 then Transparent else Color(b2, b1, b0, 255)
    else if bpp == 32 then
      Color(b2, b1, b0, b3)
    else if bpp == 4 then
      var idx := Nibble(b0, x);
      if idx == 0 then Transparent else Color(idx * 17, idx * 17, idx * 17, 255)
    else if bpp == 1 then
      if BitOf(b0, x) == 1 then Color(255, 255, 255, 255) else Transparent
    else
      Color(255, 0, 255, 255)
  }

  /** The width by height image whose pixel (x, y) is f(x, y); nothing when either side is not positive. */
  function ImageOf(width: int, height: int, f: (int, int) -> Color): (img: Image)
    ensures img.Wf()
    ensures img.IsValid() == (width > 0 && height > 0)
    ensures img.IsValid() ==> img.width == width && img.height == height
    ensures forall y, x :: 0 <= y < img.height && 0 <= x < img.width ==> img.rows[y][x] == f(x, y)
  {
    if width > 0 && height > 0 then MakeImage(width, height, f) else NoImage
  }

  /** Output pixel (x, y) comes from stored row height - 1 - y: rows are stored bottom-up. */
  function DecodeFn(indexed: seq<byte>, width: int, height: int, bpp: int): (int, int) -> Color {
    var stride := RowStride(width, bpp);
    (x, y) => DecodePixel(indexed, bpp, stride, x, height - 1 - y)
  }

  /** The bitmap `convertIndexedToRGBA` produces. */
  function DecodeImage(indexed: seq<byte>, width: int, height: int, bpp: int): Image {
    ImageOf(width, height, DecodeFn(indexed, width, height, bpp))
  }

  /** `create` followed by `setPixel(x, y, f(x, y))` over the rows top to bottom. */
  method Render(out: Bitmap, width: int, height: int, f: (int, int) -> Color)
    requires out.Valid()
    modifies out
    ensures out.Valid()
    ensures out.Snapshot() == ImageOf(width, height, f)
  {
    var ok := out.Create(width, height);
    var y := 0;
    while y < height
      invariant out.Valid() && out.IsValid() == ok
      invariant ok ==> out.width == width && out.height == height && fresh(out.pixels) && 0 <= y <= height
      invariant ok ==> forall yy, xx :: 0 <= yy < y && 0 <= xx < width ==> out.pixels[yy, xx] == f(xx, yy)
      invariant !ok ==> out.width == 0 && out.height == 0
    {
      var x := 0;
      while x < width
        invariant out.Valid() && out.IsValid() == ok
        invariant ok ==> out.width == width && out.height == height && fresh(out.pixels) && 0 <= x <= width
        invariant ok ==> forall yy, xx :: 0 <= yy < y && 0 <= xx < width ==> out.pixels[yy, xx] == f(xx, yy)
        invariant ok ==> forall xx :: 0 <= xx < x ==> out.pixels[y, xx] == f(xx, y)
        invariant !ok ==> out.width == 0 && out.height == 0
      {
        out.SetPixel(x, y, f(x, y));
        x := x + 1;
      }
      y := y + 1;
    }
    if ok {
      ImageExt(out.Snapshot(), ImageOf(width, height, f));
    }
  }

  /** `convertIndexedToRGBA`: the bitmap becomes the decoded pattern. */
  method ConvertIndexedToRgba(indexed: seq<byte>, width: int, height: int, bpp: int, out: Bitmap)
    requires out.Valid()
    modifies out
    ensures out.Valid()
    ensures out.Snapshot() == DecodeImage(indexed, width, height, bpp)
  {
    Render(out, width, height, DecodeFn(indexed, width, height, bpp));
  }

  /**
   * When the buffer holds every stored row (height rows of `RowStride`
   * bytes), each pixel of a known depth reads only bytes inside it.
   */
  lemma PixelReadsInBounds(indexed: seq<byte>, width: int, height: int, bpp: int, x: int, y: int)
    requires KnownDepth(bpp) && 0 <= x < width && 0 <= y < height
    requires height * RowStride(width, bpp) <= |indexed|
    ensures 0 <= PixelBase(bpp, RowStride(width, bpp), x, height - 1 - y)
    ensures PixelBase(bpp, RowStride(width, bpp), x, height - 1 - y) + PixelBytes(bpp) <= |indexed|
  {
    var stride := RowStride(width, bpp);
    assert PixelBase(bpp, stride, x, height - 1 - y) == (height - 1 - y) * stride + PixelBase(bpp, 0, x, 0);
    RowBytesCover(width, bpp, x);
    assert RowBytes(width, bpp) <= stride;
    RowInBuffer(height - 1 - y, stride, height, PixelBase(bpp, 0, x, 0), PixelBytes(bpp), |indexed|);
  }

  /** Bytes [inRow, inRow + n) of stored row srcY lie in a buffer of height whole rows. */
  lemma RowInBuffer(srcY: int, stride: int, height: int, inRow: int, n: int, len: int)
    requires 0 <= srcY < height && 0 <= inRow && inRow + n <= stride && n >= 0
    requires height * stride <= len
    ensures 0 <= srcY * stride + inRow && srcY * stride + inRow + n <= len
  {
    MulMono(0, srcY, stride);
    MulMono(srcY + 1, height, stride);
  }

  /** Pixel x of a row lies within the row's unaligned bytes. */
  lemma RowBytesCover(width: int, bpp: int, x: int)
    requires KnownDepth(bpp) && 0 <= x < width
    ensures var inRow := PixelBase(bpp, 0, x, 0);
            0 <= inRow && inRow + PixelBytes(bpp) <= RowBytes(width, bpp)
  {
    assert width * bpp >= 0 by { MulMono(0, width, bpp); }
    assert RowBytes(width, bpp) == (width * bpp + 7) / 8;
    if bpp == 1 {
      CoverBits(width, x);
    } else if bpp == 4 {
      CoverNibbles(width, x);
    } else {
      CoverWhole(width, bpp / 8, x);
    }
  }

  /** At one bit per pixel, the byte of pixel x is inside the row. */
  lemma CoverBits(width: int, x: int)
    requires 0 <= x < width
    ensures x / 8 + 1 <= (width * 1 + 7) / 8
  {
  }

  /** At four bits per pixel, the byte of pixel x is inside the row. */
  lemma CoverNibbles(width: int, x: int)
    requires 0 <= x < width
    ensures x / 2 + 1 <= (width * 4 + 7) / 8
  {
    DivModUnique(width * 4 + 7, 8, (width + 1) / 2, 4 * ((width + 1) % 2) + 3);
  }

  /** At k whole bytes per pixel, the k bytes of pixel x are inside the row. */
  lemma CoverWhole(width: int, k: int, x: int)
    requires 0 <= x < width && 1 <= k
    ensures x * k + k <= (width * (8 * k) + 7) / 8
  {
    assert width * (8 * k) + 7 == (width * k) * 8 + 7;
    DivModUnique(width * (8 * k) + 7, 8, width * k, 7);
    MulMono(x + 1, width, k);
  }

  /** The stored row is at least as long as the pixels need and at most 3 bytes longer. */
  lemma RowStrideBounds(width: int, bpp: int)
    requires width >= 0 && bpp >= 0
    ensures RowStride(width, bpp) % 4 == 0
    ensures RowBytes(width, bpp) <= RowStride(width, bpp) < RowBytes(width, bpp) + 4
    ensures 8 * RowBytes(width, bpp) >= width * bpp
  {
    assert width * bpp >= 0 by { MulMono(0, width, bpp); }
  }

  /**
   * Whichever depth, a decoded pixel is transparent exactly at the colour
   * key of that depth: index 0 for 4 and 8 bits, a clear bit for 1 bit,
   * 0xF81F for RGB565 and (255, 0, 255) for 24-bit BGR.
   */
  lemma TransparentIffKey(indexed: seq<byte>, bpp: int, stride: int, x: int, srcY: int)
    requires bpp != 32
    ensures var base := PixelBase(bpp, stride, x, srcY);
            var b0, b1, b2 := ByteAt(indexed, base), ByteAt(indexed, base + 1), ByteAt(indexed, base + 2);
            DecodePixel(indexed, bpp, stride, x, srcY).a == 0 <==>
              (bpp == 8 && b0 == 0) ||
              (bpp == 4 && Nibble(b0, x) == 0) ||
              (bpp == 1 && BitOf(b0, x) == 0) ||
              (bpp == 16 && b0 as int + 0x100 * (b1 as int) == Key565) ||
              (bpp == 24 && b2 == 255 && b1 == 0 && b0 == 255)
  {
  }

  /** A palette as the 256 colours `getColor` returns. */
  predicate IsPalette(colors: seq<Color>) {
    |colors| == 256
  }

  /** The index of pixel x in stored row srcY of an 8-bit (a byte) or 4-bit (a nibble) pattern. */
  function IndexAt(indexed: seq<byte>, bpp: int, stride: int, x: int, srcY: int): byte {
    var b := ByteAt(indexed, PixelBase(bpp, stride, x, srcY));
    if bpp == 8 then b else Nibble(b, x)
  }

  /** `applyPalette` per pixel: index 0 is transparent, any other index its palette colour. */
  function PalettePixel(indexed: seq<byte>, bpp: int, stride: int, colors: seq<Color>, x: int, srcY: int): Color
    requires IsPalette(colors)
  {
    var idx := IndexAt(indexed, bpp, stride, x, srcY);
    if idx == 0 then Transparent else colors[idx]
  }

  function PaletteFn(indexed: seq<byte>, width: int, height: int, bpp: int, colors: seq<Color>): (int, int) -> Color
    requires IsPalette(colors)
  {
    var stride := RowStride(width, bpp);
    (x, y) => PalettePixel(indexed, bpp, stride, colors, x, height - 1 - y)
  }

  /** The bitmap `applyPalette` builds for one indexed pattern. */
  function PaletteImage(indexed: seq<byte>, width: int, height: int, bpp: int, colors: seq<Color>): Image
    requires IsPalette(colors)
  {
    ImageOf(width, height, PaletteFn(indexed, width, height, bpp, colors))
  }

  /** The ramp of a new `Palette`: index i is grey i. */
  const GreyRamp: seq<Color> := seq(256, i requires 0 <= i < 256 => Gray(i))

  /** The placeholder ramp of 4-bit patterns: index i is grey 17 * i. */
  function Nibble17(i: int): Color {
    if 0 <= i < 16 then Color(i * 17, i * 17, i * 17, 255) else Gray(0)
  }

  /**
   * The greys `convertIndexedToRGBA` gives indexed patterns are exactly
   * what `applyPalette` gives with the ramp of a new `Palette` (8 bits) or
   * the ramp 17 * i (4 bits).
   */
  lemma PlaceholderIsRampPalette(indexed: seq<byte>, width: int, height: int, bpp: int)
    requires bpp == 4 || bpp == 8
    ensures var ramp := if bpp == 8 then GreyRamp else seq(256, Nibble17);
            DecodeImage(indexed, width, height, bpp) == PaletteImage(indexed, width, height, bpp, ramp)
  {
    var ramp := if bpp == 8 then GreyRamp else seq(256, Nibble17);
    var a, b := DecodeImage(indexed, width, height, bpp), PaletteImage(indexed, width, height, bpp, ramp);
    forall y, x | 0 <= y < a.height && 0 <= x < a.width
      ensures a.rows[y][x] == b.rows[y][x]
    {
      var stride := RowStride(width, bpp);
      assert a.rows[y][x] == DecodePixel(indexed, bpp, stride, x, height - 1 - y);
      assert b.rows[y][x] == PalettePixel(indexed, bpp, stride, ramp, x, height - 1 - y);
    }
    ImageExt(a, b);
  }

  /** `applyPalette` on one pattern: the bitmap becomes the palette image. */
  method PaintIndexed(indexed: seq<byte>, width: int, height: int, bpp: int, colors: seq<Color>, out: Bitmap)
    requires IsPalette(colors) && out.Valid()
    modifies out
    ensures out.Valid()
    ensures out.Snapshot() == PaletteImage(indexed, width, height, bpp, colors)
  {
    Render(out, width, height, PaletteFn(indexed, width, height, bpp, colors));
  }
}
