/**
 * The CPU-side pixel buffer of the 2D graphics layer and its 256-entry
 * palette. A bitmap stores one RGBA colour per pixel, row-major with the top
 * row first; its value is an `Image`.
 */
module Gfx2d {
  import opened Bytes
  import opened Gfx2dTypes

  /** The contents of a bitmap as a value: `rows[y][x]` is the pixel at (x, y). */
  datatype Image = Image(width: int, height: int, rows: seq<seq<Color>>) {

    ghost predicate Wf() {
      width >= 0 && height >= 0 && (width == 0 <==> height == 0) && |rows| == height &&
      forall y :: 0 <= y < |rows| ==> |rows[y]| == width
    }

    /** `valid()`: the bitmap holds a pixel buffer. */
    predicate IsValid() {
      width > 0 && height > 0
    }
  }

  /** The value of a released (or never created) bitmap. */
  const NoImage := Image(0, 0, [])

  /** The w by h image whose pixel at (x, y) is f(x, y). */
  function MakeImage(w: nat, h: nat, f: (int, int) -> Color): (img: Image)
    requires (w == 0) == (h == 0)
    ensures img.Wf() && img.width == w && img.height == h
    ensures forall y, x :: 0 <= y < h && 0 <= x < w ==> img.rows[y][x] == f(x, y)
  {
    Image(w, h, seq(h, y => seq(w, x => f(x, y))))
  }

  /** Two well-formed images with the same size and the same pixels are equal. */
  lemma ImageExt(a: Image, b: Image)
    requires a.Wf() && b.Wf() && a.width == b.width && a.height == b.height
    requires forall y, x :: 0 <= y < a.height && 0 <= x < a.width ==> a.rows[y][x] == b.rows[y][x]
    ensures a == b
  {
    forall y | 0 <= y < a.height ensures a.rows[y] == b.rows[y] {
      assert forall x :: 0 <= x < a.width ==> a.rows[y][x] == b.rows[y][x];
    }
  }

  /** Source pixel (x - destX + sr.x, y - destY + sr.y) exists and lies in the source rectangle sr. */
  predicate BlitCovers(srcW: int, srcH: int, destX: int, destY: int, sr: Rect, x: int, y: int) {
    var sx := x - destX + sr.x;
    var sy := y - destY + sr.y;
    sr.Contains(sx, sy) && 0 <= sx < srcW && 0 <= sy < srcH
  }

  /** The colour-key test of `blitKeyed`: bits 0..23 of the packed words are equal. */
  predicate KeyMatches(c: Color, key: Color) {
    ToRgba(c) % 0x100_0000 == ToRgba(key) % 0x100_0000
  }

  function Min(a: int, b: int): int { if a < b then a else b }
  function Max(a: int, b: int): int { if a < b then b else a }

  /** One channel of `blitAlpha`: (s * sa + d * (255 - sa)) / 255. */
  function BlendChannel(s: byte, d: byte, sa: byte): (v: byte)
    ensures Min(s, d) <= v <= Max(s, d)
  {
    BlendBetween(s, d, sa);
    (s * sa + d * (255 - sa)) / 255
  }

  lemma MulMono(a: int, b: int, k: int)
    requires a <= b && k >= 0
    ensures a * k <= b * k
  {
  }

  /** The blend of two channel values lies between them. */
  lemma BlendBetween(s: byte, d: byte, sa: byte)
    ensures Min(s, d) <= (s as int * sa + d as int * (255 - sa)) / 255 <= Max(s, d)
  {
    var n := s as int * sa + d as int * (255 - sa);
    var lo, hi := Min(s, d), Max(s, d);
    MulMono(lo, s, sa);
    MulMono(s, hi, sa);
    MulMono(lo, d, 255 - sa);
    MulMono(d, hi, 255 - sa);
    assert lo * 255 <= n <= hi * 255;
    DivModUnique(lo * 255, 255, lo, 0);
    DivModUnique(hi * 255, 255, hi, 0);
  }

  /** What `blitAlpha` makes of destination pixel d under source pixel s. */
  function BlendPixel(s: Color, d: Color): (c: Color)
    ensures s.a != 0 ==> c.a == 255
  {
    if s.a == 0 then d
    else if s.a == 255 then Color(s.r, s.g, s.b, 255)
    else Color(BlendChannel(s.r, d.r, s.a), BlendChannel(s.g, d.g, s.a), BlendChannel(s.b, d.b, s.a), 255)
  }

  /** Blending never moves a channel outside the range spanned by source and destination. */
  lemma BlendPixelBetween(s: Color, d: Color)
    ensures Min(s.r, d.r) <= BlendPixel(s, d).r <= Max(s.r, d.r)
    ensures Min(s.g, d.g) <= BlendPixel(s, d).g <= Max(s.g, d.g)
    ensures Min(s.b, d.b) <= BlendPixel(s, d).b <= Max(s.b, d.b)
  {
  }

  /** A fully transparent source leaves the destination; a fully opaque one replaces its colour. */
  lemma BlendPixelExtremes(s: Color, d: Color)
    ensures s.a == 0 ==> BlendPixel(s, d) == d
    ensures s.a == 255 ==> BlendPixel(s, d) == Color(s.r, s.g, s.b, 255)
  {
  }

  lemma RowMajorBound(x: int, y: int, w: int, h: int)
    requires 0 <= x < w && 0 <= y < h
    ensures 0 <= y * w + x < w * h
  {
    MulMono(y, h - 1, w);
    assert (h - 1) * w + w == h * w;
  }

  class Bitmap {
    var width: int
    var height: int
    /** `pixels[y, x]`, or null when the bitmap holds nothing. */
    var pixels: array2?<Color>

    ghost predicate Valid()
      reads this
    {
      if pixels == null then width == 0 && height == 0
      else width > 0 && height > 0 && pixels.Length0 == height && pixels.Length1 == width
    }

    /** `valid()`: the bitmap has pixels, which a consistent bitmap has exactly when it is not empty. */
    predicate IsValid()
      reads this
      ensures Valid() ==> (IsValid() <==> width > 0 && height > 0)
    {
      pixels != null
    }

    predicate InBounds(x: int, y: int)
      reads this
    {
      0 <= x < width && 0 <= y < height
    }

    /** The bitmap's contents as a value. */
    function Snapshot(): (img: Image)
      reads this, pixels
      requires Valid()
      ensures img.Wf() && img.width == width && img.height == height
      ensures img.IsValid() == IsValid()
      ensures forall y, x :: 0 <= y < height && 0 <= x < width ==> img.rows[y][x] == pixels[y, x]
    {
      if pixels == null then NoImage
      else
        var a := pixels;
        Image(width, height, seq(height, y requires 0 <= y < a.Length0 reads a =>
          seq(a.Length1, x requires 0 <= x < a.Length1 reads a => a[y, x])))
    }

    /** `Bitmap()`: an empty bitmap. */
    constructor ()
      ensures Valid() && pixels == null && width == 0 && height == 0
    {
      width, height, pixels := 0, 0, null;
    }

    /** `Bitmap(width, height)`: an empty bitmap followed by `create`. */
    constructor Sized(w: int, h: int)
      ensures Valid()
      ensures (w > 0 && h > 0) == IsValid()
      ensures IsValid() ==> width == w && height == h && fresh(pixels)
      ensures IsValid() ==> forall y, x :: InBounds(x, y) ==> pixels[y, x] == Transparent
    {
      width, height, pixels := 0, 0, null;
      new;
      var _ := Create(w, h);
    }

    /** The move constructor: takes other's buffer and leaves other empty. */
    constructor Moved(other: Bitmap)
      requires other.Valid()
      modifies other
      ensures Valid() && other.Valid()
      ensures width == old(other.width) && height == old(other.height) && pixels == old(other.pixels)
      ensures other.pixels == null && other.width == 0 && other.height == 0
    {
      width, height, pixels := other.width, other.height, other.pixels;
      new;
      other.width, other.height, other.pixels := 0, 0, null;
    }

    /** Move assignment: releases this bitmap, takes other's buffer and leaves other empty. */
    method MoveAssign(other: Bitmap)
      requires Valid() && other.Valid()
      modifies this, other
      ensures Valid() && other.Valid()
      ensures other == this ==> width == old(width) && height == old(height) && pixels == old(pixels)
      ensures other != this ==> width == old(other.width) && height == old(other.height) && pixels == old(other.pixels)
      ensures other != this ==> other.pixels == null && other.width == 0 && other.height == 0
    {
      if other != this {
        Release();
        width, height, pixels := other.width, other.height, other.pixels;
        other.width, other.height, other.pixels := 0, 0, null;
      }
    }

    /** Releases the old buffer; a positive size gets a fresh transparent-black buffer. */
    method Create(w: int, h: int) returns (ok: bool)
      modifies this
      ensures Valid()
      ensures ok == (w > 0 && h > 0) && ok == IsValid()
      ensures ok ==> width == w && height == h && fresh(pixels)
      ensures ok ==> forall y, x :: InBounds(x, y) ==> pixels[y, x] == Transparent
      ensures !ok ==> width == 0 && height == 0
    {
      Release();
      if w <= 0 || h <= 0 {
        return false;
      }
      width, height := w, h;
      pixels := new Color[h, w]((_, _) => Transparent);
      return true;
    }

    method Release()
      modifies this
      ensures Valid() && pixels == null && width == 0 && height == 0
    {
      width, height, pixels := 0, 0, null;
    }

    /** Bytes per row: four per pixel. */
    function Stride(): (s: int)
      reads this
      ensures Valid() ==> s >= 0 && s % 4 == 0 && (s == 0 <==> !IsValid())
    {
      width * 4
    }

    /** The pixel at (x, y); `Color()` outside the bitmap or when it is empty. */
    function GetPixel(x: int, y: int): (c: Color)
      reads this, pixels
      requires Valid()
      ensures !InBounds(x, y) ==> c == DefaultColor
      ensures InBounds(x, y) ==> pixels != null && c == pixels[y, x]
    {
      if pixels == null || !InBounds(x, y) then DefaultColor else pixels[y, x]
    }

    /** Writes one pixel; a point outside the bitmap is ignored. */
    method SetPixel(x: int, y: int, c: Color)
      requires Valid()
      modifies pixels
      ensures InBounds(x, y) ==> GetPixel(x, y) == c
      ensures forall yy, xx :: InBounds(xx, yy) && (xx != x || yy != y) ==> pixels[yy, xx] == old(pixels[yy, xx])
    {
      if pixels == null || !InBounds(x, y) {
        return;
      }
      pixels[y, x] := c;
    }

    /** Every pixel becomes c. */
    method Clear(c: Color)
      requires Valid()
      modifies pixels
      ensures forall y, x :: InBounds(x, y) ==> pixels[y, x] == c
    {
      if pixels == null {
        return;
      }
      var y := 0;
      while y < height
        invariant 0 <= y <= height
        invariant forall yy, xx :: 0 <= yy < y && 0 <= xx < width ==> pixels[yy, xx] == c
      {
        var x := 0;
        while x < width
          invariant 0 <= x <= width
          invariant forall yy, xx :: 0 <= yy < y && 0 <= xx < width ==> pixels[yy, xx] == c
          invariant forall xx :: 0 <= xx < x ==> pixels[y, xx] == c
        {
          pixels[y, x] := c;
          x := x + 1;
        }
        y := y + 1;
      }
    }

    /** Pixels inside both rect and the bitmap become c; all others keep their colour. */
    method FillRect(rect: Rect, c: Color)
      requires Valid()
      modifies pixels
      ensures forall y, x :: InBounds(x, y) ==>
                pixels[y, x] == if rect.Contains(x, y) then c else old(pixels[y, x])
    {
      if pixels == null {
        return;
      }
      var x0, y0 := Max(0, rect.x), Max(0, rect.y);
      var x1, y1 := Min(width, rect.x + rect.w), Min(height, rect.y + rect.h);
      var y := y0;
      while y < y1
        invariant y0 <= y && (y <= y1 || y == y0)
        invariant forall yy, xx :: InBounds(xx, yy) ==>
                    pixels[yy, xx] == if rect.Contains(xx, yy) && yy < y then c else old(pixels[yy, xx])
      {
        var x := x0;
        while x < x1
          invariant x0 <= x && (x <= x1 || x == x0)
          invariant forall yy, xx :: InBounds(xx, yy) ==>
                      pixels[yy, xx] == if rect.Contains(xx, yy) && (yy < y || (yy == y && xx < x)) then c else old(pixels[yy, xx])
        {
          pixels[y, x] := c;
          x := x + 1;
        }
        y := y + 1;
      }
    }

    /**
     * Copies the part of src's rectangle sr that lies inside src so that
     * sr's corner lands at (destX, destY); destination pixels outside this
     * bitmap are skipped.
     */
    method Blit(src: Bitmap, destX: int, destY: int, sr: Rect)
      requires Valid() && src.Valid()
      requires pixels == null || src.pixels != pixels
      modifies pixels
      ensures forall y, x :: InBounds(x, y) ==>
                pixels[y, x] == if BlitCovers(src.width, src.height, destX, destY, sr, x, y)
                                then src.pixels[y - destY + sr.y, x - destX + sr.x]
                                else old(pixels[y, x])
    {
      if pixels == null || src.pixels == null {
        return;
      }
      var sx0, sy0 := Max(0, sr.x), Max(0, sr.y);
      var sx1, sy1 := Min(src.width, sr.x + sr.w), Min(src.height, sr.y + sr.h);
      var dX, dY := destX + (sx0 - sr.x), destY + (sy0 - sr.y);
      var sy := sy0;
      while sy < sy1
        invariant sy0 <= sy && (sy <= sy1 || sy == sy0)
        invariant forall y, x :: InBounds(x, y) ==>
                    pixels[y, x] == if BlitCovers(src.width, src.height, destX, destY, sr, x, y) && y - destY + sr.y < sy
                                    then src.pixels[y - destY + sr.y, x - destX + sr.x]
                                    else old(pixels[y, x])
      {
        var dy := dY + (sy - sy0);
        if 0 <= dy < height {
          var sx := sx0;
          while sx < sx1
            invariant sx0 <= sx && (sx <= sx1 || sx == sx0)
            invariant forall y, x :: InBounds(x, y) ==>
                        pixels[y, x] == if BlitCovers(src.width, src.height, destX, destY, sr, x, y) &&
                                           (y - destY + sr.y < sy || (y == dy && x - destX + sr.x < sx))
                                        then src.pixels[y - destY + sr.y, x - destX + sr.x]
                                        else old(pixels[y, x])
          {
            var dx := dX + (sx - sx0);
            if 0 <= dx < width {
              pixels[dy, dx] := src.pixels[sy, sx];
            }
            sx := sx + 1;
          }
        }
        sy := sy + 1;
      }
    }

    /** `blit(src, destX, destY)`: the whole of src. */
    method BlitAll(src: Bitmap, destX: int, destY: int)
      requires Valid() && src.Valid()
      requires pixels == null || src.pixels != pixels
      modifies pixels
      ensures forall y, x :: InBounds(x, y) ==>
                pixels[y, x] == if src.InBounds(x - destX, y - destY)
                                then src.pixels[y - destY, x - destX]
                                else old(pixels[y, x])
    {
      Blit(src, destX, destY, Rect(0, 0, src.width, src.height));
    }

    /** Copies src to (destX, destY), skipping source pixels whose RGB equals the key's. */
    method BlitKeyed(src: Bitmap, destX: int, destY: int, key: Color)
      requires Valid() && src.Valid()
      requires pixels == null || src.pixels != pixels
      modifies pixels
      ensures forall y, x :: InBounds(x, y) ==>
                pixels[y, x] == if src.InBounds(x - destX, y - destY) && !KeyMatches(src.pixels[y - destY, x - destX], key)
                                then src.pixels[y - destY, x - destX]
                                else old(pixels[y, x])
    {
      if pixels == null || src.pixels == null {
        return;
      }
      var sy := 0;
      while sy < src.height
        invariant 0 <= sy <= src.height
        invariant forall y, x :: InBounds(x, y) ==>
                    pixels[y, x] == if src.InBounds(x - destX, y - destY) && y - destY < sy &&
                                       !KeyMatches(src.pixels[y - destY, x - destX], key)
                                    then src.pixels[y - destY, x - destX]
                                    else old(pixels[y, x])
      {
        var dy := destY + sy;
        if 0 <= dy < height {
          var sx := 0;
          while sx < src.width
            invariant 0 <= sx <= src.width
            invariant forall y, x :: InBounds(x, y) ==>
                        pixels[y, x] == if src.InBounds(x - destX, y - destY) && (y - destY < sy || (y == dy && x - destX < sx)) &&
                                           !KeyMatches(src.pixels[y - destY, x - destX], key)
                                        then src.pixels[y - destY, x - destX]
                                        else old(pixels[y, x])
          {
            var dx := destX + sx;
            if 0 <= dx < width && !KeyMatches(src.pixels[sy, sx], key) {
              pixels[dy, dx] := src.pixels[sy, sx];
            }
            sx := sx + 1;
          }
        }
        sy := sy + 1;
      }
    }

    /** Blends src onto this bitmap at (destX, destY) with the source alpha. */
    method BlitAlpha(src: Bitmap, destX: int, destY: int)
      requires Valid() && src.Valid()
      requires pixels == null || src.pixels != pixels
      modifies pixels
      ensures forall y, x :: InBounds(x, y) ==>
                pixels[y, x] == if src.InBounds(x - destX, y - destY)
                                then BlendPixel(src.pixels[y - destY, x - destX], old(pixels[y, x]))
                                else old(pixels[y, x])
    {
      if pixels == null || src.pixels == null {
        return;
      }
      var sy := 0;
      while sy < src.height
        invariant 0 <= sy <= src.height
        invariant forall y, x :: InBounds(x, y) ==>
                    pixels[y, x] == if src.InBounds(x - destX, y - destY) && y - destY < sy
                                    then BlendPixel(src.pixels[y - destY, x - destX], old(pixels[y, x]))
                                    else old(pixels[y, x])
      {
        var dy := destY + sy;
        if 0 <= dy < height {
          var sx := 0;
          while sx < src.width
            invariant 0 <= sx <= src.width
            invariant forall y, x :: InBounds(x, y) ==>
                        pixels[y, x] == if src.InBounds(x - destX, y - destY) && (y - destY < sy || (y == dy && x - destX < sx))
                                        then BlendPixel(src.pixels[y - destY, x - destX], old(pixels[y, x]))
                                        else old(pixels[y, x])
          {
            var dx := destX + sx;
            if 0 <= dx < width {
              pixels[dy, dx] := BlendPixel(src.pixels[sy, sx], pixels[dy, dx]);
            }
            sx := sx + 1;
          }
        }
        sy := sy + 1;
      }
    }
  }

  /** The grey level i as an opaque colour: entry i of a fresh palette. */
  function Gray(i: byte): Color {
    Color(i, i, i, 255)
  }

  /** A 256-entry colour table. */
  class Palette {
    var colors: array<Color>

    ghost predicate Valid()
      reads this
    {
      colors.Length == 256
    }

    /** A fresh palette is the grey ramp: entry i is (i, i, i, 255). */
    constructor ()
      ensures Valid() && fresh(colors)
      ensures forall i :: 0 <= i < 256 ==> colors[i] == Gray(i)
    {
      colors := new Color[256](i requires 0 <= i < 256 => Gray(i));
    }

    /** Writes entry index; an index outside 0..255 is ignored. */
    method SetColor(index: int, c: Color)
      requires Valid()
      modifies colors
      ensures colors[..] == if 0 <= index < 256 then old(colors[..])[index := c] else old(colors[..])
    {
      if 0 <= index < 256 {
        colors[index] := c;
      }
    }

    /** Entry index, or `Color()` for an index outside 0..255. */
    function GetColor(index: int): (c: Color)
      reads this, colors
      requires Valid()
      ensures 0 <= index < 256 ==> c == colors[index]
      ensures !(0 <= index < 256) ==> c == Color(0, 0, 0, 255)
    {
      if 0 <= index < 256 then colors[index] else DefaultColor
    }

    /** Reads min(count, 256) entries stored as blue, green, red, reserved; alpha becomes 255. */
    method LoadFromRgbQuad(data: seq<byte>, count: int)
      requires Valid()
      requires 4 * Min(Max(count, 0), 256) <= |data|
      modifies colors
      ensures forall i :: 0 <= i < 256 ==>
                colors[i] == if i < count then Color(data[4 * i + 2], data[4 * i + 1], data[4 * i], 255) else old(colors[i])
    {
      var i := 0;
      while i < count && i < 256
        invariant 0 <= i <= 256 && i <= Max(count, 0)
        invariant forall j :: 0 <= j < 256 ==>
                    colors[j] == if j < i then Color(data[4 * j + 2], data[4 * j + 1], data[4 * j], 255) else old(colors[j])
      {
        colors[i] := Color(data[4 * i + 2], data[4 * i + 1], data[4 * i], 255);
        i := i + 1;
      }
    }

    /**
     * Expands width*height palette indices into out, recreating out unless it
     * already has that size: pixel (x, y) becomes the entry named by byte
     * y * width + x.
     */
    method ApplyTo(indexed: seq<byte>, width: int, height: int, out: Bitmap)
      requires Valid() && out.Valid()
      requires width * height <= 0 || (width > 0 && height > 0 && width * height <= |indexed|)
      modifies out, out.pixels
      ensures out.Valid()
      ensures out.IsValid() == (width > 0 && height > 0)
      ensures out.IsValid() ==> out.width == width && out.height == height
      ensures forall y, x :: out.InBounds(x, y) ==> out.pixels[y, x] == colors[ByteAt(indexed, y * width + x)]
    {
      if !out.IsValid() || out.width != width || out.height != height {
        var _ := out.Create(width, height);
      }
      if !out.IsValid() {
        return;
      }
      var y := 0;
      while y < height
        invariant 0 <= y <= height
        invariant out.Valid() && out.IsValid() && out.width == width && out.height == height
        invariant out.pixels == old(out.pixels) || fresh(out.pixels)
        invariant forall yy, xx :: 0 <= yy < y && 0 <= xx < width ==> out.pixels[yy, xx] == colors[ByteAt(indexed, yy * width + xx)]
      {
        var x := 0;
        while x < width
          invariant 0 <= x <= width
          invariant out.Valid() && out.IsValid() && out.width == width && out.height == height
        invariant out.pixels == old(out.pixels) || fresh(out.pixels)
          invariant forall yy, xx :: 0 <= yy < y && 0 <= xx < width ==> out.pixels[yy, xx] == colors[ByteAt(indexed, yy * width + xx)]
          invariant forall xx :: 0 <= xx < x ==> out.pixels[y, xx] == colors[ByteAt(indexed, y * width + xx)]
        {
          RowMajorBound(x, y, width, height);
          out.pixels[y, x] := colors[indexed[y * width + x]];
          x := x + 1;
        }
        y := y + 1;
      }
    }
  }

  /**
   * `Palette::loadFromFile` on the file's bytes (None when it cannot be
   * opened): every entry starts as transparent black, then the first
   * min(size / 4, 256) entries are read as blue, green, red, ignored, with
   * alpha 0 for entry 0 and 255 for the others.
   */
  method LoadPaletteFromFile(file: Option<seq<byte>>) returns (pal: Palette)
    ensures pal.Valid() && fresh(pal) && fresh(pal.colors)
    ensures forall i :: 0 <= i < 256 ==> pal.colors[i] == FileEntry(file, i)
  {
    pal := new Palette();
    var i := 0;
    while i < 256
      invariant 0 <= i <= 256 && pal.Valid() && fresh(pal.colors)
      invariant forall j :: 0 <= j < i ==> pal.colors[j] == Transparent
    {
      pal.colors[i] := Transparent;
      i := i + 1;
    }
    if file.None? {
      return;
    }
    var bytes := file.value;
    var numColors := Min(|bytes| / 4, 256);
    i := 0;
    while i < numColors
      invariant 0 <= i <= numColors && pal.Valid() && fresh(pal.colors)
      invariant forall j :: 0 <= j < 256 ==> pal.colors[j] == if j < i then FileEntry(file, j) else Transparent
    {
      var a: byte := if i == 0 then 0 else 255;
      pal.colors[i] := Color(bytes[4 * i + 2], bytes[4 * i + 1], bytes[4 * i], a);
      i := i + 1;
    }
  }

  /** Entry i of the palette read from a side file, as `loadFromFile` builds it. */
  function FileEntry(file: Option<seq<byte>>, i: nat): Color {
    if file.Some? && i < 256 && 4 * i + 4 <= |file.value| then
      Color(file.value[4 * i + 2], file.value[4 * i + 1], file.value[4 * i], if i == 0 then 0 else 255)
    else Transparent
  }

  /** Whatever the file holds, entry 0 of a loaded palette is fully transparent. */
  lemma FileEntryZeroTransparent(file: Option<seq<byte>>)
    ensures FileEntry(file, 0).a == 0
  {
  }

  /**
   * `Palette::createDefault` given the side file's bytes: the loaded palette
   * when entry 1 has any colour, otherwise the grey ramp with entry 0 transparent.
   */
  method CreateDefaultPalette(file: Option<seq<byte>>) returns (pal: Palette)
    ensures pal.Valid() && fresh(pal) && fresh(pal.colors)
    ensures pal.colors[0].a == 0
    ensures forall i :: 0 <= i < 256 ==> pal.colors[i] == DefaultEntry(file, i)
  {
    pal := LoadPaletteFromFile(file);
    if pal.colors[1].r != 0 || pal.colors[1].g != 0 || pal.colors[1].b != 0 {
      return;
    }
    var i := 0;
    while i < 256
      invariant 0 <= i <= 256 && pal.Valid() && fresh(pal.colors)
      invariant forall j :: 0 <= j < 256 ==> pal.colors[j] == if j < i then DefaultEntry(file, j) else FileEntry(file, j)
    {
      pal.colors[i] := Color(i, i, i, if i == 0 then 0 else 255);
      i := i + 1;
    }
  }

  /** Entry i of `createDefault`'s result. */
  function DefaultEntry(file: Option<seq<byte>>, i: byte): Color {
    var e1 := FileEntry(file, 1);
    if e1.r != 0 || e1.g != 0 || e1.b != 0 then FileEntry(file, i)
    else Color(i, i, i, if i == 0 then 0 else 255)
  }
}
