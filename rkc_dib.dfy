/**
 * RKC_DIB: a device independent bitmap object holding three pointers
 * (header, palette, pixels) and the row-stride arithmetic on its header.
 *
 * Pointers are 32-bit addresses with 0 as null; the header pointer is an
 * `Option` of the header fields the code reads. Freeing the blocks is not
 * part of the model, only the pointer fields the object keeps.
 */
module RkcDib {
  import opened Bytes

  type Ptr = u32
  const Null: Ptr := 0

  /** The BITMAPINFOHEADER fields the object reads: `biWidth`, `biHeight` (LONG) and `biBitCount` (WORD). */
  datatype BitmapInfoHeader = BitmapInfoHeader(width: i32, height: i32, bitCount: u16)

  /** A Win32 RECT. */
  datatype WinRect = WinRect(left: i32, top: i32, right: i32, bottom: i32)

  /** The bit depths whose stride the object knows. */
  predicate Supported(bpp: int) {
    bpp == 1 || bpp == 4 || bpp == 8 || bpp == 16 || bpp == 24
  }

  /** The bytes one row of `width` pixels at `bpp` bits needs: the bits rounded up to whole bytes. */
  function RowNeed(width: nat, bpp: nat): nat {
    (width * bpp + 7) / 8
  }

  /** `(value + 3) & ~3` on a LONG, wrapping as 32-bit arithmetic does. */
  function AlignTo4(v: i32): (r: i32)
    ensures r % 4 == 0
    ensures v <= 0x7FFF_FFFC ==> v <= r < v + 4
  {
    var a := Align4(v);
    if v <= 0x7FFF_FFFC then
      assert -0x8000_0000 <= a < 0x8000_0000;
      assert a % 0x1_0000_0000 == if a >= 0 then a else a + 0x1_0000_0000;
      a
    else
      assert a == 0x8000_0000;
      -0x8000_0000
  }

  /** The unaligned byte count of one row, computed per bit depth in 32-bit LONG arithmetic. */
  function RowBytes(width: i32, bpp: u16): i32
    requires Supported(bpp)
  {
    if bpp == 1 then CDiv(Wrap32(width + 7), 8)
    else if bpp == 4 then CDiv(Wrap32(width + 1), 2)
    else if bpp == 8 then width
    else if bpp == 16 then Wrap32(width * 2)
    else Wrap32(width * 3)
  }

  lemma Wrap32Small(x: int)
    requires 0 <= x < 0x8000_0000
    ensures Wrap32(x) == x
  {
  }

  lemma NeedAt4(w: nat)
    ensures (w * 4 + 7) / 8 == (w + 1) / 2
  {
    var q := (w + 1) / 2;
    var r := (w + 1) % 2;
    assert w * 4 + 7 == q * 8 + (4 * r + 3);
    DivModUnique(w * 4 + 7, 8, q, 4 * r + 3);
  }

  lemma NeedAtWhole(w: nat, k: nat)
    requires k == 1 || k == 2 || k == 3
    ensures (w * (8 * k) + 7) / 8 == w * k
  {
    DivModUnique(w * (8 * k) + 7, 8, w * k, 7);
  }

  /** Without overflow each per-depth formula is the bits rounded up to bytes. */
  lemma RowBytesIsNeed(width: i32, bpp: u16)
    requires Supported(bpp) && 0 <= width && width * bpp + 7 < 0x8000_0000
    ensures RowBytes(width, bpp) == RowNeed(width, bpp)
  {
    var w: nat := width;
    if bpp == 1 {
      Wrap32Small(w + 7);
    } else if bpp == 4 {
      Wrap32Small(w + 1);
      NeedAt4(w);
    } else if bpp == 8 {
      NeedAtWhole(w, 1);
    } else if bpp == 16 {
      Wrap32Small(w * 2);
      NeedAtWhole(w, 2);
    } else {
      Wrap32Small(w * 3);
      NeedAtWhole(w, 3);
    }
  }

  class Dib {
    var bitmapInfo: Option<BitmapInfoHeader>
    var palette: Ptr
    var bitmap: Ptr

    /** A new object owns nothing. */
    constructor()
      ensures bitmapInfo == None && palette == Null && bitmap == Null
    {
      bitmapInfo := None;
      palette := Null;
      bitmap := Null;
    }

    /** Frees the header and pixel blocks and forgets all three pointers. */
    method Release()
      modifies this
      ensures bitmapInfo == None && palette == Null && bitmap == Null
    {
      bitmapInfo := None;
      palette := Null;
      bitmap := Null;
    }

    /**
     * The row stride in bytes: -1 without a header or for an unknown bit
     * depth, otherwise a multiple of 4 that covers the row by less than 4
     * spare bytes whenever the row size fits a LONG.
     */
    function GetAlignWidth(): (r: i32)
      reads this
      ensures r == -1 <==> bitmapInfo.None? || !Supported(bitmapInfo.value.bitCount)
      ensures bitmapInfo.Some? && Supported(bitmapInfo.value.bitCount) ==> r % 4 == 0
      ensures bitmapInfo.Some? && Supported(bitmapInfo.value.bitCount) && 0 <= bitmapInfo.value.width
              && bitmapInfo.value.width * bitmapInfo.value.bitCount + 7 < 0x8000_0000 ==>
                var need := RowNeed(bitmapInfo.value.width, bitmapInfo.value.bitCount);
                need <= r < need + 4
    {
      match bitmapInfo
      case None => -1
      case Some(info) =>
        if !Supported(info.bitCount) then -1
        else
          if 0 <= info.width && info.width * info.bitCount + 7 < 0x8000_0000 then
            RowBytesIsNeed(info.width, info.bitCount);
            AlignTo4(RowBytes(info.width, info.bitCount))
          else
            AlignTo4(RowBytes(info.width, info.bitCount))
    }

    /** Installs a new pixel block and hands back the one it replaces. */
    method SetBitmap(newBitmap: Ptr) returns (previous: Ptr)
      modifies this
      ensures previous == old(bitmap) && bitmap == newBitmap
      ensures bitmapInfo == old(bitmapInfo) && palette == old(palette)
    {
      previous := bitmap;
      bitmap := newBitmap;
    }

    /** The bitmap's extent with its origin at (0, 0); empty without a header. */
    function GetRect(): (r: WinRect)
      reads this
      ensures r.left == 0 && r.top == 0
      ensures bitmapInfo.Some? ==> r.right == bitmapInfo.value.width && r.bottom == bitmapInfo.value.height
      ensures bitmapInfo.None? ==> r.right == 0 && r.bottom == 0
    {
      match bitmapInfo
      case None => WinRect(0, 0, 0, 0)
      case Some(info) => WinRect(0, 0, info.width, info.height)
    }
  }
}
