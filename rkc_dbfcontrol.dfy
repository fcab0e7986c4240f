/**
 * RKC_DBFCONTROL: the double-buffer control record.
 *
 * The record is 0x144 bytes the code reads and writes as 32-bit words at
 * fixed byte offsets, so it is modelled as an array of 81 words indexed by
 * offset / 4. Two RKC_DBF objects of 0x24 bytes each are embedded at 0x20
 * and 0x44; each keeps its clip rectangle at its own offset 0x14.
 *
 * A signed field is the two's complement reading (`ToSigned`) of its word.
 */
module RkcDbfControl {
  import opened Bytes

  const Words: nat := 0x144 / 4

  const DrawingFlagAt: nat := 0x04
  const CurrentIndexAt: nat := 0x0c
  const DbfBase: nat := 0x20
  const DbfSize: nat := 0x24
  const DbfClipAt: nat := 0x14
  const DrawCountAt: nat := 0x68
  const ModeAt: nat := 0x6c
  const ClearFlagAt: nat := 0x7c
  const ClearColorAt: nat := 0x80
  const PaintFunctionAt: nat := 0x138

  /** Window style constants. */
  const WsPopup: i32 := -0x8000_0000
  const WsCaptionSysMenu: i32 := 0x00CA_0000
  /** CW_USEDEFAULT stored in a LONG. */
  const CwUseDefault: i32 := -0x8000_0000

  /** The four words of a RECT (left, top, right, bottom), copied as raw 32-bit values. */
  datatype Rect4 = Rect4(left: u32, top: u32, right: u32, bottom: u32)

  /** The word slot of a byte offset. */
  function Slot(offset: nat): nat {
    offset / 4
  }

  /** The byte offset of the k-th embedded RKC_DBF (index arithmetic of `GetCurrentDBF`). */
  function DbfOffset(index: int): (offset: int)
    ensures (offset - DbfBase) % DbfSize == 0
    ensures 0 <= index < 2 ==> DbfBase <= offset && offset + DbfSize <= DrawCountAt
  {
    DbfBase + index * DbfSize
  }

  /** The byte offset of the clip rectangle of the k-th embedded RKC_DBF. */
  function ClipAt(index: nat): nat
    requires index < 2
  {
    DbfOffset(index) + DbfClipAt
  }

  /** The rectangle stored at a byte offset. */
  function RectAt(w: seq<u32>, at: nat): Rect4
    requires at % 4 == 0 && Slot(at) + 4 <= |w|
  {
    var k := Slot(at);
    Rect4(w[k], w[k + 1], w[k + 2], w[k + 3])
  }

  /** The words with a rectangle written at a byte offset: those four change and no other. */
  function WriteRect(w: seq<u32>, at: nat, rect: Rect4): (r: seq<u32>)
    requires at % 4 == 0 && Slot(at) + 4 <= |w|
    ensures |r| == |w| && RectAt(r, at) == rect
    ensures forall i :: 0 <= i < |w| && !(Slot(at) <= i < Slot(at) + 4) ==> r[i] == w[i]
  {
    var k := Slot(at);
    w[k := rect.left][k + 1 := rect.top][k + 2 := rect.right][k + 3 := rect.bottom]
  }

  /** Both embedded clip rectangles set to the same rectangle. */
  function ClipBoth(w: seq<u32>, rect: Rect4): seq<u32>
    requires |w| == Words
  {
    WriteRect(WriteRect(w, ClipAt(0), rect), ClipAt(1), rect)
  }

  /**
   * After both clip rectangles are set, each embedded RKC_DBF (so the
   * current one too) holds the rectangle, and only the eight clip words differ.
   */
  lemma ClipBothReachesEveryDbf(w: seq<u32>, rect: Rect4, index: nat)
    requires |w| == Words && index < 2
    ensures |ClipBoth(w, rect)| == Words
    ensures RectAt(ClipBoth(w, rect), DbfOffset(index) + DbfClipAt) == rect
    ensures forall i :: (0 <= i < Words && !(Slot(ClipAt(0)) <= i < Slot(ClipAt(0)) + 4)
              && !(Slot(ClipAt(1)) <= i < Slot(ClipAt(1)) + 4)) ==> ClipBoth(w, rect)[i] == w[i]
  {
    var w1 := WriteRect(w, ClipAt(0), rect);
    var w2 := WriteRect(w1, ClipAt(1), rect);
    assert Slot(ClipAt(0)) + 4 <= Slot(ClipAt(1));
    if index == 0 {
      assert RectAt(w2, ClipAt(0)) == RectAt(w1, ClipAt(0));
    }
  }

  /**
   * `RKC_DBF::SetClipRect` on the RKC_DBF object at byte offset `base` of a
   * word buffer: the four words of its clip rectangle, and nothing else.
   */
  method DbfSetClipRect(mem: array<u32>, base: nat, rect: Rect4)
    requires base % 4 == 0 && Slot(base) + Slot(DbfSize) <= mem.Length
    modifies mem
    ensures mem[..] == WriteRect(old(mem[..]), base + DbfClipAt, rect)
  {
    var k := Slot(base + DbfClipAt);
    mem[k] := rect.left;
    mem[k + 1] := rect.top;
    mem[k + 2] := rect.right;
    mem[k + 3] := rect.bottom;
  }

  /** An argument of -1 stands for the mode stored in the record. */
  function Resolve(arg: i32, mode: i32): i32 {
    if arg == -1 then mode else arg
  }

  class DbfControl {
    const mem: array<u32>

    predicate Valid()
      reads this
    {
      mem.Length == Words
    }

    /** The control over the memory of an existing record. */
    constructor(record: array<u32>)
      requires record.Length == Words
      ensures mem == record && Valid()
    {
      mem := record;
    }

    /** The signed field at a byte offset. */
    function Field(offset: nat): i32
      reads this, mem
      requires Valid() && Slot(offset) < Words
    {
      ToSigned(mem[Slot(offset)])
    }

    /** `GetCurrentDBF`: the byte offset of the RKC_DBF the index at 0x0c selects. */
    function GetCurrentDBF(): (offset: int)
      reads this, mem
      requires Valid()
      ensures 0 <= Field(CurrentIndexAt) < 2 ==>
        DbfBase <= offset && offset + DbfSize <= DrawCountAt && (offset - DbfBase) % DbfSize == 0
      ensures Field(CurrentIndexAt) == 1 ==> offset == DbfBase + DbfSize
    {
      DbfOffset(Field(CurrentIndexAt))
    }

    /** The window style as a `LONG`: a pop-up window for mode 0 (the bit pattern 0x80000000) and a captioned one otherwise. */
    function GetStyle(arg: i32): (r: i32)
      reads this, mem
      requires Valid()
      ensures r == WsPopup <==> Resolve(arg, Field(ModeAt)) == 0
      ensures r == WsPopup || r == WsCaptionSysMenu
    {
      var v := if arg == -1 then Field(ModeAt) else arg;
      if v == 0 then -0x8000_0000 else 0x00CA_0000
    }

    /** The extended window style: 0x10 for mode 1 and 0x108 otherwise, by masking 0 or -1 with 0xf8. */
    function GetExStyle(arg: i32): (r: i32)
      reads this, mem
      requires Valid()
      ensures Resolve(arg, Field(ModeAt)) == 1 ==> r == 0x10
      ensures Resolve(arg, Field(ModeAt)) != 1 ==> r == 0x108
    {
      var v := if arg == -1 then Field(ModeAt) else arg;
      var result: i32 := if v == 1 then 0 else -1;
      var masked := ((ToUnsigned(result) as bv32) & 0xf8) as int;
      assert ToUnsigned(-1) == 0xFFFF_FFFF;
      assert (0xFFFF_FFFF as bv32) & 0xf8 == 0xf8;
      assert (0 as bv32) & 0xf8 == 0;
      masked + 0x10
    }

    /** The window position: CW_USEDEFAULT twice for mode 1 and the origin otherwise. */
    method GetPosition(outPoint: array<i32>, arg: i32)
      requires Valid() && outPoint.Length >= 2
      modifies outPoint
      ensures Resolve(arg, Field(ModeAt)) == 1 ==> outPoint[0] == CwUseDefault && outPoint[1] == CwUseDefault
      ensures Resolve(arg, Field(ModeAt)) != 1 ==> outPoint[0] == 0 && outPoint[1] == 0
      ensures outPoint[2..] == old(outPoint[2..])
    {
      var v := arg;
      if v == -1 {
        v := Field(ModeAt);
      }
      if v == 1 {
        outPoint[0] := -0x8000_0000;
        outPoint[1] := -0x8000_0000;
      } else {
        outPoint[0] := 0;
        outPoint[1] := 0;
      }
    }

    /**
     * The end of a frame: the draw count goes up by one (wrapping as a
     * 32-bit int), the drawing flag drops from 1 to 0 and keeps any other
     * value, and no other word changes.
     */
    method DrawEnd()
      requires Valid()
      modifies mem
      ensures mem[Slot(DrawCountAt)] == (old(mem[Slot(DrawCountAt)]) as int + 1) % 0x1_0000_0000
      ensures old(Field(DrawCountAt)) < 0x7FFF_FFFF ==> Field(DrawCountAt) == old(Field(DrawCountAt)) + 1
      ensures old(Field(DrawingFlagAt)) == 1 ==> Field(DrawingFlagAt) == 0
      ensures old(Field(DrawingFlagAt)) != 1 ==> mem[Slot(DrawingFlagAt)] == old(mem[Slot(DrawingFlagAt)])
      ensures forall i :: 0 <= i < Words && i != Slot(DrawCountAt) && i != Slot(DrawingFlagAt) ==>
                mem[i] == old(mem[i])
    {
      var count := Field(DrawCountAt);
      mem[Slot(DrawCountAt)] := ToUnsigned(Wrap32(count as int + 1));
      if Field(DrawingFlagAt) == 1 {
        mem[Slot(DrawingFlagAt)] := 0;
      }
    }

    /** The draw count goes back to 0 and nothing else changes. */
    method FlushDrawCount()
      requires Valid()
      modifies mem
      ensures mem[..] == old(mem[..])[Slot(DrawCountAt) := 0]
    {
      mem[Slot(DrawCountAt)] := 0;
    }

    /** Stores the paint callback pointer and nothing else. */
    method SetPaintFunction(callback: u32)
      requires Valid()
      modifies mem
      ensures mem[..] == old(mem[..])[Slot(PaintFunctionAt) := callback]
    {
      mem[Slot(PaintFunctionAt)] := callback;
    }

    /** Stores the clear flag and the clear colour, which is 0 when no RGBQUAD is given. */
    method SetScreenClear(flag: i32, rgbquad: Option<u32>)
      requires Valid()
      modifies mem
      ensures Field(ClearFlagAt) == flag
      ensures mem[Slot(ClearColorAt)] == (if rgbquad.Some? then rgbquad.value else 0)
      ensures forall i :: 0 <= i < Words && i != Slot(ClearFlagAt) && i != Slot(ClearColorAt) ==>
                mem[i] == old(mem[i])
    {
      mem[Slot(ClearFlagAt)] := ToUnsigned(flag);
      if rgbquad.Some? {
        mem[Slot(ClearColorAt)] := rgbquad.value;
      } else {
        mem[Slot(ClearColorAt)] := 0;
      }
    }

    /** The same clip rectangle in both embedded RKC_DBF objects, as `RKC_DBF::SetClipRect` on each would write it. */
    method SetClipRect(rect: Rect4)
      requires Valid()
      modifies mem
      ensures mem[..] == ClipBoth(old(mem[..]), rect)
    {
      mem[Slot(0x34)] := rect.left;
      mem[Slot(0x38)] := rect.top;
      mem[Slot(0x3c)] := rect.right;
      mem[Slot(0x40)] := rect.bottom;
      mem[Slot(0x58)] := rect.left;
      mem[Slot(0x5c)] := rect.top;
      mem[Slot(0x60)] := rect.right;
      mem[Slot(0x64)] := rect.bottom;
    }
  }
}
