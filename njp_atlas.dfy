/**
 * The rectangle layout of `TextureAtlas::createFromSpriteSheet`: patterns
 * with a bitmap are placed left to right in rows of a power-of-two wide
 * atlas, wrapping to a new row below the tallest pattern of the current row.
 */
module NjpAtlas {
  import opened Gfx2dTypes
  import opened Gfx2d
  import opened NjpSheet

  /** The largest atlas side the rounding loops go to. */
  const MaxSide := 4096

  /** The powers of two from 1 to 4096. */
  predicate IsSide(n: int) {
    n == 1 || n == 2 || n == 4 || n == 8 || n == 16 || n == 32 || n == 64 || n == 128 ||
    n == 256 || n == 512 || n == 1024 || n == 2048 || n == 4096
  }

  /** The rounding loop from side p: double while below n and below 4096. */
  function SideFrom(p: int, n: int): (r: int)
    requires IsSide(p)
    ensures p <= r && IsSide(r)
    ensures r >= n || r == MaxSide
    ensures r == p || r / 2 < n
    decreases MaxSide - p
  {
    if p < n && p < MaxSide then SideFrom(2 * p, n) else p
  }

  /** The atlas side for n: the least power of two at least n, or 4096 if n is larger. */
  function AtlasSide(n: int): (r: int)
    ensures IsSide(r)
    ensures r >= n || r == MaxSide
    ensures r == 1 || r / 2 < n
  {
    SideFrom(1, n)
  }

  /** The rounding loop of `createFromSpriteSheet`, used for the width and the height. */
  method RoundUpSide(n: int) returns (side: int)
    ensures side == AtlasSide(n)
  {
    side := 1;
    while side < n && side < MaxSide
      invariant IsSide(side)
      invariant SideFrom(side, n) == AtlasSide(n)
      decreases MaxSide - side
    {
      side := side * 2;
    }
  }

  /** What the layout needs of a pattern: whether its bitmap is valid, and its size. */
  datatype Slot = Slot(valid: bool, w: int, h: int)

  function SlotOf(p: Pattern): Slot {
    Slot(p.bitmap.IsValid(), p.width, p.height)
  }

  function Slots(ps: seq<Pattern>): (s: seq<Slot>)
    ensures |s| == |ps| && forall k :: 0 <= k < |ps| ==> s[k] == SlotOf(ps[k])
  {
    seq(|ps|, k requires 0 <= k < |ps| => SlotOf(ps[k]))
  }

  /** The sum of the widths of the patterns with a valid bitmap among the first n. */
  function TotalWidth(slots: seq<Slot>, n: nat): int
    requires n <= |slots|
  {
    if n == 0 then 0
    else TotalWidth(slots, n - 1) + (if slots[n - 1].valid then slots[n - 1].w else 0)
  }

  /** The packing cursor: the next free x, the current row's y, and the tallest height in the row. */
  datatype Cursor = Cursor(x: int, y: int, rowH: int)

  datatype Packing = Packing(rects: seq<Rect>, cur: Cursor)

  /** The layout of the first n slots in an atlas of the given width. */
  function PackPrefix(slots: seq<Slot>, n: nat, atlasWidth: int): (p: Packing)
    requires n <= |slots|
    ensures |p.rects| == n
  {
    if n == 0 then Packing([], Cursor(0, 0, 0))
    else
      var prev := PackPrefix(slots, n - 1, atlasWidth);
      var s := slots[n - 1];
      PackNext(prev, s, atlasWidth)
  }

  /** One slot of the layout: no bitmap gives an empty rect; otherwise wrap if it does not fit, place it, and advance. */
  function PackNext(prev: Packing, s: Slot, atlasWidth: int): (p: Packing)
    ensures |p.rects| == |prev.rects| + 1 && p.rects[..|prev.rects|] == prev.rects
  {
    var c := prev.cur;
    if !s.valid then Packing(prev.rects + [EmptyRect], c)
    else
      var c1 := if c.x + s.w > atlasWidth then Cursor(0, c.y + c.rowH, 0) else c;
      Packing(prev.rects + [Rect(c1.x, c1.y, s.w, s.h)], Cursor(c1.x + s.w, c1.y, Max(c1.rowH, s.h)))
  }

  /** The layout of all slots. */
  function Pack(slots: seq<Slot>, atlasWidth: int): Packing {
    PackPrefix(slots, |slots|, atlasWidth)
  }

  /**
   * Each slot without a bitmap gets the empty rect; each other slot gets a
   * rect of its own size that starts at x = 0 or ends within the atlas width.
   */
  lemma {:induction false} PackShape(slots: seq<Slot>, n: nat, atlasWidth: int)
    requires n <= |slots|
    ensures forall k :: 0 <= k < n && !slots[k].valid ==> PackPrefix(slots, n, atlasWidth).rects[k] == EmptyRect
    ensures forall k :: 0 <= k < n && slots[k].valid ==>
              var r := PackPrefix(slots, n, atlasWidth).rects[k];
              r.w == slots[k].w && r.h == slots[k].h && (r.x == 0 || r.x + r.w <= atlasWidth)
  {
    if n > 0 {
      PackShape(slots, n - 1, atlasWidth);
      var prev := PackPrefix(slots, n - 1, atlasWidth);
      assert PackPrefix(slots, n, atlasWidth).rects[..n - 1] == prev.rects;
    }
  }

  /** No two placed rects overlap. */
  ghost predicate Disjoint(slots: seq<Slot>, rects: seq<Rect>)
    requires |rects| <= |slots|
  {
    forall i, j :: 0 <= i < j < |rects| && slots[i].valid && slots[j].valid ==> !rects[i].Intersects(rects[j])
  }

  /** Every placed rect lies in a finished row above the cursor, or in the current row left of it. */
  ghost predicate BehindCursor(slots: seq<Slot>, p: Packing)
    requires |p.rects| <= |slots|
  {
    p.cur.x >= 0 && p.cur.y >= 0 && p.cur.rowH >= 0 &&
    forall k :: 0 <= k < |p.rects| && slots[k].valid ==>
      var r := p.rects[k];
      r.y + r.h <= p.cur.y ||
      (r.y == p.cur.y && r.x + r.w <= p.cur.x && r.h <= p.cur.rowH)
  }

  /** Patterns with a bitmap have a positive size. */
  ghost predicate PositiveSizes(slots: seq<Slot>) {
    forall k :: 0 <= k < |slots| && slots[k].valid ==> slots[k].w > 0 && slots[k].h > 0
  }

  /** When every pattern with a bitmap has a positive size, the layout of the first n keeps its rects disjoint and behind the cursor. */
  lemma {:induction false} PackPrefixDisjoint(slots: seq<Slot>, n: nat, atlasWidth: int)
    requires n <= |slots| && PositiveSizes(slots)
    ensures BehindCursor(slots, PackPrefix(slots, n, atlasWidth))
    ensures Disjoint(slots, PackPrefix(slots, n, atlasWidth).rects)
  {
    if n > 0 {
      PackPrefixDisjoint(slots, n - 1, atlasWidth);
      PackShape(slots, n, atlasWidth);
      var prev := PackPrefix(slots, n - 1, atlasWidth);
      var p := PackPrefix(slots, n, atlasWidth);
      assert p.rects[..n - 1] == prev.rects;
      var s := slots[n - 1];
      if s.valid {
        var c := prev.cur;
        var c1 := if c.x + s.w > atlasWidth then Cursor(0, c.y + c.rowH, 0) else c;
        var r := p.rects[n - 1];
        assert r == Rect(c1.x, c1.y, s.w, s.h);
        forall k | 0 <= k < n - 1 && slots[k].valid
          ensures !p.rects[k].Intersects(r)
          ensures var q := p.rects[k];
                  q.y + q.h <= p.cur.y || (q.y == p.cur.y && q.x + q.w <= p.cur.x && q.h <= p.cur.rowH)
        {
          assert p.rects[k] == prev.rects[k];
        }
      }
    }
  }

  /** The layout of a whole sheet never overlaps two patterns, whatever the atlas width. */
  lemma PackDisjoint(slots: seq<Slot>, atlasWidth: int)
    requires PositiveSizes(slots)
    ensures Disjoint(slots, Pack(slots, atlasWidth).rects)
    ensures forall k :: 0 <= k < |slots| && slots[k].valid ==>
              var r := Pack(slots, atlasWidth).rects[k];
              r.y + r.h <= Pack(slots, atlasWidth).cur.y + Pack(slots, atlasWidth).cur.rowH
  {
    PackPrefixDisjoint(slots, |slots|, atlasWidth);
  }

  /** Patterns the loader produced have a positive size wherever they have a bitmap. */
  lemma LoadedSlotsPositive(ps: seq<Pattern>)
    requires forall k :: 0 <= k < |ps| ==> PatternOk(ps[k])
    ensures PositiveSizes(Slots(ps))
  {
  }

  /** The first loop of `createFromSpriteSheet`: the total width of the patterns with a bitmap. */
  method SumWidths(slots: seq<Slot>) returns (totalWidth: int)
    ensures totalWidth == TotalWidth(slots, |slots|)
  {
    totalWidth := 0;
    var maxHeight := 0;
    var i := 0;
    while i < |slots|
      invariant 0 <= i <= |slots| && totalWidth == TotalWidth(slots, i)
    {
      if slots[i].valid {
        totalWidth := totalWidth + slots[i].w;
        maxHeight := Max(maxHeight, slots[i].h);
      }
      i := i + 1;
    }
  }

  /** The placement loop of `createFromSpriteSheet`. */
  method PackSlots(slots: seq<Slot>, atlasWidth: int) returns (packing: Packing)
    ensures packing == Pack(slots, atlasWidth)
  {
    var tempRects: seq<Rect> := [];
    var currentX, currentY, rowHeight := 0, 0, 0;
    var i := 0;
    while i < |slots|
      invariant 0 <= i <= |slots|
      invariant Packing(tempRects, Cursor(currentX, currentY, rowHeight)) == PackPrefix(slots, i, atlasWidth)
    {
      var s := slots[i];
      if !s.valid {
        tempRects := tempRects + [Rect(0, 0, 0, 0)];
      } else {
        if currentX + s.w > atlasWidth {
          currentX, currentY, rowHeight := 0, currentY + rowHeight, 0;
        }
        tempRects := tempRects + [Rect(currentX, currentY, s.w, s.h)];
        currentX := currentX + s.w;
        rowHeight := Max(rowHeight, s.h);
      }
      i := i + 1;
    }
    packing := Packing(tempRects, Cursor(currentX, currentY, rowHeight));
  }

  /** The rect layout of an atlas built from a sprite sheet. */
  class TextureAtlas {
    var rects: seq<Rect>
    /** The size of the bitmap handed to the texture upload. */
    ghost var atlasWidth: int
    ghost var atlasHeight: int

    constructor ()
      ensures rects == []
    {
      rects := [];
    }

    /** `patternCount()`: the number of stored rects. */
    function PatternCount(): (n: nat)
      reads this
      ensures n == |rects|
    {
      |rects|
    }

    /** `getPatternRect(index)`: the stored rect, or the empty rect out of range. */
    function GetPatternRect(index: int): (r: Rect)
      reads this
      ensures 0 <= index < |rects| ==> r == rects[index]
      ensures !(0 <= index < |rects|) ==> r == EmptyRect
    {
      if 0 <= index < |rects| then rects[index] else EmptyRect
    }

    /**
     * `createFromSpriteSheet` without the texture: an empty sheet gives no
     * rects and false; otherwise the rects are the layout for the rounded
     * total width, and the result is that of the upload.
     */
    method CreateFromSpriteSheet(sheet: SpriteSheet, uploadOk: bool) returns (ok: bool)
      modifies this
      ensures sheet.patterns == [] ==> rects == [] && !ok
      ensures sheet.patterns != [] ==>
                var slots := Slots(sheet.patterns);
                var side := AtlasSide(TotalWidth(slots, |slots|));
                var p := Pack(slots, side);
                rects == p.rects && ok == uploadOk &&
                atlasWidth == side && atlasHeight == AtlasSide(p.cur.y + p.cur.rowH)
    {
      rects := [];
      var count := sheet.PatternCount();
      if count == 0 {
        return false;
      }
      var slots := Slots(sheet.patterns);
      var totalWidth := SumWidths(slots);
      var width := RoundUpSide(totalWidth);
      var packing := PackSlots(slots, width);
      var height := RoundUpSide(packing.cur.y + packing.cur.rowH);
      atlasWidth, atlasHeight := width, height;
      rects := packing.rects;
      return uploadOk;
    }
  }
}
