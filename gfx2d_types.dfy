/**
 * The value types of the 2D graphics layer: an RGBA colour and an integer
 * rectangle with half-open extent.
 */
module Gfx2dTypes {
  import opened Bytes

  /** An 8-bit-per-channel RGBA colour. */
  datatype Color = Color(r: byte, g: byte, b: byte, a: byte)

  /** `Color()`: opaque black. */
  const DefaultColor := Color(0, 0, 0, 255)

  /** Fully transparent black, the "nothing here" pixel of the loaders. */
  const Transparent := Color(0, 0, 0, 0)

  /** `Color(r, g, b)`: the alpha channel defaults to opaque. */
  function Opaque(r: byte, g: byte, b: byte): (c: Color)
    ensures c.a == 255 && c.r == r && c.g == g && c.b == b
  {
    Color(r, g, b, 255)
  }

  /** Packs a colour into one 32-bit word, red in the lowest byte. */
  function ToRgba(c: Color): u32 {
    c.r as int + 0x100 * (c.g as int) + 0x1_0000 * (c.b as int) + 0x100_0000 * (c.a as int)
  }

  /** Unpacks a 32-bit word, low byte first, into red, green, blue, alpha. */
  function FromRgba(w: u32): Color {
    Color(w % 0x100, (w / 0x100) % 0x100, (w / 0x1_0000) % 0x100, (w / 0x100_0000) % 0x100)
  }

  /** The packed form of a colour keeps every channel. */
  lemma FromToRgba(c: Color)
    ensures FromRgba(ToRgba(c)) == c
  {
    U32AtBytes([c.r, c.g, c.b, c.a], 0);
  }

  /** Every 32-bit word is the packed form of the colour it unpacks to. */
  lemma ToFromRgba(w: u32)
    ensures ToRgba(FromRgba(w)) == w
  {
    var c := FromRgba(w);
    var q1 := w / 0x100;
    var q2 := q1 / 0x100;
    var q3 := q2 / 0x100;
    assert w == c.r + 0x100 * q1;
    assert q1 == c.g + 0x100 * q2;
    assert q2 == c.b + 0x100 * q3;
    assert q3 < 0x100;
    DivModUnique(w, 0x1_0000, q2, c.r + 0x100 * (c.g as int));
    DivModUnique(w, 0x100_0000, q3, c.r + 0x100 * (c.g as int) + 0x1_0000 * (c.b as int));
  }

  /**
   * The colour-key test of `blitKeyed` keeps the low 24 bits of the packed
   * words; two colours agree there exactly when red, green and blue agree.
   */
  lemma RgbMaskCompare(c: Color, k: Color)
    ensures (ToRgba(c) % 0x100_0000 == ToRgba(k) % 0x100_0000) <==> (c.r == k.r && c.g == k.g && c.b == k.b)
  {
    var lc := c.r as int + 0x100 * (c.g as int) + 0x1_0000 * (c.b as int);
    var lk := k.r as int + 0x100 * (k.g as int) + 0x1_0000 * (k.b as int);
    DivModUnique(ToRgba(c), 0x100_0000, c.a, lc);
    DivModUnique(ToRgba(k), 0x100_0000, k.a, lk);
    if lc == lk {
      U32AtBytes([c.r, c.g, c.b, 0], 0);
      U32AtBytes([k.r, k.g, k.b, 0], 0);
    }
  }

  /** An integer rectangle: origin (x, y), width w, height h. */
  datatype Rect = Rect(x: int, y: int, w: int, h: int) {

    /** A point is inside when x <= px < x + w and y <= py < y + h. */
    predicate Contains(px: int, py: int) {
      px >= x && px < x + w && py >= y && py < y + h
    }

    /** The test of `intersects`: neither rectangle lies wholly on one side of the other. */
    predicate Intersects(o: Rect) {
      !(x + w <= o.x || o.x + o.w <= x || y + h <= o.y || o.y + o.h <= y)
    }

    predicate IsEmpty() {
      w <= 0 || h <= 0
    }
  }

  const EmptyRect := Rect(0, 0, 0, 0)

  /** Two non-empty rectangles intersect exactly when some point lies in both. */
  lemma IntersectsIffCommonPoint(a: Rect, b: Rect)
    ensures (exists px, py :: a.Contains(px, py) && b.Contains(px, py))
            <==> (a.Intersects(b) && !a.IsEmpty() && !b.IsEmpty())
  {
    if a.Intersects(b) && !a.IsEmpty() && !b.IsEmpty() {
      var px := if a.x < b.x then b.x else a.x;
      var py := if a.y < b.y then b.y else a.y;
      assert a.Contains(px, py) && b.Contains(px, py);
    }
  }

  /** The extent is half-open, so a rectangle without width or height contains no point. */
  lemma EmptyContainsNothing(r: Rect, px: int, py: int)
    requires r.IsEmpty()
    ensures !r.Contains(px, py)
  {
  }

  /** The intersection test does not depend on the order of its operands. */
  lemma IntersectsSymmetric(a: Rect, b: Rect)
    ensures a.Intersects(b) <==> b.Intersects(a)
  {
  }
}
