/**
 * Fixed-width integers, byte buffers and the pieces of C arithmetic the
 * modelled sources depend on: little-endian reads, two's complement
 * reinterpretation, division that truncates toward zero, and `(v + 3) & ~3`.
 */
module Bytes {

  type byte = x: int | 0 <= x < 0x100
  type u16 = x: int | 0 <= x < 0x1_0000
  type u32 = x: int | 0 <= x < 0x1_0000_0000
  type i32 = x: int | -0x8000_0000 <= x < 0x8000_0000

  datatype Option<T> = None | Some(value: T)

  /** Division with remainder is unique: the quotient and remainder of n by d. */
  lemma DivModUnique(n: int, d: int, q: int, r: int)
    requires d > 0 && 0 <= r < d && n == q * d + r
    ensures n / d == q && n % d == r
  {
    var q', r' := n / d, n % d;
    assert n == q' * d + r';
    if q' < q {
      assert (q - q') * d >= d by { MulAtLeast(q - q', d); }
      assert false;
    } else if q' > q {
      assert (q' - q) * d >= d by { MulAtLeast(q' - q, d); }
      assert false;
    }
  }

  lemma MulAtLeast(k: int, d: int)
    requires k >= 1 && d > 0
    ensures k * d >= d
  {
  }

  /** The 32-bit little-endian word stored at p (readU32LE). */
  function U32At(s: seq<byte>, p: nat): u32
    requires p + 4 <= |s|
  {
    s[p] as int + 0x100 * (s[p + 1] as int) + 0x1_0000 * (s[p + 2] as int) + 0x100_0000 * (s[p + 3] as int)
  }

  /** The 16-bit little-endian value stored at p. */
  function U16At(s: seq<byte>, p: nat): u16
    requires p + 2 <= |s|
  {
    s[p] as int + 0x100 * (s[p + 1] as int)
  }

  /** Reading a little-endian word back gives its four bytes, low byte first. */
  lemma U32AtBytes(s: seq<byte>, p: nat)
    requires p + 4 <= |s|
    ensures U32At(s, p) % 0x100 == s[p]
    ensures (U32At(s, p) / 0x100) % 0x100 == s[p + 1]
    ensures (U32At(s, p) / 0x1_0000) % 0x100 == s[p + 2]
    ensures U32At(s, p) / 0x100_0000 == s[p + 3]
  {
    var w := U32At(s, p);
    var hi2 := s[p + 1] as int + 0x100 * (s[p + 2] as int) + 0x1_0000 * (s[p + 3] as int);
    DivModUnique(w, 0x100, hi2, s[p]);
    var hi1 := s[p + 2] as int + 0x100 * (s[p + 3] as int);
    DivModUnique(hi2, 0x100, hi1, s[p + 1]);
    DivModUnique(w, 0x1_0000, hi1, s[p] as int + 0x100 * (s[p + 1] as int));
    DivModUnique(hi1, 0x100, s[p + 3], s[p + 2]);
    DivModUnique(w, 0x100_0000, s[p + 3], s[p] as int + 0x100 * (s[p + 1] as int) + 0x1_0000 * (s[p + 2] as int));
  }

  /** A 32-bit pattern read as a signed `int`/`LONG` (two's complement). */
  function ToSigned(w: u32): i32 {
    if w < 0x8000_0000 then w else w - 0x1_0000_0000
  }

  /** A signed 32-bit value stored into an unsigned 32-bit slot. */
  function ToUnsigned(v: i32): u32 {
    if v >= 0 then v else v + 0x1_0000_0000
  }

  /** Any mathematical integer reduced to a 32-bit two's complement value. */
  function Wrap32(x: int): i32 {
    ToSigned(x % 0x1_0000_0000)
  }

  /** The low byte of an integer, as a cast to `unsigned char` gives it. */
  function LowByte(x: int): byte {
    x % 0x100
  }

  /** C integer division, which truncates toward zero. */
  function CDiv(a: int, b: int): int
    requires b != 0
  {
    var q := Abs(a) / Abs(b);
    if (a < 0) == (b < 0) then q else -q
  }

  function Abs(x: int): nat {
    if x < 0 then -x else x
  }

  /** `(v + 3) & ~3` on a two's complement value: round up to a multiple of 4. */
  function Align4(v: int): (r: int)
    ensures r % 4 == 0 && v <= r < v + 4
  {
    (v + 3) - (v + 3) % 4
  }

  /** The byte at k, or 0 outside the buffer. */
  function ByteAt(s: seq<byte>, k: int): byte {
    if 0 <= k < |s| then s[k] else 0
  }

  /** n zero bytes, as a resize of a byte vector appends them. */
  function Zeros(n: nat): (z: seq<byte>)
    ensures |z| == n && forall i :: 0 <= i < n ==> z[i] == 0
  {
    seq(n, _ => 0)
  }
}
