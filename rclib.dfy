/**
 * RCLIB-L, the LZSS variant that wraps NJP sprite data.
 *
 * A block is a 16-byte header ("RCLIB-L", one byte that varies, the
 * little-endian decompressed size, four reserved bytes) followed by groups:
 * one flag byte, read from its most significant bit down, where a set bit
 * announces a two-byte back-reference into a 4096-byte window and a clear
 * bit a literal byte. The window starts zero-filled with its cursor at 0xFEE.
 *
 * `Run` is the decoder as a function of its registers; `DecompressRclib` is
 * the loop with a window array, proved to compute `Decompress`.
 */
module Rclib {
  import opened Bytes

  /** "RCLIB-L" in ASCII. */
  const Magic: seq<byte> := [0x52, 0x43, 0x4C, 0x49, 0x42, 0x2D, 0x4C]
  const HeaderSize := 16
  const WindowSize := 4096
  const WindowStart := 0xFEE

  /** The seven magic bytes start at p. */
  predicate HasMagicAt(data: seq<byte>, p: nat) {
    p + 7 <= |data| && data[p..p + 7] == Magic
  }

  /** The decoder's registers: read position, window, window cursor, bytes produced so far. */
  datatype State = State(srcPos: nat, window: seq<byte>, winPos: nat, out: seq<byte>)

  /** Where the decoder stands in its three nested loops. */
  datatype Phase =
    | NextGroup
    | InGroup(flags: byte, bit: nat)
    | InMatch(flags: byte, bit: nat, offset: nat, length: nat, i: nat)

  /** The mask `0x80 >> bit`. */
  function Mask(bit: nat): byte
    requires bit < 8
  {
    [0x80, 0x40, 0x20, 0x10, 0x08, 0x04, 0x02, 0x01][bit]
  }

  /** `flags & (0x80 >> bit)` is non-zero. */
  predicate BitSet(flags: byte, bit: nat)
    requires bit < 8
  {
    (flags / Mask(bit)) % 2 == 1
  }

  /** `b1 | ((b2 & 0xF0) << 4)`: a 12-bit window position. */
  function MatchOffset(b1: byte, b2: byte): (o: nat)
    ensures o < WindowSize
  {
    b1 + (b2 / 16) * 256
  }

  /** `(b2 & 0x0F) + 3`: a back-reference copies 3 to 18 bytes. */
  function MatchLength(b2: byte): (n: nat)
    ensures 3 <= n <= 18
  {
    b2 % 16 + 3
  }

  ghost predicate StateOk(src: seq<byte>, size: nat, st: State, ph: Phase) {
    st.srcPos <= |src| && |st.window| == WindowSize && st.winPos < WindowSize && |st.out| <= size &&
    match ph
    case NextGroup => true
    case InGroup(_, bit) => bit <= 8
    case InMatch(_, bit, offset, length, i) => bit < 8 && offset < WindowSize && length <= 18 && i <= length
  }

  /** Emits c: it goes to the output and to the window at the cursor, which advances modulo 4096. */
  function Emit(st: State, c: byte): (r: State)
    requires |st.window| == WindowSize && st.winPos < WindowSize
    ensures |r.window| == WindowSize && r.winPos < WindowSize
    ensures r.out == st.out + [c] && r.window[st.winPos] == c
    ensures r.winPos == (st.winPos + 1) % WindowSize && r.srcPos == st.srcPos
  {
    State(st.srcPos, st.window[st.winPos := c], (st.winPos + 1) % WindowSize, st.out + [c])
  }

  function Rank(ph: Phase): nat {
    match ph
    case NextGroup => 0
    case InGroup(_, _) => 1
    case InMatch(_, _, _, _, i) => if i <= 18 then 20 - i else 2
  }

  /** Runs the decoder from phase ph to the end; size is the declared output length. */
  function Run(src: seq<byte>, size: nat, st: State, ph: Phase): (r: State)
    requires StateOk(src, size, st, ph)
    ensures StateOk(src, size, r, NextGroup)
    ensures |st.out| <= |r.out| && r.out[..|st.out|] == st.out
    decreases |src| - st.srcPos, Rank(ph)
  {
    match ph
    case NextGroup =>
      if st.srcPos < |src| && |st.out| < size then
        Run(src, size, st.(srcPos := st.srcPos + 1), InGroup(src[st.srcPos], 0))
      else st
    case InGroup(flags, bit) =>
      if bit < 8 && |st.out| < size then
        if BitSet(flags, bit) then
          if st.srcPos + 2 > |src| then Run(src, size, st, NextGroup)
          else
            var b1, b2 := src[st.srcPos], src[st.srcPos + 1];
            Run(src, size, st.(srcPos := st.srcPos + 2), InMatch(flags, bit, MatchOffset(b1, b2), MatchLength(b2), 0))
        else if st.srcPos >= |src| then Run(src, size, st, NextGroup)
        else Run(src, size, Emit(st.(srcPos := st.srcPos + 1), src[st.srcPos]), InGroup(flags, bit + 1))
      else Run(src, size, st, NextGroup)
    case InMatch(flags, bit, offset, length, i) =>
      if i < length && |st.out| < size then
        var r1 := Emit(st, st.window[(offset + i) % WindowSize]);
        assert r1.out[..|st.out|] == st.out;
        Run(src, size, r1, InMatch(flags, bit, offset, length, i + 1))
      else Run(src, size, st, InGroup(flags, bit + 1))
  }

  /** The registers after the header: source past byte 16, zeroed window, cursor at 0xFEE. */
  function Initial(): State {
    State(HeaderSize, Zeros(WindowSize), WindowStart, [])
  }

  /** What `decompressRCLIB` reports and leaves in its output vector. */
  datatype Decoded = Decoded(ok: bool, dest: seq<byte>)

  /**
   * The result of decompressing src: rejected without output when the header
   * is short or the magic is wrong; otherwise the output vector has the
   * declared size, holds the bytes produced followed by zeros, and success
   * means every declared byte was produced.
   */
  function Decompress(src: seq<byte>): (d: Decoded)
    ensures d.ok ==> |src| >= HeaderSize && HasMagicAt(src, 0)
    ensures |src| >= HeaderSize && HasMagicAt(src, 0) ==> |d.dest| == U32At(src, 8)
    ensures !(|src| >= HeaderSize && HasMagicAt(src, 0)) ==> d.dest == []
  {
    if |src| < HeaderSize || !HasMagicAt(src, 0) then Decoded(false, [])
    else
      var size := U32At(src, 8);
      var r := Run(src, size, Initial(), NextGroup);
      Decoded(|r.out| == size, r.out + Zeros(size - |r.out|))
  }

  /** The decoder registers held by the arrays and counters of `DecompressRclib`. */
  ghost function Regs(srcPos: nat, window: array<byte>, winPos: nat, dest: array<byte>, destPos: nat): State
    reads window, dest
    requires destPos <= dest.Length
  {
    State(srcPos, window[..], winPos, dest[..destPos])
  }

  /** Registers of `DecompressRclib` that `Run` accepts, with the output tail still zero. */
  ghost predicate RegsOk(src: seq<byte>, size: nat, srcPos: nat, window: array<byte>, winPos: nat,
                         dest: array<byte>, destPos: nat)
    reads window, dest
  {
    srcPos <= |src| && destPos <= size && winPos < WindowSize && window.Length == WindowSize &&
    dest.Length == size && window != dest && forall k :: destPos <= k < size ==> dest[k] == 0
  }

  /** `decompressRCLIB`, with the sliding window as a 4096-byte array. */
  method DecompressRclib(src: seq<byte>) returns (ok: bool, dest: array<byte>)
    ensures ok == Decompress(src).ok && dest[..] == Decompress(src).dest
  {
    if |src| < HeaderSize || src[..7] != Magic {
      dest := new byte[0];
      return false, dest;
    }
    var size := U32At(src, 8);
    dest := new byte[size](_ => 0);
    var window := new byte[WindowSize](_ => 0);
    var srcPos: nat, destPos: nat, winPos: nat := HeaderSize, 0, WindowStart;
    ghost var final := Run(src, size, Initial(), NextGroup);
    assert window[..] == Zeros(WindowSize);
    assert dest[..destPos] == [];

    while srcPos < |src| && destPos < size
      invariant RegsOk(src, size, srcPos, window, winPos, dest, destPos)
      invariant Run(src, size, Regs(srcPos, window, winPos, dest, destPos), NextGroup) == final
      decreases |src| - srcPos
    {
      var flags := src[srcPos];
      srcPos, destPos, winPos := DecodeGroup(src, size, flags, srcPos + 1, window, winPos, dest, destPos);
    }
    ok := destPos == size;
    assert dest[..] == dest[..destPos] + Zeros(size - destPos);
  }

  /** The flag-bit loop of one group: up to eight literals or back-references. */
  method DecodeGroup(src: seq<byte>, size: nat, flags: byte, srcPos0: nat, window: array<byte>, winPos0: nat,
                     dest: array<byte>, destPos0: nat)
    returns (srcPos: nat, destPos: nat, winPos: nat)
    requires RegsOk(src, size, srcPos0, window, winPos0, dest, destPos0)
    modifies window, dest
    ensures RegsOk(src, size, srcPos, window, winPos, dest, destPos) && srcPos >= srcPos0
    ensures Run(src, size, Regs(srcPos, window, winPos, dest, destPos), NextGroup)
         == Run(src, size, old(Regs(srcPos0, window, winPos0, dest, destPos0)), InGroup(flags, 0))
  {
    srcPos, destPos, winPos := srcPos0, destPos0, winPos0;
    var bit := 0;
    while bit < 8 && destPos < size
      invariant RegsOk(src, size, srcPos, window, winPos, dest, destPos) && srcPos >= srcPos0 && bit <= 8
      invariant Run(src, size, Regs(srcPos, window, winPos, dest, destPos), InGroup(flags, bit))
             == Run(src, size, old(Regs(srcPos0, window, winPos0, dest, destPos0)), InGroup(flags, 0))
      decreases 8 - bit
    {
      if BitSet(flags, bit) {
        if srcPos + 2 > |src| {
          break;
        }
        var b1, b2 := src[srcPos], src[srcPos + 1];
        destPos, winPos := CopyMatch(src, size, flags, bit, srcPos + 2, MatchOffset(b1, b2), MatchLength(b2),
                                     window, winPos, dest, destPos);
        srcPos := srcPos + 2;
      } else {
        if srcPos >= |src| {
          break;
        }
        var c := src[srcPos];
        srcPos := srcPos + 1;
        destPos, winPos := EmitByte(src, size, srcPos, window, winPos, dest, destPos, c);
      }
      bit := bit + 1;
    }
  }

  /** The copy loop of one back-reference: bytes from the window at offset, offset + 1, ... */
  method CopyMatch(src: seq<byte>, size: nat, flags: byte, bit: nat, srcPos: nat, offset: nat, length: nat,
                   window: array<byte>, winPos0: nat, dest: array<byte>, destPos0: nat)
    returns (destPos: nat, winPos: nat)
    requires RegsOk(src, size, srcPos, window, winPos0, dest, destPos0)
    requires bit < 8 && offset < WindowSize && length <= 18
    modifies window, dest
    ensures RegsOk(src, size, srcPos, window, winPos, dest, destPos)
    ensures Run(src, size, Regs(srcPos, window, winPos, dest, destPos), InGroup(flags, bit + 1))
         == Run(src, size, old(Regs(srcPos, window, winPos0, dest, destPos0)), InMatch(flags, bit, offset, length, 0))
  {
    destPos, winPos := destPos0, winPos0;
    var i := 0;
    while i < length && destPos < size
      invariant RegsOk(src, size, srcPos, window, winPos, dest, destPos) && i <= length
      invariant Run(src, size, Regs(srcPos, window, winPos, dest, destPos), InMatch(flags, bit, offset, length, i))
             == Run(src, size, old(Regs(srcPos, window, winPos0, dest, destPos0)), InMatch(flags, bit, offset, length, 0))
      decreases length - i
    {
      var c := window[(offset + i) % WindowSize];
      destPos, winPos := EmitByte(src, size, srcPos, window, winPos, dest, destPos, c);
      i := i + 1;
    }
  }

  /** One emitted byte: stored at the output cursor and at the window cursor, both of which advance. */
  method EmitByte(src: seq<byte>, size: nat, srcPos: nat, window: array<byte>, winPos0: nat,
                  dest: array<byte>, destPos0: nat, c: byte)
    returns (destPos: nat, winPos: nat)
    requires RegsOk(src, size, srcPos, window, winPos0, dest, destPos0) && destPos0 < size
    modifies window, dest
    ensures RegsOk(src, size, srcPos, window, winPos, dest, destPos)
    ensures Regs(srcPos, window, winPos, dest, destPos) == Emit(old(Regs(srcPos, window, winPos0, dest, destPos0)), c)
  {
    ghost var before := Regs(srcPos, window, winPos0, dest, destPos0);
    dest[destPos0] := c;
    destPos := destPos0 + 1;
    window[winPos0] := c;
    winPos := (winPos0 + 1) % WindowSize;
    assert dest[..destPos] == before.out + [c];
  }

  /** A group of clear bits copies the next bytes of the source verbatim until the output is full. */
  lemma {:induction false} LiteralsCopy(src: seq<byte>, size: nat, st: State, bit: nat)
    requires StateOk(src, size, st, InGroup(0, bit))
    requires size - |st.out| <= 8 - bit
    requires st.srcPos + (size - |st.out|) <= |src|
    ensures Run(src, size, st, InGroup(0, bit)).out == st.out + src[st.srcPos..st.srcPos + (size - |st.out|)]
    decreases size - |st.out|
  {
    if |st.out| < size {
      assert !BitSet(0, bit);
      var st' := Emit(st.(srcPos := st.srcPos + 1), src[st.srcPos]);
      LiteralsCopy(src, size, st', bit + 1);
      assert src[st.srcPos..st.srcPos + (size - |st.out|)]
          == [src[st.srcPos]] + src[st'.srcPos..st'.srcPos + (size - |st'.out|)];
    }
  }

  /**
   * A block whose declared size n is at most 8 and whose one flag byte is 0
   * decodes to the n literal bytes that follow it.
   */
  lemma LiteralBlock(header: seq<byte>, lits: seq<byte>)
    requires |header| == HeaderSize && HasMagicAt(header, 0)
    requires U32At(header, 8) == |lits| && |lits| <= 8
    ensures Decompress(header + [0] + lits) == Decoded(true, lits)
  {
    var src := header + [0] + lits;
    assert src[..7] == header[..7];
    assert U32At(src, 8) == U32At(header, 8);
    RunLiterals(src, lits);
    assert lits + Zeros(0) == lits;
  }

  /** The decoding step of `LiteralBlock`: one zero flag byte, then the literals. */
  lemma RunLiterals(src: seq<byte>, lits: seq<byte>)
    requires |lits| <= 8 && |src| == HeaderSize + 1 + |lits|
    requires src[HeaderSize] == 0 && src[HeaderSize + 1..] == lits
    ensures Run(src, |lits|, Initial(), NextGroup).out == lits
  {
    var size := |lits|;
    if size > 0 {
      var st := Initial().(srcPos := HeaderSize + 1);
      assert Run(src, size, Initial(), NextGroup) == Run(src, size, st, InGroup(0, 0));
      LiteralsCopy(src, size, st, 0);
      assert src[HeaderSize + 1..HeaderSize + 1 + size] == lits;
    }
  }

  /** With at most one source byte left at a group boundary, the decoder produces nothing more. */
  lemma SourceExhausted(src: seq<byte>, size: nat, st: State)
    requires StateOk(src, size, st, NextGroup) && st.srcPos + 1 >= |src|
    ensures Run(src, size, st, NextGroup).out == st.out
  {
    if st.srcPos < |src| && |st.out| < size {
      var st' := st.(srcPos := st.srcPos + 1);
      assert Run(src, size, st', InGroup(src[st.srcPos], 0)) == Run(src, size, st', NextGroup);
    }
  }

  /**
   * Bytes after a complete block are never read: once src decodes all the
   * declared bytes from some point on, appending to src changes nothing.
   */
  lemma {:induction false} ExtendSource(src: seq<byte>, extra: seq<byte>, size: nat, st: State, ph: Phase)
    requires StateOk(src, size, st, ph)
    requires |Run(src, size, st, ph).out| == size
    ensures StateOk(src + extra, size, st, ph)
    ensures Run(src + extra, size, st, ph) == Run(src, size, st, ph)
    decreases |src| - st.srcPos, Rank(ph), 1
  {
    match ph
    case NextGroup =>
      ExtendNext(src, extra, size, st);
    case InGroup(flags, bit) =>
      ExtendGroup(src, extra, size, st, flags, bit);
    case InMatch(flags, bit, offset, length, i) =>
      ExtendMatch(src, extra, size, st, flags, bit, offset, length, i);
  }

  /** The step of `ExtendSource` at a group boundary. */
  lemma {:induction false} ExtendNext(src: seq<byte>, extra: seq<byte>, size: nat, st: State)
    requires StateOk(src, size, st, NextGroup)
    requires |Run(src, size, st, NextGroup).out| == size
    ensures StateOk(src + extra, size, st, NextGroup)
    ensures Run(src + extra, size, st, NextGroup) == Run(src, size, st, NextGroup)
    decreases |src| - st.srcPos, 0, 0
  {
    var src' := src + extra;
    if |st.out| < size {
      if st.srcPos >= |src| {
        assert false;
      }
      assert src'[st.srcPos] == src[st.srcPos];
      ExtendSource(src, extra, size, st.(srcPos := st.srcPos + 1), InGroup(src[st.srcPos], 0));
    }
  }

  /** The step of `ExtendSource` inside a back-reference. */
  lemma {:induction false} ExtendMatch(src: seq<byte>, extra: seq<byte>, size: nat, st: State,
                                       flags: byte, bit: nat, offset: nat, length: nat, i: nat)
    requires StateOk(src, size, st, InMatch(flags, bit, offset, length, i))
    requires |Run(src, size, st, InMatch(flags, bit, offset, length, i)).out| == size
    ensures StateOk(src + extra, size, st, InMatch(flags, bit, offset, length, i))
    ensures Run(src + extra, size, st, InMatch(flags, bit, offset, length, i))
         == Run(src, size, st, InMatch(flags, bit, offset, length, i))
    decreases |src| - st.srcPos, Rank(InMatch(flags, bit, offset, length, i)), 0
  {
    if i < length && |st.out| < size {
      ExtendSource(src, extra, size, Emit(st, st.window[(offset + i) % WindowSize]), InMatch(flags, bit, offset, length, i + 1));
    } else {
      ExtendSource(src, extra, size, st, InGroup(flags, bit + 1));
    }
  }

  /** The step of `ExtendSource` at one flag bit of a group. */
  lemma {:induction false} ExtendGroup(src: seq<byte>, extra: seq<byte>, size: nat, st: State, flags: byte, bit: nat)
    requires StateOk(src, size, st, InGroup(flags, bit))
    requires |Run(src, size, st, InGroup(flags, bit)).out| == size
    ensures StateOk(src + extra, size, st, InGroup(flags, bit))
    ensures Run(src + extra, size, st, InGroup(flags, bit)) == Run(src, size, st, InGroup(flags, bit))
    decreases |src| - st.srcPos, 1, 0
  {
    var src' := src + extra;
    if bit < 8 && |st.out| < size {
      if BitSet(flags, bit) {
        if st.srcPos + 2 > |src| {
          SourceExhausted(src, size, st);
          assert false;
        }
        assert src'[st.srcPos] == src[st.srcPos] && src'[st.srcPos + 1] == src[st.srcPos + 1];
        var b1, b2 := src[st.srcPos], src[st.srcPos + 1];
        ExtendSource(src, extra, size, st.(srcPos := st.srcPos + 2), InMatch(flags, bit, MatchOffset(b1, b2), MatchLength(b2), 0));
      } else {
        if st.srcPos >= |src| {
          assert false;
        }
        assert src'[st.srcPos] == src[st.srcPos];
        ExtendSource(src, extra, size, Emit(st.(srcPos := st.srcPos + 1), src[st.srcPos]), InGroup(flags, bit + 1));
      }
    } else {
      ExtendSource(src, extra, size, st, NextGroup);
    }
  }

  /** A block that decompresses completely decompresses the same way with any bytes after it. */
  lemma DecompressIgnoresTrailingData(src: seq<byte>, extra: seq<byte>)
    requires Decompress(src).ok
    ensures Decompress(src + extra) == Decompress(src)
  {
    var src' := src + extra;
    assert src'[..7] == src[..7];
    assert U32At(src', 8) == U32At(src, 8);
    ExtendSource(src, extra, U32At(src, 8), Initial(), NextGroup);
  }
}
