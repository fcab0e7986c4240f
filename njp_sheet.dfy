/**
 * The NJP ("NJudgeUniPat") sprite container: a 20-byte file header, then
 * one 20-byte header per pattern followed by its RCLIB-L compressed pixels,
 * and palettes in BGRA order at the end of the file.
 *
 * A `SpriteSheet` holds its patterns and embedded palettes as values; each
 * pattern's bitmap is the `Image` of the bitmap the loader fills.
 */
module NjpSheet {
  import opened Bytes
  import opened Gfx2dTypes
  import opened Gfx2d
  import opened NjpPixels
  import Rclib

  /** One sprite frame: its header fields, its RGBA bitmap and the decompressed indexed bytes. */
  datatype Pattern = Pattern(width: int, height: int, bpp: int, flags: int, bitmap: Image, indexedData: seq<byte>)

  /** `Pattern{}`: every field zero, no bitmap, no indexed data. */
  const DefaultPattern := Pattern(0, 0, 0, 0, NoImage, [])

  /** "NJudgeUniPat", the first 12 bytes of an NJP file. */
  const NjpMagic: seq<byte> := [0x4E, 0x4A, 0x75, 0x64, 0x67, 0x65, 0x55, 0x6E, 0x69, 0x50, 0x61, 0x74]

  /** What `parseNJP` accepts before reading any pattern: 20 bytes and the magic. */
  predicate NjpHeaderOk(data: seq<byte>) {
    |data| >= 20 && data[..12] == NjpMagic
  }

  /** The pattern header at pos: bpp at +4, width at +8, height at +12, flags at +16, each 32 bits stored into an `int`. */
  function HeaderAt(data: seq<byte>, pos: nat): (p: Pattern)
    requires pos + 20 <= |data|
    ensures p.bitmap == NoImage && p.indexedData == []
  {
    Pattern(ToSigned(U32At(data, pos + 8)), ToSigned(U32At(data, pos + 12)),
            ToSigned(U32At(data, pos + 4)), ToSigned(U32At(data, pos + 16)), NoImage, [])
  }

  /**
   * The next-header heuristic: an RCLIB-L magic 20 bytes on, a 16-bit bpp
   * of 4, 8, 24 or 32 at +4 and 16-bit width and height at +8 and +12 in 1..4095.
   */
  predicate LooksLikeHeader(data: seq<byte>, p: nat)
    requires p + 20 < |data|
  {
    var bpp, w, h := U16At(data, p + 4), U16At(data, p + 8), U16At(data, p + 12);
    Rclib.HasMagicAt(data, p + 20) &&
    (bpp == 4 || bpp == 8 || bpp == 24 || bpp == 32) && 0 < w < 4096 && 0 < h < 4096
  }

  /** Where the scan starting at p stops: the first position that looks like a header, or the first with p + 20 >= size. */
  function ScanFrom(data: seq<byte>, p: nat): (r: nat)
    ensures r >= p
    decreases |data| - p
  {
    if p + 20 < |data| then
      if LooksLikeHeader(data, p) then p else ScanFrom(data, p + 1)
    else p
  }

  /** The scan stops at the first candidate: every position it passes is not one, and where it stops is one unless it ran out. */
  lemma {:induction false} ScanFromFirst(data: seq<byte>, p: nat, q: nat)
    ensures ScanFrom(data, p) + 20 < |data| ==> LooksLikeHeader(data, ScanFrom(data, p))
    ensures p <= q < ScanFrom(data, p) ==> q + 20 < |data| && !LooksLikeHeader(data, q)
    decreases |data| - p
  {
    if p + 20 < |data| && !LooksLikeHeader(data, p) {
      ScanFromFirst(data, p + 1, q);
    }
  }

  /** The scan loop of `parseNJP`. */
  method ScanNextHeader(data: seq<byte>, start: nat) returns (nextPos: nat)
    ensures nextPos == ScanFrom(data, start)
  {
    nextPos := start;
    while nextPos + 20 < |data|
      invariant ScanFrom(data, nextPos) == ScanFrom(data, start)
      decreases |data| - nextPos
    {
      if Rclib.HasMagicAt(data, nextPos + 20) {
        var nextBpp := U16At(data, nextPos + 4);
        var nextW := U16At(data, nextPos + 8);
        var nextH := U16At(data, nextPos + 12);
        if (nextBpp == 4 || nextBpp == 8 || nextBpp == 24 || nextBpp == 32) &&
           nextW > 0 && nextW < 4096 && nextH > 0 && nextH < 4096 {
          break;
        }
      }
      nextPos := nextPos + 1;
    }
  }

  /** What one iteration of the pattern loop does: stop, store a pattern and stop, or store a pattern and go on at a position. */
  datatype Step = Done | Last(p: Pattern) | Next(p: Pattern, pos: nat)

  /**
   * Iteration i of `parseNJP`'s pattern loop, reading at pos, for a declared
   * count: stop at a truncated header; store an empty pattern as it is;
   * stop at a missing RCLIB-L block; store the header alone and stop when
   * decompression fails; otherwise decode, scan for the next header and go
   * on there (or at the end after the last pattern).
   */
  function ParseStep(data: seq<byte>, count: nat, i: nat, pos: nat): (s: Step)
    ensures s.Next? ==> s.pos > pos
  {
    if i >= count || pos + 20 > |data| then Done
    else
      var hdr := HeaderAt(data, pos);
      var pos1 := pos + 20;
      if hdr.width == 0 || hdr.height == 0 then Next(hdr, pos1)
      else if pos1 + 16 > |data| || !Rclib.HasMagicAt(data, pos1) then Done
      else
        var d := Rclib.Decompress(data[pos1..]);
        if !d.ok then Last(hdr)
        else
          var p := hdr.(indexedData := d.dest, bitmap := DecodeImage(d.dest, hdr.width, hdr.height, hdr.bpp));
          var next := ScanFrom(data, pos1 + 16);
          Next(p, if i == count - 1 || next + 20 >= |data| then |data| else next)
  }

  /** The patterns `parseNJP` stores from iteration i on. */
  function ParseFrom(data: seq<byte>, count: nat, i: nat, pos: nat): seq<Pattern>
    decreases count - i
  {
    match ParseStep(data, count, i, pos)
    case Done => []
    case Last(p) => [p]
    case Next(p, pos') => [p] + ParseFrom(data, count, i + 1, pos')
  }

  /** `ParseFrom` is the pattern of its first step followed by the rest. */
  lemma ParseFromStep(data: seq<byte>, count: nat, i: nat, pos: nat)
    ensures var s := ParseStep(data, count, i, pos);
            ParseFrom(data, count, i, pos) ==
              (if s.Done? then [] else if s.Last? then [s.p] else [s.p] + ParseFrom(data, count, i + 1, s.pos))
    ensures i >= count ==> ParseFrom(data, count, i, pos) == []
  {
  }

  /** One iteration of the pattern loop of `parseNJP`. */
  method ReadPattern(data: seq<byte>, count: nat, i: nat, pos: nat) returns (s: Step)
    ensures s == ParseStep(data, count, i, pos)
  {
    if i >= count || pos + 20 > |data| {
      return Done;
    }
    var pattern := HeaderAt(data, pos);
    var pos1 := pos + 20;
    if pattern.width == 0 || pattern.height == 0 {
      return Next(pattern, pos1);
    }
    if pos1 + 16 > |data| {
      return Done;
    }
    if data[pos1..pos1 + 7] != Rclib.Magic {
      return Done;
    }
    var decoded, pixelData := Rclib.DecompressRclib(data[pos1..]);
    if !decoded {
      return Last(pattern);
    }
    pattern := pattern.(indexedData := pixelData[..]);
    var bitmap := new Bitmap();
    ConvertIndexedToRgba(pattern.indexedData, pattern.width, pattern.height, pattern.bpp, bitmap);
    pattern := pattern.(bitmap := bitmap.Snapshot());
    var nextPos := ScanNextHeader(data, pos1 + 16);
    if i == count - 1 || nextPos + 20 >= |data| {
      return Next(pattern, |data|);
    }
    return Next(pattern, nextPos);
  }

  /** The patterns of an NJP file, in file order. */
  function ParsePatterns(data: seq<byte>): seq<Pattern> {
    if NjpHeaderOk(data) then ParseFrom(data, U32At(data, 16), 0, 20) else []
  }

  /** A pattern as the loader leaves it: an empty pattern has no pixels, and a bitmap has the pattern's size. */
  ghost predicate PatternOk(p: Pattern) {
    p.bitmap.Wf() &&
    (p.bitmap.IsValid() ==> p.bitmap.width == p.width > 0 && p.bitmap.height == p.height > 0) &&
    ((p.width == 0 || p.height == 0) ==> p.bitmap == NoImage && p.indexedData == [])
  }

  /** At most the declared number of patterns is stored, and each is well formed. */
  lemma {:induction false} ParseFromProps(data: seq<byte>, count: nat, i: nat, pos: nat)
    requires i <= count
    ensures |ParseFrom(data, count, i, pos)| <= count - i
    ensures forall k :: 0 <= k < |ParseFrom(data, count, i, pos)| ==> PatternOk(ParseFrom(data, count, i, pos)[k])
    decreases count - i
  {
    match ParseStep(data, count, i, pos)
    case Done =>
    case Last(p) =>
    case Next(p, pos') =>
      ParseFromProps(data, count, i + 1, pos');
  }

  /** `parseNJP` stores at most `patternCount` patterns, each well formed. */
  lemma ParsePatternsProps(data: seq<byte>)
    ensures NjpHeaderOk(data) ==> |ParsePatterns(data)| <= U32At(data, 16)
    ensures forall k :: 0 <= k < |ParsePatterns(data)| ==> PatternOk(ParsePatterns(data)[k])
  {
    if NjpHeaderOk(data) {
      ParseFromProps(data, U32At(data, 16), 0, 20);
    }
  }

  /** `primaryBpp`: 8 without patterns, else the first pattern's depth. */
  function PrimaryBppOf(ps: seq<Pattern>): int {
    if ps == [] then 8 else ps[0].bpp
  }

  /** `static_cast<size_t>(patternCount) * 20 + 20` in 64-bit unsigned arithmetic. */
  function MinHeaderPos(patternCount: i32): nat {
    (20 + (patternCount % 0x1_0000_0000_0000_0000) * 20) % 0x1_0000_0000_0000_0000
  }

  /**
   * The extended-header scan from pos: the first position past minPos
   * holding the pattern count twice (no earlier one past minPos does),
   * or 0 when none lies before size - 12.
   */
  function ExtHeaderFrom(data: seq<byte>, pos: nat, count: u32, minPos: nat): (r: nat)
    ensures r != 0 ==> pos <= r && r + 12 < |data| && r > minPos
    ensures r != 0 ==> U32At(data, r) == count && U32At(data, r + 4) == count
    ensures r != 0 ==> forall q :: pos <= q < r && q > minPos ==> !(U32At(data, q) == count && U32At(data, q + 4) == count)
    decreases |data| - pos
  {
    if pos + 12 < |data| then
      if U32At(data, pos) == count && U32At(data, pos + 4) == count && pos > minPos then pos
      else ExtHeaderFrom(data, pos + 1, count, minPos)
    else 0
  }

  /** When the scan finds nothing, no position from pos on holds the header. */
  lemma {:induction false} ExtHeaderNone(data: seq<byte>, pos: nat, count: u32, minPos: nat, q: nat)
    requires 0 < pos <= q && q + 12 < |data| && ExtHeaderFrom(data, pos, count, minPos) == 0
    ensures !(U32At(data, q) == count && U32At(data, q + 4) == count && q > minPos)
    decreases |data| - pos
  {
    if pos < q {
      ExtHeaderNone(data, pos + 1, count, minPos, q);
    }
  }

  /** The loop of `extractPalettes` that scans for the extended header. */
  method FindExtHeader(data: seq<byte>, count: u32, minPos: nat) returns (extHeaderPos: nat)
    ensures extHeaderPos == ExtHeaderFrom(data, 20, count, minPos)
  {
    extHeaderPos := 0;
    var pos := 20;
    while pos + 12 < |data|
      invariant pos >= 20 && ExtHeaderFrom(data, pos, count, minPos) == ExtHeaderFrom(data, 20, count, minPos)
      decreases |data| - pos
    {
      var v1 := U32At(data, pos);
      var v2 := U32At(data, pos + 4);
      if v1 == count && v2 == count {
        if pos > minPos {
          extHeaderPos := pos;
          break;
        }
      }
      pos := pos + 1;
    }
  }

  /** The BGRA entry i of a palette stored at off, as RGBA with full alpha. */
  function BgraAt(data: seq<byte>, off: nat, i: nat): Color
    requires off + 4 * i + 4 <= |data|
  {
    Color(data[off + 4 * i + 2], data[off + 4 * i + 1], data[off + 4 * i], 255)
  }

  /**
   * One embedded palette stored at off: the first colorCount entries come
   * from the file, index 0 is then made transparent, and the rest keep the
   * grey ramp of a new `Palette`.
   */
  function PaletteAt(data: seq<byte>, off: nat, colorCount: nat): (pal: seq<Color>)
    requires colorCount <= 256 && off + 4 * colorCount <= |data|
    ensures IsPalette(pal) && pal[0] == Transparent
    ensures forall i :: 0 < i < 256 ==> pal[i] == if i < colorCount then BgraAt(data, off, i) else Gray(i)
  {
    seq(256, i requires 0 <= i < 256 =>
      if i == 0 then Transparent else if i < colorCount then BgraAt(data, off, i) else Gray(i))
  }

  /** Fills a new `Palette` from the BGRA entries at off and clears index 0, as `extractPalettes` does. */
  method ReadPalette(data: seq<byte>, off: nat, colorCount: nat) returns (colors: seq<Color>)
    requires colorCount <= 256 && off + 4 * colorCount <= |data|
    ensures colors == PaletteAt(data, off, colorCount)
  {
    var pal := new Palette();
    var i := 0;
    while i < colorCount
      invariant 0 <= i <= colorCount && pal.Valid() && fresh(pal.colors)
      invariant forall j :: 0 <= j < 256 ==> pal.colors[j] == if j < i then BgraAt(data, off, j) else Gray(j)
    {
      pal.SetColor(i, Color(data[off + i * 4 + 2], data[off + i * 4 + 1], data[off + i * 4], 255));
      i := i + 1;
    }
    pal.SetColor(0, Transparent);
    colors := pal.colors[..];
    assert forall j :: 0 <= j < 256 ==> colors[j] == PaletteAt(data, off, colorCount)[j];
  }

  function PaletteSize(bpp: int): nat {
    if bpp == 4 then 64 else 1024
  }

  function ColorCount(bpp: int): nat {
    if bpp == 4 then 16 else 256
  }

  /** The k-th of n palettes packed at the end of the file. */
  function PackedPalette(data: seq<byte>, bpp: int, n: nat, k: nat): seq<Color>
    requires n * PaletteSize(bpp) <= |data| && k < n
  {
    PackedBound(|data|, PaletteSize(bpp), n, k);
    PaletteAt(data, |data| - n * PaletteSize(bpp) + k * PaletteSize(bpp), ColorCount(bpp))
  }

  lemma PackedBound(size: nat, ps: nat, n: nat, k: nat)
    requires n * ps <= size && k < n
    ensures 0 <= size - n * ps + k * ps && size - n * ps + k * ps + ps <= size
  {
    MulMono(k + 1, n, ps);
    MulMono(0, k, ps);
  }

  /** The n palettes packed at the end of the file, first to last. */
  function PackedPalettes(data: seq<byte>, bpp: int, n: nat): (pals: seq<seq<Color>>)
    requires n * PaletteSize(bpp) <= |data|
    ensures |pals| == n
    ensures forall k :: 0 <= k < n ==> pals[k] == PackedPalette(data, bpp, n, k)
  {
    seq(n, k requires 0 <= k < n => PackedPalette(data, bpp, n, k))
  }

  /**
   * The palettes `extractPalettes` finds: none unless bpp is 4 or 8 and the
   * file has room for one; the last palette of the file when there is no
   * extended header; otherwise the count the extended header gives (1 when
   * it is 0 or above 16) of palettes packed at the end, none if they do not fit.
   */
  function ExtractedPalettes(data: seq<byte>, bpp: int, patternCount: i32): seq<seq<Color>> {
    if bpp != 4 && bpp != 8 then []
    else
      var paletteSize := PaletteSize(bpp);
      if |data| < 20 + 16 + paletteSize then []
      else
        var ext := ExtHeaderFrom(data, 20, ToUnsigned(patternCount), MinHeaderPos(patternCount));
        if ext == 0 then
          if |data| >= paletteSize then [PaletteAt(data, |data| - paletteSize, ColorCount(bpp))] else []
        else
          var n := PaletteCount(U32At(data, ext + 8));
          if |data| < n * paletteSize then [] else PackedPalettes(data, bpp, n)
  }

  /** The palette count of the extended header, 1 when it is 0 or above 16. */
  function PaletteCount(n0: u32): (n: nat)
    ensures 1 <= n <= 16
    ensures 1 <= n0 <= 16 ==> n == n0
    ensures n0 == 0 || n0 > 16 ==> n == 1
  {
    if n0 == 0 || n0 > 16 then 1 else n0
  }

  /** Every palette stored at off has 256 entries, index 0 transparent, and grey from 16 on at 4 bits. */
  ghost predicate EmbeddedOk(pal: seq<Color>, bpp: int) {
    IsPalette(pal) && pal[0] == Transparent &&
    (bpp == 4 ==> forall i :: 16 <= i < 256 ==> pal[i] == Gray(i))
  }

  /** Palettes exist only at 4 and 8 bits, number at most 16, have 256 entries with index 0 transparent, and 4-bit ones keep grey from 16 on. */
  lemma ExtractedPalettesShape(data: seq<byte>, bpp: int, patternCount: i32)
    ensures var pals := ExtractedPalettes(data, bpp, patternCount);
            (bpp != 4 && bpp != 8 ==> pals == []) && |pals| <= 16 &&
            forall k :: 0 <= k < |pals| ==> EmbeddedOk(pals[k], bpp)
  {
    var pals := ExtractedPalettes(data, bpp, patternCount);
    if bpp == 4 || bpp == 8 {
      forall k | 0 <= k < |pals| ensures EmbeddedOk(pals[k], bpp) {
        assert pals[k][0] == Transparent;
      }
    }
  }

  /** `applyPalette` on one pattern: indexed patterns with data are redrawn through the palette, others are kept. */
  function Recolor(p: Pattern, colors: seq<Color>): Pattern
    requires IsPalette(colors)
  {
    if (p.bpp == 8 || p.bpp == 4) && p.indexedData != [] then
      p.(bitmap := PaletteImage(p.indexedData, p.width, p.height, p.bpp, colors))
    else p
  }

  function RecolorAll(ps: seq<Pattern>, colors: seq<Color>): (r: seq<Pattern>)
    requires IsPalette(colors)
    ensures |r| == |ps| && forall k :: 0 <= k < |ps| ==> r[k] == Recolor(ps[k], colors)
  {
    seq(|ps|, k requires 0 <= k < |ps| => Recolor(ps[k], colors))
  }

  /** Applying the same palette twice gives the same patterns as applying it once. */
  lemma RecolorAllIdempotent(ps: seq<Pattern>, colors: seq<Color>)
    requires IsPalette(colors)
    ensures RecolorAll(RecolorAll(ps, colors), colors) == RecolorAll(ps, colors)
  {
    var once := RecolorAll(ps, colors);
    var twice := RecolorAll(once, colors);
    forall k | 0 <= k < |ps| ensures twice[k] == once[k] {
      assert once[k].indexedData == ps[k].indexedData && once[k].bpp == ps[k].bpp;
    }
  }

  /** Recolouring keeps each pattern's header and indexed data, and a well-formed pattern well formed. */
  lemma RecolorKeeps(p: Pattern, colors: seq<Color>)
    requires IsPalette(colors)
    ensures var q := Recolor(p, colors);
            q.width == p.width && q.height == p.height && q.bpp == p.bpp && q.flags == p.flags && q.indexedData == p.indexedData &&
            (PatternOk(p) ==> PatternOk(q))
  {
  }

  /** Patterns and embedded palettes of a sheet. */
  datatype SheetState = SheetState(patterns: seq<Pattern>, palettes: seq<seq<Color>>)

  /**
   * `parseNJP` on the state before it: a bad header changes nothing;
   * otherwise the parsed patterns are appended, the palettes are extracted
   * for the depth of the first pattern, and the first palette is applied.
   */
  function Parsed(st: SheetState, data: seq<byte>): SheetState {
    if !NjpHeaderOk(data) then st
    else
      var ps := st.patterns + ParsePatterns(data);
      var pals := ExtractedPalettes(data, PrimaryBppOf(ps), ToSigned(U32At(data, 16)));
      ExtractedPalettesShape(data, PrimaryBppOf(ps), ToSigned(U32At(data, 16)));
      SheetState(if pals == [] then ps else RecolorAll(ps, pals[0]), pals)
  }

  /** The input `loadFromMemory` hands to the parser: the file itself, or its RCLIB-L decompression; nothing when too short or not decompressible. */
  function Unwrapped(data: seq<byte>): Option<seq<byte>> {
    if |data| < 16 then None
    else if Rclib.HasMagicAt(data, 0) then
      var d := Rclib.Decompress(data);
      if d.ok then Some(d.dest) else None
    else Some(data)
  }

  /** `loadFromMemory`: the patterns are cleared first, then the unwrapped input is parsed. */
  function LoadedFromMemory(st: SheetState, data: seq<byte>): SheetState {
    var cleared := st.(patterns := []);
    match Unwrapped(data)
    case None => cleared
    case Some(njp) => Parsed(cleared, njp)
  }

  /** Whatever the input, every pattern a load leaves is well formed. */
  lemma LoadedPatternsOk(st: SheetState, data: seq<byte>)
    ensures forall k :: 0 <= k < |LoadedFromMemory(st, data).patterns| ==> PatternOk(LoadedFromMemory(st, data).patterns[k])
  {
    match Unwrapped(data)
    case None =>
    case Some(njp) =>
      ParsePatternsProps(njp);
      if NjpHeaderOk(njp) {
        var ps := ParsePatterns(njp);
        var pals := ExtractedPalettes(njp, PrimaryBppOf(ps), ToSigned(U32At(njp, 16)));
        ExtractedPalettesShape(njp, PrimaryBppOf(ps), ToSigned(U32At(njp, 16)));
        if pals != [] {
          forall k | 0 <= k < |ps| ensures PatternOk(RecolorAll(ps, pals[0])[k]) {
            RecolorKeeps(ps[k], pals[0]);
          }
        }
      }
  }

  /** An NJP file whose patterns are all empty stores their headers as they are. */
  lemma EmptyPatternsStoredAsIs(data: seq<byte>, count: nat, i: nat, pos: nat)
    requires i < count && pos + 20 <= |data|
    requires HeaderAt(data, pos).width == 0
    ensures ParseFrom(data, count, i, pos) == [HeaderAt(data, pos)] + ParseFrom(data, count, i + 1, pos + 20)
  {
  }

  /** The palette loop of `extractPalettes`: n palettes read from the end of the file, first to last. */
  method ReadPackedPalettes(data: seq<byte>, bpp: int, n: nat) returns (pals: seq<seq<Color>>)
    requires (bpp == 4 || bpp == 8) && n * PaletteSize(bpp) <= |data|
    ensures pals == PackedPalettes(data, bpp, n)
  {
    var paletteSize := PaletteSize(bpp);
    var palOffset := |data| - n * paletteSize;
    pals := [];
    var p := 0;
    while p < n
      invariant 0 <= p <= n && |pals| == p
      invariant forall k :: 0 <= k < p ==> pals[k] == PackedPalette(data, bpp, n, k)
    {
      PackedBound(|data|, paletteSize, n, p);
      var pal := ReadPalette(data, palOffset + p * paletteSize, ColorCount(bpp));
      pals := pals + [pal];
      p := p + 1;
    }
  }

  /** The pattern loop of `parseNJP` for a declared count: the patterns in the order they are stored. */
  method ReadPatternList(data: seq<byte>, patternCount: nat) returns (stored: seq<Pattern>)
    ensures stored == ParseFrom(data, patternCount, 0, 20)
  {
    var pos: nat := 20;
    var i: nat := 0;
    stored := [];
    while i < patternCount
      invariant stored + ParseFrom(data, patternCount, i, pos) == ParseFrom(data, patternCount, 0, 20)
      decreases patternCount - i
    {
      var step := ReadPattern(data, patternCount, i, pos);
      ParseFromStep(data, patternCount, i, pos);
      if step.Done? {
        break;
      }
      stored := stored + [step.p];
      if step.Last? {
        break;
      }
      pos, i := step.pos, i + 1;
    }
    ParseFromStep(data, patternCount, i, pos);
  }

  /** A sprite sheet: the file it came from, its patterns and its embedded palettes. */
  class SpriteSheet {
    var filename: string
    var patterns: seq<Pattern>
    var embeddedPalettes: seq<seq<Color>>

    ghost function State(): SheetState
      reads this
    {
      SheetState(patterns, embeddedPalettes)
    }

    /** Every embedded palette has 256 entries. */
    ghost predicate PalettesOk()
      reads this
    {
      forall k :: 0 <= k < |embeddedPalettes| ==> IsPalette(embeddedPalettes[k])
    }

    constructor ()
      ensures filename == [] && patterns == [] && embeddedPalettes == []
    {
      filename, patterns, embeddedPalettes := [], [], [];
    }

    /** `valid()`: at least one pattern. */
    predicate IsValid()
      reads this
      ensures IsValid() <==> PatternCount() > 0
    {
      patterns != []
    }

    /** `patternCount()`. */
    function PatternCount(): (n: nat)
      reads this
      ensures n == |patterns|
    {
      |patterns|
    }

    /** `primaryBpp()`: 8 when empty, else the depth of the first pattern. */
    function PrimaryBpp(): (bpp: int)
      reads this
      ensures patterns == [] ==> bpp == 8
      ensures patterns != [] ==> bpp == patterns[0].bpp
    {
      PrimaryBppOf(patterns)
    }

    /** `embeddedPaletteCount()`: the number of embedded palettes. */
    function EmbeddedPaletteCount(): (n: nat)
      reads this
      ensures n == |embeddedPalettes|
    {
      |embeddedPalettes|
    }

    /** `hasEmbeddedPalette()`: holds exactly when the count is positive. */
    predicate HasEmbeddedPalette()
      reads this
      ensures HasEmbeddedPalette() <==> EmbeddedPaletteCount() > 0
    {
      embeddedPalettes != []
    }

    /** `getPattern(index)`: the pattern at index, or nothing out of range. */
    function GetPattern(index: int): (r: Option<Pattern>)
      reads this
      ensures r.Some? <==> 0 <= index < |patterns|
      ensures r.Some? ==> r.value == patterns[index]
    {
      if 0 <= index < |patterns| then Some(patterns[index]) else None
    }

    /** `getEmbeddedPalette(index)`: the palette at index, or nothing out of range. */
    function GetEmbeddedPalette(index: int): (r: Option<seq<Color>>)
      reads this
      ensures r.Some? <==> 0 <= index < |embeddedPalettes|
      ensures r.Some? ==> r.value == embeddedPalettes[index]
    {
      if 0 <= index < |embeddedPalettes| then Some(embeddedPalettes[index]) else None
    }

    /** `applyPalette` with a palette's 256 colours: every pattern becomes its recoloured self. */
    method ApplyColors(colors: seq<Color>)
      requires IsPalette(colors)
      modifies this
      ensures patterns == RecolorAll(old(patterns), colors)
      ensures filename == old(filename) && embeddedPalettes == old(embeddedPalettes)
    {
      var i := 0;
      while i < |patterns|
        invariant 0 <= i <= |patterns| == |old(patterns)|
        invariant filename == old(filename) && embeddedPalettes == old(embeddedPalettes)
        invariant forall k :: 0 <= k < i ==> patterns[k] == Recolor(old(patterns)[k], colors)
        invariant forall k :: i <= k < |patterns| ==> patterns[k] == old(patterns)[k]
      {
        var q := RecolorPattern(patterns[i], colors);
        patterns := patterns[i := q];
        i := i + 1;
      }
    }

    /** One pattern of `applyPalette`: an indexed pattern with data is drawn again through the palette. */
    static method RecolorPattern(p: Pattern, colors: seq<Color>) returns (q: Pattern)
      requires IsPalette(colors)
      ensures q == Recolor(p, colors)
    {
      q := p;
      if (p.bpp == 8 || p.bpp == 4) && p.indexedData != [] {
        var bm := new Bitmap();
        PaintIndexed(p.indexedData, p.width, p.height, p.bpp, colors, bm);
        q := p.(bitmap := bm.Snapshot());
      }
    }

    /** `applyPalette(palette)`. */
    method ApplyPalette(palette: Palette)
      requires palette.Valid()
      modifies this
      ensures patterns == RecolorAll(old(patterns), old(palette.colors[..]))
      ensures filename == old(filename) && embeddedPalettes == old(embeddedPalettes)
    {
      ApplyColors(palette.colors[..]);
    }

    /** `applyEmbeddedPalette(index)`: applies the embedded palette at index; false when there is none. */
    method ApplyEmbeddedPalette(index: int) returns (ok: bool)
      requires PalettesOk()
      modifies this
      ensures PalettesOk()
      ensures ok == (0 <= index < |embeddedPalettes|)
      ensures ok ==> patterns == RecolorAll(old(patterns), embeddedPalettes[index])
      ensures !ok ==> patterns == old(patterns)
      ensures filename == old(filename) && embeddedPalettes == old(embeddedPalettes)
    {
      var pal := GetEmbeddedPalette(index);
      if pal.Some? {
        ApplyColors(pal.value);
        return true;
      }
      return false;
    }

    /** `extractPalettes`: the embedded palettes become those the file holds. */
    method ExtractPalettes(data: seq<byte>, bpp: int, patternCount: i32) returns (ok: bool)
      modifies this
      ensures embeddedPalettes == ExtractedPalettes(data, bpp, patternCount) && PalettesOk()
      ensures ok == (embeddedPalettes != [])
      ensures patterns == old(patterns) && filename == old(filename)
    {
      ExtractedPalettesShape(data, bpp, patternCount);
      embeddedPalettes := [];
      if bpp != 4 && bpp != 8 {
        return false;
      }
      var paletteSize := PaletteSize(bpp);
      if |data| < 20 + 16 + paletteSize {
        return false;
      }
      var extHeaderPos := FindExtHeader(data, ToUnsigned(patternCount), MinHeaderPos(patternCount));
      var colorCount := ColorCount(bpp);
      if extHeaderPos == 0 {
        if |data| >= paletteSize {
          var pal := ReadPalette(data, |data| - paletteSize, colorCount);
          embeddedPalettes := embeddedPalettes + [pal];
          return true;
        }
        return false;
      }
      var paletteCount := U32At(data, extHeaderPos + 8);
      if paletteCount == 0 || paletteCount > 16 {
        paletteCount := 1;
      }
      var totalPaletteBytes := paletteCount * paletteSize;
      if |data| < totalPaletteBytes {
        return false;
      }
      embeddedPalettes := ReadPackedPalettes(data, bpp, paletteCount);
      return embeddedPalettes != [];
    }

    /** Appends the patterns of the file. */
    method ReadPatterns(data: seq<byte>)
      requires NjpHeaderOk(data)
      modifies this
      ensures patterns == old(patterns) + ParsePatterns(data)
      ensures filename == old(filename) && embeddedPalettes == old(embeddedPalettes)
    {
      var parsed := ReadPatternList(data, U32At(data, 16));
      patterns := patterns + parsed;
    }

    /** `parseNJP`: the patterns of data are appended, then the embedded palettes are extracted and the first applied. */
    method ParseNjp(data: seq<byte>) returns (ok: bool)
      requires PalettesOk()
      modifies this
      ensures PalettesOk() && filename == old(filename)
      ensures State() == Parsed(old(State()), data)
      ensures ok == (NjpHeaderOk(data) && patterns != [])
    {
      if |data| < 20 {
        return false;
      }
      if data[..12] != NjpMagic {
        return false;
      }
      var patternCount := U32At(data, 16);
      ReadPatterns(data);
      var primaryBpp := if patterns == [] then 8 else patterns[0].bpp;
      var _ := ExtractPalettes(data, primaryBpp, ToSigned(patternCount));
      if embeddedPalettes != [] {
        var _ := ApplyEmbeddedPalette(0);
      }
      return patterns != [];
    }

    /** `loadFromMemory`: clears the patterns, unwraps an RCLIB-L file, and parses. */
    method LoadFromMemory(data: seq<byte>) returns (ok: bool)
      requires PalettesOk()
      modifies this
      ensures PalettesOk() && filename == old(filename)
      ensures State() == LoadedFromMemory(old(State()), data)
      ensures ok == (Unwrapped(data).Some? && NjpHeaderOk(Unwrapped(data).value) && patterns != [])
    {
      patterns := [];
      if |data| < 16 {
        return false;
      }
      if data[..7] == Rclib.Magic {
        var decoded, decompressed := Rclib.DecompressRclib(data);
        if !decoded {
          return false;
        }
        ok := ParseNjp(decompressed[..]);
        return;
      }
      ok := ParseNjp(data);
    }

    /** `loadFromFile`: records the path, clears the patterns, and loads the file's bytes (none when it cannot be opened). */
    method LoadFromFile(path: string, file: Option<seq<byte>>) returns (ok: bool)
      requires PalettesOk()
      modifies this
      ensures PalettesOk() && filename == path
      ensures file.None? ==> !ok && patterns == [] && embeddedPalettes == old(embeddedPalettes)
      ensures file.Some? ==> State() == LoadedFromMemory(old(State()), file.value)
      ensures file.Some? ==> ok == (Unwrapped(file.value).Some? && NjpHeaderOk(Unwrapped(file.value).value) && patterns != [])
    {
      filename := path;
      patterns := [];
      if file.None? {
        return false;
      }
      ok := LoadFromMemory(file.value);
    }
  }
}
