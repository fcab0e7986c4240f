# OpenShadowFlare core, modelled in Dafny

OpenShadowFlare re-implements the engine libraries of the game ShadowFlare.
This project models the self-contained logic of those libraries and proves
what each operation promises:

- **NJP sprite pipeline** (`njp_loader.cpp`):
  - the RCLIB-L decompressor, an LZSS decoder with a 4096-byte window;
  - the NJP container parser, with its next-header scan and palette extraction;
  - the indexed-to-RGBA pixel decoder and the palette recolouring;
  - the rectangle layout of the texture atlas.
- **CPU raster layer** (`gfx2d`): `Color`, `Rect`, `Bitmap` (moves, pixel access, clear, fill, the three blits) and `Palette`.
- **RK_FUNCTION**: Shift-JIS aware string and path utilities, and `SYSTEMTIME` ordering.
- **RKC_DIB**: the row stride of a device independent bitmap, and its three pointers.
- **RKC_DBFCONTROL**: the 0x144-byte double-buffer control record, as 32-bit words at fixed offsets.
- **RKC_RPG_TABLE**: a singly linked list of tables, and a table's value lookups.
- **RKC_MEMORY**: a heap block with a recorded size.
- **haudio**: the voice allocator and the mixing loop of the software mixer.

Each source component is one module in its own file:

| file | module |
|---|---|
| `bytes.dfy` | little-endian reads, two's complement, C division |
| `gfx2d_types.dfy` | `Color`, `Rect` |
| `gfx2d.dfy` | `Image`, `Bitmap`, `Palette` |
| `rclib.dfy` | RCLIB-L |
| `njp_pixels.dfy` | pixel decoder |
| `njp_sheet.dfy` | container parser and `SpriteSheet` |
| `njp_atlas.dfy` | atlas layout |
| `rk_function.dfy` | RK_FUNCTION |
| `rkc_dib.dfy` | RKC_DIB |
| `rkc_dbfcontrol.dfy` | RKC_DBFCONTROL |
| `rkc_rpg_table.dfy` | RKC_RPG_TABLE |
| `rkc_memory.dfy` | RKC_MEMORY |
| `haudio.dfy` | haudio |

Code that changes state is written as classes and methods with loops, in
the same shape as the source:

- `Bitmap`, `Palette`, `Memory`, `Dib`, `DbfControl`, `Table`, `Sound`, `Voice` and `Mixer` are classes.
- Pixel buffers, windows and C strings are arrays.

Each method is proved against a function of its inputs and its old state,
and the properties of the operation are proved about that function:

- `Rclib.DecompressRclib` equals `Rclib.Decompress`.
- `NjpSheet.SpriteSheet.ParseNjp` equals `NjpSheet.Parsed`.
- `Haudio.Mixer.MixAudio` equals `Haudio.MixFrom`.
- `RkFunction.DeleteTabSpaceString` equals `RkFunction.DeleteTabSpaceOf`.

Other definitions:

- A `Bitmap`'s pixels are an `array2<Color>`. `Bitmap.Snapshot` reads them as an `Image` value, and a `Pattern` keeps that value.
- `Bitmap.IsValid` (the source's `valid()`) holds exactly when the pixel array exists. `Bitmap.Stride` is `width * 4`.
- A C string is a byte array holding a NUL. `RkFunction.Str` is its content up to the first NUL.
- `NjpSheet.DefaultPattern` is the default `Pattern`: all fields 0, no bitmap and no indexed data.

Choices at the boundary:

- **I/O becomes parameters.** A file's bytes are an `Option<seq<byte>>`, where `None` means the file cannot be opened. Whether `GlobalAlloc` succeeds is a `bool`. The texture upload's result is a `bool`.
- **Machine integers are subset types** (`u32`, `i32`, `u16`, `i16`, `byte`). Wrap-around is explicit in these places, and the 32-bit overflows that are not modelled are listed under "## Left out":
  - `DrawEnd`'s counter;
  - the `(v + 3) & ~3` of RKC_DIB;
  - the DWORD subtraction in RKC_MEMORY `Copy`;
  - the 64-bit `minHeaderPos` of `extractPalettes`.

## Model

| member | source | states |
|---|---|---|
| Bytes.U32AtBytes | src/gfx2d/njp_loader.cpp:141 | a 32-bit field is read little-endian: byte p is its low byte, byte p+3 its high byte |
| Bytes.Align4 | src/gfx2d/njp_loader.cpp:401-403 | rounding up to 4 gives a multiple of 4 that is at least the value and less than the value + 4 |
| Gfx2dTypes.Opaque | src/gfx2d/gfx2d.hpp:32 | the three-argument colour constructor keeps r, g, b and sets alpha to 255 |
| Gfx2dTypes.FromToRgba | src/gfx2d/gfx2d.hpp:35-39 | unpacking a packed colour gives the colour back, for every colour |
| Gfx2dTypes.ToFromRgba | src/gfx2d/gfx2d.hpp:35-39 | packing an unpacked 32-bit word gives the word back, so packing is a bijection |
| Gfx2dTypes.RgbMaskCompare | src/gfx2d/gfx2d.cpp:167-181 | comparing packed colours under the mask 0x00FFFFFF is the same as comparing r, g and b, whatever the alphas |
| Gfx2dTypes.IntersectsIffCommonPoint | src/gfx2d/gfx2d.hpp:52-59 | two rects share a point they both contain exactly when they intersect and neither is empty |
| Gfx2dTypes.EmptyContainsNothing | src/gfx2d/gfx2d.hpp:52-54 | a rect with w <= 0 or h <= 0 contains no point |
| Gfx2dTypes.IntersectsSymmetric | src/gfx2d/gfx2d.hpp:56-59 | `intersects` is symmetric |
| Gfx2d.BlendChannel | src/gfx2d/gfx2d.cpp:217-220 | a blended channel lies between the source and destination channels |
| Gfx2d.BlendBetween | src/gfx2d/gfx2d.cpp:217-220 | (s*sa + d*(255-sa)) / 255 with integer division lies between s and d |
| Gfx2d.BlendPixel | src/gfx2d/gfx2d.cpp:206-221 | a source pixel that is not fully transparent gives alpha 255 |
| Gfx2d.BlendPixelBetween | src/gfx2d/gfx2d.cpp:217-220 | each blended channel lies between the source and destination channels |
| Gfx2d.BlendPixelExtremes | src/gfx2d/gfx2d.cpp:206-213 | a source alpha of 0 keeps the destination; a source alpha of 255 copies r, g, b with alpha 255 |
| Gfx2d.Bitmap.constructor | src/gfx2d/gfx2d.cpp:22 | a new bitmap has no pixels and size 0 x 0 |
| Gfx2d.Bitmap.Sized | src/gfx2d/gfx2d.cpp:24-26 | the sized constructor gives a valid w x h bitmap of transparent pixels exactly when w and h are positive |
| Gfx2d.Bitmap.Moved | src/gfx2d/gfx2d.cpp:32-37 | the move constructor takes the other's size and pixels, and leaves the other empty |
| Gfx2d.Bitmap.MoveAssign | src/gfx2d/gfx2d.cpp:39-50 | move assignment takes the other's size and pixels and empties it; self-assignment changes nothing |
| Gfx2d.Bitmap.IsValid | src/gfx2d/gfx2d.hpp:86 | a consistent bitmap has pixels exactly when its width and height are positive |
| Gfx2d.Bitmap.Stride | src/gfx2d/gfx2d.hpp:85 | four bytes per pixel: a non-negative multiple of 4, zero exactly for a bitmap without pixels |
| Gfx2d.Bitmap.Create | src/gfx2d/gfx2d.cpp:52-63 | succeeds exactly when w > 0 and h > 0, with every pixel (0,0,0,0); on failure size 0 x 0 and no pixels |
| Gfx2d.Bitmap.Release | src/gfx2d/gfx2d.cpp:65-70 | afterwards there are no pixels and the size is 0 x 0 |
| Gfx2d.Bitmap.GetPixel | src/gfx2d/gfx2d.cpp:72-78 | the pixel at (x, y) in range, and the default colour (0,0,0,255) out of range |
| Gfx2d.Bitmap.SetPixel | src/gfx2d/gfx2d.cpp:80-89 | in range, `GetPixel` then returns the colour set; no other pixel changes, and nothing changes out of range |
| Gfx2d.Bitmap.Clear | src/gfx2d/gfx2d.cpp:91-108 | every pixel becomes c |
| Gfx2d.Bitmap.FillRect | src/gfx2d/gfx2d.cpp:110-126 | exactly the pixels the rect contains become c; all others keep their colour |
| Gfx2d.Bitmap.Blit | src/gfx2d/gfx2d.cpp:132-162 | each destination pixel covered by the source rect clipped to the source becomes the matching source pixel; all others are unchanged |
| Gfx2d.Bitmap.BlitAll | src/gfx2d/gfx2d.cpp:128-130 | the whole source is copied at (destX, destY), clipped to both bitmaps; nothing else changes |
| Gfx2d.Bitmap.BlitKeyed | src/gfx2d/gfx2d.cpp:164-190 | like `BlitAll`, except that a source pixel whose r, g, b equal the key's leaves the destination unchanged |
| Gfx2d.Bitmap.BlitAlpha | src/gfx2d/gfx2d.cpp:192-224 | each covered destination pixel becomes `BlendPixel` of the source pixel and its old value; others are unchanged |
| Gfx2d.Palette.constructor | src/gfx2d/gfx2d.cpp:458-463 | a new palette is the opaque grey ramp (i,i,i,255) |
| Gfx2d.Palette.GetColor | src/gfx2d/gfx2d.cpp:471-476 | entry index for 0..255, and the default colour (0,0,0,255) for any other index |
| Gfx2d.Palette.SetColor | src/gfx2d/gfx2d.cpp:465-469 | sets entry index for 0..255 and ignores other indices |
| Gfx2d.Palette.LoadFromRgbQuad | src/gfx2d/gfx2d.cpp:478-486 | the first min(count, 256) entries become the BGRA quads as RGBA with alpha 255; the rest are kept |
| Gfx2d.Palette.ApplyTo | src/gfx2d/gfx2d.cpp:488-501 | the output is a width x height bitmap whose pixel (x, y) is the entry of index byte y*width + x |
| Gfx2d.LoadPaletteFromFile | src/gfx2d/gfx2d.cpp:518-555 | entry i is the file's i-th BGRA quad as RGBA, with alpha 0 at index 0 and 255 elsewhere; entries the file lacks are (0,0,0,0) |
| Gfx2d.FileEntryZeroTransparent | src/gfx2d/gfx2d.cpp:547-549 | entry 0 of a palette loaded from a file is transparent |
| Gfx2d.CreateDefaultPalette | src/gfx2d/gfx2d.cpp:503-516 | the file's palette when its entry 1 is not black, otherwise the grey ramp; entry 0 is transparent either way |
| Rclib.MatchOffset | src/gfx2d/njp_loader.cpp:61 | the match offset b1 \| ((b2 & 0xF0) << 4) is below 4096 |
| Rclib.MatchLength | src/gfx2d/njp_loader.cpp:62 | the match length (b2 & 0x0F) + 3 is between 3 and 18 |
| Rclib.EmitByte | src/gfx2d/njp_loader.cpp:73-76 | storing a byte at the output and window cursors yields the registers `Emit` describes |
| Rclib.Emit | src/gfx2d/njp_loader.cpp:73-76 | an emitted byte is appended to the output and written at the window cursor, and the cursor advances mod 4096 |
| Rclib.Run | src/gfx2d/njp_loader.cpp:49-79 | decoding from a state only appends to the output produced so far |
| Rclib.Decompress | src/gfx2d/njp_loader.cpp:29-81 | success needs 16 bytes and the "RCLIB-L" magic; the output is then the declared size at offset 8; a bad header gives nothing |
| Rclib.DecompressRclib | src/gfx2d/njp_loader.cpp:26-81 | the decoder with its window array and counters returns exactly `Decompress`'s verdict and bytes |
| Rclib.DecodeGroup | src/gfx2d/njp_loader.cpp:51-78 | one control byte's eight steps over the arrays agree with `Run` on the group |
| Rclib.CopyMatch | src/gfx2d/njp_loader.cpp:57-69 | a back-reference copy over the window array agrees with `Run` on the match |
| Rclib.LiteralBlock | src/gfx2d/njp_loader.cpp:49-79 | a 0x00 control byte followed by N <= 8 literals, with declared size N, decodes to exactly those literals |
| Rclib.LiteralsCopy | src/gfx2d/njp_loader.cpp:70-77 | with all flag bits clear, the remaining output is copied straight from the input |
| Rclib.SourceExhausted | src/gfx2d/njp_loader.cpp:49-51 | when the input runs out before a control byte, decoding produces nothing more |
| Rclib.ExtendSource | src/gfx2d/njp_loader.cpp:49-79 | once decoding has produced the declared size, bytes after the input change nothing |
| Rclib.DecompressIgnoresTrailingData | src/gfx2d/njp_loader.cpp:37-81 | a successful decompression is unchanged by trailing data |
| NjpPixels.Nibble | src/gfx2d/njp_loader.cpp:466-468 | a 4-bit index is below 16, the high nibble first |
| NjpPixels.BitOf | src/gfx2d/njp_loader.cpp:479-481 | a 1-bit index is 0 or 1, the most significant bit first |
| NjpPixels.Scale | src/gfx2d/njp_loader.cpp:433-435 | scaling v of max to 0..255 maps 0 to 0 and max to 255 |
| NjpPixels.ImageOf | src/gfx2d/njp_loader.cpp:397 | the image has the requested size when both sides are positive, is empty otherwise, and holds f(x, y) at (x, y) |
| NjpPixels.Render | src/gfx2d/njp_loader.cpp:397-492 | the bitmap is recreated at the requested size and filled pixel by pixel with f |
| NjpPixels.ConvertIndexedToRgba | src/gfx2d/njp_loader.cpp:395-493 | the output bitmap is the decoded image of the indexed data at that depth |
| NjpPixels.PixelReadsInBounds | src/gfx2d/njp_loader.cpp:405-484 | with height * stride bytes, every pixel read of row height-1-y lies inside the buffer |
| NjpPixels.RowStrideBounds | src/gfx2d/njp_loader.cpp:401-403 | the stride ((width*bpp + 7)/8 + 3) & ~3 is a multiple of 4 covering the row's bits, with fewer than 4 spare bytes |
| NjpPixels.RowBytesCover | src/gfx2d/njp_loader.cpp:412-484 | the bytes of pixel x lie within the row's bytes at every known depth |
| NjpPixels.TransparentIffKey | src/gfx2d/njp_loader.cpp:412-487 | a decoded pixel is transparent exactly for 8-bit index 0, 4-bit nibble 0, a clear bit, 16-bit 0xF81F or 24-bit (255,0,255) |
| NjpPixels.PlaceholderIsRampPalette | src/gfx2d/njp_loader.cpp:413-476 | the 8- and 4-bit decoding equals recolouring with the grey ramp (i or i*17, index 0 transparent) |
| NjpPixels.PaintIndexed | src/gfx2d/njp_loader.cpp:503-528 | the bitmap becomes the indexed data drawn through the palette |
| NjpSheet.HeaderAt | src/gfx2d/njp_loader.cpp:164-172 | a pattern header holds no bitmap and no indexed data |
| NjpSheet.ScanFrom | src/gfx2d/njp_loader.cpp:222-236 | the scan never moves backwards |
| NjpSheet.ScanFromFirst | src/gfx2d/njp_loader.cpp:222-236 | the scan stops at the first position that looks like a header, or where fewer than 21 bytes remain |
| NjpSheet.ScanNextHeader | src/gfx2d/njp_loader.cpp:222-236 | the scan loop returns `ScanFrom` |
| NjpSheet.ParseStep | src/gfx2d/njp_loader.cpp:156-245 | a loop iteration that goes on moves strictly forward in the file |
| NjpSheet.ParseFromStep | src/gfx2d/njp_loader.cpp:147-246 | the stored patterns are the first iteration's pattern followed by the rest; none after the declared count |
| NjpSheet.ReadPattern | src/gfx2d/njp_loader.cpp:156-245 | one iteration stops, stores and stops, or stores and goes on, exactly as `ParseStep` says |
| NjpSheet.ReadPatternList | src/gfx2d/njp_loader.cpp:141-246 | the pattern loop stores the patterns `ParseFrom` lists, in file order |
| NjpSheet.ParseFromProps | src/gfx2d/njp_loader.cpp:147-246 | at most the declared number of patterns is stored, and each is well formed |
| NjpSheet.ParsePatternsProps | src/gfx2d/njp_loader.cpp:130-246 | a valid header leads to at most `patternCount` patterns, each empty-sized one without pixels |
| NjpSheet.EmptyPatternsStoredAsIs | src/gfx2d/njp_loader.cpp:183-186 | a pattern of width 0 is stored as its header, and parsing goes on 20 bytes later |
| NjpSheet.ExtHeaderFrom | src/gfx2d/njp_loader.cpp:299-315 | a found extended header lies past minHeaderPos and holds the pattern count twice, and no earlier position past minHeaderPos does (the scan stops at the first match) |
| NjpSheet.ExtHeaderNone | src/gfx2d/njp_loader.cpp:299-317 | when the scan finds nothing, no later position holds the header |
| NjpSheet.FindExtHeader | src/gfx2d/njp_loader.cpp:299-315 | the scan loop returns `ExtHeaderFrom` |
| NjpSheet.PaletteAt | src/gfx2d/njp_loader.cpp:325-332 | a palette has 256 entries with entry 0 (0,0,0,0), the file's BGRA entries up to the colour count, and grey after |
| NjpSheet.ReadPalette | src/gfx2d/njp_loader.cpp:361-371 | the palette loop gives `PaletteAt` |
| NjpSheet.PaletteCount | src/gfx2d/njp_loader.cpp:341-347 | a palette count of 0 or above 16 becomes 1; a count in 1..16 is kept |
| NjpSheet.PackedPalettes | src/gfx2d/njp_loader.cpp:350-374 | n palettes are read from the end of the file, the k-th at offset size - n*paletteSize + k*paletteSize |
| NjpSheet.ReadPackedPalettes | src/gfx2d/njp_loader.cpp:357-374 | the palette loop gives `PackedPalettes` |
| NjpSheet.ExtractedPalettesShape | src/gfx2d/njp_loader.cpp:275-377 | no palettes unless bpp is 4 or 8; at most 16; each has 256 entries with entry 0 transparent |
| NjpSheet.RecolorAll | src/gfx2d/njp_loader.cpp:495-531 | recolouring keeps the number of patterns and recolours each one on its own |
| NjpSheet.RecolorAllIdempotent | src/gfx2d/njp_loader.cpp:495-531 | applying the same palette twice gives the same patterns as applying it once |
| NjpSheet.RecolorKeeps | src/gfx2d/njp_loader.cpp:495-531 | recolouring keeps each pattern's header fields and indexed data |
| NjpSheet.LoadedPatternsOk | src/gfx2d/njp_loader.cpp:111-128 | whatever the input, every pattern a load leaves is well formed |
| NjpSheet.SpriteSheet.constructor | src/gfx2d/njp_loader.cpp:88 | a new sheet has no file name, no patterns and no palettes |
| NjpSheet.SpriteSheet.PatternCount | src/happy/njp_loader.hpp:70 | the number of patterns |
| NjpSheet.SpriteSheet.IsValid | src/happy/njp_loader.hpp:78 | holds exactly when the sheet has at least one pattern |
| NjpSheet.SpriteSheet.PrimaryBpp | src/happy/njp_loader.hpp:81 | 8 without patterns, else the depth of pattern 0 |
| NjpSheet.SpriteSheet.EmbeddedPaletteCount | src/happy/njp_loader.hpp:60 | the number of embedded palettes |
| NjpSheet.SpriteSheet.HasEmbeddedPalette | src/happy/njp_loader.hpp:57 | holds exactly when the embedded palette count is positive |
| NjpSheet.SpriteSheet.GetPattern | src/gfx2d/njp_loader.cpp:533-545 | the pattern at an index in range, and nothing otherwise |
| NjpSheet.SpriteSheet.GetEmbeddedPalette | src/gfx2d/njp_loader.cpp:379-384 | the palette at an index in range, and nothing otherwise |
| NjpSheet.SpriteSheet.ApplyColors | src/gfx2d/njp_loader.cpp:495-531 | every pattern becomes its recoloured self; file name and palettes are kept |
| NjpSheet.SpriteSheet.RecolorPattern | src/gfx2d/njp_loader.cpp:497-528 | one pattern is recoloured as `Recolor` says: only 4- and 8-bit patterns with indexed data are drawn again |
| NjpSheet.SpriteSheet.ApplyPalette | src/gfx2d/njp_loader.cpp:495-531 | `applyPalette` recolours the patterns with the palette's 256 colours |
| NjpSheet.SpriteSheet.ApplyEmbeddedPalette | src/gfx2d/njp_loader.cpp:386-393 | true exactly for an index in range, applying that palette; otherwise nothing changes |
| NjpSheet.SpriteSheet.ExtractPalettes | src/gfx2d/njp_loader.cpp:275-377 | the embedded palettes become `ExtractedPalettes`, with result true exactly when there are some |
| NjpSheet.SpriteSheet.ReadPatterns | src/gfx2d/njp_loader.cpp:139-249 | the file's patterns are appended to the sheet |
| NjpSheet.SpriteSheet.ParseNjp | src/gfx2d/njp_loader.cpp:130-260 | the sheet becomes `Parsed` of its old state; true exactly when the header is valid and a pattern is stored |
| NjpSheet.SpriteSheet.LoadFromMemory | src/gfx2d/njp_loader.cpp:111-128 | the patterns are cleared, an RCLIB-L input is unwrapped, and the result is parsed as `LoadedFromMemory` says |
| NjpSheet.SpriteSheet.LoadFromFile | src/gfx2d/njp_loader.cpp:91-109 | records the path; a missing file gives false with no patterns; otherwise it loads the file's bytes |
| NjpAtlas.SideFrom | src/gfx2d/njp_loader.cpp:575-578 | doubling from a power of two stops at the first power at least n, or at 4096 |
| NjpAtlas.AtlasSide | src/gfx2d/njp_loader.cpp:575-578 | the atlas side is a power of two, at least n unless capped at 4096, and the least such power |
| NjpAtlas.RoundUpSide | src/gfx2d/njp_loader.cpp:575-578 | the rounding loop returns `AtlasSide` |
| NjpAtlas.Slots | src/gfx2d/njp_loader.cpp:565-567 | one slot per pattern, with its bitmap validity and size |
| NjpAtlas.PackPrefix | src/gfx2d/njp_loader.cpp:586-604 | the layout of n patterns has n rects |
| NjpAtlas.PackNext | src/gfx2d/njp_loader.cpp:588-603 | each pattern appends one rect and keeps the earlier ones |
| NjpAtlas.PackShape | src/gfx2d/njp_loader.cpp:587-604 | patterns without a valid bitmap get the zero rect; others get a rect of their size at x = 0 or ending within the atlas width |
| NjpAtlas.PackPrefixDisjoint | src/gfx2d/njp_loader.cpp:587-604 | the rects placed so far never overlap and lie behind the cursor |
| NjpAtlas.PackDisjoint | src/gfx2d/njp_loader.cpp:587-605 | no two rects of a sheet overlap, and all lie above currentY + rowHeight |
| NjpAtlas.LoadedSlotsPositive | src/gfx2d/njp_loader.cpp:183-216 | patterns the loader produces have a positive size wherever they have a bitmap |
| NjpAtlas.SumWidths | src/gfx2d/njp_loader.cpp:562-571 | the first loop sums the widths of the patterns with a valid bitmap |
| NjpAtlas.PackSlots | src/gfx2d/njp_loader.cpp:582-604 | the placement loop returns `Pack` |
| NjpAtlas.TextureAtlas.constructor | src/gfx2d/njp_loader.cpp:551 | a new atlas has no rects |
| NjpAtlas.TextureAtlas.PatternCount | src/happy/njp_loader.hpp:124 | the number of stored rects |
| NjpAtlas.TextureAtlas.GetPatternRect | src/gfx2d/njp_loader.cpp:631-636 | the stored rect in range, and the zero rect otherwise |
| NjpAtlas.TextureAtlas.CreateFromSpriteSheet | src/gfx2d/njp_loader.cpp:554-629 | an empty sheet gives no rects and false; otherwise the rects are the layout for the rounded total width, and the height is rounded the same way |
| RkFunction.CheckSjis | src/RK_FUNCTION/src/core.cpp:23-30 | 1 exactly when (c & 0xFF) is in 0x80..0x9F or 0xE0..0xFF, else 0 |
| RkFunction.CheckStringSjis | src/RK_FUNCTION/src/core.cpp:35-47 | 1 exactly when the string exists and holds a lead byte, else 0 |
| RkFunction.CheckLastRoot | src/RK_FUNCTION/src/core.cpp:52-61 | 1 exactly when the path exists, is not empty and ends in a backslash |
| RkFunction.LastSingleSpec | src/RK_FUNCTION/src/core.cpp:226-237 | the scan finds the last position holding the byte outside a double-byte character, or none |
| RkFunction.ScanLastSingle | src/RK_FUNCTION/src/core.cpp:226-237 | the scanning loop returns `LastSingle` |
| RkFunction.CutLastRootRef | src/RK_FUNCTION/src/core.cpp:218-242 | the final byte is removed exactly when it is a backslash that is not the second byte of a double-byte character |
| RkFunction.CutLastRoot | src/RK_FUNCTION/src/core.cpp:218-242 | the buffer's string becomes `CutLastRootOf` of the old string; a null path is left alone |
| RkFunction.SetLastRootProps | src/RK_FUNCTION/src/core.cpp:247-260 | afterwards a non-empty path ends in a backslash; adding twice equals adding once; an empty path is unchanged |
| RkFunction.CutUndoesSet | src/RK_FUNCTION/src/core.cpp:218-260 | removing an added backslash restores the path exactly when the path ends on a character boundary |
| RkFunction.SetLastRoot | src/RK_FUNCTION/src/core.cpp:247-260 | the buffer's string becomes `SetLastRootOf` of the old string |
| RkFunction.DirectoryFileSplit | src/RK_FUNCTION/src/core.cpp:265-324 | with a backslash, the directory part (ending in the backslash) followed by the file part is the path; without one, both leave it unchanged |
| RkFunction.CutFilenameFromFullPath | src/RK_FUNCTION/src/core.cpp:265-288 | the buffer keeps the path up to and including its last backslash |
| RkFunction.CutDirectoryFromFullPath | src/RK_FUNCTION/src/core.cpp:294-324 | the buffer keeps the part after the last backslash, moved to the front |
| RkFunction.CompareFrom | src/RK_FUNCTION/src/core.cpp:78-118 | the comparison loop answers 1 or -1 |
| RkFunction.StringsCompareOf | src/RK_FUNCTION/src/core.cpp:67-119 | 0 exactly when the first string is empty; otherwise 1 or -1 |
| RkFunction.StringsCompare | src/RK_FUNCTION/src/core.cpp:67-119 | the loop returns `StringsCompareOf` |
| RkFunction.CompareWithPrefix | src/RK_FUNCTION/src/core.cpp:78-118 | a non-empty string matches any of its prefixes (answer 1) |
| RkFunction.CompareIgnoresCase | src/RK_FUNCTION/src/core.cpp:97-112 | compared case-insensitively, a single-byte string matches its lower-case form both ways |
| RkFunction.StripLeadingProps | src/RK_FUNCTION/src/core.cpp:158-177 | mode 0 removes exactly the leading run of spaces and tabs |
| RkFunction.StripAllProps | src/RK_FUNCTION/src/core.cpp:178-201 | mode 1 gives a subsequence with no space or tab outside a double-byte character, is the identity exactly on such strings, and is idempotent |
| RkFunction.StripTrailingProps | src/RK_FUNCTION/src/core.cpp:202-212 | mode 2 removes exactly the trailing run of spaces and tabs |
| RkFunction.DeleteTabSpaceString | src/RK_FUNCTION/src/core.cpp:153-213 | the buffer's string becomes `DeleteTabSpaceOf` of the old one for the mode |
| RkFunction.StripLeadingInPlace | src/RK_FUNCTION/src/core.cpp:158-177 | the in-place shift leaves `StripLeading` of the string |
| RkFunction.StripAllInPlace | src/RK_FUNCTION/src/core.cpp:178-201 | the two-pointer loop leaves `StripAll` of the string |
| RkFunction.StripTrailingInPlace | src/RK_FUNCTION/src/core.cpp:202-212 | the backwards scan leaves `StripTrailing` of the string |
| RkFunction.CopyNumberAsWritten | src/RK_FUNCTION/src/core.cpp:331-387 | the copy always has exactly maxLen bytes, padded with spaces, and is empty for maxLen <= 0 |
| RkFunction.StringCopyNumber | src/RK_FUNCTION/src/core.cpp:331-387 | the destination's string is `CopyNumberAsWritten` |
| RkFunction.CopyNumberSplitsCharacter | src/RK_FUNCTION/src/core.cpp:351-369 | for "a" + 0x82 0xA0 with maxLen 2 the code copies "a" + 0x82, half a character; the corrected copy gives "a " |
| RkFunction.CopyNumber | src/RK_FUNCTION/src/core.cpp:326-387 | the corrected copy also has exactly maxLen bytes |
| RkFunction.CopyNumberProps | src/RK_FUNCTION/src/core.cpp:326-387 | the corrected copy is a prefix of the source ending on a character boundary, padded with spaces, and all of a short source |
| RkFunction.AnalyzeFilenameSplit | src/RK_FUNCTION/src/core.cpp:398-449 | "." and ".." are their own name; otherwise name + "." + ext is the file name when it has a dot outside a double-byte character; else name is the file name and ext is empty |
| RkFunction.AnalyzeFilename | src/RK_FUNCTION/src/core.cpp:393-450 | the two out-buffers receive `NameOf` and `ExtOf` of the file name |
| RkFunction.WildCardDotMismatch | src/RK_FUNCTION/src/core.cpp:498-501 | the early rejection fires exactly when only one of pattern and file name has a dot |
| RkFunction.MesDefineCheck | src/RK_FUNCTION/src/core.cpp:756-770 | 1 exactly when the string exists, has at least 2 bytes, and starts and ends with '"' |
| RkFunction.MesDefineRoundTrip | src/RK_FUNCTION/src/core.cpp:756-838 | for s not starting with '"', quoting then checking gives 1 and quoting then unquoting gives s; quoting is idempotent |
| RkFunction.MesDefineCutOfChecked | src/RK_FUNCTION/src/core.cpp:756-799 | a checked string is unquoted to its inner bytes |
| RkFunction.MesDefineCut | src/RK_FUNCTION/src/core.cpp:776-799 | the buffer's string becomes `MesDefineCutOf` of the old one |
| RkFunction.MesDefineSet | src/RK_FUNCTION/src/core.cpp:805-838 | the buffer's string becomes `MesDefineSetOf` of the old one |
| RkFunction.SystemTimeCompare | src/RK_FUNCTION/src/core.cpp:923-955 | the answer is -1, 0 or 1 |
| RkFunction.LexCompare | src/RK_FUNCTION/src/core.cpp:927-954 | the lexicographic comparison is 0 exactly on equal keys |
| RkFunction.LexAntisymmetric | src/RK_FUNCTION/src/core.cpp:927-954 | swapping the arguments negates the answer |
| RkFunction.LexTransitive | src/RK_FUNCTION/src/core.cpp:927-954 | "later than" is transitive |
| RkFunction.SystemTimeCompareIsLexicographic | src/RK_FUNCTION/src/core.cpp:923-955 | lexicographic on (year, month, day, hour, minute, second, ms); 0 only on equal keys; antisymmetric; transitive; ignores the day of the week |
| RkcDib.AlignTo4 | src/RKC_DIB/src/core.cpp:93-95 | (v + 3) & ~3 is a multiple of 4, at least v and less than v + 4 when no overflow occurs |
| RkcDib.RowBytesIsNeed | src/RKC_DIB/src/core.cpp:117-132 | without overflow each per-depth formula is the row's bits rounded up to bytes |
| RkcDib.Dib.constructor | src/RKC_DIB/src/core.cpp:32-36 | all three pointers are null |
| RkcDib.Dib.Release | src/RKC_DIB/src/core.cpp:42-52 | all three pointers are null afterwards |
| RkcDib.Dib.GetAlignWidth | src/RKC_DIB/src/core.cpp:109-136 | -1 exactly without a header or for a depth outside {1,4,8,16,24}; otherwise a multiple of 4, at least the row's bytes and less than them + 4 |
| RkcDib.Dib.SetBitmap | src/RKC_DIB/src/core.cpp:146-150 | returns the previous pixel pointer and installs the new one; nothing else changes |
| RkcDib.Dib.GetRect | src/RKC_DIB/src/core.cpp:160-173 | (0, 0, biWidth, biHeight), or all zero without a header |
| RkcDbfControl.DbfOffset | src/RKC_DBFCONTROL/src/core.cpp:225-230 | each embedded RKC_DBF is a whole 0x24-byte slot from 0x20, and both lie before the draw count |
| RkcDbfControl.WriteRect | src/RKC_DBFCONTROL/src/core.cpp:189-196 | writing a clip rect sets its four words and no other |
| RkcDbfControl.ClipBothReachesEveryDbf | src/RKC_DBFCONTROL/src/core.cpp:638-651 | after both clip rects are set, each RKC_DBF (the current one too) holds the rect, and only the eight clip words differ |
| RkcDbfControl.DbfSetClipRect | src/RKC_DBFCONTROL/src/core.cpp:189-196 | `RKC_DBF::SetClipRect` writes the rect's four words at its offset 0x14 |
| RkcDbfControl.DbfControl.constructor | src/RKC_DBFCONTROL/src/core.cpp:225-230 | the control views an existing 0x144-byte record |
| RkcDbfControl.DbfControl.GetCurrentDBF | src/RKC_DBFCONTROL/src/core.cpp:225-230 | for an index of 0 or 1 the offset is a whole embedded RKC_DBF; index 1 gives 0x44 |
| RkcDbfControl.DbfControl.GetStyle | src/RKC_DBFCONTROL/src/core.cpp:295-305 | with -1 meaning the stored mode, the `LONG` -2^31 (`WS_POPUP`, bit pattern 0x80000000) exactly for mode 0 and 0x00CA0000 otherwise |
| RkcDbfControl.DbfControl.GetExStyle | src/RKC_DBFCONTROL/src/core.cpp:322-336 | 0x10 for mode 1 and 0x108 otherwise |
| RkcDbfControl.DbfControl.GetPosition | src/RKC_DBFCONTROL/src/core.cpp:344-358 | CW_USEDEFAULT (0x80000000) twice for mode 1 and (0, 0) otherwise; the rest of the array is kept |
| RkcDbfControl.DbfControl.DrawEnd | src/RKC_DBFCONTROL/src/core.cpp:601-609 | the draw count goes up by exactly one (32-bit wrap); the drawing flag goes to 0 only from 1; no other word changes |
| RkcDbfControl.DbfControl.FlushDrawCount | src/RKC_DBFCONTROL/src/core.cpp:689 | the draw count becomes 0 and nothing else changes |
| RkcDbfControl.DbfControl.SetPaintFunction | src/RKC_DBFCONTROL/src/core.cpp:615-617 | stores the callback at 0x138 and nothing else |
| RkcDbfControl.DbfControl.SetScreenClear | src/RKC_DBFCONTROL/src/core.cpp:623-631 | the flag goes to 0x7c, and the RGBQUAD word (0 for a null pointer) to 0x80; nothing else changes |
| RkcDbfControl.DbfControl.SetClipRect | src/RKC_DBFCONTROL/src/core.cpp:638-651 | both embedded clip rects (0x34 and 0x58) receive the rect, as `ClipBoth` says |
| RkcRpgTable.TableData.constructor | src/RKC_RPG_TABLE/src/core.cpp:290-297 | tableNo is -1, both counts 0, no tables |
| RkcRpgTable.TableData.Release | src/RKC_RPG_TABLE/src/core.cpp:330-361 | tableNo becomes 0xffffffff (-1), both counts 0, the tables freed; the link is kept |
| RkcRpgTable.TableData.GetStrings | src/RKC_RPG_TABLE/src/core.cpp:367-373 | the string at (row, column) in range, and none otherwise |
| RkcRpgTable.TableData.GetValueAsWritten | src/RKC_RPG_TABLE/src/core.cpp:424-431 | the code's guard: -1 unless row and column are both below columnCount; a row at or past rowCount then reads out of bounds |
| RkcRpgTable.TableData.GetValue | src/RKC_RPG_TABLE/src/core.cpp:424-431 | corrected: the value at (row, column) in range, else -1; it agrees with the code whenever rowCount == columnCount |
| RkcRpgTable.GetValueGuardsRowWithColumns | src/RKC_RPG_TABLE/src/core.cpp:426 | with 1 row and 2 columns, row 1 passes the code's guard and reads past the table; with 2 rows and 1 column, row 1 is refused |
| RkcRpgTable.Table.AtStep | src/RKC_RPG_TABLE/src/core.cpp:235-238 | following `next` from node i reaches node i + 1 |
| RkcRpgTable.Table.constructor | src/RKC_RPG_TABLE/src/core.cpp:45-48 | a new table list is empty |
| RkcRpgTable.Table.GetCount | src/RKC_RPG_TABLE/src/core.cpp:230-241 | the number of nodes reachable from headData |
| RkcRpgTable.Table.Get | src/RKC_RPG_TABLE/src/core.cpp:212-224 | the i-th node for 0 <= i < count, null otherwise |
| RkcRpgTable.Table.GetFromTableNo | src/RKC_RPG_TABLE/src/core.cpp:247-259 | the first node with that tableNo, and null exactly when there is none |
| RkcRpgTable.Table.GetNo | src/RKC_RPG_TABLE/src/core.cpp:265-279 | the position of the node in the list, and -1 exactly when it is not in it |
| RkcRpgTable.Table.Locate | src/RKC_RPG_TABLE/src/core.cpp:168-176 | the walk stops at position min(max(index, 0), count), with the node before it |
| RkcRpgTable.Table.UnlinkAfter | src/RKC_RPG_TABLE/src/core.cpp:178-181 | relinking the previous node drops exactly node i; no other link changes |
| RkcRpgTable.Table.PopHead | src/RKC_RPG_TABLE/src/core.cpp:162-166 | the old head is handed back and its successor becomes the head |
| RkcRpgTable.Table.Delete | src/RKC_RPG_TABLE/src/core.cpp:156-187 | false with nothing changed for an empty list, a missing out-parameter or index >= count; otherwise node index is handed back and unlinked, the order of the rest kept; a negative index hands back the head and unlinks nothing |
| RkcRpgTable.Table.DeleteAfterHead | src/RKC_RPG_TABLE/src/core.cpp:168-186 | the walk-and-unlink part of `Delete` for an index other than 0 |
| RkcMemory.CopyAcceptsAsWritten | src/RKC_MEMORY/src/core.cpp:105-108 | the code's test needs a positive count, and for a start within the block accepts exactly the copies that fit |
| RkcMemory.CopyPastEndAccepted | src/RKC_MEMORY/src/core.cpp:107 | a 4-byte block accepts a 1-byte copy at offset 8, past its end |
| RkcMemory.Memory.constructor | src/RKC_MEMORY/src/core.cpp:40-44 | size 0 and no block |
| RkcMemory.Memory.Release | src/RKC_MEMORY/src/core.cpp:25-34 | size 0 and no block afterwards, so releasing twice is the same as once |
| RkcMemory.Memory.Allocation | src/RKC_MEMORY/src/core.cpp:71-80 | on success the size is the count, with zero bytes when asked; on failure no block and size 0 |
| RkcMemory.Memory.GetSize | src/RKC_MEMORY/src/core.cpp:86-89 | the recorded size as a LONG |
| RkcMemory.Memory.Copy | src/RKC_MEMORY/src/core.cpp:103-112 | 1 exactly when the copy fits; then exactly [start, start+n) receives the data, else nothing changes and 0 |
| RkcMemory.Memory.Clear | src/RKC_MEMORY/src/core.cpp:119-136 | always 0, and nothing changes |
| Haudio.BytesPerFrame | src/happy/haudio.hpp:54-55 | 2 * channels for 16-bit samples and channels for 8-bit ones |
| Haudio.Clamp16 | src/happy/haudio.hpp:670-671 | a sum is clamped to [-32768, 32767] and kept when it already fits |
| Haudio.FramesOf | src/happy/haudio.hpp:87 | frames() is the whole number of frames the data holds |
| Haudio.Sound.constructor | src/happy/haudio.hpp:223 | no data and the default format |
| Haudio.Sound.Frames | src/happy/haudio.hpp:87 | data.size() / bytesPerFrame() |
| Haudio.Sound.IsValid | src/happy/haudio.hpp:85 | a sound with at least one whole frame is valid |
| Haudio.Sound.Release | src/happy/haudio.hpp:242-245 | no data and the default format afterwards |
| Haudio.Sound.Create | src/happy/haudio.hpp:247-252 | frames * bytesPerFrame zero bytes in the given format, so `frames()` is the requested count |
| Haudio.Voice.constructor | src/happy/haudio.hpp:128-133 | no sound, position 0, not looping, paused or playing |
| Haudio.Voice.IsPlaying | src/happy/haudio.hpp:118 | playing means active and not paused |
| Haudio.Voice.Active | src/happy/haudio.hpp:119 | active means started, whether paused or not |
| Haudio.Voice.Stop | src/happy/haudio.hpp:364-367 | playing false and position 0; the rest is kept |
| Haudio.Voice.SetPosition | src/happy/haudio.hpp:369-373 | the position becomes min(frame, frames()); without a sound nothing changes |
| Haudio.MixFrame | src/happy/haudio.hpp:665-672 | one frame's channels are mixed and no other sample changes |
| Haudio.MixFrames | src/happy/haudio.hpp:655-675 | the frame loop keeps the buffer length |
| Haudio.MixFramesEnds | src/happy/haudio.hpp:655-675 | a looping voice keeps playing; a voice that stops is not looping and at the end of its sound; a non-looping voice still playing advanced one frame per output frame |
| Haudio.MixFramesKeeps | src/happy/haudio.hpp:655-675 | the frame loop writes no sample before frame i or from frame `frames` on |
| Haudio.MixOne | src/happy/haudio.hpp:635-675 | a skipped voice (not playing, paused, no sound, other format) leaves buffer and voice unchanged; a mixed one changes only position and playing |
| Haudio.MixFrom | src/happy/haudio.hpp:634-676 | mixing the voices in order keeps the buffer length and one view per voice |
| Haudio.Zeroed | src/happy/haudio.hpp:631 | clearing keeps the buffer length |
| Haudio.MixFromIdle | src/happy/haudio.hpp:635-649 | when no voice mixes, the buffer and the voices are unchanged |
| Haudio.SilenceWithoutVoices | src/happy/haudio.hpp:631-649 | with no voice playing, the first frames*channels samples are 0, the rest kept, and no voice changes |
| Haudio.Mixer.constructor | src/happy/haudio.hpp:590 | 32 fresh idle voices in the given format |
| Haudio.Mixer.Play | src/happy/haudio.hpp:600-617 | null, nothing changed, exactly when all 32 voices are playing; otherwise the first free slot gets the sound at position 0, looping as asked, unpaused and playing, and other slots are untouched |
| Haudio.Mixer.StopAll | src/happy/haudio.hpp:619-625 | every voice stops with position 0 |
| Haudio.Mixer.MixChannels | src/happy/haudio.hpp:665-672 | the channel loop gives `MixFrame` |
| Haudio.Mixer.MixLoop | src/happy/haudio.hpp:655-675 | the frame loop gives `MixFrames`' buffer, position and playing flag |
| Haudio.Mixer.MixVoice | src/happy/haudio.hpp:635-675 | one voice is mixed as `MixOne` says; other voices and all sounds are unchanged |
| Haudio.Mixer.MixVoices | src/happy/haudio.hpp:634-676 | mixing every slot in order leaves buffer and slots as `MixFrom` says; every slot keeps its sound |
| Haudio.Mixer.ZeroPrefix | src/happy/haudio.hpp:631 | the first frames*channels samples become 0 and no other |
| Haudio.Mixer.MixAudio | src/happy/haudio.hpp:627-677 | buffer and voices become `MixFrom` of the cleared buffer and the old voices; every voice keeps its sound |

## Left out

- Texture, Renderer and the OpenGL upload: they are foreign graphics calls. `TextureAtlas::createFromSpriteSheet` is modelled up to its rects and sizes; the upload's answer is a parameter.
- Gfx2d.Bitmap.Create, Gfx2d.Bitmap.Sized: `width * height * 4` is computed without 32-bit `int` overflow. The model succeeds with a full w x h bitmap for every positive size. In the source, a product of 2^31 or more wraps, so the allocation throws or is short and later pixel writes go past it.
- NjpAtlas.TextureAtlas.CreateFromSpriteSheet, NjpAtlas.SumWidths, NjpAtlas.PackSlots: the `int` sums `totalWidth += width` and `currentX + width` are computed without 32-bit overflow. In the source, a sheet whose valid widths sum past 2^31 - 1 wraps `totalWidth`, and a width near 2^31 wraps `currentX + width`.
- NjpAtlas.TextureAtlas.CreateFromSpriteSheet: the atlas bitmap it clears and blits the patterns into before the upload is not modelled, since the bitmap is handed to the GPU and never kept.
- File reads become parameters: `SpriteSheet::loadFromFile`, `Palette::loadFromFile` and `Palette::createDefault` receive the file's bytes or `None`. Diagnostics (`printf`, `fprintf`) are left out.
- Gfx2d.Bitmap.Blit, Gfx2d.Bitmap.BlitAll, Gfx2d.Bitmap.BlitKeyed, Gfx2d.Bitmap.BlitAlpha: a blit from a bitmap onto itself is not modelled; the contracts require the source's pixel array to differ from the destination's. The source copies such a blit in place, row by row and left to right, so overlapping rects smear; the model's contracts describe the copy of distinct bitmaps only.
- Gfx2d.LoadPaletteFromFile: a file whose length is not a multiple of 4 is read up to its last whole entry, as the `fread` loop does; read errors in the middle of the file are not modelled.
- NjpPixels.ConvertIndexedToRgba, NjpPixels.PaintIndexed: the source reads `indexed[...]` without a length check. The model reads through `ByteAt`, which gives 0 past the end. `PixelReadsInBounds` shows that this fallback is never used when the buffer holds height * stride bytes.
- NjpSheet.LooksLikeHeader, NjpSheet.ScanFrom, NjpSheet.ScanNextHeader: the source's scan checks only `nextPos + 20 < size`, then compares 7 bytes at `nextPos + 20`. At the last six positions (nextPos from size - 26 to size - 21) that `memcmp` reads up to 6 bytes past the buffer. Through `Rclib.HasMagicAt` the model counts these positions as no match.
- NjpSheet.ScanFromFirst: its statement that the scan stops at the first candidate holds only because those last six positions count as no match. What the source's out-of-bounds `memcmp` would find there is not modelled.
- NjpSheet.HeaderAt: the 32-bit width, height and bpp are read as two's complement `int`; a product width * bpp beyond 32 bits is computed without wrap-around.
- RkcMemory.Memory.Copy: `start >= 0` is a precondition, because the source does not check it. It also rejects a start past the end, which the source accepts (see Findings).
- The source member `Get` and the assignment operator of RKC_MEMORY, and all destructors, hold no logic to prove.
- RKC_DBFCONTROL `Paint`, `InitOpenGL`, `PresentOpenGL`, `ShutdownOpenGL`, `Clear`, the original-function loaders and logging: these are GDI, WGL, GL or calls into the original DLLs.
- RKC_DBFCONTROL's empty stubs (`DrawFunction`, `Draw`, `EnableDraw`, `GetClipRect` and the like) do nothing and are not modelled.
- RkcDbfControl.DbfControl.GetCurrentDBF: it returns the byte offset of the selected RKC_DBF, not a pointer.
- RKC_RPG_TABLE: the empty `Release`, the destructors and the functions that forward to the original DLL.
- RkcRpgTable.TableData.constructor: the source leaves `next` uninitialised; the model sets it to null.
- The list's distinctness and acyclicity are assumed through `Table.Valid`, a ghost sequence of the reachable nodes. `GetCount` wraps at 2^31 nodes, which the model does not reach.
- Filesystem and clock functions of RK_FUNCTION (`RK_CheckFileExist`, `RK_CheckFilesExist`, `RK_ReleaseFilesExist`, `RK_CheckDriveEffective`, `RK_GetFileLastWrite`, `RK_SetFileLastWrite`) and `RK_StringsCopyAuto`, which allocates with `GlobalAlloc`.
- RkFunction.AnalyzeFilename: passing the same buffer as name and extension is not modelled; the method requires two distinct buffers. The source would write the extension over the name.
- `RK_FilenameCompareWildCard`: only its early rejection when exactly one side has a dot is modelled. The `*` matching is an ad hoc scan with no stated contract.
- RkFunction.StringCopyNumber: it models the code as written, which can split a double-byte character; the corrected copy is `CopyNumber` (see Findings).
- haudio: the mutex, the waveOut callback and the ALSA thread, `init`/`shutdown` and `loadWAV`/`loadRaw` are left out. They are concurrency, platform audio and file parsing.
- Haudio.Mixer.MixAudio: the float gain `volume * masterVolume` is fixed to 1, so `Play`'s volume clamp and `setVolume`/`setMasterVolume` are not modelled; `setLooping` and `setPaused` are one-field assignments and are left out.
- Haudio.Mixer.MixAudio: a looping voice whose sound has no whole frame would make the source read past its data; `LoopsHaveFrames` is a precondition that rules it out.
- Haudio.Mixer.MixVoice, Haudio.Mixer.MixVoices, Haudio.Mixer.MixAudio: only a mixer format of 16-bit samples with at least one channel is modelled (`MixerFormat`). The source mixes in any format and reads each sound's data as `int16_t` samples, so an 8-bit sound matching an 8-bit mixer would be read past its data.
- Haudio.Sound.Create: `frames * bytesPerFrame()` is computed without the `size_t` wrap.

## Findings

| source | as written | input that shows it | evidently intended | confidence | as-written member | corrected member |
|---|---|---|---|---|---|---|
| src/RK_FUNCTION/src/core.cpp:358 | before a lead byte it stops only when the lead-byte counter, starting at 1, equals maxLen | src = "a" 0x82 0xA0, maxLen = 2: it copies "a" 0x82, the first half of a double-byte character | stop before a lead byte when only one byte of room is left, so no character is split | not executed | RkFunction.CopyNumberSplitsCharacter | RkFunction.CopyNumberProps |
| src/RKC_MEMORY/src/core.cpp:107 | `size - start` is computed in unsigned DWORD arithmetic, so a start past the end wraps to a huge room | size = 4, sizeToCopy = 1, start = 8: the test passes and `memcpy` writes at offset 8 of a 4-byte block | reject any copy that does not lie inside [0, size) | not executed | RkcMemory.CopyPastEndAccepted | RkcMemory.Memory.Copy |
| src/RKC_RPG_TABLE/src/core.cpp:426 | the row is checked against `columnCount`, not `rowCount` | rowCount = 1, columnCount = 2, GetValue(1, 0): it reads `table[1]` of a one-row table | 0 <= row < rowCount | not executed | RkcRpgTable.GetValueGuardsRowWithColumns | RkcRpgTable.TableData.GetValue |
