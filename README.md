# GameMapMerge in Dafny

GameMapMerge stitches the tile images of a game's maps into one PNG per map. It runs in two passes.

**Registration.** Each input file name is classified.
- A *main tile* gives a map name and an (x, y) grid position. The position is transformed by the mode's flip and negate flags.
- A *fallback* tile gives only a map name.
- Each loaded bitmap is wrapped in a reference-counted `DisposableHolder`.
- Each map is a `MapInfo`: a dictionary from grid point to holder, plus an optional fallback holder shown where no tile is stored.

**Merging.** For every map that has stored tiles:
- `LTRB` computes the bounding box of the grid points, and `UnitSize` the longest tile side.
- One `DirectBitmap` of (columns × size) by (rows × size) pixels is allocated.
- Every cell is either filled with transparent black or drawn from its tile, resampled to size × size.
- The map's shares of its holders are released.
- The bitmap is written as a PNG file: the signature and IHDR chunk, the zlib stream cut into IDAT chunks of about 16 MiB by `IDATStream`, and the IEND chunk.

## Modules

| file | module | models |
|---|---|---|
| `arith.dfy` | `Arith` | int32 range and two's-complement wrap-around, and the row-major offset `y * w + x` with its lemmas |
| `seqs.dfy` | `Seqs` | concatenation of a sequence of byte strings |
| `drawing.dfy` | `Drawing` | `Point`, `Rectangle` (`Rect`), a tile bitmap as an opaque `Image`, and the `Resampler` parameter |
| `ref_count.dfy` | `RefCount` | `DisposableHolder<T>`, as a value (`Holder`) and as a class; the `Arena` of all holders |
| `map_info.dfy` | `MapInfos` | `MapInfo` as a class over a `Grid` value; `LTRB` and its bounding box; `UnitSize`; the indexer; `Fallback`; `Dispose` |
| `png.dfy` | `Png` | the 33-byte header template and its patching, the IEND footer, the BGRA-to-RGBA reorder, and filter-0 scanlines |
| `idat.dfy` | `Idat` | `IDATStream`: the buffering that cuts the zlib output into IDAT chunks |
| `direct_bitmap.dfy` | `DirectBitmaps` | `DirectBitmap`: pixels in an `array<bv32>`, `Fill`, `CopyTo`, `CopyFrom`, `SavePNG`, `Dispose`; the `Deflate` parameter |
| `compose.dfy` | `Compositing` | the nested cell loop of `Process` that draws one map |
| `program.dfy` | `Merge` | `MapDefinition` and the coordinate transform; the registration pass; the merging pass |

**Parameters instead of foreign code.** The following arrive as function parameters, because their algorithms are not part of the program:
- GDI+'s high-quality bicubic resampling (`Resampler`: source image, target size and pixel to ARGB value);
- the `ZLibStream` compressor (`Deflate`: from the raw image, every scanline's bytes concatenated, to the blocks of bytes it hands to `IDATStream`, as a sequence of writes);
- CRC-32 (`Crc32`).

**Properties proved.** The whole run (`Merge.Process`) returns exactly the outputs of the specification function `MergedAll`:
- one per non-empty map, in registration order;
- each with the pixel grid `Composite` (every pixel is the resampled pixel of the tile that `this[x, y]` returns for its cell, or 0 where that is null);
- each encoded by `PngFile` as header, IDAT frames of the re-chunked zlib stream, and IEND.

It also proves that no fallback tile is ever disposed before the last map is drawn: counting the shares each map owes keeps every holder alive while it is still needed.

## Model

| member | source | states |
|---|---|---|
| RefCount.Increased | src/DisposableHolder.cs:10-15 | Increase never touches the value or its dispose count, and leaves a dead holder dead and a live one live (the count is unbounded; see Left out) |
| RefCount.Disposed | src/DisposableHolder.cs:24-29 | Dispose makes the holder dead (count -1) and keeps its value |
| RefCount.Decreased | src/DisposableHolder.cs:16-23 | Decrease keeps the holder's value |
| RefCount.DecreaseLastShare | src/DisposableHolder.cs:16-23 | releasing the only share sets the count to -1 and disposes the value exactly once |
| RefCount.DecreaseUnshared | src/DisposableHolder.cs:16-23 | a Decrease on a holder with count 0 makes it dead (-1) without disposing the value: the value leaks |
| RefCount.DecreaseShared | src/DisposableHolder.cs:16-23 | with two or more shares, Decrease only drops the count by one |
| RefCount.DeadUnchanged | src/DisposableHolder.cs:10-23 | Increase and Decrease both leave a dead holder unchanged |
| RefCount.DisposeTwice | src/DisposableHolder.cs:24-29 | Dispose has no guard: two calls dispose the value twice |
| RefCount.DecreaseUndoesIncrease | src/DisposableHolder.cs:10-23 | on a holder with at least one share, Decrease after Increase restores it exactly (below the int32 wrap; see Left out) |
| RefCount.DecreasedNShared | src/DisposableHolder.cs:16-23 | n Decreases on a holder with more than n shares remove n shares and dispose nothing |
| RefCount.DecreasedNAll | src/DisposableHolder.cs:16-23 | as many Decreases as shares dispose the value exactly once and leave the holder dead |
| RefCount.RunBounds | src/DisposableHolder.cs:10-23 | over any sequence of Increase/Decrease calls, the count stays at or above -1 (with the unbounded count; see Left out), and the value is disposed at most once more, and only if the holder started alive |
| RefCount.RunDead | src/DisposableHolder.cs:10-23 | no sequence of Increase/Decrease calls changes a dead holder |
| RefCount.NewHolderDisposedAtMostOnce | src/DisposableHolder.cs:6-23 | a new holder is disposed at most once by any sequence of Increase/Decrease calls |
| RefCount.DisposableHolder.constructor | src/DisposableHolder.cs:6-9 | a new holder has count 0 and an undisposed value |
| RefCount.DisposableHolder.Increase | src/DisposableHolder.cs:10-15 | the object's new state is `Increased` of its old state |
| RefCount.DisposableHolder.Decrease | src/DisposableHolder.cs:16-23 | the object's new state is `Decreased` of its old state |
| RefCount.DisposableHolder.Dispose | src/DisposableHolder.cs:24-29 | the object's new state is `Disposed` of its old state |
| RefCount.Arena.Add | src/Program.cs:67 | `new DisposableHolder(...)` appends a fresh holder and returns its id |
| RefCount.Arena.Increase | src/DisposableHolder.cs:10-15 | Increase on the holder with that id; no other holder changes |
| RefCount.Arena.Decrease | src/DisposableHolder.cs:16-23 | Decrease on the holder with that id; no other holder changes |
| MapInfos.LookupAfterSet | src/MapInfo.cs:46-56 | after `this[p] = v`, the getter at p returns v, or the fallback when v is null; every other point reads as before; the fallback is kept |
| MapInfos.Released | src/MapInfo.cs:41 | `field?.Decrease()` changes only the old fallback's holder, if there is one |
| MapInfos.Acquired | src/MapInfo.cs:42 | `value?.Increase()` changes only the new fallback's holder, if there is one |
| MapInfos.ReassignLastShare | src/MapInfo.cs:39-44 | setting Fallback again to the holder it already holds, when that holder has only this one share, disposes the value and leaves the holder dead |
| MapInfos.ReplaceFallback | src/MapInfo.cs:39-44 | replacing one fallback with another takes one share from the old holder and gives one to the new |
| MapInfos.ReleasedAll | src/MapInfo.cs:58-64 | releasing a grid keeps every holder's value |
| MapInfos.ReleaseStep | src/MapInfo.cs:61-62 | one more Decrease, for one more key, keeps the loop invariant |
| MapInfos.ReleaseStart | src/MapInfo.cs:60 | after the fallback's Decrease, the loop invariant holds with no keys visited |
| MapInfos.ReleaseDone | src/MapInfo.cs:58-64 | once every key is visited, the holders equal `ReleasedAll` |
| MapInfos.ReleasedAllShares | src/MapInfo.cs:58-64 | a holder with more shares than the grid owns loses exactly those shares; a holder with exactly that many is disposed once |
| MapInfos.BoundingBoxUnique | src/MapInfo.cs:8-33 | a bounding box of a set of points is unique |
| MapInfos.BoundingBoxAdd | src/MapInfo.cs:25-28 | widening the box with Min/Max for one more point gives the bounding box of the larger set |
| MapInfos.Box | src/MapInfo.cs:8-33 | every non-empty set of points has a bounding box, with lt ≤ rb on both axes |
| MapInfos.MaxOf | src/MapInfo.cs:34 | LINQ Max: the largest element of a non-empty set |
| MapInfos.UnitSizeOf | src/MapInfo.cs:34 | no value on an empty grid (LINQ Max throws); otherwise the longest side of some stored tile, at least every stored tile's longest side; the fallback does not count |
| MapInfos.MapInfo.constructor | src/MapInfo.cs:7 | a new MapInfo has no entries and no fallback |
| MapInfos.MapInfo.LTRB | src/MapInfo.cs:8-33 | ((0,0),(0,0)) for an empty dictionary; otherwise exactly the bounding box of the keys, whatever order the loop visits them in |
| MapInfos.MapInfo.UnitSize | src/MapInfo.cs:34 | the unit size of the current grid and tile images |
| MapInfos.MapInfo.IsEmpty | src/MapInfo.cs:35 | true exactly when no tile is stored, even if a fallback is set |
| MapInfos.MapInfo.Get | src/MapInfo.cs:48 | the holder stored at (x, y), or the fallback when there is none |
| MapInfos.MapInfo.Set | src/MapInfo.cs:49-55 | stores or (for null) removes the entry, and changes no reference count |
| MapInfos.MapInfo.SetFallback | src/MapInfo.cs:36-45 | Decrease on the old fallback, then Increase on the new one, then the assignment; the dictionary is untouched |
| MapInfos.MapInfo.Dispose | src/MapInfo.cs:58-64 | one Decrease for the fallback and one for every stored entry, that is `ReleasedAll` |
| Png.BE32 | src/DirectBitmap.cs:84-86 | `WriteInt32BigEndian` writes four bytes |
| Png.BE32Value | src/DirectBitmap.cs:84-86 | the four bytes, read back as a big-endian number, are the value modulo 2^32 (two's complement for negative ints) |
| Png.FooterIsIendChunk | src/DirectBitmap.cs:76-78 | the fixed footer is the empty IEND chunk, provided the CRC-32 of "IEND" is 0xAE426082 |
| Png.TemplateParts | src/DirectBitmap.cs:70-75 | the template is 33 bytes: the signature, IHDR length 13, "IHDR", and bit depth 8, colour type 6 and three zero bytes |
| Png.HeaderLayout | src/DirectBitmap.cs:81-87 | the header carries the signature, IHDR length and tag, big-endian width at 16 and height at 20, the format bytes, and at 29 the CRC of bytes 12..28 |
| Png.WriteBigEndian | src/DirectBitmap.cs:84-86 | writes the four bytes in place and changes nothing else in the buffer |
| Png.BuildHeader | src/DirectBitmap.cs:81-86 | copy the template, patch width, height and CRC: the result is `PngHeader` |
| Png.ReorderIsRgba | src/DirectBitmap.cs:94-99 | the mask-and-rotate sends a little-endian BGRA pixel to the bytes R, G, B, A, and is its own inverse |
| Png.AsBytes | src/DirectBitmap.cs:101 | `MemoryMarshal.AsBytes` gives four bytes per pixel |
| Png.ReorderRow | src/DirectBitmap.cs:97-99 | pixel i of the result is pixel i of the row, reordered |
| Png.Scanline | src/DirectBitmap.cs:100-101 | a scanline is the filter byte 0 followed by four bytes per pixel |
| Png.RawImageStep | src/DirectBitmap.cs:92-103 | one more loop pass appends the next row's scanline |
| Png.ScanlineStep | src/DirectBitmap.cs:100-101 | the loop body's two writes are that scanline |
| Png.ScanlineLayout | src/DirectBitmap.cs:98-101 | pixel x of a row sits at bytes 1+4x..4+4x of its scanline, as R, G, B, A |
| Png.RawImageRow | src/DirectBitmap.cs:92-103 | the raw image has h·(4w+1) bytes, and row y's scanline is at y·(4w+1) |
| Idat.OutputStream.Write | src/DirectBitmap.cs:87 | a write appends the bytes to the destination stream |
| Idat.FramesSnoc | src/DirectBitmap.cs:156-171 | one more flushed buffer appends one more IDAT chunk |
| Idat.ChunkingKeepsBytes | src/DirectBitmap.cs:149-174 | the IDAT payloads, concatenated, are exactly the bytes written, in order, and no chunk is empty |
| Idat.ChunkingBound | src/DirectBitmap.cs:151-152 | no IDAT payload is longer than the larger of approxIDATSize and the longest single write |
| Idat.ChunkingSingle | src/DirectBitmap.cs:151-152 | a non-empty stream that fits in approxIDATSize becomes a single IDAT chunk |
| Idat.IdatStream.constructor | src/DirectBitmap.cs:123-129 | empty buffer, CRC primed with "IDAT", nothing written yet |
| Idat.IdatStream.Flush | src/DirectBitmap.cs:156-171 | an empty buffer writes nothing; otherwise the buffer goes out as one chunk of length, "IDAT", data and CRC, and the buffer and CRC start over |
| Idat.IdatStream.Write | src/DirectBitmap.cs:149-155 | flushes first when the bytes would overflow the buffer's capacity, then buffers them; the state follows `Feed` |
| Idat.IdatStream.WriteByte | src/DirectBitmap.cs:145-146 | a one-byte Write |
| Idat.IdatStream.WriteRange | src/DirectBitmap.cs:147-148 | a Write of buffer[offset..offset+count] |
| Idat.IdatStream.Close | src/DirectBitmap.cs:172-176 | the final Flush: every byte written is now in a chunk |
| Idat.WriteBlocks | src/DirectBitmap.cs:88-104 | the compressor's writes drive the stream to `FeedAll` of its blocks |
| DirectBitmaps.PasteRow | src/DirectBitmap.cs:42-43 | copying one more row extends the pasted rectangle by one row |
| DirectBitmaps.FillRow | src/DirectBitmap.cs:66-67 | filling one more row extends the filled rectangle by one row |
| DirectBitmaps.FillRows | src/DirectBitmap.cs:62-63 | when the rectangle spans the full width, a single run over its rows fills exactly the rectangle |
| DirectBitmaps.DirectBitmap.constructor | src/DirectBitmap.cs:30-37 | a fresh pixel array of width × height |
| DirectBitmaps.DirectBitmap.FromImage | src/DirectBitmap.cs:20-29 | every pixel is the resampler's value for the source image at that size |
| DirectBitmaps.DirectBitmap.CopyRun | src/DirectBitmap.cs:43 | `Span.CopyTo`: count pixels copied, nothing else in the destination changes |
| DirectBitmaps.DirectBitmap.CopyTo | src/DirectBitmap.cs:38-44 | rect.Width columns of every one of this bitmap's rows (its own Height, not rect.Height) land at rect's corner; every other destination pixel is unchanged |
| DirectBitmaps.DirectBitmap.CopyToPoint | src/DirectBitmap.cs:45-52 | the same, clipped to the destination's right edge |
| DirectBitmaps.DirectBitmap.CopyFrom | src/DirectBitmap.cs:53-58 | the rectangle holds the source resampled to its size; every pixel outside it is unchanged |
| DirectBitmaps.DirectBitmap.FillRun | src/DirectBitmap.cs:63 | `Array.Fill` over a run: those pixels become the colour, nothing else changes |
| DirectBitmaps.DirectBitmap.Fill | src/DirectBitmap.cs:59-69 | both branches fill exactly the rectangle with the colour and leave every other pixel unchanged |
| DirectBitmaps.DirectBitmap.WriteScanlines | src/DirectBitmap.cs:90-103 | the bytes handed to the compressor are `RawImage`: one filter-0 RGBA scanline per row, top to bottom |
| DirectBitmaps.DirectBitmap.ReorderLine | src/DirectBitmap.cs:97-99 | the line buffer holds the row's pixels reordered to RGBA |
| DirectBitmaps.DirectBitmap.SavePNG | src/DirectBitmap.cs:79-107 | appends `PngFile` to the destination: header, the IDAT chunks of the compressed scanlines, footer |
| DirectBitmaps.DirectBitmap.Dispose | src/DirectBitmap.cs:108-116 | releases the native bitmap once, and does nothing on a second call |
| DirectBitmaps.ClipRect | src/DirectBitmap.cs:47-51 | the rectangle starts at lt and is as wide and tall as the source, clipped to the destination |
| Compositing.InCell | src/Program.cs:100-105 | a pixel lies in cell (cx, cy)'s rectangle exactly when integer division by size gives (cx, cy) |
| Compositing.CellInside | src/Program.cs:97-105 | every cell's rectangle lies inside the merged bitmap |
| Compositing.Composite | src/Program.cs:97-112 | the merged pixels: each pixel is the resampled pixel of the tile `info[x, y]` yields for its cell, or 0 where it yields null |
| Compositing.CompositePixels | src/Program.cs:98-112 | a pixel sequence that agrees with `CellPixel` at every index is `Composite` |
| Compositing.SamePixels | src/Program.cs:98-112 | two bitmaps that agree at every (x, y) are equal |
| Compositing.FillCell | src/Program.cs:107-108 | filling an empty cell with 0 extends the drawn prefix by that cell |
| Compositing.CopyCell | src/Program.cs:109-110 | drawing a cell's tile extends the drawn prefix by that cell |
| Compositing.NextRow | src/Program.cs:98-101 | a completed row of cells starts the next row |
| Compositing.AllDrawn | src/Program.cs:98-112 | when every row is drawn, the bitmap is `Composite` |
| Compositing.Increment32 | src/Program.cs:101 | `x++` on an int: x + 1, except int.MaxValue wraps to int.MinValue |
| Compositing.GuardAtMaxValue | src/Program.cs:101 | after any `x++`, the guard `x <= rb.X` holds again when rb.X is int.MaxValue |
| Compositing.ColumnLoopAtMaxValue | src/Program.cs:101-105 | with rb.X == int.MaxValue the column loop does not stop: x wraps, the guard still holds, and the next cell's rectangle lies outside the bitmap |
| Compositing.DrawRow | src/Program.cs:101-111 | one row of cells drawn: the drawn prefix grows by one full row |
| Compositing.Compose | src/Program.cs:98-112 | the bitmap ends up holding `Composite` for the map |
| Merge.Neg32Value | src/Program.cs:57-60 | int negation: -n, except that int.MinValue stays int.MinValue |
| Merge.Transform | src/Program.cs:55-60 | swap, then negate x, then negate y, as the definition's flags say |
| Merge.UiMapTransform | src/Program.cs:29 | mode 1 sends (x, y) to (-y, -x) |
| Merge.TerrainTransform | src/Program.cs:30 | mode 2 sends (x, y) to (x, -y) |
| Merge.TransformInjective | src/Program.cs:55-60 | two different int32 file positions never land on the same grid point |
| Merge.ModesInvolutive | src/Program.cs:27-32 | both modes' transforms are their own inverses on int32 positions |
| Merge.StoreOk | src/Program.cs:72-73 | adding or replacing a map keeps the registry well formed (names distinct, every reference in range) |
| Merge.FallbackPhase | src/Program.cs:69-76 | the fallback branch keeps the registry well formed and adds no holder |
| Merge.TilePhase | src/Program.cs:77-84 | the main-tile branch keeps the registry well formed and adds no holder |
| Merge.AddHolderOk | src/Program.cs:67 | a new holder keeps the registry well formed |
| Merge.RegisterFile | src/Program.cs:47-85 | one file keeps the registry well formed and adds exactly one holder when a regex matched, none otherwise |
| Merge.RegisterAll | src/Program.cs:45-86 | the registration pass yields a well-formed registry |
| Merge.NeedSnoc | src/Program.cs:87 | the shares owed by a list of maps add up map by map |
| Merge.NeedOutside | src/Program.cs:72-81 | changing a map outside the list leaves its owed shares alone |
| Merge.NeedUpdate | src/Program.cs:72-81 | replacing a listed map changes the owed shares by the difference of the two grids |
| Merge.NeedReplace | src/Program.cs:72-81 | the same, for a map that may be new |
| Merge.NeedAtLeast | src/Program.cs:87 | the total owed is at least what any one listed map owes |
| Merge.NeedUnreferenced | src/Program.cs:67 | a holder no map refers to is owed nothing |
| Merge.NeedOfTile | src/Program.cs:82-83 | `info[x, y] = bmp` moves one owed share from the replaced holder, if any, to bmp |
| Merge.NeedOfFallback | src/Program.cs:74-75 | `info.Fallback = bmp` replaces the old fallback's two owed shares with two for bmp |
| Merge.FallbackReserve | src/Program.cs:69-76 | after the fallback branch, every holder still has at least the shares owed to it and is undisposed; the new holder has exactly 2 shares |
| Merge.TileReserve | src/Program.cs:77-84 | the same after the main-tile branch, with one more share for the new holder |
| Merge.RegisterFileReserve | src/Program.cs:65-85 | one file keeps the reserve; a file with no regex match changes nothing; a loaded file's holder has one share per use (two as a fallback) and is undisposed |
| Merge.AddHolderReserve | src/Program.cs:67 | a new holder keeps the reserve and nothing refers to it yet |
| Merge.RegisterAllReserve | src/Program.cs:45-86 | after registration every holder has at least the shares owed to it and none is disposed |
| Merge.Entered | src/Program.cs:72-73 | TryGetValue/Add: the name is now in the registry and no holder changes |
| Merge.GetOrAdd | src/Program.cs:72-73 | returns the existing MapInfo, or a fresh one added under the name |
| Merge.IncreaseHolder | src/Program.cs:82 | `bmp.Increase()` on the holder shared by the registry |
| Merge.SetFallbackOf | src/Program.cs:75 | `info.Fallback = bmp` on the tracked map |
| Merge.SetCellOf | src/Program.cs:83 | `info[x, y] = bmp` on the tracked map |
| Merge.FallbackStored | src/Program.cs:72-75 | get-or-add, Increase and store of the fallback yield `AsFallback` |
| Merge.TileStored | src/Program.cs:80-83 | get-or-add, Increase and store of the tile yield `AsTile` |
| Merge.StoreFallback | src/Program.cs:69-76 | the objects track `FallbackPhase` of the registry |
| Merge.StoreTile | src/Program.cs:77-84 | the objects track `TilePhase` of the registry |
| Merge.RegisterOne | src/Program.cs:47-85 | the objects track `RegisterFile` of the registry |
| Merge.Register | src/Program.cs:44-86 | the objects track `RegisterAll` of the files |
| Merge.OwedStep | src/Program.cs:87 | merging one more map leaves the shares it owed unowed |
| Merge.LiveStart | src/Program.cs:87 | the reserve from registration makes every holder live before the first map |
| Merge.LiveSkip | src/Program.cs:89-90 | skipping an empty map keeps every holder live |
| Merge.NeedOfHeld | src/Program.cs:104 | a stored tile is owed at least one share |
| Merge.LiveMerge | src/Program.cs:98-113 | every tile a map draws is undisposed, and releasing that map keeps the remaining holders live |
| Merge.KeptAtLeast | src/Program.cs:87 | shares kept by the list of maps are at least those kept by any one of them |
| Merge.FallbackKept | src/Program.cs:74-75 | a holder used as a fallback keeps a share nobody releases, so it is never disposed |
| Merge.MergedAllSnoc | src/Program.cs:87-121 | the outputs for one more map append that map's output, or nothing when it is empty |
| Merge.Release | src/Program.cs:113 | `info.Dispose()` releases the map's shares |
| Merge.Render | src/Program.cs:93-112 | a fresh bitmap of (columns · size) × (rows · size) holding `Composite` |
| Merge.Save | src/Program.cs:116-117 | the file's bytes are `PngFile` of the pixels, with 16777216 as the IDAT size; the bitmap is disposed after |
| Merge.SaveMerged | src/Program.cs:93-117 | one map's output is `Merged` of its grid and tiles, and the holders are released |
| Merge.MergeOne | src/Program.cs:88-120 | an empty map yields nothing; otherwise its merged output; holders stay live for the maps after it |
| Merge.Process | src/Program.cs:41-122 | the outputs are exactly `MergedAll` over the registered maps in order, and no fallback holder is disposed |

## Left out

- Console prompts, reading the mode and directories, and printing progress are left out. The mode arrives as a `MapDefinition`, and the output file name (`Merged_{name}_{w}x{h}@{W}x{H}.png`) is not modelled.
- Directory enumeration with the file filter, the regex matches and `int.TryParse` are left out. Each file arrives as a `FileEntry`: its image, and the map name and position a main-tile regex matched, or the map name a fallback regex matched.
- Decoding PNG files into `Bitmap` is left out. A tile is an opaque `Image` with a width and a height.
- GDI+ resampling, zlib compression and CRC-32 are function parameters. Their algorithms are not in the program.
- `Dictionary` enumeration order is modelled as insertion order of map names. The order of keys inside a `MapInfo` is any order (`LTRB` and `Dispose` are proved for every order).
- The contents of the new buffer from `GC.AllocateUninitializedArray` are left unspecified; `Compose` proves that every pixel is overwritten.
- The `Stream` members of `IDATStream` that throw (`Read`, `Seek`, `Length`, `Position`, `SetLength`) are left out. So are the growth policy of `MemoryStream`, `GC.SuppressFinalize`, `GCHandle` pinning, and the `Bitmap` over the pinned array. Releasing the native bitmap is a counter.
- `CompressionLevel` is folded into the `Deflate` parameter.
- RefCount.Increased, RefCount.DisposableHolder.Increase, RefCount.Arena.Increase, RefCount.DecreaseUndoesIncrease, RefCount.RunBounds: `_count` is unbounded. The int32 wrap of `_count++` after 2^31 - 1 shares is not modelled; in the source it turns a live holder dead without disposing its value. The program gives a holder at most three shares.
- DirectBitmaps.DirectBitmap.SavePNG: `Deflate` sees only the concatenated scanline bytes, so the model assumes the compressor's output blocks do not depend on how those bytes were split into `WriteByte(0)` and `Write(line)` calls. `ChunkingKeepsBytes`, `ChunkingBound` and `ChunkingSingle` hold for any block sequence.
- Merge.Process: requires (through `AllFit`) that (columns · size) · (rows · size) fits in an int. The 32-bit overflow of `width * size` and of `Width * Height` is not modelled.
- DirectBitmaps.DirectBitmap.Fill: requires the rectangle to lie inside the bitmap. The source would write out of place, or throw.
- DirectBitmaps.DirectBitmap.CopyTo: requires the destination rectangle to fit and rect.Width ≤ Width. Otherwise the source would write across the destination's rows, or read across its own rows, or throw.
- DirectBitmaps.DirectBitmap.CopyToPoint: requires 0 ≤ lt.x ≤ dst.Width and lt.y + Height ≤ dst.Height. In the source, a negative lt.X writes into the previous row (or throws when lt.Y is 0), and lt.X > dst.Width makes the clipped width negative, so the span throws. The clipped height is discarded by the rectangle overload, so a paste past the bottom edge throws after the rows that fit.
- Idat.IdatStream.constructor: requires 0 ≤ approxIDATSize. In the source, `new MemoryStream` with a negative capacity throws.
- DirectBitmaps.DirectBitmap.CopyFrom: requires a non-empty rectangle inside the bitmap.
- Compositing.Compose: uses unbounded x and y, so the column loop stops at rb.X even when rb.X is int.MaxValue (see Findings).
- Merge.Transform: models `-x` with int32 wrap-around. Injectivity and the involution are proved for int32 positions only.

## Findings

| source | as written | input that shows it | evidently intended | confidence | as-written member | corrected member |
|---|---|---|---|---|---|---|
| src/Program.cs:101 | `for (int x = lt.X; x <= rb.X; x++)` uses an int counter: when rb.X is int.MaxValue, `x++` wraps to int.MinValue, and the guard never fails | mode 2 with the single file `BigWorldTerrain_2147483647_0.bin_A.png`: lt.X = rb.X = 2147483647, so after the first column x wraps to int.MinValue; that cell is empty and there is no fallback, so `Fill(0, (size, 0, size, size))` aims outside the 1 · size wide bitmap and `Array.Fill` throws | the column loop stops after column rb.X | not executed | Compositing.ColumnLoopAtMaxValue | Compositing.Compose |
