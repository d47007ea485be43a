# GIMP Python-Fu sample plugins: discolour and split channels, in Dafny

This project models five of the eight image plugins of the PythonFuSamples repository.

- `discolour_layer_v1` to `discolour_layer_v4` convert the selected layer to gray. Each of the three colour channels is replaced by the truncated mean `(p0 + p1 + p2) / 3`. Extra channels, such as alpha, are copied unchanged.
- `split_channels` creates three new layers holding `(p0, 0, 0)`, `(0, p1, 0)` and `(0, 0, p2)`, plus the extra channels.

The four discolour variants differ only in how they walk the raster:

- v1 goes pixel by pixel on the live layer and skips pixels with fewer than three channels.
- v2 goes pixel by pixel through two pixel regions; the destination region writes straight into the new layer.
- v3 copies the region into one flat byte array, where pixel (x, y) is at `(x * H + y) * bpp`, converts it chunk by chunk, and writes it back.
- v4 goes tile by tile over the host's tile grid and writes the new layer's tiles directly.

v2, v3 and v4 replace the original:

1. They create a cleared layer named `<name> temp` with the same geometry and attributes, and insert it at the original's position.
2. After the conversion they remove the original and rename the new layer.

`split_channels` inserts Red, Green and Blue at the original's position, using 64 by 64 tiles.

Every plugin follows the same host protocol:

1. progress is started and an undo group is opened;
2. one progress update per column (v1 to v3) or per tile (v4, split);
3. if the `try` block (the conversion, and in v2 to v4 the replacement) raised an exception, it is caught and one message is shown;
4. the undo group is closed and progress is ended.

The calls that v2, v3, v4 and `split_channels` make between opening the undo group and entering the `try` block lie outside it.

The model has the following parts:

- **Pixels** (`pixels.dfy`): the per-pixel transforms and their laws. The gray value is the floored mean, gray pixels are its fixed points, and converting twice converts once. The three split outputs recombine to the input.
- **Raster** (`raster.dfy`): column-major grids, the transforms lifted to whole grids, and v3's flat byte buffer. Writing the flattened grid back gives the grid, and flattening the written-back buffer gives the buffer.
- **Tiles** (`tiles.dfy`): tile counts (floor division plus one for a partial tile, proved to be the ceiling) and effective extents. Every pixel lies in exactly one tile.
- **TileWalk** (`tilewalk.dfy`): the invariant of a column-major walk over the tiles. After tile (i, j), exactly the tiles before it hold transformed pixels, and after the last tile the output is the transform of the whole source.
- **Stack** (`stack.dfy`): layer-stack insertion and removal.
- **Host** (`host.dfy`): the `Layer` and `Image` classes, the host calls, and the event log with its bracketing guarantees.
- **Discolour** (`discolour.dfy`) and **Split** (`split.dfy`): the plugins as imperative methods with loops, proved against `MapGrid` of the pixel transform, the layer-stack outcome and the event log.

The progress fraction `a / b` is recorded as the pair `ProgressUpdate(a, b)`.

## Model

| member | source | states |
|---|---|---|
| Pixels.Mean3 | test-discolour-layer-v2.py:88 | the gray value g is the truncated mean: 3g <= p0 + p1 + p2 < 3g + 3 |
| Pixels.Gray | test-discolour-layer-v2.py:88-94 | the gray pixel has the input's length and the input's extra channels, in order |
| Pixels.SplitRed | test-split-channels.py:106 | the red output has the input's length and extra channels |
| Pixels.SplitGreen | test-split-channels.py:107 | the green output has the input's length and extra channels |
| Pixels.SplitBlue | test-split-channels.py:108 | the blue output has the input's length and extra channels |
| Pixels.GrayIsFlooredMean | test-discolour-layer-v1.py:72-76 | the three colour channels of the output are equal to the floored mean, which lies between the smallest and largest input channel, so a byte pixel stays a byte pixel (`chr(gray)` cannot fail) |
| Pixels.GrayFixedPoint | test-discolour-layer-v1.py:45 | converting leaves a pixel unchanged if and only if its three colour channels are already equal |
| Pixels.GrayIdempotent | test-discolour-layer-v1.py:45 | converting a converted pixel changes nothing |
| Pixels.SplitRoundTrip | test-split-channels.py:104-115 | each output keeps exactly its own colour channel and zeroes the other two; the three outputs sum back to the input pixel, extra channels included; bytes stay bytes |
| Pixels.AppendExtras | test-discolour-layer-v2.py:91-94 | the loop appending `pixel[k+3]` yields the head followed by all extra channels in order, or the head alone when there are none |
| Raster.ApplyKeepsBytes | test-split-channels.py:104-115 | every transform maps byte pixels to byte pixels |
| Raster.MapGrid | test-discolour-layer-v1.py:62-77 | the converted grid has the source's shape, and each of its pixels is the transform of the source pixel at the same place |
| Raster.Blank | test-discolour-layer-v2.py:71-72 | a cleared layer has the given shape and every byte is 0 |
| Raster.Flatten | test-discolour-layer-v3.py:82 | the flat array has W * H * bpp bytes |
| Raster.Unflatten | test-discolour-layer-v3.py:105 | writing a buffer back gives W columns of H pixels |
| Raster.SlotBijection | test-discolour-layer-v3.py:92 | pixel (x, y) maps to slot x * H + y below W * H, and the slot maps back to (x, y) |
| Raster.SlotSurjective | test-discolour-layer-v3.py:92 | every slot below W * H is the slot of some pixel |
| Raster.FlatAt | test-discolour-layer-v3.py:82-92 | byte k of the chunk at `(x * H + y) * bpp` is channel k of pixel (x, y), and the chunk lies inside the array |
| Raster.GrayChunk | test-discolour-layer-v3.py:92-102 | in the flat gray buffer, bytes 0 to 2 of each chunk are the floored mean of the source chunk's bytes 0 to 2, and the other bytes are copied |
| Raster.UnflattenAt | test-discolour-layer-v3.py:105 | pixel (x, y) written back is the chunk at its slot |
| Raster.UnflattenFlatten | test-discolour-layer-v3.py:82-105 | writing back the flattened region gives the region |
| Raster.FlattenUnflatten | test-discolour-layer-v3.py:82-105 | flattening a written-back byte buffer gives the buffer |
| Raster.UnflattenShaped | test-discolour-layer-v3.py:105 | a byte buffer writes back a well-shaped grid of byte pixels |
| Stack.InsertAt | test-discolour-layer-v2.py:68 | `add_layer(l, pos)`: l at pos, entries above pos kept, the ones below shifted down by one |
| Stack.RemoveAt | test-discolour-layer-v2.py:105 | removing entry i keeps the entries above it and shifts the ones below it up |
| Stack.InsertKeepsDistinct | test-discolour-layer-v2.py:68 | adding a layer not yet in the stack keeps the stack free of duplicates |
| Stack.InsertThenRemove | test-discolour-layer-v2.py:68-105 | inserting the new layer at pos and removing the original, which moved to pos + 1, is replacing the original in place |
| Stack.ReplaceKeepsNamesDistinct | test-discolour-layer-v2.py:107-108 | with an unused temporary name, names stay distinct at every step of insert, remove and rename, and the rename restores the original list of names |
| Stack.InsertThreeAt | test-split-channels.py:67-69 | three add_layer calls at the same pos leave Blue, Green, Red stacked above the original |
| Host.ProgressLabel | test-discolour-layer-v2.py:55 | the progress title is the layer name between the fixed prefix `Discolouring ` and the suffix `...`, which the name can be read back from |
| Host.OperationLog | test-discolour-layer-v2.py:54-116 | the events of one run: progress and undo started, the first k progress steps (all of them without an exception), the message of the caught exception if any, undo closed and progress ended; `RunEvents` builds this log for a given k, and RunEventsExtend shows that it has this shape |
| Host.Ticks | test-discolour-layer-v2.py:81-83 | an uninterrupted run of n steps reports 0/n, 1/n, ..., (n-1)/n |
| Host.TicksGrow | test-discolour-layer-v2.py:83 | one more step appends its own update |
| Host.TicksJoin | test-discolour-layer-v4.py:85-88 | consecutive runs of updates join into one run |
| Host.RunEventsExtend | test-discolour-layer-v2.py:109-116 | a run of k steps followed by the optional message, undo end and progress end is a well-formed plugin log |
| Host.LogIsBracketed | test-discolour-layer-v1.py:54-89 | a plugin log starts with progress start and undo start and ends with undo end and progress end, whether or not an exception was raised; progress numerators strictly increase and stay below the total; a message appears, third from the end, exactly when an exception was caught |
| Host.Layer.constructor | test-discolour-layer-v2.py:67-72 | a new layer has the given name, geometry and attributes, and all its bytes are 0 |
| Host.Layer.SetPixel | test-discolour-layer-v1.py:77 | only pixel (x, y) changes |
| Host.Image.Emit | test-discolour-layer-v1.py:64 | the host call is appended to the log |
| Host.Image.AddLayer | test-discolour-layer-v2.py:68 | the stack becomes `InsertAt(stack, pos, l)` and keeps no duplicates |
| Host.Image.RemoveLayer | test-discolour-layer-v2.py:105 | fails exactly when the layer is not in the image, leaving the stack unchanged; otherwise removes the entry that holds it |
| Host.NamesOf | test-discolour-layer-v2.py:107-108 | the names of a stack's layers, one per entry, which the host keeps distinct |
| Host.Finish | test-discolour-layer-v2.py:109-116 | closing: the message of the caught exception if any, then undo end, then progress end |
| Host.LayerPosition | test-discolour-layer-v2.py:60-64 | the index of the last entry equal to the layer, or 0 when the layer is not in the stack |
| Tiles.TileCount | test-discolour-layer-v4.py:76-81 | the plugins' tile count, `int(n / t)` plus one when a partial tile is left; TileCountIsCeiling proves it is the ceiling of n / t |
| Tiles.TileCountIsCeiling | test-discolour-layer-v4.py:76-81 | the count `n / t` plus one for a partial tile is the ceiling of n / t: the tiles cover n, the last one starts before n, and there are no tiles only when n is 0 |
| Tiles.TileStartsInside | test-discolour-layer-v4.py:91 | every counted tile starts inside the raster |
| Tiles.Extent | test-discolour-layer-v4.py:95-96 | a tile's effective extent is positive, at most the nominal size, and ends inside the raster |
| Tiles.TileEnd | test-discolour-layer-v4.py:95-96 | each tile ends where the next begins or at the edge, and the last tile ends exactly at the edge |
| Tiles.PixelInTile | test-discolour-layer-v4.py:85-96 | every pixel lies in the extent of tile `x / t`, which is among the counted tiles |
| Tiles.TileIsUnique | test-discolour-layer-v4.py:85-96 | a pixel in the extent of tile i is inside the raster and its tile is i |
| TileWalk.PartStart | test-discolour-layer-v4.py:95-96 | before a tile's pixel loops nothing of it is written |
| TileWalk.PartStep | test-discolour-layer-v4.py:97-108 | writing one converted pixel advances the loop over one column of the tile |
| TileWalk.PartNextColumn | test-discolour-layer-v4.py:95-96 | a finished column of the tile is the start of the next |
| TileWalk.PartDone | test-discolour-layer-v4.py:95-108 | after all columns the tile's extent holds the converted pixels and nothing outside it changed |
| TileWalk.InTileIff | test-discolour-layer-v4.py:85-96 | a pixel is in tile (i, j)'s extent if and only if (i, j) is its tile |
| TileWalk.WalkStart | test-discolour-layer-v4.py:69-71 | before the first tile the cleared layer holds no converted pixel |
| TileWalk.WalkStep | test-discolour-layer-v4.py:85-108 | visiting tile (i, j) advances the walk to (i, j + 1); no pixel is written twice or skipped |
| TileWalk.WalkNextColumn | test-discolour-layer-v4.py:85-86 | after the last tile of column i the walk continues at the top of column i + 1 |
| TileWalk.WalkDone | test-discolour-layer-v4.py:85-108 | after every column of tiles the output is the transform of the whole source layer |
| Discolour.GrayColumnInPlace | test-discolour-layer-v1.py:66-77 | one column of v1: pixels with at least three channels become gray, the others and the other columns are unchanged |
| Discolour.DiscolourV1 | test-discolour-layer-v1.py:44-89 | the layer becomes its gray grid when it has at least three channels and is unchanged otherwise; the stack and name are untouched; the log is a complete run of W progress steps, with no message |
| Discolour.Prepare | test-discolour-layer-v2.py:54-73 | progress and undo started; a fresh cleared `<name> temp` layer with the original's geometry and attributes is inserted at the original's position |
| Discolour.Commit | test-discolour-layer-v2.py:104-108 | when the original is in the stack, the new layer takes its place and its name; otherwise NotInImage is raised and the stack keeps both |
| Discolour.ReplacedNames | test-discolour-layer-v2.py:104-108 | in the state v2, v3 and v4 leave: on success the stack's names are those of the old stack (the new layer carries the original's name in its place); otherwise `<name> temp` is inserted at pos; distinct names with an unused temporary name stay distinct |
| Discolour.RegionColumn | test-discolour-layer-v2.py:85-97 | one column of v2: raises for fewer than three channels, otherwise the column's written pixels are gray and earlier columns are kept |
| Discolour.RegionPass | test-discolour-layer-v2.py:76-97 | the pixels written through the destination region form the gray grid when bpp >= 3; otherwise it raises after the first progress update |
| Discolour.DiscolourV2 | test-discolour-layer-v2.py:45-116 | the fault is IndexError when bpp < 3, else NotInImage when the layer is not in the stack, else none; on success the new layer holds the gray grid and replaces the original under its name; on failure the blank or converted `<name> temp` layer stays above the original; the log is the run's events with exactly one progress update before an IndexError and all W before NotInImage or success |
| Discolour.ConvertChunk | test-discolour-layer-v3.py:92-102 | one chunk of v3: bytes 0 to 2 become the floored mean, the extra bytes are copied, and nothing outside the chunk changes |
| Discolour.PixelChunk | test-discolour-layer-v3.py:92-102 | the chunk of pixel (x, y) in the flat gray buffer is the v3 conversion of the source chunk |
| Discolour.AllChunks | test-discolour-layer-v3.py:86-102 | every chunk of the flat gray buffer is the v3 conversion of its source chunk |
| Discolour.ColumnBounds | test-discolour-layer-v3.py:92 | column x's chunks end where column x + 1's begin, no later than W * H * bpp |
| Discolour.ChunkStep | test-discolour-layer-v3.py:90-102 | converting the chunk at pos extends the converted prefix of the array by one chunk and keeps the rest zero |
| Discolour.ChunkPass | test-discolour-layer-v3.py:92-102 | reading `srcArray[pos+2]` raises exactly when it is past the end; otherwise the chunk is converted |
| Discolour.ArrayColumn | test-discolour-layer-v3.py:90-102 | one column of v3: raises only when bpp < 3; for bpp >= 3 the converted prefix reaches the end of the column |
| Discolour.ArrayLoop | test-discolour-layer-v3.py:86-102 | the loops raise if and only if bpp < 3, in the first column whose last pixel reads past the end of the array; otherwise the array equals the flat gray buffer after W progress steps |
| Discolour.RaisingColumn | test-discolour-layer-v3.py:86-93 | with one or two bytes per pixel the raising column is the last one, except for a one-row, one-byte layer of at least two columns, where it is the next-to-last: the plugin makes W, or W - 1, progress updates before the raise |
| Discolour.ArrayPass | test-discolour-layer-v3.py:78-102 | the destination array is the flattened gray grid when bpp >= 3, and the pass raises otherwise; the number of progress updates is W, or W - 1 for a one-row, one-byte layer of at least two columns |
| Discolour.DiscolourV3 | test-discolour-layer-v3.py:45-124 | the same pixels, stack and fault as v2; the gray grid reaches the new layer through the flat array and back; the log has W progress updates, or W - 1 before the IndexError of a one-row, one-byte layer of at least two columns |
| Discolour.GrayAt | test-discolour-layer-v4.py:97-108 | one pixel of v4: raises for fewer than three channels, otherwise only that pixel of the new layer becomes the gray of the source pixel |
| Discolour.GrayTileColumn | test-discolour-layer-v4.py:96-108 | one column of a tile is converted, advancing the tile's partial write |
| Discolour.GrayTile | test-discolour-layer-v4.py:95-108 | a tile's effective extent in the new layer holds the gray pixels and nothing else changes, unless it raises (bpp < 3) with nothing written |
| Discolour.VisitTile | test-discolour-layer-v4.py:86-108 | progress `(i * tm + j) / (tn * tm)`, then tile (i, j); the walk advances |
| Discolour.TileColumn | test-discolour-layer-v4.py:86-108 | one column of tiles: tm consecutive progress updates; the walk reaches column i + 1 |
| Discolour.TileColumns | test-discolour-layer-v4.py:85-108 | the tile loops walk every tile with tn * tm updates, or raise after exactly one update when bpp < 3 |
| Discolour.TilePass | test-discolour-layer-v4.py:74-108 | with the plugin's tile counts, the new layer becomes the gray grid after tn * tm updates, or the pass raises after exactly one update when bpp < 3 |
| Discolour.DiscolourV4 | test-discolour-layer-v4.py:44-127 | the same pixels, stack and fault as v2; tn * tm is at least 1 and the log holds exactly one progress update before an IndexError and all tn * tm before NotInImage or success |
| Split.SplitPixel | test-split-channels.py:104-115 | the three output pixels are the red, green and blue split of the pixel |
| Split.SplitAt | test-split-channels.py:104-120 | raises for fewer than three channels; otherwise only pixel (x, y) of each output layer changes, to its split pixel |
| Split.SplitTileColumn | test-split-channels.py:103-120 | one column of a tile is split into the three outputs |
| Split.SplitTile | test-split-channels.py:102-120 | a tile's extent in each output holds its channel of the source and nothing else changes, or it raises with nothing written |
| Split.SplitStart | test-split-channels.py:71-77 | the three cleared outputs are at the start of the walk |
| Split.SplitNextColumn | test-split-channels.py:90-91 | the three walks move on to the next column of tiles together |
| Split.SplitDone | test-split-channels.py:89-120 | after all tiles each output is its channel of the whole source |
| Split.SplitVisit | test-split-channels.py:91-120 | one progress update, then tile (i, j) of all three outputs |
| Split.SplitColumn | test-split-channels.py:91-120 | one column of tiles: tm consecutive updates, and the walks reach column i + 1 |
| Split.SplitColumns | test-split-channels.py:90-120 | the tile loops walk every tile with tn * tm updates, or raise after exactly one update when bpp < 3 |
| Split.SplitPass | test-split-channels.py:80-120 | 64-pixel tile counts; each output becomes its channel of the source after tn * tm updates, or the pass raises after exactly one update with the outputs still cleared |
| Split.InsertChannels | test-split-channels.py:67-69 | after the three add_layer calls the stack is the old one with Blue, Green, Red inserted at pos |
| Split.AddChannelLayers | test-split-channels.py:51-77 | progress and undo started; fresh cleared Red, Green and Blue layers with the original's geometry, attributes and suffixed names inserted above it |
| Split.SplitChannels | test-split-channels.py:44-140 | the original is unchanged; the three outputs hold its channels when bpp >= 3 and are cleared otherwise; the fault is IndexError for bpp < 3, else whatever the final tile calls raise; the log holds exactly one progress update before an IndexError and all tn * tm otherwise, including before a raise of the final tile calls |

## Left out

- Rendering, undo history and the displays that the host redraws are not modelled. This covers `update`, `flush` and what an undo group does inside the host, including the undo problem v1's docstring mentions.
- `merge_shadow` is not modelled. The destination regions of v2 and v3 are opened without a shadow, so their writes go straight into the new layer, and v4 writes the new layer's tiles directly.
- Discolour.RegionPass: v2 writes each pixel into the new layer as it goes, while the model collects the pixels in a local grid and assigns it to the new layer after the loops. This gives the same layer because nothing reads the new layer in between, and the only raise (fewer than three channels) comes at the first pixel, before any write. v3 likewise writes its whole array back in one step after the loops.
- A cleared layer is taken to be all zero. `gimp_edit_clear` clears to transparency on a layer with alpha, but fills a layer without alpha with the background colour, and clears only the selection when one is active. This affects only the contracts that promise `Blank` pixels: the new layer of v2, v3 and v4 when bpp < 3, and the three outputs of `split_channels` when bpp < 3.
- Floating point: the progress fraction `float(a) / float(b)` is kept as the pair (a, b). The message text `"Unexpected error: " + str(err)` is reduced to the kind of exception.
- The host's tile grid is not modelled. v4's tile width and height are parameters of `DiscolourV4`, and the effective extent of a tile is computed by `Tiles.Extent`, as the host defines `ewidth` and `eheight`. `split_channels` uses 64 both for its counts and as the host's tile size.
- Split.SplitChannels: after the loops, `split_channels` calls `flush`, `merge_shadow` and `update` on the last tile handles rather than on the layers. Whether the host accepts those calls is outside this model, so the outcome is the parameter `tileCallsRaise`.
- The host is assumed never to hand a plugin an empty layer or a pixel without channels (width, height and bpp are at least 1). v3 reads pixel (0, 0) to learn the pixel size.
- Layer groups are not modelled: the stack is flat. The plugins look the layer up in `img.layers`, the top-level list of the image, so a layer inside a group is not found there; the model's NotInImage outcome describes a layer missing from a flat stack, and what `remove_layer` does with a grouped layer is outside the model.
- Faults raised by the setup calls before the `try` block are not modelled. These calls create the new layers, add them to the image, clear them and flush them. In the source, such a fault would not be caught: no message would be shown, and the undo group and progress would be left open. The bracketing that `Host.LogIsBracketed` proves holds only for runs that reach the `try` block.
- Faults raised by the host's region, tile, layer and message calls are not modelled, apart from `remove_layer` of a layer that is not in the image, which raises NotInImage.
- The byte layout of a whole-region slice in v3 is taken to be the one the loop indexes, `(x * H + y) * bpp`. The conversion works chunk by chunk on the same layout for reading and writing, so the result does not depend on it.
- The other plugins of the repository (batch invert, open to layer, save to files) are not part of this model.
- Registration with the menu (`register`, `main`) is not modelled.
