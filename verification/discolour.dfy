/** The four discolour plugins. Each converts the selected layer to gray
    (the `Gray` transform on every pixel) and differs from the others only in
    how it walks the raster: per-pixel on the live layer (v1), per-pixel
    through pixel regions (v2), through one flat byte array (v3), or tile by
    tile on the host's tile grid (v4). v2 to v4 write into a new layer and
    replace the original with it. */
module Discolour {
  import opened Pixels
  import opened Raster
  import opened Tiles
  import opened Stack
  import opened Host
  import opened Arith
  import opened TileWalk

  /** The pixels of the selected layer after a conversion to gray. */
  ghost function GrayOf(src: Grid, l: Layer): Grid
    reads l
    requires Shaped(src, l.width, l.height, l.bpp) && l.bpp >= 3
  {
    MapGrid(ToGray, src, l.width, l.height, l.bpp)
  }

  /** Column x of discolour_layer_v1's inner loop: every pixel of the
      column with at least three channels is replaced by its gray pixel, in
      place; the other columns are left as they are. */
  method GrayColumnInPlace(layer: Layer, x: nat, ghost src: Grid)
    requires layer.Valid() && x < layer.width && Shaped(src, layer.width, layer.height, layer.bpp)
    requires forall i, j :: 0 <= i < layer.width && 0 <= j < layer.height ==>
      layer.pixels[i][j] == if i < x && layer.bpp >= 3 then Gray(src[i][j]) else src[i][j]
    modifies layer`pixels
    ensures layer.Valid()
    ensures forall i, j :: 0 <= i < layer.width && 0 <= j < layer.height ==>
      layer.pixels[i][j] == if i <= x && layer.bpp >= 3 then Gray(src[i][j]) else src[i][j]
  {
    var y := 0;
    while y < layer.height
      invariant 0 <= y <= layer.height && layer.Valid()
      invariant forall i, j :: 0 <= i < layer.width && 0 <= j < layer.height ==>
        layer.pixels[i][j] ==
          if (i < x || (i == x && j < y)) && layer.bpp >= 3 then Gray(src[i][j]) else src[i][j]
    {
      var pixel := layer.pixels[x][y];
      if |pixel| >= 3 {
        var sum := pixel[0] + pixel[1] + pixel[2];
        var gray := sum / 3;
        var newColor := [gray, gray, gray] + pixel[3..];
        assert newColor == Gray(pixel);
        GrayIsFlooredMean(pixel);
        layer.SetPixel(x, y, newColor);
      }
      y := y + 1;
    }
  }

  /** discolour_layer_v1: converts the selected layer in place, pixel by
      pixel through get_pixel / set_pixel, leaving pixels with fewer than
      three channels alone. The layer stack is not touched. */
  method DiscolourV1(img: Image, layer: Layer)
    requires layer.Valid()
    modifies img`log, layer`pixels
    ensures layer.Valid()
    ensures layer.bpp >= 3 ==> layer.pixels == GrayOf(old(layer.pixels), layer)
    ensures layer.bpp < 3 ==> layer.pixels == old(layer.pixels)
    ensures img.layers == old(img.layers) && layer.name == old(layer.name)
    ensures Extends(old(img.log), img.log, ProgressLabel(layer.name), layer.width, None)
  {
    ghost var log0, src := img.log, layer.pixels;
    var title := ProgressLabel(layer.name);
    img.Emit(ProgressInit(title));
    img.Emit(UndoGroupStart);
    var x := 0;
    while x < layer.width
      invariant 0 <= x <= layer.width && layer.Valid()
      invariant img.log == log0 + [ProgressInit(title), UndoGroupStart] + Ticks(layer.width)[..x]
      invariant forall i, j :: 0 <= i < layer.width && 0 <= j < layer.height ==>
        layer.pixels[i][j] == if i < x && layer.bpp >= 3 then Gray(src[i][j]) else src[i][j]
    {
      img.Emit(ProgressUpdate(x, layer.width));
      TicksGrow(layer.width, 0, x);
      GrayColumnInPlace(layer, x, src);
      x := x + 1;
    }
    // layer.update(...) only redraws the layer.
    img.Emit(UndoGroupEnd);
    img.Emit(ProgressEnd);
    assert img.log == log0 + RunEvents(title, layer.width, layer.width, None);
    RunEventsExtend(log0, title, layer.width, layer.width, None);
    if layer.bpp >= 3 {
      SameGrid(layer.pixels, GrayOf(src, layer), layer.width, layer.height, layer.bpp);
    } else {
      SameGrid(layer.pixels, src, layer.width, layer.height, layer.bpp);
    }
  }

  /** The layer-stack outcome shared by v2, v3 and v4. `pos` is the looked-up
      position of `layer` and `temp` the layer created for the result. On
      success the stack is the old one with `temp` in the original's place,
      under the original's name; otherwise `temp` stays inserted at `pos`
      under its temporary name and the original stays. */
  ghost predicate Replaced(img: Image, before: seq<Layer>, layer: Layer, name: string,
                           temp: Layer, pos: nat, fault: Option<Fault>)
    reads img, temp
  {
    (layer in before ==> pos < |before| && before[pos] == layer) &&
    (layer !in before ==> pos == 0) &&
    temp !in before &&
    temp.width == layer.width && temp.height == layer.height && temp.bpp == layer.bpp &&
    temp.kind == layer.kind && temp.opacity == layer.opacity && temp.mode == layer.mode &&
    (fault.None? ==> pos < |before| && img.layers == before[pos := temp] && temp.name == name) &&
    (fault.Some? ==> pos <= |before| && img.layers == InsertAt(before, pos, temp) && temp.name == name + " temp")
  }

  /** The names of the stack after v2, v3 or v4, read in the same state:
      on success the new layer carries the original's name in the
      original's place, so the names are those of the old stack; otherwise
      the temporary name sits at `pos`. Either way, distinct names with an
      unused temporary name stay distinct, as the host requires. */
  lemma ReplacedNames(img: Image, before: seq<Layer>, layer: Layer, name: string,
                      temp: Layer, pos: nat, fault: Option<Fault>)
    requires Replaced(img, before, layer, name, temp, pos, fault)
    requires layer in before ==> layer.name == name
    requires fault.None? ==> layer in before
    ensures fault.None? ==> NamesOf(img.layers) == NamesOf(before)
    ensures fault.Some? ==> NamesOf(img.layers) == InsertAt(NamesOf(before), pos, name + " temp")
    ensures Distinct(NamesOf(before)) && name + " temp" !in NamesOf(before) ==> Distinct(NamesOf(img.layers))
  {
    var names := NamesOf(before);
    if fault.None? {
      assert NamesOf(img.layers) == names[pos := name];
      assert names[pos := name] == names;
    } else {
      assert NamesOf(img.layers) == InsertAt(names, pos, name + " temp");
      if Distinct(names) && name + " temp" !in names {
        InsertKeepsDistinct(names, pos, name + " temp");
      }
    }
  }

  /** The opening of v2, v3 and v4: progress started, undo group opened,
      the selected layer's position looked up, and a new cleared layer with
      the same geometry and attributes, named `<name> temp`, inserted there. */
  method Prepare(img: Image, layer: Layer) returns (pos: nat, temp: Layer)
    requires img.Valid() && layer.Valid()
    modifies img`log, img`layers
    ensures img.Valid() && fresh(temp) && temp.Valid() && temp !in old(img.layers)
    ensures temp.pixels == Blank(layer.width, layer.height, layer.bpp) && temp.name == layer.name + " temp"
    ensures temp.width == layer.width && temp.height == layer.height && temp.bpp == layer.bpp
    ensures temp.kind == layer.kind && temp.opacity == layer.opacity && temp.mode == layer.mode
    ensures layer in old(img.layers) ==> pos < |old(img.layers)| && old(img.layers)[pos] == layer
    ensures layer !in old(img.layers) ==> pos == 0
    ensures img.layers == InsertAt(old(img.layers), pos, temp)
    ensures img.log == old(img.log) + [ProgressInit(ProgressLabel(layer.name)), UndoGroupStart]
  {
    img.Emit(ProgressInit(ProgressLabel(layer.name)));
    img.Emit(UndoGroupStart);
    pos := LayerPosition(img, layer);
    temp := new Layer(layer.name + " temp", layer.width, layer.height, layer.kind, layer.bpp, layer.opacity, layer.mode);
    InsertKeepsDistinct(img.layers, pos, temp);
    img.AddLayer(temp, pos);
  }

  /** The replace step after a successful conversion: remove the original
      (raising when it is not in the image), then give the new layer the
      original's name. */
  method Commit(img: Image, layer: Layer, temp: Layer, name: string, ghost before: seq<Layer>, ghost pos: nat)
    returns (fault: Option<Fault>)
    requires img.Valid() && temp != layer && temp !in before
    requires layer in before ==> pos < |before| && before[pos] == layer
    requires layer !in before ==> pos == 0
    requires img.layers == InsertAt(before, pos, temp) && temp.name == name + " temp"
    modifies img`layers, temp`name
    ensures img.Valid()
    ensures fault.None? <==> layer in before
    ensures fault.Some? ==> fault == Some(NotInImage)
    ensures fault.None? ==> img.layers == before[pos := temp] && temp.name == name
    ensures fault.Some? ==> img.layers == InsertAt(before, pos, temp) && temp.name == name + " temp"
  {
    var found, k := img.RemoveLayer(layer);
    if found {
      assert InsertAt(before, pos, temp)[pos + 1] == layer;
      assert k == pos + 1;
      InsertThenRemove(before, pos, temp);
      temp.name := name;
      fault := None;
    } else {
      assert layer !in before;
      fault := Some(NotInImage);
    }
  }

  /** Column x of discolour_layer_v2's inner loop: the gray pixels of
      the column are written into `written`, the grid that collects what the
      destination region writes into the new layer. */
  method RegionColumn(layer: Layer, written: Grid, x: nat) returns (res: Grid, failed: bool)
    requires layer.Valid() && Shaped(written, layer.width, layer.height, layer.bpp) && x < layer.width
    requires layer.bpp < 3 ==> x == 0
    requires forall i, j :: 0 <= i < x && 0 <= j < layer.height ==> written[i][j] == Gray(layer.pixels[i][j])
    ensures failed <==> layer.bpp < 3
    ensures Shaped(res, layer.width, layer.height, layer.bpp)
    ensures !failed ==> forall i, j :: 0 <= i <= x && 0 <= j < layer.height ==> res[i][j] == Gray(layer.pixels[i][j])
  {
    res := written;
    failed := false;
    var y := 0;
    while y < layer.height && !failed
      invariant 0 <= y <= layer.height
      invariant failed ==> y == 0 && layer.bpp < 3
      invariant layer.bpp < 3 ==> y == 0
      invariant Shaped(res, layer.width, layer.height, layer.bpp)
      invariant forall i, j :: 0 <= i < layer.width && 0 <= j < layer.height && (i < x || (i == x && j < y)) ==>
        res[i][j] == Gray(layer.pixels[i][j])
      decreases layer.height - y, if failed then 0 else 1
    {
      var pixel := layer.pixels[x][y];
      if |pixel| < 3 {
        // pixel[1] or pixel[2] raises IndexError
        failed := true;
      } else {
        var gray := (pixel[0] + pixel[1] + pixel[2]) / 3;
        var p := AppendExtras([gray, gray, gray], pixel);
        assert p == Gray(pixel);
        GrayIsFlooredMean(pixel);
        res := res[x := res[x][y := p]];
        y := y + 1;
      }
    }
  }

  /** The pixel loops of discolour_layer_v2: for every column a progress
      update, then every pixel of the column read from the source region and
      its gray pixel written through the destination region, which is not a
      shadow region and so writes into the new layer itself. The writes are
      collected in a local grid that the caller assigns to the new layer. A
      pixel with fewer than three channels raises at the very first pixel,
      before anything is written. */
  method RegionPass(img: Image, layer: Layer, dst: Grid) returns (written: Grid, failed: bool)
    requires layer.Valid() && Shaped(dst, layer.width, layer.height, layer.bpp)
    modifies img`log
    ensures failed <==> layer.bpp < 3
    ensures !failed ==> written == GrayOf(layer.pixels, layer)
    ensures img.log == old(img.log) + Ticks(layer.width)[..if failed then 1 else layer.width]
  {
    ghost var log0 := img.log;
    written := dst;
    failed := false;
    var x := 0;
    while x < layer.width && !failed
      invariant 0 <= x <= layer.width
      invariant failed ==> x == 0 && layer.bpp < 3
      invariant layer.bpp < 3 ==> x == 0
      invariant !failed ==> img.log == log0 + Ticks(layer.width)[..x]
      invariant failed ==> img.log == log0 + Ticks(layer.width)[..1]
      invariant Shaped(written, layer.width, layer.height, layer.bpp)
      invariant forall i, j :: 0 <= i < x && 0 <= j < layer.height ==> written[i][j] == Gray(layer.pixels[i][j])
      decreases layer.width - x, if failed then 0 else 1
    {
      img.Emit(ProgressUpdate(x, layer.width));
      TicksGrow(layer.width, 0, x);
      written, failed := RegionColumn(layer, written, x);
      if !failed {
        x := x + 1;
      }
    }
    if !failed {
      SameGrid(written, GrayOf(layer.pixels, layer), layer.width, layer.height, layer.bpp);
    }
  }

  /** discolour_layer_v2: converts the selected layer into a new layer
      through two pixel regions, pixel by pixel, then replaces the original.
      The destination region writes straight into the new layer; the model
      assigns the collected pixels to it after the loops, which gives the
      same layer because nothing reads it in between and a raise can only
      come before the first write. */
  method DiscolourV2(img: Image, layer: Layer) returns (fault: Option<Fault>, pos: nat, temp: Layer)
    requires img.Valid() && layer.Valid()
    modifies img
    ensures img.Valid() && fresh(temp) && temp.Valid()
    ensures Replaced(img, old(img.layers), layer, layer.name, temp, pos, fault)
    ensures fault.None? <==> layer.bpp >= 3 && layer in old(img.layers)
    ensures layer.bpp < 3 ==> fault == Some(IndexOutOfRange) && temp.pixels == Blank(layer.width, layer.height, layer.bpp)
    ensures layer.bpp >= 3 ==> temp.pixels == GrayOf(layer.pixels, layer)
    ensures Extends(old(img.log), img.log, ProgressLabel(layer.name), layer.width, fault)
    ensures fault == if layer.bpp < 3 then Some(IndexOutOfRange)
                     else if layer !in old(img.layers) then Some(NotInImage) else None
    ensures img.log == old(img.log) +
      RunEvents(ProgressLabel(layer.name), layer.width, if layer.bpp < 3 then 1 else layer.width, fault)
  {
    ghost var log0 := img.log;
    ghost var before := img.layers;
    pos, temp := Prepare(img, layer);
    var layerName := layer.name;

    // try: srcRgn reads the layer, dstRgn writes into the new layer.
    var written, failed := RegionPass(img, layer, temp.pixels);
    if failed {
      fault := Some(IndexOutOfRange);
    } else {
      // The pixels written through dstRgn; flush and merge_shadow add nothing.
      temp.pixels := written;
      fault := Commit(img, layer, temp, layerName, before, pos);
    }
    Finish(img, fault);
    ghost var k := if failed then 1 else layer.width;
    assert img.log == log0 + RunEvents(ProgressLabel(layerName), layer.width, k, fault);
    RunEventsExtend(log0, ProgressLabel(layerName), layer.width, k, fault);
  }

  /** The body of discolour_layer_v3's pixel loop at byte offset `pos`: the
      floored mean of source bytes pos..pos+2 goes into destination bytes
      pos..pos+2, and for more than three bytes per pixel the rest of the
      chunk is copied from the source. No other byte changes. */
  method ConvertChunk(srcArray: array<nat>, dstArray: array<nat>, pos: nat, pixelSize: nat)
    requires srcArray != dstArray && srcArray.Length == dstArray.Length
    requires pos + 2 < srcArray.Length && pos + pixelSize <= srcArray.Length
    modifies dstArray
    ensures forall i :: 0 <= i < dstArray.Length && !(pos <= i < pos + 3) && !(pos + 3 <= i < pos + pixelSize) ==>
      dstArray[i] == old(dstArray[i])
    ensures forall i :: pos <= i < pos + 3 ==>
      dstArray[i] == (srcArray[pos] + srcArray[pos + 1] + srcArray[pos + 2]) / 3
    ensures forall i :: pos + 3 <= i < pos + pixelSize ==> dstArray[i] == srcArray[i]
  {
    var gray := (srcArray[pos] + srcArray[pos + 1] + srcArray[pos + 2]) / 3;
    dstArray[pos] := gray;
    dstArray[pos + 1] := gray;
    dstArray[pos + 2] := gray;
    if pixelSize > 3 {
      forall k | pos + 3 <= k < pos + pixelSize {
        dstArray[k] := srcArray[k];
      }
    }
  }

  /** Byte offset of the chunk of pixel (x, y): `(x * H + y) * pixelSize`. */
  function ChunkStart(x: nat, y: nat, h: nat, bpp: nat): nat {
    (x * h + y) * bpp
  }

  /** The chunk at `pos` of `dst` is the v3 conversion of the same chunk of
      `src`: three copies of the floored mean of its first three bytes, then
      its remaining bytes. */
  ghost predicate GrayChunkAt(src: seq<nat>, dst: seq<nat>, pos: nat, bpp: nat) {
    pos + bpp <= |src| && |dst| == |src| && pos + 3 <= |src| &&
    forall i :: pos <= i < pos + bpp ==>
      dst[i] == if i < pos + 3 then (src[pos] + src[pos + 1] + src[pos + 2]) / 3 else src[i]
  }

  /** The chunk of pixel (x, y) of the flattened gray grid is the v3
      conversion of the same chunk of the flattened source grid. */
  lemma PixelChunk(g: Grid, w: nat, h: nat, bpp: nat, x: nat, y: nat)
    requires Shaped(g, w, h, bpp) && h > 0 && bpp >= 3 && x < w && y < h
    ensures GrayChunkAt(Flatten(g, w, h, bpp), Flatten(MapGrid(ToGray, g, w, h, bpp), w, h, bpp), ChunkStart(x, y, h, bpp), bpp)
  {
    var f, t := Flatten(g, w, h, bpp), Flatten(MapGrid(ToGray, g, w, h, bpp), w, h, bpp);
    var pos := ChunkStart(x, y, h, bpp);
    SlotBelow(x, y, w, h, bpp);
    forall i | pos <= i < pos + bpp
      ensures t[i] == if i < pos + 3 then (f[pos] + f[pos + 1] + f[pos + 2]) / 3 else f[i]
    {
      GrayChunk(g, w, h, bpp, x, y, i - pos);
    }
  }

  /** Every chunk of the flattened gray grid is the v3 conversion of the
      same chunk of the flattened source grid. */
  lemma AllChunks(g: Grid, w: nat, h: nat, bpp: nat)
    requires Shaped(g, w, h, bpp) && h > 0 && bpp >= 3
    ensures forall x, y :: 0 <= x < w && 0 <= y < h ==>
      GrayChunkAt(Flatten(g, w, h, bpp), Flatten(MapGrid(ToGray, g, w, h, bpp), w, h, bpp), ChunkStart(x, y, h, bpp), bpp)
  {
    forall x, y | 0 <= x < w && 0 <= y < h {
      PixelChunk(g, w, h, bpp, x, y);
    }
  }

  /** Column x's chunks end where column x + 1's begin, no later than the
      end of the buffer. */
  lemma ColumnBounds(x: nat, w: nat, h: nat, bpp: nat)
    requires x < w
    ensures ChunkStart(x, 0, h, bpp) == x * h * bpp
    ensures ChunkStart(x, h, h, bpp) == ChunkStart(x + 1, 0, h, bpp) <= ChunkStart(w, 0, h, bpp) == w * h * bpp
  {
    MulMonotone(x + 1, w, h * bpp);
    assert (x + 1) * (h * bpp) == (x * h + h) * bpp;
  }

  /** One step of the v3 loop invariant: with the chunks before `pos` done
      and everything from `pos` on still zero, converting the chunk at `pos`
      makes the bytes up to `pos + bpp` done and leaves the rest zero. */
  lemma ChunkStep(before: seq<nat>, after: seq<nat>, src: seq<nat>, target: seq<nat>, pos: nat, bpp: nat)
    requires |before| == |after| == |src| == |target| && bpp >= 3 && GrayChunkAt(src, target, pos, bpp)
    requires forall i :: 0 <= i < pos ==> before[i] == target[i]
    requires forall i :: pos <= i < |before| ==> before[i] == 0
    requires forall i :: 0 <= i < |after| && !(pos <= i < pos + 3) && !(pos + 3 <= i < pos + bpp) ==>
      after[i] == before[i]
    requires forall i :: pos <= i < pos + 3 ==> after[i] == (src[pos] + src[pos + 1] + src[pos + 2]) / 3
    requires forall i :: pos + 3 <= i < pos + bpp ==> after[i] == src[i]
    ensures forall i :: 0 <= i < pos + bpp ==> after[i] == target[i]
    ensures forall i :: pos + bpp <= i < |after| ==> after[i] == 0
  {
  }

  /** One pixel of the v3 loop: the chunk at `pos` is converted, unless its
      third byte lies past the end of the arrays, which raises (`failed`).
      With the chunks before `pos` already done and the rest still zero, the
      chunks up to `pos + pixelSize` are done afterwards. */
  method ChunkPass(srcArray: array<nat>, dstArray: array<nat>, ghost target: seq<nat>, pos: nat, pixelSize: nat)
    returns (failed: bool)
    requires srcArray != dstArray && srcArray.Length == dstArray.Length == |target|
    requires pos + pixelSize <= srcArray.Length
    requires pixelSize >= 3 ==> GrayChunkAt(srcArray[..], target, pos, pixelSize)
    requires pixelSize >= 3 ==> forall i :: 0 <= i < pos ==> dstArray[i] == target[i]
    requires pixelSize >= 3 ==> forall i :: pos <= i < dstArray.Length ==> dstArray[i] == 0
    modifies dstArray
    ensures failed <==> pos + 2 >= srcArray.Length
    ensures pixelSize >= 3 ==> forall i :: 0 <= i < pos + pixelSize ==> dstArray[i] == target[i]
    ensures pixelSize >= 3 ==> forall i :: pos + pixelSize <= i < dstArray.Length ==> dstArray[i] == 0
  {
    if pos + 2 >= srcArray.Length {
      // srcArray[pos + 1] or srcArray[pos + 2] raises IndexError
      failed := true;
    } else {
      failed := false;
      ghost var written := dstArray[..];
      ConvertChunk(srcArray, dstArray, pos, pixelSize);
      if pixelSize >= 3 {
        ChunkStep(written, dstArray[..], srcArray[..], target, pos, pixelSize);
      }
    }
  }

  /** The inner loop of discolour_layer_v3 over the rows of column x: the
      chunks of slots `x * H` to `x * H + H - 1` are converted in order. It
      raises (`failed`) when a chunk's third byte lies past the end of the
      arrays; with at least three bytes per pixel that never happens. */
  method ArrayColumn(srcArray: array<nat>, dstArray: array<nat>, ghost target: seq<nat>, x: nat, h: nat, pixelSize: nat)
    returns (failed: bool)
    requires srcArray != dstArray && srcArray.Length == dstArray.Length == |target|
    requires ChunkStart(x, h, h, pixelSize) <= srcArray.Length && h > 0 && pixelSize > 0
    requires x > 0 ==> ChunkStart(x, 0, h, pixelSize) - pixelSize + 2 < srcArray.Length
    requires pixelSize >= 3 ==> forall y :: 0 <= y < h ==> GrayChunkAt(srcArray[..], target, ChunkStart(x, y, h, pixelSize), pixelSize)
    requires pixelSize >= 3 ==> forall i :: 0 <= i < |target| && i < ChunkStart(x, 0, h, pixelSize) ==> dstArray[i] == target[i]
    requires pixelSize >= 3 ==> forall i :: ChunkStart(x, 0, h, pixelSize) <= i < dstArray.Length ==> dstArray[i] == 0
    modifies dstArray
    ensures failed ==> pixelSize < 3
    ensures !failed ==> ChunkStart(x, h, h, pixelSize) - pixelSize + 2 < srcArray.Length
    ensures failed ==> ChunkStart(x, h - 1, h, pixelSize) + 2 >= srcArray.Length
    ensures pixelSize >= 3 ==> !failed && forall i :: 0 <= i < |target| && i < ChunkStart(x, h, h, pixelSize) ==> dstArray[i] == target[i]
    ensures pixelSize >= 3 ==> forall i :: ChunkStart(x, h, h, pixelSize) <= i < dstArray.Length ==> dstArray[i] == 0
  {
    failed := false;
    var y := 0;
    while y < h && !failed
      invariant 0 <= y <= h
      invariant pixelSize >= 3 ==> !failed
      invariant failed ==> pixelSize < 3
      invariant failed ==> y < h && ChunkStart(x, y, h, pixelSize) + 2 >= srcArray.Length
      invariant !failed && x * h + y > 0 ==> ChunkStart(x, y, h, pixelSize) - pixelSize + 2 < srcArray.Length
      invariant pixelSize >= 3 ==> forall i :: 0 <= i < |target| && i < ChunkStart(x, y, h, pixelSize) ==> dstArray[i] == target[i]
      invariant pixelSize >= 3 ==> forall i :: ChunkStart(x, y, h, pixelSize) <= i < dstArray.Length ==> dstArray[i] == 0
      decreases h - y, if failed then 0 else 1
    {
      var pos := (x * h + y) * pixelSize;
      assert pos == ChunkStart(x, y, h, pixelSize);
      assert ChunkStart(x, y + 1, h, pixelSize) == pos + pixelSize;
      assert pos + pixelSize <= srcArray.Length by {
        MulMonotone(x * h + y + 1, x * h + h, pixelSize);
      }
      failed := ChunkPass(srcArray, dstArray, target, pos, pixelSize);
      if !failed {
        y := y + 1;
      }
    }
    if failed {
      // the last pixel of the column lies no earlier than the one that raised
      MulMonotone(x * h + y, x * h + h - 1, pixelSize);
    }
  }

  /** Column s is where the v3 loop raises: the last pixel of column s
      reads past the end of the array, and the last pixel of column s - 1
      does not. */
  ghost predicate FirstRaisingColumn(s: nat, w: nat, h: nat, bpp: nat) {
    s < w && h > 0 && ChunkStart(s, h - 1, h, bpp) + 2 >= w * h * bpp &&
    (s > 0 ==> ChunkStart(s, 0, h, bpp) - bpp + 2 < w * h * bpp)
  }

  /** With one or two bytes per pixel, the v3 loop raises in the first
      column `s` whose last pixel reads past the end of the array. That is
      the last column, except for a one-row layer of one byte per pixel,
      where the next-to-last pixel already reads past the end: `s + 1`
      progress steps are made before the raise. */
  lemma RaisingColumn(w: nat, h: nat, bpp: nat, s: nat)
    requires 0 < bpp < 3 && FirstRaisingColumn(s, w, h, bpp)
    ensures s + 1 == if bpp == 1 && h == 1 && w >= 2 then w - 1 else w
  {
    if s + 1 < w {
      MulMonotone(s + 2, w, h);
      assert (s + 2) * h == s * h + h + h;
    }
  }

  /** The column loop of discolour_layer_v3 over the two flat arrays: one
      progress step per column, then the column's chunks. After column x the
      bytes below `x * H * pixelSize` are converted and the rest is still
      zero. With fewer than three bytes per pixel the last pixel's read runs
      past the end of the source array, which raises. */
  method ArrayLoop(img: Image, srcArray: array<nat>, dstArray: array<nat>, ghost target: seq<nat>, w: nat, h: nat, pixelSize: nat)
    returns (failed: bool, ghost steps: nat)
    requires srcArray != dstArray && srcArray.Length == dstArray.Length == |target| == w * h * pixelSize
    requires w > 0 && h > 0 && pixelSize > 0
    requires pixelSize >= 3 ==> forall x, y :: 0 <= x < w && 0 <= y < h ==>
      GrayChunkAt(srcArray[..], target, ChunkStart(x, y, h, pixelSize), pixelSize)
    requires forall i :: 0 <= i < dstArray.Length ==> dstArray[i] == 0
    modifies img`log, dstArray
    ensures failed <==> pixelSize < 3
    ensures !failed ==> dstArray[..] == target
    ensures !failed ==> steps == w
    ensures failed ==> 1 <= steps && FirstRaisingColumn(steps - 1, w, h, pixelSize)
    ensures steps <= w && img.log == old(img.log) + Ticks(w)[..steps]
  {
    ghost var log0 := img.log;
    ghost var len := srcArray.Length;
    failed := false;
    var x := 0;
    while x < w && !failed
      invariant 0 <= x <= w
      invariant !failed ==> img.log == log0 + Ticks(w)[..x]
      invariant failed ==> x < w && img.log == log0 + Ticks(w)[..x + 1]
      invariant pixelSize >= 3 ==> !failed
      invariant failed ==> pixelSize < 3
      invariant failed ==> ChunkStart(x, h - 1, h, pixelSize) + 2 >= len
      invariant x > 0 ==> ChunkStart(x, 0, h, pixelSize) - pixelSize + 2 < len
      invariant pixelSize >= 3 ==> forall i :: 0 <= i < len && i < ChunkStart(x, 0, h, pixelSize) ==> dstArray[i] == target[i]
      invariant pixelSize >= 3 ==> forall i :: ChunkStart(x, 0, h, pixelSize) <= i < len ==> dstArray[i] == 0
      decreases w - x, if failed then 0 else 1
    {
      img.Emit(ProgressUpdate(x, w));
      assert Ticks(w)[..x + 1] == Ticks(w)[..x] + [ProgressUpdate(x, w)];
      ColumnBounds(x, w, h, pixelSize);
      failed := ArrayColumn(srcArray, dstArray, target, x, h, pixelSize);
      if !failed {
        x := x + 1;
      }
    }
    steps := if failed then x + 1 else w;
    if !failed {
      ColumnBounds(w - 1, w, h, pixelSize);
      if pixelSize >= 3 {
        assert dstArray[..] == target;
      }
    }
  }

  /** The v3 pass: the source region copied into one flat byte array (slot
      `x * H + y` holding pixel (x, y)), a zeroed destination array of the
      same length, and the column loop between them. */
  method ArrayPass(img: Image, layer: Layer) returns (dstArray: array<nat>, failed: bool, ghost steps: nat)
    requires layer.Valid()
    modifies img`log
    ensures fresh(dstArray) && dstArray.Length == layer.width * layer.height * layer.bpp
    ensures failed <==> layer.bpp < 3
    ensures !failed ==> dstArray[..] == Flatten(GrayOf(layer.pixels, layer), layer.width, layer.height, layer.bpp)
    ensures steps == if layer.bpp == 1 && layer.height == 1 && layer.width >= 2 then layer.width - 1 else layer.width
    ensures img.log == old(img.log) + Ticks(layer.width)[..steps]
  {
    var w, h := layer.width, layer.height;
    var pixelSize := layer.bpp;
    var flat := Flatten(layer.pixels, w, h, pixelSize);
    var len := w * h * pixelSize;
    var srcArray := new nat[len](i requires 0 <= i < len => flat[i]);
    dstArray := new nat[len](i => 0);
    ghost var target := if pixelSize >= 3 then Flatten(GrayOf(layer.pixels, layer), w, h, pixelSize) else flat;
    if pixelSize >= 3 {
      AllChunks(layer.pixels, w, h, pixelSize);
    }
    failed, steps := ArrayLoop(img, srcArray, dstArray, target, w, h, pixelSize);
    if failed {
      RaisingColumn(w, h, pixelSize, steps - 1);
    }
  }

  /** discolour_layer_v3: converts the selected layer through two flat byte
      arrays, writes the destination array back into the new layer in one
      call, then replaces the original. */
  method DiscolourV3(img: Image, layer: Layer) returns (fault: Option<Fault>, pos: nat, temp: Layer)
    requires img.Valid() && layer.Valid()
    modifies img
    ensures img.Valid() && fresh(temp) && temp.Valid()
    ensures Replaced(img, old(img.layers), layer, layer.name, temp, pos, fault)
    ensures fault.None? <==> layer.bpp >= 3 && layer in old(img.layers)
    ensures layer.bpp < 3 ==> fault == Some(IndexOutOfRange) && temp.pixels == Blank(layer.width, layer.height, layer.bpp)
    ensures layer.bpp >= 3 ==> temp.pixels == GrayOf(layer.pixels, layer)
    ensures Extends(old(img.log), img.log, ProgressLabel(layer.name), layer.width, fault)
    ensures fault == if layer.bpp < 3 then Some(IndexOutOfRange)
                     else if layer !in old(img.layers) then Some(NotInImage) else None
    ensures img.log == old(img.log) + RunEvents(ProgressLabel(layer.name), layer.width,
      if layer.bpp == 1 && layer.height == 1 && layer.width >= 2 then layer.width - 1 else layer.width, fault)
  {
    ghost var log0 := img.log;
    ghost var before := img.layers;
    pos, temp := Prepare(img, layer);
    var layerName := layer.name;

    // try
    var dstArray, failed, steps := ArrayPass(img, layer);
    if failed {
      fault := Some(IndexOutOfRange);
    } else {
      // dstRgn[0:W, 0:H] = dstArray.tostring() writes into the new layer itself.
      UnflattenFlatten(GrayOf(layer.pixels, layer), layer.width, layer.height, layer.bpp);
      temp.pixels := Unflatten(dstArray[..], layer.width, layer.height, layer.bpp);
      fault := Commit(img, layer, temp, layerName, before, pos);
    }
    Finish(img, fault);
    assert img.log == log0 + RunEvents(ProgressLabel(layerName), layer.width, steps, fault);
    RunEventsExtend(log0, ProgressLabel(layerName), layer.width, steps, fault);
  }

  /** One pixel of discolour_layer_v4's inner loop: reading channels 1 and
      2 of a pixel with fewer than three raises, otherwise the gray pixel is
      written to the same place of the temporary layer. */
  method GrayAt(layer: Layer, temp: Layer, px: nat, py: nat) returns (failed: bool)
    requires layer != temp && layer.Valid() && temp.Valid()
    requires temp.width == layer.width && temp.height == layer.height && temp.bpp == layer.bpp
    requires px < layer.width && py < layer.height
    modifies temp`pixels
    ensures temp.Valid()
    ensures failed <==> layer.bpp < 3
    ensures failed ==> temp.pixels == old(temp.pixels)
    ensures !failed ==> temp.pixels == old(temp.pixels)[px := old(temp.pixels)[px][py := Apply(ToGray, layer.pixels[px][py])]]
  {
    var pixel := layer.pixels[px][py];
    if |pixel| < 3 {
      // pixel[1] or pixel[2] raises IndexError
      failed := true;
    } else {
      failed := false;
      var gray := (pixel[0] + pixel[1] + pixel[2]) / 3;
      var res := AppendExtras([gray, gray, gray], pixel);
      assert res == Gray(pixel);
      GrayIsFlooredMean(pixel);
      temp.SetPixel(px, py, res);
    }
  }

  /** Column x of a tile: its `eh` pixels from row y0 down, in order. */
  method GrayTileColumn(layer: Layer, temp: Layer, x0: nat, y0: nat, eh: nat, x: nat, ghost before: Grid)
    returns (failed: bool)
    requires layer != temp && layer.Valid() && temp.Valid()
    requires temp.width == layer.width && temp.height == layer.height && temp.bpp == layer.bpp
    requires x0 + x < layer.width && 0 < eh && y0 + eh <= layer.height
    requires Shaped(before, layer.width, layer.height, layer.bpp)
    requires layer.bpp >= 3 ==>
      PartWritten(temp.pixels, before, layer.pixels, ToGray, layer.width, layer.height, layer.bpp, x0, y0, eh, x, 0)
    modifies temp`pixels
    ensures temp.Valid()
    ensures failed <==> layer.bpp < 3
    ensures failed ==> temp.pixels == old(temp.pixels)
    ensures !failed ==>
      PartWritten(temp.pixels, before, layer.pixels, ToGray, layer.width, layer.height, layer.bpp, x0, y0, eh, x + 1, 0)
  {
    ghost var src, w, h, bpp := layer.pixels, layer.width, layer.height, layer.bpp;
    failed := false;
    var y := 0;
    while y < eh && !failed
      invariant 0 <= y <= eh && temp.Valid()
      invariant failed ==> y == 0 && bpp < 3
      invariant bpp < 3 ==> y == 0 && temp.pixels == old(temp.pixels)
      invariant !failed && bpp >= 3 ==> PartWritten(temp.pixels, before, src, ToGray, w, h, bpp, x0, y0, eh, x, y)
      decreases eh - y, if failed then 0 else 1
    {
      ghost var t1 := temp.pixels;
      failed := GrayAt(layer, temp, x0 + x, y0 + y);
      if !failed {
        PartStep(t1, temp.pixels, before, src, ToGray, w, h, bpp, x0, y0, eh, x, y);
        y := y + 1;
      }
    }
    if !failed {
      PartNextColumn(temp.pixels, before, src, ToGray, w, h, bpp, x0, y0, eh, x);
    }
  }

  /** One tile of discolour_layer_v4: its effective extent, `ew` columns of
      `eh` pixels at (x0, y0), written column by column into the temporary
      layer. */
  method GrayTile(layer: Layer, temp: Layer, x0: nat, y0: nat, ew: nat, eh: nat) returns (failed: bool)
    requires layer != temp && layer.Valid() && temp.Valid()
    requires temp.width == layer.width && temp.height == layer.height && temp.bpp == layer.bpp
    requires 0 < ew && x0 + ew <= layer.width && 0 < eh && y0 + eh <= layer.height
    modifies temp`pixels
    ensures temp.Valid()
    ensures failed <==> layer.bpp < 3
    ensures failed ==> temp.pixels == old(temp.pixels)
    ensures !failed ==> RectWritten(temp.pixels, old(temp.pixels), layer.pixels, ToGray,
                                    layer.width, layer.height, layer.bpp, x0, y0, ew, eh)
  {
    ghost var before := temp.pixels;
    ghost var src, w, h, bpp := layer.pixels, layer.width, layer.height, layer.bpp;
    if bpp >= 3 {
      PartStart(before, src, ToGray, w, h, bpp, x0, y0, eh);
    }
    failed := false;
    var x := 0;
    while x < ew && !failed
      invariant 0 <= x <= ew && temp.Valid()
      invariant failed ==> x == 0 && bpp < 3
      invariant bpp < 3 ==> x == 0 && temp.pixels == before
      invariant !failed && bpp >= 3 ==> PartWritten(temp.pixels, before, src, ToGray, w, h, bpp, x0, y0, eh, x, 0)
      decreases ew - x, if failed then 0 else 1
    {
      failed := GrayTileColumn(layer, temp, x0, y0, eh, x, before);
      if !failed {
        x := x + 1;
      }
    }
    if !failed {
      PartDone(temp.pixels, before, src, ToGray, w, h, bpp, x0, y0, ew, eh);
    }
  }

  /** One iteration of the tile loops of discolour_layer_v4: the progress
      update `(i * tm + j) / (tn * tm)`, then the pixels of tile (i, j). The
      walk moves on to tile (i, j + 1). */
  method VisitTile(img: Image, layer: Layer, temp: Layer, tw: nat, th: nat, i: nat, j: nat, tn: nat, tm: nat)
    returns (failed: bool)
    requires layer != temp && layer.Valid() && temp.Valid() && tw > 0 && th > 0
    requires temp.width == layer.width && temp.height == layer.height && temp.bpp == layer.bpp
    requires tn == TileCount(layer.width, tw) && tm == TileCount(layer.height, th) && i < tn && j < tm
    requires layer.bpp >= 3 ==>
      WalkedUpTo(temp.pixels, layer.pixels, ToGray, layer.width, layer.height, layer.bpp, tw, th, i, j)
    modifies img`log, temp`pixels
    ensures temp.Valid()
    ensures img.log == old(img.log) + [ProgressUpdate(i * tm + j, tn * tm)]
    ensures failed <==> layer.bpp < 3
    ensures failed ==> temp.pixels == old(temp.pixels)
    ensures !failed ==>
      WalkedUpTo(temp.pixels, layer.pixels, ToGray, layer.width, layer.height, layer.bpp, tw, th, i, j + 1)
  {
    img.Emit(ProgressUpdate(i * tm + j, tn * tm));
    ghost var g0 := temp.pixels;
    failed := GrayTile(layer, temp, i * tw, j * th, Extent(layer.width, tw, i), Extent(layer.height, th, j));
    if !failed {
      WalkStep(g0, temp.pixels, layer.pixels, ToGray, layer.width, layer.height, layer.bpp, tw, th, i, j);
    }
  }

  /** The loop over the tiles of column of tiles i (row of tiles j from 0
      to tm - 1). Afterwards the walk stands at the top of column i + 1. */
  method TileColumn(img: Image, layer: Layer, temp: Layer, tw: nat, th: nat, i: nat, tn: nat, tm: nat)
    returns (failed: bool)
    requires layer != temp && layer.Valid() && temp.Valid() && tw > 0 && th > 0
    requires temp.width == layer.width && temp.height == layer.height && temp.bpp == layer.bpp
    requires tn == TileCount(layer.width, tw) && tm == TileCount(layer.height, th) && i < tn
    requires layer.bpp >= 3 ==>
      WalkedUpTo(temp.pixels, layer.pixels, ToGray, layer.width, layer.height, layer.bpp, tw, th, i, 0)
    modifies img`log, temp`pixels
    ensures temp.Valid()
    ensures failed <==> layer.bpp < 3
    ensures failed ==> temp.pixels == old(temp.pixels) && img.log == old(img.log) + [ProgressUpdate(i * tm, tn * tm)]
    ensures !failed ==> i * tm + tm <= tn * tm && img.log == old(img.log) + Ticks(tn * tm)[i * tm .. i * tm + tm]
    ensures !failed ==>
      WalkedUpTo(temp.pixels, layer.pixels, ToGray, layer.width, layer.height, layer.bpp, tw, th, i + 1, 0)
  {
    ghost var log0, lo, total := img.log, i * tm, tn * tm;
    assert lo + tm <= total by {
      MulMonotone(i + 1, tn, tm);
    }
    failed := false;
    var j := 0;
    while j < tm && !failed
      invariant 0 <= j <= tm && temp.Valid()
      invariant failed ==> j == 0 && layer.bpp < 3 && temp.pixels == old(temp.pixels)
      invariant failed ==> img.log == log0 + [ProgressUpdate(lo, total)]
      invariant layer.bpp < 3 ==> j == 0 && temp.pixels == old(temp.pixels)
      invariant !failed ==> img.log == log0 + Ticks(total)[lo .. lo + j]
      invariant !failed && layer.bpp >= 3 ==>
        WalkedUpTo(temp.pixels, layer.pixels, ToGray, layer.width, layer.height, layer.bpp, tw, th, i, j)
      decreases tm - j, if failed then 0 else 1
    {
      failed := VisitTile(img, layer, temp, tw, th, i, j, tn, tm);
      TicksGrow(total, lo, lo + j);
      if !failed {
        j := j + 1;
      }
    }
    if !failed {
      WalkNextColumn(temp.pixels, layer.pixels, ToGray, layer.width, layer.height, layer.bpp, tw, th, i);
    }
  }

  /** The loops over the columns of tiles of discolour_layer_v4, given the
      tile counts. */
  method TileColumns(img: Image, layer: Layer, temp: Layer, tw: nat, th: nat, tn: nat, tm: nat)
    returns (failed: bool, ghost steps: nat)
    requires layer != temp && layer.Valid() && temp.Valid() && tw > 0 && th > 0
    requires temp.width == layer.width && temp.height == layer.height && temp.bpp == layer.bpp
    requires tn == TileCount(layer.width, tw) && tm == TileCount(layer.height, th) && tn > 0 && tm > 0
    requires temp.pixels == Blank(layer.width, layer.height, layer.bpp)
    modifies img`log, temp`pixels
    ensures temp.Valid()
    ensures failed <==> layer.bpp < 3
    ensures failed ==> temp.pixels == old(temp.pixels)
    ensures !failed ==>
      WalkedUpTo(temp.pixels, layer.pixels, ToGray, layer.width, layer.height, layer.bpp, tw, th, tn, 0)
    ensures steps == (if failed then 1 else tn * tm) && steps <= tn * tm && img.log == old(img.log) + Ticks(tn * tm)[..steps]
  {
    ghost var log0, total := img.log, tn * tm;
    ghost var src, w, h, bpp := layer.pixels, layer.width, layer.height, layer.bpp;
    if bpp >= 3 {
      WalkStart(src, ToGray, w, h, bpp, tw, th);
    }
    failed := false;
    var i := 0;
    ghost var k := 0;
    while i < tn && !failed
      invariant 0 <= i <= tn && temp.Valid()
      invariant failed ==> i == 0 && bpp < 3
      invariant bpp < 3 ==> i == 0 && temp.pixels == old(temp.pixels)
      invariant failed ==> img.log == log0 + Ticks(total)[..1]
      invariant !failed ==> k == i * tm && k <= total && img.log == log0 + Ticks(total)[..k]
      invariant !failed && bpp >= 3 ==> WalkedUpTo(temp.pixels, src, ToGray, w, h, bpp, tw, th, i, 0)
      decreases tn - i, if failed then 0 else 1
    {
      failed := TileColumn(img, layer, temp, tw, th, i, tn, tm);
      if !failed {
        TicksJoin(total, k, k + tm);
        assert i * tm + tm == (i + 1) * tm;
        k := k + tm;
        i := i + 1;
      } else {
        assert Ticks(total)[..1] == [ProgressUpdate(0, total)];
      }
    }
    steps := if failed then 1 else total;
  }

  /** The try block of discolour_layer_v4 on a host whose tiles are `tw` by
      `th` pixels: the tile counts are computed as in the plugin, by floor
      division plus one for a partial tile. */
  method TilePass(img: Image, layer: Layer, temp: Layer, tw: nat, th: nat) returns (failed: bool, ghost steps: nat)
    requires layer != temp && layer.Valid() && temp.Valid() && tw > 0 && th > 0
    requires temp.width == layer.width && temp.height == layer.height && temp.bpp == layer.bpp
    requires temp.pixels == Blank(layer.width, layer.height, layer.bpp)
    modifies img`log, temp`pixels
    ensures temp.Valid()
    ensures failed <==> layer.bpp < 3
    ensures failed ==> temp.pixels == old(temp.pixels)
    ensures !failed ==> temp.pixels == GrayOf(layer.pixels, layer)
    ensures var total := TileCount(layer.width, tw) * TileCount(layer.height, th);
      steps == (if failed then 1 else total) && steps <= total && img.log == old(img.log) + Ticks(total)[..steps]
  {
    var w, h := layer.width, layer.height;
    var tn := w / tw;
    if w % tw > 0 {
      tn := tn + 1;
    }
    var tm := h / th;
    if h % th > 0 {
      tm := tm + 1;
    }
    assert tn == TileCount(w, tw) && tm == TileCount(h, th);
    TileCountIsCeiling(w, tw);
    TileCountIsCeiling(h, th);
    failed, steps := TileColumns(img, layer, temp, tw, th, tn, tm);
    if !failed {
      WalkDone(temp.pixels, layer.pixels, ToGray, w, h, layer.bpp, tw, th);
    }
  }

  /** discolour_layer_v4: converts the selected layer tile by tile into a
      new layer, writing the new layer's tiles directly, then replaces the
      original. `tw` and `th` are the host's tile width and height. */
  method DiscolourV4(img: Image, layer: Layer, tw: nat, th: nat) returns (fault: Option<Fault>, pos: nat, temp: Layer)
    requires img.Valid() && layer.Valid() && tw > 0 && th > 0
    modifies img
    ensures img.Valid() && fresh(temp) && temp.Valid()
    ensures Replaced(img, old(img.layers), layer, layer.name, temp, pos, fault)
    ensures fault.None? <==> layer.bpp >= 3 && layer in old(img.layers)
    ensures layer.bpp < 3 ==> fault == Some(IndexOutOfRange) && temp.pixels == Blank(layer.width, layer.height, layer.bpp)
    ensures layer.bpp >= 3 ==> temp.pixels == GrayOf(layer.pixels, layer)
    ensures Extends(old(img.log), img.log, ProgressLabel(layer.name),
                    TileCount(layer.width, tw) * TileCount(layer.height, th), fault)
    ensures fault == if layer.bpp < 3 then Some(IndexOutOfRange)
                     else if layer !in old(img.layers) then Some(NotInImage) else None
    ensures var total := TileCount(layer.width, tw) * TileCount(layer.height, th);
      1 <= total &&
      img.log == old(img.log) + RunEvents(ProgressLabel(layer.name), total, if layer.bpp < 3 then 1 else total, fault)
  {
    ghost var log0 := img.log;
    ghost var before := img.layers;
    pos, temp := Prepare(img, layer);
    var layerName := layer.name;

    // try
    var failed, steps := TilePass(img, layer, temp, tw, th);
    TileCountIsCeiling(layer.width, tw);
    TileCountIsCeiling(layer.height, th);
    MulMonotone(1, TileCount(layer.width, tw), TileCount(layer.height, th));
    if failed {
      fault := Some(IndexOutOfRange);
    } else {
      // flush, merge_shadow and update leave the written tiles as they are.
      fault := Commit(img, layer, temp, layerName, before, pos);
    }
    Finish(img, fault);
    ghost var total := TileCount(layer.width, tw) * TileCount(layer.height, th);
    assert img.log == log0 + RunEvents(ProgressLabel(layerName), total, steps, fault);
    RunEventsExtend(log0, ProgressLabel(layerName), total, steps, fault);
  }
}
