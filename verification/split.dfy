/** split_channels: three new layers above the selected one, holding its red,
    green and blue channels (the other two colour channels zeroed, extra
    channels copied), filled tile by tile on a grid of 64 by 64 tiles. The
    selected layer is kept. */
module Split {
  import opened Arith
  import opened Pixels
  import opened Raster
  import opened Tiles
  import opened TileWalk
  import opened Stack
  import opened Host

  /** The tile size split_channels fixes instead of asking the host. */
  const TileSize: nat := 64

  /** The three output pixels of one source pixel: the colour channel each
      keeps, then channels 3, 4, ... appended to all three in one loop. */
  method SplitPixel(pixel: Pixel) returns (pixelR: Pixel, pixelG: Pixel, pixelB: Pixel)
    requires |pixel| >= 3
    ensures pixelR == SplitRed(pixel) && pixelG == SplitGreen(pixel) && pixelB == SplitBlue(pixel)
  {
    pixelR, pixelG, pixelB := [pixel[0], 0, 0], [0, pixel[1], 0], [0, 0, pixel[2]];
    if |pixel| > 3 {
      var k := 0;
      while k < |pixel| - 3
        invariant 0 <= k <= |pixel| - 3
        invariant pixelR == [pixel[0], 0, 0] + pixel[3..3 + k]
        invariant pixelG == [0, pixel[1], 0] + pixel[3..3 + k]
        invariant pixelB == [0, 0, pixel[2]] + pixel[3..3 + k]
      {
        pixelR := pixelR + [pixel[k + 3]];
        pixelG := pixelG + [pixel[k + 3]];
        pixelB := pixelB + [pixel[k + 3]];
        assert pixel[3..3 + k + 1] == pixel[3..3 + k] + [pixel[k + 3]];
        k := k + 1;
      }
    }
    assert pixel[3..3 + (|pixel| - 3)] == pixel[3..];
  }

  /** The three output layers have the selected layer's geometry. */
  ghost predicate Outputs(layer: Layer, red: Layer, green: Layer, blue: Layer)
    reads layer, red, green, blue
  {
    layer.Valid() && red.Valid() && green.Valid() && blue.Valid() &&
    layer != red && layer != green && layer != blue && red != green && red != blue && green != blue &&
    red.width == green.width == blue.width == layer.width &&
    red.height == green.height == blue.height == layer.height &&
    red.bpp == green.bpp == blue.bpp == layer.bpp
  }

  /** The three outputs of the tile at (x0, y0), `eh` rows high, have their
      first `x` columns written, and the first `y` pixels of column x. */
  ghost predicate SplitPart(src: Grid, r0: Grid, g0: Grid, b0: Grid, r: Grid, g: Grid, b: Grid, w: nat, h: nat, bpp: nat,
                            x0: nat, y0: nat, eh: nat, x: nat, y: nat)
    requires Shaped(src, w, h, bpp) && Shaped(r0, w, h, bpp) && Shaped(g0, w, h, bpp) && Shaped(b0, w, h, bpp) && bpp >= 3
  {
    PartWritten(r, r0, src, ToRed, w, h, bpp, x0, y0, eh, x, y) &&
    PartWritten(g, g0, src, ToGreen, w, h, bpp, x0, y0, eh, x, y) &&
    PartWritten(b, b0, src, ToBlue, w, h, bpp, x0, y0, eh, x, y)
  }

  /** The body of the pixel loops at tile column x, row y: the source pixel
      at (x0 + x, y0 + y) is split and its three channel pixels written into
      the same place of the three outputs. A pixel with fewer than three
      channels raises before anything is written. */
  method SplitAt(layer: Layer, red: Layer, green: Layer, blue: Layer, px: nat, py: nat) returns (failed: bool)
    requires Outputs(layer, red, green, blue) && px < layer.width && py < layer.height
    modifies red`pixels, green`pixels, blue`pixels
    ensures Outputs(layer, red, green, blue)
    ensures failed <==> layer.bpp < 3
    ensures failed ==> red.pixels == old(red.pixels) && green.pixels == old(green.pixels) && blue.pixels == old(blue.pixels)
    ensures !failed ==>
      red.pixels == old(red.pixels)[px := old(red.pixels)[px][py := Apply(ToRed, layer.pixels[px][py])]] &&
      green.pixels == old(green.pixels)[px := old(green.pixels)[px][py := Apply(ToGreen, layer.pixels[px][py])]] &&
      blue.pixels == old(blue.pixels)[px := old(blue.pixels)[px][py := Apply(ToBlue, layer.pixels[px][py])]]
  {
    var pixel := layer.pixels[px][py];
    if |pixel| < 3 {
      // pixel[1] or pixel[2] raises IndexError
      failed := true;
    } else {
      failed := false;
      var pixelR, pixelG, pixelB := SplitPixel(pixel);
      SplitRoundTrip(pixel);
      red.SetPixel(px, py, pixelR);
      green.SetPixel(px, py, pixelG);
      blue.SetPixel(px, py, pixelB);
    }
  }

  /** The inner pixel loop of split_channels over column x of the tile at
      (x0, y0): rows 0 to eh - 1. */
  method SplitTileColumn(layer: Layer, red: Layer, green: Layer, blue: Layer, x0: nat, y0: nat, eh: nat, x: nat,
                         ghost r0: Grid, ghost g0: Grid, ghost b0: Grid)
    returns (failed: bool)
    requires Outputs(layer, red, green, blue)
    requires x0 + x < layer.width && 0 < eh && y0 + eh <= layer.height
    requires Shaped(r0, layer.width, layer.height, layer.bpp) && Shaped(g0, layer.width, layer.height, layer.bpp)
    requires Shaped(b0, layer.width, layer.height, layer.bpp)
    requires layer.bpp >= 3 ==> SplitPart(layer.pixels, r0, g0, b0, red.pixels, green.pixels, blue.pixels,
                                          layer.width, layer.height, layer.bpp, x0, y0, eh, x, 0)
    modifies red`pixels, green`pixels, blue`pixels
    ensures Outputs(layer, red, green, blue)
    ensures failed <==> layer.bpp < 3
    ensures failed ==> red.pixels == old(red.pixels) && green.pixels == old(green.pixels) && blue.pixels == old(blue.pixels)
    ensures !failed ==> SplitPart(layer.pixels, r0, g0, b0, red.pixels, green.pixels, blue.pixels,
                                  layer.width, layer.height, layer.bpp, x0, y0, eh, x + 1, 0)
  {
    ghost var src, w, h, bpp := layer.pixels, layer.width, layer.height, layer.bpp;
    failed := false;
    var y := 0;
    while y < eh && !failed
      invariant 0 <= y <= eh && Outputs(layer, red, green, blue)
      invariant failed ==> y == 0 && bpp < 3
      invariant bpp < 3 ==>
        y == 0 && red.pixels == old(red.pixels) && green.pixels == old(green.pixels) && blue.pixels == old(blue.pixels)
      invariant !failed && bpp >= 3 ==>
        SplitPart(src, r0, g0, b0, red.pixels, green.pixels, blue.pixels, w, h, bpp, x0, y0, eh, x, y)
      decreases eh - y, if failed then 0 else 1
    {
      ghost var r1, g1, b1 := red.pixels, green.pixels, blue.pixels;
      failed := SplitAt(layer, red, green, blue, x0 + x, y0 + y);
      if !failed {
        PartStep(r1, red.pixels, r0, src, ToRed, w, h, bpp, x0, y0, eh, x, y);
        PartStep(g1, green.pixels, g0, src, ToGreen, w, h, bpp, x0, y0, eh, x, y);
        PartStep(b1, blue.pixels, b0, src, ToBlue, w, h, bpp, x0, y0, eh, x, y);
        y := y + 1;
      }
    }
    if !failed {
      PartNextColumn(red.pixels, r0, src, ToRed, w, h, bpp, x0, y0, eh, x);
      PartNextColumn(green.pixels, g0, src, ToGreen, w, h, bpp, x0, y0, eh, x);
      PartNextColumn(blue.pixels, b0, src, ToBlue, w, h, bpp, x0, y0, eh, x);
    }
  }

  /** The pixel loops of split_channels over one tile: every pixel of the
      effective extent, `ew` columns by `eh` rows from (x0, y0), read from
      the selected layer and its three channel pixels written into the same
      place of the three new layers. A pixel with fewer than three channels
      raises at the tile's first pixel, before anything is written. */
  method SplitTile(layer: Layer, red: Layer, green: Layer, blue: Layer, x0: nat, y0: nat, ew: nat, eh: nat)
    returns (failed: bool)
    requires Outputs(layer, red, green, blue)
    requires 0 < ew && x0 + ew <= layer.width && 0 < eh && y0 + eh <= layer.height
    modifies red`pixels, green`pixels, blue`pixels
    ensures Outputs(layer, red, green, blue)
    ensures failed <==> layer.bpp < 3
    ensures failed ==> red.pixels == old(red.pixels) && green.pixels == old(green.pixels) && blue.pixels == old(blue.pixels)
    ensures !failed ==>
      RectWritten(red.pixels, old(red.pixels), layer.pixels, ToRed, layer.width, layer.height, layer.bpp, x0, y0, ew, eh) &&
      RectWritten(green.pixels, old(green.pixels), layer.pixels, ToGreen, layer.width, layer.height, layer.bpp, x0, y0, ew, eh) &&
      RectWritten(blue.pixels, old(blue.pixels), layer.pixels, ToBlue, layer.width, layer.height, layer.bpp, x0, y0, ew, eh)
  {
    ghost var r0, g0, b0 := red.pixels, green.pixels, blue.pixels;
    ghost var src, w, h, bpp := layer.pixels, layer.width, layer.height, layer.bpp;
    if bpp >= 3 {
      PartStart(r0, src, ToRed, w, h, bpp, x0, y0, eh);
      PartStart(g0, src, ToGreen, w, h, bpp, x0, y0, eh);
      PartStart(b0, src, ToBlue, w, h, bpp, x0, y0, eh);
    }
    failed := false;
    var x := 0;
    while x < ew && !failed
      invariant 0 <= x <= ew && Outputs(layer, red, green, blue)
      invariant failed ==> x == 0 && bpp < 3
      invariant bpp < 3 ==> x == 0 && red.pixels == r0 && green.pixels == g0 && blue.pixels == b0
      invariant !failed && bpp >= 3 ==>
        SplitPart(src, r0, g0, b0, red.pixels, green.pixels, blue.pixels, w, h, bpp, x0, y0, eh, x, 0)
      decreases ew - x, if failed then 0 else 1
    {
      failed := SplitTileColumn(layer, red, green, blue, x0, y0, eh, x, r0, g0, b0);
      if !failed {
        x := x + 1;
      }
    }
    if !failed {
      PartDone(red.pixels, r0, src, ToRed, w, h, bpp, x0, y0, ew, eh);
      PartDone(green.pixels, g0, src, ToGreen, w, h, bpp, x0, y0, ew, eh);
      PartDone(blue.pixels, b0, src, ToBlue, w, h, bpp, x0, y0, ew, eh);
    }
  }

  /** The output layers before tile (i, j): each has the tiles visited so
      far filled with its channel and is cleared elsewhere. */
  ghost predicate SplitUpTo(src: Grid, r: Grid, g: Grid, b: Grid, w: nat, h: nat, bpp: nat, i: nat, j: nat)
    requires Shaped(src, w, h, bpp) && bpp >= 3
  {
    WalkedUpTo(r, src, ToRed, w, h, bpp, TileSize, TileSize, i, j) &&
    WalkedUpTo(g, src, ToGreen, w, h, bpp, TileSize, TileSize, i, j) &&
    WalkedUpTo(b, src, ToBlue, w, h, bpp, TileSize, TileSize, i, j)
  }

  /** Before the first tile, all three cleared outputs are at the start of
      the walk. */
  lemma SplitStart(src: Grid, w: nat, h: nat, bpp: nat)
    requires Shaped(src, w, h, bpp) && bpp >= 3
    ensures SplitUpTo(src, Blank(w, h, bpp), Blank(w, h, bpp), Blank(w, h, bpp), w, h, bpp, 0, 0)
  {
    WalkStart(src, ToRed, w, h, bpp, TileSize, TileSize);
    WalkStart(src, ToGreen, w, h, bpp, TileSize, TileSize);
    WalkStart(src, ToBlue, w, h, bpp, TileSize, TileSize);
  }

  /** After the last tile of column i, all three walks continue at the top
      of column i + 1. */
  lemma SplitNextColumn(src: Grid, r: Grid, g: Grid, b: Grid, w: nat, h: nat, bpp: nat, i: nat)
    requires Shaped(src, w, h, bpp) && bpp >= 3
    requires SplitUpTo(src, r, g, b, w, h, bpp, i, TileCount(h, TileSize))
    ensures SplitUpTo(src, r, g, b, w, h, bpp, i + 1, 0)
  {
    WalkNextColumn(r, src, ToRed, w, h, bpp, TileSize, TileSize, i);
    WalkNextColumn(g, src, ToGreen, w, h, bpp, TileSize, TileSize, i);
    WalkNextColumn(b, src, ToBlue, w, h, bpp, TileSize, TileSize, i);
  }

  /** After every column of tiles, each output is its channel of the whole
      source grid. */
  lemma SplitDone(src: Grid, r: Grid, g: Grid, b: Grid, w: nat, h: nat, bpp: nat)
    requires Shaped(src, w, h, bpp) && bpp >= 3
    requires SplitUpTo(src, r, g, b, w, h, bpp, TileCount(w, TileSize), 0)
    ensures r == MapGrid(ToRed, src, w, h, bpp) && g == MapGrid(ToGreen, src, w, h, bpp) && b == MapGrid(ToBlue, src, w, h, bpp)
  {
    WalkDone(r, src, ToRed, w, h, bpp, TileSize, TileSize);
    WalkDone(g, src, ToGreen, w, h, bpp, TileSize, TileSize);
    WalkDone(b, src, ToBlue, w, h, bpp, TileSize, TileSize);
  }

  /** One iteration of the tile loops: the progress update
      `(i * tm + j) / (tn * tm)`, then the pixels of tile (i, j). */
  method SplitVisit(img: Image, layer: Layer, red: Layer, green: Layer, blue: Layer, i: nat, j: nat, tn: nat, tm: nat)
    returns (failed: bool)
    requires Outputs(layer, red, green, blue)
    requires tn == TileCount(layer.width, TileSize) && tm == TileCount(layer.height, TileSize) && i < tn && j < tm
    requires layer.bpp >= 3 ==> SplitUpTo(layer.pixels, red.pixels, green.pixels, blue.pixels, layer.width, layer.height, layer.bpp, i, j)
    modifies img`log, red`pixels, green`pixels, blue`pixels
    ensures Outputs(layer, red, green, blue)
    ensures img.log == old(img.log) + [ProgressUpdate(i * tm + j, tn * tm)]
    ensures failed <==> layer.bpp < 3
    ensures failed ==> red.pixels == old(red.pixels) && green.pixels == old(green.pixels) && blue.pixels == old(blue.pixels)
    ensures !failed ==> SplitUpTo(layer.pixels, red.pixels, green.pixels, blue.pixels, layer.width, layer.height, layer.bpp, i, j + 1)
  {
    img.Emit(ProgressUpdate(i * tm + j, tn * tm));
    ghost var r0, g0, b0 := red.pixels, green.pixels, blue.pixels;
    var w, h := layer.width, layer.height;
    failed := SplitTile(layer, red, green, blue, i * TileSize, j * TileSize, Extent(w, TileSize, i), Extent(h, TileSize, j));
    if !failed {
      WalkStep(r0, red.pixels, layer.pixels, ToRed, w, h, layer.bpp, TileSize, TileSize, i, j);
      WalkStep(g0, green.pixels, layer.pixels, ToGreen, w, h, layer.bpp, TileSize, TileSize, i, j);
      WalkStep(b0, blue.pixels, layer.pixels, ToBlue, w, h, layer.bpp, TileSize, TileSize, i, j);
    }
  }

  /** The loop over the tiles of column of tiles i. Afterwards the walk
      stands at the top of column i + 1. */
  method SplitColumn(img: Image, layer: Layer, red: Layer, green: Layer, blue: Layer, i: nat, tn: nat, tm: nat)
    returns (failed: bool)
    requires Outputs(layer, red, green, blue)
    requires tn == TileCount(layer.width, TileSize) && tm == TileCount(layer.height, TileSize) && i < tn
    requires layer.bpp >= 3 ==> SplitUpTo(layer.pixels, red.pixels, green.pixels, blue.pixels, layer.width, layer.height, layer.bpp, i, 0)
    modifies img`log, red`pixels, green`pixels, blue`pixels
    ensures Outputs(layer, red, green, blue)
    ensures failed <==> layer.bpp < 3
    ensures failed ==> red.pixels == old(red.pixels) && green.pixels == old(green.pixels) && blue.pixels == old(blue.pixels)
    ensures failed ==> img.log == old(img.log) + [ProgressUpdate(i * tm, tn * tm)]
    ensures !failed ==> i * tm + tm <= tn * tm && img.log == old(img.log) + Ticks(tn * tm)[i * tm .. i * tm + tm]
    ensures !failed ==> SplitUpTo(layer.pixels, red.pixels, green.pixels, blue.pixels, layer.width, layer.height, layer.bpp, i + 1, 0)
  {
    ghost var log0, lo, total := img.log, i * tm, tn * tm;
    ghost var src, w, h, bpp := layer.pixels, layer.width, layer.height, layer.bpp;
    assert lo + tm <= total by {
      MulMonotone(i + 1, tn, tm);
    }
    failed := false;
    var j := 0;
    while j < tm && !failed
      invariant 0 <= j <= tm && Outputs(layer, red, green, blue)
      invariant failed ==> j == 0 && bpp < 3
      invariant bpp < 3 ==>
        j == 0 && red.pixels == old(red.pixels) && green.pixels == old(green.pixels) && blue.pixels == old(blue.pixels)
      invariant failed ==> img.log == log0 + [ProgressUpdate(lo, total)]
      invariant !failed ==> img.log == log0 + Ticks(total)[lo .. lo + j]
      invariant !failed && bpp >= 3 ==> SplitUpTo(src, red.pixels, green.pixels, blue.pixels, w, h, bpp, i, j)
      decreases tm - j, if failed then 0 else 1
    {
      failed := SplitVisit(img, layer, red, green, blue, i, j, tn, tm);
      TicksGrow(total, lo, lo + j);
      if !failed {
        j := j + 1;
      }
    }
    if !failed {
      SplitNextColumn(src, red.pixels, green.pixels, blue.pixels, w, h, bpp, i);
    }
  }

  /** The loops over the columns of tiles, given the tile counts. */
  method SplitColumns(img: Image, layer: Layer, red: Layer, green: Layer, blue: Layer, tn: nat, tm: nat)
    returns (failed: bool, ghost steps: nat)
    requires Outputs(layer, red, green, blue)
    requires tn == TileCount(layer.width, TileSize) && tm == TileCount(layer.height, TileSize) && tn > 0 && tm > 0
    requires red.pixels == Blank(layer.width, layer.height, layer.bpp) && green.pixels == Blank(layer.width, layer.height, layer.bpp)
    requires blue.pixels == Blank(layer.width, layer.height, layer.bpp)
    modifies img`log, red`pixels, green`pixels, blue`pixels
    ensures Outputs(layer, red, green, blue)
    ensures failed <==> layer.bpp < 3
    ensures failed ==> red.pixels == old(red.pixels) && green.pixels == old(green.pixels) && blue.pixels == old(blue.pixels)
    ensures !failed ==> SplitUpTo(layer.pixels, red.pixels, green.pixels, blue.pixels, layer.width, layer.height, layer.bpp, tn, 0)
    ensures steps == (if failed then 1 else tn * tm) && steps <= tn * tm && img.log == old(img.log) + Ticks(tn * tm)[..steps]
  {
    ghost var log0 := img.log;
    ghost var total := tn * tm;
    if layer.bpp >= 3 {
      SplitStart(layer.pixels, layer.width, layer.height, layer.bpp);
    }
    failed := false;
    var i := 0;
    ghost var k := 0;
    while i < tn && !failed
      invariant 0 <= i <= tn && Outputs(layer, red, green, blue)
      invariant failed ==> i == 0 && layer.bpp < 3
      invariant layer.bpp < 3 ==> i == 0 && red.pixels == old(red.pixels) && green.pixels == old(green.pixels) && blue.pixels == old(blue.pixels)
      invariant failed ==> img.log == log0 + Ticks(total)[..1]
      invariant !failed ==> k == i * tm && k <= total && img.log == log0 + Ticks(total)[..k]
      invariant !failed && layer.bpp >= 3 ==> SplitUpTo(layer.pixels, red.pixels, green.pixels, blue.pixels, layer.width, layer.height, layer.bpp, i, 0)
      decreases tn - i, if failed then 0 else 1
    {
      failed := SplitColumn(img, layer, red, green, blue, i, tn, tm);
      if !failed {
        TicksJoin(total, k, k + tm);
        assert i * tm + tm == (i + 1) * tm;
        k := k + tm;
        i := i + 1;
      } else {
        assert Ticks(total)[..1] == [ProgressUpdate(0, total)];
      }
    }
    steps := if failed then 1 else total;
  }

  /** The try block of split_channels: 64 by 64 tiles, counted as in the
      plugin by floor division plus one for a partial tile. */
  method SplitPass(img: Image, layer: Layer, red: Layer, green: Layer, blue: Layer) returns (failed: bool, ghost steps: nat)
    requires Outputs(layer, red, green, blue)
    requires red.pixels == Blank(layer.width, layer.height, layer.bpp) && green.pixels == Blank(layer.width, layer.height, layer.bpp)
    requires blue.pixels == Blank(layer.width, layer.height, layer.bpp)
    modifies img`log, red`pixels, green`pixels, blue`pixels
    ensures Outputs(layer, red, green, blue)
    ensures failed <==> layer.bpp < 3
    ensures failed ==> red.pixels == old(red.pixels) && green.pixels == old(green.pixels) && blue.pixels == old(blue.pixels)
    ensures !failed ==> red.pixels == MapGrid(ToRed, layer.pixels, layer.width, layer.height, layer.bpp)
    ensures !failed ==> green.pixels == MapGrid(ToGreen, layer.pixels, layer.width, layer.height, layer.bpp)
    ensures !failed ==> blue.pixels == MapGrid(ToBlue, layer.pixels, layer.width, layer.height, layer.bpp)
    ensures var total := TileCount(layer.width, TileSize) * TileCount(layer.height, TileSize);
      steps == (if failed then 1 else total) && steps <= total && img.log == old(img.log) + Ticks(total)[..steps]
  {
    var w, h := layer.width, layer.height;
    var tn := w / 64;
    if w % 64 > 0 {
      tn := tn + 1;
    }
    var tm := h / 64;
    if h % 64 > 0 {
      tm := tm + 1;
    }
    assert tn == TileCount(w, TileSize) && tm == TileCount(h, TileSize);
    TileCountIsCeiling(w, TileSize);
    TileCountIsCeiling(h, TileSize);
    failed, steps := SplitColumns(img, layer, red, green, blue, tn, tm);
    if !failed {
      SplitDone(layer.pixels, red.pixels, green.pixels, blue.pixels, w, h, layer.bpp);
    }
  }

  /** The opening of split_channels: progress started, undo group opened,
      the selected layer's position looked up, and cleared Red, Green and
      Blue layers with its geometry and attributes created and inserted at
      that position, in that order, so that they stack up as Blue, Green,
      Red above it. */
  method AddChannelLayers(img: Image, layer: Layer) returns (pos: nat, red: Layer, green: Layer, blue: Layer)
    requires img.Valid() && layer.Valid()
    modifies img`log, img`layers
    ensures img.Valid() && fresh(red) && fresh(green) && fresh(blue) && Outputs(layer, red, green, blue)
    ensures red.name == layer.name + " Red" && green.name == layer.name + " Green" && blue.name == layer.name + " Blue"
    ensures red.kind == green.kind == blue.kind == layer.kind
    ensures red.opacity == green.opacity == blue.opacity == layer.opacity
    ensures red.mode == green.mode == blue.mode == layer.mode
    ensures red.pixels == Blank(layer.width, layer.height, layer.bpp) && green.pixels == Blank(layer.width, layer.height, layer.bpp)
    ensures blue.pixels == Blank(layer.width, layer.height, layer.bpp)
    ensures layer in old(img.layers) ==> pos < |old(img.layers)| && old(img.layers)[pos] == layer
    ensures layer !in old(img.layers) ==> pos == 0
    ensures img.layers == old(img.layers)[..pos] + [blue, green, red] + old(img.layers)[pos..]
    ensures img.log == old(img.log) + [ProgressInit(ProgressLabel(layer.name)), UndoGroupStart]
  {
    img.Emit(ProgressInit(ProgressLabel(layer.name)));
    img.Emit(UndoGroupStart);
    pos := LayerPosition(img, layer);
    red := new Layer(layer.name + " Red", layer.width, layer.height, layer.kind, layer.bpp, layer.opacity, layer.mode);
    green := new Layer(layer.name + " Green", layer.width, layer.height, layer.kind, layer.bpp, layer.opacity, layer.mode);
    blue := new Layer(layer.name + " Blue", layer.width, layer.height, layer.kind, layer.bpp, layer.opacity, layer.mode);
    InsertChannels(img, pos, red, green, blue);
  }

  /** The three add_layer calls at the same position: Red first, Blue last,
      so that Blue ends up on top. */
  method InsertChannels(img: Image, pos: nat, red: Layer, green: Layer, blue: Layer)
    requires img.Valid() && pos <= |img.layers|
    requires red !in img.layers && green !in img.layers && blue !in img.layers
    requires red != green && green != blue && red != blue
    modifies img`layers
    ensures img.Valid()
    ensures img.layers == old(img.layers)[..pos] + [blue, green, red] + old(img.layers)[pos..]
  {
    ghost var before := img.layers;
    InsertKeepsDistinct(img.layers, pos, red);
    img.AddLayer(red, pos);
    InsertKeepsDistinct(img.layers, pos, green);
    img.AddLayer(green, pos);
    InsertKeepsDistinct(img.layers, pos, blue);
    img.AddLayer(blue, pos);
    InsertThreeAt(before, pos, red, green, blue);
  }

  /** split_channels. The selected layer itself is neither changed nor
      removed. After the tile loops the plugin calls flush, merge_shadow and
      update on the last tile handles; `tileCallsRaise` says whether the host
      refuses them. */
  method SplitChannels(img: Image, layer: Layer, tileCallsRaise: bool)
    returns (fault: Option<Fault>, pos: nat, red: Layer, green: Layer, blue: Layer)
    requires img.Valid() && layer.Valid()
    modifies img
    ensures img.Valid() && fresh(red) && fresh(green) && fresh(blue) && Outputs(layer, red, green, blue)
    ensures red.name == layer.name + " Red" && green.name == layer.name + " Green" && blue.name == layer.name + " Blue"
    ensures red.kind == green.kind == blue.kind == layer.kind
    ensures red.opacity == green.opacity == blue.opacity == layer.opacity
    ensures red.mode == green.mode == blue.mode == layer.mode
    ensures layer in old(img.layers) ==> pos < |old(img.layers)| && old(img.layers)[pos] == layer
    ensures layer !in old(img.layers) ==> pos == 0
    ensures img.layers == old(img.layers)[..pos] + [blue, green, red] + old(img.layers)[pos..]
    ensures layer.pixels == old(layer.pixels) && layer.name == old(layer.name)
    ensures layer.bpp < 3 ==>
      fault == Some(IndexOutOfRange) && red.pixels == green.pixels == blue.pixels == Blank(layer.width, layer.height, layer.bpp)
    ensures layer.bpp >= 3 ==> fault == (if tileCallsRaise then Some(HostRejected) else None)
    ensures layer.bpp >= 3 ==> red.pixels == MapGrid(ToRed, layer.pixels, layer.width, layer.height, layer.bpp)
    ensures layer.bpp >= 3 ==> green.pixels == MapGrid(ToGreen, layer.pixels, layer.width, layer.height, layer.bpp)
    ensures layer.bpp >= 3 ==> blue.pixels == MapGrid(ToBlue, layer.pixels, layer.width, layer.height, layer.bpp)
    ensures Extends(old(img.log), img.log, ProgressLabel(layer.name),
                    TileCount(layer.width, TileSize) * TileCount(layer.height, TileSize), fault)
    ensures var total := TileCount(layer.width, TileSize) * TileCount(layer.height, TileSize);
      1 <= total &&
      img.log == old(img.log) + RunEvents(ProgressLabel(layer.name), total, if layer.bpp < 3 then 1 else total, fault)
  {
    ghost var log0 := img.log;
    pos, red, green, blue := AddChannelLayers(img, layer);

    // try
    var failed, steps := SplitPass(img, layer, red, green, blue);
    TileCountIsCeiling(layer.width, TileSize);
    TileCountIsCeiling(layer.height, TileSize);
    MulMonotone(1, TileCount(layer.width, TileSize), TileCount(layer.height, TileSize));
    if failed {
      fault := Some(IndexOutOfRange);
    } else if tileCallsRaise {
      fault := Some(HostRejected);
    } else {
      fault := None;
    }
    Finish(img, fault);
    ghost var total := TileCount(layer.width, TileSize) * TileCount(layer.height, TileSize);
    assert img.log == log0 + RunEvents(ProgressLabel(layer.name), total, steps, fault);
    RunEventsExtend(log0, ProgressLabel(layer.name), total, steps, fault);
  }
}
