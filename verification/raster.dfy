/** A layer's pixel grid, the per-pixel transforms lifted to whole grids, and
    the flat byte buffer that discolour_layer_v3 builds from a pixel region,
    where pixel (x, y) occupies bytes `(x * H + y) * bpp` up to the next chunk. */
module Raster {
  import opened Pixels
  import opened Arith

  /** Column-major pixel grid: `g[x][y]` is the pixel at column x, row y. */
  type Grid = seq<seq<Pixel>>

  /** `g` is a w by h grid of byte pixels with `bpp` channels each. */
  predicate Shaped(g: Grid, w: nat, h: nat, bpp: nat) {
    |g| == w &&
    (forall x :: 0 <= x < w ==> |g[x]| == h) &&
    (forall x, y :: 0 <= x < w && 0 <= y < h ==> |g[x][y]| == bpp && IsBytes(g[x][y]))
  }

  /** The four per-pixel transforms of the plugins. */
  datatype Transform = ToGray | ToRed | ToGreen | ToBlue

  function Apply(t: Transform, p: Pixel): (r: Pixel)
    requires |p| >= 3
    ensures |r| == |p|
  {
    match t
    case ToGray => Gray(p)
    case ToRed => SplitRed(p)
    case ToGreen => SplitGreen(p)
    case ToBlue => SplitBlue(p)
  }

  /** Each transform maps byte pixels to byte pixels of the same length. */
  lemma ApplyKeepsBytes(t: Transform, p: Pixel)
    requires |p| >= 3 && IsBytes(p)
    ensures IsBytes(Apply(t, p))
  {
    match t
    case ToGray => GrayIsFlooredMean(p);
    case _ => SplitRoundTrip(p);
  }

  /** The grid with `t` applied to every pixel. */
  function MapGrid(t: Transform, g: Grid, w: nat, h: nat, bpp: nat): (r: Grid)
    requires Shaped(g, w, h, bpp) && bpp >= 3
    ensures Shaped(r, w, h, bpp)
    ensures forall x, y :: 0 <= x < w && 0 <= y < h ==> r[x][y] == Apply(t, g[x][y])
  {
    var r := seq(w, x requires 0 <= x < w => seq(h, y requires 0 <= y < h => Apply(t, g[x][y])));
    assert forall x, y :: 0 <= x < w && 0 <= y < h ==> r[x][y] == Apply(t, g[x][y]);
    forall x, y | 0 <= x < w && 0 <= y < h ensures IsBytes(r[x][y]) {
      ApplyKeepsBytes(t, g[x][y]);
    }
    r
  }

  /** Two grids of the same shape that agree on every pixel are equal. */
  lemma SameGrid(a: Grid, b: Grid, w: nat, h: nat, bpp: nat)
    requires Shaped(a, w, h, bpp) && Shaped(b, w, h, bpp)
    requires forall x, y :: 0 <= x < w && 0 <= y < h ==> a[x][y] == b[x][y]
    ensures a == b
  {
    forall x | 0 <= x < w ensures a[x] == b[x] { }
  }

  /** The grid a freshly created and cleared layer holds. */
  function Blank(w: nat, h: nat, bpp: nat): (r: Grid)
    ensures Shaped(r, w, h, bpp)
    ensures forall x, y, k :: 0 <= x < w && 0 <= y < h && 0 <= k < bpp ==> r[x][y][k] == 0
  {
    seq(w, x => seq(h, y => seq(bpp, k => 0)))
  }

  /** Byte `i` of the flat buffer: chunk `i / bpp` is the pixel slot, whose
      column is `slot / h` and row `slot % h`; `i % bpp` is the channel. */
  function FlatByte(g: Grid, w: nat, h: nat, bpp: nat, i: nat): nat
    requires Shaped(g, w, h, bpp) && h > 0 && bpp > 0 && i < w * h * bpp
  {
    DivBelow(i, w * h, bpp);
    DivBelow(i / bpp, w, h);
    g[i / bpp / h][i / bpp % h][i % bpp]
  }

  /** The region's bytes as one array, slot `x * h + y` holding pixel (x, y). */
  function Flatten(g: Grid, w: nat, h: nat, bpp: nat): (r: seq<nat>)
    requires Shaped(g, w, h, bpp) && h > 0 && bpp > 0
    ensures |r| == w * h * bpp
  {
    seq(w * h * bpp, i requires 0 <= i < w * h * bpp => FlatByte(g, w, h, bpp, i))
  }

  /** The pixel grid that a flat byte buffer writes back into a w by h region. */
  function Unflatten(b: seq<nat>, w: nat, h: nat, bpp: nat): (g: Grid)
    requires |b| == w * h * bpp
    ensures |g| == w && forall x :: 0 <= x < w ==> |g[x]| == h
  {
    seq(w, x requires 0 <= x < w =>
      seq(h, y requires 0 <= y < h =>
        SlotBelow(x, y, w, h, bpp);
        b[(x * h + y) * bpp .. (x * h + y) * bpp + bpp]))
  }

  /** `(x, y)` maps to slot `x * h + y` below `w * h`, and back through
      `slot / h` and `slot % h`: a bijection between the w by h grid and the
      slots of the buffer, so every chunk belongs to exactly one pixel. */
  lemma SlotBijection(x: nat, y: nat, w: nat, h: nat)
    requires x < w && y < h
    ensures x * h + y < w * h
    ensures (x * h + y) / h == x && (x * h + y) % h == y
  {
    SlotBelow(x, y, w, h, 1);
    DivModOf(x, y, h);
  }

  /** Every slot below `w * h` is the slot of the pixel `(s / h, s % h)`. */
  lemma SlotSurjective(s: nat, w: nat, h: nat)
    requires h > 0 && s < w * h
    ensures s / h < w && s % h < h && (s / h) * h + s % h == s
  {
    DivBelow(s, w, h);
  }

  /** Byte `k` of the chunk at pixel (x, y) is channel k of that pixel, and
      the chunk lies inside the buffer. */
  lemma FlatAt(g: Grid, w: nat, h: nat, bpp: nat, x: nat, y: nat, k: nat)
    requires Shaped(g, w, h, bpp) && h > 0 && bpp > 0
    requires x < w && y < h && k < bpp
    ensures (x * h + y) * bpp + bpp <= w * h * bpp
    ensures Flatten(g, w, h, bpp)[(x * h + y) * bpp + k] == g[x][y][k]
  {
    var s := x * h + y;
    SlotBelow(x, y, w, h, bpp);
    DivModOf(s, k, bpp);
    SlotBijection(x, y, w, h);
  }

  /** The flat buffer of the gray grid, chunk by chunk: in the chunk of
      pixel (x, y), bytes 0 to 2 are the floored mean of the source chunk's
      bytes 0 to 2 and the other bytes are the source chunk's own. */
  lemma GrayChunk(g: Grid, w: nat, h: nat, bpp: nat, x: nat, y: nat, k: nat)
    requires Shaped(g, w, h, bpp) && h > 0 && bpp >= 3 && x < w && y < h && k < bpp
    ensures (x * h + y) * bpp + bpp <= w * h * bpp
    ensures var pos, f := (x * h + y) * bpp, Flatten(g, w, h, bpp);
      Flatten(MapGrid(ToGray, g, w, h, bpp), w, h, bpp)[pos + k] ==
        if k < 3 then (f[pos] + f[pos + 1] + f[pos + 2]) / 3 else f[pos + k]
  {
    var p := g[x][y];
    FlatAt(MapGrid(ToGray, g, w, h, bpp), w, h, bpp, x, y, k);
    FlatAt(g, w, h, bpp, x, y, 0);
    FlatAt(g, w, h, bpp, x, y, 1);
    FlatAt(g, w, h, bpp, x, y, 2);
    FlatAt(g, w, h, bpp, x, y, k);
    if k >= 3 {
      assert Gray(p)[k] == Gray(p)[3..][k - 3] == p[3..][k - 3] == p[k];
    }
  }

  /** Pixel (x, y) of the written-back grid is the chunk at its slot. */
  lemma UnflattenAt(b: seq<nat>, w: nat, h: nat, bpp: nat, x: nat, y: nat)
    requires |b| == w * h * bpp && x < w && y < h
    ensures (x * h + y) * bpp + bpp <= |b|
    ensures Unflatten(b, w, h, bpp)[x][y] == b[(x * h + y) * bpp .. (x * h + y) * bpp + bpp]
  {
    SlotBelow(x, y, w, h, bpp);
  }

  /** Writing back the flattened region gives back the region's grid. */
  lemma UnflattenFlatten(g: Grid, w: nat, h: nat, bpp: nat)
    requires Shaped(g, w, h, bpp) && h > 0 && bpp > 0
    ensures Unflatten(Flatten(g, w, h, bpp), w, h, bpp) == g
  {
    var b := Flatten(g, w, h, bpp);
    var u := Unflatten(b, w, h, bpp);
    forall x | 0 <= x < w ensures u[x] == g[x] {
      forall y | 0 <= y < h ensures u[x][y] == g[x][y] {
        PixelFromChunk(g, w, h, bpp, x, y);
      }
    }
  }

  lemma PixelFromChunk(g: Grid, w: nat, h: nat, bpp: nat, x: nat, y: nat)
    requires Shaped(g, w, h, bpp) && h > 0 && bpp > 0 && x < w && y < h
    ensures Unflatten(Flatten(g, w, h, bpp), w, h, bpp)[x][y] == g[x][y]
  {
    var b := Flatten(g, w, h, bpp);
    UnflattenAt(b, w, h, bpp, x, y);
    var pos := (x * h + y) * bpp;
    var c := b[pos .. pos + bpp];
    forall k | 0 <= k < bpp ensures c[k] == g[x][y][k] {
      FlatAt(g, w, h, bpp, x, y, k);
    }
  }

  /** Flattening the grid written back from a byte buffer gives the buffer. */
  lemma FlattenUnflatten(b: seq<nat>, w: nat, h: nat, bpp: nat)
    requires |b| == w * h * bpp && h > 0 && bpp > 0
    requires forall i :: 0 <= i < |b| ==> b[i] < 256
    ensures Shaped(Unflatten(b, w, h, bpp), w, h, bpp)
    ensures Flatten(Unflatten(b, w, h, bpp), w, h, bpp) == b
  {
    UnflattenShaped(b, w, h, bpp);
    var f := Flatten(Unflatten(b, w, h, bpp), w, h, bpp);
    forall i | 0 <= i < |b| ensures f[i] == b[i] {
      ByteFromChunk(b, w, h, bpp, i);
    }
  }

  /** A buffer of bytes writes back a grid of byte pixels. */
  lemma UnflattenShaped(b: seq<nat>, w: nat, h: nat, bpp: nat)
    requires |b| == w * h * bpp
    requires forall i :: 0 <= i < |b| ==> b[i] < 256
    ensures Shaped(Unflatten(b, w, h, bpp), w, h, bpp)
  {
    var g := Unflatten(b, w, h, bpp);
    forall x, y | 0 <= x < w && 0 <= y < h ensures |g[x][y]| == bpp && IsBytes(g[x][y]) {
      UnflattenAt(b, w, h, bpp, x, y);
    }
  }

  lemma ByteFromChunk(b: seq<nat>, w: nat, h: nat, bpp: nat, i: nat)
    requires |b| == w * h * bpp && h > 0 && bpp > 0 && i < |b|
    requires Shaped(Unflatten(b, w, h, bpp), w, h, bpp)
    ensures Flatten(Unflatten(b, w, h, bpp), w, h, bpp)[i] == b[i]
  {
    var g := Unflatten(b, w, h, bpp);
    var s, k := i / bpp, i % bpp;
    SlotSurjective(i, w * h, bpp);
    SlotSurjective(s, w, h);
    var x, y := s / h, s % h;
    assert x * h + y == s;
    assert s * bpp + k == i;
    FlatAt(g, w, h, bpp, x, y, k);
    UnflattenAt(b, w, h, bpp, x, y);
  }
}
