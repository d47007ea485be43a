/** The tile walk shared by discolour_layer_v4 and split_channels: tiles are
    visited column of tiles by column of tiles (`i` over the width, `j` over
    the height), and each visit writes the transformed pixels of that tile's
    effective extent into an output grid that starts out cleared. */
module TileWalk {
  import opened Arith
  import opened Pixels
  import opened Raster
  import opened Tiles

  /** Pixel (px, py) belongs to a tile that the walk visits before tile
      (i, j): an earlier column of tiles, or an earlier tile of column i. */
  predicate Before(px: nat, py: nat, tw: nat, th: nat, i: nat, j: nat)
    requires tw > 0 && th > 0
  {
    px / tw < i || (px / tw == i && py / th < j)
  }

  /** Pixel (px, py) lies in the rectangle of `ew` by `eh` pixels at (x0, y0). */
  predicate InRect(px: nat, py: nat, x0: nat, y0: nat, ew: nat, eh: nat) {
    x0 <= px < x0 + ew && y0 <= py < y0 + eh
  }

  /** `after` is `before` with the pixels of the rectangle at (x0, y0)
      replaced by `t` of the same pixels of `src`, and nothing else changed. */
  ghost predicate RectWritten(after: Grid, before: Grid, src: Grid, t: Transform, w: nat, h: nat, bpp: nat,
                              x0: nat, y0: nat, ew: nat, eh: nat)
    requires Shaped(src, w, h, bpp) && Shaped(before, w, h, bpp) && bpp >= 3
  {
    Shaped(after, w, h, bpp) &&
    forall px, py {:trigger after[px][py]} :: 0 <= px < w && 0 <= py < h ==>
      after[px][py] == if InRect(px, py, x0, y0, ew, eh) then Apply(t, src[px][py]) else before[px][py]
  }

  /** Part of the rectangle at (x0, y0), `eh` rows high, is written: its
      first `x` columns, and the first `y` pixels of column x. */
  ghost predicate PartWritten(after: Grid, before: Grid, src: Grid, t: Transform, w: nat, h: nat, bpp: nat,
                              x0: nat, y0: nat, eh: nat, x: nat, y: nat)
    requires Shaped(src, w, h, bpp) && Shaped(before, w, h, bpp) && bpp >= 3
  {
    Shaped(after, w, h, bpp) &&
    forall px, py {:trigger after[px][py]} :: 0 <= px < w && 0 <= py < h ==>
      after[px][py] ==
        if InRect(px, py, x0, y0, x, eh) || (px == x0 + x && y0 <= py < y0 + y) then Apply(t, src[px][py])
        else before[px][py]
  }

  /** Nothing of the rectangle is written yet. */
  lemma PartStart(before: Grid, src: Grid, t: Transform, w: nat, h: nat, bpp: nat, x0: nat, y0: nat, eh: nat)
    requires Shaped(src, w, h, bpp) && Shaped(before, w, h, bpp) && bpp >= 3
    ensures PartWritten(before, before, src, t, w, h, bpp, x0, y0, eh, 0, 0)
  {
  }

  /** Writing `t` of source pixel (x0 + x, y0 + y) into its place writes one
      more pixel of column x. */
  lemma PartStep(a: Grid, b: Grid, before: Grid, src: Grid, t: Transform, w: nat, h: nat, bpp: nat,
                 x0: nat, y0: nat, eh: nat, x: nat, y: nat)
    requires Shaped(src, w, h, bpp) && Shaped(before, w, h, bpp) && bpp >= 3
    requires PartWritten(a, before, src, t, w, h, bpp, x0, y0, eh, x, y)
    requires x0 + x < w && y0 + y < h && y < eh
    requires b == a[x0 + x := a[x0 + x][y0 + y := Apply(t, src[x0 + x][y0 + y])]]
    ensures PartWritten(b, before, src, t, w, h, bpp, x0, y0, eh, x, y + 1)
  {
    ApplyKeepsBytes(t, src[x0 + x][y0 + y]);
  }

  /** A fully written column x is the start of column x + 1. */
  lemma PartNextColumn(a: Grid, before: Grid, src: Grid, t: Transform, w: nat, h: nat, bpp: nat,
                       x0: nat, y0: nat, eh: nat, x: nat)
    requires Shaped(src, w, h, bpp) && Shaped(before, w, h, bpp) && bpp >= 3
    requires PartWritten(a, before, src, t, w, h, bpp, x0, y0, eh, x, eh)
    ensures PartWritten(a, before, src, t, w, h, bpp, x0, y0, eh, x + 1, 0)
  {
  }

  /** With all `ew` columns written, the whole rectangle is. */
  lemma PartDone(a: Grid, before: Grid, src: Grid, t: Transform, w: nat, h: nat, bpp: nat,
                 x0: nat, y0: nat, ew: nat, eh: nat)
    requires Shaped(src, w, h, bpp) && Shaped(before, w, h, bpp) && bpp >= 3
    requires PartWritten(a, before, src, t, w, h, bpp, x0, y0, eh, ew, 0)
    ensures RectWritten(a, before, src, t, w, h, bpp, x0, y0, ew, eh)
  {
  }

  /** The output grid before tile (i, j) is visited: the tiles already
      visited hold the transformed pixels, the others are still cleared. */
  ghost predicate WalkedUpTo(g: Grid, src: Grid, t: Transform, w: nat, h: nat, bpp: nat,
                             tw: nat, th: nat, i: nat, j: nat)
    requires Shaped(src, w, h, bpp) && bpp >= 3 && tw > 0 && th > 0
  {
    Shaped(g, w, h, bpp) &&
    forall px, py {:trigger g[px][py]} :: 0 <= px < w && 0 <= py < h ==>
      g[px][py] == if Before(px, py, tw, th, i, j) then Apply(t, src[px][py]) else Blank(w, h, bpp)[px][py]
  }

  /** A pixel of the raster is in the effective extent of tile (i, j)
      exactly when (i, j) is its tile. */
  lemma InTileIff(w: nat, h: nat, tw: nat, th: nat, i: nat, j: nat, px: nat, py: nat)
    requires tw > 0 && th > 0 && i < TileCount(w, tw) && j < TileCount(h, th) && px < w && py < h
    ensures InRect(px, py, i * tw, j * th, Extent(w, tw, i), Extent(h, th, j)) <==> px / tw == i && py / th == j
  {
    PixelInTile(w, tw, px);
    PixelInTile(h, th, py);
    if i * tw <= px < i * tw + Extent(w, tw, i) {
      TileIsUnique(w, tw, px, i);
    }
    if j * th <= py < j * th + Extent(h, th, j) {
      TileIsUnique(h, th, py, j);
    }
  }

  /** Before the first tile nothing has been visited. */
  lemma WalkStart(src: Grid, t: Transform, w: nat, h: nat, bpp: nat, tw: nat, th: nat)
    requires Shaped(src, w, h, bpp) && bpp >= 3 && tw > 0 && th > 0
    ensures WalkedUpTo(Blank(w, h, bpp), src, t, w, h, bpp, tw, th, 0, 0)
  {
    forall px, py | 0 <= px < w && 0 <= py < h
      ensures Blank(w, h, bpp)[px][py] ==
        if Before(px, py, tw, th, 0, 0) then Apply(t, src[px][py]) else Blank(w, h, bpp)[px][py]
    {
      NothingBeforeStart(px, py, tw, th);
    }
  }

  /** No pixel lies before the first tile. */
  lemma NothingBeforeStart(px: nat, py: nat, tw: nat, th: nat)
    requires tw > 0 && th > 0
    ensures !Before(px, py, tw, th, 0, 0)
  {
  }

  /** With row of tiles `py / th` inside the `tm` rows, the pixels before the
      end of column i are those before the start of column i + 1. */
  lemma BeforeNextColumn(px: nat, py: nat, tw: nat, th: nat, i: nat, tm: nat)
    requires tw > 0 && th > 0 && py / th < tm
    ensures Before(px, py, tw, th, i, tm) == Before(px, py, tw, th, i + 1, 0)
  {
  }

  /** Visiting tile (i, j), that is writing its effective extent, moves the
      walk on to tile (i, j + 1): the extent holds exactly the pixels whose
      tile is (i, j), so no pixel is written twice and none is skipped. */
  lemma WalkStep(g0: Grid, g1: Grid, src: Grid, t: Transform, w: nat, h: nat, bpp: nat,
                 tw: nat, th: nat, i: nat, j: nat)
    requires Shaped(src, w, h, bpp) && bpp >= 3 && tw > 0 && th > 0
    requires i < TileCount(w, tw) && j < TileCount(h, th)
    requires WalkedUpTo(g0, src, t, w, h, bpp, tw, th, i, j)
    requires RectWritten(g1, g0, src, t, w, h, bpp, i * tw, j * th, Extent(w, tw, i), Extent(h, th, j))
    ensures WalkedUpTo(g1, src, t, w, h, bpp, tw, th, i, j + 1)
  {
    forall px, py | 0 <= px < w && 0 <= py < h
      ensures g1[px][py] == if Before(px, py, tw, th, i, j + 1) then Apply(t, src[px][py]) else Blank(w, h, bpp)[px][py]
    {
      InTileIff(w, h, tw, th, i, j, px, py);
    }
  }

  /** After the last tile of column i, the walk continues at the top of
      column i + 1. */
  lemma WalkNextColumn(g: Grid, src: Grid, t: Transform, w: nat, h: nat, bpp: nat, tw: nat, th: nat, i: nat)
    requires Shaped(src, w, h, bpp) && bpp >= 3 && tw > 0 && th > 0
    requires WalkedUpTo(g, src, t, w, h, bpp, tw, th, i, TileCount(h, th))
    ensures WalkedUpTo(g, src, t, w, h, bpp, tw, th, i + 1, 0)
  {
    forall px, py | 0 <= px < w && 0 <= py < h
      ensures g[px][py] == if Before(px, py, tw, th, i + 1, 0) then Apply(t, src[px][py]) else Blank(w, h, bpp)[px][py]
    {
      PixelInTile(h, th, py);
      BeforeNextColumn(px, py, tw, th, i, TileCount(h, th));
    }
  }

  /** Once every column of tiles is visited, every pixel has been
      transformed: the output is `t` applied to the whole source grid. */
  lemma WalkDone(g: Grid, src: Grid, t: Transform, w: nat, h: nat, bpp: nat, tw: nat, th: nat)
    requires Shaped(src, w, h, bpp) && bpp >= 3 && tw > 0 && th > 0
    requires WalkedUpTo(g, src, t, w, h, bpp, tw, th, TileCount(w, tw), 0)
    ensures g == MapGrid(t, src, w, h, bpp)
  {
    forall px, py | 0 <= px < w && 0 <= py < h ensures g[px][py] == MapGrid(t, src, w, h, bpp)[px][py] {
      PixelInTile(w, tw, px);
    }
    SameGrid(g, MapGrid(t, src, w, h, bpp), w, h, bpp);
  }
}
