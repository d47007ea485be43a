/** The host's tile grid over one axis of a layer: how many tiles of nominal
    size `t` cover `n` pixels, and the effective extent of each (the last one
    may be shorter). The same functions serve columns (width, tile width) and
    rows (height, tile height). */
module Tiles {
  import opened Arith

  /** `n / t`, plus one when a partial tile is left over: the count
      discolour_layer_v4 and split_channels compute. */
  function TileCount(n: nat, t: nat): nat
    requires t > 0
  {
    n / t + (if n % t > 0 then 1 else 0)
  }

  /** The count is the ceiling of `n / t`: the tiles reach at least `n`, the
      last one starts before `n`, and there are none exactly when `n` is 0. */
  lemma TileCountIsCeiling(n: nat, t: nat)
    requires t > 0
    ensures TileCount(n, t) * t >= n
    ensures n > 0 ==> (TileCount(n, t) - 1) * t < n
    ensures TileCount(n, t) == 0 <==> n == 0
  {
    var q, r := n / t, n % t;
    assert n == q * t + r;
    assert (q + 1) * t == q * t + t;
    if r == 0 && q > 0 {
      assert (q - 1) * t == q * t - t;
    }
  }

  /** Tile `i` starts inside the raster. */
  lemma TileStartsInside(n: nat, t: nat, i: nat)
    requires t > 0 && i < TileCount(n, t)
    ensures i * t < n
  {
    TileCountIsCeiling(n, t);
    MulMonotone(i, TileCount(n, t) - 1, t);
  }

  /** The effective extent of tile `i`: the nominal size, or what is left of
      the raster at its right or bottom edge. */
  function Extent(n: nat, t: nat, i: nat): (e: nat)
    requires t > 0 && i < TileCount(n, t)
    ensures 0 < e <= t && i * t + e <= n
  {
    TileStartsInside(n, t, i);
    if t <= n - i * t then t else n - i * t
  }

  /** Tile `i` ends where tile `i + 1` starts, or at the edge of the raster,
      and the last tile ends exactly at the edge. */
  lemma TileEnd(n: nat, t: nat, i: nat)
    requires t > 0 && i < TileCount(n, t)
    ensures i * t + Extent(n, t, i) == if (i + 1) * t <= n then (i + 1) * t else n
    ensures i + 1 == TileCount(n, t) ==> i * t + Extent(n, t, i) == n
  {
    assert (i + 1) * t == i * t + t;
    if i + 1 == TileCount(n, t) {
      TileCountIsCeiling(n, t);
    }
  }

  /** Every pixel `x < n` lies in tile `x / t`, inside that tile's extent... */
  lemma PixelInTile(n: nat, t: nat, x: nat)
    requires t > 0 && x < n
    ensures x / t < TileCount(n, t)
    ensures (x / t) * t <= x < (x / t) * t + Extent(n, t, x / t)
  {
    var i := x / t;
    assert x == i * t + x % t;
    TileCountIsCeiling(n, t);
    if i >= TileCount(n, t) {
      MulMonotone(TileCount(n, t), i, t);
      assert false;
    }
    assert (i + 1) * t == i * t + t;
  }

  /** ...and in no other tile: the tiles partition `[0, n)`. */
  lemma TileIsUnique(n: nat, t: nat, x: nat, i: nat)
    requires t > 0 && i < TileCount(n, t)
    requires i * t <= x < i * t + Extent(n, t, i)
    ensures x < n && i == x / t
  {
    DivModOf(i, x - i * t, t);
  }
}
