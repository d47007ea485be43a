/** Per-pixel channel transforms: the grayscale average shared by the four
    discolour variants and the red/green/blue split of split_channels.
    A pixel is the host's byte string for one (x, y): one byte per channel,
    colour channels first, then alpha or any other extra channel. */
module Pixels {

  type Pixel = seq<nat>

  /** Every channel of `p` is a byte. */
  predicate IsBytes(p: Pixel) {
    forall k :: 0 <= k < |p| ==> p[k] < 256
  }

  /** The mean of three channels, truncated as Python 2's `/` truncates naturals. */
  function Mean3(a: nat, b: nat, c: nat): (g: nat)
    ensures 3 * g <= a + b + c < 3 * g + 3
  {
    (a + b + c) / 3
  }

  function Min3(a: nat, b: nat, c: nat): nat {
    if a <= b && a <= c then a else if b <= c then b else c
  }

  function Max3(a: nat, b: nat, c: nat): nat {
    if a >= b && a >= c then a else if b >= c then b else c
  }

  /** The gray pixel: the three colour channels replaced by their truncated
      mean, the extra channels appended in their original order. */
  function Gray(p: Pixel): (r: Pixel)
    requires |p| >= 3
    ensures |r| == |p|
    ensures r[3..] == p[3..]
  {
    var g := Mean3(p[0], p[1], p[2]);
    [g, g, g] + p[3..]
  }

  /** Red output of split_channels: channel 0 kept, 1 and 2 zeroed. */
  function SplitRed(p: Pixel): (r: Pixel)
    requires |p| >= 3
    ensures |r| == |p| && r[3..] == p[3..]
  {
    [p[0], 0, 0] + p[3..]
  }

  /** Green output of split_channels: channel 1 kept, 0 and 2 zeroed. */
  function SplitGreen(p: Pixel): (r: Pixel)
    requires |p| >= 3
    ensures |r| == |p| && r[3..] == p[3..]
  {
    [0, p[1], 0] + p[3..]
  }

  /** Blue output of split_channels: channel 2 kept, 0 and 1 zeroed. */
  function SplitBlue(p: Pixel): (r: Pixel)
    requires |p| >= 3
    ensures |r| == |p| && r[3..] == p[3..]
  {
    [0, 0, p[2]] + p[3..]
  }

  /** Channel-wise sum of the three colour channels of three split outputs,
      followed by the extra channels of the first: the inverse of the split. */
  function Recombine(r: Pixel, g: Pixel, b: Pixel): Pixel
    requires |r| >= 3 && |g| >= 3 && |b| >= 3
  {
    [r[0] + g[0] + b[0], r[1] + g[1] + b[1], r[2] + g[2] + b[2]] + r[3..]
  }

  /** The gray value is the floor of the mean: all three colour channels of
      the output equal it, and it lies between the smallest and largest input
      channel, so a byte pixel stays a byte pixel. */
  lemma GrayIsFlooredMean(p: Pixel)
    requires |p| >= 3
    ensures var r := Gray(p);
      r[0] == r[1] == r[2] &&
      3 * r[0] <= p[0] + p[1] + p[2] < 3 * r[0] + 3
    ensures Min3(p[0], p[1], p[2]) <= Gray(p)[0] <= Max3(p[0], p[1], p[2])
    ensures IsBytes(p) ==> IsBytes(Gray(p))
  {
    var r := Gray(p);
    var g := Mean3(p[0], p[1], p[2]);
    assert r[0] == g && r[1] == g && r[2] == g;
    var lo, hi := Min3(p[0], p[1], p[2]), Max3(p[0], p[1], p[2]);
    assert 3 * lo <= p[0] + p[1] + p[2] <= 3 * hi;
    if IsBytes(p) {
      forall k | 0 <= k < |r| ensures r[k] < 256 {
        if k >= 3 {
          assert r[k] == r[3..][k - 3] == p[3..][k - 3] == p[k];
        }
      }
    }
  }

  /** Gray pixels are exactly the fixed points of the transform. */
  lemma GrayFixedPoint(p: Pixel)
    requires |p| >= 3
    ensures Gray(p) == p <==> p[0] == p[1] == p[2]
  {
    var r := Gray(p);
    assert r[0] == Mean3(p[0], p[1], p[2]) && r[1] == r[0] && r[2] == r[0];
    if p[0] == p[1] == p[2] {
      assert Mean3(p[0], p[1], p[2]) == p[0];
      assert r == r[..3] + r[3..];
      assert p == p[..3] + p[3..];
    }
  }

  /** Converting twice converts once. */
  lemma GrayIdempotent(p: Pixel)
    requires |p| >= 3
    ensures Gray(Gray(p)) == Gray(p)
  {
    var r := Gray(p);
    assert r[0] == r[1] == r[2] by { GrayIsFlooredMean(p); }
    GrayFixedPoint(r);
  }

  /** Each split output keeps exactly its own colour channel, and the three
      outputs add up channel by channel to the input: recombining them gives
      the original pixel back, extra channels included. */
  lemma SplitRoundTrip(p: Pixel)
    requires |p| >= 3
    ensures forall k :: 0 <= k < 3 ==>
      SplitRed(p)[k] == (if k == 0 then p[k] else 0) &&
      SplitGreen(p)[k] == (if k == 1 then p[k] else 0) &&
      SplitBlue(p)[k] == (if k == 2 then p[k] else 0)
    ensures Recombine(SplitRed(p), SplitGreen(p), SplitBlue(p)) == p
    ensures IsBytes(p) ==> IsBytes(SplitRed(p)) && IsBytes(SplitGreen(p)) && IsBytes(SplitBlue(p))
  {
    var r := Recombine(SplitRed(p), SplitGreen(p), SplitBlue(p));
    assert r[..3] == p[..3];
    assert r == r[..3] + r[3..];
    assert p == p[..3] + p[3..];
    if IsBytes(p) {
      forall k | 3 <= k < |p| ensures SplitRed(p)[k] == p[k] == SplitGreen(p)[k] == SplitBlue(p)[k] {
        assert SplitRed(p)[3..][k - 3] == p[3..][k - 3];
        assert SplitGreen(p)[3..][k - 3] == p[3..][k - 3];
        assert SplitBlue(p)[3..][k - 3] == p[3..][k - 3];
      }
    }
  }

  /** The loop that appends channels 3, 4, ... of `pixel` one by one to the
      output pixel `head` (`res += pixel[k+3]`), in their original order. */
  method AppendExtras(head: Pixel, pixel: Pixel) returns (res: Pixel)
    ensures |pixel| >= 3 ==> res == head + pixel[3..]
    ensures |pixel| <= 3 ==> res == head
  {
    res := head;
    if |pixel| > 3 {
      var k := 0;
      while k < |pixel| - 3
        invariant 0 <= k <= |pixel| - 3
        invariant res == head + pixel[3..3 + k]
      {
        res := res + [pixel[k + 3]];
        k := k + 1;
      }
    }
  }
}
