/** Facts about natural-number multiplication, division and remainder that the
    buffer indexing and the tile grid rely on. */
module Arith {

  lemma MulMonotone(a: nat, b: nat, c: nat)
    requires a <= b
    ensures a * c <= b * c
  {
    var d := b - a;
    assert b * c == a * c + d * c;
  }

  /** Quotient and remainder are determined by `q * d + r` with `r < d`. */
  lemma DivModOf(q: nat, r: nat, d: nat)
    requires r < d
    ensures (q * d + r) / d == q && (q * d + r) % d == r
  {
    var a := q * d + r;
    var q', r' := a / d, a % d;
    assert a == q' * d + r';
    if q' > q {
      MulMonotone(q + 1, q', d);
      assert false;
    } else if q' < q {
      MulMonotone(q' + 1, q, d);
      assert false;
    }
  }

  /** An index below `a * b` has a quotient by `b` below `a`. */
  lemma DivBelow(i: nat, a: nat, b: nat)
    requires b > 0 && i < a * b
    ensures i / b < a
  {
    var q := i / b;
    assert q * b + i % b == i;
    if q >= a {
      MulMonotone(a, q, b);
      assert false;
    }
  }

  /** The column-major slot `x * h + y` of a pixel lies inside `w * h`, and so
      does its whole byte chunk inside `w * h * bpp`. */
  lemma SlotBelow(x: nat, y: nat, w: nat, h: nat, bpp: nat)
    requires x < w && y < h
    ensures x * h + y < w * h
    ensures (x * h + y) * bpp + bpp <= w * h * bpp
  {
    MulMonotone(x + 1, w, h);
    assert (x + 1) * h == x * h + h;
    MulMonotone(x * h + y + 1, w * h, bpp);
    assert (x * h + y + 1) * bpp == (x * h + y) * bpp + bpp;
  }
}
