/** Rounding of instants to analysis-window boundaries.
    Time is measured in integer ticks and the analysis window `w` is a
    positive number of ticks, so every rounded instant is an exact multiple
    of `w` and every slice count is an exact quotient. */
module Rounding {

  /** The number of windows needed to reach `x` from 0: the ceiling of x / w. */
  function CeilDiv(x: int, w: int): (q: int)
    requires w > 0
    ensures (q - 1) * w < x <= q * w
  {
    var q := (x + w - 1) / w;
    assert q * w <= x + w - 1 < q * w + w;
    q
  }

  /** `rounddown`: the largest window boundary at or before `x`. */
  function RoundDown(x: int, w: int): (r: int)
    requires w > 0
    ensures r % w == 0
    ensures r <= x < r + w
  {
    MultipleHasNoRemainder(x / w, w);
    (x / w) * w
  }

  /** `roundup`: the smallest window boundary at or after `x`. */
  function RoundUp(x: int, w: int): (r: int)
    requires w > 0
    ensures r % w == 0
    ensures r - w < x <= r
  {
    MultipleHasNoRemainder(CeilDiv(x, w), w);
    CeilDiv(x, w) * w
  }

  /** The number of slices emitted for a span of `d` ticks: Python's
      `range(int(d / w))`, which is empty when the quotient is not positive. */
  function SliceCount(d: int, w: int): (n: nat)
    requires w > 0
    ensures d <= 0 ==> n == 0
    ensures d > 0 ==> n * w <= d < n * w + w
  {
    if d <= 0 then 0 else d / w
  }

  /** A multiple of the window by a nonzero factor is at least a window away from 0. */
  lemma ScaledAway(d: int, w: int)
    requires w > 0
    ensures d >= 1 ==> d * w >= w
    ensures d <= -1 ==> d * w <= -w
    ensures d == 0 ==> d * w == 0
  {
    if d >= 1 {
      assert d * w - w == (d - 1) * w;
    } else if d <= -1 {
      assert d * w + w == (d + 1) * w;
    }
  }

  lemma MultipleHasNoRemainder(k: int, w: int)
    requires w > 0
    ensures (k * w) % w == 0 && (k * w) / w == k
  {
    var q, r := (k * w) / w, (k * w) % w;
    assert k * w == q * w + r;
    assert (k - q) * w == r;
    ScaledAway(k - q, w);
  }

  /** Comparing multiples of the window compares the multipliers. */
  lemma MultipleLess(a: int, b: int, w: int)
    requires w > 0
    ensures a * w < b * w <==> a < b
  {
    assert b * w - a * w == (b - a) * w;
    ScaledAway(b - a, w);
  }

  /** The slice count of a span between two window boundaries is the number
      of windows between them, or zero when the span is negative. */
  lemma {:induction false} SliceCountOfMultiples(a: int, b: int, w: int)
    requires w > 0
    ensures SliceCount(a * w - b * w, w) == if a >= b then a - b else 0
  {
    assert a * w - b * w == (a - b) * w;
    MultipleLess(a, b, w);
    if a > b {
      MultipleHasNoRemainder(a - b, w);
    }
  }

  /** Rounding is monotone, and rounding down never passes rounding up. */
  lemma RoundingMonotone(x: int, y: int, w: int)
    requires w > 0
    requires x <= y
    ensures x / w <= y / w
    ensures CeilDiv(x, w) <= CeilDiv(y, w)
    ensures x / w <= CeilDiv(y, w)
  {
    FloorMonotone(x, y, w);
    CeilMonotone(x, y, w);
    FloorBelowCeil(y, w);
  }

  lemma FloorMonotone(x: int, y: int, w: int)
    requires w > 0 && x <= y
    ensures x / w <= y / w
  {
    var fx, fy := x / w, y / w;
    assert fx * w <= x && y < fy * w + w;
    assert fy * w + w == (fy + 1) * w;
    MultipleLess(fx, fy + 1, w);
  }

  lemma CeilMonotone(x: int, y: int, w: int)
    requires w > 0 && x <= y
    ensures CeilDiv(x, w) <= CeilDiv(y, w)
  {
    var cx, cy := CeilDiv(x, w), CeilDiv(y, w);
    assert (cx - 1) * w < cy * w;
    MultipleLess(cx - 1, cy, w);
  }

  lemma FloorBelowCeil(x: int, w: int)
    requires w > 0
    ensures x / w <= CeilDiv(x, w)
  {
    var f, c := x / w, CeilDiv(x, w);
    assert f * w <= x <= c * w;
    MultipleLess(c, f, w);
  }
}
