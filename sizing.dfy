/**
 * The "shrink to fit" guard of the icon scripts' `resize_max`: an image whose longer side
 * exceeds the bound is scaled down by the ratio of the bound to that side, each side
 * truncated to an integer; any other image is left alone.
 * Only the decision and the target size are modelled; the resampling is Pillow's.
 * The target size is computed in exact arithmetic, as the floor of w·max_px / max(w, h).
 */
module Sizing {
  import opened Pixels
  import opened Arith

  /** What a resize guard does to an image: leave it alone, or resize it to w×h. */
  datatype Resize = Keep | Scale(w: nat, h: nat)

  /**
   * The size `resize_max(img, max_px)` gives a w×h image (both sides at least 1,
   * since every image reaching it was decoded from a file).
   */
  function FitWithin(w: nat, h: nat, maxPx: nat): (r: Resize)
    requires w >= 1 && h >= 1 && maxPx >= 1
    ensures r.Keep? <==> Max(w, h) <= maxPx
    ensures r.Scale? ==> r.w <= maxPx && r.h <= maxPx
    ensures r.Scale? ==> r.w < w && r.h < h
    ensures r.Scale? ==> Max(r.w, r.h) == maxPx
    ensures r.Scale? ==> r == Scale(ScaledSide(w, maxPx, Max(w, h)), ScaledSide(h, maxPx, Max(w, h)))
  {
    var m := Max(w, h);
    if maxPx < m then
      Scale(ScaledSide(w, maxPx, m), ScaledSide(h, maxPx, m))
    else
      Keep
  }

  /**
   * One side s of an image whose longer side is m, scaled by k / m (k < m) and truncated:
   * `int(s * (k / m))` in exact arithmetic.
   */
  function ScaledSide(s: nat, k: nat, m: nat): (q: nat)
    requires 1 <= s <= m && 1 <= k < m
    ensures q <= k && q < s
    ensures s == m ==> q == k
    ensures q * m <= s * k < (q + 1) * m
  {
    var q := Quotient(s * k, m);
    ScaledSideBounds(s, k, m, q);
    q
  }

  /** The bracket of s·k / m puts the truncated side at most k, below s, and at k when s is m. */
  lemma ScaledSideBounds(s: nat, k: nat, m: nat, q: nat)
    requires 1 <= s <= m && 1 <= k < m
    requires q * m <= s * k < (q + 1) * m
    ensures q <= k && q < s
    ensures s == m ==> q == k
  {
    var a := s * k;
    assert a <= m * k by { MulMonotone(k, s, m); }
    assert a < m * s by { MulMonotone(s, k, m - 1); }
    assert m * q <= a < m * q + m;
    MulCancel(m, q, k + 1);
    MulCancel(m, q, s);
    if s == m {
      MulCancel(m, k, q + 1);
    }
  }

  /** A shrunk image passes the same guard untouched: resizing to fit is idempotent. */
  lemma FitWithinIdempotent(w: nat, h: nat, maxPx: nat)
    requires w >= 1 && h >= 1 && maxPx >= 1
    requires FitWithin(w, h, maxPx).Scale?
    requires FitWithin(w, h, maxPx).w >= 1 && FitWithin(w, h, maxPx).h >= 1
    ensures FitWithin(FitWithin(w, h, maxPx).w, FitWithin(w, h, maxPx).h, maxPx) == Keep
  {
  }
}
