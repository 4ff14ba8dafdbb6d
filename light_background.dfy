/**
 * The light / washed-out background rule that tools/make_outline_symbols.py,
 * tools/extract_symbols.py and tools/extract_symbols5.py each carry a copy of:
 * a pixel is background when `mean > 230`, or when `mean > 200` and `max - min < 24`.
 */
module LightBackground {
  import opened Pixels
  import Raster

  /** The rule as the scripts write it, with `mean = (r + g + b) / 3` as a real number. */
  ghost predicate ByMean(p: Rgba)
  {
    Mean(p) > 230.0 || (Mean(p) > 200.0 && Sat(p) < 24)
  }

  /** The same rule in integers: `mean > 230` is `r + g + b > 690`, `mean > 200` is `r + g + b > 600`. */
  predicate IsBackground(p: Rgba)
  {
    Sum(p) > 690 || (Sum(p) > 600 && Sat(p) < 24)
  }

  /** The integer rule decides exactly what the mean-based rule decides, on every pixel. */
  lemma IsBackgroundByMean(p: Rgba)
    ensures IsBackground(p) <==> ByMean(p)
  {
  }

  /** Mask cell written for one pixel: `0 if bg else 255`. */
  function MaskValue(p: Rgba): (v: byte)
    ensures v == 0 || v == 255
    ensures v == 0 <==> IsBackground(p)
  {
    if IsBackground(p) then 0 else 255
  }

  /** Pure white is background whatever its alpha; pure blue is not. */
  lemma WhiteIsBackgroundBlueIsNot(a: byte)
    ensures IsBackground(Rgba(255, 255, 255, a))
    ensures !IsBackground(Rgba(0, 0, 255, a))
  {
  }

  /**
   * A pixel with a zero channel (every fully saturated colour) fails both sub-rules,
   * since its channel sum is at most 510.
   */
  lemma ZeroChannelIsSubject(p: Rgba)
    requires p.r == 0 || p.g == 0 || p.b == 0
    ensures !IsBackground(p) && MaskValue(p) == 255
  {
  }

  /** The brightness sub-rule alone: every pixel with all channels above 230 is background. */
  lemma AllAbove230IsBackground(p: Rgba)
    requires p.r > 230 && p.g > 230 && p.b > 230
    ensures IsBackground(p)
  {
  }

  /**
   * The raw mask each of the three scripts builds before its median filter and blur:
   * a new all-zero "L" mask in which every cell becomes 0 over a background pixel and
   * 255 over any other.
   */
  method CleanBackground(img: array2<Rgba>) returns (m: array2<byte>)
    ensures m.Length0 == img.Length0 && m.Length1 == img.Length1
    ensures forall x, y :: 0 <= x < m.Length0 && 0 <= y < m.Length1 ==>
              (m[x, y] == 0 || m[x, y] == 255) && (m[x, y] == 0 <==> IsBackground(img[x, y]))
  {
    m := Raster.Fill(img, 0, MaskValue);
  }
}
