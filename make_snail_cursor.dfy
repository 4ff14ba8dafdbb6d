/**
 * tools/make_snail_cursor.py: cut a manuscript drawing out of its parchment background.
 * Modelled: the paper classifier loop of `compute_mask`, `trim_to_content` given the
 * bounding box, and the width guard of `make_cursor`. `getbbox`, the filters and LANCZOS
 * are Pillow's; the bounding box enters as a parameter.
 */
module MakeSnailCursor {
  import opened Pixels
  import opened Arith
  import opened Raster
  import Sizing

  datatype Option<T> = None | Some(value: T)

  /** `make_cursor`'s default `out_width`. */
  const OutWidth: nat := 96

  /** The paper rule as written, with `mean = (r + g + b) / 3` a real number. */
  ghost predicate PaperByMean(p: Rgba)
  {
    (Mean(p) > 190.0 && Sat(p) < 35) || (p.r > 225 && p.g > 225 && p.b > 225)
  }

  /** `is_paper` in integers: `mean > 190` is `r + g + b > 570`. */
  predicate IsPaper(p: Rgba)
  {
    (Sum(p) > 570 && Sat(p) < 35) || (p.r > 225 && p.g > 225 && p.b > 225)
  }

  lemma IsPaperByMean(p: Rgba)
    ensures IsPaper(p) <==> PaperByMean(p)
  {
  }

  /**
   * The second clause adds nothing: channels all above 225 lie within 29 of each other
   * and sum to more than 570, so they already satisfy the first clause.
   */
  lemma BrightClauseRedundant(p: Rgba)
    ensures IsPaper(p) <==> Sum(p) > 570 && Sat(p) < 35
  {
    if p.r > 225 && p.g > 225 && p.b > 225 {
      assert Max3(p.r, p.g, p.b) <= 255 && Min3(p.r, p.g, p.b) >= 226;
    }
  }

  /** `0 if is_paper else 255`. */
  function MaskValue(p: Rgba): (v: byte)
    ensures v == 0 || v == 255
    ensures v == 0 <==> IsPaper(p)
  {
    if IsPaper(p) then 0 else 255
  }

  /** White and light grey are paper; anything with channel sum 570 or less is kept. */
  lemma PaperExamples(a: byte, p: Rgba)
    ensures IsPaper(Rgba(255, 255, 255, a)) && IsPaper(Rgba(230, 230, 230, a))
    ensures Sum(p) <= 570 ==> !IsPaper(p) && MaskValue(p) == 255
  {
  }

  /** A saturated pixel is kept unless all three channels exceed 225. */
  lemma SaturatedIsKept(p: Rgba)
    requires Sat(p) >= 35
    ensures !IsPaper(p)
  {
    BrightClauseRedundant(p);
  }

  /** The raw mask of `compute_mask`, before the median, max and blur filters. */
  method ComputeMask(img: array2<Rgba>) returns (m: array2<byte>)
    ensures m.Length0 == img.Length0 && m.Length1 == img.Length1
    ensures forall x, y :: 0 <= x < m.Length0 && 0 <= y < m.Length1 ==>
              (m[x, y] == 0 || m[x, y] == 255) && (m[x, y] == 0 <==> IsPaper(img[x, y]))
  {
    m := Raster.Fill(img, 0, MaskValue);
  }

  /**
   * `trim_to_content(img, mask)` with `bbox = mask.getbbox()`: no box (an all-zero mask)
   * leaves both as they are; otherwise both are cropped to the same box.
   */
  function TrimToContent(img: Plane<Rgba>, mask: Plane<byte>, w: nat, h: nat, bbox: Option<Box>): (r: (Plane<Rgba>, Plane<byte>))
    requires Shaped(img, w, h) && Shaped(mask, w, h)
    requires bbox.Some? ==> BoxWithin(bbox.value, w, h)
    ensures bbox.None? ==> r == (img, mask)
    ensures bbox.Some? ==>
              var bx := bbox.value;
              Shaped(r.0, bx.right - bx.left, bx.lower - bx.upper) &&
              Shaped(r.1, bx.right - bx.left, bx.lower - bx.upper) &&
              (forall i, j :: 0 <= i < bx.right - bx.left && 0 <= j < bx.lower - bx.upper ==>
                r.0[i][j] == img[bx.left + i][bx.upper + j] && r.1[i][j] == mask[bx.left + i][bx.upper + j])
  {
    if bbox.None? then (img, mask) else (Crop(img, bbox.value), Crop(mask, bbox.value))
  }

  /** The trimmed image and mask always have the same size. */
  lemma TrimKeepsPairAligned(img: Plane<Rgba>, mask: Plane<byte>, w: nat, h: nat, bbox: Option<Box>)
    requires Shaped(img, w, h) && Shaped(mask, w, h)
    requires bbox.Some? ==> BoxWithin(bbox.value, w, h)
    ensures SameShape(TrimToContent(img, mask, w, h, bbox).0, TrimToContent(img, mask, w, h, bbox).1)
  {
  }

  /**
   * The width guard of `make_cursor`: images no wider than `out_width` are kept; wider ones
   * become `out_width` wide and `int(h * (out_width / w))` high, in exact arithmetic.
   */
  function CursorResize(w: nat, h: nat, outWidth: nat): (r: Sizing.Resize)
    ensures r.Keep? <==> w <= outWidth
    ensures r.Scale? ==> r.w == outWidth && r.h <= h
    ensures r.Scale? ==> r.h * w <= h * outWidth < (r.h + 1) * w
  {
    if w > outWidth then
      var a := h * outWidth;
      assert a <= w * h by { MulMonotone(h, outWidth, w); }
      DivAtMost(a, w, h);
      QuotientBracket(a, w);
      assert (a / w) * w == w * (a / w) && (a / w + 1) * w == w * (a / w) + w;
      Sizing.Scale(outWidth, a / w)
    else
      Sizing.Keep
  }

  /** Width-limited images stay width-limited: the guard is idempotent. */
  lemma CursorResizeIdempotent(w: nat, h: nat, outWidth: nat)
    requires CursorResize(w, h, outWidth).Scale?
    ensures CursorResize(CursorResize(w, h, outWidth).w, CursorResize(w, h, outWidth).h, outWidth) == Sizing.Keep
  {
  }
}
