/**
 * tools/make_outline_symbols.py: turns up to four inbox images into outline-only icons.
 * Modelled here: the silhouette threshold, the binarized morphological gradient and its
 * thickening passes, the average subject colour, the 512-pixel resize guard, the keyword
 * ordering of the inputs and the output slot loop. The background classifier loop is
 * `LightBackground.CleanBackground`, shared with the two extract scripts.
 * Pillow's filters and compositing are foreign and enter only as parameters.
 */
module MakeOutlineSymbols {
  import opened Pixels
  import opened Arith
  import opened Raster
  import Sizing
  import opened HintOrder

  const OutFiles: seq<string> := ["about.png", "portfolio.png", "contact.png", "tearsheet.png"]
  /** The hint keywords, in the order `_pick_order` tries them. */
  const Keys: seq<string> := ["about", "portfolio", "contact", "tearsheet"]
  /** `_silhouette`'s default `thr`. */
  const SilhouetteThreshold: int := 8
  /** `_average_subject_color` only counts pixels whose alpha exceeds this. */
  const FaintAlpha: int := 8
  /** "soft leather tan", returned when no pixel is counted. */
  const Fallback: Rgb := Rgb(191, 155, 101)
  /** `_resize_max`'s bound as `_process_one` calls it. */
  const MaxPx: nat := 512
  /** The stroke width `main` passes to `_process_one`. */
  const MainStrokePx: int := 5

  /** `lambda p: 255 if p > thr else 0`. */
  function Threshold(p: byte, thr: int): (v: byte)
    ensures v == 0 || v == 255
    ensures v == 255 <==> p > thr
  {
    if p > thr then 255 else 0
  }

  /** A brighter value never falls below a darker one, and a higher threshold keeps less. */
  lemma ThresholdMonotone(p: byte, q: byte, thr: int, thr': int)
    requires p <= q && thr' <= thr
    ensures Threshold(p, thr) <= Threshold(q, thr)
    ensures Threshold(p, thr) <= Threshold(p, thr')
  {
  }

  /** The silhouette's threshold applied to every cell of a plane, giving a 0/255 mask. */
  function Binarize(a: Plane<byte>, thr: int): (b: Plane<byte>)
    ensures SameShape(a, b)
    ensures forall x, y :: 0 <= x < |a| && 0 <= y < |a[x]| ==> (b[x][y] == 255 <==> a[x][y] > thr)
    ensures forall x, y :: 0 <= x < |a| && 0 <= y < |a[x]| ==> (b[x][y] == 0 <==> a[x][y] <= thr)
  {
    seq(|a|, x requires 0 <= x < |a| =>
      seq(|a[x]|, y requires 0 <= y < |a[x]| => Threshold(a[x][y], thr)))
  }

  /** The silhouette threshold with its default: alpha 9 and above is subject, 8 and below is not. */
  lemma SilhouetteDefault(p: byte)
    ensures Threshold(p, SilhouetteThreshold) == (if p >= 9 then 255 else 0)
  {
  }

  /** `ImageChops.subtract(dil, ero)` on one cell: the difference clipped at 0. */
  function SatSub(a: byte, b: byte): (v: byte)
    ensures v <= a
    ensures v > 0 <==> a > b
    ensures a >= b ==> v == a - b
  {
    if a > b then a - b else 0
  }

  /**
   * The binarized morphological gradient: the clipped difference of the dilated and the
   * eroded plane, thresholded at 0. A cell is on exactly where the dilation exceeds the
   * erosion.
   */
  function Gradient(dil: Plane<byte>, ero: Plane<byte>): (g: Plane<byte>)
    requires SameShape(dil, ero)
    ensures SameShape(dil, g)
    ensures forall x, y :: 0 <= x < |dil| && 0 <= y < |dil[x]| ==> (g[x][y] == 255 <==> dil[x][y] > ero[x][y])
    ensures forall x, y :: 0 <= x < |dil| && 0 <= y < |dil[x]| ==> (g[x][y] == 0 <==> dil[x][y] <= ero[x][y])
  {
    seq(|dil|, x requires 0 <= x < |dil| =>
      seq(|dil[x]|, y requires 0 <= y < |dil[x]| => Threshold(SatSub(dil[x][y], ero[x][y]), 0)))
  }

  /** n applications of a plane filter. */
  function Iterate(f: Plane<byte> -> Plane<byte>, n: nat, p: Plane<byte>): Plane<byte>
  {
    if n == 0 then p else f(Iterate(f, n - 1, p))
  }

  /**
   * `_outline_from_mask`: the gradient of the dilated and the eroded copy of the mask,
   * thickened by one more dilation per pass, with `max(0, stroke_px // 2)` passes. The
   * 3×3 maximum and minimum filters are Pillow's and are passed in; the same maximum
   * filter serves for the first copy and for every pass.
   */
  method OutlineFromMask(mask: Plane<byte>, strokePx: int,
                         dilate: Plane<byte> -> Plane<byte>, erode: Plane<byte> -> Plane<byte>)
    returns (grad: Plane<byte>, passes: nat)
    requires SameShape(dilate(mask), erode(mask))
    ensures passes == Max(0, strokePx / 2)
    ensures grad == Iterate(dilate, passes, Gradient(dilate(mask), erode(mask)))
  {
    var dil := dilate(mask);
    var ero := erode(mask);
    grad := Gradient(dil, ero);
    passes := Max(0, strokePx / 2);
    for i := 0 to passes
      invariant grad == Iterate(dilate, i, Gradient(dil, ero))
    {
      grad := dilate(grad);
    }
  }

  /**
   * Python's `//` floors, so negative widths give no passes, and the width 5 that `main`
   * uses thickens exactly as often as the default width 4.
   */
  lemma StrokePasses(strokePx: int)
    ensures strokePx <= 1 ==> Max(0, strokePx / 2) == 0
    ensures strokePx >= 0 ==> 2 * Max(0, strokePx / 2) <= strokePx < 2 * Max(0, strokePx / 2) + 2
    ensures Max(0, MainStrokePx / 2) == Max(0, 4 / 2) == 2
  {
  }

  /**
   * The pixels the statistic counts, those the mask `a.point(lambda p: 255 if p > 8 else 0)`
   * lets through, in their order; `CountedMultiplicity` states that each is kept as often
   * as it occurs and that no other pixel is.
   */
  function Counted(px: seq<Rgba>): (c: seq<Rgba>)
    ensures |c| <= |px|
    ensures forall i :: 0 <= i < |c| ==> c[i].a > FaintAlpha
  {
    if |px| == 0 then []
    else
      var last := px[|px| - 1];
      var c := Counted(px[..|px| - 1]);
      if last.a > FaintAlpha then c + [last] else c
  }

  /** Every pixel with alpha above 8 is counted as often as it occurs; no other pixel is. */
  lemma {:induction false} CountedMultiplicity(px: seq<Rgba>)
    ensures forall q :: multiset(Counted(px))[q] == (if q.a > FaintAlpha then multiset(px)[q] else 0)
    ensures forall q :: q in Counted(px) <==> q in px && q.a > FaintAlpha
  {
    if |px| > 0 {
      var init, last := px[..|px| - 1], px[|px| - 1];
      CountedMultiplicity(init);
      assert px == init + [last];
      assert multiset(px) == multiset(init) + multiset{last};
    }
  }

  /** The total of one band over some pixels. */
  function BandSum(ps: seq<Rgba>, c: Channel): (s: nat)
    ensures s <= 255 * |ps|
  {
    if |ps| == 0 then 0 else BandSum(ps[..|ps| - 1], c) + Band(ToRgb(ps[|ps| - 1]), c)
  }

  /** q is the integer part of the mean of n values totalling s: q·n <= s < (q + 1)·n. */
  predicate TruncatedMean(q: int, s: int, n: nat)
  {
    q * n <= s < (q + 1) * n
  }

  /** `int(sum / n)` for a band total of n bytes: the truncated mean, itself a byte. */
  function MeanBand(s: nat, n: nat): (q: byte)
    requires n > 0 && s <= 255 * n
    ensures TruncatedMean(q, s, n)
  {
    DivAtMost(s, n, 255);
    QuotientBracket(s, n);
    s / n
  }

  /** The truncated mean of one band over a non-empty list of pixels. */
  function MeanOf(ps: seq<Rgba>, ch: Channel): (q: byte)
    requires |ps| > 0
    ensures TruncatedMean(q, BandSum(ps, ch), |ps|)
  {
    MeanBand(BandSum(ps, ch), |ps|)
  }

  /**
   * `_average_subject_color` on the pixels of an image (in any order): the fallback tan
   * when nothing is counted, and otherwise the truncated per-band mean of the counted pixels.
   */
  function AverageSubjectColor(px: seq<Rgba>): (c: Rgb)
    ensures |Counted(px)| == 0 ==> c == Fallback
    ensures |Counted(px)| > 0 ==> forall ch :: TruncatedMean(Band(c, ch), BandSum(Counted(px), ch), |Counted(px)|)
  {
    var ps := Counted(px);
    if |ps| == 0 then Fallback else MeanColor(ps)
  }

  /** The colour whose every band is the truncated mean of that band over ps. */
  function MeanColor(ps: seq<Rgba>): (c: Rgb)
    requires |ps| > 0
    ensures forall ch :: TruncatedMean(Band(c, ch), BandSum(ps, ch), |ps|)
  {
    var c := Rgb(MeanOf(ps, R), MeanOf(ps, G), MeanOf(ps, B));
    MeansBracket(ps, c);
    c
  }

  /** A colour made of the three band means lies within each band's bracket. */
  lemma MeansBracket(ps: seq<Rgba>, c: Rgb)
    requires |ps| > 0 && c == Rgb(MeanOf(ps, R), MeanOf(ps, G), MeanOf(ps, B))
    ensures forall ch :: TruncatedMean(Band(c, ch), BandSum(ps, ch), |ps|)
  {
    forall ch
      ensures TruncatedMean(Band(c, ch), BandSum(ps, ch), |ps|)
    {
      assert Band(c, ch) == MeanOf(ps, ch);
    }
  }

  /** The fallback is used exactly when no pixel has alpha above 8. */
  lemma FallbackWhenNothingCounted(px: seq<Rgba>)
    ensures |Counted(px)| == 0 <==> forall i :: 0 <= i < |px| ==> px[i].a <= FaintAlpha
  {
    CountedMultiplicity(px);
    if |Counted(px)| == 0 {
      assert forall i :: 0 <= i < |px| ==> px[i] !in Counted(px);
    } else {
      assert Counted(px)[0] in px;
    }
  }

  lemma {:induction false} BandSumUniform(ps: seq<Rgba>, col: Rgb, c: Channel)
    requires forall i :: 0 <= i < |ps| ==> ToRgb(ps[i]) == col
    ensures BandSum(ps, c) == |ps| * Band(col, c)
  {
    if |ps| > 0 {
      BandSumUniform(ps[..|ps| - 1], col, c);
    }
  }

  /** The one byte the mean bracket admits. */
  lemma MeanOfUniform(n: nat, b: byte, q: byte)
    requires n > 0 && q * n <= n * b < (q + 1) * n
    ensures q == b
  {
    assert q * n == n * q;
    assert (q + 1) * n == n * q + n;
    assert n * (b + 1) == n * b + n;
    assert n * (q + 1) == n * q + n;
    MulCancel(n, q, b + 1);
    MulCancel(n, b, q + 1);
  }

  /** A list of one colour has that colour's band as its mean. */
  lemma MeanOfUniformList(ps: seq<Rgba>, col: Rgb, ch: Channel)
    requires |ps| > 0
    requires forall i :: 0 <= i < |ps| ==> ToRgb(ps[i]) == col
    ensures MeanOf(ps, ch) == Band(col, ch)
  {
    var n, b, q := |ps|, Band(col, ch), MeanOf(ps, ch);
    BandSumUniform(ps, col, ch);
    assert q * n <= n * b < (q + 1) * n;
    MeanOfUniform(n, b, q);
  }

  lemma BandOfUniform(px: seq<Rgba>, col: Rgb, ch: Channel)
    requires |Counted(px)| > 0
    requires forall i :: 0 <= i < |Counted(px)| ==> ToRgb(Counted(px)[i]) == col
    ensures Band(AverageSubjectColor(px), ch) == Band(col, ch)
  {
    var ps := Counted(px);
    MeanOfUniformList(ps, col, ch);
    assert AverageSubjectColor(px) == MeanColor(ps) == Rgb(MeanOf(ps, R), MeanOf(ps, G), MeanOf(ps, B));
  }

  /** A subject of one colour averages to that colour. */
  lemma AverageOfUniform(px: seq<Rgba>, col: Rgb)
    requires |Counted(px)| > 0
    requires forall i :: 0 <= i < |Counted(px)| ==> ToRgb(Counted(px)[i]) == col
    ensures AverageSubjectColor(px) == col
  {
    BandOfUniform(px, col, R);
    BandOfUniform(px, col, G);
    BandOfUniform(px, col, B);
  }

  /** Pixels with alpha 8 or less do not move the average. */
  lemma FaintPixelIgnored(px: seq<Rgba>, p: Rgba)
    requires p.a <= FaintAlpha
    ensures AverageSubjectColor(px + [p]) == AverageSubjectColor(px)
  {
    assert (px + [p])[..|px|] == px;
  }

  /** `_resize_max(img, 512)` for a w×h image. */
  function ResizeMax(w: nat, h: nat): (r: Sizing.Resize)
    requires w >= 1 && h >= 1
    ensures r.Keep? <==> w <= MaxPx && h <= MaxPx
    ensures r.Scale? ==> r.w <= MaxPx && r.h <= MaxPx && r.w < w && r.h < h
  {
    Sizing.FitWithin(w, h, MaxPx)
  }

  /** `_pick_order(files)`. */
  method PickOrder(files: seq<Path>) returns (ordered: seq<Path>)
    ensures ordered == Ordered(files, Keys)
    ensures forall p :: p in files <==> p in ordered
  {
    ordered := OrderByHints(files, Keys);
    OrderedFacts(files, Keys);
  }

  /**
   * What `main` writes, as (output name, input file) pairs: nothing for an empty inbox,
   * otherwise `OUT_FILES[i]` from `ordered[i]` for the first min(4, len(ordered)) slots.
   */
  method Run(files: seq<Path>) returns (writes: seq<(string, Path)>)
    ensures |files| == 0 ==> writes == []
    ensures |files| > 0 ==> |writes| == Min(|OutFiles|, |Ordered(files, Keys)|) && |writes| >= 1
    ensures forall i :: 0 <= i < |writes| ==> writes[i] == (OutFiles[i], Ordered(files, Keys)[i])
  {
    if |files| == 0 {
      return [];
    }
    var ordered := PickOrder(files);
    assert files[0] in ordered;
    writes := SlotPlan(OutFiles, ordered);
  }

  /**
   * Slots are positional: a lone input goes to about.png whatever its name says
   * (a file called "portfolio.png" included).
   */
  lemma LoneFileTakesFirstSlot(f: Path)
    ensures |Ordered([f], Keys)| >= 1 && Ordered([f], Keys)[0] == f
  {
    OrderedFacts([f], Keys);
    assert f in Ordered([f], Keys);
    assert Ordered([f], Keys)[0] in [f];
  }

  /**
   * The hint loop does not check for repeats: a file whose name holds both "about" and
   * "portfolio" fills the first two slots.
   */
  lemma DoubleHintRepeats(f: Path)
    requires Matches(f, "about") && Matches(f, "portfolio")
    ensures |Ordered([f], Keys)| >= 2 && Ordered([f], Keys)[..2] == [f, f]
  {
    var files := [f];
    assert Keys[..1][..0] == [];
    assert Hinted(files, Keys[..1]) == [f];
    assert Keys[..2][..1] == Keys[..1];
    assert Hinted(files, Keys[..2]) == [f, f];
    assert Keys[..3][..2] == Keys[..2];
    assert Hinted(files, Keys[..3])[..2] == [f, f];
    assert Keys[..3] == Keys[..4][..3];
    assert Keys[..4] == Keys;
    var h := Hinted(files, Keys);
    assert h[..2] == [f, f];
    AppendMissingKeepsPrefix(h, files);
    assert Ordered(files, Keys)[..|h|] == h;
  }
}
