/**
 * tools/strip_bg_glove.py: estimate the background colour from the four corners
 * (per-channel median of the samples), then give every pixel an alpha value from its
 * squared RGB distance to that colour, with a linear ramp between two cutoffs.
 * The model stops at the raw mask; the median filter, blur and paste that follow are Pillow's.
 */
module StripBgGlove {
  import opened Pixels
  import opened Arith
  import Stats
  import Raster

  /** `corner_bg_color`'s default square size. */
  const Pad: nat := 10
  /** `hard = 55**2`: fully transparent within this squared distance. */
  const Hard: int := 55 * 55
  /** `soft = 95**2`: fully opaque from this squared distance on. */
  const Soft: int := 95 * 95
  /** Pixels with alpha below this are made transparent whatever their colour. */
  const AlphaFloor: int := 12

  /** `getpixel((x, y))` on the RGB copy for x in sx .. sx + n - 1, in that order. */
  function Row(img: array2<Rgba>, sx: nat, y: nat, n: nat): seq<Rgb>
    reads img
    requires sx + n <= img.Length0 && y < img.Length1
  {
    if n == 0 then [] else Row(img, sx, y, n - 1) + [ToRgb(img[sx + n - 1, y])]
  }

  /** The first k rows of the n-wide square whose top-left corner is (sx, sy). */
  function Rows(img: array2<Rgba>, sx: nat, sy: nat, n: nat, k: nat): seq<Rgb>
    reads img
    requires sx + n <= img.Length0 && sy + k <= img.Length1
  {
    if k == 0 then [] else Rows(img, sx, sy, n, k - 1) + Row(img, sx, sy + k - 1, n)
  }

  /** `[(0,0), (w-pad,0), (0,h-pad), (w-pad,h-pad)]`. */
  function Corners(w: nat, h: nat, pad: nat): seq<(nat, nat)>
    requires pad <= w && pad <= h
  {
    [(0, 0), (w - pad, 0), (0, h - pad), (w - pad, h - pad)]
  }

  /** The samples collected from the first c corners, each a full pad×pad square. */
  function CornerSquares(img: array2<Rgba>, pad: nat, c: nat): seq<Rgb>
    reads img
    requires pad <= img.Length0 && pad <= img.Length1 && c <= 4
  {
    if c == 0 then []
    else
      var corner := Corners(img.Length0, img.Length1, pad)[c - 1];
      CornerSquares(img, pad, c - 1) + Rows(img, corner.0, corner.1, pad, pad)
  }

  lemma {:induction false} RowLength(img: array2<Rgba>, sx: nat, y: nat, n: nat)
    requires sx + n <= img.Length0 && y < img.Length1
    ensures |Row(img, sx, y, n)| == n
  {
    if n > 0 {
      RowLength(img, sx, y, n - 1);
    }
  }

  lemma {:induction false} RowsLength(img: array2<Rgba>, sx: nat, sy: nat, n: nat, k: nat)
    requires sx + n <= img.Length0 && sy + k <= img.Length1
    ensures |Rows(img, sx, sy, n, k)| == k * n
  {
    if k > 0 {
      RowsLength(img, sx, sy, n, k - 1);
      RowLength(img, sx, sy + k - 1, n);
    }
  }

  /** Each corner adds one full pad×pad square. */
  lemma CornerSquaresStep(img: array2<Rgba>, pad: nat, c: nat)
    requires pad <= img.Length0 && pad <= img.Length1 && 1 <= c <= 4
    ensures |CornerSquares(img, pad, c)| == |CornerSquares(img, pad, c - 1)| + pad * pad
  {
    var corner := Corners(img.Length0, img.Length1, pad)[c - 1];
    RowsLength(img, corner.0, corner.1, pad, pad);
  }

  /** With w, h >= pad every corner contributes pad·pad samples: 4·pad² in all. */
  lemma {:induction false} CornerSquaresLength(img: array2<Rgba>, pad: nat, c: nat)
    requires pad <= img.Length0 && pad <= img.Length1 && c <= 4
    ensures |CornerSquares(img, pad, c)| == c * (pad * pad)
  {
    if c > 0 {
      CornerSquaresLength(img, pad, c - 1);
      CornerSquaresStep(img, pad, c);
      MulSucc(c, pad * pad);
    }
  }

  /**
   * The two inner sampling loops of `corner_bg_color` for one corner: rows sy .. sy + pad - 1
   * top to bottom, each read left to right, appended after what was already collected.
   */
  method SampleSquare(img: array2<Rgba>, sx: nat, sy: nat, pad: nat, before: seq<Rgb>)
    returns (samples: seq<Rgb>)
    requires sx + pad <= img.Length0 && sy + pad <= img.Length1
    ensures samples == before + Rows(img, sx, sy, pad, pad)
  {
    samples := before;
    for y := sy to Min(sy + pad, img.Length1)
      invariant samples == before + Rows(img, sx, sy, pad, y - sy)
    {
      for x := sx to Min(sx + pad, img.Length0)
        invariant samples == before + Rows(img, sx, sy, pad, y - sy) + Row(img, sx, y, x - sx)
      {
        samples := samples + [ToRgb(img[x, y])];
      }
      assert y + 1 - sy == (y - sy) + 1;
    }
  }

  /**
   * The sampling loops of `corner_bg_color`: the four corners in the order of `Corners`,
   * each contributing its whole pad×pad square.
   */
  method CornerSamples(img: array2<Rgba>, pad: nat) returns (samples: seq<Rgb>)
    requires pad <= img.Length0 && pad <= img.Length1
    ensures samples == CornerSquares(img, pad, 4)
    ensures |samples| == 4 * (pad * pad)
  {
    var corners := Corners(img.Length0, img.Length1, pad);
    samples := [];
    for c := 0 to 4
      invariant samples == CornerSquares(img, pad, c)
    {
      var (sx, sy) := corners[c];
      samples := SampleSquare(img, sx, sy, pad, samples);
    }
    CornerSquaresLength(img, pad, 4);
  }

  /** One band of every sample: `c[0] for c in samples` and its siblings. */
  function BandOf(samples: seq<Rgb>, c: Channel): (r: seq<byte>)
    ensures |r| == |samples|
    ensures forall i :: 0 <= i < |samples| ==> r[i] == Band(samples[i], c)
  {
    seq(|samples|, i requires 0 <= i < |samples| => Band(samples[i], c))
  }

  /** `(int(median(reds)), int(median(greens)), int(median(blues)))`. */
  function Reference(samples: seq<Rgb>): Rgb
    requires |samples| > 0
  {
    Rgb(Stats.MedianTrunc(BandOf(samples, R)),
        Stats.MedianTrunc(BandOf(samples, G)),
        Stats.MedianTrunc(BandOf(samples, B)))
  }

  /**
   * Each band of the reference colour is a true median of that band: at most half the samples
   * lie below it, at most half above it, and some sample lies on either side of it.
   */
  lemma ReferenceIsMedian(samples: seq<Rgb>, c: Channel)
    requires |samples| > 0
    ensures Stats.CountWhere(BandOf(samples, c), x => x < Band(Reference(samples), c)) <= |samples| / 2
    ensures Stats.CountWhere(BandOf(samples, c), x => x > Band(Reference(samples), c)) <= |samples| / 2
    ensures exists i :: 0 <= i < |samples| && Band(samples[i], c) <= Band(Reference(samples), c)
    ensures exists j :: 0 <= j < |samples| && Band(samples[j], c) >= Band(Reference(samples), c)
  {
    var xs := BandOf(samples, c);
    assert Band(Reference(samples), c) == Stats.MedianTrunc(xs);
    Stats.MedianIsCentral(xs);
    Stats.MedianWithinSamples(xs);
  }

  /** `corner_bg_color(img, pad)` for an image at least pad wide and high. */
  method CornerBgColor(img: array2<Rgba>, pad: nat) returns (bg: Rgb)
    requires 1 <= pad <= img.Length0 && pad <= img.Length1
    ensures bg == Reference(CornerSquares(img, pad, 4))
  {
    var samples := CornerSamples(img, pad);
    bg := Reference(samples);
  }

  /** Nested `dist2`: squared RGB distance to the reference colour. */
  function Dist2(bg: Rgb, p: Rgba): (d: int)
    ensures d >= 0
    ensures d == 0 <==> ToRgb(p) == bg
  {
    var dr, dg, db := p.r - bg.r, p.g - bg.g, p.b - bg.b;
    assert dr * dr >= 0 && dg * dg >= 0 && db * db >= 0;
    assert dr != 0 ==> dr * dr > 0;
    assert dg != 0 ==> dg * dg > 0;
    assert db != 0 ==> db * db > 0;
    dr * dr + dg * dg + db * db
  }

  /** `int(255 * t)` with `t = (d2 - hard) / (soft - hard)`, in exact arithmetic. */
  function Ramp(d2: int): (v: byte)
    requires Hard < d2 < Soft
    ensures v <= 254
  {
    DivBelow(255 * (d2 - Hard), Soft - Hard, 255);
    255 * (d2 - Hard) / (Soft - Hard)
  }

  /** The ramp is the integer part of the real-valued ramp the script computes. */
  lemma RampIsTruncatedRealRamp(d2: int)
    requires Hard < d2 < Soft
    ensures (255.0 * ((d2 - Hard) as real / (Soft - Hard) as real)).Floor == Ramp(d2)
  {
    var a, q := 255 * (d2 - Hard), Ramp(d2);
    QuotientBracket(a, Soft - Hard);
    assert (q * (Soft - Hard)) as real <= a as real < ((q + 1) * (Soft - Hard)) as real;
    assert 255.0 * ((d2 - Hard) as real / (Soft - Hard) as real) == a as real / (Soft - Hard) as real;
  }

  /** The mask value for an opaque-enough pixel at squared distance d2. */
  function AlphaOfDistance(d2: int): (v: byte)
    ensures d2 <= Hard ==> v == 0
    ensures d2 >= Soft ==> v == 255
    ensures Hard < d2 < Soft ==> v <= 254
  {
    if d2 <= Hard then 0 else if d2 >= Soft then 255 else Ramp(d2)
  }

  /** The mask is nondecreasing in the distance, across the three regions. */
  lemma AlphaOfDistanceMonotone(d1: int, d2: int)
    requires d1 <= d2
    ensures AlphaOfDistance(d1) <= AlphaOfDistance(d2)
  {
    if Hard < d1 && d2 < Soft {
      DivMonotone(255 * (d1 - Hard), 255 * (d2 - Hard), Soft - Hard);
    }
  }

  /** The cell `strip_bg` writes for one pixel. */
  function Alpha(bg: Rgb, p: Rgba): byte
  {
    if p.a < AlphaFloor then 0 else AlphaOfDistance(Dist2(bg, p))
  }

  /** Nearly transparent pixels become 0, and so does the reference colour itself. */
  lemma TransparentCases(bg: Rgb, p: Rgba)
    ensures p.a < AlphaFloor ==> Alpha(bg, p) == 0
    ensures ToRgb(p) == bg ==> Alpha(bg, p) == 0
  {
  }

  /**
   * The raw mask of `strip_bg`: `Image.new('L', (w, h), 255)` and then every cell
   * overwritten from the pixel under it against the corner reference colour.
   */
  method StripBgMask(img: array2<Rgba>) returns (m: array2<byte>)
    requires Pad <= img.Length0 && Pad <= img.Length1
    ensures m.Length0 == img.Length0 && m.Length1 == img.Length1
    ensures forall x, y :: 0 <= x < m.Length0 && 0 <= y < m.Length1 ==>
              m[x, y] == Alpha(Reference(CornerSquares(img, Pad, 4)), img[x, y])
  {
    var bg := CornerBgColor(img, Pad);
    m := Raster.Fill(img, 255, p => Alpha(bg, p));
  }
}
