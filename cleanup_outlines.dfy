/**
 * cleanup_outlines.py: make bright, weakly opaque edge pixels of the collar image transparent.
 * `data` is the (h, w, 4) `uint8` array, modelled as an `array2<Rgba>` indexed `[row, column]`.
 * Channels stay 8-bit throughout, as they do in NumPy, so `red + green + blue` wraps.
 */
module CleanupOutlines {
  import opened Pixels

  /** Line 27: some channel above 200, with alpha below 150. */
  predicate BrightArea(p: Rgba)
  {
    (p.r > 200 || p.g > 200 || p.b > 200) && p.a < 150
  }

  /** `red_channel + green_channel + blue_channel` on three `uint8` planes: the sum modulo 256. */
  function WrappedSum(p: Rgba): byte
  {
    (p.r + p.g + p.b) % 256
  }

  /** Line 30: `(red + green + blue) > 400`, on the wrapped sum. */
  predicate TooBright(p: Rgba)
  {
    WrappedSum(p) > 400
  }

  /** Line 33: alpha below 100 with some channel above 100. */
  predicate LowAlphaArtifact(p: Rgba)
  {
    p.a < 100 && (p.r > 100 || p.g > 100 || p.b > 100)
  }

  /** `artifacts = bright_areas | too_bright | low_alpha_artifacts`. */
  predicate Artifact(p: Rgba)
  {
    BrightArea(p) || TooBright(p) || LowAlphaArtifact(p)
  }

  /**
   * The wrapped sum is at most 255, so `too_bright` never fires and the artifact mask is
   * exactly the other two.
   */
  lemma TooBrightNeverHolds(p: Rgba)
    ensures !TooBright(p)
    ensures Artifact(p) <==> BrightArea(p) || LowAlphaArtifact(p)
  {
  }

  /**
   * A light grey pixel whose exact channel sum is 600 is kept: its wrapped sum is 88.
   * With exact addition it would count as too bright.
   */
  lemma WrapKeepsLightGrey()
    ensures WrappedSum(Rgba(200, 200, 200, 255)) == 88
    ensures 200 + 200 + 200 > 400
    ensures !Artifact(Rgba(200, 200, 200, 255))
  {
  }

  /** `data[artifacts, 3] = 0` on one pixel. */
  function Cleaned(p: Rgba): Rgba
  {
    if Artifact(p) then p.(a := 0) else p
  }

  /**
   * The two effective rules clear alpha; alpha 150 or more is never touched; colour never
   * changes, and alpha only ever becomes 0.
   */
  lemma CleanedFacts(p: Rgba)
    ensures p.a < 150 && (p.r > 200 || p.g > 200 || p.b > 200) ==> Cleaned(p).a == 0
    ensures p.a < 100 && (p.r > 100 || p.g > 100 || p.b > 100) ==> Cleaned(p).a == 0
    ensures p.a >= 150 ==> Cleaned(p) == p
    ensures ToRgb(Cleaned(p)) == ToRgb(p)
    ensures Cleaned(p).a == 0 || Cleaned(p) == p
  {
  }

  /** Applying the rewrite to its own output changes nothing more. */
  lemma CleanedIdempotent(p: Rgba)
    ensures Cleaned(Cleaned(p)) == Cleaned(p)
  {
  }

  /** `cleanup_outlines` up to the blur: the masks of lines 27-36, then `data[artifacts, 3] = 0`. */
  method CleanupOutlines(data: array2<Rgba>)
    modifies data
    ensures forall i, j :: 0 <= i < data.Length0 && 0 <= j < data.Length1 ==> data[i, j] == Cleaned(old(data[i, j]))
  {
    var h, w := data.Length0, data.Length1;
    var artifacts := new bool[h, w];
    forall i, j | 0 <= i < h && 0 <= j < w {
      artifacts[i, j] := BrightArea(data[i, j]) || TooBright(data[i, j]) || LowAlphaArtifact(data[i, j]);
    }
    forall i, j | 0 <= i < h && 0 <= j < w && artifacts[i, j] {
      data[i, j] := data[i, j].(a := 0);
    }
  }
}
