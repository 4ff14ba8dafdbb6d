/**
 * remove_glow.py: strip the semi-transparent glow around the mirror image.
 * `data` is the (h, w, 4) `uint8` array, modelled as an `array2<Rgba>` indexed `[row, column]`.
 */
module RemoveGlow {
  import opened Pixels

  /** Line 27: `(alpha > 0) & (alpha < 200)`. */
  predicate SemiTransparent(p: Rgba)
  {
    p.a > 0 && p.a < 200
  }

  /** Line 30: some channel above 150, with alpha below 100. */
  predicate BrightGlow(p: Rgba)
  {
    (p.r > 150 || p.g > 150 || p.b > 150) && p.a < 100
  }

  /** Line 33: `alpha < 50`. */
  predicate LowAlphaGlow(p: Rgba)
  {
    p.a < 50
  }

  /** `glow_areas = semi_transparent | bright_glow | low_alpha_glow`. */
  predicate Glow(p: Rgba)
  {
    SemiTransparent(p) || BrightGlow(p) || LowAlphaGlow(p)
  }

  /**
   * The three masks together select exactly the pixels with alpha below 200; `bright_glow`
   * adds nothing, so the colour plays no part.
   */
  lemma GlowIsLowAlpha(p: Rgba)
    ensures Glow(p) <==> p.a < 200
    ensures BrightGlow(p) ==> SemiTransparent(p) || LowAlphaGlow(p)
  {
  }

  /** `data[glow_areas, 3] = 0` on one pixel. */
  function Cleaned(p: Rgba): Rgba
  {
    if Glow(p) then p.(a := 0) else p
  }

  /**
   * Alpha below 200 becomes 0, alpha 200 or more is left alone, the colour is never
   * touched, and two pixels differing only in colour are treated alike.
   */
  lemma CleanedFacts(p: Rgba, q: Rgba)
    ensures p.a < 200 ==> Cleaned(p).a == 0
    ensures p.a >= 200 ==> Cleaned(p) == p
    ensures ToRgb(Cleaned(p)) == ToRgb(p)
    ensures p.a == q.a ==> Cleaned(p).a == Cleaned(q).a
  {
    GlowIsLowAlpha(p);
    GlowIsLowAlpha(q);
  }

  /** Applying the rewrite to its own output changes nothing more. */
  lemma CleanedIdempotent(p: Rgba)
    ensures Cleaned(Cleaned(p)) == Cleaned(p)
  {
  }

  /** `remove_glow` up to the blur: the masks of lines 27-36, then `data[glow_areas, 3] = 0`. */
  method RemoveGlow(data: array2<Rgba>)
    modifies data
    ensures forall i, j :: 0 <= i < data.Length0 && 0 <= j < data.Length1 ==> data[i, j] == Cleaned(old(data[i, j]))
  {
    var h, w := data.Length0, data.Length1;
    var glowAreas := new bool[h, w];
    forall i, j | 0 <= i < h && 0 <= j < w {
      glowAreas[i, j] := SemiTransparent(data[i, j]) || BrightGlow(data[i, j]) || LowAlphaGlow(data[i, j]);
    }
    forall i, j | 0 <= i < h && 0 <= j < w && glowAreas[i, j] {
      data[i, j] := data[i, j].(a := 0);
    }
  }
}
