/**
 * cleanup_mirror.py: remove red reflections from the black areas of the mirror image.
 * The pixel array is NumPy's `data`, of shape (h, w, 4), modelled as an `array2<Rgba>`
 * indexed `[row, column]` as NumPy indexes it. Every mask is computed from the array as
 * it was loaded, before the first write; the writes then rewrite it in place.
 */
module CleanupMirror {
  import opened Pixels

  /** Line 27, with `c * 1.2` compared exactly: `r > 1.2 * g` is `5 * r > 6 * g`. */
  predicate RedMask(p: Rgba)
  {
    p.r > 100 && 5 * p.r > 6 * p.g && 5 * p.r > 6 * p.b && p.a > 30
  }

  /** The "reddish areas" of line 30. */
  predicate Reddish(p: Rgba)
  {
    p.r > 80 && p.r > p.g && p.r > p.b && p.a > 20
  }

  /** The "dark areas" of line 33. */
  predicate Dark(p: Rgba)
  {
    p.r < 100 && p.g < 100 && p.b < 100 && p.a > 50
  }

  /** `red_areas = red_mask | reddish_areas`. */
  predicate RedArea(p: Rgba)
  {
    RedMask(p) || Reddish(p)
  }

  /** The aggressive mask adds nothing: every pixel it selects is already reddish. */
  lemma RedMaskWithinReddish(p: Rgba)
    ensures RedMask(p) ==> Reddish(p)
    ensures RedArea(p) <==> Reddish(p)
  {
  }

  /** `np.minimum(c, 30)`. */
  function Darken(c: byte): (d: byte)
    ensures d <= c && d <= 30
    ensures c <= 30 ==> d == c
  {
    Min(c, 30)
  }

  /** What the two writes leave in one pixel, both decided from its original value. */
  function Cleaned(p: Rgba): Rgba
  {
    var a := if RedArea(p) then 0 else p.a;
    if Dark(p) then Rgba(Darken(p.r), Darken(p.g), Darken(p.b), a) else p.(a := a)
  }

  /**
   * Red areas lose their alpha, dark areas have every channel clamped to 30, pixels in
   * neither mask are unchanged; alpha only ever drops to 0, and no channel increases.
   */
  lemma CleanedFacts(p: Rgba)
    ensures Reddish(p) ==> Cleaned(p).a == 0
    ensures !Reddish(p) ==> Cleaned(p).a == p.a
    ensures Dark(p) ==> Cleaned(p).r == Min(p.r, 30) && Cleaned(p).g == Min(p.g, 30) && Cleaned(p).b == Min(p.b, 30)
    ensures !Dark(p) ==> ToRgb(Cleaned(p)) == ToRgb(p)
    ensures !Reddish(p) && !Dark(p) ==> Cleaned(p) == p
    ensures Cleaned(p).a == 0 || Cleaned(p).a == p.a
    ensures Cleaned(p).r <= p.r && Cleaned(p).g <= p.g && Cleaned(p).b <= p.b
  {
    RedMaskWithinReddish(p);
  }

  /**
   * Both masks come from the original values: (90, 50, 50, 255) is reddish and dark, so it
   * loses its alpha and is also clamped.
   */
  lemma BothMasksApply()
    ensures Reddish(Rgba(90, 50, 50, 255)) && Dark(Rgba(90, 50, 50, 255))
    ensures Cleaned(Rgba(90, 50, 50, 255)) == Rgba(30, 30, 30, 0)
  {
  }

  /** A red reflection disappears; a near-black pixel stays opaque. */
  lemma Examples()
    ensures Cleaned(Rgba(200, 10, 10, 255)).a == 0
    ensures Cleaned(Rgba(5, 5, 5, 255)) == Rgba(5, 5, 5, 255)
  {
  }

  /** Running the cleanup on its own output changes nothing more. */
  lemma CleanedIdempotent(p: Rgba)
    ensures Cleaned(Cleaned(p)) == Cleaned(p)
  {
    RedMaskWithinReddish(p);
    RedMaskWithinReddish(Cleaned(p));
  }

  /**
   * `cleanup_red_reflections` up to the blur: the masks of lines 27-36 are computed from
   * the unchanged array; then the red areas' alpha is cleared, and each colour channel
   * of the dark areas is capped at 30.
   */
  method CleanupRedReflections(data: array2<Rgba>)
    modifies data
    ensures forall i, j :: 0 <= i < data.Length0 && 0 <= j < data.Length1 ==> data[i, j] == Cleaned(old(data[i, j]))
  {
    var h, w := data.Length0, data.Length1;
    var redAreas := new bool[h, w];
    var darkAreas := new bool[h, w];
    forall i, j | 0 <= i < h && 0 <= j < w {
      redAreas[i, j] := RedMask(data[i, j]) || Reddish(data[i, j]);
    }
    forall i, j | 0 <= i < h && 0 <= j < w {
      darkAreas[i, j] := Dark(data[i, j]);
    }
    forall i, j | 0 <= i < h && 0 <= j < w && redAreas[i, j] {
      data[i, j] := data[i, j].(a := 0);
    }
    forall i, j | 0 <= i < h && 0 <= j < w && darkAreas[i, j] {
      data[i, j] := data[i, j].(r := Darken(data[i, j].r));
    }
    forall i, j | 0 <= i < h && 0 <= j < w && darkAreas[i, j] {
      data[i, j] := data[i, j].(g := Darken(data[i, j].g));
    }
    forall i, j | 0 <= i < h && 0 <= j < w && darkAreas[i, j] {
      data[i, j] := data[i, j].(b := Darken(data[i, j].b));
    }
  }
}
