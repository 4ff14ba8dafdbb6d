/**
 * tools/extract_symbols.py: four transparent icons, with no reordering: the i-th inbox
 * file becomes the i-th output. The background classifier loop is
 * `LightBackground.CleanBackground`; the resize guard and the slot loop are modelled here.
 */
module ExtractSymbols {
  import opened Pixels
  import Sizing
  import HintOrder

  const OutFiles: seq<string> := ["about.png", "portfolio.png", "contact.png", "tearsheet.png"]
  /** `resize_max(img, 512)` as `main` calls it. */
  const MaxSize: nat := 512

  /** `resize_max(img, max_size)`: unchanged when the longer side fits, else both sides fit. */
  function ResizeMax(w: nat, h: nat, maxSize: nat): (r: Sizing.Resize)
    requires w >= 1 && h >= 1 && maxSize >= 1
    ensures r.Keep? <==> w <= maxSize && h <= maxSize
    ensures r.Scale? ==> r.w <= maxSize && r.h <= maxSize
  {
    Sizing.FitWithin(w, h, maxSize)
  }

  /** What `main` writes: `OUT_FILES[i]` from `imgs[i]` for i < min(4, len(imgs)); nothing for an empty inbox. */
  method Run(imgs: seq<HintOrder.Path>) returns (writes: seq<(string, HintOrder.Path)>)
    ensures |writes| == Min(|OutFiles|, |imgs|)
    ensures |imgs| == 0 ==> writes == []
    ensures forall i :: 0 <= i < |writes| ==> writes[i] == (OutFiles[i], imgs[i])
  {
    if |imgs| == 0 {
      return [];
    }
    writes := HintOrder.SlotPlan(OutFiles, imgs);
  }
}
