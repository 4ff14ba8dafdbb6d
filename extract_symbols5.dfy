/**
 * tools/extract_symbols5.py: five transparent icons, including Press. The background
 * classifier loop is `LightBackground.CleanBackground`; the 512-pixel guard and the inline
 * copy of the keyword ordering, with a fifth key "press", are modelled here.
 */
module ExtractSymbols5 {
  import opened Pixels
  import Sizing
  import opened HintOrder

  const OutFiles: seq<string> := ["about.png", "portfolio.png", "contact.png", "tearsheet.png", "press.png"]
  /** The keywords of the inline ordering loop, in order. */
  const Keys: seq<string> := ["about", "portfolio", "contact", "tearsheet", "press"]
  /** `resize_max(img, 512)` as `main` calls it. */
  const MaxSize: nat := 512

  /** `resize_max(img, 512)`: images whose longer side is at most 512 are kept; nothing is enlarged. */
  function ResizeMax(w: nat, h: nat): (r: Sizing.Resize)
    requires w >= 1 && h >= 1
    ensures r.Keep? <==> Max(w, h) <= MaxSize
    ensures r.Scale? ==> r.w < w && r.h < h && Max(r.w, r.h) == MaxSize
  {
    Sizing.FitWithin(w, h, MaxSize)
  }

  /**
   * What `main` writes: nothing for an empty inbox; otherwise the five keys'
   * first matches, then every other input in order, into the first min(5, len(ordered)) slots.
   */
  method Run(imgs: seq<Path>) returns (writes: seq<(string, Path)>)
    ensures |imgs| == 0 ==> writes == []
    ensures |imgs| > 0 ==> |writes| == Min(|OutFiles|, |Ordered(imgs, Keys)|) && |writes| >= 1
    ensures forall i :: 0 <= i < |writes| ==> writes[i] == (OutFiles[i], Ordered(imgs, Keys)[i])
    ensures forall p :: p in imgs ==> p in Ordered(imgs, Keys)
  {
    OrderedFacts(imgs, Keys);
    if |imgs| == 0 {
      return [];
    }
    var ordered := OrderByHints(imgs, Keys);
    assert imgs[0] in ordered;
    writes := SlotPlan(OutFiles, ordered);
  }

  /** With a file for every key and nothing else, the press icon comes from the press file. */
  lemma PressSlot(imgs: seq<Path>)
    requires |Hinted(imgs, Keys)| == 5
    ensures |Ordered(imgs, Keys)| >= 5 && FirstMatch(imgs, "press") == Some(Ordered(imgs, Keys)[4])
  {
    var h := Hinted(imgs, Keys);
    HintedFacts(imgs, Keys[..4]);
    assert Keys[..4] == Keys[..|Keys| - 1];
    assert FirstMatch(imgs, "press").Some?;
    assert h == Hinted(imgs, Keys[..4]) + [FirstMatch(imgs, "press").value];
    AppendMissingKeepsPrefix(h, imgs);
    assert Ordered(imgs, Keys)[..5] == h;
  }
}
