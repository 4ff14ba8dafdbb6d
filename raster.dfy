/**
 * Images as grids indexed `[x, y]`, the way Pillow's pixel-access objects are indexed,
 * and the one loop shape the classifier scripts share: allocate an "L" mask of the
 * image's size and write every cell from the pixel under it.
 */
module Raster {
  import opened Pixels

  /**
   * Fills a fresh w×h "L" mask, created with every cell set to `init`, row by row and
   * within a row column by column, writing each cell from the pixel under it through f.
   * Every cell is overwritten, so `init` never survives.
   */
  method Fill(img: array2<Rgba>, init: byte, f: Rgba -> byte) returns (m: array2<byte>)
    ensures m.Length0 == img.Length0 && m.Length1 == img.Length1
    ensures forall x, y :: 0 <= x < m.Length0 && 0 <= y < m.Length1 ==> m[x, y] == f(img[x, y])
  {
    var w, h := img.Length0, img.Length1;
    m := new byte[w, h]((_, _) => init);
    for y := 0 to h
      invariant forall x', y' :: 0 <= x' < w && 0 <= y' < y ==> m[x', y'] == f(img[x', y'])
    {
      for x := 0 to w
        invariant forall x', y' :: 0 <= x' < w && 0 <= y' < y ==> m[x', y'] == f(img[x', y'])
        invariant forall x' :: 0 <= x' < x ==> m[x', y] == f(img[x', y])
      {
        m[x, y] := f(img[x, y]);
      }
    }
  }

  /** A value image: `p[x][y]` is the pixel in column x, row y. */
  type Plane<T> = seq<seq<T>>

  /** `p` is a rectangle of w columns and h rows. */
  ghost predicate Shaped<T>(p: Plane<T>, w: nat, h: nat)
  {
    |p| == w && forall x :: 0 <= x < w ==> |p[x]| == h
  }

  /** Two planes with the same columns and column lengths. */
  ghost predicate SameShape<T, U>(p: Plane<T>, q: Plane<U>)
  {
    |p| == |q| && forall x :: 0 <= x < |p| ==> |p[x]| == |q[x]|
  }

  /** Pillow's 4-tuple box: left, upper, right, lower, with right and lower exclusive. */
  datatype Box = Box(left: nat, upper: nat, right: nat, lower: nat)

  ghost predicate BoxWithin(bx: Box, w: nat, h: nat)
  {
    bx.left <= bx.right <= w && bx.upper <= bx.lower <= h
  }

  /** `crop(box)` of an image whose box lies inside it. */
  function Crop<T>(p: Plane<T>, bx: Box): (c: Plane<T>)
    requires bx.left <= bx.right <= |p| && bx.upper <= bx.lower
    requires forall x :: bx.left <= x < bx.right ==> bx.lower <= |p[x]|
    ensures Shaped(c, bx.right - bx.left, bx.lower - bx.upper)
    ensures forall i, j :: 0 <= i < bx.right - bx.left && 0 <= j < bx.lower - bx.upper ==>
              c[i][j] == p[bx.left + i][bx.upper + j]
  {
    seq(bx.right - bx.left, i requires 0 <= i < bx.right - bx.left =>
      p[bx.left + i][bx.upper..bx.lower])
  }
}
