/**
  The side-by-side picture the bounds describe: the color image at the
  origin and the depth image immediately to its right, both top-aligned.
  This is an independent reference for the bound queries.
 */
module Layout {

  import opened RGBD

  /** The half-open pixel rectangle [x0, x1) x [y0, y1). */
  datatype Rect = Rect(x0: int, y0: int, x1: int, y1: int)

  predicate Covers(r: Rect, x: int, y: int)
  {
    r.x0 <= x < r.x1 && r.y0 <= y < r.y1
  }

  function Min(a: int, b: int): int { if a <= b then a else b }
  function Max(a: int, b: int): int { if a <= b then b else a }

  /** The smallest rectangle enclosing both arguments. */
  function Hull(a: Rect, b: Rect): Rect
  {
    Rect(Min(a.x0, b.x0), Min(a.y0, b.y0), Max(a.x1, b.x1), Max(a.y1, b.y1))
  }

  function ColorRect<P>(s: RGBDImage<P>): Rect
  {
    Rect(0, 0, s.color.cols, s.color.rows)
  }

  function DepthRect<P>(s: RGBDImage<P>): Rect
  {
    Rect(s.color.cols, 0, s.color.cols + s.depth.cols, s.depth.rows)
  }

  function SideBySide<P>(s: RGBDImage<P>): Rect
  {
    Hull(ColorRect(s), DepthRect(s))
  }

  /** A pixel of the side-by-side picture. */
  predicate InLayout<P>(s: RGBDImage<P>, x: int, y: int)
  {
    Covers(ColorRect(s), x, y) || Covers(DepthRect(s), x, y)
  }

  /** A pixel inside the box spanned by the two bound queries. */
  predicate InBounds<P>(s: RGBDImage<P>, x: int, y: int)
  {
    GetMinBound(s).x <= x < GetMaxBound(s).x && GetMinBound(s).y <= y < GetMaxBound(s).y
  }

  /** The minimum bound is the top-left corner of the side-by-side picture. */
  lemma MinBoundIsLayoutOrigin<P>(s: RGBDImage<P>)
    ensures GetMinBound(s) == Bound2(SideBySide(s).x0, SideBySide(s).y0)
  {
  }

  /** The maximum bound is the bottom-right corner of the side-by-side
      picture exactly when the depth image is no taller than the color one. */
  lemma MaxBoundIsLayoutCornerIff<P>(s: RGBDImage<P>)
    ensures GetMaxBound(s) == Bound2(SideBySide(s).x1, SideBySide(s).y1)
            <==> s.depth.rows <= s.color.rows
  {
  }

  /** The bound box contains every pixel of the picture exactly when the
      depth image is no taller than the color image or has no columns;
      otherwise the depth rows below the color height fall outside. */
  lemma BoundsCoverLayoutIff<P>(s: RGBDImage<P>)
    ensures (forall x, y :: InLayout(s, x, y) ==> InBounds(s, x, y))
            <==> (s.depth.rows <= s.color.rows || s.depth.cols == 0)
  {
    if !(s.depth.rows <= s.color.rows || s.depth.cols == 0) {
      var x, y := s.color.cols, s.color.rows;
      assert InLayout(s, x, y) && !InBounds(s, x, y);
    }
  }
}
