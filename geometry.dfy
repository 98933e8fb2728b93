/**
 * Axis-aligned boxes in frame pixel coordinates and the overlap test the
 * processor uses to keep a proposed workplace clear of the existing ones.
 */
module Geometry {

  /** A box (x, y, w, h): (x, y) is the top-left corner, w and h the width and height. */
  datatype BBox = BBox(x: int, y: int, w: int, h: int)

  /**
   * _is_overlapping: two boxes overlap unless one lies entirely to the left of,
   * to the right of, above or below the other. The comparisons are `>=`, so
   * boxes that only share an edge are separate.
   */
  predicate IsOverlapping(a: BBox, b: BBox)
  {
    !(a.x >= b.x + b.w || b.x >= a.x + a.w || a.y >= b.y + b.h || b.y >= a.y + a.h)
  }

  /** A box that covers at least one pixel. */
  predicate HasArea(b: BBox)
  {
    b.w > 0 && b.h > 0
  }

  /** Pixel (px, py) lies in the half-open box [x, x + w) x [y, y + h). */
  predicate ContainsPoint(b: BBox, px: int, py: int)
  {
    b.x <= px < b.x + b.w && b.y <= py < b.y + b.h
  }

  /** Every pixel of `inner` is a pixel of `outer`. */
  predicate ContainsBox(outer: BBox, inner: BBox)
  {
    outer.x <= inner.x && inner.x + inner.w <= outer.x + outer.w &&
    outer.y <= inner.y && inner.y + inner.h <= outer.y + outer.h
  }

  function Max(a: int, b: int): int
  {
    if a < b then b else a
  }

  /** The test does not depend on the order of its arguments. */
  lemma OverlapIsSymmetric(a: BBox, b: BBox)
    ensures IsOverlapping(a, b) == IsOverlapping(b, a)
  {
  }

  /** Boxes that meet at a vertical or horizontal edge are not overlapping. */
  lemma TouchingBoxesDoNotOverlap(a: BBox, b: BBox)
    requires a.x + a.w == b.x || b.x + b.w == a.x || a.y + a.h == b.y || b.y + b.h == a.y
    ensures !IsOverlapping(a, b)
  {
  }

  /** A box with positive width and height overlaps itself. */
  lemma BoxOverlapsItself(a: BBox)
    requires HasArea(a)
    ensures IsOverlapping(a, a)
  {
  }

  /** A box overlaps every box with area that it contains, in either argument order. */
  lemma ContainedBoxOverlaps(outer: BBox, inner: BBox)
    requires HasArea(inner) && ContainsBox(outer, inner)
    ensures IsOverlapping(outer, inner) && IsOverlapping(inner, outer)
  {
  }

  /** Two boxes that share a pixel overlap; a box holding a pixel has area, so none is needed up front. */
  lemma SharedPixelOverlaps(a: BBox, b: BBox, px: int, py: int)
    requires ContainsPoint(a, px, py) && ContainsPoint(b, px, py)
    ensures HasArea(a) && HasArea(b) && IsOverlapping(a, b)
  {
  }

  /** For boxes with area, the test is exactly "some pixel lies in both boxes". */
  lemma OverlapIffSharedPixel(a: BBox, b: BBox)
    requires HasArea(a) && HasArea(b)
    ensures IsOverlapping(a, b) <==> exists px, py :: ContainsPoint(a, px, py) && ContainsPoint(b, px, py)
  {
    if IsOverlapping(a, b) {
      var px, py := Max(a.x, b.x), Max(a.y, b.y);
      assert ContainsPoint(a, px, py) && ContainsPoint(b, px, py);
    }
  }
}
