/** Points and rectangles. The game takes both from the bracket-lib crate,
    whose source is not part of this model; the definitions below are the
    assumed behaviour of `Point`, `Rect::with_size`, `Rect::intersect`,
    `Rect::center` and `Rect::for_each`. */
module Geometry {

  datatype Point = Point(x: int, y: int)

  function Min(a: int, b: int): int { if a <= b then a else b }

  function Max(a: int, b: int): int { if a <= b then b else a }

  /** Integer halving that truncates toward zero, like `/ 2` on an `i32`. */
  function Half(n: int): int { if n >= 0 then n / 2 else -((-n) / 2) }

  /** A rectangle spanned by the corners (x1, y1) and (x2, y2). */
  datatype Rect = Rect(x1: int, y1: int, x2: int, y2: int) {

    /** The cells `for_each` visits: rows y1 .. y2 - 1, columns x1 .. x2 - 1. */
    predicate Contains(p: Point) {
      x1 <= p.x < x2 && y1 <= p.y < y2
    }

    /** The closed box [x1, x2] x [y1, y2]; the overlap test works on these. */
    predicate ClosedContains(p: Point) {
      x1 <= p.x <= x2 && y1 <= p.y <= y2
    }

    predicate WellFormed() { x1 <= x2 && y1 <= y2 }

    /** Two rectangles intersect when their closed boxes overlap on both axes
        (so rectangles that merely touch also intersect). */
    predicate Intersect(other: Rect) {
      x1 <= other.x2 && x2 >= other.x1 && y1 <= other.y2 && y2 >= other.y1
    }

    /** The integer midpoint of the two corners. */
    function Center(): Point {
      Point(Half(x1 + x2), Half(y1 + y2))
    }
  }

  /** `Rect::with_size`: origin (x, y), width w and height h. */
  function WithSize(x: int, y: int, w: int, h: int): (r: Rect)
    ensures forall p: Point :: r.Contains(p) <==> x <= p.x < x + w && y <= p.y < y + h
    ensures w >= 0 && h >= 0 ==> r.WellFormed()
  {
    Rect(x, y, x + w, y + h)
  }

  lemma IntersectSymmetric(a: Rect, b: Rect)
    ensures a.Intersect(b) <==> b.Intersect(a)
  {
  }

  /** The overlap test is exactly "the closed boxes share a point". */
  lemma IntersectIsClosedOverlap(a: Rect, b: Rect)
    requires a.WellFormed() && b.WellFormed()
    ensures a.Intersect(b) <==> exists p: Point :: a.ClosedContains(p) && b.ClosedContains(p)
  {
    if a.Intersect(b) {
      var w := Point(Max(a.x1, b.x1), Max(a.y1, b.y1));
      assert a.ClosedContains(w) && b.ClosedContains(w);
    }
  }

  /** Rectangles that do not intersect have no cell in common, so carving
      them never touches the same tile twice. */
  lemma NoIntersectDisjointCells(a: Rect, b: Rect, p: Point)
    requires !a.Intersect(b)
    ensures !(a.Contains(p) && b.Contains(p))
  {
  }

  /** The centre of a non-empty rectangle at non-negative coordinates is one of
      its own cells (truncating and flooring division agree there). */
  lemma CenterInside(r: Rect)
    requires 0 <= r.x1 < r.x2 && 0 <= r.y1 < r.y2
    ensures r.Contains(r.Center())
  {
  }
}
