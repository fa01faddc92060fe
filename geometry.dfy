/** Axis-aligned rectangles and the strict overlap test used for hit detection. */
module Geometry {

  /** A rectangle with its top-left corner at (x, y), width w and height h. */
  datatype Rect = Rect(x: real, y: real, w: real, h: real)

  /** True when the two rectangles share interior area; touching edges do not count. */
  predicate Overlap(a: Rect, b: Rect) {
    a.x < b.x + b.w && a.x + a.w > b.x && a.y < b.y + b.h && a.y + a.h > b.y
  }

  /** A rectangle with positive width and height. */
  predicate Proper(r: Rect) {
    r.w > 0.0 && r.h > 0.0
  }

  /** The point (px, py) lies strictly inside r. */
  predicate Inside(r: Rect, px: real, py: real) {
    r.x < px < r.x + r.w && r.y < py < r.y + r.h
  }

  /** The overlap test is symmetric in its two arguments. */
  lemma OverlapSymmetric(a: Rect, b: Rect)
    ensures Overlap(a, b) <==> Overlap(b, a)
  {
  }

  /** Rectangles that only share an edge do not overlap, since the test is strict. */
  lemma TouchingEdgesDoNotOverlap(a: Rect, b: Rect)
    requires a.x + a.w == b.x || b.x + b.w == a.x || a.y + a.h == b.y || b.y + b.h == a.y
    ensures !Overlap(a, b)
  {
  }

  /** For proper rectangles the test holds exactly when some point is strictly inside both. */
  lemma OverlapIffCommonPoint(a: Rect, b: Rect)
    requires Proper(a) && Proper(b)
    ensures Overlap(a, b) <==> exists px, py :: Inside(a, px, py) && Inside(b, px, py)
  {
    if Overlap(a, b) {
      var left := if a.x < b.x then b.x else a.x;
      var right := if a.x + a.w < b.x + b.w then a.x + a.w else b.x + b.w;
      var top := if a.y < b.y then b.y else a.y;
      var bottom := if a.y + a.h < b.y + b.h then a.y + a.h else b.y + b.h;
      var px, py := (left + right) / 2.0, (top + bottom) / 2.0;
      assert Inside(a, px, py) && Inside(b, px, py);
    }
  }
}
