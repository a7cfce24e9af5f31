/**
 * Rooms. The rectangle's four bounds are used directly by the generators;
 * its constructor, centre and intersection test live in a file that is not
 * part of this model, so a caller supplies them as a RectOps value and every
 * assumption about them is a precondition.
 */
module Rects {
  import opened Grid

  datatype Rect = Rect(x1: int, y1: int, x2: int, y2: int)

  /** Rect::new(x, y, w, h), Rect::center() and Rect::intersect(other), left abstract. */
  datatype RectOps = RectOps(
    build: (int, int, int, int) -> Rect,
    center: Rect -> Point,
    intersect: (Rect, Rect) -> bool)

  /** Lower bounds do not exceed upper bounds. */
  predicate Ordered(r: Rect) {
    r.x1 <= r.x2 && r.y1 <= r.y2
  }

  /**
   * The one assumption on Rect::new: a rectangle built with a positive width
   * and height has its bounds in order.
   */
  ghost predicate BuildsOrdered(ops: RectOps) {
    forall x, y, w, h :: 0 < w && 0 < h ==> Ordered(ops.build(x, y, w, h))
  }

  /** The closed rectangle, edges included. */
  predicate InClosed(p: Point, r: Rect) {
    r.x1 <= p.x <= r.x2 && r.y1 <= p.y <= r.y2
  }

  /** On one of the four edges of the closed rectangle. */
  predicate OnPerimeter(p: Point, r: Rect) {
    InClosed(p, r) && (p.x == r.x1 || p.x == r.x2 || p.y == r.y1 || p.y == r.y2)
  }

  /** Inside the one-tile margin the dungeon generator demands of every room. */
  predicate WithinMargin(r: Rect) {
    1 <= r.x1 && r.x2 <= Width - 2 && 1 <= r.y1 && r.y2 <= Height - 2
  }
}
