/**
 * The 80x50 grid every map of the game uses, the coordinate-to-index
 * conversion, and a fold that writes one value at each of a list of cells
 * (the shape of every "for each point: tiles[xy_idx(p)] = v" loop).
 */
module Grid {
  const Width: int := 80
  const Height: int := 50
  const Cells: int := 4000

  /** A cell coordinate: the Position component and rltk's Point alike. */
  datatype Point = Point(x: int, y: int)

  predicate InGrid(p: Point) {
    0 <= p.x < Width && 0 <= p.y < Height
  }

  /**
   * xy_idx: row-major index with the row width fixed at 80, whatever a map
   * says its width is. Coordinates are cast to an unsigned size first, so
   * the model takes non-negative coordinates only.
   */
  function XyIdx(x: int, y: int): (i: int)
    requires 0 <= x && 0 <= y
    ensures 0 <= i
    ensures 0 <= x < Width && 0 <= y < Height ==> i < Cells
  {
    y * 80 + x
  }

  function Idx(p: Point): (i: int)
    requires InGrid(p)
    ensures 0 <= i < Cells
  {
    XyIdx(p.x, p.y)
  }

  /** Column and row of a cell index. */
  function Col(i: int): int { i % Width }
  function Row(i: int): int { i / Width }

  /** A boundary cell: row 0, row 49, column 0 or column 79. */
  predicate OnBorder(i: int) {
    Row(i) == 0 || Row(i) == Height - 1 || Col(i) == 0 || Col(i) == Width - 1
  }

  /** The index of a grid cell gives back its coordinates. */
  lemma XyIdxCoords(x: int, y: int)
    requires 0 <= x < Width && 0 <= y
    ensures Col(XyIdx(x, y)) == x && Row(XyIdx(x, y)) == y
  {
  }

  /** Every index of the grid is the index of exactly one cell. */
  lemma CellOfIndex(i: int)
    requires 0 <= i < Cells
    ensures InGrid(Point(Col(i), Row(i))) && XyIdx(Col(i), Row(i)) == i
  {
  }

  /** xy_idx is injective on the grid. */
  lemma XyIdxInjective(p: Point, q: Point)
    requires InGrid(p) && InGrid(q) && Idx(p) == Idx(q)
    ensures p == q
  {
    XyIdxCoords(p.x, p.y);
    XyIdxCoords(q.x, q.y);
  }

  predicate AllInGrid(pts: seq<Point>) {
    forall k :: 0 <= k < |pts| ==> InGrid(pts[k])
  }

  /** Some point of `pts` has index `i`. */
  ghost predicate Hits(pts: seq<Point>, i: int)
    requires AllInGrid(pts)
  {
    exists k :: 0 <= k < |pts| && Idx(pts[k]) == i
  }

  /** A grid buffer holding `v` in every cell. */
  function Filled<T>(v: T): (s: seq<T>)
    ensures |s| == Cells && forall i :: 0 <= i < Cells ==> s[i] == v
  {
    seq(Cells, _ => v)
  }

  /** Writes `v` at the index of each point of `pts`, in order. */
  function Stamp<T>(s: seq<T>, v: T, pts: seq<Point>): (r: seq<T>)
    requires |s| == Cells && AllInGrid(pts)
    ensures |r| == Cells
    decreases |pts|
  {
    if pts == [] then s
    else Stamp(s, v, pts[..|pts| - 1])[Idx(pts[|pts| - 1]) := v]
  }

  /** After a stamp, a cell holds `v` exactly when some point hit it, and is unchanged otherwise. */
  lemma {:induction false} StampAt<T>(s: seq<T>, v: T, pts: seq<Point>, i: int)
    requires |s| == Cells && AllInGrid(pts) && 0 <= i < Cells
    ensures Stamp(s, v, pts)[i] == if Hits(pts, i) then v else s[i]
    decreases |pts|
  {
    if pts != [] {
      var init, last := pts[..|pts| - 1], pts[|pts| - 1];
      StampAt(s, v, init, i);
      if Hits(pts, i) && Idx(last) != i {
        var k :| 0 <= k < |pts| && Idx(pts[k]) == i;
        assert init[k] == pts[k];
      }
      if Hits(init, i) {
        var k :| 0 <= k < |init| && Idx(init[k]) == i;
        assert pts[k] == init[k];
      }
      if Idx(last) == i {
        assert Idx(pts[|pts| - 1]) == i;
      }
    }
  }

  /** Stamping one more point is one more write. */
  lemma StampSnoc<T>(s: seq<T>, v: T, pts: seq<Point>, p: Point)
    requires |s| == Cells && AllInGrid(pts) && InGrid(p)
    ensures Stamp(s, v, pts + [p]) == Stamp(s, v, pts)[Idx(p) := v]
  {
    assert (pts + [p])[..|pts|] == pts;
  }

  /** Writes `v` at the index of each point of `pts`, in order, in place. */
  method StampCells<T>(a: array<T>, v: T, pts: seq<Point>)
    requires a.Length == Cells && AllInGrid(pts)
    modifies a
    ensures a[..] == Stamp(old(a[..]), v, pts)
  {
    var j := 0;
    while j < |pts|
      invariant 0 <= j <= |pts|
      invariant a[..] == Stamp(old(a[..]), v, pts[..j])
    {
      StampSnoc(old(a[..]), v, pts[..j], pts[j]);
      assert pts[..j + 1] == pts[..j] + [pts[j]];
      a[XyIdx(pts[j].x, pts[j].y)] := v;
      j := j + 1;
    }
    assert pts[..|pts|] == pts;
  }
}
