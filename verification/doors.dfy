/**
 * Door placement for the dungeon generator: the search for a door on a
 * room's perimeter and the exit cell a corridor starts from.
 */
module Doors {
  import opened Wrappers
  import opened Grid
  import opened Rects

  /** Squared Euclidean distance from `p` to (cx, cy). */
  function SqDist(p: Point, cx: int, cy: int): int {
    (p.x - cx) * (p.x - cx) + (p.y - cy) * (p.y - cy)
  }

  /**
   * The candidate list in push order: north and south when cx lies strictly
   * inside the x-span, west and east when cy lies strictly inside the y-span,
   * and the four corners when neither does.
   */
  function Candidates(cx: int, cy: int, room: Rect): (cs: seq<Point>)
    ensures 2 <= |cs| <= 4
  {
    var inX := room.x1 < cx < room.x2;
    var inY := room.y1 < cy < room.y2;
    if inX && inY then
      [Point(cx, room.y1), Point(cx, room.y2), Point(room.x1, cy), Point(room.x2, cy)]
    else if inX then [Point(cx, room.y1), Point(cx, room.y2)]
    else if inY then [Point(room.x1, cy), Point(room.x2, cy)]
    else [Point(room.x1, room.y1), Point(room.x1, room.y2), Point(room.x2, room.y1), Point(room.x2, room.y2)]
  }

  /** Every candidate of a room with ordered bounds lies on its perimeter. */
  lemma CandidatesOnPerimeter(cx: int, cy: int, room: Rect)
    ensures Ordered(room) ==> forall k :: 0 <= k < |Candidates(cx, cy, room)| ==> OnPerimeter(Candidates(cx, cy, room)[k], room)
  {
  }

  /**
   * Position k holds a candidate of least distance to (cx, cy), and every
   * earlier position is strictly farther: the element a stable sort by
   * distance puts first.
   */
  predicate IsFirstNearest(cs: seq<Point>, cx: int, cy: int, k: int) {
    0 <= k < |cs| &&
    (forall j :: 0 <= j < |cs| ==> SqDist(cs[k], cx, cy) <= SqDist(cs[j], cx, cy)) &&
    (forall j :: 0 <= j < k ==> SqDist(cs[k], cx, cy) < SqDist(cs[j], cx, cy))
  }

  /** The candidate a stable sort by distance to (cx, cy) puts first, found by one scan. */
  function Nearest(cs: seq<Point>, cx: int, cy: int): (p: Point)
    requires |cs| > 0
    decreases |cs|
  {
    if |cs| == 1 then cs[0]
    else
      var rest := Nearest(cs[1..], cx, cy);
      if SqDist(cs[0], cx, cy) <= SqDist(rest, cx, cy) then cs[0] else rest
  }

  /** The scan returns the candidate at the position a stable sort by distance puts first. */
  lemma {:induction false} NearestIsFirst(cs: seq<Point>, cx: int, cy: int)
    requires |cs| > 0
    ensures exists k :: IsFirstNearest(cs, cx, cy, k) && Nearest(cs, cx, cy) == cs[k]
    decreases |cs|
  {
    if |cs| == 1 {
      assert IsFirstNearest(cs, cx, cy, 0);
    } else {
      NearestIsFirst(cs[1..], cx, cy);
      var k :| IsFirstNearest(cs[1..], cx, cy, k) && Nearest(cs[1..], cx, cy) == cs[1..][k];
      forall j | 1 <= j < |cs|
        ensures cs[j] == cs[1..][j - 1]
      {
      }
      if SqDist(cs[0], cx, cy) <= SqDist(cs[1 + k], cx, cy) {
        assert IsFirstNearest(cs, cx, cy, 0);
      } else {
        assert IsFirstNearest(cs, cx, cy, 1 + k);
      }
    }
  }

  /** `p` is the candidate a stable sort by distance to (cx, cy) puts first. */
  ghost predicate IsNearestCandidate(cx: int, cy: int, room: Rect, p: Point) {
    exists k :: IsFirstNearest(Candidates(cx, cy, room), cx, cy, k) && p == Candidates(cx, cy, room)[k]
  }

  /** find_door_candidate: the first candidate of least distance; the candidate list is never empty. */
  function FindDoorCandidate(cx: int, cy: int, room: Rect): (r: Option<Point>)
    ensures r.Some?
  {
    Some(Nearest(Candidates(cx, cy, room), cx, cy))
  }

  /**
   * The door found is the candidate a stable sort by distance to (cx, cy)
   * puts first, and it lies on the room's perimeter.
   */
  lemma DoorIsNearest(cx: int, cy: int, room: Rect)
    ensures IsNearestCandidate(cx, cy, room, FindDoorCandidate(cx, cy, room).value)
    ensures Ordered(room) ==> OnPerimeter(FindDoorCandidate(cx, cy, room).value, room)
  {
    NearestIsFirst(Candidates(cx, cy, room), cx, cy);
    CandidatesOnPerimeter(cx, cy, room);
  }

  /** One orthogonal step apart. */
  predicate Adjacent(p: Point, q: Point) {
    (p.x == q.x && (p.y - q.y == 1 || q.y - p.y == 1)) ||
    (p.y == q.y && (p.x - q.x == 1 || q.x - p.x == 1))
  }

  /**
   * get_exit_point: the cell one step out from a door, testing the west
   * wall, then east, then north, and taking south otherwise. For a door on
   * the perimeter the exit lies outside the closed room.
   */
  function GetExitPoint(p: Point, room: Rect): (e: Point)
    ensures Adjacent(p, e)
    ensures e.x < p.x <==> p.x == room.x1
    ensures e.x > p.x <==> p.x != room.x1 && p.x == room.x2
    ensures e.y < p.y <==> p.x != room.x1 && p.x != room.x2 && p.y == room.y1
    ensures Ordered(room) && OnPerimeter(p, room) ==> !InClosed(e, room)
  {
    if p.x == room.x1 then Point(p.x - 1, p.y)
    else if p.x == room.x2 then Point(p.x + 1, p.y)
    else if p.y == room.y1 then Point(p.x, p.y - 1)
    else Point(p.x, p.y + 1)
  }

  /** A door of a room inside the margin, and its exit cell, lie on the grid. */
  lemma ExitInGrid(c: Point, room: Rect)
    requires Ordered(room) && WithinMargin(room)
    ensures InGrid(FindDoorCandidate(c.x, c.y, room).value)
    ensures InGrid(GetExitPoint(FindDoorCandidate(c.x, c.y, room).value, room))
  {
    DoorIsNearest(c.x, c.y, room);
  }
}
