/**
 * The boundary of a generated dungeon. The margin test only keeps a room
 * off the boundary itself, so a room touching row 1, row 48, column 1 or
 * column 78 can get its door on that edge, and the exit cell one step out
 * from the door, which a corridor then digs, lies on the boundary. Rooms
 * kept two cells from the edge leave the whole boundary wall.
 */
module DungeonBorder {
  import opened Grid
  import opened Tiles
  import opened Rects
  import opened Carving
  import opened Doors
  import opened Dungeon
  import opened DungeonProps

  /** A cell strictly inside the boundary: column 1..78, row 1..48. */
  predicate Interior(p: Point) {
    1 <= p.x <= Width - 2 && 1 <= p.y <= Height - 2
  }

  /** Two cells from every edge: the margin that keeps doors and exits off the boundary. */
  predicate InnerMargin(r: Rect) {
    2 <= r.x1 && r.x2 <= Width - 3 && 2 <= r.y1 && r.y2 <= Height - 3
  }

  /** The index of an interior cell is not a boundary index. */
  lemma InteriorIndex(p: Point)
    requires Interior(p)
    ensures !OnBorder(Idx(p))
  {
    XyIdxCoords(p.x, p.y);
  }

  /** A door on the perimeter of a room inside the inner margin, and its exit cell, are interior. */
  lemma ExitInterior(p: Point, room: Rect)
    requires Ordered(room) && InnerMargin(room) && OnPerimeter(p, room)
    ensures Interior(p) && Interior(GetExitPoint(p, room))
  {
  }

  /** A horizontal tunnel between interior columns, on an interior row, stays off the boundary. */
  lemma RowInterior(i: int, x1: int, x2: int, y: int)
    requires 1 <= x1 <= Width - 2 && 1 <= x2 <= Width - 2 && 1 <= y <= Height - 2
    requires OnRow(i, x1, x2, y)
    ensures !OnBorder(i)
  {
    var x := i - y * Width;
    assert i == XyIdx(x, y);
    XyIdxCoords(x, y);
  }

  /** A vertical tunnel between interior rows, in an interior column, stays off the boundary. */
  lemma ColumnInterior(i: int, y1: int, y2: int, x: int)
    requires 1 <= y1 <= Height - 2 && 1 <= y2 <= Height - 2 && 1 <= x <= Width - 2
    requires OnColumn(i, y1, y2, x)
    ensures !OnBorder(i)
  {
    var y := (i - x) / Width;
    assert i == XyIdx(x, y);
    XyIdxCoords(x, y);
  }

  /** An L-shaped corridor between interior exits stays off the boundary. */
  lemma CorridorInterior(c1: Point, c2: Point, coin: int, i: int)
    requires Interior(c1) && Interior(c2) && OnCorridor(c1, c2, coin, i)
    ensures !OnBorder(i)
  {
    if coin == 1 {
      if OnRow(i, c1.x, c2.x, c1.y) {
        RowInterior(i, c1.x, c2.x, c1.y);
      } else {
        ColumnInterior(i, c1.y, c2.y, c2.x);
      }
    } else {
      if OnColumn(i, c1.y, c2.y, c1.x) {
        ColumnInterior(i, c1.y, c2.y, c1.x);
      } else {
        RowInterior(i, c1.x, c2.x, c2.y);
      }
    }
  }

  /**
   * With every room two cells from the edge, every boundary cell of the
   * dungeon is the biome's wall: no door, room or corridor reaches it.
   */
  lemma DungeonBorderKept(biome: Biome, ops: RectOps, rooms: seq<Rect>, coins: seq<int>, i: int)
    requires RoomsOk(rooms) && |rooms| <= |coins| + 1
    requires forall k :: 0 <= k < |rooms| ==> InnerMargin(rooms[k])
    requires 0 <= i < Cells && OnBorder(i)
    ensures DungeonTiles(biome, ops, rooms, coins)[i] == biome.Wall()
  {
    DungeonTilesCell(biome, ops, rooms, coins, i);
    RoomDoorsPlaced(ops, rooms);
    var ds := RoomDoors(ops, rooms);
    var es := RoomExits(ops, rooms);
    forall k | 0 <= k < |rooms|
      ensures Interior(ds[k]) && Interior(es[k])
    {
      ExitInterior(ds[k], rooms[k]);
    }
    assert !Hits(DoorsOf(ops, rooms), i) by {
      forall k | 0 <= k < |DoorsOf(ops, rooms)|
        ensures Idx(DoorsOf(ops, rooms)[k]) != i
      {
        PairedFrom(ds, k);
        var j :| 0 <= j < |ds| && Paired(ds)[k] == ds[j];
        InteriorIndex(ds[j]);
      }
    }
    assert !Dug(es, coins, i) by {
      forall j | 1 <= j < |es|
        ensures !OnCorridor(es[j - 1], es[j], coins[j - 1], i)
      {
        if OnCorridor(es[j - 1], es[j], coins[j - 1], i) {
          CorridorInterior(es[j - 1], es[j], coins[j - 1], i);
        }
      }
    }
  }

  /**
   * Rect as the usual rect.rs defines it: Rect::new(x, y, w, h) spans x..x+w
   * and y..y+h, the centre is the midpoint, and intersection is overlap of
   * the closed rectangles.
   */
  function UsualRects(): RectOps {
    RectOps(
      (x: int, y: int, w: int, h: int) => Rect(x, y, x + w, y + h),
      (r: Rect) => Point((r.x1 + r.x2) / 2, (r.y1 + r.y2) / 2),
      (a: Rect, b: Rect) => a.x1 <= b.x2 && a.x2 >= b.x1 && a.y1 <= b.y2 && a.y2 >= b.y1)
  }

  /**
   * Thirty room trials: a 6x6 room at (10, 1) touching row 1, a 6x6 room at
   * (30, 20), and the first proposal again twenty-eight times.
   */
  function NorthEdgeTrials(): seq<RoomTrial> {
    [RoomTrial(6, 6, 11, 2), RoomTrial(6, 6, 31, 21)] + seq(28, _ => RoomTrial(6, 6, 11, 2))
  }

  /** The two rooms those trials leave. */
  function NorthEdgeRooms(): seq<Rect> {
    [Rect(10, 1, 16, 7), Rect(30, 20, 36, 26)]
  }

  /** Repeating a proposal that meets the first accepted room accepts nothing more. */
  lemma {:induction false} RejectedRepeats(ops: RectOps, trials: seq<RoomTrial>, t: RoomTrial, n: nat)
    requires |AcceptedRooms(ops, trials)| > 0
    requires ops.intersect(Proposed(ops, t), AcceptedRooms(ops, trials)[0])
    ensures AcceptedRooms(ops, trials + seq(n, _ => t)) == AcceptedRooms(ops, trials)
  {
    var longer := trials + seq(n, _ => t);
    if n == 0 {
      assert longer == trials;
    } else {
      assert longer[..|longer| - 1] == trials + seq(n - 1, _ => t);
      assert longer[|longer| - 1] == t;
      RejectedRepeats(ops, trials, t, n - 1);
      assert !Accepts(ops, Proposed(ops, t), AcceptedRooms(ops, trials));
    }
  }

  /**
   * The trials are thirty draws roll_dice and range can give, and the
   * margin and intersection tests keep exactly the first two proposals.
   */
  lemma NorthEdgeAccepted()
    ensures BuildsOrdered(UsualRects())
    ensures |NorthEdgeTrials()| == MaxRooms
    ensures forall t :: 0 <= t < MaxRooms ==> TrialInRange(NorthEdgeTrials()[t])
    ensures AcceptedRooms(UsualRects(), NorthEdgeTrials()) == NorthEdgeRooms()
    ensures RoomsOk(NorthEdgeRooms())
  {
    var ops := UsualRects();
    var t1, t2 := RoomTrial(6, 6, 11, 2), RoomTrial(6, 6, 31, 21);
    var rooms := NorthEdgeRooms();
    assert Proposed(ops, t1) == rooms[0] && Proposed(ops, t2) == rooms[1];
    assert [t1, t2][..1] == [t1] && [t1][..0] == [];
    assert AcceptedRooms(ops, [t1]) == [rooms[0]];
    assert AcceptedRooms(ops, [t1, t2]) == rooms;
    RejectedRepeats(ops, [t1, t2], t1, 28);
  }

  /**
   * Both centres lie strictly inside their rooms and all four candidates
   * are equally far, so each door is the north candidate; the first room's
   * exit is one step north of its door, on row 0.
   */
  lemma NorthEdgeExits()
    ensures RoomDoors(UsualRects(), NorthEdgeRooms()) == [Point(13, 1), Point(33, 20)]
    ensures RoomExits(UsualRects(), NorthEdgeRooms()) == [Point(13, 0), Point(33, 19)]
  {
    var ops := UsualRects();
    var rooms := NorthEdgeRooms();
    var cs := Candidates(13, 4, rooms[0]);
    assert cs == [Point(13, 1), Point(13, 7), Point(10, 4), Point(16, 4)];
    assert Nearest(cs[3..], 13, 4) == Point(16, 4);
    assert Nearest(cs[2..], 13, 4) == Point(10, 4);
    assert Nearest(cs[1..], 13, 4) == Point(13, 7);
    assert RoomDoor(ops, rooms[0]) == Point(13, 1);
    var ds := Candidates(33, 23, rooms[1]);
    assert ds == [Point(33, 20), Point(33, 26), Point(30, 23), Point(36, 23)];
    assert Nearest(ds[3..], 33, 23) == Point(36, 23);
    assert Nearest(ds[2..], 33, 23) == Point(30, 23);
    assert Nearest(ds[1..], 33, 23) == Point(33, 26);
    assert RoomDoor(ops, rooms[1]) == Point(33, 20);
  }

  /**
   * As written, a generated Building dungeon can have a walkable boundary
   * cell: with the trials above the corridor between the two rooms starts
   * from the exit (13, 0) on row 0 and digs it, whatever the coins.
   */
  lemma ExitOnBorder(coins: seq<int>)
    requires |coins| == MaxRooms - 1
    ensures AcceptedRooms(UsualRects(), NorthEdgeTrials()) == NorthEdgeRooms() && RoomsOk(NorthEdgeRooms())
    ensures OnBorder(XyIdx(13, 0))
    ensures DungeonTiles(Building, UsualRects(), NorthEdgeRooms(), coins)[XyIdx(13, 0)].walkable
  {
    var ops := UsualRects();
    var rooms := NorthEdgeRooms();
    NorthEdgeAccepted();
    NorthEdgeExits();
    var es := RoomExits(ops, rooms);
    assert OnCorridor(es[0], es[1], coins[0], 13);
    assert Dug(es, coins, 13);
    DungeonTilesCell(Building, ops, rooms, coins, 13);
    DoorsAt(ops, rooms, 1);
    assert DoorsOf(ops, rooms) == [Point(13, 1), Point(33, 20)];
    assert !Hits(DoorsOf(ops, rooms), 13);
  }
}
