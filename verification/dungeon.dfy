/**
 * dungeon_map: rejection-sampled rooms on a solid map, carved out, joined
 * in acceptance order by L-shaped corridors between door exits, with the
 * doors stamped only after every corridor is dug.
 */
module Dungeon {
  import opened Wrappers
  import opened Grid
  import opened Tiles
  import opened Rects
  import opened Maps
  import opened Carving
  import opened Doors

  const MaxRooms: int := 30
  const MinSize: int := 6
  const MaxSize: int := 10

  /**
   * The draws of one room trial: width and height from range(6, 10), and the
   * two dice roll_dice(1, 80 - w - 1) and roll_dice(1, 50 - h - 1).
   */
  datatype RoomTrial = RoomTrial(w: int, h: int, xRoll: int, yRoll: int)

  predicate TrialInRange(t: RoomTrial) {
    MinSize <= t.w < MaxSize && MinSize <= t.h < MaxSize &&
    1 <= t.xRoll <= Width - t.w - 1 && 1 <= t.yRoll <= Height - t.h - 1
  }

  /** The room a trial proposes: Rect::new(roll - 1, roll - 1, w, h). */
  function Proposed(ops: RectOps, t: RoomTrial): Rect {
    ops.build(t.xRoll - 1, t.yRoll - 1, t.w, t.h)
  }

  /** The acceptance test: no accepted room intersects the new one, and it keeps the margin. */
  predicate Accepts(ops: RectOps, r: Rect, accepted: seq<Rect>) {
    (forall k :: 0 <= k < |accepted| ==> !ops.intersect(r, accepted[k])) && WithinMargin(r)
  }

  /** The rooms the trials leave, in acceptance order. */
  function AcceptedRooms(ops: RectOps, trials: seq<RoomTrial>): seq<Rect>
    decreases |trials|
  {
    if trials == [] then []
    else
      var before := AcceptedRooms(ops, trials[..|trials| - 1]);
      var r := Proposed(ops, trials[|trials| - 1]);
      if Accepts(ops, r, before) then before + [r] else before
  }

  /**
   * Never more rooms than trials; each room keeps the margin, is some
   * trial's proposal, and intersects no room accepted before it.
   */
  lemma {:induction false} AcceptedRoomsSound(ops: RectOps, trials: seq<RoomTrial>)
    ensures |AcceptedRooms(ops, trials)| <= |trials|
    ensures forall k :: 0 <= k < |AcceptedRooms(ops, trials)| ==> WithinMargin(AcceptedRooms(ops, trials)[k])
    ensures forall i, j :: 0 <= i < j < |AcceptedRooms(ops, trials)| ==>
      !ops.intersect(AcceptedRooms(ops, trials)[j], AcceptedRooms(ops, trials)[i])
    ensures forall k :: 0 <= k < |AcceptedRooms(ops, trials)| ==>
      exists t :: 0 <= t < |trials| && AcceptedRooms(ops, trials)[k] == Proposed(ops, trials[t])
    decreases |trials|
  {
    if trials != [] {
      var init := trials[..|trials| - 1];
      AcceptedRoomsSound(ops, init);
      var rooms := AcceptedRooms(ops, trials);
      forall k | 0 <= k < |rooms|
        ensures exists t :: 0 <= t < |trials| && rooms[k] == Proposed(ops, trials[t])
      {
        if k < |AcceptedRooms(ops, init)| {
          var t :| 0 <= t < |init| && AcceptedRooms(ops, init)[k] == Proposed(ops, init[t]);
          assert init[t] == trials[t];
        } else {
          assert rooms[k] == Proposed(ops, trials[|trials| - 1]);
        }
      }
    }
  }

  /** With the one assumption on Rect::new, every accepted room has its bounds in order. */
  lemma {:induction false} AcceptedRoomsOrdered(ops: RectOps, trials: seq<RoomTrial>)
    requires BuildsOrdered(ops)
    requires forall t :: 0 <= t < |trials| ==> TrialInRange(trials[t])
    ensures forall k :: 0 <= k < |AcceptedRooms(ops, trials)| ==> Ordered(AcceptedRooms(ops, trials)[k])
    decreases |trials|
  {
    if trials != [] {
      AcceptedRoomsOrdered(ops, trials[..|trials| - 1]);
      var t := trials[|trials| - 1];
      assert Ordered(ops.build(t.xRoll - 1, t.yRoll - 1, t.w, t.h));
    }
  }

  /** The room-trial loop, with its inner scan over the rooms accepted so far. */
  method PlaceRooms(ops: RectOps, trials: seq<RoomTrial>) returns (rooms: seq<Rect>)
    requires |trials| == MaxRooms
    ensures rooms == AcceptedRooms(ops, trials)
  {
    rooms := [];
    var n := 0;
    while n < MaxRooms
      invariant 0 <= n <= MaxRooms
      invariant rooms == AcceptedRooms(ops, trials[..n])
    {
      var t := trials[n];
      var newRoom := ops.build(t.xRoll - 1, t.yRoll - 1, t.w, t.h);
      var ok := true;
      var k := 0;
      while k < |rooms|
        invariant 0 <= k <= |rooms|
        invariant ok <==> forall j :: 0 <= j < k ==> !ops.intersect(newRoom, rooms[j])
      {
        if ops.intersect(newRoom, rooms[k]) {
          ok := false;
        }
        k := k + 1;
      }
      if newRoom.x1 < 1 || newRoom.x2 > 78 || newRoom.y1 < 1 || newRoom.y2 > 48 {
        ok := false;
      }
      if ok {
        rooms := rooms + [newRoom];
      }
      assert trials[..n + 1][..n] == trials[..n];
      n := n + 1;
    }
    assert trials[..MaxRooms] == trials;
  }

  /** Rooms the connection phase can work with: bounds in order, inside the margin. */
  predicate RoomsOk(rooms: seq<Rect>) {
    forall k :: 0 <= k < |rooms| ==> Ordered(rooms[k]) && WithinMargin(rooms[k])
  }

  /** Carves every room in order. */
  function CarvedRooms(s: seq<Tile>, rooms: seq<Rect>, floor: Tile): (c: seq<Tile>)
    requires |s| == Cells
    ensures |c| == Cells
    decreases |rooms|
  {
    if rooms == [] then s
    else CarveRoom(CarvedRooms(s, rooms[..|rooms| - 1], floor), rooms[|rooms| - 1], floor)
  }

  /**
   * The door a room gets: searched from the room's own centre. The search
   * always succeeds, so the source's test that both searches found a door
   * always passes.
   */
  function RoomDoor(ops: RectOps, r: Rect): Point {
    var c := ops.center(r);
    FindDoorCandidate(c.x, c.y, r).value
  }

  /** The cell a corridor leaves a room from: one step outside its door. */
  function RoomExit(ops: RectOps, r: Rect): Point {
    GetExitPoint(RoomDoor(ops, r), r)
  }

  /** The door of every room, in room order. */
  function RoomDoors(ops: RectOps, rooms: seq<Rect>): (ds: seq<Point>)
    ensures |ds| == |rooms|
  {
    seq(|rooms|, k requires 0 <= k < |rooms| => RoomDoor(ops, rooms[k]))
  }

  /** The exit cell of every room, in room order. */
  function RoomExits(ops: RectOps, rooms: seq<Rect>): (es: seq<Point>)
    ensures |es| == |rooms|
  {
    seq(|rooms|, k requires 0 <= k < |rooms| => RoomExit(ops, rooms[k]))
  }

  /**
   * For rooms inside the margin, every door lies on the grid and on its
   * room's perimeter, and every exit cell lies on the grid, next to the
   * door and outside the closed room.
   */
  lemma RoomDoorsPlaced(ops: RectOps, rooms: seq<Rect>)
    requires RoomsOk(rooms)
    ensures AllInGrid(RoomDoors(ops, rooms)) && AllInGrid(RoomExits(ops, rooms))
    ensures forall k :: 0 <= k < |rooms| ==>
      OnPerimeter(RoomDoors(ops, rooms)[k], rooms[k]) && Adjacent(RoomDoors(ops, rooms)[k], RoomExits(ops, rooms)[k])
    ensures forall k :: 0 <= k < |rooms| ==> !InClosed(RoomExits(ops, rooms)[k], rooms[k])
  {
    forall k | 0 <= k < |rooms|
      ensures InGrid(RoomDoors(ops, rooms)[k]) && InGrid(RoomExits(ops, rooms)[k])
      ensures OnPerimeter(RoomDoors(ops, rooms)[k], rooms[k]) && Adjacent(RoomDoors(ops, rooms)[k], RoomExits(ops, rooms)[k])
      ensures !InClosed(RoomExits(ops, rooms)[k], rooms[k])
    {
      var c := ops.center(rooms[k]);
      DoorIsNearest(c.x, c.y, rooms[k]);
      ExitInGrid(c, rooms[k]);
    }
  }

  /**
   * The doors recorded by the connection loop, given each room's door:
   * connection i (1 <= i) records the door of room i-1, then that of room i.
   */
  function Paired(ds: seq<Point>): (ps: seq<Point>)
    ensures |ps| == if |ds| <= 1 then 0 else 2 * (|ds| - 1)
    decreases |ds|
  {
    if |ds| <= 1 then []
    else
      var n := |ds|;
      Paired(ds[..n - 1]) + [ds[n - 2], ds[n - 1]]
  }

  /** One more connection appends the doors of its two rooms. */
  lemma PairedSnoc(ds: seq<Point>, i: int)
    requires 1 <= i < |ds|
    ensures Paired(ds[..i + 1]) == Paired(ds[..i]) + [ds[i - 1], ds[i]]
  {
    assert ds[..i + 1][..i] == ds[..i];
  }

  /** Connection i records the door of room i-1 at 2(i-1) and the door of room i at 2i-1. */
  lemma {:induction false} PairedAt(ds: seq<Point>, i: int)
    requires 1 <= i < |ds|
    ensures Paired(ds)[2 * (i - 1)] == ds[i - 1]
    ensures Paired(ds)[2 * i - 1] == ds[i]
    decreases |ds|
  {
    var n := |ds|;
    var init := ds[..n - 1];
    if i < n - 1 {
      PairedAt(init, i);
      assert init[i - 1] == ds[i - 1] && init[i] == ds[i];
    }
  }

  /** Every recorded door is the door of some room. */
  lemma {:induction false} PairedFrom(ds: seq<Point>, k: int)
    requires 0 <= k < |Paired(ds)|
    ensures exists j :: 0 <= j < |ds| && Paired(ds)[k] == ds[j]
    decreases |ds|
  {
    var n := |ds|;
    var init := ds[..n - 1];
    if k < |Paired(init)| {
      PairedFrom(init, k);
      var j :| 0 <= j < |init| && Paired(init)[k] == init[j];
      assert init[j] == ds[j];
    } else if k == |Paired(init)| {
      assert Paired(ds)[k] == ds[n - 2];
    } else {
      assert Paired(ds)[k] == ds[n - 1];
    }
  }

  /** For rooms inside the margin, every recorded door lies on the grid. */
  lemma DoorsInGrid(ops: RectOps, rooms: seq<Rect>)
    requires RoomsOk(rooms)
    ensures AllInGrid(DoorsOf(ops, rooms))
  {
    RoomDoorsPlaced(ops, rooms);
    var ds := RoomDoors(ops, rooms);
    forall k | 0 <= k < |Paired(ds)|
      ensures InGrid(Paired(ds)[k])
    {
      PairedFrom(ds, k);
    }
  }

  /** The doors dungeon_map records for the accepted rooms. */
  function DoorsOf(ops: RectOps, rooms: seq<Rect>): seq<Point> {
    Paired(RoomDoors(ops, rooms))
  }

  /** Connection i records the door of room i-1, then the door of room i. */
  lemma DoorsAt(ops: RectOps, rooms: seq<Rect>, i: int)
    requires 1 <= i < |rooms|
    ensures DoorsOf(ops, rooms)[2 * (i - 1)] == RoomDoors(ops, rooms)[i - 1]
    ensures DoorsOf(ops, rooms)[2 * i - 1] == RoomDoors(ops, rooms)[i]
  {
    PairedAt(RoomDoors(ops, rooms), i);
  }

  /**
   * Every recorded door lies on its own room's perimeter, and because each
   * search starts from the room's own centre, an inner room's door is
   * recorded twice and serves both of its corridors.
   */
  lemma DoorsShared(ops: RectOps, rooms: seq<Rect>, i: int)
    requires 1 <= i < |rooms| && RoomsOk(rooms)
    ensures OnPerimeter(DoorsOf(ops, rooms)[2 * (i - 1)], rooms[i - 1])
    ensures OnPerimeter(DoorsOf(ops, rooms)[2 * i - 1], rooms[i])
    ensures i + 1 < |rooms| ==> DoorsOf(ops, rooms)[2 * i - 1] == DoorsOf(ops, rooms)[2 * i]
  {
    DoorsAt(ops, rooms, i);
    RoomDoorsPlaced(ops, rooms);
    if i + 1 < |rooms| {
      DoorsAt(ops, rooms, i + 1);
    }
  }

  /** The L-shaped corridor from exit c1 to exit c2, horizontal leg first on coin 1. */
  function Connect(s: seq<Tile>, c1: Point, c2: Point, coin: int, floor: Tile): (c: seq<Tile>)
    requires |s| == Cells
    ensures |c| == Cells
  {
    if coin == 1 then
      CarveColumn(CarveRow(s, c1.x, c2.x, c1.y, floor), c1.y, c2.y, c2.x, floor)
    else
      CarveRow(CarveColumn(s, c1.y, c2.y, c1.x, floor), c1.x, c2.x, c2.y, floor)
  }

  /** Every connection in order, given each room's exit cell; connection i uses the i-th coin. */
  function Corridors(s: seq<Tile>, exits: seq<Point>, coins: seq<int>, floor: Tile): (c: seq<Tile>)
    requires |s| == Cells && |exits| <= |coins| + 1
    ensures |c| == Cells
    decreases |exits|
  {
    if |exits| <= 1 then s
    else
      var n := |exits|;
      Connect(Corridors(s, exits[..n - 1], coins, floor), exits[n - 2], exits[n - 1], coins[n - 2], floor)
  }

  /** One more connection digs one more corridor. */
  lemma CorridorsSnoc(s: seq<Tile>, exits: seq<Point>, i: int, coins: seq<int>, floor: Tile)
    requires |s| == Cells && 1 <= i < |exits| <= |coins| + 1
    ensures Corridors(s, exits[..i + 1], coins, floor) ==
      Connect(Corridors(s, exits[..i], coins, floor), exits[i - 1], exits[i], coins[i - 1], floor)
  {
    assert exits[..i + 1][..i] == exits[..i];
  }

  /** The tile buffer dungeon_map returns for the given accepted rooms and coins. */
  function DungeonTiles(biome: Biome, ops: RectOps, rooms: seq<Rect>, coins: seq<int>): (c: seq<Tile>)
    requires RoomsOk(rooms) && |rooms| <= |coins| + 1
    ensures |c| == Cells
  {
    var carved := CarvedRooms(Grid.Filled(biome.Wall()), rooms, biome.Floor());
    var dug := Corridors(carved, RoomExits(ops, rooms), coins, biome.Floor());
    match biome.Door()
    case Some(door) => DoorsInGrid(ops, rooms); Stamp(dug, door, DoorsOf(ops, rooms))
    case None => dug
  }

  /** Carves every accepted room, in acceptance order. */
  method CarveAllRooms(tiles: array<Tile>, rooms: seq<Rect>, biome: Biome)
    requires tiles.Length == Cells && RoomsOk(rooms)
    modifies tiles
    ensures tiles[..] == CarvedRooms(old(tiles[..]), rooms, biome.Floor())
  {
    var k := 0;
    while k < |rooms|
      invariant 0 <= k <= |rooms|
      invariant tiles[..] == CarvedRooms(old(tiles[..]), rooms[..k], biome.Floor())
    {
      ApplyRoomToMap(rooms[k], tiles, biome);
      assert rooms[..k + 1][..k] == rooms[..k];
      k := k + 1;
    }
    assert rooms[..|rooms|] == rooms;
  }

  /** What the connection loop computes for room k: its door and exit, both on the grid. */
  lemma DoorOfRoom(ops: RectOps, rooms: seq<Rect>, k: int)
    requires 0 <= k < |rooms| && Ordered(rooms[k]) && WithinMargin(rooms[k])
    ensures var c := ops.center(rooms[k]);
      var d := FindDoorCandidate(c.x, c.y, rooms[k]).value;
      RoomDoors(ops, rooms)[k] == d && RoomExits(ops, rooms)[k] == GetExitPoint(d, rooms[k]) &&
      InGrid(d) && InGrid(GetExitPoint(d, rooms[k]))
  {
    ExitInGrid(ops.center(rooms[k]), rooms[k]);
  }

  /** Digs one L-shaped corridor between two exit cells on the grid. */
  method DigConnection(tiles: array<Tile>, c1: Point, c2: Point, coin: int, biome: Biome)
    requires tiles.Length == Cells && InGrid(c1) && InGrid(c2)
    modifies tiles
    ensures tiles[..] == Connect(old(tiles[..]), c1, c2, coin, biome.Floor())
  {
    if coin == 1 {
      ApplyHorizontalTunnel(tiles, c1.x, c2.x, c1.y, biome);
      ApplyVerticalTunnel(tiles, c1.y, c2.y, c2.x, biome);
    } else {
      ApplyVerticalTunnel(tiles, c1.y, c2.y, c1.x, biome);
      ApplyHorizontalTunnel(tiles, c1.x, c2.x, c2.y, biome);
    }
  }

  /**
   * One pass of the connection loop: the doors of rooms i-1 and i, searched
   * from each room's own centre, and the corridor dug between their exits.
   */
  method ConnectRooms(tiles: array<Tile>, ops: RectOps, rooms: seq<Rect>, i: int, coins: seq<int>, biome: Biome)
    returns (recorded: seq<Point>)
    requires tiles.Length == Cells && RoomsOk(rooms) && 1 <= i < |rooms| <= |coins| + 1
    modifies tiles
    ensures recorded == [RoomDoors(ops, rooms)[i - 1], RoomDoors(ops, rooms)[i]]
    ensures tiles[..] == Connect(old(tiles[..]), RoomExits(ops, rooms)[i - 1], RoomExits(ops, rooms)[i], coins[i - 1], biome.Floor())
  {
    var next := ops.center(rooms[i]);
    var prev := ops.center(rooms[i - 1]);
    var p1 := FindDoorCandidate(prev.x, prev.y, rooms[i - 1]);
    var p2 := FindDoorCandidate(next.x, next.y, rooms[i]);
    recorded := [];
    if p1.Some? && p2.Some? {
      recorded := [p1.value, p2.value];
      var c1 := GetExitPoint(p1.value, rooms[i - 1]);
      var c2 := GetExitPoint(p2.value, rooms[i]);
      DoorOfRoom(ops, rooms, i - 1);
      DoorOfRoom(ops, rooms, i);
      DigConnection(tiles, c1, c2, coins[i - 1], biome);
    }
  }

  /** The connection loop: records two doors per consecutive pair and digs the corridor between their exits. */
  method DigCorridors(tiles: array<Tile>, ops: RectOps, rooms: seq<Rect>, coins: seq<int>, biome: Biome)
    returns (doors: seq<Point>)
    requires tiles.Length == Cells && RoomsOk(rooms) && |rooms| <= |coins| + 1
    modifies tiles
    ensures doors == DoorsOf(ops, rooms)
    ensures tiles[..] == Corridors(old(tiles[..]), RoomExits(ops, rooms), coins, biome.Floor())
  {
    ghost var ds := RoomDoors(ops, rooms);
    ghost var es := RoomExits(ops, rooms);
    doors := [];
    var i := 1;
    while i < |rooms|
      invariant 1 <= i && (i <= |rooms| || |rooms| == 0)
      invariant doors == Paired(ds[..Min(i, |rooms|)])
      invariant tiles[..] == Corridors(old(tiles[..]), es[..Min(i, |rooms|)], coins, biome.Floor())
    {
      PairedSnoc(ds, i);
      CorridorsSnoc(old(tiles[..]), es, i, coins, biome.Floor());
      var recorded := ConnectRooms(tiles, ops, rooms, i, coins, biome);
      doors := doors + recorded;
      i := i + 1;
    }
    assert ds[..Min(i, |rooms|)] == ds && es[..Min(i, |rooms|)] == es;
  }

  method DungeonMap(biome: Biome, ops: RectOps, trials: seq<RoomTrial>, coins: seq<int>)
    returns (level: Map, rooms: seq<Rect>)
    requires BuildsOrdered(ops)
    requires |trials| == MaxRooms && forall t :: 0 <= t < |trials| ==> TrialInRange(trials[t])
    requires |coins| == MaxRooms - 1 && forall k :: 0 <= k < |coins| ==> 0 <= coins[k] < 2
    ensures level.Valid() && fresh(level.tiles) && fresh(level.revealedTiles)
    ensures level.rooms == [] && rooms == AcceptedRooms(ops, trials)
    ensures RoomsOk(rooms) && |rooms| <= MaxRooms
    ensures level.tiles[..] == DungeonTiles(biome, ops, rooms, coins)
    ensures level.revealedTiles[..] == Grid.Filled(false)
  {
    level := new Map.Filled(biome.Wall());
    rooms := PlaceRooms(ops, trials);
    AcceptedRoomsSound(ops, trials);
    AcceptedRoomsOrdered(ops, trials);
    CarveAllRooms(level.tiles, rooms, biome);
    var doors := DigCorridors(level.tiles, ops, rooms, coins, biome);
    DoorsInGrid(ops, rooms);
    match biome.Door() {
      case Some(door) => StampCells(level.tiles, door, doors);
      case None =>
    }
  }
}
