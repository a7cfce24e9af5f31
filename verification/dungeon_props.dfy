/**
 * What a generated dungeon looks like cell by cell: a door where a door was
 * recorded (Building only), floor inside every carved room and along every
 * corridor, and wall everywhere else.
 */
module DungeonProps {
  import opened Wrappers
  import opened Grid
  import opened Tiles
  import opened Rects
  import opened Carving
  import opened Dungeon

  /** Cell i lies inside the carved part of some room. */
  ghost predicate InSomeRoom(rooms: seq<Rect>, i: int) {
    exists k :: 0 <= k < |rooms| && InCarved(rooms[k], i)
  }

  /** Cell i lies on the L-shaped path between exits c1 and c2 for the given coin. */
  predicate OnCorridor(c1: Point, c2: Point, coin: int, i: int) {
    if coin == 1 then OnRow(i, c1.x, c2.x, c1.y) || OnColumn(i, c1.y, c2.y, c2.x)
    else OnColumn(i, c1.y, c2.y, c1.x) || OnRow(i, c1.x, c2.x, c2.y)
  }

  /** Cell i lies on the path of some connection j (between exits j-1 and j, coin j-1). */
  ghost predicate Dug(exits: seq<Point>, coins: seq<int>, i: int)
    requires |exits| <= |coins| + 1
  {
    exists j :: 1 <= j < |exits| && OnCorridor(exits[j - 1], exits[j], coins[j - 1], i)
  }

  /** Carving all rooms sets exactly the cells inside some room to floor. */
  lemma {:induction false} CarvedRoomsCell(s: seq<Tile>, rooms: seq<Rect>, floor: Tile, i: int)
    requires |s| == Cells && 0 <= i < Cells
    ensures CarvedRooms(s, rooms, floor)[i] == if InSomeRoom(rooms, i) then floor else s[i]
    decreases |rooms|
  {
    if rooms != [] {
      var init := rooms[..|rooms| - 1];
      CarvedRoomsCell(s, init, floor, i);
      if InSomeRoom(init, i) {
        var k :| 0 <= k < |init| && InCarved(init[k], i);
        assert rooms[k] == init[k];
      }
      if InSomeRoom(rooms, i) && !InCarved(rooms[|rooms| - 1], i) {
        var k :| 0 <= k < |rooms| && InCarved(rooms[k], i);
        assert init[k] == rooms[k];
      }
    }
  }

  /** One corridor sets exactly its path to floor, bar index 0. */
  lemma ConnectCell(s: seq<Tile>, c1: Point, c2: Point, coin: int, floor: Tile, i: int)
    requires |s| == Cells && 0 <= i < Cells
    ensures Connect(s, c1, c2, coin, floor)[i] == if 0 < i && OnCorridor(c1, c2, coin, i) then floor else s[i]
  {
  }

  /** Digging every corridor sets exactly the cells on some corridor's path to floor, bar index 0. */
  lemma {:induction false} CorridorsCell(s: seq<Tile>, exits: seq<Point>, coins: seq<int>, floor: Tile, i: int)
    requires |s| == Cells && |exits| <= |coins| + 1 && 0 <= i < Cells
    ensures Corridors(s, exits, coins, floor)[i] == if 0 < i && Dug(exits, coins, i) then floor else s[i]
    decreases |exits|
  {
    if |exits| > 1 {
      var n := |exits|;
      var init := exits[..n - 1];
      CorridorsCell(s, init, coins, floor, i);
      ConnectCell(Corridors(s, init, coins, floor), exits[n - 2], exits[n - 1], coins[n - 2], floor, i);
      if Dug(init, coins, i) {
        var j :| 1 <= j < |init| && OnCorridor(init[j - 1], init[j], coins[j - 1], i);
        assert exits[j - 1] == init[j - 1] && exits[j] == init[j];
      }
      if Dug(exits, coins, i) && !OnCorridor(exits[n - 2], exits[n - 1], coins[n - 2], i) {
        var j :| 1 <= j < |exits| && OnCorridor(exits[j - 1], exits[j], coins[j - 1], i);
        assert j < n - 1;
        assert init[j - 1] == exits[j - 1] && init[j] == exits[j];
      }
      if OnCorridor(exits[n - 2], exits[n - 1], coins[n - 2], i) {
        assert 1 <= n - 1 < |exits|;
      }
    }
  }

  /**
   * The whole dungeon cell by cell: the door archetype at every recorded
   * door when the biome has one; otherwise floor inside any room or on any
   * corridor path (bar index 0); otherwise the biome's wall.
   */
  lemma DungeonTilesCell(biome: Biome, ops: RectOps, rooms: seq<Rect>, coins: seq<int>, i: int)
    requires RoomsOk(rooms) && |rooms| <= |coins| + 1 && 0 <= i < Cells
    ensures AllInGrid(DoorsOf(ops, rooms))
    ensures DungeonTiles(biome, ops, rooms, coins)[i] ==
      if biome.Door().Some? && Hits(DoorsOf(ops, rooms), i) then biome.Door().value
      else if InSomeRoom(rooms, i) || (0 < i && Dug(RoomExits(ops, rooms), coins, i)) then biome.Floor()
      else biome.Wall()
  {
    DoorsInGrid(ops, rooms);
    var carved := CarvedRooms(Grid.Filled(biome.Wall()), rooms, biome.Floor());
    CarvedRoomsCell(Grid.Filled(biome.Wall()), rooms, biome.Floor(), i);
    CorridorsCell(carved, RoomExits(ops, rooms), coins, biome.Floor(), i);
    if biome.Door().Some? {
      StampAt(Corridors(carved, RoomExits(ops, rooms), coins, biome.Floor()), biome.Door().value, DoorsOf(ops, rooms), i);
    }
  }

  /**
   * In a Building dungeon a cell holds the door archetype exactly when a door
   * was recorded there; every recorded door cell holds it.
   */
  lemma DungeonDoors(biome: Biome, ops: RectOps, rooms: seq<Rect>, coins: seq<int>, i: int)
    requires RoomsOk(rooms) && |rooms| <= |coins| + 1 && 0 <= i < Cells && biome.Door().Some?
    ensures AllInGrid(DoorsOf(ops, rooms))
    ensures DungeonTiles(biome, ops, rooms, coins)[i] == biome.Door().value <==> Hits(DoorsOf(ops, rooms), i)
  {
    DungeonTilesCell(biome, ops, rooms, coins, i);
    assert biome.Door().value != biome.Floor() && biome.Door().value != biome.Wall();
  }

  /**
   * Every dungeon cell is one of the biome's archetypes, and only wall or
   * floor outside a Building: Forest, Volcano and SnowyMountains dungeons
   * have no doors, water or traps.
   */
  lemma DungeonArchetypes(biome: Biome, ops: RectOps, rooms: seq<Rect>, coins: seq<int>, i: int)
    requires RoomsOk(rooms) && |rooms| <= |coins| + 1 && 0 <= i < Cells
    ensures DungeonTiles(biome, ops, rooms, coins)[i] in biome.Archetypes()
    ensures biome != Building ==>
      DungeonTiles(biome, ops, rooms, coins)[i] == biome.Floor() || DungeonTiles(biome, ops, rooms, coins)[i] == biome.Wall()
  {
    DungeonTilesCell(biome, ops, rooms, coins, i);
  }
}
