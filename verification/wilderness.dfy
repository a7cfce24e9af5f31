/**
 * wilderness_map: an open field of the biome's floor, walled at the edges,
 * with 400 scattered walls or doors (never on the player's start cell) and,
 * when the biome has them, 20 water cells and 10 traps. The dice rolls are
 * supplied by the caller, one record per draw, each inside the range
 * roll_dice gives.
 */
module Wilderness {
  import opened Wrappers
  import opened Grid
  import opened Tiles
  import opened Rects
  import opened Maps

  const ScatterCount: int := 400
  const WaterCount: int := 20
  const TrapCount: int := 10

  /** The player's start cell, (40, 25). */
  const Start: Point := Point(40, 25)

  /** The draws of one scatter step: roll_dice(1, 79), roll_dice(1, 49), then roll_dice(1, 100). */
  datatype ScatterTrial = ScatterTrial(x: int, y: int, roll: int)

  /** A cell drawn by roll_dice(1, 79) and roll_dice(1, 49). */
  predicate DrawInRange(p: Point) {
    1 <= p.x <= 79 && 1 <= p.y <= 49
  }

  predicate ScatterInRange(t: ScatterTrial) {
    1 <= t.x <= 79 && 1 <= t.y <= 49 && 1 <= t.roll <= 100
  }

  predicate AllDrawsInRange(pts: seq<Point>) {
    forall k :: 0 <= k < |pts| ==> DrawInRange(pts[k])
  }

  /** Drawn cells lie on the grid. */
  lemma DrawsInGrid(pts: seq<Point>)
    requires AllDrawsInRange(pts)
    ensures AllInGrid(pts)
  {
  }

  /** The boundary loops: every boundary cell becomes wall, nothing else changes. */
  function Bordered(s: seq<Tile>, wall: Tile): (b: seq<Tile>)
    requires |s| == Cells
    ensures |b| == Cells
  {
    seq(Cells, i requires 0 <= i < Cells => if OnBorder(i) then wall else s[i])
  }

  /**
   * The tile one scatter step writes: a locked door on a roll above 90 and a
   * door on a roll above 80 when the biome has them, the wall otherwise.
   */
  function ScatterTile(biome: Biome, roll: int): (t: Tile)
    ensures t == biome.Wall() || Some(t) == biome.Door() || Some(t) == biome.LockedDoor()
    ensures roll <= 80 ==> t == biome.Wall()
    ensures biome.Door().Some? && 80 < roll <= 90 ==> t.doorState == Some(Closed)
    ensures biome.LockedDoor().Some? && roll > 90 ==> t.doorState == Some(Locked)
    ensures biome.Door().None? && biome.LockedDoor().None? ==> t == biome.Wall()
    ensures t.doorState == Some(Closed) ==> 80 < roll <= 90
    ensures t.doorState == Some(Locked) ==> roll > 90
  {
    if roll > 80 then
      if roll > 90 then biome.LockedDoor().GetOr(biome.Wall())
      else biome.Door().GetOr(biome.Wall())
    else biome.Wall()
  }

  /** The scatter loop: each step writes its tile unless it drew the start cell. */
  function Scattered(s: seq<Tile>, biome: Biome, trials: seq<ScatterTrial>): (c: seq<Tile>)
    requires |s| == Cells && forall k :: 0 <= k < |trials| ==> ScatterInRange(trials[k])
    ensures |c| == Cells
    decreases |trials|
  {
    if trials == [] then s
    else
      var prev := Scattered(s, biome, trials[..|trials| - 1]);
      var t := trials[|trials| - 1];
      assert ScatterInRange(t);
      var idx := XyIdx(t.x, t.y);
      if idx != Idx(Start) then prev[idx := ScatterTile(biome, t.roll)] else prev
  }

  /** The map wilderness_map returns, as a function of the draws. */
  function WildernessTiles(biome: Biome, trials: seq<ScatterTrial>, water: seq<Point>, traps: seq<Point>): (c: seq<Tile>)
    requires forall k :: 0 <= k < |trials| ==> ScatterInRange(trials[k])
    requires AllDrawsInRange(water) && AllDrawsInRange(traps)
    ensures |c| == Cells
  {
    DrawsInGrid(water);
    DrawsInGrid(traps);
    var scattered := Scattered(Bordered(Grid.Filled(biome.Floor()), biome.Wall()), biome, trials);
    var watered := match biome.Water()
      case Some(w) => Stamp(scattered, w, water)
      case None => scattered;
    match biome.Trap()
    case Some(t) => Stamp(watered, t, traps)
    case None => watered
  }

  /** The two boundary loops, rows first, then columns. */
  method WallBorder(tiles: array<Tile>, wall: Tile)
    requires tiles.Length == Cells
    modifies tiles
    ensures tiles[..] == Bordered(old(tiles[..]), wall)
  {
    for x := 0 to Width
      invariant forall i :: 0 <= i < Cells ==>
        tiles[i] == if (Row(i) == 0 || Row(i) == Height - 1) && Col(i) < x then wall else old(tiles[i])
    {
      XyIdxCoords(x, 0);
      XyIdxCoords(x, Height - 1);
      tiles[XyIdx(x, 0)] := wall;
      tiles[XyIdx(x, Height - 1)] := wall;
    }
    for y := 0 to Height
      invariant forall i :: 0 <= i < Cells ==>
        tiles[i] == if Row(i) == 0 || Row(i) == Height - 1 || ((Col(i) == 0 || Col(i) == Width - 1) && Row(i) < y)
          then wall else old(tiles[i])
    {
      XyIdxCoords(0, y);
      XyIdxCoords(Width - 1, y);
      tiles[XyIdx(0, y)] := wall;
      tiles[XyIdx(Width - 1, y)] := wall;
    }
  }

  /** The scatter loop, skipping the start cell. */
  method ScatterWalls(tiles: array<Tile>, biome: Biome, trials: seq<ScatterTrial>)
    requires tiles.Length == Cells && |trials| == ScatterCount
    requires forall k :: 0 <= k < |trials| ==> ScatterInRange(trials[k])
    modifies tiles
    ensures tiles[..] == Scattered(old(tiles[..]), biome, trials)
  {
    var wall := biome.Wall();
    for n := 0 to ScatterCount
      invariant tiles[..] == Scattered(old(tiles[..]), biome, trials[..n])
    {
      var t := trials[n];
      var idx := XyIdx(t.x, t.y);
      assert trials[..n + 1][..n] == trials[..n];
      if idx != XyIdx(40, 25) {
        var roll := t.roll;
        if roll > 80 {
          if roll > 90 {
            match biome.LockedDoor() {
              case Some(lockedDoor) => tiles[idx] := lockedDoor;
              case None => tiles[idx] := wall;
            }
          } else {
            match biome.Door() {
              case Some(door) => tiles[idx] := door;
              case None => tiles[idx] := wall;
            }
          }
        } else {
          tiles[idx] := wall;
        }
      }
    }
    assert trials[..ScatterCount] == trials;
  }

  method WildernessMap(biome: Biome, trials: seq<ScatterTrial>, water: seq<Point>, traps: seq<Point>)
    returns (level: Map, rooms: seq<Rect>)
    requires |trials| == ScatterCount && forall k :: 0 <= k < |trials| ==> ScatterInRange(trials[k])
    requires |water| == WaterCount && AllDrawsInRange(water)
    requires |traps| == TrapCount && AllDrawsInRange(traps)
    ensures level.Valid() && fresh(level.tiles) && fresh(level.revealedTiles)
    ensures level.rooms == [] && rooms == []
    ensures level.tiles[..] == WildernessTiles(biome, trials, water, traps)
    ensures level.revealedTiles[..] == Grid.Filled(false)
  {
    level := new Map.Filled(biome.Floor());
    WallBorder(level.tiles, biome.Wall());
    ScatterWalls(level.tiles, biome, trials);
    DrawsInGrid(water);
    DrawsInGrid(traps);
    match biome.Water() {
      case Some(w) => StampCells(level.tiles, w, water);
      case None =>
    }
    match biome.Trap() {
      case Some(t) => StampCells(level.tiles, t, traps);
      case None =>
    }
    rooms := [];
  }
}
