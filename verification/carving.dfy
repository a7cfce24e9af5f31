/**
 * apply_room_to_map and the two tunnel carvers: loops that overwrite cells
 * of the tile buffer with the biome's floor, each proved equal to a
 * cell-by-cell description of what it carves.
 */
module Carving {
  import opened Grid
  import opened Tiles
  import opened Rects

  function Min(a: int, b: int): int { if a <= b then a else b }
  function Max(a: int, b: int): int { if a <= b then b else a }

  /** Every cell a room's carve loop can write lies on the grid, without row wrap-around. */
  predicate CarvableRoom(r: Rect) {
    -1 <= r.x1 && r.x2 < Width && -1 <= r.y1 && r.y2 < Height
  }

  /** The cells a room carve writes: x1 < x <= x2 and y1 < y <= y2 (both upper bounds included). */
  predicate InCarved(r: Rect, i: int) {
    r.x1 < Col(i) <= r.x2 && r.y1 < Row(i) <= r.y2
  }

  function CarveRoom(s: seq<Tile>, r: Rect, floor: Tile): (c: seq<Tile>)
    requires |s| == Cells
    ensures |c| == Cells
  {
    seq(Cells, i requires 0 <= i < Cells => if InCarved(r, i) then floor else s[i])
  }

  /** Carving a room sets exactly the cells with x1 < x <= x2 and y1 < y <= y2 to floor. */
  lemma CarveRoomCell(s: seq<Tile>, r: Rect, floor: Tile, p: Point)
    requires |s| == Cells && InGrid(p)
    ensures CarveRoom(s, r, floor)[Idx(p)] ==
      if r.x1 < p.x <= r.x2 && r.y1 < p.y <= r.y2 then floor else s[Idx(p)]
  {
    XyIdxCoords(p.x, p.y);
  }

  method ApplyRoomToMap(room: Rect, tiles: array<Tile>, biome: Biome)
    requires tiles.Length == Cells && CarvableRoom(room)
    modifies tiles
    ensures tiles[..] == CarveRoom(old(tiles[..]), room, biome.Floor())
  {
    var floor := biome.Floor();
    var y := room.y1 + 1;
    while y <= room.y2
      invariant room.y1 + 1 <= y && (y <= room.y2 + 1 || y == room.y1 + 1)
      invariant forall i :: 0 <= i < Cells ==>
        tiles[i] == if InCarved(room, i) && Row(i) < y then floor else old(tiles[i])
    {
      var x := room.x1 + 1;
      while x <= room.x2
        invariant room.x1 + 1 <= x && (x <= room.x2 + 1 || x == room.x1 + 1)
        invariant forall i :: 0 <= i < Cells ==>
          tiles[i] == if InCarved(room, i) && (Row(i) < y || (Row(i) == y && Col(i) < x)) then floor else old(tiles[i])
      {
        XyIdxCoords(x, y);
        tiles[XyIdx(x, y)] := floor;
        x := x + 1;
      }
      y := y + 1;
    }
  }

  /** The indices xy_idx gives on row y for x from min(x1,x2) to max(x1,x2). */
  predicate OnRow(i: int, x1: int, x2: int, y: int) {
    Min(x1, x2) <= i - y * Width <= Max(x1, x2)
  }

  /** The indices xy_idx gives in column x for y from min(y1,y2) to max(y1,y2). */
  predicate OnColumn(i: int, y1: int, y2: int, x: int) {
    (i - x) % Width == 0 && Min(y1, y2) <= (i - x) / Width <= Max(y1, y2)
  }

  /** A horizontal tunnel: floor on its row, except index 0 and indices past the buffer. */
  function CarveRow(s: seq<Tile>, x1: int, x2: int, y: int, floor: Tile): (c: seq<Tile>)
    requires |s| == Cells
    ensures |c| == Cells
  {
    seq(Cells, i requires 0 <= i < Cells => if 0 < i && OnRow(i, x1, x2, y) then floor else s[i])
  }

  /** A vertical tunnel: floor in its column, except index 0 and indices past the buffer. */
  function CarveColumn(s: seq<Tile>, y1: int, y2: int, x: int, floor: Tile): (c: seq<Tile>)
    requires |s| == Cells
    ensures |c| == Cells
  {
    seq(Cells, i requires 0 <= i < Cells => if 0 < i && OnColumn(i, y1, y2, x) then floor else s[i])
  }

  /** Both end cells of a tunnel, and every grid cell between them, become floor (bar index 0). */
  lemma TunnelCells(s: seq<Tile>, floor: Tile, a: int, b: int, c: int)
    requires |s| == Cells && 0 <= a && 0 <= b && 0 <= c
    ensures forall x :: Min(a, b) <= x <= Max(a, b) && InGrid(Point(x, c)) && 0 < XyIdx(x, c) ==>
      CarveRow(s, a, b, c, floor)[XyIdx(x, c)] == floor
    ensures forall y :: Min(a, b) <= y <= Max(a, b) && InGrid(Point(c, y)) && 0 < XyIdx(c, y) ==>
      CarveColumn(s, a, b, c, floor)[XyIdx(c, y)] == floor
  {
    forall y | Min(a, b) <= y <= Max(a, b) && InGrid(Point(c, y)) && 0 < XyIdx(c, y)
      ensures OnColumn(XyIdx(c, y), a, b, c)
    {
      assert XyIdx(c, y) - c == y * Width;
    }
  }

  method ApplyHorizontalTunnel(tiles: array<Tile>, x1: int, x2: int, y: int, biome: Biome)
    requires tiles.Length == Cells && 0 <= x1 && 0 <= x2 && 0 <= y
    modifies tiles
    ensures tiles[..] == CarveRow(old(tiles[..]), x1, x2, y, biome.Floor())
  {
    var floor := biome.Floor();
    var x := Min(x1, x2);
    while x <= Max(x1, x2)
      invariant Min(x1, x2) <= x <= Max(x1, x2) + 1
      invariant forall i :: 0 <= i < Cells ==>
        tiles[i] == if 0 < i && Min(x1, x2) <= i - y * Width < x then floor else old(tiles[i])
    {
      var idx := XyIdx(x, y);
      if idx > 0 && idx < Cells {
        tiles[idx] := floor;
      }
      x := x + 1;
    }
  }

  method ApplyVerticalTunnel(tiles: array<Tile>, y1: int, y2: int, x: int, biome: Biome)
    requires tiles.Length == Cells && 0 <= y1 && 0 <= y2 && 0 <= x
    modifies tiles
    ensures tiles[..] == CarveColumn(old(tiles[..]), y1, y2, x, biome.Floor())
  {
    var floor := biome.Floor();
    var y := Min(y1, y2);
    while y <= Max(y1, y2)
      invariant Min(y1, y2) <= y <= Max(y1, y2) + 1
      invariant forall i :: 0 <= i < Cells ==>
        tiles[i] == if 0 < i && (i - x) % Width == 0 && Min(y1, y2) <= (i - x) / Width < y then floor else old(tiles[i])
    {
      var idx := XyIdx(x, y);
      assert (idx - x) % Width == 0 && (idx - x) / Width == y;
      if idx > 0 && idx < Cells {
        tiles[idx] := floor;
      }
      y := y + 1;
    }
  }
}
