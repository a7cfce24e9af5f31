/**
 * The Map resource: the tile buffer, the parallel "revealed" flags, the
 * dimensions and the room list, plus the opacity query the field-of-view
 * algorithm asks.
 */
module Maps {
  import opened Wrappers
  import opened Grid
  import opened Tiles
  import opened Rects

  class Map {
    const tiles: array<Tile>
    const rooms: seq<Rect>
    const width: int
    const height: int
    const revealedTiles: array<bool>

    /** The dimensions every generated map has, and buffers of that size. */
    ghost predicate Valid() {
      width == Width && height == Height &&
      tiles.Length == Cells && revealedTiles.Length == Cells
    }

    /** The map literal both generators start from: one tile everywhere, nothing revealed, no rooms. */
    constructor Filled(t: Tile)
      ensures Valid() && fresh(tiles) && fresh(revealedTiles)
      ensures tiles[..] == Grid.Filled(t) && revealedTiles[..] == Grid.Filled(false)
      ensures rooms == []
    {
      tiles := new Tile[Cells](_ => t);
      revealedTiles := new bool[Cells](_ => false);
      rooms := [];
      width := Width;
      height := Height;
    }
  }

  /**
   * is_opaque: a cell blocks sight exactly when its tile is not transparent,
   * so an open door never blocks it.
   */
  function IsOpaque(tiles: seq<Tile>, idx: int): (o: bool)
    requires 0 <= idx < |tiles|
    ensures o <==> !tiles[idx].transparent
    ensures DoorConsistent(tiles[idx]) && tiles[idx].doorState == Some(Open) ==> !o
  {
    !tiles[idx].transparent
  }

  /** The opacity of every cell, as the field-of-view algorithm sees the map. */
  function Opacity(tiles: seq<Tile>): (o: seq<bool>)
    ensures |o| == |tiles|
    ensures forall i :: 0 <= i < |tiles| ==> (o[i] <==> !tiles[i].transparent)
  {
    seq(|tiles|, i requires 0 <= i < |tiles| => IsOpaque(tiles, i))
  }

  /** Biome floors never block sight; biome walls always do. */
  lemma ArchetypeOpacity(b: Biome, tiles: seq<Tile>, i: int)
    requires 0 <= i < |tiles|
    ensures tiles[i] == b.Floor() ==> !Opacity(tiles)[i]
    ensures tiles[i] == b.Wall() ==> Opacity(tiles)[i]
  {
  }
}
