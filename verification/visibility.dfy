/**
 * VisibilitySystem: recomputes every dirty viewshed, keeps only the points
 * on the map, clears the flag, and marks what a player sees as revealed.
 */
module Visibility {
  import opened Wrappers
  import opened Grid
  import opened Tiles
  import opened Maps
  import opened Components

  /**
   * rltk's field_of_view, which the model does not open: the origin, the
   * range and the map's opacity in, the visible points out.
   */
  type FieldOfView = (Point, int, seq<bool>) -> seq<Point>

  /** The retain step: the points inside a width x height map, in their original order. */
  function Retained(pts: seq<Point>, width: int, height: int): (r: seq<Point>)
    ensures |r| <= |pts|
    decreases |pts|
  {
    if pts == [] then []
    else
      var last := pts[|pts| - 1];
      Retained(pts[..|pts| - 1], width, height) + if 0 <= last.x < width && 0 <= last.y < height then [last] else []
  }

  /** A point is kept exactly when it was given and lies inside the map. */
  lemma {:induction false} RetainedMembers(pts: seq<Point>, width: int, height: int)
    ensures forall p :: p in Retained(pts, width, height) <==> p in pts && 0 <= p.x < width && 0 <= p.y < height
    decreases |pts|
  {
    if pts != [] {
      var init := pts[..|pts| - 1];
      RetainedMembers(init, width, height);
      assert pts == init + [pts[|pts| - 1]];
    }
  }

  /** Retaining on the grid leaves only grid points. */
  lemma RetainedInGrid(pts: seq<Point>)
    ensures AllInGrid(Retained(pts, Width, Height))
  {
    RetainedMembers(pts, Width, Height);
    forall k | 0 <= k < |Retained(pts, Width, Height)|
      ensures InGrid(Retained(pts, Width, Height)[k])
    {
      assert Retained(pts, Width, Height)[k] in Retained(pts, Width, Height);
    }
  }

  /** Retaining keeps order: it distributes over concatenation. */
  lemma {:induction false} RetainedAppend(a: seq<Point>, b: seq<Point>, width: int, height: int)
    ensures Retained(a + b, width, height) == Retained(a, width, height) + Retained(b, width, height)
    decreases |b|
  {
    if b != [] {
      var init, last := b[..|b| - 1], b[|b| - 1];
      assert (a + b)[..|a + b| - 1] == a + init;
      RetainedAppend(a, init, width, height);
    } else {
      assert a + b == a;
    }
  }

  /** Points already on the map are all kept. */
  lemma {:induction false} RetainedKeepsAll(pts: seq<Point>, width: int, height: int)
    requires forall k :: 0 <= k < |pts| ==> 0 <= pts[k].x < width && 0 <= pts[k].y < height
    ensures Retained(pts, width, height) == pts
    decreases |pts|
  {
    if pts != [] {
      RetainedKeepsAll(pts[..|pts| - 1], width, height);
    }
  }

  /** The viewshed must be recomputed. */
  predicate Stale(e: Entity) {
    e.viewshed.Some? && e.viewshed.value.dirty
  }

  /** One entity after the pass: a dirty viewshed gets the retained field of view and is clean. */
  function Refresh(e: Entity, opacity: seq<bool>, fov: FieldOfView): Entity {
    if Stale(e) then
      e.(viewshed := Some(e.viewshed.value.(
        visibleTiles := Retained(fov(e.pos, e.viewshed.value.range, opacity), Width, Height),
        dirty := false)))
    else e
  }

  /** Every entity after the pass. */
  function Refreshed(ents: seq<Entity>, opacity: seq<bool>, fov: FieldOfView): (r: seq<Entity>)
    ensures |r| == |ents|
  {
    seq(|ents|, k requires 0 <= k < |ents| => Refresh(ents[k], opacity, fov))
  }

  /** The points a recomputed viewshed holds. */
  function Visible(e: Entity, opacity: seq<bool>, fov: FieldOfView): (pts: seq<Point>)
    requires Stale(e)
    ensures AllInGrid(pts)
  {
    RetainedInGrid(fov(e.pos, e.viewshed.value.range, opacity));
    Refresh(e, opacity, fov).viewshed.value.visibleTiles
  }

  /** The revealed flags after the pass: each dirty player's retained points, in storage order. */
  function Revealed(rev: seq<bool>, ents: seq<Entity>, opacity: seq<bool>, fov: FieldOfView): (r: seq<bool>)
    requires |rev| == Cells
    ensures |r| == Cells
    decreases |ents|
  {
    if ents == [] then rev
    else
      var prev := Revealed(rev, ents[..|ents| - 1], opacity, fov);
      var e := ents[|ents| - 1];
      if e.player && Stale(e) then Stamp(prev, true, Visible(e, opacity, fov)) else prev
  }

  /** Revealing over one more entity is one more step of the fold. */
  lemma RevealedSnoc(rev: seq<bool>, ents: seq<Entity>, k: int, opacity: seq<bool>, fov: FieldOfView)
    requires |rev| == Cells && 0 <= k < |ents|
    ensures Revealed(rev, ents[..k + 1], opacity, fov) ==
      var prev := Revealed(rev, ents[..k], opacity, fov);
      if ents[k].player && Stale(ents[k]) then Stamp(prev, true, Visible(ents[k], opacity, fov)) else prev
  {
    assert ents[..k + 1][..k] == ents[..k];
  }

  /** A dirty player whose recomputed view holds cell i. */
  ghost predicate Sees(e: Entity, opacity: seq<bool>, fov: FieldOfView, i: int) {
    e.player && Stale(e) && Hits(Visible(e, opacity, fov), i)
  }

  /** A cell is revealed after the pass exactly when it was before or some dirty player now sees it. */
  lemma {:induction false} RevealedCell(rev: seq<bool>, ents: seq<Entity>, opacity: seq<bool>, fov: FieldOfView, i: int)
    requires |rev| == Cells && 0 <= i < Cells
    ensures Revealed(rev, ents, opacity, fov)[i] <==>
      rev[i] || exists k :: 0 <= k < |ents| && Sees(ents[k], opacity, fov, i)
    decreases |ents|
  {
    if ents != [] {
      var init, e := ents[..|ents| - 1], ents[|ents| - 1];
      RevealedCell(rev, init, opacity, fov, i);
      var prev := Revealed(rev, init, opacity, fov);
      if e.player && Stale(e) {
        StampAt(prev, true, Visible(e, opacity, fov), i);
      }
      if exists k :: 0 <= k < |init| && Sees(init[k], opacity, fov, i) {
        var k :| 0 <= k < |init| && Sees(init[k], opacity, fov, i);
        assert ents[k] == init[k];
      }
      if exists k :: 0 <= k < |ents| && Sees(ents[k], opacity, fov, i) {
        var k :| 0 <= k < |ents| && Sees(ents[k], opacity, fov, i);
        if k < |init| {
          assert init[k] == ents[k];
        }
      }
    }
  }

  /**
   * Revealing only ever sets flags; each dirty player reveals every point it
   * now sees; a pass over entities none of which is a player reveals nothing.
   */
  lemma RevealedMonotone(rev: seq<bool>, ents: seq<Entity>, opacity: seq<bool>, fov: FieldOfView)
    requires |rev| == Cells
    ensures forall i :: 0 <= i < Cells && rev[i] ==> Revealed(rev, ents, opacity, fov)[i]
    ensures forall k, p :: 0 <= k < |ents| && ents[k].player && Stale(ents[k]) && p in Visible(ents[k], opacity, fov) ==>
      InGrid(p) && Revealed(rev, ents, opacity, fov)[Idx(p)]
    ensures (forall k :: 0 <= k < |ents| ==> !ents[k].player) ==> Revealed(rev, ents, opacity, fov) == rev
  {
    var r := Revealed(rev, ents, opacity, fov);
    forall i | 0 <= i < Cells
      ensures rev[i] ==> r[i]
      ensures (forall k :: 0 <= k < |ents| ==> !ents[k].player) ==> r[i] == rev[i]
    {
      RevealedCell(rev, ents, opacity, fov, i);
    }
    forall k, p | 0 <= k < |ents| && ents[k].player && Stale(ents[k]) && p in Visible(ents[k], opacity, fov)
      ensures InGrid(p) && r[Idx(p)]
    {
      var j :| 0 <= j < |Visible(ents[k], opacity, fov)| && Visible(ents[k], opacity, fov)[j] == p;
      RevealedCell(rev, ents, opacity, fov, Idx(p));
      assert Sees(ents[k], opacity, fov, Idx(p));
    }
  }

  /**
   * After the pass no viewshed is dirty; every dirty viewshed holds its
   * retained field of view and keeps its range; positions, tags and sizes
   * are untouched, and a clean entity is unchanged.
   */
  lemma RefreshedEntities(ents: seq<Entity>, opacity: seq<bool>, fov: FieldOfView, k: int)
    requires 0 <= k < |ents|
    ensures var e, r := ents[k], Refreshed(ents, opacity, fov)[k];
      r.pos == e.pos && r.player == e.player && r.leftMover == e.leftMover && r.size == e.size &&
      r.viewshed.Some? == e.viewshed.Some? && !Stale(r) &&
      (Stale(e) ==>
        r.viewshed.value.range == e.viewshed.value.range &&
        r.viewshed.value.visibleTiles == Retained(fov(e.pos, e.viewshed.value.range, opacity), Width, Height) &&
        AllInGrid(r.viewshed.value.visibleTiles)) &&
      (!Stale(e) ==> r == e)
  {
    if Stale(ents[k]) {
      RetainedInGrid(fov(ents[k].pos, ents[k].viewshed.value.range, opacity));
    }
  }

  /** With nothing dirty, a pass reveals nothing. */
  lemma {:induction false} NothingStale(rev: seq<bool>, ents: seq<Entity>, opacity: seq<bool>, fov: FieldOfView)
    requires |rev| == Cells && forall k :: 0 <= k < |ents| ==> !Stale(ents[k])
    ensures Revealed(rev, ents, opacity, fov) == rev
    decreases |ents|
  {
    if ents != [] {
      assert !Stale(ents[|ents| - 1]);
      NothingStale(rev, ents[..|ents| - 1], opacity, fov);
    }
  }

  /** A second pass over the same map changes nothing. */
  lemma SecondPass(rev: seq<bool>, ents: seq<Entity>, opacity: seq<bool>, fov: FieldOfView)
    requires |rev| == Cells
    ensures var once := Refreshed(ents, opacity, fov);
      Refreshed(once, opacity, fov) == once &&
      Revealed(Revealed(rev, ents, opacity, fov), once, opacity, fov) == Revealed(rev, ents, opacity, fov)
  {
    var once := Refreshed(ents, opacity, fov);
    forall k | 0 <= k < |ents|
      ensures !Stale(once[k])
    {
      RefreshedEntities(ents, opacity, fov, k);
    }
    NothingStale(Revealed(rev, ents, opacity, fov), once, opacity, fov);
  }

  /** One pass of the system's loop: refresh the entity and, for a player, reveal what it now sees. */
  method RefreshEntity(level: Map, e: Entity, opacity: seq<bool>, fov: FieldOfView) returns (r: Entity)
    requires level.Valid()
    modifies level.revealedTiles
    ensures r == Refresh(e, opacity, fov)
    ensures level.revealedTiles[..] ==
      if e.player && Stale(e) then Stamp(old(level.revealedTiles[..]), true, Visible(e, opacity, fov))
      else old(level.revealedTiles[..])
  {
    r := e;
    match e.viewshed {
      case Some(viewshed) =>
        if viewshed.dirty {
          var visible := fov(e.pos, viewshed.range, opacity);
          visible := Retained(visible, level.width, level.height);
          RetainedInGrid(fov(e.pos, viewshed.range, opacity));
          r := e.(viewshed := Some(viewshed.(visibleTiles := visible, dirty := false)));
          if e.player {
            StampCells(level.revealedTiles, true, visible);
          }
        }
      case None =>
    }
  }

  /** VisibilitySystem::run over the whole entity table. Tiles are only read. */
  method RunVisibility(world: World, fov: FieldOfView)
    requires world.Valid()
    modifies world, world.level.revealedTiles
    ensures world.Valid()
    ensures world.entities == Refreshed(old(world.entities), Opacity(world.level.tiles[..]), fov)
    ensures world.level.revealedTiles[..] ==
      Revealed(old(world.level.revealedTiles[..]), old(world.entities), Opacity(world.level.tiles[..]), fov)
  {
    var level := world.level;
    var opacity := Opacity(level.tiles[..]);
    ghost var ents := world.entities;
    ghost var rev := level.revealedTiles[..];
    var k := 0;
    while k < |world.entities|
      invariant 0 <= k <= |world.entities| == |ents|
      invariant forall j :: 0 <= j < k ==> world.entities[j] == Refresh(ents[j], opacity, fov)
      invariant forall j :: k <= j < |ents| ==> world.entities[j] == ents[j]
      invariant level.revealedTiles[..] == Revealed(rev, ents[..k], opacity, fov)
    {
      RevealedSnoc(rev, ents, k, opacity, fov);
      var e := RefreshEntity(level, world.entities[k], opacity, fov);
      world.entities := world.entities[k := e];
      k := k + 1;
    }
    assert ents[..|ents|] == ents;
    forall j | 0 <= j < |ents|
      ensures InGrid(world.entities[j].pos)
    {
      RefreshedEntities(ents, opacity, fov, j);
    }
  }
}
