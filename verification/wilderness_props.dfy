/**
 * What a generated wilderness looks like cell by cell: which cells the
 * scatter, water and trap draws can reach, what stays wall, and what the
 * player's start cell can hold.
 */
module WildernessProps {
  import opened Wrappers
  import opened Grid
  import opened Tiles
  import opened Wilderness

  /** Some scatter step that does not skip writes cell i. */
  ghost predicate ScatterHits(trials: seq<ScatterTrial>, i: int)
    requires forall k :: 0 <= k < |trials| ==> ScatterInRange(trials[k])
  {
    exists k :: 0 <= k < |trials| && ScatterInRange(trials[k]) && XyIdx(trials[k].x, trials[k].y) == i && i != Idx(Start)
  }

  /** A tile the scatter loop can write for the biome. */
  predicate ScatterKind(biome: Biome, t: Tile) {
    t == biome.Wall() || Some(t) == biome.Door() || Some(t) == biome.LockedDoor()
  }

  /**
   * After the scatter loop a cell no step wrote is unchanged, a cell some
   * step wrote holds a wall or a door of the biome, and the start cell is
   * never written.
   */
  lemma {:induction false} ScatteredCell(s: seq<Tile>, biome: Biome, trials: seq<ScatterTrial>, i: int)
    requires |s| == Cells && 0 <= i < Cells
    requires forall k :: 0 <= k < |trials| ==> ScatterInRange(trials[k])
    ensures ScatterHits(trials, i) ==> ScatterKind(biome, Scattered(s, biome, trials)[i])
    ensures !ScatterHits(trials, i) ==> Scattered(s, biome, trials)[i] == s[i]
    ensures Scattered(s, biome, trials)[Idx(Start)] == s[Idx(Start)]
    decreases |trials|
  {
    if trials != [] {
      var init, t := trials[..|trials| - 1], trials[|trials| - 1];
      ScatteredCell(s, biome, init, i);
      ScatteredCell(s, biome, init, Idx(Start));
      assert ScatterInRange(t);
      var idx := XyIdx(t.x, t.y);
      if ScatterHits(init, i) {
        var k :| 0 <= k < |init| && ScatterInRange(init[k]) && XyIdx(init[k].x, init[k].y) == i && i != Idx(Start);
        assert trials[k] == init[k];
      }
      if ScatterHits(trials, i) && idx != i {
        var k :| 0 <= k < |trials| && ScatterInRange(trials[k]) && XyIdx(trials[k].x, trials[k].y) == i && i != Idx(Start);
        assert init[k] == trials[k];
      }
      if idx == i && i != Idx(Start) {
        assert XyIdx(trials[|trials| - 1].x, trials[|trials| - 1].y) == i;
      }
    }
  }

  /** The map after the boundary and scatter loops, before water and traps. */
  function Scattering(biome: Biome, trials: seq<ScatterTrial>): (c: seq<Tile>)
    requires forall k :: 0 <= k < |trials| ==> ScatterInRange(trials[k])
    ensures |c| == Cells
  {
    Scattered(Bordered(Grid.Filled(biome.Floor()), biome.Wall()), biome, trials)
  }

  /**
   * The last phases cell by cell: a trap where a trap was drawn (Forest),
   * else water where water was drawn (Forest, Volcano), else what the
   * boundary and scatter loops left.
   */
  lemma FinalCell(biome: Biome, trials: seq<ScatterTrial>, water: seq<Point>, traps: seq<Point>, i: int)
    requires forall k :: 0 <= k < |trials| ==> ScatterInRange(trials[k])
    requires AllDrawsInRange(water) && AllDrawsInRange(traps) && 0 <= i < Cells
    ensures AllInGrid(water) && AllInGrid(traps)
    ensures WildernessTiles(biome, trials, water, traps)[i] ==
      if biome.Trap().Some? && Hits(traps, i) then biome.Trap().value
      else if biome.Water().Some? && Hits(water, i) then biome.Water().value
      else Scattering(biome, trials)[i]
  {
    DrawsInGrid(water);
    DrawsInGrid(traps);
    var scattered := Scattering(biome, trials);
    if biome.Water().Some? {
      StampAt(scattered, biome.Water().value, water, i);
    }
    var watered := match biome.Water()
      case Some(w) => Stamp(scattered, w, water)
      case None => scattered;
    if biome.Trap().Some? {
      StampAt(watered, biome.Trap().value, traps, i);
    }
  }

  /** A drawn cell is never in row 0 or column 0. */
  lemma DrawMissesNorthWest(pts: seq<Point>, i: int)
    requires AllDrawsInRange(pts) && 0 <= i < Cells && (Row(i) == 0 || Col(i) == 0)
    ensures AllInGrid(pts) && !Hits(pts, i)
  {
    DrawsInGrid(pts);
    if Hits(pts, i) {
      var k :| 0 <= k < |pts| && Idx(pts[k]) == i;
      XyIdxCoords(pts[k].x, pts[k].y);
    }
  }

  /** Row 0 and column 0 stay wall: no draw can reach them. */
  lemma NorthWestWalls(biome: Biome, trials: seq<ScatterTrial>, water: seq<Point>, traps: seq<Point>, i: int)
    requires forall k :: 0 <= k < |trials| ==> ScatterInRange(trials[k])
    requires AllDrawsInRange(water) && AllDrawsInRange(traps)
    requires 0 <= i < Cells && (Row(i) == 0 || Col(i) == 0)
    ensures WildernessTiles(biome, trials, water, traps)[i] == biome.Wall()
  {
    FinalCell(biome, trials, water, traps, i);
    DrawMissesNorthWest(water, i);
    DrawMissesNorthWest(traps, i);
    var b := Bordered(Grid.Filled(biome.Floor()), biome.Wall());
    ScatteredCell(b, biome, trials, i);
    if ScatterHits(trials, i) {
      var k :| 0 <= k < |trials| && ScatterInRange(trials[k]) && XyIdx(trials[k].x, trials[k].y) == i && i != Idx(Start);
      assert ScatterInRange(trials[k]);
      XyIdxCoords(trials[k].x, trials[k].y);
    }
  }

  /**
   * The scatter loop never blocks the start cell: it holds the floor unless
   * a water or trap draw lands on it, and only floor, water or a trap in
   * any case.
   */
  lemma StartCell(biome: Biome, trials: seq<ScatterTrial>, water: seq<Point>, traps: seq<Point>)
    requires forall k :: 0 <= k < |trials| ==> ScatterInRange(trials[k])
    requires AllDrawsInRange(water) && AllDrawsInRange(traps)
    ensures AllInGrid(water) && AllInGrid(traps)
    ensures !Hits(water, Idx(Start)) && !Hits(traps, Idx(Start)) ==>
      WildernessTiles(biome, trials, water, traps)[Idx(Start)] == biome.Floor()
    ensures var t := WildernessTiles(biome, trials, water, traps)[Idx(Start)];
      t == biome.Floor() || Some(t) == biome.Water() || Some(t) == biome.Trap()
  {
    FinalCell(biome, trials, water, traps, Idx(Start));
    var b := Bordered(Grid.Filled(biome.Floor()), biome.Wall());
    ScatteredCell(b, biome, trials, Idx(Start));
    XyIdxCoords(Start.x, Start.y);
  }

  /**
   * Every cell holds one of the biome's archetypes, and a biome without
   * water and traps (Building, SnowyMountains) gets only floor, wall and
   * doors.
   */
  lemma WildernessArchetypes(biome: Biome, trials: seq<ScatterTrial>, water: seq<Point>, traps: seq<Point>, i: int)
    requires forall k :: 0 <= k < |trials| ==> ScatterInRange(trials[k])
    requires AllDrawsInRange(water) && AllDrawsInRange(traps) && 0 <= i < Cells
    ensures WildernessTiles(biome, trials, water, traps)[i] in biome.Archetypes()
    ensures biome.Water().None? && biome.Trap().None? ==>
      var t := WildernessTiles(biome, trials, water, traps)[i];
      t == biome.Floor() || ScatterKind(biome, t)
  {
    FinalCell(biome, trials, water, traps, i);
    var b := Bordered(Grid.Filled(biome.Floor()), biome.Wall());
    ScatteredCell(b, biome, trials, i);
  }

  /** The ranges the boundary evidently calls for: roll_dice(1, 78) and roll_dice(1, 48). */
  predicate InteriorDraw(p: Point) {
    1 <= p.x <= Width - 2 && 1 <= p.y <= Height - 2
  }

  /** With draws kept off the east and south boundary, every boundary cell stays wall. */
  lemma BorderKept(biome: Biome, trials: seq<ScatterTrial>, water: seq<Point>, traps: seq<Point>, i: int)
    requires forall k :: 0 <= k < |trials| ==> ScatterInRange(trials[k]) && InteriorDraw(Point(trials[k].x, trials[k].y))
    requires AllDrawsInRange(water) && AllDrawsInRange(traps)
    requires forall k :: 0 <= k < |water| ==> InteriorDraw(water[k])
    requires forall k :: 0 <= k < |traps| ==> InteriorDraw(traps[k])
    requires 0 <= i < Cells && OnBorder(i)
    ensures WildernessTiles(biome, trials, water, traps)[i] == biome.Wall()
  {
    FinalCell(biome, trials, water, traps, i);
    if Hits(water, i) {
      var k :| 0 <= k < |water| && Idx(water[k]) == i;
      XyIdxCoords(water[k].x, water[k].y);
    }
    if Hits(traps, i) {
      var k :| 0 <= k < |traps| && Idx(traps[k]) == i;
      XyIdxCoords(traps[k].x, traps[k].y);
    }
    var b := Bordered(Grid.Filled(biome.Floor()), biome.Wall());
    ScatteredCell(b, biome, trials, i);
    if ScatterHits(trials, i) {
      var k :| 0 <= k < |trials| && ScatterInRange(trials[k]) && XyIdx(trials[k].x, trials[k].y) == i && i != Idx(Start);
      XyIdxCoords(trials[k].x, trials[k].y);
    }
  }

  /**
   * As written, the draws reach column 79: a Forest trap drawn at (79, 1)
   * turns a boundary cell into a walkable cell.
   */
  lemma TrapOnBorder()
    ensures var trials := seq(ScatterCount, _ => ScatterTrial(1, 1, 1));
      var water := seq(WaterCount, _ => Point(1, 1));
      var traps := [Point(79, 1)] + seq(TrapCount - 1, _ => Point(1, 1));
      (forall k :: 0 <= k < |trials| ==> ScatterInRange(trials[k])) &&
      AllDrawsInRange(water) && AllDrawsInRange(traps) &&
      OnBorder(XyIdx(79, 1)) &&
      WildernessTiles(Forest, trials, water, traps)[XyIdx(79, 1)].walkable
  {
    var trials := seq(ScatterCount, _ => ScatterTrial(1, 1, 1));
    var water := seq(WaterCount, _ => Point(1, 1));
    var traps := [Point(79, 1)] + seq(TrapCount - 1, _ => Point(1, 1));
    assert AllDrawsInRange(traps) by {
      forall k | 0 <= k < |traps|
        ensures DrawInRange(traps[k])
      {
      }
    }
    var i := XyIdx(79, 1);
    FinalCell(Forest, trials, water, traps, i);
    assert Idx(traps[0]) == i;
  }
}
