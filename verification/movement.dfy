/**
 * try_move_player, try_open_door and the LeftWalker system: a move key is
 * first turned into an intent by reading the map, then acted on.
 */
module Movement {
  import opened Wrappers
  import opened Grid
  import opened Tiles
  import opened Maps
  import opened Components

  /** The cell one step of (dx, dy) away from the entity. */
  function Dest(e: Entity, dx: int, dy: int): Point {
    Point(e.pos.x + dx, e.pos.y + dy)
  }

  /** The entities phase one iterates over: a Player with a size. */
  predicate Mover(e: Entity) {
    e.player && e.size.Some?
  }

  /**
   * A diagonal step by a body of Medium size or larger, with both
   * orthogonal neighbours on the way unwalkable. Straight steps, and Tiny
   * or Small bodies, are never cut off at a corner.
   */
  function CornerBlocked(tiles: seq<Tile>, e: Entity, dx: int, dy: int): (b: bool)
    requires |tiles| == Cells && Mover(e) && InGrid(e.pos) && InGrid(Dest(e, dx, dy))
    ensures b ==> dx != 0 && dy != 0 && e.size.value.AtLeast(Medium)
    ensures e.size.value == Tiny || e.size.value == Small ==> !b
    ensures b ==> !tiles[XyIdx(e.pos.x + dx, e.pos.y)].walkable && !tiles[XyIdx(e.pos.x, e.pos.y + dy)].walkable
  {
    dx != 0 && dy != 0 && e.size.value.AtLeast(Medium) &&
    !tiles[XyIdx(e.pos.x + dx, e.pos.y)].walkable && !tiles[XyIdx(e.pos.x, e.pos.y + dy)].walkable
  }

  /** The outcome of checking one player: stop with an intent, allow the move, or keep the intent so far. */
  datatype Verdict = Halt(intent: PlayerIntent) | Allow | Keep

  /**
   * One pass of phase one: off the grid stops with DoNothing, a closed or
   * locked door stops with OpenDoor, a walkable destination not cut off
   * at a corner allows the move.
   */
  function Judge(tiles: seq<Tile>, e: Entity, dx: int, dy: int): (v: Verdict)
    requires |tiles| == Cells && Mover(e) && InGrid(e.pos)
    ensures v == Halt(DoNothing) <==> !InGrid(Dest(e, dx, dy))
    ensures v.Halt? && InGrid(Dest(e, dx, dy)) ==>
      v.intent == OpenDoor(Idx(Dest(e, dx, dy))) && IsShut(tiles[Idx(Dest(e, dx, dy))])
  {
    var d := Dest(e, dx, dy);
    if d.x < 0 || d.x > 79 || d.y < 0 || d.y > 49 then Halt(DoNothing)
    else if IsShut(tiles[Idx(d)]) then Halt(OpenDoor(Idx(d)))
    else if tiles[Idx(d)].walkable && !CornerBlocked(tiles, e, dx, dy) then Allow
    else Keep
  }

  /** Phase one over the entities in storage order, starting from `intent`. */
  function Decide(tiles: seq<Tile>, ents: seq<Entity>, dx: int, dy: int, intent: PlayerIntent): PlayerIntent
    requires |tiles| == Cells && Placed(ents)
    decreases |ents|
  {
    if ents == [] then intent
    else if !Mover(ents[0]) then Decide(tiles, ents[1..], dx, dy, intent)
    else match Judge(tiles, ents[0], dx, dy)
      case Halt(i) => i
      case Allow => Decide(tiles, ents[1..], dx, dy, Move)
      case Keep => Decide(tiles, ents[1..], dx, dy, intent)
  }

  /** The intent phase one hands to phase two. */
  function Intent(tiles: seq<Tile>, ents: seq<Entity>, dx: int, dy: int): PlayerIntent
    requires |tiles| == Cells && Placed(ents)
  {
    Decide(tiles, ents, dx, dy, DoNothing)
  }

  /** Entity k is a player on which phase one stops. */
  predicate Halts(tiles: seq<Tile>, ents: seq<Entity>, dx: int, dy: int, k: int)
    requires |tiles| == Cells && Placed(ents)
  {
    0 <= k < |ents| && Mover(ents[k]) && Judge(tiles, ents[k], dx, dy).Halt?
  }

  /** Entity k is a player whose move is allowed. */
  predicate Allows(tiles: seq<Tile>, ents: seq<Entity>, dx: int, dy: int, k: int)
    requires |tiles| == Cells && Placed(ents)
  {
    0 <= k < |ents| && Mover(ents[k]) && Judge(tiles, ents[k], dx, dy) == Allow
  }

  /** Phase one, without the loop: the first player on which it stops decides the intent. */
  lemma {:induction false} DecideFirstHalt(tiles: seq<Tile>, ents: seq<Entity>, dx: int, dy: int, intent: PlayerIntent, k: int)
    requires |tiles| == Cells && Placed(ents)
    requires Halts(tiles, ents, dx, dy, k) && forall j :: 0 <= j < k ==> !Halts(tiles, ents, dx, dy, j)
    ensures Decide(tiles, ents, dx, dy, intent) == Judge(tiles, ents[k], dx, dy).intent
    decreases k
  {
    if k > 0 {
      var rest := ents[1..];
      assert !Halts(tiles, ents, dx, dy, 0);
      var next := if Mover(ents[0]) && Judge(tiles, ents[0], dx, dy) == Allow then Move else intent;
      assert Decide(tiles, ents, dx, dy, intent) == Decide(tiles, rest, dx, dy, next);
      forall j | 0 <= j < k - 1
        ensures !Halts(tiles, rest, dx, dy, j)
      {
        assert !Halts(tiles, ents, dx, dy, j + 1);
      }
      assert rest[k - 1] == ents[k];
      DecideFirstHalt(tiles, rest, dx, dy, next, k - 1);
    }
  }

  /**
   * Phase one, without the loop, when it stops on no player: the intent is
   * Move exactly when some player's move is allowed, and stays what it was
   * otherwise.
   */
  lemma {:induction false} DecideNoHalt(tiles: seq<Tile>, ents: seq<Entity>, dx: int, dy: int, intent: PlayerIntent)
    requires |tiles| == Cells && Placed(ents)
    requires forall k :: 0 <= k < |ents| ==> !Halts(tiles, ents, dx, dy, k)
    ensures Decide(tiles, ents, dx, dy, intent) == if exists k :: Allows(tiles, ents, dx, dy, k) then Move else intent
    decreases |ents|
  {
    if ents != [] {
      var rest := ents[1..];
      var next := if Mover(ents[0]) && Judge(tiles, ents[0], dx, dy) == Allow then Move else intent;
      assert !Halts(tiles, ents, dx, dy, 0);
      assert Decide(tiles, ents, dx, dy, intent) == Decide(tiles, rest, dx, dy, next);
      forall k | 0 <= k < |rest|
        ensures !Halts(tiles, rest, dx, dy, k)
      {
        assert !Halts(tiles, ents, dx, dy, k + 1);
      }
      DecideNoHalt(tiles, rest, dx, dy, next);
      if exists k :: Allows(tiles, rest, dx, dy, k) {
        var k :| Allows(tiles, rest, dx, dy, k);
        assert Allows(tiles, ents, dx, dy, k + 1);
      } else if exists k :: Allows(tiles, ents, dx, dy, k) {
        var k :| Allows(tiles, ents, dx, dy, k);
        if k > 0 {
          assert Allows(tiles, rest, dx, dy, k - 1);
        }
      } else {
        assert !Allows(tiles, ents, dx, dy, 0);
      }
    }
  }

  /**
   * An OpenDoor intent names the cell of a closed or locked door that is
   * some player's destination.
   */
  lemma {:induction false} DecideOpensShutDoor(tiles: seq<Tile>, ents: seq<Entity>, dx: int, dy: int, intent: PlayerIntent)
    requires |tiles| == Cells && Placed(ents) && !intent.OpenDoor?
    ensures var r := Decide(tiles, ents, dx, dy, intent);
      r.OpenDoor? ==> (0 <= r.idx < Cells && IsShut(tiles[r.idx]) &&
        exists k :: 0 <= k < |ents| && Mover(ents[k]) && InGrid(Dest(ents[k], dx, dy)) && Idx(Dest(ents[k], dx, dy)) == r.idx)
    decreases |ents|
  {
    if ents != [] {
      var rest := ents[1..];
      var r := Decide(tiles, ents, dx, dy, intent);
      if Mover(ents[0]) && Judge(tiles, ents[0], dx, dy).Halt? {
        if r.OpenDoor? {
          assert Idx(Dest(ents[0], dx, dy)) == r.idx;
        }
      } else {
        var next := if Mover(ents[0]) && Judge(tiles, ents[0], dx, dy) == Allow then Move else intent;
        DecideOpensShutDoor(tiles, rest, dx, dy, next);
        if r.OpenDoor? {
          var k :| 0 <= k < |rest| && Mover(rest[k]) && InGrid(Dest(rest[k], dx, dy)) && Idx(Dest(rest[k], dx, dy)) == r.idx;
          assert ents[k + 1] == rest[k];
        }
      }
    }
  }

  /**
   * With a single player: off the grid does nothing, a closed or locked
   * door is opened, and otherwise the player moves exactly when the
   * destination is walkable and not cut off at a corner. Tiny and Small
   * bodies are never cut off.
   */
  lemma SinglePlayer(tiles: seq<Tile>, e: Entity, dx: int, dy: int)
    requires |tiles| == Cells && Mover(e) && InGrid(e.pos)
    ensures Placed([e])
    ensures !InGrid(Dest(e, dx, dy)) ==> Intent(tiles, [e], dx, dy) == DoNothing
    ensures InGrid(Dest(e, dx, dy)) && IsShut(tiles[Idx(Dest(e, dx, dy))]) ==>
      Intent(tiles, [e], dx, dy) == OpenDoor(Idx(Dest(e, dx, dy)))
    ensures InGrid(Dest(e, dx, dy)) && !IsShut(tiles[Idx(Dest(e, dx, dy))]) ==>
      (Intent(tiles, [e], dx, dy) == Move <==>
        tiles[Idx(Dest(e, dx, dy))].walkable && !CornerBlocked(tiles, e, dx, dy))
    ensures InGrid(Dest(e, dx, dy)) && !e.size.value.AtLeast(Medium) ==> !CornerBlocked(tiles, e, dx, dy)
    ensures (InGrid(Dest(e, dx, dy)) && !IsShut(tiles[Idx(Dest(e, dx, dy))]) &&
        dx != 0 && dy != 0 && e.size.value.AtLeast(Medium) &&
        !tiles[XyIdx(e.pos.x + dx, e.pos.y)].walkable && !tiles[XyIdx(e.pos.x, e.pos.y + dy)].walkable) ==>
      Intent(tiles, [e], dx, dy) != Move
  {
    assert [e][1..] == [];
    match Judge(tiles, e, dx, dy)
    case Halt(i) =>
    case Allow =>
      assert Intent(tiles, [e], dx, dy) == Decide(tiles, [], dx, dy, Move);
    case Keep =>
      assert Intent(tiles, [e], dx, dy) == Decide(tiles, [], dx, dy, DoNothing);
  }

  /** min(hi, max(lo, v)). */
  function Clamp(v: int, lo: int, hi: int): int {
    if v < lo then (if lo < hi then lo else hi) else if v < hi then v else hi
  }

  /** Phase two of a Move for one entity: a player with a viewshed steps, clamped to the grid, and is marked dirty. */
  function Step(e: Entity, dx: int, dy: int): Entity {
    if e.player && e.viewshed.Some? then
      e.(pos := Point(Clamp(e.pos.x + dx, 0, 79), Clamp(e.pos.y + dy, 0, 49)),
         viewshed := Some(e.viewshed.value.(dirty := true)))
    else e
  }

  /** Phase two of a Move over every entity. */
  function Moved(ents: seq<Entity>, dx: int, dy: int): (r: seq<Entity>)
    ensures |r| == |ents|
  {
    seq(|ents|, k requires 0 <= k < |ents| => Step(ents[k], dx, dy))
  }

  /**
   * A Move keeps every entity on the grid; a player with a viewshed ends at
   * its destination clamped to the grid (the destination itself when that is
   * on the grid), keeps its size, range and visible tiles, and is dirty;
   * every other entity is unchanged.
   */
  lemma MovedEntities(ents: seq<Entity>, dx: int, dy: int, k: int)
    requires 0 <= k < |ents|
    ensures ents[k].player && ents[k].viewshed.Some? ==> InGrid(Moved(ents, dx, dy)[k].pos)
    ensures var e, m := ents[k], Moved(ents, dx, dy)[k];
      if e.player && e.viewshed.Some? then
        m.pos == Point(Clamp(e.pos.x + dx, 0, Width - 1), Clamp(e.pos.y + dy, 0, Height - 1)) &&
        (InGrid(Dest(e, dx, dy)) ==> m.pos == Dest(e, dx, dy)) &&
        m.viewshed.Some? && m.viewshed.value.dirty &&
        m.viewshed.value.range == e.viewshed.value.range &&
        m.viewshed.value.visibleTiles == e.viewshed.value.visibleTiles &&
        m.size == e.size && m.player && m.leftMover == e.leftMover
      else m == e
    ensures Placed(ents) ==> Placed(Moved(ents, dx, dy))
  {
    if Placed(ents) {
      forall j | 0 <= j < |ents|
        ensures InGrid(Moved(ents, dx, dy)[j].pos)
      {
        assert InGrid(ents[j].pos);
      }
    }
  }

  /** The tile after try_open_door: a closed door opens, anything else stays as it is. */
  function OpenedDoor(t: Tile): (o: Tile)
    ensures t.doorState != Some(Closed) ==> o == t
    ensures t.doorState == Some(Closed) ==>
      o.doorState == Some(Open) && o.glyph == '/' && o.walkable && o.transparent && !o.providesCover
    ensures o.fg == t.fg && o.bg == t.bg && o.trapDc == t.trapDc && o.directDamage == t.directDamage
    ensures o.slipperiness == t.slipperiness && o.statusEffect == t.statusEffect
    ensures DoorConsistent(o) && !IsShut(o) <== t.doorState == Some(Closed)
  {
    if t.doorState == Some(Closed) then
      t.(doorState := Some(Open), glyph := '/', walkable := true, transparent := true, providesCover := false)
    else t
  }

  /**
   * Opening is idempotent, keeps the door invariant, and turns a closed
   * door into a cell that neither blocks movement nor sight.
   */
  lemma OpenedDoorIdempotent(t: Tile)
    ensures OpenedDoor(OpenedDoor(t)) == OpenedDoor(t)
    ensures DoorConsistent(t) ==> DoorConsistent(OpenedDoor(t))
    ensures IsShut(t) <==> IsShut(OpenedDoor(t)) || t.doorState == Some(Closed)
  {
  }

  /** try_open_door: writes the opened tile at `idx`, and nothing else. */
  method TryOpenDoor(idx: int, world: World)
    requires world.Valid() && 0 <= idx < Cells
    modifies world.level.tiles
    ensures world.Valid()
    ensures world.level.tiles[..] == old(world.level.tiles[..])[idx := OpenedDoor(old(world.level.tiles[idx]))]
  {
    var tiles := world.level.tiles;
    match tiles[idx].doorState {
      case Some(doorState) =>
        match doorState {
          case Closed =>
            tiles[idx] := tiles[idx].(doorState := Some(Open), glyph := '/', walkable := true,
                                      transparent := true, providesCover := false);
          case Locked =>
          case Open =>
        }
      case None =>
    }
  }

  /** Phase one of try_move_player: the read-only scan that settles the intent. */
  method AssessIntent(dx: int, dy: int, world: World) returns (intent: PlayerIntent)
    requires world.Valid()
    ensures intent == Intent(world.level.tiles[..], world.entities, dx, dy)
  {
    var tiles := world.level.tiles;
    var ents := world.entities;
    intent := DoNothing;
    var i := 0;
    while i < |ents|
      invariant 0 <= i <= |ents|
      invariant Placed(ents[i..])
      invariant Decide(tiles[..], ents[i..], dx, dy, intent) == Intent(tiles[..], ents, dx, dy)
    {
      var e := ents[i];
      assert ents[i..][1..] == ents[i + 1..];
      if e.player && e.size.Some? {
        var destX, destY := e.pos.x + dx, e.pos.y + dy;
        if destX < 0 || destX > 79 || destY < 0 || destY > 49 {
          intent := DoNothing;
          break;
        }
        var destIdx := XyIdx(destX, destY);
        match tiles[destIdx].doorState {
          case Some(doorState) =>
            if doorState == Closed || doorState == Locked {
              intent := OpenDoor(destIdx);
              break;
            }
          case None =>
        }
        var canMove := true;
        if dx != 0 && dy != 0 && e.size.value.AtLeast(Medium) {
          var adjacentX := XyIdx(e.pos.x + dx, e.pos.y);
          var adjacentY := XyIdx(e.pos.x, e.pos.y + dy);
          if !tiles[adjacentX].walkable && !tiles[adjacentY].walkable {
            canMove := false;
          }
        }
        if tiles[destIdx].walkable && canMove {
          intent := Move;
        }
      }
      i := i + 1;
    }
  }

  /** Phase two of a Move for one entity. */
  method StepPlayer(e: Entity, dx: int, dy: int) returns (r: Entity)
    ensures r == Step(e, dx, dy)
  {
    r := e;
    if e.player && e.viewshed.Some? {
      var x := if 0 > e.pos.x + dx then 0 else e.pos.x + dx;
      var y := if 0 > e.pos.y + dy then 0 else e.pos.y + dy;
      r := e.(pos := Point(if 79 < x then 79 else x, if 49 < y then 49 else y),
              viewshed := Some(e.viewshed.value.(dirty := true)));
    }
  }

  /** Phase two of a Move: every player with a viewshed steps and is marked dirty. */
  method MovePlayers(dx: int, dy: int, world: World)
    requires world.Valid()
    modifies world
    ensures world.Valid()
    ensures world.entities == Moved(old(world.entities), dx, dy)
  {
    ghost var ents := world.entities;
    var k := 0;
    while k < |world.entities|
      invariant 0 <= k <= |world.entities| == |ents|
      invariant forall j :: 0 <= j < k ==> world.entities[j] == Step(ents[j], dx, dy)
      invariant forall j :: k <= j < |ents| ==> world.entities[j] == ents[j]
    {
      var e := StepPlayer(world.entities[k], dx, dy);
      world.entities := world.entities[k := e];
      k := k + 1;
    }
    forall j | 0 <= j < |ents|
      ensures InGrid(world.entities[j].pos)
    {
      MovedEntities(ents, dx, dy, j);
    }
  }

  /**
   * try_move_player: settle the intent, then open the door, move the
   * players, or do nothing. Opening a door leaves every entity, and so every
   * viewshed's dirty flag, as it was.
   */
  method TryMovePlayer(dx: int, dy: int, world: World)
    requires world.Valid()
    modifies world, world.level.tiles
    ensures world.Valid()
    ensures var intent := Intent(old(world.level.tiles[..]), old(world.entities), dx, dy);
      match intent
      case DoNothing =>
        world.entities == old(world.entities) && world.level.tiles[..] == old(world.level.tiles[..])
      case OpenDoor(idx) =>
        0 <= idx < Cells && IsShut(old(world.level.tiles[idx])) && world.entities == old(world.entities) &&
        world.level.tiles[..] == old(world.level.tiles[..])[idx := OpenedDoor(old(world.level.tiles[idx]))]
      case Move =>
        world.entities == Moved(old(world.entities), dx, dy) && world.level.tiles[..] == old(world.level.tiles[..])
  {
    var intent := AssessIntent(dx, dy, world);
    match intent {
      case OpenDoor(idx) =>
        DecideOpensShutDoor(world.level.tiles[..], world.entities, dx, dy, DoNothing);
        TryOpenDoor(idx, world);
      case Move =>
        MovePlayers(dx, dy, world);
      case DoNothing =>
    }
  }

  /** Rust's `%`: the remainder takes the sign of the dividend. */
  function RustRem(a: int, b: int): (r: int)
    requires b > 0
    ensures a >= 0 ==> r == a % b
    ensures a < 0 ==> -b < r <= 0
  {
    if a >= 0 then a % b else -((-a) % b)
  }

  /** One LeftWalker step of a column: (x - 1 + 80) % 80. */
  function LeftStep(x: int): (r: int)
    ensures -79 <= x ==> 0 <= r < Width
    ensures 0 < x < Width ==> r == x - 1
    ensures x == 0 ==> r == Width - 1
  {
    RustRem(x - 1 + 80, 80)
  }

  /** `n` LeftWalker steps. */
  function LeftSteps(x: int, n: nat): int {
    if n == 0 then x else LeftStep(LeftSteps(x, n - 1))
  }

  /** Stepping back one from a residue modulo 80. */
  lemma ModPred(a: int)
    ensures (a - 1) % Width == if a % Width == 0 then Width - 1 else a % Width - 1
  {
    var q := a / Width;
    assert a == Width * q + a % Width;
    if a % Width == 0 {
      assert a - 1 == Width * (q - 1) + (Width - 1);
    } else {
      assert a - 1 == Width * q + (a % Width - 1);
    }
  }

  /** On the grid, n steps left land at column x - n modulo 80: after 80 steps a walker is back. */
  lemma {:induction false} LeftStepsWrap(x: int, n: nat)
    requires 0 <= x < Width
    ensures LeftSteps(x, n) == (x - n) % Width
    ensures n == Width ==> LeftSteps(x, n) == x
  {
    if n > 0 {
      LeftStepsWrap(x, n - 1);
      ModPred(x - (n - 1));
    }
  }

  /** LeftWalker over every entity: each LeftMover steps one column left, wrapping. */
  function LeftWalked(ents: seq<Entity>): (r: seq<Entity>)
    ensures |r| == |ents|
  {
    seq(|ents|, k requires 0 <= k < |ents| =>
      if ents[k].leftMover then ents[k].(pos := ents[k].pos.(x := LeftStep(ents[k].pos.x))) else ents[k])
  }

  /**
   * LeftWalker keeps every entity on the grid, moves each LeftMover one
   * column left (column 0 wraps to 79) without changing its row, and leaves
   * every other entity unchanged.
   */
  lemma LeftWalkedEntities(ents: seq<Entity>, k: int)
    requires Placed(ents) && 0 <= k < |ents|
    ensures Placed(LeftWalked(ents))
    ensures var e, m := ents[k], LeftWalked(ents)[k];
      if e.leftMover then
        m.pos.y == e.pos.y && m.pos.x == (if e.pos.x == 0 then Width - 1 else e.pos.x - 1) &&
        m == e.(pos := m.pos)
      else m == e
  {
    forall j | 0 <= j < |ents|
      ensures InGrid(LeftWalked(ents)[j].pos)
    {
      assert InGrid(ents[j].pos);
    }
  }

  /** LeftWalker::run. */
  method RunLeftWalker(world: World)
    requires world.Valid()
    modifies world
    ensures world.Valid()
    ensures world.entities == LeftWalked(old(world.entities))
  {
    ghost var ents := world.entities;
    var k := 0;
    while k < |world.entities|
      invariant 0 <= k <= |world.entities| == |ents|
      invariant forall j :: 0 <= j < k ==> world.entities[j] == LeftWalked(ents)[j]
      invariant forall j :: k <= j < |ents| ==> world.entities[j] == ents[j]
    {
      var e := world.entities[k];
      if e.leftMover {
        e := e.(pos := e.pos.(x := RustRem(e.pos.x - 1 + 80, 80)));
      }
      world.entities := world.entities[k := e];
      k := k + 1;
    }
    if |ents| > 0 {
      LeftWalkedEntities(ents, 0);
    }
  }
}
