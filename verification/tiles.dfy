/**
 * The tile record of src/map.rs and the four biome tables that supply tile
 * archetypes to the level generators.
 */
module Tiles {
  import opened Wrappers

  /** The named colours the biome tables use. Colours are opaque to the core. */
  datatype Colour =
    | Black | White | DarkGray | LightGray | Chocolate | Red | Green
    | Brown1 | Blue | DarkBlue | DarkGreen | Purple | Orange | LightCyan

  datatype DoorState = Open | Closed | Locked

  datatype StatusEffect = Burning | Entangled

  /**
   * One grid cell. The glyph is the character handed to the code-page
   * conversion; it is passed through unchanged.
   */
  datatype Tile = Tile(
    fg: Colour,
    bg: Colour,
    trapDc: Option<int>,
    directDamage: int,
    slipperiness: int,
    glyph: char,
    doorState: Option<DoorState>,
    statusEffect: Option<StatusEffect>,
    walkable: bool,
    transparent: bool,
    providesCover: bool)

  /** A door that is closed or locked. */
  predicate IsShut(t: Tile) {
    t.doorState == Some(Closed) || t.doorState == Some(Locked)
  }

  /**
   * The door invariant of a tile: a shut door blocks movement, an open door
   * lets both walkers and sight through.
   */
  predicate DoorConsistent(t: Tile) {
    (IsShut(t) ==> !t.walkable) &&
    (t.doorState == Some(Open) ==> t.walkable && t.transparent)
  }

  /** A plain tile: no door, no effect, no trap, no damage, no slipperiness. */
  function Plain(glyph: char, fg: Colour, bg: Colour, walkable: bool, transparent: bool, cover: bool): Tile {
    Tile(fg, bg, None, 0, 0, glyph, None, None, walkable, transparent, cover)
  }

  /**
   * The four biomes. Floor and wall are mandatory; water, trap, door and
   * locked door are optional capabilities (`None` when the biome lacks them).
   */
  datatype Biome = Building | Forest | Volcano | SnowyMountains {

    function Floor(): (t: Tile)
      ensures t.walkable && t.transparent && !t.providesCover
      ensures t.doorState == None && t.trapDc == None && t.directDamage == 0
    {
      match this
      case Building => Plain('.', DarkGray, Black, true, true, false)
      case Forest => Plain('.', Green, Black, true, true, false)
      case Volcano => Plain('\U{2592}', DarkGray, Black, true, true, false)
      case SnowyMountains => Plain(' ', White, LightGray, true, true, false).(slipperiness := 2)
    }

    function Wall(): (t: Tile)
      ensures !t.walkable && !t.transparent && t.providesCover
      ensures t.doorState == None && t.trapDc == None
      ensures t != Floor()
    {
      match this
      case Building => Plain('#', White, Black, false, false, true)
      case Forest => Plain('\U{2663}', Brown1, Black, false, false, true)
      case Volcano => Plain('\U{25B2}', Purple, Black, false, false, true)
      case SnowyMountains => Plain('\U{25B2}', LightCyan, Black, false, false, true).(slipperiness := 1)
    }

    /** River or lake in the forest, lava in the volcano. */
    function Water(): (t: Option<Tile>)
      ensures t.Some? <==> this == Forest || this == Volcano
      ensures t.Some? ==> !t.value.walkable && t.value.transparent && !t.value.providesCover
      ensures t.Some? ==> t.value.doorState == None && t.value.glyph == '~' && t.value.directDamage > 0
    {
      match this
      case Forest =>
        Some(Plain('~', Blue, DarkBlue, false, true, false).(directDamage := 5))
      case Volcano =>
        Some(Plain('~', Orange, Red, false, true, false).(directDamage := 10, statusEffect := Some(Burning)))
      case _ => None
    }

    /** Entangling vines: the only trap, and it can be walked onto. */
    function Trap(): (t: Option<Tile>)
      ensures t.Some? <==> this == Forest
      ensures t.Some? ==> t.value.walkable && t.value.transparent && t.value.doorState == None
      ensures t.Some? ==> t.value.trapDc == Some(15) && t.value.statusEffect == Some(Entangled)
    {
      match this
      case Forest =>
        Some(Plain(';', DarkGreen, Black, true, true, false).(
          directDamage := 1, statusEffect := Some(Entangled), trapDc := Some(15)))
      case _ => None
    }

    /** A closed door; only the Building biome has one. */
    function Door(): (t: Option<Tile>)
      ensures t.Some? <==> this == Building
      ensures t.Some? ==> t.value.doorState == Some(Closed)
      ensures t.Some? ==> !t.value.walkable && !t.value.transparent && t.value.providesCover
    {
      match this
      case Building =>
        Some(Plain('+', Chocolate, Black, false, false, true).(doorState := Some(Closed)))
      case _ => None
    }

    /** A locked door; only the Building biome has one. */
    function LockedDoor(): (t: Option<Tile>)
      ensures t.Some? <==> this == Building
      ensures t.Some? ==> t.value.doorState == Some(Locked)
      ensures t.Some? ==> !t.value.walkable && !t.value.transparent && t.value.providesCover
    {
      match this
      case Building =>
        Some(Plain('+', Red, Black, false, false, true).(doorState := Some(Locked)))
      case _ => None
    }

    /** Every archetype the biome can hand to a generator. */
    function Archetypes(): (ts: set<Tile>)
      ensures Floor() in ts && Wall() in ts
      ensures forall t :: t in ts ==> DoorConsistent(t)
      ensures forall t :: t in ts && t.glyph == '~' ==> Water().Some?
      ensures forall t :: t in ts && t.trapDc.Some? ==> Trap().Some?
    {
      {Floor(), Wall()} + Opt(Water()) + Opt(Trap()) + Opt(Door()) + Opt(LockedDoor())
    }
  }

  /** The tiles an optional archetype contributes. */
  function Opt(t: Option<Tile>): (s: set<Tile>)
    ensures t.None? ==> s == {}
    ensures t.Some? ==> s == {t.value}
  {
    if t.Some? then {t.value} else {}
  }
}
