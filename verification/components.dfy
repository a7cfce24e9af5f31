/**
 * The components the core systems read and write, the player's intent, and
 * the world: the entities with their components, plus the Map resource.
 */
module Components {
  import opened Wrappers
  import opened Grid
  import opened Maps

  /** Body size; the derived ordering follows declaration order. */
  datatype CharacterSize = Tiny | Small | Medium | Large | Huge {
    function Rank(): nat {
      match this
      case Tiny => 0
      case Small => 1
      case Medium => 2
      case Large => 3
      case Huge => 4
    }

    /** The derived `>=` on sizes. */
    predicate AtLeast(other: CharacterSize) {
      Rank() >= other.Rank()
    }
  }

  /** The field-of-view component: what the entity sees, how far, and whether it must be recomputed. */
  datatype Viewshed = Viewshed(visibleTiles: seq<Point>, range: int, dirty: bool)

  /**
   * One entity and the components it carries. Every entity the core systems
   * touch has a Position; the Player and LeftMover tags are flags, and the
   * size and viewshed are optional.
   */
  datatype Entity = Entity(
    pos: Point,
    size: Option<CharacterSize>,
    viewshed: Option<Viewshed>,
    player: bool,
    leftMover: bool)

  /** What a move key turns into once the map has been consulted. */
  datatype PlayerIntent = Move | OpenDoor(idx: int) | DoNothing

  /** Every position lies on the grid. */
  predicate Placed(ents: seq<Entity>) {
    forall k :: 0 <= k < |ents| ==> InGrid(ents[k].pos)
  }

  /** The ECS world: the entity table (in storage order) and the Map resource. */
  class World {
    var entities: seq<Entity>
    const level: Map

    ghost predicate Valid()
      reads this
    {
      level.Valid() && Placed(entities)
    }

    constructor (level: Map, entities: seq<Entity>)
      requires level.Valid() && Placed(entities)
      ensures Valid() && this.level == level && this.entities == entities
    {
      this.level := level;
      this.entities := entities;
    }
  }
}
