# rogue: level generation, movement and field of view, in Dafny

This project models the core of a small terminal roguelike built on rltk
and specs. The model covers these parts:

- **Biomes.** Building, Forest, Volcano and SnowyMountains each supply
  tile archetypes: a floor and a wall, and optionally water, a trap, a
  door and a locked door.
- **Two level generators.** `wilderness_map` builds an open field that is
  walled at the edges, with scattered walls and doors and
  biome-dependent water and traps. `dungeon_map` builds
  rejection-sampled rooms joined by L-shaped corridors, with doors
  stamped on the room perimeters after all digging is done.
- **Turn logic.** `try_move_player` turns a move key into an intent
  (move, open a door, or nothing) and then acts on it. `try_open_door`
  opens closed doors. The `LeftWalker` system wraps entities leftwards
  around the 80-column map.
- **The visibility system.** It recomputes dirty viewsheds, keeps only
  on-map points and reveals what the player sees.

The map is always 80 x 50 cells, stored row-major. `xy_idx` gives cell
(x, y) the index `y * 80 + x`.

## Structure

Modules follow the source:

| Module | Contents |
|---|---|
| `Tiles` | tiles and biomes |
| `Grid` | the grid and the index |
| `Rects` | rooms |
| `Maps` | the Map resource as a class over `array`s |
| `Carving` | room and tunnel carving |
| `Doors` | door search and exit cells |
| `Dungeon`, `DungeonProps`, `DungeonBorder` | the dungeon generator, its properties, and its boundary |
| `Wilderness`, `WildernessProps` | the wilderness generator and its properties |
| `Components` | components and the `World` class |
| `Movement` | `try_move_player`, `try_open_door` and `LeftWalker` |
| `Visibility` | the visibility system |

**Imperative code stays imperative.**

- Each generator writes the Map's tile array with loops, and each loop is
  proved equal to a specification function on sequences. For example,
  `level.tiles[..] == WildernessTiles(biome, trials, water, traps)`.
- The turn logic and the visibility system update a `World` object and the
  Map's arrays in place. Their `ensures` give the new state as a function
  of the old one.
- Lemmas state what the source promises about those functions cell by
  cell.

**Randomness is an input.** Every random draw is passed in, and its
precondition gives the range rltk produces:

- `roll_dice(1, n)` yields a value in 1..n.
- `range(a, b)` yields a value in a..b-1.

## Model

| member | source | states |
|---|---|---|
| Tiles.Biome.Floor | src/map.rs:108-261 | every floor is walkable, transparent, gives no cover, and is not a door or trap |
| Tiles.Biome.Wall | src/map.rs:108-261 | every wall blocks movement and sight, gives cover, and differs from the floor |
| Tiles.Biome.Water | src/map.rs:179-235 | only Forest and Volcano have water; it is an unwalkable, transparent, damaging '~' |
| Tiles.Biome.Trap | src/map.rs:190-199 | only Forest has a trap; it is walkable, with DC 15 and the Entangled effect |
| Tiles.Biome.Door | src/map.rs:130-141 | only Building has a door; it is closed and blocks movement and sight |
| Tiles.Biome.LockedDoor | src/map.rs:142-151 | only Building has a locked door; it is locked and blocks movement and sight |
| Tiles.Biome.Archetypes | src/map.rs:84-261 | the set of a biome's archetypes holds floor and wall; every member keeps the door invariant; '~' tiles and trap DCs come only from biomes that have them |
| Grid.XyIdx | src/map.rs:267-269 | the row-major index of a cell is non-negative, and below 4000 for a cell on the 80 x 50 grid |
| Grid.XyIdxCoords | src/map.rs:267-269 | the index of a grid cell gives back its column and row |
| Grid.CellOfIndex | src/map.rs:267-269 | every index in 0..4000 is the index of a grid cell |
| Grid.XyIdxInjective | src/map.rs:267-269 | xy_idx is injective on the grid |
| Grid.StampAt | src/map.rs:571-576 | after the "write v at each point" loop, a cell holds v exactly when some point hits it, and is unchanged otherwise |
| Grid.StampSnoc | src/map.rs:571-576 | one more point is one more write |
| Grid.StampCells | src/map.rs:571-576 | the in-place loop equals the stamp function |
| Maps.Map.Filled | src/map.rs:497-503 | the map literal is 80 x 50, one tile everywhere, nothing revealed, no rooms |
| Maps.IsOpaque | src/map.rs:25-28 | a cell blocks sight exactly when its tile is not transparent, so an open door never blocks sight |
| Maps.Opacity | src/map.rs:25-28 | the opacity seen by field of view is the negation of transparency, cell by cell |
| Maps.ArchetypeOpacity | src/map.rs:25-28 | floors never block sight; walls always do |
| Carving.CarveRoomCell | src/map.rs:400-408 | carving a room sets exactly the cells with x1 < x <= x2 and y1 < y <= y2 to floor |
| Carving.ApplyRoomToMap | src/map.rs:400-408 | the nested loop equals the room-carve function |
| Carving.TunnelCells | src/map.rs:411-430 | every grid cell between a tunnel's ends becomes floor, except index 0 |
| Carving.ApplyHorizontalTunnel | src/map.rs:411-419 | the loop writes floor on the row between min and max of the ends, skipping index 0 and indices past the buffer |
| Carving.ApplyVerticalTunnel | src/map.rs:422-430 | the same for the column |
| Doors.Candidates | src/map.rs:454-472 | the candidate list is never empty: 2 to 4 points |
| Doors.CandidatesOnPerimeter | src/map.rs:454-472 | every candidate of an ordered room lies on its perimeter |
| Doors.NearestIsFirst | src/map.rs:474-481 | the scan returns the element a stable sort by squared distance puts first: minimal distance, every earlier candidate strictly farther |
| Doors.FindDoorCandidate | src/map.rs:454-482 | find_door_candidate always returns Some |
| Doors.DoorIsNearest | src/map.rs:454-482 | the door found is the first nearest candidate in push order (N, S, W, E, or the corners), and lies on the room's perimeter |
| Doors.GetExitPoint | src/map.rs:437-447 | the exit is one step from the door, west if on x1, else east if on x2, else north if on y1, else south; for a perimeter door it lies outside the room |
| Doors.ExitInGrid | src/map.rs:437-482 | for a room inside the margin, the door and its exit lie on the grid |
| Dungeon.AcceptedRoomsSound | src/map.rs:512-533 | at most one room per trial; every room keeps the margin, is a trial's proposal, and intersects no earlier room |
| Dungeon.AcceptedRoomsOrdered | src/map.rs:512-517 | every accepted room has its bounds in order |
| Dungeon.PlaceRooms | src/map.rs:512-533 | the trial loop with its intersection scan yields exactly the accepted rooms |
| Dungeon.RoomDoorsPlaced | src/map.rs:541-556 | each room's door lies on its perimeter and on the grid; each exit is adjacent to its door, on the grid, and outside the room |
| Dungeon.Paired | src/map.rs:541-551 | two doors are recorded per consecutive pair of rooms |
| Dungeon.PairedSnoc | src/map.rs:541-551 | one more pass of the loop appends the doors of rooms i-1 and i |
| Dungeon.PairedAt | src/map.rs:549-551 | pass i records room i-1's door at position 2(i-1) and room i's door at position 2i-1 |
| Dungeon.PairedFrom | src/map.rs:549-551 | every recorded door is some room's door |
| Dungeon.DoorsInGrid | src/map.rs:571-576 | every recorded door lies on the grid |
| Dungeon.DoorsAt | src/map.rs:541-551 | the recorded doors, in terms of each room's own door |
| Dungeon.DoorsShared | src/map.rs:541-551 | a door is searched from its own room's centre, so an inner room's door is recorded twice and serves both of its corridors |
| Dungeon.CorridorsSnoc | src/map.rs:541-568 | one more pass digs one more corridor |
| Dungeon.CarveAllRooms | src/map.rs:535-537 | the carve loop equals carving every room in order |
| Dungeon.DoorOfRoom | src/map.rs:543-555 | what one pass computes for a room: its door and exit, on the grid |
| Dungeon.DigConnection | src/map.rs:559-565 | horizontal leg first on coin 1, vertical first otherwise |
| Dungeon.ConnectRooms | src/map.rs:541-567 | one pass records the doors of rooms i-1 and i and digs between their exits |
| Dungeon.DigCorridors | src/map.rs:540-568 | the loop yields the recorded doors and the corridors between all consecutive exits |
| Dungeon.DungeonMap | src/map.rs:495-580 | the map is fresh, 80 x 50 and unrevealed; Map.rooms stays empty; at most 30 rooms, each inside the margin and in order; tiles are exactly the dungeon function |
| DungeonProps.CarvedRoomsCell | src/map.rs:535-537 | carving sets exactly the cells inside some room to floor |
| DungeonProps.ConnectCell | src/map.rs:559-565 | one corridor sets exactly its L-shaped path to floor, except index 0 |
| DungeonProps.CorridorsCell | src/map.rs:540-568 | all corridors set exactly the cells on some path to floor, except index 0 |
| DungeonProps.DungeonTilesCell | src/map.rs:495-580 | each cell is a door at a recorded door (when the biome has one), else floor in a room or on a corridor, else wall |
| DungeonProps.DungeonDoors | src/map.rs:571-576 | in a Building dungeon a cell holds the door exactly when a door was recorded there |
| DungeonProps.DungeonArchetypes | src/map.rs:495-580 | every cell is one of the biome's archetypes; outside Building only floor or wall |
| DungeonBorder.InteriorIndex | src/map.rs:267-269 | a cell in columns 1..78 and rows 1..48 is not a boundary index |
| DungeonBorder.ExitInterior | src/map.rs:437-447 | a perimeter door of a room two cells from every edge, and its exit, are interior cells |
| DungeonBorder.CorridorInterior | src/map.rs:411-430 | an L-shaped corridor between interior exits touches no boundary cell |
| DungeonBorder.DungeonBorderKept | src/map.rs:495-580 | with every room two cells from every edge, every boundary cell of the dungeon is the biome's wall |
| DungeonBorder.RejectedRepeats | src/map.rs:512-533 | a proposal that meets the first accepted room is rejected however often it is repeated |
| DungeonBorder.NorthEdgeAccepted | src/map.rs:512-533 | thirty in-range trials leave exactly the rooms (10,1)..(16,7) and (30,20)..(36,26), both inside the margin |
| DungeonBorder.NorthEdgeExits | src/map.rs:437-482 | those rooms get the doors (13,1) and (33,20) and the exits (13,0) and (33,19) |
| DungeonBorder.ExitOnBorder | src/map.rs:526 | as written, the boundary cell (13,0) of that Building dungeon is walkable, whatever the coins |
| Wilderness.DrawsInGrid | src/map.rs:300-341 | cells drawn by roll_dice(1,79) and roll_dice(1,49) lie on the grid |
| Wilderness.ScatterTile | src/map.rs:306-323 | the tile is the wall or one of the biome's doors; a roll above 90 gives a locked door and 81..90 a closed door when the biome has them, and only those rolls do; a roll of 80 or less, or a biome without doors, gives the wall |
| Wilderness.WallBorder | src/map.rs:288-296 | the two boundary loops wall exactly rows 0 and 49 and columns 0 and 79 |
| Wilderness.ScatterWalls | src/map.rs:300-325 | the scatter loop equals the scatter function, which skips the start cell |
| Wilderness.WildernessMap | src/map.rs:277-347 | the map is fresh, 80 x 50, unrevealed and without rooms; tiles are exactly the wilderness function |
| WildernessProps.ScatteredCell | src/map.rs:300-325 | a scattered cell holds wall or a door of the biome; other cells are unchanged; (40,25) is never written |
| WildernessProps.FinalCell | src/map.rs:328-344 | a trap where one was drawn (Forest), else water where it was drawn (Forest, Volcano), else what scatter left |
| WildernessProps.DrawMissesNorthWest | src/map.rs:300-341 | no draw reaches row 0 or column 0 |
| WildernessProps.NorthWestWalls | src/map.rs:277-347 | row 0 and column 0 are always wall |
| WildernessProps.StartCell | src/map.rs:303-305 | the start cell is floor unless water or a trap is drawn on it, and never a wall or door |
| WildernessProps.WildernessArchetypes | src/map.rs:277-347 | every cell is an archetype of the biome; without water and traps, only floor, wall or doors |
| WildernessProps.TrapOnBorder | src/map.rs:337-344 | draws reach column 79: a Forest trap at (79,1) makes a walkable boundary cell |
| WildernessProps.BorderKept | src/map.rs:300-341 | with draws in 1..78 x 1..48, every boundary cell stays wall |
| Movement.CornerBlocked | src/main.rs:60-67 | only a diagonal step by a Medium or larger body, with both orthogonal neighbours unwalkable, can be cut off at a corner; Tiny and Small bodies never are |
| Movement.Judge | src/main.rs:42-71 | one player stops with DoNothing exactly when its destination is off the map; on the map, it stops only at a closed or locked door, with OpenDoor of that cell |
| Movement.DecideFirstHalt | src/main.rs:39-73 | the first player the loop stops on decides the intent |
| Movement.DecideNoHalt | src/main.rs:39-73 | if the loop stops on no player, the intent is Move exactly when some player's move is allowed |
| Movement.DecideOpensShutDoor | src/main.rs:50-57 | an OpenDoor intent names a closed or locked door that is some player's destination |
| Movement.SinglePlayer | src/main.rs:41-71 | with one player: off the map does nothing; a shut door is opened; otherwise it moves exactly when the destination is walkable and not cut off at a corner; a diagonal step by a Medium or larger body with both orthogonal neighbours unwalkable never moves; Tiny and Small are never cut off |
| Movement.MovedEntities | src/main.rs:82-93 | a Move puts each player with a viewshed at its destination clamped to 0..79 x 0..49 (the destination itself when on the grid), marks it dirty, keeps its size, range and visible tiles, and leaves every other entity as it was |
| Movement.OpenedDoor | src/main.rs:99-119 | a closed door becomes an open '/' that is walkable, transparent and without cover, keeping its other fields; any other tile is unchanged |
| Movement.OpenedDoorIdempotent | src/main.rs:99-119 | opening is idempotent, keeps the door invariant, and leaves locked doors shut |
| Movement.TryOpenDoor | src/main.rs:99-119 | writes the opened tile at idx and nothing else; entities (and so dirty flags) are untouched |
| Movement.AssessIntent | src/main.rs:31-74 | the loop with its two breaks computes the intent function |
| Movement.StepPlayer | src/main.rs:87-91 | the clamped step and dirty flag for one entity |
| Movement.MovePlayers | src/main.rs:82-93 | the Move loop over players with a viewshed |
| Movement.TryMovePlayer | src/main.rs:29-96 | DoNothing changes nothing; OpenDoor opens a shut door at its index and leaves entities alone; Move moves the players and leaves tiles alone |
| Movement.RustRem | src/main.rs:195 | Rust's % on a non-negative dividend is the Euclidean remainder; on a negative one it is in (-b, 0] |
| Movement.LeftStep | src/main.rs:195 | a column on the map stays on it; x goes to x-1, and 0 wraps to 79 |
| Movement.LeftStepsWrap | src/main.rs:189-198 | n steps move a walker to (x - n) mod 80, so after 80 steps it is back |
| Movement.LeftWalkedEntities | src/main.rs:189-198 | each LeftMover moves one column left in the same row; everything else is unchanged; all stay on the grid |
| Movement.RunLeftWalker | src/main.rs:189-198 | the system loop equals LeftWalked |
| Visibility.Retained | src/visibility_system.rs:24 | retain never lengthens the list |
| Visibility.RetainedMembers | src/visibility_system.rs:24 | a point is kept exactly when it was given and lies inside the map |
| Visibility.RetainedInGrid | src/visibility_system.rs:24 | on the 80 x 50 map, only grid points remain |
| Visibility.RetainedAppend | src/visibility_system.rs:24 | retain keeps order: it distributes over concatenation |
| Visibility.RetainedKeepsAll | src/visibility_system.rs:24 | a list already on the map is kept whole |
| Visibility.Visible | src/visibility_system.rs:22-24 | a recomputed viewshed holds only grid points |
| Visibility.RevealedSnoc | src/visibility_system.rs:29-36 | one more entity is one more step of the reveal fold |
| Visibility.RevealedCell | src/visibility_system.rs:18-38 | after a pass a cell is revealed exactly when it was before, or some dirty player now sees it |
| Visibility.RevealedMonotone | src/visibility_system.rs:18-38 | revealed flags only go from false to true; every point a dirty player sees is revealed; a pass with no player reveals nothing |
| Visibility.RefreshedEntities | src/visibility_system.rs:18-38 | no viewshed is dirty after a pass; a dirty one holds its retained field of view and keeps its range; clean entities, positions and tags are unchanged |
| Visibility.NothingStale | src/visibility_system.rs:18-21 | with nothing dirty, a pass reveals nothing |
| Visibility.SecondPass | src/visibility_system.rs:15-39 | a second pass over the same map changes neither entities nor revealed flags |
| Visibility.RefreshEntity | src/visibility_system.rs:21-36 | one pass of the loop: refresh the entity and, for a player, reveal what it sees |
| Visibility.RunVisibility | src/visibility_system.rs:15-39 | the system's loop equals the refresh and reveal functions; tiles are only read |

## Left out

- **RNG.** rltk's generator is replaced by draws supplied per trial, and
  each draw's precondition gives its range:
  - scatter trials, water and trap points, and room trials;
  - the coin for each corridor.

  When the scatter draws the start cell, the source skips the 1..100 roll
  and the model ignores the supplied roll. The reachable maps are the
  same; only the position in the random stream differs.
- **Rect::new, Rect::center and Rect::intersect.** rect.rs is not part of
  this model. These are function values in `RectOps`. The one assumption
  made about them (`BuildsOrdered`: positive width and height give ordered
  bounds) is a precondition of `Dungeon.DungeonMap`. The dungeon finding
  below is shown with the usual definitions (`DungeonBorder.UsualRects`:
  x2 = x + w, the centre at the midpoints, overlap of closed rectangles).
- **rltk's field_of_view.** It is a function value (`FieldOfView`) applied
  to the origin, the range and the map's opacity. Its shadow-casting
  algorithm is not modelled.
- **Doors.NearestIsFirst.** The stable `sort_by` is modelled by its
  outcome, a single scan for the first candidate of least distance, not
  by the sort's reordering of the whole list.
- **draw_map, player_input, tick, run_systems and main.** These cover
  rendering, key mapping, the game loop, system order and entity
  creation.
- **The unused `get_stairs` getter.** It is not modelled.
- **RGB colours.** They become a `Colour` enumeration. The glyph is kept
  as a character, before code-page conversion.
- **specs storages.** They become one entity table in storage order.
  Every entity the core systems join on has a Position; Renderable and
  CanMove are not read by the core and are not modelled.
- **Grid.XyIdx.** It takes non-negative coordinates only. The wrap of a
  negative i32 cast to usize is not modelled; no caller in the model
  passes one.
- **i32 overflow.** Coordinates are unbounded integers. All values
  involved stay far below 2^31.
- **Carving.ApplyRoomToMap.** It requires a room whose carved cells lie on
  the grid. Outside the grid the source would panic past the buffer or
  wrap into the next row: a room with x2 == 80 and y2 <= 48 writes column
  0 of the next row. The dungeon generator only passes rooms inside the
  margin.

## Findings

| source | as written | input that shows it | evidently intended | confidence | as-written member | corrected member |
|---|---|---|---|---|---|---|
| src/map.rs:301-302 | scatter, water and trap cells are drawn with roll_dice(1, 79) and roll_dice(1, 49), so they can land on column 79 or row 49, which the boundary loops just walled | a Forest trap drawn at (79, 1) overwrites the east wall with a walkable trap tile | draws in 1..78 and 1..48, keeping every boundary cell wall | not executed | WildernessProps.TrapOnBorder | WildernessProps.BorderKept |
| src/map.rs:526 | the margin test rejects only rooms with x1 < 1, x2 > 78, y1 < 1 or y2 > 48, so a room may touch row 1, row 48, column 1 or column 78; its door can lie on that edge, and get_exit_point (src/map.rs:437-447) then steps onto the boundary, where the corridor digs floor | room trials (6, 6, 11, 2) and (6, 6, 31, 21) give the rooms (10,1)..(16,7) and (30,20)..(36,26); the first room's door is (13,1), its exit (13,0) on row 0 becomes Building floor | rooms at least two cells from every edge (x1 >= 2, x2 <= 77, y1 >= 2, y2 <= 47), keeping every boundary cell wall | not executed | DungeonBorder.ExitOnBorder | DungeonBorder.DungeonBorderKept |
