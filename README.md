# ruby-hunter: tiles, grid, rooms, halls, dungeon builder and pathfinding in Dafny

This project models the core of ruby-hunter, a small Ruby/Gosu program. It
generates a dungeon on a grid of tiles and then runs a stepped best-first
search between two clicked tiles. It proves properties of the model. The
modelled pieces:

- **Points, vectors, tile types and tiles** (`point.dfy`, `vector2.dfy`,
  `tile_type.dfy`, `tile.dfy`). `Point` and `Tile` are immutable values:
  every tile setter is a record update that keeps the tile's coordinates.
  `Vector2` is a class, because `set` and `zero` change it in place.
- **Board geometry** (`layout.dfy`, `board.dfy`). Bounds checks, orthogonal
  adjacency, the neighbour probe in its fixed order (0,1), (1,0), (0,-1),
  (-1,0), and the "central perimeter" test. `Grid` keeps its tiles row by
  row. `Dungeon` keeps them column by column, because it indexes
  `@grid[x][y]`.
- **Grid** (`grid.dfy`). A class over an `array<Tile>` and an
  `array<seq<nat>>` of neighbour lists. Tiles are referred to by their slot
  in the array; a Ruby tile reference becomes a slot number.
- **Hall and Room** (`hall.dfy`, `room.dfy`). Their constructors stamp
  states and ids onto the tile array in place. The effect of each
  constructor is also stated as a function on the sequence of tiles.
- **Dungeon** (`dungeon.dfy`). `Dungeon.new` as written. After the grid is
  built and wired, `build_initial_hall` pads the border. It then tries
  central border tiles in random order. `pad_room` calls
  `room.perimeter_w_corners`, which `Room` does not define; the attribute is
  `perimeter_w_corner_tiles`. So `build_room` never returns a room, and the
  first candidate whose hall has a direction makes `Dungeon.new` raise.
  Ruby exceptions are modelled as an `Outcome` value (`Raised(NilReceiver)`
  or `Raised(UndefinedMethod)`). Random draws (`sample`, `rand`) are
  parameters (`Draw`).
- **Pathfinding** (`pathfind_node.dfy`, `pathfinding.dfy`). A class that
  holds open and closed lists of node ids. The ids index an append-only
  arena of `PathfindNode` values, and a node's parent is an earlier id.
  `Step` is proved against specification functions: which open node
  `best_option` picks (`BestAt`), and which neighbours get new nodes
  (`Fresh`). `Valid` is the search invariant that every step keeps. It says
  the arena is well linked, every node stands on a tile, costs are 0, no
  node is listed twice or in both lists, and no tile has two listed nodes.

`TILE_SIZE + MARGIN` is a positive parameter `pitch`. Its value is not part
of this model.

The model follows the code as written, including where it defeats its
evident intent. The one exception is the tile methods that model/tile.rb
does not define. They are listed under "## Left out", and the model
supplies them. Apart from them:

- Room and hall counters start at 0 (processing/dungeon.rb:33-34).
- `try_hall` does not shuffle its directions: `shuffle`'s result is
  discarded. The `[[], [0,0]]` expressions at lines 112-114 and 122-124 are
  not returned, so a blocked or off-grid step does not fail the attempt.
- The walked tiles start one step beyond the start tile. The start tile is
  not among them.
- `build_room` does not stop on a nil centre or room; those nil checks are
  discarded. `pad_room` raises before it looks at any tile. Even when
  reached, its `==` comparisons would change nothing.
- There is no incremental growth step in processing/dungeon.rb.
  processing/window.rb calls `work_remains`, which the class does not
  define. The incremental protocol is not part of this model.

## Model

| member | source | states |
|---|---|---|
| Points.Point.Add | model/point.rb:18-20 | the sum point differs from the receiver by exactly the other point, in each coordinate |
| Points.AddOriginIdentity | model/point.rb:18-20 | adding the origin on either side changes nothing |
| Points.AddCommutative | model/point.rb:18-20 | `p.add(q)` equals `q.add(p)` |
| Points.AddAssociative | model/point.rb:18-20 | `(p + q) + r` equals `p + (q + r)` |
| Points.Point.String | model/point.rb:12-14 | the "x y" rendering is two space-free decimal numbers joined by one space, and parsing it gives back the point |
| Points.FormatRoundTrip | model/point.rb:12-14 | parsing the rendering of any (x, y), negative ones included, recovers (x, y) |
| Vectors.Vector2.constructor | model/vector2.rb:7-10 | the coordinates are the given ones, 0 by default |
| Vectors.Vector2.Set | model/vector2.rb:19-22 | both coordinates are overwritten with the new values |
| Vectors.Vector2.IsZero | model/vector2.rb:25-27 | `zero?` holds exactly when the vector equals the origin point |
| Vectors.Vector2.Zero | model/vector2.rb:30-33 | afterwards both coordinates are 0, so `zero?` holds |
| Vectors.Vector2.Add | model/vector2.rb:37-39 | returns a fresh vector with the componentwise sums; as points this is `Point#add` |
| Vectors.Vector2.String | model/vector2.rb:12-14 | the rendering parses back to the vector's coordinates |
| TileTypes.Code | module/tile_type.rb:2-13 | every state's constant is below the number of states |
| TileTypes.FromCode | module/tile_type.rb:2-13 | an integer denotes a state exactly when it is in 0..10, and that state's constant is the integer |
| TileTypes.CodeRoundTrip | module/tile_type.rb:2-13 | decoding a state's constant gives the state back |
| TileTypes.CodeInjective | module/tile_type.rb:2-13 | two states share a constant only if they are the same state |
| Tiles.NewTile | model/tile.rb:13-23 | a new tile has the given coordinates, pixel position coordinate times pitch, state EMPTY, room and hall id -1, no neighbours, and is in no room or hall |
| Tiles.Tile.RemoveRoom | model/tile.rb:36-38 | afterwards the tile is in no room, its hall membership is unchanged, and only the room id changed |
| Tiles.Tile.RemoveHall | model/tile.rb:44-46 | afterwards the tile is in no hall, its room membership is unchanged, and only the hall id changed |
| Tiles.Tile.SetRoom | model/room.rb:35 | the room id becomes the given id and nothing else changes |
| Tiles.Tile.SetHall | model/hall.rb:21 | the hall id becomes the given id and nothing else changes |
| Tiles.Tile.Become | model/tile.rb:9 | afterwards the tile is in the given state and in no other, and only the state changed |
| Tiles.Tile.WithNeighbors | processing/dungeon.rb:291 | the neighbour list is replaced and nothing else changes |
| Tiles.Tile.InRoom | model/tile.rb:32-34 | `in_room?` holds exactly when the tile carries a room id other than the -1 sentinel, that is, when `remove_room` would change it |
| Tiles.Tile.InHall | model/tile.rb:40-42 | `in_hall?` holds exactly when the tile carries a hall id other than the -1 sentinel, that is, when `remove_hall` would change it |
| Tiles.Tile.Is | model/tile.rb:9 | the state test holds exactly when the tile's `state` is that state, so becoming it would change nothing |
| Tiles.Tile.OneOf | model/grid.rb:83 | `one_of?(states)` holds exactly when some listed state is the tile's state |
| Tiles.Tile.IsEnd | processing/pathfinding.rb:66 | `end?` holds exactly when the tile is in the end-point state, the same as `one_of?([END_POINT])` |
| Tiles.SettersKeepPlace | model/tile.rb:8 | no setter changes coordinates or pixel position, which are read-only |
| Tiles.BecomeWallThenFloor | spec/tile_spec.rb:28-37 | the scenario of the tile spec: Tile.new(2, 5) is EMPTY at (2, 5); after become_wall it is WALL and not EMPTY; after become_floor it is FLOOR and not WALL |
| Boards.Board.CoordOfRoundTrip | model/grid.rb:35-37 | every slot of the board lies on the board and is the slot of its own coordinates |
| Boards.Board.Lookup | model/grid.rb:47-49 | a lookup finds a slot exactly when (x, y) is on the board, and the slot it finds has those coordinates |
| Boards.Board.LookupCoord | processing/dungeon.rb:251-257 | looking up a slot's coordinates finds that slot |
| Boards.Board.FoundSpec | model/grid.rb:63-66 | the probe keeps a slot exactly when it is on the board and its coordinates are among the probed points |
| Boards.Board.NeighborListSpec | model/grid.rb:52-70 | a slot is a recorded neighbour exactly when it is on the board and orthogonally adjacent |
| Boards.Board.NeighborSymmetric | model/grid.rb:52-70 | j is a neighbour of i exactly when i is a neighbour of j |
| Boards.Board.NeighborIrreflexive | model/grid.rb:52-70 | no tile is its own neighbour |
| Boards.Board.NeighborListDistinct | model/grid.rb:52-70 | no neighbour is recorded twice |
| Boards.Board.NeighborListCount | spec/grid_spec.rb:42-54 | on a board of at least 2x2, a corner has 2 neighbours, another border tile 3 and an interior tile 4 |
| Boards.Board.CentralNext | model/grid.rb:117-126 | one more slot extends the candidate list by that slot exactly when it passes the border-and-band test |
| Boards.Board.CentralPerimeterSpec | model/grid.rb:104-129 | the list holds exactly the border slots strictly inside the central band of either axis, ascending, each once |
| Boards.Board.ColumnMajorOrder | processing/dungeon.rb:65-66 | with tiles kept column by column, slot order is the order of the (x, y) loops |
| Layout.NeighborCoordsSpec | model/grid.rb:55-66 | a probed point is kept exactly when it is in bounds and orthogonally adjacent |
| Layout.NeighborCount | spec/grid_spec.rb:42-54 | the number of kept points is 4 minus the number of sides the tile lies on |
| Layout.KeepInBounds | model/grid.rb:63-66 | the kept points are exactly the in-bounds ones, no more than the probed ones |
| Grids.Grid.constructor | model/grid.rb:12-32 | cols and rows are the pixel sizes divided by the pitch; every slot holds the tile Tile.new builds for it; every neighbour list is recorded; the grid is valid |
| Grids.Grid.FillElements | model/grid.rb:16-21 | after the loops, every slot holds Tile.new of its own coordinates |
| Grids.Grid.GenerateIndex | model/grid.rb:35-37 | inside the board the index is a slot whose coordinates are (x, y) |
| Grids.Grid.GetTile | model/grid.rb:47-49 | returns a slot exactly when (x, y) is on the board, the slot at (x, y); it never fails |
| Grids.Grid.ProbeNeighbors | model/grid.rb:63-66 | the slots found at the four offsets, in probe order, skipping misses |
| Grids.Grid.SetNeighbors | model/grid.rb:52-70 | every slot's recorded list is its on-board orthogonal neighbours, each a slot of the array |
| Grids.Grid.GetNeighbors | model/grid.rb:76-90 | without states, the recorded list; with states, the recorded neighbours whose state is one of them, order kept |
| Grids.Grid.GetNeighborsSpec | model/grid.rb:76-90 | a filtered neighbour is exactly an adjacent on-board tile in one of the states, and the filtered list is a subsequence of the recorded one |
| Grids.MatchingSpec | model/grid.rb:80-87 | the filter keeps exactly the entries whose tile is in one of the states, order kept |
| Grids.BandAt | model/grid.rb:118-123 | the loop's test on a tile is the border-and-central-band test of its slot |
| Grids.PaddedEnds | model/grid.rb:117-126 | before the scan nothing is padded; after it the whole board is |
| Grids.Grid.FindCentralPerimeterTiles | model/grid.rb:104-129 | every border tile becomes PADDING and no other tile changes; returns the central perimeter slots in row-major order |
| Grids.Grid.ScanTile | model/grid.rb:118-125 | a border tile becomes PADDING and nothing else changes; reports whether the tile is a central perimeter tile |
| Halls.First | model/hall.rb:15 | `tiles[0]`: nil exactly on an empty list, otherwise the first tile |
| Halls.Last | model/hall.rb:16 | `tiles[-1]`: nil exactly on an empty list, otherwise the last tile |
| Halls.Remark | model/hall.rb:21-27 | a tile marked HALL or WALL is no longer EMPTY, PADDING or CORNER; marking it HALL again changes nothing more |
| Halls.WallOffSpec | model/hall.rb:24-27 | walling off a list walls off exactly its members with the hall's id |
| Halls.TouchesSpec | model/hall.rb:24 | a tile is next to a hall tile exactly when it is adjacent on the board to one |
| Halls.HallStepEffect | model/hall.rb:20-28 | one pass marks the tile HALL and walls off exactly its neighbours that were EMPTY, PADDING or CORNER before the pass |
| Halls.HallEffect | model/hall.rb:12-29 | hall tiles become HALL with the hall id; other tiles next to a hall tile that were EMPTY, PADDING or CORNER become WALL with the hall id; all others are unchanged |
| Halls.HallKeepsRooms | model/hall.rb:20-28 | building a hall changes no room id, coordinate or pixel position |
| Halls.HallStepPlaced | model/hall.rb:20-28 | a pass keeps every tile at its own coordinates |
| Halls.MarkHallTile | model/hall.rb:21-27 | the tile array after one pass is the pass function of the array before; the grid stays valid |
| Halls.WallOffAll | model/hall.rb:24-27 | the array after the inner loop is the wall-off of the listed slots |
| Halls.Hall.constructor | model/hall.rb:12-29 | id and tiles as given, no connected rooms, start and end tile as `tiles[0]` and `tiles[-1]`; the tile array becomes the replay of every hall tile in order |
| Rooms.PaintSpec | model/room.rb:34-47 | a loop claims exactly the tiles it lists, with the room id and its state, however often or in whatever order they are listed |
| Rooms.RoomEffect | model/room.rb:34-47 | a corner tile becomes CORNER, another perimeter tile WALL and another floor tile FLOOR, each with the room id; other tiles are unchanged; hall ids, coordinates and neighbours are never touched |
| Rooms.PaintTiles | model/room.rb:34-37 | the array after a loop is the paint of its list |
| Rooms.Room.constructor | model/room.rb:14-50 | fields as given; the perimeter without halls is a copy of the perimeter, the perimeter with corners is perimeter then corners; no halls; the tile array is stamped |
| Rooms.Room.ResetPerimeter | model/room.rb:53-59 | the start tile of every attached hall is removed from the perimeter without halls, and the perimeter becomes a copy of that; the halls are unchanged |
| Rooms.Room.ForgetHall | model/room.rb:54-56 | one round removes the hall's start tile, if it has one, from the perimeter without halls |
| Rooms.Room.DropStart | model/room.rb:55 | the given tile is removed from the perimeter without halls |
| Rooms.Room.AddHall | model/room.rb:63-66 | the hall joins the room's halls and the room id joins the hall's rooms; adding it again changes nothing |
| Rooms.ResetIdempotent | model/room.rb:53-59 | resetting twice with no hall added in between changes nothing the second time |
| Dungeons.Dungeon.constructor | processing/dungeon.rb:15-48 | all settings stored; cols and rows are pixel sizes over the pitch; counters 0, maps and branchable rooms empty; the tile array is the fresh grid with its neighbour lists |
| Dungeons.Dungeon.ConstructGrid | processing/dungeon.rb:261-270 | every slot holds Tile.new of its own coordinates |
| Dungeons.Dungeon.GetTile | processing/dungeon.rb:251-257 | returns a slot exactly when (x, y) is on the board, the slot at (x, y); it never fails |
| Dungeons.Dungeon.ProbeNeighbors | processing/dungeon.rb:286-289 | the slots found at the four offsets, in probe order |
| Dungeons.Dungeon.SetNeighbors | processing/dungeon.rb:273-294 | every tile's neighbour list becomes its on-board orthogonal neighbours and nothing else about it changes |
| Dungeons.Dungeon.WireColumn | processing/dungeon.rb:275-292 | one column: the tiles up to the column's end are wired, the rest untouched |
| Dungeons.Dungeon.WireSlot | processing/dungeon.rb:276-291 | one tile: that tile is wired, later tiles untouched |
| Dungeons.Dungeon.ScanBorder | processing/dungeon.rb:64-79 | every border tile becomes PADDING and no other tile changes; returns the central perimeter tiles in column-major order |
| Dungeons.Dungeon.ScanColumn | processing/dungeon.rb:66-78 | one column of the scan moves the padding and the candidate list on by the whole column |
| Dungeons.Dungeon.ScanSlot | processing/dungeon.rb:67-77 | one slot moves the padding and the candidate list on by that slot |
| Dungeons.Dungeon.ScanTile | processing/dungeon.rb:67-77 | a border tile becomes PADDING, nothing else changes, and the result says whether the tile is a candidate |
| Dungeons.OpenDirectionSpec | processing/dungeon.rb:101-109 | the direction is the first offset in the fixed order whose tile is EMPTY or PADDING, and (0, 0) exactly when there is none |
| Dungeons.OpenFromOrthogonal | processing/dungeon.rb:103-109 | the direction is (0, 0) or one of the four offsets |
| Dungeons.Dungeon.HallDirection | processing/dungeon.rb:101-109 | the first loop of try_hall returns that direction |
| Dungeons.Dungeon.WalkHall | processing/dungeon.rb:117-127 | the second loop of try_hall returns the walk: steps 1 to len + 1 along the direction, raising on a step from nil |
| Dungeons.Dungeon.TryHall | processing/dungeon.rb:99-134 | try_hall returns or raises as the direction and the walk say, and changes nothing |
| Dungeons.ContinuesSpec | processing/dungeon.rb:86-87 | a candidate is passed over exactly when the drawn length is negative or no offset leads to an open tile; a zero direction never raises |
| Dungeons.WalkReturned | processing/dungeon.rb:117-127 | a walk that returns lists steps 1 to len + 1, all but the last on the board |
| Dungeons.WalkLine | processing/dungeon.rb:119-127 | each walked tile is adjacent to the previous one (the first to the start), never the start, and never repeated |
| Dungeons.HallLine | processing/dungeon.rb:116-133 | a hall with a direction has len + 1 entries, the k-th being k + 1 steps from the start, adjacent to the previous one, none repeated and none the start |
| Dungeons.HallInBoard | processing/dungeon.rb:118-130 | every entry of a returned hall is a slot of the board or nil |
| Dungeons.RectFitsSpec | processing/dungeon.rb:198-200 | every offset of the room is on the board exactly when its extreme offsets are |
| Dungeons.QuadParts | processing/dungeon.rb:206-215 | of the offsets only (-w, -h) is a corner; the perimeter is the column dx = -w and any column with abs(dx) = h; all else is floor |
| Dungeons.FileTile | processing/dungeon.rb:200-215 | the tile at an offset joins exactly the list its offset selects; a nil is only noted |
| Dungeons.GatherCell | processing/dungeon.rb:200-215 | one pass keeps each list equal to the visited slots of its part, ascending, and notes whether a nil was met |
| Dungeons.GatherStep | processing/dungeon.rb:199-216 | one pass of the inner loop keeps each list gathered |
| Dungeons.GatherDone | processing/dungeon.rb:198-217 | after the loops a list holds exactly the board slots of the room's offsets in its part, ascending |
| Dungeons.NilDone | processing/dungeon.rb:198-217 | no nil was met exactly when every offset is on the board |
| Dungeons.Dungeon.GatherColumn | processing/dungeon.rb:199-216 | one column of offsets moves the three lists and the nil flag on by that column |
| Dungeons.Dungeon.GatherQuad | processing/dungeon.rb:194-217 | the three lists are the room's floor, perimeter and corner slots, and a nil is met exactly when try_quad_room raises |
| Dungeons.Dungeon.TryQuadRoom | processing/dungeon.rb:193-228 | raises NoMethodError on nil exactly for a nil centre when both half sizes are positive, or for an offset off the board; with a half size of 0 or less the loops never run and the room has no tiles; otherwise a fresh room with the next id, the sizes, the three lists, the tile array stamped, and the counter bumped |
| Dungeons.Dungeon.PadRoom | processing/dungeon.rb:233-246 | always raises NoMethodError for the undefined `perimeter_w_corners` |
| Dungeons.Dungeon.BuildRoom | processing/dungeon.rb:168-187 | always raises: on nil when the end tile or the room is missing (counter unchanged), otherwise in pad_room (counter bumped) |
| Dungeons.Dungeon.EndHallWithRoom | processing/dungeon.rb:141-163 | raises what build_room raises for the last hall entry |
| Dungeons.Dungeon.TryCandidate | processing/dungeon.rb:86-91 | returns, changing nothing, exactly when the candidate is passed over |
| Dungeons.Dungeon.TryPick | processing/dungeon.rb:83-91 | one round samples the drawn candidate, deletes it, and tries it; a raise means the run of passed-over candidates breaks |
| Dungeons.Dungeon.TryCandidates | processing/dungeon.rb:81-92 | the loop returns, changing nothing, exactly when every candidate in the try order is passed over |
| Dungeons.Dungeon.BuildInitialHall | processing/dungeon.rb:53-93 | returns exactly when every candidate of the padded board, in the drawn order, is passed over; then the board is padded and nothing else changed |
| Dungeons.TryOrder | processing/dungeon.rb:82-84 | the try order holds only candidates, no more than there are draws |
| Dungeons.TryOrderFirst | processing/dungeon.rb:83-84 | the first pass samples with the first draw; the rest follow from what is left |
| Dungeons.OrderStep | processing/dungeon.rb:82-86 | one pass consumes the next entry of the try order |
| Dungeons.TryOrderPermutation | processing/dungeon.rb:82-84 | with a draw for every candidate, each candidate is tried exactly once |
| Dungeons.OrderBreaks | processing/dungeon.rb:86-90 | a candidate that is not passed over stops the loop |
| Dungeons.ContinueSnoc | processing/dungeon.rb:82-91 | a passed-over candidate extends the run of passed-over candidates |
| Dungeons.FreshDirection | processing/dungeon.rb:101-109 | on a fresh padded board of two or more rows every tile has a direction |
| Dungeons.Dungeon.Build | processing/dungeon.rb:15-50 | Dungeon.new returns exactly when every candidate tried is passed over, and then holds the padded fresh grid, counters 0 and no rooms or halls |
| Dungeons.NewRaises | processing/dungeon.rb:15-50 | on a board at least one column wide and three rows high, with a hall length of 0 or more drawn first, Dungeon.new raises |
| PathfindNodes.NewNode | model/pathfind_node.rb:8-13 | a new node stands on the tile, both costs 0, no parent |
| Pathfindings.SqDistance | processing/pathfinding.rb:103-107 | the squared distance is 0 exactly when the two tiles share coordinates |
| Pathfindings.Pathfinding.HeuristicZero | processing/pathfinding.rb:103-107 | the heuristic is 0 exactly on the goal's tile |
| Pathfindings.Pathfinding.Heuristic | processing/pathfinding.rb:103-107 | the heuristic from a node is 0 exactly when its tile has the goal tile's grid coordinates |
| Pathfindings.InList | processing/pathfinding.rb:76-82 | true exactly when some listed node stands on the tile |
| Pathfindings.BestAt | processing/pathfinding.rb:86-99 | the picked position scores no more than any node, and strictly less than every earlier one: the earliest of the nearest |
| Pathfindings.BestAtStep | processing/pathfinding.rb:90-96 | one node of the loop: it becomes the best exactly when it scores strictly less |
| Pathfindings.FreshSpec | processing/pathfinding.rb:55-69 | a neighbour gets a node exactly when it is FLOOR, HALL or END_POINT and has no node in closed or open; none twice |
| Pathfindings.Spawn | processing/pathfinding.rb:58-68 | one new node per discovered tile, on that tile, child of the current node, cost 0 |
| Pathfindings.ClearOneSpec | processing/pathfinding.rb:20-26 | after clear no tile is EXPLORED, START_POINT, END_POINT or PATH; such tiles become FLOOR; others are untouched; clearing twice is clearing once |
| Pathfindings.ArenaRoot | processing/pathfinding.rb:30-34 | the start node, with no parent, keeps the arena well linked |
| Pathfindings.ArenaGrows | processing/pathfinding.rb:58-68 | a step's new nodes, on tiles adjacent to their parent's, keep the arena well linked |
| Pathfindings.ListsAfterStep | processing/pathfinding.rb:53-68 | after a step open and closed list distinct nodes, none in both |
| Pathfindings.UniqueAfterStep | processing/pathfinding.rb:53-68 | after a step no tile has two nodes across open and closed |
| Pathfindings.StepKeeps | processing/pathfinding.rb:53-69 | a step that does not stop keeps the search invariant |
| Pathfindings.GoalKeeps | processing/pathfinding.rb:47-51 | making the picked node `@end` keeps the search invariant |
| Pathfindings.ExpandAdmit | processing/pathfinding.rb:55-64 | a neighbour of the loop is admitted exactly when the discovered-neighbour function takes it |
| Pathfindings.RoundStep | processing/pathfinding.rb:55-69 | one round of the neighbour loop moves the loop state on by one neighbour |
| Pathfindings.ChainAdjacent | processing/pathfinding.rb:111-121 | the traced chain starts at the goal node's tile, and consecutive tiles are orthogonally adjacent |
| Pathfindings.NotEndSpec | processing/pathfinding.rb:111-121 | the traced path keeps exactly the chain's tiles that are not END_POINT |
| Pathfindings.NotEndDropsGoal | processing/pathfinding.rb:111-121 | when only the goal is END_POINT, the path is the chain without it |
| Pathfindings.TraceStep | processing/pathfinding.rb:114-118 | one round of trace_path adds the node's tile unless it is END_POINT, then continues from the parent |
| Pathfindings.TraceFrom | processing/pathfinding.rb:112-120 | the loop returns the non-END_POINT tiles of the chain from the node |
| Pathfindings.Pathfinding.constructor | processing/pathfinding.rb:8-17 | nothing open or closed, no start or goal, not working; the invariant holds |
| Pathfindings.Pathfinding.Clear | processing/pathfinding.rb:20-26 | open and closed are empty, each tile is cleared, and `working` is unchanged |
| Pathfindings.ClearTiles | processing/pathfinding.rb:23-25 | every tile of the arena is replaced by its cleared form: floor when in one of the clear states, unchanged otherwise |
| Pathfindings.Pathfinding.BeginScan | processing/pathfinding.rb:29-36 | a parentless node on the start tile is the only open node, the goal is a node on the end tile, and the search is working |
| Pathfindings.Pathfinding.BestOption | processing/pathfinding.rb:86-99 | returns the earliest open node nearest the goal |
| Pathfindings.Pathfinding.ScanOpen | processing/pathfinding.rb:90-96 | the loop over open ends with the position `BestAt` names |
| Pathfindings.Pathfinding.Consider | processing/pathfinding.rb:91-95 | one open node moves the best-so-far state on by that node |
| Pathfindings.Pathfinding.Step | processing/pathfinding.rb:40-72 | with nothing open: stops, fails, changes nothing else; when the picked node is on the goal: stops, succeeds, it becomes `@end`, nothing else changes; otherwise it moves to closed, its discovered neighbours join open as its children and turn EXPLORED unless END_POINT; the invariant holds |
| Pathfindings.Pathfinding.Advance | processing/pathfinding.rb:53-69 | the non-final branch of step: closed, arena, open and tiles as above, invariant kept |
| Pathfindings.Pathfinding.AdvanceLists | processing/pathfinding.rb:53-69 | the same changes, stated on the values the step starts from |
| Pathfindings.Pathfinding.Discover | processing/pathfinding.rb:56-68 | an admitted neighbour gets a new open node, child of the current node, and turns EXPLORED unless END_POINT; any other neighbour changes nothing |
| Pathfindings.Pathfinding.ExpandRound | processing/pathfinding.rb:56-68 | one round keeps the loop state equal to the discovered-neighbour function of the neighbours handled so far |
| Pathfindings.Pathfinding.Expand | processing/pathfinding.rb:55-69 | the loop appends one node per discovered neighbour, opens them in order, and explores their tiles |
| Pathfindings.Pathfinding.TracePath | processing/pathfinding.rb:111-121 | the non-END_POINT tiles from `@end` back along its parents, stopping before the parentless start node |
| Pathfindings.Pathfinding.ClosedBounded | processing/pathfinding.rb:40-72 | closed never holds more nodes than the grid has tiles, so the search ends |

## Left out

- `become_X`, `X?`, `one_of?`, `end?`, `set_room` and `set_hall` (Tiles.Tile.Become, Tiles.Tile.Is, Tiles.Tile.OneOf, Tiles.Tile.IsEnd, Tiles.Tile.SetRoom, Tiles.Tile.SetHall): model/tile.rb does not define them. The model supplies them as plain state and id setters and predicates, as spec/tile_spec.rb:28-37 expects of them. With the file as it stands, every call to them raises NoMethodError. That happens at model/room.rb:35-46, model/hall.rb:21-26, model/grid.rb:83 and :121, and processing/pathfinding.rb:24, :56, :66 and :116. `find_central_perimeter_tiles` would then raise on the first border tile. `Room.new` with floor tiles would raise before try_quad_room bumps the counter. So `Dungeon.new` would raise on the same candidates where the model goes on to build halls and rooms.
- Rendering, colours, fonts and mouse handling: `Dungeon#render`, processing/window.rb, module/colors.rb. They are Gosu I/O.
- `Tile#set_neighbor_states`, `Grid#update_neighbors`, `Dungeon#update_neighbors`: nothing in the modelled code calls them, and they cannot run as written. `Grid#update_neighbors` calls `get_neighbors` with no tile. `set_neighbor_states` adds 1 to nil.
- `Grid#each` / `Enumerable`: the loops over `each` are loops over the array's slots in order.
- Pathfindings.SqDistance: `heuristic` returns `Math.sqrt` of this value. Floating point is not modelled. The squared distance orders nodes the same way, because every `cost_from_start` is 0 (a proved invariant). `total_cost` is stored but never read.
- Pathfindings.Pathfinding.Heuristic: returns the squared distance (Pathfindings.SqDistance) where `heuristic` returns its square root, for the reason in the line above.
- Random draws (`sample`, `rand`, `shuffle`) are parameters, one `Draw` per pass of the candidate loop.
- Dungeons.Dungeon.Build: requires every draw to lie in its configured range, which `rand(lo..hi)` guarantees when lo <= hi. With lo > hi, `rand` returns nil, and that case is not modelled. For the hall length (processing/dungeon.rb:117-120) `(0..nil)` is an endless range: with direction [0,0] (the early return at lines 112-114 is discarded) every step fetches the same tile again and the walk never ends; with a real direction the walk leaves the board and the next step raises NoMethodError on `curr_tile.x` (line 121). For the room sizes (lines 169-172) `Integer * nil` raises TypeError. It also requires a draw for every tile, more than the loop can consume.
- Dungeons.Dungeon.TryQuadRoom: after a raise, the state of the tile array is not stated. A nil entry raises partway through `Room.new`'s loops, and the exception leaves `Dungeon.new`, so the object is lost. The same holds for BuildRoom, EndHallWithRoom, TryCandidate, TryPick, TryCandidates and BuildInitialHall, whose contracts state only that the grid stays valid.
- The success branch of `end_hall_with_room` (processing/dungeon.rb:146-159) is unreachable, because `build_room` never returns. Its `Hall.new` call with two arguments would raise ArgumentError, since Hall.new takes three. The hall/room bookkeeping after it is not modelled.
- `pad_room`'s tile loop: `perimeter_w_corners` raises first. The loop's `==` comparisons would change nothing anyway.
- Pathfindings.Pathfinding.BeginScan: requires open and closed to be empty. `begin_scan` itself appends to `@open` whatever it holds. processing/window.rb:71-91 calls it only on a fresh searcher or after `clear`, and the model takes that caller contract as a precondition.
- Node identity: Ruby compares `PathfindNode`s and `Tile`s by object identity. The model uses arena slots and node ids, which are distinct by construction. `@open.delete(curr)` removes the one id of the picked node.
- The node arena is never emptied: `clear` only empties the lists. The nodes stay reachable through `@end`, as Ruby's garbage collector would keep them.
- `Vector2`s and `Point`s in the probe lists are values. The model does not capture aliasing of those objects; none of them is ever mutated after creation.
- The values of `Constants::TILE_SIZE` and `Constants::MARGIN` are not part of this model; their sum is the parameter `pitch`.
- Grids.Grid.constructor, Dungeons.Dungeon.constructor and Dungeons.Dungeon.Build require non-negative pixel sizes. This is the callers' contract. processing/window.rb:21-23 passes the screen-size constants, and spec/grid_spec.rb:8-9 passes positive sizes. With a negative size, `@cols` or `@rows` goes negative. Then either `Array.new` raises ArgumentError (model/grid.rb:16, processing/dungeon.rb:262), or the fill loops run zero times and the neighbour pass dereferences a nil slot. That case is not modelled. Because the sizes are non-negative, Dafny's `/` in `pixel_width / pitch` and in the band arithmetic agrees with Ruby's floor division.
