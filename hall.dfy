/**
 * model/hall.rb: a hall is a list of tiles joining rooms. Building one marks
 * its tiles HALL and walls off the still-open tiles around it, in the order
 * the tiles are listed. Tiles are slots of a grid's arena.
 */
module Halls {
  import opened Wrappers
  import opened TileTypes
  import opened Tiles
  import opened Layout
  import opened Grids
  import opened Boards
  import opened Seqs

  /** The states a neighbour of a hall tile must be in to be walled off (hall.rb:19). */
  const CheckStates: seq<TileState> := [Empty, Padding, Corner]


  /** `set_hall(id)` followed by `become_hall` */
  function AsHall(t: Tile, id: int): Tile
  {
    t.SetHall(id).Become(Hall)
  }

  /** `set_hall(id)` followed by `become_wall` */
  function AsWall(t: Tile, id: int): Tile
  {
    t.SetHall(id).Become(Wall)
  }

  /** Marking a tile again as hall or wall leaves it out of CheckStates; a second hall mark changes nothing. */
  lemma Remark(t: Tile, id: int)
    ensures !AsHall(t, id).OneOf(CheckStates) && !AsWall(t, id).OneOf(CheckStates)
    ensures AsHall(AsHall(t, id), id) == AsHall(t, id) && AsHall(AsWall(t, id), id) == AsHall(t, id)
  {
  }

  /** Ruby's `tiles[0]`: nil on an empty list. */
  function First(ts: seq<nat>): (r: Option<nat>)
    ensures r.Some? <==> ts != []
    ensures r.Some? ==> r.value == ts[0] && r.value in ts
  {
    if ts == [] then None else Some(ts[0])
  }

  /** Ruby's `tiles[-1]`: nil on an empty list. */
  function Last(ts: seq<nat>): (r: Option<nat>)
    ensures r.Some? <==> ts != []
    ensures r.Some? ==> r.value == ts[|ts| - 1] && r.value in ts
  {
    if ts == [] then None else Some(ts[|ts| - 1])
  }

  /** The inner loop of Hall.new: wall off ns, one after the other. */
  function WallOff(cells: seq<Tile>, ns: seq<nat>, id: int): (r: seq<Tile>)
    requires Slots(ns, |cells|)
    ensures |r| == |cells|
  {
    if ns == [] then cells
    else
      var c := WallOff(cells, ns[..|ns| - 1], id);
      var n := ns[|ns| - 1];
      c[n := AsWall(c[n], id)]
  }

  /** Walling off a list walls off exactly its members. */
  lemma {:induction false} WallOffSpec(cells: seq<Tile>, ns: seq<nat>, id: int, j: int)
    requires Slots(ns, |cells|) && 0 <= j < |cells|
    ensures WallOff(cells, ns, id)[j] == if j in ns then AsWall(cells[j], id) else cells[j]
    decreases |ns|
  {
    if ns != [] {
      WallOffSpec(cells, ns[..|ns| - 1], id, j);
      assert ns == ns[..|ns| - 1] + [ns[|ns| - 1]];
    }
  }

  /** The arena shape a hall is built on. */
  predicate Fits(grid: Grid, cells: seq<Tile>)
  {
    grid.cols >= 0 && grid.rows >= 0 && |cells| == grid.cols * grid.rows
  }

  /**
   * One pass of the outer loop of Hall.new for hall tile t: mark it, then
   * wall off its neighbours that are EMPTY, PADDING or CORNER at that moment.
   */
  function HallStep(grid: Grid, cells: seq<Tile>, t: nat, id: int): (r: seq<Tile>)
    requires Fits(grid, cells) && t < |cells|
    ensures |r| == |cells|
  {
    var marked := cells[t := AsHall(cells[t], id)];
    grid.Shape().NeighborListBounded(t);
    WallOff(marked, Matching(marked, grid.Shape().NeighborList(t), CheckStates), id)
  }

  /** The arena after Hall.new has processed the tiles ts, in order. */
  function Replay(grid: Grid, cells: seq<Tile>, ts: seq<nat>, id: int): (r: seq<Tile>)
    requires Fits(grid, cells) && Slots(ts, |cells|)
    ensures |r| == |cells|
  {
    if ts == [] then cells
    else HallStep(grid, Replay(grid, cells, ts[..|ts| - 1], id), ts[|ts| - 1], id)
  }

  /** Tile j lies next to some tile of ts. */
  predicate Touches(grid: Grid, j: int, ts: seq<nat>)
  {
    exists k :: 0 <= k < |ts| && j in grid.Shape().NeighborList(ts[k])
  }

  /** A slot is next to some tile of ts exactly when it is adjacent on the board to one of them. */
  lemma TouchesSpec(grid: Grid, j: int, ts: seq<nat>)
    requires grid.cols >= 0 && grid.rows >= 0
    ensures Touches(grid, j, ts) <==>
      0 <= j < grid.cols * grid.rows && exists k :: 0 <= k < |ts| && Adjacent(grid.Shape().CoordOf(ts[k]), grid.Shape().CoordOf(j))
  {
    forall k | 0 <= k < |ts| {
      grid.Shape().NeighborListSpec(ts[k], j);
    }
  }

  /** One pass marks t and walls off exactly its neighbours that are open beforehand. */
  lemma HallStepEffect(grid: Grid, cells: seq<Tile>, t: nat, id: int, j: int)
    requires Fits(grid, cells) && t < |cells| && 0 <= j < |cells|
    ensures HallStep(grid, cells, t, id)[j] ==
      if j == t then AsHall(cells[t], id)
      else if j in grid.Shape().NeighborList(t) && cells[j].OneOf(CheckStates) then AsWall(cells[j], id)
      else cells[j]
  {
    var marked := cells[t := AsHall(cells[t], id)];
    grid.Shape().NeighborListBounded(t);
    var ms := Matching(marked, grid.Shape().NeighborList(t), CheckStates);
    MatchingSpec(marked, grid.Shape().NeighborList(t), CheckStates);
    WallOffSpec(marked, ms, id, j);
    grid.Shape().NeighborIrreflexive(t);
  }

  /** Being next to a tile of ts + [t] is being next to one of ts or to t. */
  lemma TouchesSnoc(grid: Grid, j: int, ts: seq<nat>, t: nat)
    ensures Touches(grid, j, ts + [t]) <==> Touches(grid, j, ts) || j in grid.Shape().NeighborList(t)
  {
    var us := ts + [t];
    if j in grid.Shape().NeighborList(t) {
      assert us[|ts|] == t;
    }
    if Touches(grid, j, ts) {
      var k :| 0 <= k < |ts| && j in grid.Shape().NeighborList(ts[k]);
      assert us[k] == ts[k];
    }
    if Touches(grid, j, us) {
      var k :| 0 <= k < |us| && j in grid.Shape().NeighborList(us[k]);
      if k < |ts| {
        assert ts[k] == us[k];
      }
    }
  }

  /**
   * What Hall.new does to each tile, whatever the order of ts: hall tiles
   * become HALL with the hall's id; any other tile next to a hall tile that
   * is EMPTY, PADDING or CORNER beforehand becomes WALL with the hall's id;
   * every other tile is unchanged.
   */
  lemma {:induction false} HallEffect(grid: Grid, cells: seq<Tile>, ts: seq<nat>, id: int, j: int)
    requires Fits(grid, cells) && Slots(ts, |cells|) && 0 <= j < |cells|
    ensures var r := Replay(grid, cells, ts, id);
      && (j in ts ==> r[j] == AsHall(cells[j], id))
      && (j !in ts && Touches(grid, j, ts) && cells[j].OneOf(CheckStates) ==> r[j] == AsWall(cells[j], id))
      && (j !in ts && !(Touches(grid, j, ts) && cells[j].OneOf(CheckStates)) ==> r[j] == cells[j])
    decreases |ts|
  {
    if ts != [] {
      var init, t := ts[..|ts| - 1], ts[|ts| - 1];
      assert ts == init + [t];
      HallEffect(grid, cells, init, id, j);
      HallStepEffect(grid, Replay(grid, cells, init, id), t, id, j);
      TouchesSnoc(grid, j, init, t);
      Remark(cells[j], id);
    }
  }

  /** Hall.new changes no tile's room id, coordinates or pixel position. */
  lemma HallKeepsRooms(grid: Grid, cells: seq<Tile>, ts: seq<nat>, id: int, j: int)
    requires Fits(grid, cells) && Slots(ts, |cells|) && 0 <= j < |cells|
    ensures Replay(grid, cells, ts, id)[j].roomId == cells[j].roomId
    ensures Replay(grid, cells, ts, id)[j].SamePlace(cells[j])
  {
    HallEffect(grid, cells, ts, id, j);
  }

  /** Marking one hall tile keeps every tile at its own coordinates and pixels. */
  lemma HallStepPlaced(grid: Grid, cells: seq<Tile>, t: nat, id: int)
    requires Fits(grid, cells) && t < |cells|
    requires forall i :: 0 <= i < |cells| ==> grid.Placed(cells[i], i)
    ensures forall i :: 0 <= i < |cells| ==> grid.Placed(HallStep(grid, cells, t, id)[i], i)
  {
    forall i | 0 <= i < |cells| ensures grid.Placed(HallStep(grid, cells, t, id)[i], i) {
      HallStepEffect(grid, cells, t, id, i);
    }
  }

  /**
   * The body of the loop in Hall.new for one hall tile: it becomes HALL,
   * then its neighbours that are EMPTY, PADDING or CORNER become WALL.
   */
  method MarkHallTile(grid: Grid, tile: nat, id: int)
    requires grid.Valid() && tile < grid.elements.Length
    modifies grid.elements
    ensures grid.Valid()
    ensures grid.elements[..] == HallStep(grid, old(grid.elements[..]), tile, id)
  {
    ghost var cells := grid.elements[..];
    HallStepPlaced(grid, cells, tile, id);
    grid.elements[tile] := AsHall(grid.elements[tile], id);
    var around := grid.GetNeighbors(tile, Some(CheckStates));
    WallOffAll(grid.elements, around, id);
    assert grid.elements[..] == HallStep(grid, cells, tile, id);
    forall i | 0 <= i < grid.elements.Length
      ensures grid.Placed(grid.elements[i], i)
    {
      assert grid.elements[i] == grid.elements[..][i];
    }
  }

  /** The inner loop of Hall.new: every slot of ns becomes WALL with the hall's id. */
  method WallOffAll(elements: array<Tile>, ns: seq<nat>, id: int)
    requires Slots(ns, elements.Length)
    modifies elements
    ensures elements[..] == WallOff(old(elements[..]), ns, id)
  {
    var m := 0;
    while m < |ns|
      invariant 0 <= m <= |ns|
      invariant elements[..] == WallOff(old(elements[..]), ns[..m], id)
    {
      var neighbor := ns[m];
      assert ns[..m + 1][..m] == ns[..m];
      elements[neighbor] := AsWall(elements[neighbor], id);
      m := m + 1;
    }
    assert ns[..m] == ns;
  }

  class Hall {
    const hallId: int
    const startTile: Option<nat>
    const endTile: Option<nat>
    const tiles: seq<nat>
    var connectingRoomIds: set<int>

    /** Hall.new(hall_id, tiles, grid) */
    constructor (hallId: int, tiles: seq<nat>, grid: Grid)
      requires grid.Valid() && Slots(tiles, grid.elements.Length)
      modifies grid.elements
      ensures this.hallId == hallId && this.tiles == tiles && connectingRoomIds == {}
      ensures startTile == First(tiles) && endTile == Last(tiles)
      ensures grid.Valid()
      ensures grid.elements[..] == Replay(grid, old(grid.elements[..]), tiles, hallId)
    {
      this.hallId := hallId;
      connectingRoomIds := {};
      startTile := First(tiles);
      endTile := Last(tiles);
      this.tiles := tiles;
      new;
      var k := 0;
      while k < |tiles|
        invariant 0 <= k <= |tiles| && connectingRoomIds == {}
        invariant grid.Valid()
        invariant grid.elements[..] == Replay(grid, old(grid.elements[..]), tiles[..k], hallId)
      {
        assert tiles[..k + 1][..k] == tiles[..k];
        MarkHallTile(grid, tiles[k], hallId);
        k := k + 1;
      }
      assert tiles[..k] == tiles;
    }
  }
}
