/**
 * model/tile.rb: one grid cell. Its coordinates and pixel position are fixed
 * at construction; its state, room id, hall id and neighbour list are
 * reassigned by the builders and the searcher. Tiles live in an arena (an
 * array owned by a grid), so a tile "mutation" replaces the record in its
 * arena slot with the updated record computed here. Neighbour lists hold
 * arena indices instead of tile references.
 */
module Tiles {
  import opened TileTypes

  /** The "no room" / "no hall" sentinel. */
  const NoId: int := -1

  datatype Tile = Tile(
    x: int,
    y: int,
    pixelX: int,
    pixelY: int,
    neighbors: seq<nat>,
    state: TileState,
    roomId: int,
    hallId: int)
  {
    /** Position fields, which no operation changes. */
    predicate SamePlace(other: Tile)
    {
      x == other.x && y == other.y && pixelX == other.pixelX && pixelY == other.pixelY
    }

    /** `in_room?`: exactly when `remove_room` would change the tile. */
    predicate InRoom()
      ensures InRoom() <==> this.(roomId := NoId) != this
    {
      roomId != NoId
    }

    /** `in_hall?`: exactly when `remove_hall` would change the tile. */
    predicate InHall()
      ensures InHall() <==> this.(hallId := NoId) != this
    {
      hallId != NoId
    }

    /** `remove_room`: the tile leaves its room and nothing else changes. */
    function RemoveRoom(): (t: Tile)
      ensures !t.InRoom() && t.InHall() == InHall()
      ensures t.(roomId := roomId) == this
    {
      this.(roomId := NoId)
    }

    /** `remove_hall`: the tile leaves its hall and nothing else changes. */
    function RemoveHall(): (t: Tile)
      ensures !t.InHall() && t.InRoom() == InRoom()
      ensures t.(hallId := hallId) == this
    {
      this.(hallId := NoId)
    }

    /** `set_room(id)` */
    function SetRoom(id: int): (t: Tile)
      ensures t.roomId == id && t.(roomId := roomId) == this
    {
      this.(roomId := id)
    }

    /** `set_hall(id)` */
    function SetHall(id: int): (t: Tile)
      ensures t.hallId == id && t.(hallId := hallId) == this
    {
      this.(hallId := id)
    }

    /** `become_X` for every state X (`become_wall` is Become(Wall), ...). */
    function Become(s: TileState): (t: Tile)
      ensures t.Is(s) && forall u :: u != s ==> !t.Is(u)
      ensures t.(state := state) == this
    {
      this.(state := s)
    }

    /**
     * `X?` for every state X (`wall?` is Is(Wall), ...): exactly when
     * `become_X` would change nothing.
     */
    predicate Is(s: TileState)
      ensures Is(s) <==> this.(state := s) == this
    {
      state == s
    }

    /** `one_of?(states)`: some listed state is the tile's state. */
    predicate OneOf(states: seq<TileState>)
      ensures OneOf(states) <==> exists k :: 0 <= k < |states| && Is(states[k])
    {
      state in states
    }

    /** `end?`: the tile is the search's end point. */
    predicate IsEnd()
      ensures IsEnd() <==> Is(EndPoint)
      ensures IsEnd() <==> OneOf([EndPoint])
    {
      state == EndPoint
    }

    /** `neighbors=` */
    function WithNeighbors(ns: seq<nat>): (t: Tile)
      ensures t.neighbors == ns && t.(neighbors := neighbors) == this
    {
      this.(neighbors := ns)
    }
  }

  /**
   * Tile.new(x, y). `pitch` stands for TILE_SIZE + MARGIN, a positive
   * constant of the program that is not part of this model.
   */
  function NewTile(x: int, y: int, pitch: int): (t: Tile)
    ensures t.x == x && t.y == y
    ensures t.pixelX == x * pitch && t.pixelY == y * pitch
    ensures t.Is(Empty) && !t.InRoom() && !t.InHall()
    ensures t.roomId == -1 && t.hallId == -1 && t.neighbors == []
  {
    Tile(x, y, x * pitch, y * pitch, [], Empty, NoId, NoId)
  }

  /** Every setter keeps the coordinates and the pixel position. */
  lemma SettersKeepPlace(t: Tile, id: int, s: TileState, ns: seq<nat>)
    ensures t.RemoveRoom().SamePlace(t) && t.RemoveHall().SamePlace(t)
    ensures t.SetRoom(id).SamePlace(t) && t.SetHall(id).SamePlace(t)
    ensures t.Become(s).SamePlace(t) && t.WithNeighbors(ns).SamePlace(t)
  {
  }

  /** The scenario of spec/tile_spec.rb: Tile.new(2, 5), become_wall, become_floor. */
  lemma BecomeWallThenFloor(pitch: int)
    ensures var t := NewTile(2, 5, pitch);
      t.x == 2 && t.y == 5 && t.Is(Empty)
      && t.Become(Wall).Is(Wall) && !t.Become(Wall).Is(Empty)
      && t.Become(Wall).Become(Floor).Is(Floor) && !t.Become(Wall).Become(Floor).Is(Wall)
  {
  }
}
