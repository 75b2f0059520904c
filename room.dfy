/**
 * model/room.rb: a room claims its floor, perimeter and corner tiles (slots
 * of an arena) for its id, keeps the perimeter without the tiles where halls
 * start, and records the halls attached to it.
 */
module Rooms {
  import opened Wrappers
  import opened TileTypes
  import opened Tiles
  import opened Seqs
  import opened Halls

  /** `set_room(id)` followed by `become_X` */
  function Claim(t: Tile, id: int, s: TileState): Tile
  {
    t.SetRoom(id).Become(s)
  }

  /** One of the three loops of Room.new: each tile of ts is claimed in state s, in order. */
  function Paint(cells: seq<Tile>, ts: seq<nat>, id: int, s: TileState): (r: seq<Tile>)
    requires Slots(ts, |cells|)
    ensures |r| == |cells|
  {
    if ts == [] then cells
    else
      var c := Paint(cells, ts[..|ts| - 1], id, s);
      var t := ts[|ts| - 1];
      c[t := Claim(c[t], id, s)]
  }

  /** A loop claims exactly the tiles it lists, however often or in whatever order they are listed. */
  lemma {:induction false} PaintSpec(cells: seq<Tile>, ts: seq<nat>, id: int, s: TileState, j: int)
    requires Slots(ts, |cells|) && 0 <= j < |cells|
    ensures Paint(cells, ts, id, s)[j] == if j in ts then Claim(cells[j], id, s) else cells[j]
    decreases |ts|
  {
    if ts != [] {
      PaintSpec(cells, ts[..|ts| - 1], id, s, j);
      assert ts == ts[..|ts| - 1] + [ts[|ts| - 1]];
    }
  }

  /** The arena after Room.new: floor tiles, then perimeter tiles, then corner tiles. */
  function Stamp(cells: seq<Tile>, floor: seq<nat>, perimeter: seq<nat>, corners: seq<nat>, id: int): (r: seq<Tile>)
    requires Slots(floor, |cells|) && Slots(perimeter, |cells|) && Slots(corners, |cells|)
    ensures |r| == |cells|
  {
    Paint(Paint(Paint(cells, floor, id, Floor), perimeter, id, Wall), corners, id, Corner)
  }

  /**
   * What Room.new does to each tile: the last list naming it wins, so a
   * corner tile is CORNER, another perimeter tile WALL, another floor tile
   * FLOOR, each with the room's id; tiles in no list are unchanged. Hall ids,
   * coordinates and neighbours are never touched.
   */
  lemma RoomEffect(cells: seq<Tile>, floor: seq<nat>, perimeter: seq<nat>, corners: seq<nat>, id: int, j: int)
    requires Slots(floor, |cells|) && Slots(perimeter, |cells|) && Slots(corners, |cells|) && 0 <= j < |cells|
    ensures var r := Stamp(cells, floor, perimeter, corners, id)[j];
      && (j in corners ==> r.Is(Corner) && r.roomId == id)
      && (j !in corners && j in perimeter ==> r.Is(Wall) && r.roomId == id)
      && (j !in corners && j !in perimeter && j in floor ==> r.Is(Floor) && r.roomId == id)
      && (j !in corners && j !in perimeter && j !in floor ==> r == cells[j])
      && r.(state := cells[j].state, roomId := cells[j].roomId) == cells[j]
  {
    var c1 := Paint(cells, floor, id, Floor);
    var c2 := Paint(c1, perimeter, id, Wall);
    PaintSpec(cells, floor, id, Floor, j);
    PaintSpec(c1, perimeter, id, Wall, j);
    PaintSpec(c2, corners, id, Corner, j);
  }

  /** The tiles where the given halls start. */
  function StartTiles(hs: set<Hall>): set<nat>
  {
    set h | h in hs && h.startTile.Some? :: h.startTile.value
  }

  lemma StartTilesAdd(hs: set<Hall>, h: Hall)
    ensures StartTiles(hs + {h}) == StartTiles(hs) + (if h.startTile.Some? then {h.startTile.value} else {})
  {
  }

  /** A loop of Room.new, on the arena the tiles live in. */
  method PaintTiles(arena: array<Tile>, ts: seq<nat>, id: int, s: TileState)
    requires Slots(ts, arena.Length)
    modifies arena
    ensures arena[..] == Paint(old(arena[..]), ts, id, s)
  {
    var k := 0;
    while k < |ts|
      invariant 0 <= k <= |ts|
      invariant arena[..] == Paint(old(arena[..]), ts[..k], id, s)
    {
      assert ts[..k + 1][..k] == ts[..k];
      arena[ts[k]] := Claim(arena[ts[k]], id, s);
      k := k + 1;
    }
    assert ts[..k] == ts;
  }

  class Room {
    const roomId: int
    const centerTile: Option<nat>
    const width: int
    const height: int
    const floorTiles: seq<nat>
    const cornerTiles: seq<nat>
    const perimeterWCornerTiles: seq<nat>
    var perimeterTiles: seq<nat>
    var perimeterWoHallTiles: seq<nat>
    var halls: set<Hall>
    /** The perimeter the room was built with. */
    ghost const initialPerimeter: seq<nat>
    /** The hall start tiles deleted from the perimeter so far. */
    ghost var removed: set<nat>

    ghost predicate Valid()
      reads this
    {
      && perimeterWCornerTiles == initialPerimeter + cornerTiles
      && perimeterWoHallTiles == Without(initialPerimeter, removed)
      && IsSubsequence(perimeterTiles, initialPerimeter)
    }

    /** Room.new(room_id, center_tile, width, height, floor_tiles, perimeter_tiles, corner_tiles) */
    constructor (roomId: int, centerTile: Option<nat>, width: int, height: int,
                 floorTiles: seq<nat>, perimeterTiles: seq<nat>, cornerTiles: seq<nat>, arena: array<Tile>)
      requires Slots(floorTiles, arena.Length) && Slots(perimeterTiles, arena.Length) && Slots(cornerTiles, arena.Length)
      modifies arena
      ensures this.roomId == roomId && this.centerTile == centerTile
      ensures this.width == width && this.height == height
      ensures this.floorTiles == floorTiles && this.perimeterTiles == perimeterTiles && this.cornerTiles == cornerTiles
      ensures perimeterWoHallTiles == perimeterTiles
      ensures perimeterWCornerTiles == perimeterTiles + cornerTiles
      ensures halls == {}
      ensures Valid()
      ensures arena[..] == Stamp(old(arena[..]), floorTiles, perimeterTiles, cornerTiles, roomId)
    {
      this.roomId := roomId;
      this.centerTile := centerTile;
      this.width := width;
      this.height := height;
      this.floorTiles := floorTiles;
      this.perimeterTiles := perimeterTiles;
      this.cornerTiles := cornerTiles;
      perimeterWoHallTiles := perimeterTiles;
      perimeterWCornerTiles := perimeterTiles + cornerTiles;
      initialPerimeter := perimeterTiles;
      removed := {};
      halls := {};
      new;
      WithoutAbsent(perimeterTiles, {});
      WithoutIsSubsequence(perimeterTiles, {});
      PaintTiles(arena, floorTiles, roomId, Floor);
      PaintTiles(arena, perimeterTiles, roomId, Wall);
      PaintTiles(arena, cornerTiles, roomId, Corner);
    }

    /**
     * reset_perimeter: the start tile of every attached hall is deleted from
     * the perimeter without halls, and the perimeter becomes a copy of it.
     * No tile changes.
     */
    method ResetPerimeter()
      requires Valid()
      modifies this
      ensures Valid()
      ensures perimeterWoHallTiles == Without(old(perimeterWoHallTiles), StartTiles(halls))
      ensures perimeterTiles == perimeterWoHallTiles
      ensures halls == old(halls)
    {
      var pending := halls;
      assert StartTiles(halls - pending) == {};
      WithoutAbsent(perimeterWoHallTiles, {});
      while pending != {}
        modifies this`perimeterWoHallTiles, this`removed
        invariant pending <= halls
        invariant perimeterWoHallTiles == Without(initialPerimeter, removed)
        invariant perimeterWoHallTiles == Without(old(perimeterWoHallTiles), StartTiles(halls - pending))
        decreases pending
      {
        var hall :| hall in pending;
        assert halls - (pending - {hall}) == (halls - pending) + {hall};
        ForgetHall(hall, old(perimeterWoHallTiles), halls - pending);
        pending := pending - {hall};
      }
      assert halls - pending == halls;
      perimeterTiles := perimeterWoHallTiles;
      WithoutIsSubsequence(initialPerimeter, removed);
    }

    /** One round of reset_perimeter's loop: the hall's start tile, if any, leaves the perimeter without halls. */
    method ForgetHall(hall: Hall, ghost before: seq<nat>, ghost done: set<Hall>)
      requires perimeterWoHallTiles == Without(initialPerimeter, removed)
      requires perimeterWoHallTiles == Without(before, StartTiles(done))
      modifies this`perimeterWoHallTiles, this`removed
      ensures perimeterWoHallTiles == Without(initialPerimeter, removed)
      ensures perimeterWoHallTiles == Without(before, StartTiles(done + {hall}))
    {
      StartTilesAdd(done, hall);
      match hall.startTile {
        case Some(start) =>
          WithoutWithout(before, StartTiles(done), {start});
          DropStart(start);
          assert StartTiles(done + {hall}) == StartTiles(done) + {start};
        case None =>
          assert StartTiles(done + {hall}) == StartTiles(done);
      }
    }

    /** One step of reset_perimeter: `start` is deleted from the perimeter without halls. */
    method DropStart(start: nat)
      requires perimeterWoHallTiles == Without(initialPerimeter, removed)
      modifies this`perimeterWoHallTiles, this`removed
      ensures perimeterWoHallTiles == Without(old(perimeterWoHallTiles), {start})
      ensures removed == old(removed) + {start}
      ensures perimeterWoHallTiles == Without(initialPerimeter, removed)
    {
      WithoutWithout(initialPerimeter, removed, {start});
      if start in perimeterWoHallTiles {
        perimeterWoHallTiles := Without(perimeterWoHallTiles, {start});
      } else {
        WithoutAbsent(perimeterWoHallTiles, {start});
      }
      removed := removed + {start};
    }

    /** add_hall: the hall joins this room's halls and the room's id joins the hall's rooms. */
    method AddHall(hall: Hall)
      modifies this`halls, hall`connectingRoomIds
      ensures halls == old(halls) + {hall}
      ensures hall.connectingRoomIds == old(hall.connectingRoomIds) + {roomId}
    {
      halls := halls + {hall};
      hall.connectingRoomIds := hall.connectingRoomIds + {roomId};
    }
  }

  /** Resetting twice with no hall added in between changes nothing the second time. */
  lemma ResetIdempotent(perimeter: seq<nat>, starts: set<nat>)
    ensures Without(Without(perimeter, starts), starts) == Without(perimeter, starts)
  {
    WithoutWithout(perimeter, starts, starts);
    assert starts + starts == starts;
  }
}
