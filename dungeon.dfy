/**
 * processing/dungeon.rb: the older dungeon builder with its own tile store
 * `@grid[x][y]`, modelled as an arena packed column by column. It fills the
 * store, records every tile's neighbours, pads the border and then tries
 * halls from central border tiles, each ending in a room.
 *
 * A Ruby exception is an `Outcome` of `Raised`; what a raising call changed
 * before it raised is left unspecified, since the exception escapes
 * `Dungeon.new` and the half-built object is lost. The random draws
 * (`sample`, `rand`) are parameters.
 */
module Dungeons {
  import opened Wrappers
  import opened Points
  import opened TileTypes
  import opened Tiles
  import opened Layout
  import opened Seqs
  import opened Boards
  import opened Grids
  import opened Halls
  import opened Rooms

  /** The two ways this file raises NoMethodError. */
  datatype RubyError =
    | NilReceiver      // a method called on nil
    | UndefinedMethod  // a method the receiver's class does not define

  /** A Ruby call either returns a value or raises. */
  datatype Outcome<+T> = Returned(value: T) | Raised(error: RubyError)

  /**
   * The random values one pass of build_initial_hall's loop consumes:
   * `sample` as an index into the candidates (taken modulo their number),
   * and the `rand` draws for the hall length and the room's half sizes.
   */
  datatype Draw = Draw(pick: nat, hallLength: int, roomWidth: int, roomHeight: int)

  /** `rand(lo..hi)` only yields values in lo..hi. */
  predicate InRange(dr: Draw, minRoomWidth: int, maxRoomWidth: int, minRoomHeight: int, maxRoomHeight: int,
                    minHallLength: int, maxHallLength: int)
  {
    && minRoomWidth <= dr.roomWidth <= maxRoomWidth
    && minRoomHeight <= dr.roomHeight <= maxRoomHeight
    && minHallLength <= dr.hallLength <= maxHallLength
  }

  /** What try_hall returns: the hall's tiles (nil entries as None) and its direction. */
  datatype HallAttempt = HallAttempt(tiles: seq<Option<nat>>, dir: Point)

  // ---------------------------------------------------------------------------
  // Border padding and the candidate list (dungeon.rb:54-79).

  /** The central border tiles, in the order the scan meets them. */
  function Candidates(b: Board): seq<nat>
    requires b.WellFormed()
  {
    b.CentralUpTo(b.Size())
  }

  /** The store as construct_grid and set_neighbors leave it. */
  function FreshCells(b: Board, pitch: int): (r: seq<Tile>)
    requires b.WellFormed()
    ensures |r| == b.Size()
  {
    seq(b.Size(), i requires 0 <= i < b.Size() =>
      NewTile(b.CoordOf(i).x, b.CoordOf(i).y, pitch).WithNeighbors(b.NeighborList(i)))
  }

  // ---------------------------------------------------------------------------
  // try_hall (dungeon.rb:99-134).

  /** The tile at q is on the board and EMPTY or PADDING. */
  predicate Open(b: Board, cells: seq<Tile>, q: Point)
  {
    match b.Lookup(q.x, q.y)
    case Some(j) => j < |cells| && (cells[j].Is(Empty) || cells[j].Is(Padding))
    case None => false
  }

  /** The first offset from the k-th on, in probe order, that leads from p to an open tile; (0, 0) if none does. */
  function OpenFrom(b: Board, cells: seq<Tile>, p: Point, k: nat): Point
    requires k <= 4
    decreases 4 - k
  {
    if k == 4 then Origin
    else if Open(b, cells, p.Add(Orthogonal[k])) then Orthogonal[k]
    else OpenFrom(b, cells, p, k + 1)
  }

  /** The direction try_hall chooses for a hall from p. */
  function OpenDirection(b: Board, cells: seq<Tile>, p: Point): Point
  {
    OpenFrom(b, cells, p, 0)
  }

  /**
   * The direction is the first of the four offsets, in their fixed order,
   * that leads to an open tile, and (0, 0) exactly when none does.
   */
  lemma OpenDirectionSpec(b: Board, cells: seq<Tile>, p: Point)
    ensures OpenDirection(b, cells, p) == Origin <==> forall k :: 0 <= k < 4 ==> !Open(b, cells, p.Add(Orthogonal[k]))
    ensures OpenDirection(b, cells, p) != Origin ==>
      (exists k :: 0 <= k < 4
        && OpenDirection(b, cells, p) == Orthogonal[k] && Open(b, cells, p.Add(Orthogonal[k]))
        && forall m :: 0 <= m < k ==> !Open(b, cells, p.Add(Orthogonal[m])))
  {
    var o := Orthogonal;
    if !Open(b, cells, p.Add(o[0])) {
      if !Open(b, cells, p.Add(o[1])) {
        if !Open(b, cells, p.Add(o[2])) {
          if !Open(b, cells, p.Add(o[3])) {
            assert OpenFrom(b, cells, p, 4) == Origin;
          }
        }
      }
    }
  }

  /** The k-th tile of a walk from p along d: the lookup of p + k * d. */
  function Step(b: Board, p: Point, d: Point, k: int): Option<nat>
  {
    b.Lookup(p.x + k * d.x, p.y + k * d.y)
  }

  /**
   * The walk of try_hall: hall_len + 1 steps from p along d. A step off the
   * board yields nil, which is kept; the step after it raises, so only a nil
   * at the last step survives.
   */
  function Walk(b: Board, p: Point, d: Point, len: int): Outcome<seq<Option<nat>>>
  {
    if len < 0 then Returned([])
    else if exists k :: 1 <= k <= len && Step(b, p, d, k).None? then Raised(NilReceiver)
    else Returned(seq(len + 1, k => Step(b, p, d, k + 1)))
  }

  /** What try_hall(start) returns, or raises, on the store `cells`. */
  function HallOutcome(b: Board, cells: seq<Tile>, start: nat, len: int): Outcome<HallAttempt>
  {
    var p := b.CoordOf(start);
    var d := OpenDirection(b, cells, p);
    match Walk(b, p, d, len)
    case Raised(e) => Raised(e)
    case Returned(ts) => Returned(if |ts| > 0 then HallAttempt(ts, d) else HallAttempt([], Origin))
  }

  /** build_initial_hall moves on to its next candidate: try_hall returned the direction (0, 0). */
  predicate Continues(b: Board, cells: seq<Tile>, start: nat, len: int)
  {
    HallOutcome(b, cells, start, len).Returned? && HallOutcome(b, cells, start, len).value.dir == Origin
  }

  /** The direction is (0, 0) or one of the four offsets. */
  lemma {:induction false} OpenFromOrthogonal(b: Board, cells: seq<Tile>, p: Point, k: nat)
    requires k <= 4
    ensures OpenFrom(b, cells, p, k) == Origin || OpenFrom(b, cells, p, k) in Orthogonal
    decreases 4 - k
  {
    if k < 4 {
      OpenFromOrthogonal(b, cells, p, k + 1);
    }
  }

  /**
   * A candidate is passed over exactly when the drawn hall length is
   * negative (the walk is empty) or no offset leads to an open tile;
   * a zero direction never raises, since every step stays on the start tile.
   */
  lemma ContinuesSpec(b: Board, cells: seq<Tile>, start: nat, len: int)
    requires b.WellFormed() && start < b.Size()
    ensures Continues(b, cells, start, len) <==> len < 0 || OpenDirection(b, cells, b.CoordOf(start)) == Origin
  {
    var p := b.CoordOf(start);
    var d := OpenDirection(b, cells, p);
    if len < 0 {
      assert Walk(b, p, d, len) == Returned([]);
    } else if d == Origin {
      b.LookupCoord(start);
      assert forall k :: Step(b, p, d, k) == Some(start) by {
        forall k ensures Step(b, p, d, k) == Some(start) {
          assert p.x + k * d.x == p.x && p.y + k * d.y == p.y;
        }
      }
      assert Walk(b, p, d, len) == Returned(seq(len + 1, k => Step(b, p, d, k + 1)));
    } else {
      match Walk(b, p, d, len)
      case Raised(e) =>
      case Returned(ts) =>
        assert |ts| == len + 1;
    }
  }

  /**
   * A hall that try_hall returns with a direction has hall_len + 1 entries,
   * the k-th being the tile k + 1 steps from the start; every entry but the
   * last is a tile, each one step beyond the previous one (the first one
   * step from the start), and no tile is listed twice or is the start.
   * Whether a tile is already taken plays no part.
   */
  lemma HallLine(b: Board, cells: seq<Tile>, start: nat, len: int, k: int)
    requires b.WellFormed() && start < b.Size()
    requires HallOutcome(b, cells, start, len).Returned?
    requires HallOutcome(b, cells, start, len).value.dir != Origin
    requires 0 <= k < |HallOutcome(b, cells, start, len).value.tiles|
    ensures var h := HallOutcome(b, cells, start, len).value;
      && |h.tiles| == len + 1
      && h.tiles[k] == Step(b, b.CoordOf(start), h.dir, k + 1)
      && (k < len ==> h.tiles[k].Some?)
      && (h.tiles[k].Some? ==> h.tiles[k].value != start && b.CoordOf(h.tiles[k].value) != b.CoordOf(start))
      && (h.tiles[k].Some? ==> Adjacent(b.CoordOf(h.tiles[k].value), if k == 0 then b.CoordOf(start) else b.CoordOf(h.tiles[k - 1].value)))
      && (forall m :: 0 <= m < k && h.tiles[k].Some? ==> h.tiles[m] != h.tiles[k])
  {
    var p := b.CoordOf(start);
    var h := HallOutcome(b, cells, start, len).value;
    OpenFromOrthogonal(b, cells, p, 0);
    assert Walk(b, p, h.dir, len) == Returned(h.tiles);
    WalkReturned(b, p, h.dir, len, h.tiles);
    WalkLine(b, p, h.dir, h.tiles, k);
  }

  /** A walk that returns lists steps 1 to len + 1, and all but the last are tiles. */
  lemma WalkReturned(b: Board, p: Point, d: Point, len: int, ts: seq<Option<nat>>)
    requires Walk(b, p, d, len) == Returned(ts) && ts != []
    ensures |ts| == len + 1
    ensures forall i :: 0 <= i < |ts| ==> ts[i] == Step(b, p, d, i + 1)
    ensures forall i :: 0 <= i < |ts| - 1 ==> ts[i].Some?
  {
    forall i | 0 <= i < |ts| - 1
      ensures ts[i].Some?
    {
      assert ts[i] == Step(b, p, d, i + 1);
      assert 1 <= i + 1 <= len;
    }
  }

  /** The geometry of a walk along one of the four offsets: each step is one beyond the last, never back at p. */
  lemma WalkLine(b: Board, p: Point, d: Point, tiles: seq<Option<nat>>, k: int)
    requires d in Orthogonal && 0 <= k < |tiles|
    requires forall i :: 0 <= i < |tiles| ==> tiles[i] == Step(b, p, d, i + 1)
    requires forall i :: 0 <= i < |tiles| - 1 ==> tiles[i].Some?
    ensures tiles[k].Some? ==> b.CoordOf(tiles[k].value) != p
    ensures tiles[k].Some? ==> Adjacent(b.CoordOf(tiles[k].value), if k == 0 then p else b.CoordOf(tiles[k - 1].value))
    ensures forall m :: 0 <= m < k && tiles[k].Some? ==> tiles[m] != tiles[k]
  {
    if tiles[k].Some? {
      var q := b.CoordOf(tiles[k].value);
      assert q == Point(p.x + (k + 1) * d.x, p.y + (k + 1) * d.y);
      AxisApart(d, k + 1, 0);
      AxisAdjacent(p, d, k);
      if k > 0 {
        assert tiles[k - 1] == Step(b, p, d, k);
        assert b.CoordOf(tiles[k - 1].value) == Point(p.x + k * d.x, p.y + k * d.y);
      }
      forall m | 0 <= m < k
        ensures tiles[m] != tiles[k]
      {
        assert tiles[m] == Step(b, p, d, m + 1);
        AxisApart(d, m + 1, k + 1);
      }
    }
  }

  /** Different numbers of steps along one of the four offsets end at different points. */
  lemma AxisApart(d: Point, k: int, m: int)
    requires d in Orthogonal && k != m
    ensures k * d.x != m * d.x || k * d.y != m * d.y
  {
    if d.x == 0 {
      assert d.y == 1 || d.y == -1;
    } else {
      assert d.x == 1 || d.x == -1;
    }
  }

  /** Step k + 1 along one of the four offsets is adjacent to step k. */
  lemma AxisAdjacent(p: Point, d: Point, k: int)
    requires d in Orthogonal
    ensures Adjacent(Point(p.x + (k + 1) * d.x, p.y + (k + 1) * d.y), Point(p.x + k * d.x, p.y + k * d.y))
    ensures Point(p.x + 0 * d.x, p.y + 0 * d.y) == p
  {
    assert (k + 1) * d.x == k * d.x + d.x && (k + 1) * d.y == k * d.y + d.y;
  }

  // ---------------------------------------------------------------------------
  // try_quad_room (dungeon.rb:193-228) and build_room (dungeon.rb:168-187).

  datatype Part = FloorPart | PerimeterPart | CornerPart

  /** The offsets try_quad_room visits: dx in [-w, w), dy in [-h, h). */
  predicate InQuad(d: Point, w: int, h: int)
  {
    -w <= d.x < w && -h <= d.y < h
  }

  /**
   * Which list the tile at offset d goes to. The perimeter test compares
   * |dx| with both the width and the height; |dy| only matters for corners.
   */
  function PartOf(d: Point, w: int, h: int): Part
  {
    if Abs(d.x) == w || Abs(d.x) == h then
      if Abs(d.x) == w && Abs(d.y) == h then CornerPart else PerimeterPart
    else FloorPart
  }

  /** The offset of slot j from the centre c. */
  function Rel(b: Board, c: Point, j: int): Point
  {
    Point(b.CoordOf(j).x - c.x, b.CoordOf(j).y - c.y)
  }

  /** Slot j goes to the given list of a room centred on `center`. */
  predicate QuadMember(b: Board, center: Option<nat>, w: int, h: int, part: Part, j: int)
  {
    center.Some? && 0 <= j < b.cols * b.rows
    && InQuad(Rel(b, b.CoordOf(center.value), j), w, h) && PartOf(Rel(b, b.CoordOf(center.value), j), w, h) == part
  }

  /** A list of try_quad_room: the slots of that part, ascending (the order the loops meet them). */
  ghost predicate QuadList(b: Board, center: Option<nat>, w: int, h: int, part: Part, s: seq<nat>)
  {
    Increasing(s) && forall j :: j in s <==> QuadMember(b, center, w, h, part, j)
  }

  /** Every offset of the room is on the board. */
  predicate RectFits(b: Board, c: Point, w: int, h: int)
  {
    0 <= c.x - w && c.x + w <= b.cols && 0 <= c.y - h && c.y + h <= b.rows
  }

  /** try_quad_room raises: a nil centre, or an offset off the board, once the loops run at all. */
  predicate QuadRaises(b: Board, center: Option<nat>, w: int, h: int)
  {
    w > 0 && h > 0 && (center.None? || !RectFits(b, b.CoordOf(center.value), w, h))
  }

  /** The centre build_room asks for: `(end.x + dir.x * w, end.y + dir.y * h)`. */
  function CenterOf(b: Board, hallEnd: nat, dir: Point, w: int, h: int): Option<nat>
  {
    b.Lookup(b.CoordOf(hallEnd).x + dir.x * w, b.CoordOf(hallEnd).y + dir.y * h)
  }

  /** The rectangle is on the board exactly when its four extreme offsets are. */
  lemma RectFitsSpec(b: Board, c: Point, w: int, h: int)
    requires w > 0 && h > 0
    ensures (forall d :: InQuad(d, w, h) ==> InBounds(Point(c.x + d.x, c.y + d.y), b.cols, b.rows)) <==> RectFits(b, c, w, h)
  {
    if forall d :: InQuad(d, w, h) ==> InBounds(Point(c.x + d.x, c.y + d.y), b.cols, b.rows) {
      assert InQuad(Point(-w, -h), w, h) && InQuad(Point(w - 1, h - 1), w, h);
    }
  }

  /**
   * Of the 2w x 2h offsets exactly one, (-w, -h), is a corner, because the
   * ranges are half-open; the perimeter is the column dx = -w and any
   * column with |dx| = h; everything else is floor.
   */
  lemma QuadParts(d: Point, w: int, h: int)
    requires InQuad(d, w, h)
    ensures PartOf(d, w, h) == CornerPart <==> d == Point(-w, -h)
    ensures PartOf(d, w, h) == PerimeterPart <==> (d.x == -w || Abs(d.x) == h) && d != Point(-w, -h)
    ensures PartOf(d, w, h) == FloorPart <==> d.x != -w && Abs(d.x) != h
  {
  }

  /** The offsets the loops of try_quad_room have visited before (dx, dy). */
  predicate Visited(d: Point, w: int, h: int, dx: int, dy: int)
  {
    InQuad(d, w, h) && (d.x < dx || (d.x == dx && d.y < dy))
  }

  /** A list of try_quad_room before (dx, dy): the visited slots of that part, ascending. */
  ghost predicate Gathered(b: Board, c: Point, w: int, h: int, part: Part, s: seq<nat>, dx: int, dy: int)
  {
    Increasing(s)
    && forall j :: j in s <==> 0 <= j < b.cols * b.rows && Visited(Rel(b, c, j), w, h, dx, dy) && PartOf(Rel(b, c, j), w, h) == part
  }

  /** No offset visited before (dx, dy) was off the board, so no nil entered a list. */
  ghost predicate AllOnBoard(b: Board, c: Point, w: int, h: int, dx: int, dy: int)
  {
    forall d :: Visited(d, w, h, dx, dy) ==> InBounds(Point(c.x + d.x, c.y + d.y), b.cols, b.rows)
  }

  /**
   * The body of try_quad_room's inner loop: the tile at offset (dx, dy) joins
   * the one list its offset selects; a nil is only noted.
   */
  method FileTile(tile: Option<nat>, dx: int, dy: int, w: int, h: int,
                  floor0: seq<nat>, perimeter0: seq<nat>, corners0: seq<nat>, nil0: bool)
    returns (floorTiles: seq<nat>, perimeterTiles: seq<nat>, cornerTiles: seq<nat>, sawNil: bool)
    ensures floorTiles == if tile.Some? && PartOf(Point(dx, dy), w, h) == FloorPart then Insert(floor0, tile.value) else floor0
    ensures perimeterTiles == if tile.Some? && PartOf(Point(dx, dy), w, h) == PerimeterPart then Insert(perimeter0, tile.value) else perimeter0
    ensures cornerTiles == if tile.Some? && PartOf(Point(dx, dy), w, h) == CornerPart then Insert(corners0, tile.value) else corners0
    ensures sawNil == (nil0 || tile.None?)
  {
    floorTiles, perimeterTiles, cornerTiles, sawNil := floor0, perimeter0, corners0, nil0;
    if tile.None? {
      // the nil joins whichever set its offset selects
      sawNil := true;
    } else if Abs(dx) == w || Abs(dx) == h {
      if Abs(dx) == w && Abs(dy) == h {
        cornerTiles := Insert(cornerTiles, tile.value);
      } else {
        perimeterTiles := Insert(perimeterTiles, tile.value);
      }
    } else {
      floorTiles := Insert(floorTiles, tile.value);
    }
  }

  /** One pass of the inner loop of try_quad_room, with the lists it keeps gathered. */
  method GatherCell(ghost b: Board, ghost c: Point, w: int, h: int, dx: int, dy: int, tile: Option<nat>,
                    floor0: seq<nat>, perimeter0: seq<nat>, corners0: seq<nat>, nil0: bool)
    returns (floorTiles: seq<nat>, perimeterTiles: seq<nat>, cornerTiles: seq<nat>, sawNil: bool)
    requires b.WellFormed() && b.order == ColumnMajor && -w <= dx < w && -h <= dy < h
    requires tile == b.Lookup(c.x + dx, c.y + dy)
    requires Gathered(b, c, w, h, FloorPart, floor0, dx, dy)
    requires Gathered(b, c, w, h, PerimeterPart, perimeter0, dx, dy)
    requires Gathered(b, c, w, h, CornerPart, corners0, dx, dy)
    requires nil0 == !AllOnBoard(b, c, w, h, dx, dy)
    ensures Gathered(b, c, w, h, FloorPart, floorTiles, dx, dy + 1)
    ensures Gathered(b, c, w, h, PerimeterPart, perimeterTiles, dx, dy + 1)
    ensures Gathered(b, c, w, h, CornerPart, cornerTiles, dx, dy + 1)
    ensures sawNil == !AllOnBoard(b, c, w, h, dx, dy + 1)
  {
    GatherStep(b, c, w, h, FloorPart, floor0, dx, dy, tile);
    GatherStep(b, c, w, h, PerimeterPart, perimeter0, dx, dy, tile);
    GatherStep(b, c, w, h, CornerPart, corners0, dx, dy, tile);
    NilStep(b, c, w, h, dx, dy, tile);
    floorTiles, perimeterTiles, cornerTiles, sawNil := FileTile(tile, dx, dy, w, h, floor0, perimeter0, corners0, nil0);
  }

  /** One pass of the inner loop of try_quad_room keeps each list gathered. */
  lemma GatherStep(b: Board, c: Point, w: int, h: int, part: Part, s: seq<nat>, dx: int, dy: int, tile: Option<nat>)
    requires b.WellFormed() && b.order == ColumnMajor
    requires Gathered(b, c, w, h, part, s, dx, dy) && -w <= dx < w && -h <= dy < h
    requires tile == b.Lookup(c.x + dx, c.y + dy)
    ensures Gathered(b, c, w, h, part, if tile.Some? && PartOf(Point(dx, dy), w, h) == part then Insert(s, tile.value) else s, dx, dy + 1)
  {
    VisitedStep(b, c, w, h, dx, dy, tile);
    if tile.Some? && PartOf(Point(dx, dy), w, h) == part {
      GatheredBelow(b, c, w, h, part, s, dx, dy, tile.value);
      IncreasingSnoc(s, tile.value);
    }
  }

  /** Offset (dx, dy) adds exactly its own slot to the visited ones. */
  lemma VisitedStep(b: Board, c: Point, w: int, h: int, dx: int, dy: int, tile: Option<nat>)
    requires b.WellFormed() && -w <= dx < w && -h <= dy < h
    requires tile == b.Lookup(c.x + dx, c.y + dy)
    ensures forall j :: 0 <= j < b.cols * b.rows ==>
      (Visited(Rel(b, c, j), w, h, dx, dy + 1) <==> Visited(Rel(b, c, j), w, h, dx, dy) || tile == Some(j))
  {
    forall j | 0 <= j < b.cols * b.rows
      ensures Visited(Rel(b, c, j), w, h, dx, dy + 1) <==> Visited(Rel(b, c, j), w, h, dx, dy) || tile == Some(j)
    {
      b.LookupCoord(j);
    }
  }

  /** Every slot gathered before (dx, dy) lies before that offset's slot in column order. */
  lemma GatheredBelow(b: Board, c: Point, w: int, h: int, part: Part, s: seq<nat>, dx: int, dy: int, t: nat)
    requires b.WellFormed() && b.order == ColumnMajor
    requires Gathered(b, c, w, h, part, s, dx, dy)
    requires Some(t) == b.Lookup(c.x + dx, c.y + dy)
    ensures forall m :: m in s ==> m < t
  {
    var q := Point(c.x + dx, c.y + dy);
    forall m | m in s
      ensures m < t
    {
      b.CoordOfRoundTrip(m);
      b.ColumnMajorOrder(b.CoordOf(m), q);
    }
  }

  lemma NilStep(b: Board, c: Point, w: int, h: int, dx: int, dy: int, tile: Option<nat>)
    requires -w <= dx < w && -h <= dy < h
    requires tile == b.Lookup(c.x + dx, c.y + dy)
    ensures AllOnBoard(b, c, w, h, dx, dy + 1) <==> AllOnBoard(b, c, w, h, dx, dy) && tile.Some?
  {
    assert Visited(Point(dx, dy), w, h, dx, dy + 1);
  }

  /** Finishing a column leaves the lists as the start of the next column finds them. */
  lemma GatherNextColumn(b: Board, c: Point, w: int, h: int, part: Part, s: seq<nat>, dx: int, dy: int)
    requires dy >= h
    requires Gathered(b, c, w, h, part, s, dx, dy)
    ensures Gathered(b, c, w, h, part, s, dx + 1, -h)
  {
    assert forall d :: Visited(d, w, h, dx, dy) <==> Visited(d, w, h, dx + 1, -h);
  }

  lemma NilNextColumn(b: Board, c: Point, w: int, h: int, dx: int, dy: int)
    requires dy >= h
    ensures AllOnBoard(b, c, w, h, dx, dy) <==> AllOnBoard(b, c, w, h, dx + 1, -h)
  {
    assert forall d :: Visited(d, w, h, dx, dy) <==> Visited(d, w, h, dx + 1, -h);
  }

  /** Once every column is done, the visited offsets are all of the room's. */
  lemma GatherDone(b: Board, c: Point, w: int, h: int, part: Part, s: seq<nat>, dx: int)
    requires dx >= w
    requires Gathered(b, c, w, h, part, s, dx, -h)
    ensures Increasing(s)
    ensures forall j :: j in s <==> 0 <= j < b.cols * b.rows && InQuad(Rel(b, c, j), w, h) && PartOf(Rel(b, c, j), w, h) == part
  {
    assert forall d :: Visited(d, w, h, dx, -h) <==> InQuad(d, w, h);
  }

  lemma NilDone(b: Board, c: Point, w: int, h: int, dx: int)
    requires dx >= w
    ensures AllOnBoard(b, c, w, h, dx, -h) <==> forall d :: InQuad(d, w, h) ==> InBounds(Point(c.x + d.x, c.y + d.y), b.cols, b.rows)
  {
    assert forall d :: Visited(d, w, h, dx, -h) <==> InQuad(d, w, h);
  }

  /** Room.new changes only states and room ids, so every tile keeps its place and neighbours. */
  lemma StampKeeps(cells: seq<Tile>, floor: seq<nat>, perimeter: seq<nat>, corners: seq<nat>, id: int)
    requires Slots(floor, |cells|) && Slots(perimeter, |cells|) && Slots(corners, |cells|)
    ensures forall j :: 0 <= j < |cells| ==>
      var t := Stamp(cells, floor, perimeter, corners, id)[j];
      t.SamePlace(cells[j]) && t.neighbors == cells[j].neighbors
  {
    forall j | 0 <= j < |cells|
      ensures var t := Stamp(cells, floor, perimeter, corners, id)[j];
        t.SamePlace(cells[j]) && t.neighbors == cells[j].neighbors
    {
      RoomEffect(cells, floor, perimeter, corners, id, j);
    }
  }

  /**
   * What build_room raises for a hall ending at `hallEnd`: NoMethodError on
   * nil when there is no end tile or try_quad_room meets nil, and otherwise
   * the undefined `perimeter_w_corners` of pad_room.
   */
  function RoomError(b: Board, hallEnd: Option<nat>, dir: Point, w: int, h: int): RubyError
  {
    match hallEnd
    case None => NilReceiver
    case Some(e) => if QuadRaises(b, CenterOf(b, e, dir, w, h), w, h) then NilReceiver else UndefinedMethod
  }

  /** Every entry of a hall try_hall returns is a slot of the board or nil. */
  lemma HallInBoard(b: Board, cells: seq<Tile>, start: nat, len: int)
    requires HallOutcome(b, cells, start, len).Returned?
    ensures forall t :: t in HallOutcome(b, cells, start, len).value.tiles && t.Some? ==> t.value < b.cols * b.rows
  {
    var p := b.CoordOf(start);
    var d := OpenDirection(b, cells, p);
    forall t | t in HallOutcome(b, cells, start, len).value.tiles && t.Some?
      ensures t.value < b.cols * b.rows
    {
      var k :| 0 <= k < len + 1 && t == Step(b, p, d, k + 1);
    }
  }

  // ---------------------------------------------------------------------------
  // The candidate loop of build_initial_hall (dungeon.rb:81-92).

  /** The candidates in the order the loop tries them: each pass samples one and deletes it. */
  function TryOrder(pool: seq<nat>, draws: seq<Draw>): (r: seq<nat>)
    ensures |r| <= |draws| && |r| <= |pool|
    ensures forall x :: x in r ==> x in pool
    decreases |pool|
  {
    if pool == [] || draws == [] then []
    else
      var pick := pool[draws[0].pick % |pool|];
      WithoutShorter(pool, pick);
      [pick] + TryOrder(Without(pool, {pick}), draws[1..])
  }

  /** The first pass samples its candidate with the first draw; the rest are tried from what is left. */
  lemma TryOrderFirst(pool: seq<nat>, draws: seq<Draw>)
    requires pool != [] && draws != []
    ensures var pick := pool[draws[0].pick % |pool|];
      TryOrder(pool, draws) == [pick] + TryOrder(Without(pool, {pick}), draws[1..])
  {
  }

  /** One pass of build_initial_hall's loop consumes the next entry of the order. */
  lemma OrderStep(candidates: seq<nat>, draws: seq<Draw>, n: nat, tried: seq<nat>, order: seq<nat>)
    requires candidates != [] && n < |draws|
    requires order == tried + TryOrder(candidates, draws[n..])
    ensures var pick := candidates[draws[n].pick % |candidates|];
      && order == (tried + [pick]) + TryOrder(Without(candidates, {pick}), draws[n + 1..])
      && order[|tried|] == pick && pick in order
  {
    var pick := candidates[draws[n].pick % |candidates|];
    var rest := TryOrder(Without(candidates, {pick}), draws[n + 1..]);
    TryOrderFirst(candidates, draws[n..]);
    assert draws[n..][0] == draws[n] && draws[n..][1..] == draws[n + 1..];
    assert TryOrder(candidates, draws[n..]) == [pick] + rest;
    ConcatAssoc(tried, [pick], rest);
    assert order[|tried|] == pick;
  }

  /** With a draw for every candidate, each candidate is tried exactly once. */
  lemma {:induction false} TryOrderPermutation(pool: seq<nat>, draws: seq<Draw>)
    requires Distinct(pool) && |draws| >= |pool|
    ensures |TryOrder(pool, draws)| == |pool| && Distinct(TryOrder(pool, draws))
    ensures forall x :: x in TryOrder(pool, draws) <==> x in pool
    decreases |pool|
  {
    if pool != [] {
      var pick := pool[draws[0].pick % |pool|];
      var rest := Without(pool, {pick});
      WithoutOne(pool, pick);
      DistinctWithout(pool, {pick});
      TryOrderPermutation(rest, draws[1..]);
      DistinctConcat([pick], TryOrder(rest, draws[1..]));
    }
  }

  /** Every candidate tried is passed over. */
  predicate AllContinue(b: Board, cells: seq<Tile>, order: seq<nat>, draws: seq<Draw>)
  {
    forall i {:trigger Continues(b, cells, order[i], draws[i].hallLength)} ::
      0 <= i < |order| && i < |draws| ==> Continues(b, cells, order[i], draws[i].hallLength)
  }

  /** A candidate that does not let the scan continue stops it. */
  lemma OrderBreaks(b: Board, cells: seq<Tile>, order: seq<nat>, draws: seq<Draw>, n: nat)
    requires n < |order| && n < |draws| && !Continues(b, cells, order[n], draws[n].hallLength)
    ensures !AllContinue(b, cells, order, draws)
  {
  }

  /** A candidate that lets the scan continue extends the run of such candidates. */
  lemma ContinueSnoc(b: Board, cells: seq<Tile>, tried: seq<nat>, draws: seq<Draw>, pick: nat)
    requires AllContinue(b, cells, tried, draws) && |tried| < |draws|
    requires Continues(b, cells, pick, draws[|tried|].hallLength)
    ensures AllContinue(b, cells, tried + [pick], draws)
  {
    var order := tried + [pick];
    forall i | 0 <= i < |order| && i < |draws|
      ensures Continues(b, cells, order[i], draws[i].hallLength)
    {
      if i < |tried| {
        assert order[i] == tried[i];
        assert Continues(b, cells, tried[i], draws[i].hallLength);
      }
    }
  }

  /** Dungeon.new returns (rather than raising) on a board b with these draws. */
  predicate NewReturns(b: Board, pitch: int, draws: seq<Draw>)
    requires b.WellFormed()
  {
    AllContinue(b, Padded(b, FreshCells(b, pitch)), TryOrder(Candidates(b), draws), draws)
  }

  /** Every tile of a new store is EMPTY or PADDING, so from any tile of a board of 2 or more tiles a hall has a direction. */
  lemma FreshDirection(b: Board, pitch: int, start: nat)
    requires b.WellFormed() && start < b.Size() && b.rows >= 2
    ensures OpenDirection(b, Padded(b, FreshCells(b, pitch)), b.CoordOf(start)) != Origin
  {
    var cells := Padded(b, FreshCells(b, pitch));
    var p := b.CoordOf(start);
    b.CoordOfRoundTrip(start);
    var k := if p.y + 1 < b.rows then 0 else 2;
    var q := p.Add(Orthogonal[k]);
    assert InBounds(q, b.cols, b.rows);
    var j := b.Lookup(q.x, q.y).value;
    assert cells[j].Is(Empty) || cells[j].Is(Padding);
    assert Open(b, cells, q);
    OpenDirectionSpec(b, cells, p);
  }

  /**
   * On a board at least three tiles high, the first tile of column 0 in the
   * central row band is a candidate; with a hall length of 0 or more drawn
   * for it, its hall has a direction, so the room at its end is attempted
   * and Dungeon.new raises.
   */
  lemma NewRaises(b: Board, pitch: int, draws: seq<Draw>)
    requires b.WellFormed() && b.cols >= 1 && b.rows >= 3
    requires |draws| >= 1 && draws[0].hallLength >= 0
    ensures !NewReturns(b, pitch, draws)
  {
    var mid := (b.rows - 1) / 2;
    var c := b.IndexOf(0, mid);
    assert InBounds(Point(0, mid), b.cols, b.rows);
    b.CentralPerimeterSpec(b.Size(), c);
    assert c in Candidates(b);
    var order := TryOrder(Candidates(b), draws);
    assert |order| >= 1;
    var first := order[0];
    assert first in Candidates(b);
    b.CentralPerimeterSpec(b.Size(), first);
    FreshDirection(b, pitch, first);
    ContinuesSpec(b, Padded(b, FreshCells(b, pitch)), first, draws[0].hallLength);
  }

  class Dungeon {
    const cols: int
    const rows: int
    /** TILE_SIZE + MARGIN */
    const pitch: int
    const targetRooms: int
    const minRoomWidth: int
    const maxRoomWidth: int
    const minRoomHeight: int
    const maxRoomHeight: int
    const minHallLength: int
    const maxHallLength: int
    const orthogonal: seq<Point>
    /** `@grid[x][y]`, packed column by column. */
    const grid: array<Tile>
    var roomCounter: int
    var hallCounter: int
    var roomMap: map<int, Room>
    var hallMap: map<int, Hall>
    var branchableRooms: seq<Room>

    /** The board's geometry: `@grid` is indexed x first. */
    function Shape(): Board
    {
      Board(cols, rows, ColumnMajor)
    }

    function CoordOf(i: int): Point
    {
      Shape().CoordOf(i)
    }

    /** Tile t is what Tile.new builds for slot i. */
    predicate Initial(t: Tile, i: int)
    {
      t == NewTile(CoordOf(i).x, CoordOf(i).y, pitch)
    }

    /** Tile t sits where slot i says. */
    predicate Placed(t: Tile, i: int)
    {
      t.x == CoordOf(i).x && t.y == CoordOf(i).y && t.pixelX == t.x * pitch && t.pixelY == t.y * pitch
    }

    /** The settings and the arena agree on the board's shape. */
    predicate Shaped()
    {
      cols >= 0 && rows >= 0 && pitch > 0 && orthogonal == Orthogonal && grid.Length == cols * rows
    }

    ghost predicate Valid()
      reads grid
    {
      && Shaped()
      && (forall i {:trigger Placed(grid[i], i)} :: 0 <= i < grid.Length ==> Placed(grid[i], i))
      // every tile carries its slot's neighbour list
      && (forall i {:trigger Shape().NeighborList(i)} :: 0 <= i < grid.Length ==> grid[i].neighbors == Shape().NeighborList(i))
    }

    /** Dungeon#initialize up to its build_initial_hall call: the settings, construct_grid, set_neighbors. */
    constructor (pixelWidth: int, pixelHeight: int, targetRooms: int,
                 minRoomWidth: int, maxRoomWidth: int, minRoomHeight: int, maxRoomHeight: int,
                 minHallLength: int, maxHallLength: int, pitch: int)
      requires pitch > 0 && pixelWidth >= 0 && pixelHeight >= 0
      ensures cols == pixelWidth / pitch && rows == pixelHeight / pitch && this.pitch == pitch
      ensures this.targetRooms == targetRooms
      ensures this.minRoomWidth == minRoomWidth && this.maxRoomWidth == maxRoomWidth
      ensures this.minRoomHeight == minRoomHeight && this.maxRoomHeight == maxRoomHeight
      ensures this.minHallLength == minHallLength && this.maxHallLength == maxHallLength
      ensures roomCounter == 0 && hallCounter == 0
      ensures roomMap == map[] && hallMap == map[] && branchableRooms == []
      ensures Valid() && fresh(grid)
      ensures grid[..] == FreshCells(Shape(), pitch)
    {
      var c, r := pixelWidth / pitch, pixelHeight / pitch;
      cols, rows := c, r;
      this.pitch := pitch;
      this.targetRooms := targetRooms;
      this.minRoomWidth, this.maxRoomWidth := minRoomWidth, maxRoomWidth;
      this.minRoomHeight, this.maxRoomHeight := minRoomHeight, maxRoomHeight;
      this.minHallLength, this.maxHallLength := minHallLength, maxHallLength;
      orthogonal := Orthogonal;
      roomCounter, hallCounter := 0, 0;
      roomMap, hallMap, branchableRooms := map[], map[], [];
      ProductNonNegative(c, r);
      grid := new Tile[c * r];
      new;
      ConstructGrid();
      SetNeighbors();
      assert grid[..] == FreshCells(Shape(), pitch);
    }

    /** construct_grid: Tile.new(x, y) in every slot, column by column. */
    method ConstructGrid()
      requires cols >= 0 && rows >= 0 && grid.Length == cols * rows
      modifies grid
      ensures forall i :: 0 <= i < grid.Length ==> Initial(grid[i], i)
    {
      var x := 0;
      ghost var filled := 0;
      while x < cols
        invariant 0 <= x <= cols && filled == x * rows && filled <= grid.Length
        invariant forall i :: 0 <= i < filled ==> Initial(grid[i], i)
      {
        var y := 0;
        while y < rows
          invariant 0 <= y <= rows && filled == x * rows + y && filled <= grid.Length
          invariant forall i :: 0 <= i < filled ==> Initial(grid[i], i)
        {
          var slot := Shape().IndexOf(x, y);
          assert slot == filled && CoordOf(slot) == Point(x, y) by {
            assert Shape().Pack(x, y) == x * rows + y;
          }
          grid[slot] := NewTile(x, y, pitch);
          y := y + 1;
          filled := filled + 1;
        }
        assert x * rows + rows == (x + 1) * rows;
        x := x + 1;
      }
    }

    /** get_tile: the slot of (x, y) when it is on the board, nothing otherwise; it never fails. */
    function GetTile(x: int, y: int): (r: Option<nat>)
      ensures r.Some? <==> InBounds(Point(x, y), cols, rows)
      ensures r.Some? ==> r.value < cols * rows && CoordOf(r.value) == Point(x, y)
      ensures r == Shape().Lookup(x, y)
    {
      if x > -1 && x < cols && y > -1 && y < rows then Some(Shape().IndexOf(x, y)) else None
    }

    /** The inner loop of set_neighbors: the slots found at the four offsets from pos, in order. */
    method ProbeNeighbors(pos: Point) returns (found: seq<nat>)
      requires orthogonal == Orthogonal
      ensures found == Shape().Found(Theoretical(pos))
    {
      var theoretical := [pos.Add(orthogonal[0]), pos.Add(orthogonal[1]), pos.Add(orthogonal[2]), pos.Add(orthogonal[3])];
      found := [];
      var k := 0;
      while k < 4
        invariant 0 <= k <= 4
        invariant found == Shape().Found(theoretical[..k])
      {
        var coord := theoretical[k];
        var neighbor := GetTile(coord.x, coord.y);
        assert theoretical[..k + 1][..k] == theoretical[..k];
        if neighbor.Some? {
          found := found + [neighbor.value];
        }
        k := k + 1;
      }
      assert theoretical[..4] == theoretical;
    }

    /** set_neighbors: every tile's `neighbors` becomes the list of its on-board orthogonal neighbours. */
    method SetNeighbors()
      requires cols >= 0 && rows >= 0 && orthogonal == Orthogonal && grid.Length == cols * rows
      requires forall i :: 0 <= i < grid.Length ==> grid[i].x == CoordOf(i).x && grid[i].y == CoordOf(i).y
      modifies grid
      ensures forall i :: 0 <= i < grid.Length ==> grid[i] == old(grid[i]).WithNeighbors(Shape().NeighborList(i))
    {
      var x := 0;
      while x < cols
        invariant 0 <= x <= cols && x * rows <= grid.Length
        invariant forall i :: 0 <= i < x * rows ==> grid[i] == old(grid[i]).WithNeighbors(Shape().NeighborList(i))
        invariant forall i :: x * rows <= i < grid.Length ==> grid[i] == old(grid[i])
      {
        MulAtLeast(cols - x, rows);
        assert x * rows + rows == (x + 1) * rows <= cols * rows by {
          assert (cols - x) * rows == cols * rows - x * rows;
        }
        WireColumn(x * rows, old(grid[..]));
        x := x + 1;
      }
    }

    /** One column of set_neighbors: the tiles in arena slots base up to base + rows. */
    method WireColumn(base: nat, ghost cells: seq<Tile>)
      requires cols >= 0 && rows >= 0 && orthogonal == Orthogonal && grid.Length == cols * rows && |cells| == grid.Length
      requires base + rows <= grid.Length
      requires forall i :: 0 <= i < grid.Length ==> cells[i].x == CoordOf(i).x && cells[i].y == CoordOf(i).y
      requires forall i :: 0 <= i < base ==> grid[i] == cells[i].WithNeighbors(Shape().NeighborList(i))
      requires forall i :: base <= i < grid.Length ==> grid[i] == cells[i]
      modifies grid
      ensures forall i :: 0 <= i < base + rows ==> grid[i] == cells[i].WithNeighbors(Shape().NeighborList(i))
      ensures forall i :: base + rows <= i < grid.Length ==> grid[i] == cells[i]
    {
      var y := 0;
      while y < rows
        invariant 0 <= y <= rows
        invariant forall i :: 0 <= i < base + y ==> grid[i] == cells[i].WithNeighbors(Shape().NeighborList(i))
        invariant forall i :: base + y <= i < grid.Length ==> grid[i] == cells[i]
      {
        WireSlot(base + y, cells);  // @grid[x][y]
        y := y + 1;
      }
    }

    /** One tile of set_neighbors: the tile in arena slot `slot` records its neighbour list. */
    method WireSlot(slot: nat, ghost cells: seq<Tile>)
      requires cols >= 0 && rows >= 0 && orthogonal == Orthogonal && grid.Length == cols * rows && |cells| == grid.Length
      requires slot < grid.Length
      requires forall i :: 0 <= i < grid.Length ==> cells[i].x == CoordOf(i).x && cells[i].y == CoordOf(i).y
      requires forall i :: 0 <= i < slot ==> grid[i] == cells[i].WithNeighbors(Shape().NeighborList(i))
      requires forall i :: slot <= i < grid.Length ==> grid[i] == cells[i]
      modifies grid
      ensures forall i :: 0 <= i < slot + 1 ==> grid[i] == cells[i].WithNeighbors(Shape().NeighborList(i))
      ensures forall i :: slot + 1 <= i < grid.Length ==> grid[i] == cells[i]
    {
      var tile := grid[slot];
      var found := ProbeNeighbors(Point(tile.x, tile.y));
      grid[slot] := tile.WithNeighbors(found);
    }

    /**
     * The border scan of build_initial_hall: every border tile becomes
     * PADDING, every other tile is left alone, and the result lists the
     * border tiles in the central band, column by column.
     */
    method ScanBorder() returns (candidates: seq<nat>)
      requires Valid()
      modifies grid
      ensures Valid()
      ensures grid[..] == Padded(Shape(), old(grid[..]))
      ensures candidates == Candidates(Shape())
    {
      var centerCol := (cols - 1) / 2;
      var centerRow := (rows - 1) / 2;
      var colRange := cols / 3;
      var rowRange := rows / 3;
      var colMin, colMax := centerCol - colRange, centerCol + colRange;
      var rowMin, rowMax := centerRow - rowRange, centerRow + rowRange;
      candidates := [];
      var x := 0;
      PaddedEnds(Shape(), old(grid[..]));
      while x < cols
        invariant 0 <= x <= cols && x * rows <= grid.Length
        invariant Valid()
        invariant grid[..] == PaddedUpTo(Shape(), old(grid[..]), x * rows)
        invariant candidates == Shape().CentralUpTo(x * rows)
      {
        MulAtLeast(cols - x, rows);
        assert x * rows + rows == (x + 1) * rows <= cols * rows by {
          assert (cols - x) * rows == cols * rows - x * rows;
        }
        candidates := ScanColumn(x, x * rows, colMin, colMax, rowMin, rowMax, old(grid[..]), candidates);
        x := x + 1;
      }
    }

    /** The inner loop of the border scan: column x, slots base up to base + rows. */
    method ScanColumn(x: int, base: int, colMin: int, colMax: int, rowMin: int, rowMax: int,
                      ghost cells: seq<Tile>, candidates0: seq<nat>) returns (candidates: seq<nat>)
      requires Valid() && 0 <= x < cols && base == x * rows && base + rows <= grid.Length && |cells| == grid.Length
      requires colMin == (cols - 1) / 2 - cols / 3 && colMax == (cols - 1) / 2 + cols / 3
      requires rowMin == (rows - 1) / 2 - rows / 3 && rowMax == (rows - 1) / 2 + rows / 3
      requires grid[..] == PaddedUpTo(Shape(), cells, base)
      requires candidates0 == Shape().CentralUpTo(base)
      modifies grid
      ensures Valid()
      ensures grid[..] == PaddedUpTo(Shape(), cells, base + rows)
      ensures candidates == Shape().CentralUpTo(base + rows)
    {
      candidates := candidates0;
      var y := 0;
      while y < rows
        invariant 0 <= y <= rows
        invariant Valid()
        invariant grid[..] == PaddedUpTo(Shape(), cells, base + y)
        invariant candidates == Shape().CentralUpTo(base + y)
      {
        candidates := ScanSlot(base + y, colMin, colMax, rowMin, rowMax, cells, candidates);  // @grid[x][y]
        y := y + 1;
      }
    }

    /** One slot of the border scan: pad its tile and file it when it is a candidate. */
    method ScanSlot(slot: nat, colMin: int, colMax: int, rowMin: int, rowMax: int,
                    ghost cells: seq<Tile>, candidates0: seq<nat>) returns (candidates: seq<nat>)
      requires Valid() && slot < grid.Length && |cells| == grid.Length
      requires colMin == (cols - 1) / 2 - cols / 3 && colMax == (cols - 1) / 2 + cols / 3
      requires rowMin == (rows - 1) / 2 - rows / 3 && rowMax == (rows - 1) / 2 + rows / 3
      requires grid[..] == PaddedUpTo(Shape(), cells, slot)
      requires candidates0 == Shape().CentralUpTo(slot)
      modifies grid
      ensures Valid()
      ensures grid[..] == PaddedUpTo(Shape(), cells, slot + 1)
      ensures candidates == Shape().CentralUpTo(slot + 1)
    {
      PaddedStep(Shape(), cells, slot);
      Shape().CentralNext(slot);
      var central := ScanTile(slot, colMin, colMax, rowMin, rowMax);
      candidates := candidates0;
      if central {
        candidates := candidates + [slot];
      }
    }

    /** One pass of the scan: a border tile becomes PADDING and is reported when it is in the central band. */
    method ScanTile(slot: nat, colMin: int, colMax: int, rowMin: int, rowMax: int) returns (central: bool)
      requires Valid() && slot < grid.Length
      requires colMin == (cols - 1) / 2 - cols / 3 && colMax == (cols - 1) / 2 + cols / 3
      requires rowMin == (rows - 1) / 2 - rows / 3 && rowMax == (rows - 1) / 2 + rows / 3
      modifies grid
      ensures Valid()
      ensures grid[..] == old(grid[..])[slot := PadOne(Shape(), old(grid[..])[slot], slot)]
      ensures central == Shape().CentralPerimeter(slot)
    {
      var tile := grid[slot];
      central := false;
      ghost var p := CoordOf(slot);
      assert Placed(tile, slot);
      assert p == Point(tile.x, tile.y);
      BandAt(Shape(), slot, p);
      if tile.x == 0 || tile.x == cols - 1 || tile.y == 0 || tile.y == rows - 1 {
        grid[slot] := tile.Become(Padding);
        if (tile.x > colMin && tile.x < colMax) || (tile.y > rowMin && tile.y < rowMax) {
          central := true;
        }
      }
    }

    /**
     * try_hall(start): the first offset, in the fixed order, whose tile is
     * EMPTY or PADDING gives the direction (the shuffle at :102 and the
     * arrays written at :113 and :123 are discarded), then hall_len + 1 steps
     * are walked from the start.
     */
    method TryHall(start: nat, hallLength: int) returns (r: Outcome<HallAttempt>)
      requires Valid() && start < grid.Length
      ensures r == HallOutcome(Shape(), grid[..], start, hallLength)
    {
      var dir := HallDirection(start);
      var walked := WalkHall(start, dir, hallLength);
      match walked
      case Raised(e) =>
        r := Raised(e);
      case Returned(tiles) =>
        if |tiles| > 0 {
          r := Returned(HallAttempt(tiles, dir));
        } else {
          r := Returned(HallAttempt([], Origin));
        }
    }

    /** The first loop of try_hall: the direction of the first open neighbour. */
    method HallDirection(start: nat) returns (dir: Point)
      requires Shaped() && start < grid.Length && Placed(grid[start], start)
      ensures dir == OpenDirection(Shape(), grid[..], CoordOf(start))
    {
      ghost var cells := grid[..];
      var startTile := grid[start];
      assert Placed(startTile, start);
      ghost var p := Point(startTile.x, startTile.y);
      assert CoordOf(start) == p;
      dir := Origin;
      var k := 0;
      while k < 4
        invariant 0 <= k <= 4 && dir == Origin
        invariant OpenDirection(Shape(), cells, p) == OpenFrom(Shape(), cells, p, k)
      {
        var coord := orthogonal[k];
        ghost var q := p.Add(Orthogonal[k]);
        assert q == Point(startTile.x + coord.x, startTile.y + coord.y);
        var tile := GetTile(startTile.x + coord.x, startTile.y + coord.y);
        var open := tile.Some? && (grid[tile.value].Is(Empty) || grid[tile.value].Is(Padding));
        assert open == Open(Shape(), cells, q);
        if open {
          dir := coord;
          break;
        }
        k := k + 1;
      }
    }

    /** The second loop of try_hall: hall_len + 1 steps from the start along dir. */
    method WalkHall(start: nat, dir: Point, hallLength: int) returns (r: Outcome<seq<Option<nat>>>)
      requires Valid() && start < grid.Length
      ensures r == Walk(Shape(), CoordOf(start), dir, hallLength)
    {
      ghost var p := CoordOf(start);
      Shape().LookupCoord(start);
      var tiles: seq<Option<nat>> := [];
      var curr: Option<nat> := Some(start);
      var n := 0;
      while n <= hallLength
        invariant 0 <= n && (hallLength < 0 ==> n == 0) && (hallLength >= 0 ==> n <= hallLength + 1)
        invariant |tiles| == n
        invariant forall m :: 0 <= m < n ==> tiles[m] == Step(Shape(), p, dir, m + 1)
        invariant forall m :: 1 <= m < n ==> Step(Shape(), p, dir, m).Some?
        invariant curr == Step(Shape(), p, dir, n)
      {
        if curr.None? {
          // curr_tile.x on nil
          assert 1 <= n <= hallLength && Step(Shape(), p, dir, n).None?;
          return Raised(NilReceiver);
        }
        var t := grid[curr.value];
        assert Placed(t, curr.value);
        assert t.x + dir.x == p.x + (n + 1) * dir.x && t.y + dir.y == p.y + (n + 1) * dir.y;
        curr := GetTile(t.x + dir.x, t.y + dir.y);
        tiles := tiles + [curr];
        n := n + 1;
      }
      if hallLength >= 0 {
        assert tiles == seq(hallLength + 1, m => Step(Shape(), p, dir, m + 1));
      }
      r := Returned(tiles);
    }

    /**
     * try_quad_room(center, w, h): the offsets dx in [-w, w), dy in [-h, h)
     * around the centre, column by column, each tile added to the corner,
     * perimeter or floor set (the nil check at :201-203 is discarded), then
     * Room.new with those sets, then the room counter is bumped. A nil
     * centre raises on the first pass of the loops, so exactly when both
     * loops run at all.
     */
    method TryQuadRoom(center: Option<nat>, roomWidth: int, roomHeight: int) returns (r: Outcome<Room>)
      requires Valid() && (center.Some? ==> center.value < grid.Length)
      modifies grid, this`roomCounter
      ensures Valid()
      ensures r.Raised? <==> QuadRaises(Shape(), center, roomWidth, roomHeight)
      ensures r.Raised? ==> r.error == NilReceiver && roomCounter == old(roomCounter)
      ensures r.Returned? ==>
        var room := r.value;
        && fresh(room) && roomCounter == old(roomCounter) + 1
        && room.roomId == old(roomCounter) && room.centerTile == center
        && room.width == roomWidth && room.height == roomHeight
        && QuadList(Shape(), center, roomWidth, roomHeight, FloorPart, room.floorTiles)
        && QuadList(Shape(), center, roomWidth, roomHeight, PerimeterPart, room.perimeterTiles)
        && QuadList(Shape(), center, roomWidth, roomHeight, CornerPart, room.cornerTiles)
        && room.perimeterWoHallTiles == room.perimeterTiles && room.perimeterWCornerTiles == room.perimeterTiles + room.cornerTiles
        && room.halls == {} && room.Valid()
        && Slots(room.floorTiles, grid.Length) && Slots(room.perimeterTiles, grid.Length) && Slots(room.cornerTiles, grid.Length)
        && grid[..] == Stamp(old(grid[..]), room.floorTiles, room.perimeterTiles, room.cornerTiles, room.roomId)
    {
      var floorTiles: seq<nat> := [];
      var perimeterTiles: seq<nat> := [];
      var cornerTiles: seq<nat> := [];
      match center {
        case None =>
          if roomWidth > 0 && roomHeight > 0 {
            // center_tile.x on nil
            return Raised(NilReceiver);
          }
        case Some(c) =>
          var sawNil;
          floorTiles, perimeterTiles, cornerTiles, sawNil := GatherQuad(c, roomWidth, roomHeight);
          if sawNil {
            // Room.new calls set_room on the nil entry
            return Raised(NilReceiver);
          }
      }
      assert Slots(floorTiles, grid.Length) && Slots(perimeterTiles, grid.Length) && Slots(cornerTiles, grid.Length) by {
        assert forall k :: 0 <= k < |floorTiles| ==> floorTiles[k] in floorTiles;
        assert forall k :: 0 <= k < |perimeterTiles| ==> perimeterTiles[k] in perimeterTiles;
        assert forall k :: 0 <= k < |cornerTiles| ==> cornerTiles[k] in cornerTiles;
      }
      ghost var cells := grid[..];
      StampKeeps(cells, floorTiles, perimeterTiles, cornerTiles, roomCounter);
      var room := new Room(roomCounter, center, roomWidth, roomHeight, floorTiles, perimeterTiles, cornerTiles, grid);
      forall i | 0 <= i < grid.Length ensures Placed(grid[i], i) {
        assert Placed(old(grid[i]), i) && old(grid[i]) == cells[i];
        assert grid[i] == grid[..][i];
      }
      roomCounter := roomCounter + 1;
      r := Returned(room);
    }

    /** The loops of try_quad_room around an existing centre: the three sets, and whether a nil was met. */
    method GatherQuad(center: nat, roomWidth: int, roomHeight: int) returns (floorTiles: seq<nat>, perimeterTiles: seq<nat>, cornerTiles: seq<nat>, sawNil: bool)
      requires Valid() && center < grid.Length
      ensures QuadList(Shape(), Some(center), roomWidth, roomHeight, FloorPart, floorTiles)
      ensures QuadList(Shape(), Some(center), roomWidth, roomHeight, PerimeterPart, perimeterTiles)
      ensures QuadList(Shape(), Some(center), roomWidth, roomHeight, CornerPart, cornerTiles)
      ensures sawNil <==> QuadRaises(Shape(), Some(center), roomWidth, roomHeight)
    {
      ghost var c := CoordOf(center);
      floorTiles, perimeterTiles, cornerTiles := [], [], [];
      sawNil := false;
      var dx := -roomWidth;
      while dx < roomWidth
        invariant -roomWidth <= dx && (dx <= roomWidth || dx == -roomWidth)
        invariant Gathered(Shape(), c, roomWidth, roomHeight, FloorPart, floorTiles, dx, -roomHeight)
        invariant Gathered(Shape(), c, roomWidth, roomHeight, PerimeterPart, perimeterTiles, dx, -roomHeight)
        invariant Gathered(Shape(), c, roomWidth, roomHeight, CornerPart, cornerTiles, dx, -roomHeight)
        invariant sawNil == !AllOnBoard(Shape(), c, roomWidth, roomHeight, dx, -roomHeight)
      {
        floorTiles, perimeterTiles, cornerTiles, sawNil := GatherColumn(center, roomWidth, roomHeight, dx, floorTiles, perimeterTiles, cornerTiles, sawNil);
        dx := dx + 1;
      }
      GatherDone(Shape(), c, roomWidth, roomHeight, FloorPart, floorTiles, dx);
      GatherDone(Shape(), c, roomWidth, roomHeight, PerimeterPart, perimeterTiles, dx);
      GatherDone(Shape(), c, roomWidth, roomHeight, CornerPart, cornerTiles, dx);
      NilDone(Shape(), c, roomWidth, roomHeight, dx);
      if roomWidth > 0 && roomHeight > 0 {
        RectFitsSpec(Shape(), c, roomWidth, roomHeight);
      }
    }

    /** The inner loop of try_quad_room: one column dx of offsets, dy from -h up to h. */
    method GatherColumn(center: nat, roomWidth: int, roomHeight: int, dx: int,
                        floor0: seq<nat>, perimeter0: seq<nat>, corners0: seq<nat>, nil0: bool)
      returns (floorTiles: seq<nat>, perimeterTiles: seq<nat>, cornerTiles: seq<nat>, sawNil: bool)
      requires Valid() && center < grid.Length && -roomWidth <= dx < roomWidth
      requires Gathered(Shape(), CoordOf(center), roomWidth, roomHeight, FloorPart, floor0, dx, -roomHeight)
      requires Gathered(Shape(), CoordOf(center), roomWidth, roomHeight, PerimeterPart, perimeter0, dx, -roomHeight)
      requires Gathered(Shape(), CoordOf(center), roomWidth, roomHeight, CornerPart, corners0, dx, -roomHeight)
      requires nil0 == !AllOnBoard(Shape(), CoordOf(center), roomWidth, roomHeight, dx, -roomHeight)
      ensures Gathered(Shape(), CoordOf(center), roomWidth, roomHeight, FloorPart, floorTiles, dx + 1, -roomHeight)
      ensures Gathered(Shape(), CoordOf(center), roomWidth, roomHeight, PerimeterPart, perimeterTiles, dx + 1, -roomHeight)
      ensures Gathered(Shape(), CoordOf(center), roomWidth, roomHeight, CornerPart, cornerTiles, dx + 1, -roomHeight)
      ensures sawNil == !AllOnBoard(Shape(), CoordOf(center), roomWidth, roomHeight, dx + 1, -roomHeight)
    {
      ghost var c := CoordOf(center);
      floorTiles, perimeterTiles, cornerTiles, sawNil := floor0, perimeter0, corners0, nil0;
      var centerTile := grid[center];
      assert Placed(centerTile, center);
      var dy := -roomHeight;
      while dy < roomHeight
        invariant -roomHeight <= dy && (dy <= roomHeight || dy == -roomHeight)
        invariant Gathered(Shape(), c, roomWidth, roomHeight, FloorPart, floorTiles, dx, dy)
        invariant Gathered(Shape(), c, roomWidth, roomHeight, PerimeterPart, perimeterTiles, dx, dy)
        invariant Gathered(Shape(), c, roomWidth, roomHeight, CornerPart, cornerTiles, dx, dy)
        invariant sawNil == !AllOnBoard(Shape(), c, roomWidth, roomHeight, dx, dy)
      {
        var tile := GetTile(centerTile.x + dx, centerTile.y + dy);
        floorTiles, perimeterTiles, cornerTiles, sawNil :=
          GatherCell(Shape(), c, roomWidth, roomHeight, dx, dy, tile, floorTiles, perimeterTiles, cornerTiles, sawNil);
        dy := dy + 1;
      }
      GatherNextColumn(Shape(), c, roomWidth, roomHeight, FloorPart, floorTiles, dx, dy);
      GatherNextColumn(Shape(), c, roomWidth, roomHeight, PerimeterPart, perimeterTiles, dx, dy);
      GatherNextColumn(Shape(), c, roomWidth, roomHeight, CornerPart, cornerTiles, dx, dy);
      NilNextColumn(Shape(), c, roomWidth, roomHeight, dx, dy);
    }

    /**
     * pad_room(room): its first call, `room.perimeter_w_corners`, names a
     * method Room does not define (the attribute is `perimeter_w_corner_tiles`),
     * so it raises before any tile is looked at.
     */
    method PadRoom(room: Room) returns (r: Outcome<()>)
      ensures r == Raised(UndefinedMethod)
    {
      r := Raised(UndefinedMethod);
    }

    /**
     * build_room(hall_end, dir): the centre is the tile at
     * (end.x + dir.x * w, end.y + dir.y * h) for the drawn half sizes. The
     * nil checks at :175-177 and :180-182 are discarded, so try_quad_room
     * runs whatever the centre, and a room it returns goes to pad_room, which
     * raises; `@room_map` is never written.
     */
    method BuildRoom(hallEnd: Option<nat>, hallDir: Point, roomWidth: int, roomHeight: int) returns (r: Outcome<Room>)
      requires Valid() && (hallEnd.Some? ==> hallEnd.value < grid.Length)
      modifies grid, this`roomCounter
      ensures Valid()
      ensures r == Raised(RoomError(Shape(), hallEnd, hallDir, roomWidth, roomHeight))
      ensures r.error == NilReceiver ==> roomCounter == old(roomCounter)
      ensures r.error == UndefinedMethod ==> roomCounter == old(roomCounter) + 1
    {
      match hallEnd {
        case None =>
          // hall_end_tile.x on nil
          return Raised(NilReceiver);
        case Some(e) =>
          var endTile := grid[e];
          assert Placed(endTile, e);
          var center := GetTile(endTile.x + hallDir.x * roomWidth, endTile.y + hallDir.y * roomHeight);
          var quad := TryQuadRoom(center, roomWidth, roomHeight);
          match quad {
            case Raised(err) =>
              return Raised(err);
            case Returned(room) =>
              var padded := PadRoom(room);
              return Raised(padded.error);
          }
      }
    }

    /**
     * end_hall_with_room(hall_tiles, dir): build_room at the last entry
     * (nil for an empty list). build_room never returns, so the Hall.new at
     * :147 and the bookkeeping after it are never reached.
     */
    method EndHallWithRoom(hallTiles: seq<Option<nat>>, hallDir: Point, roomWidth: int, roomHeight: int) returns (r: Outcome<bool>)
      requires Valid() && forall t :: t in hallTiles && t.Some? ==> t.value < grid.Length
      modifies grid, this`roomCounter
      ensures Valid()
      ensures r == Raised(RoomError(Shape(), if |hallTiles| > 0 then hallTiles[|hallTiles| - 1] else None, hallDir, roomWidth, roomHeight))
    {
      var endTile := if |hallTiles| > 0 then hallTiles[|hallTiles| - 1] else None;
      var built := BuildRoom(endTile, hallDir, roomWidth, roomHeight);
      r := Raised(built.error);
    }

    /**
     * build_initial_hall with the draws of its passes: the border scan, then
     * the candidate loop.
     */
    method BuildInitialHall(draws: seq<Draw>) returns (r: Outcome<()>)
      requires Valid() && |draws| >= grid.Length
      modifies grid, this`roomCounter
      ensures Valid()
      ensures r.Returned? <==> AllContinue(Shape(), Padded(Shape(), old(grid[..])), TryOrder(Candidates(Shape()), draws), draws)
      ensures r.Returned? ==> grid[..] == Padded(Shape(), old(grid[..])) && roomCounter == old(roomCounter)
    {
      var candidates := ScanBorder();
      forall x | x in candidates ensures x < grid.Length {
        Shape().CentralPerimeterSpec(grid.Length, x);
      }
      Shape().CentralPerimeterSpec(grid.Length, 0);
      IncreasingDistinct(candidates);
      r := TryCandidates(candidates, draws);
    }

    /**
     * The candidate loop of build_initial_hall: candidates sampled
     * (draws[n].pick) and deleted one by one; a candidate with a direction
     * ends its hall with a room, which raises, so the loop finishes exactly
     * when every candidate tried is passed over.
     */
    method TryCandidates(pool: seq<nat>, draws: seq<Draw>) returns (r: Outcome<()>)
      requires Valid() && Distinct(pool) && |pool| <= |draws|
      requires forall x :: x in pool ==> x < grid.Length
      modifies grid, this`roomCounter
      ensures Valid()
      ensures r.Returned? <==> AllContinue(Shape(), old(grid[..]), TryOrder(pool, draws), draws)
      ensures r.Returned? ==> grid[..] == old(grid[..]) && roomCounter == old(roomCounter)
    {
      var candidates := pool;
      ghost var cells := grid[..];
      ghost var order: seq<nat> := TryOrder(pool, draws);
      ghost var tried: seq<nat> := [];
      var hallBuilt := false;
      var n := 0;
      while !hallBuilt && |candidates| > 0
        invariant Valid() && grid[..] == cells && roomCounter == old(roomCounter)
        invariant !hallBuilt
        invariant |tried| == n && n + |candidates| == |pool|
        invariant Distinct(candidates)
        invariant order == tried + TryOrder(candidates, draws[n..])
        invariant forall x :: x in order ==> x < grid.Length
        invariant AllContinue(Shape(), cells, tried, draws)
        decreases |candidates|
      {
        var passed;
        candidates, passed, tried := TryPick(candidates, draws, n, tried, order, cells);
        if passed.Raised? {
          return Raised(passed.error);
        }
        n := n + 1;
      }
      assert order == tried;
      r := Returned(());
    }

    /**
     * One round of the candidate loop: candidate draws[n].pick is sampled,
     * deleted from the list and tried.
     */
    method TryPick(candidates: seq<nat>, draws: seq<Draw>, n: nat, ghost tried: seq<nat>, ghost order: seq<nat>,
                   ghost cells: seq<Tile>) returns (rest: seq<nat>, passed: Outcome<()>, ghost tried': seq<nat>)
      requires Valid() && grid[..] == cells
      requires |tried| == n && n < |draws| && candidates != []
      requires Distinct(candidates) && forall x :: x in order ==> x < grid.Length
      requires order == tried + TryOrder(candidates, draws[n..])
      requires AllContinue(Shape(), cells, tried, draws)
      modifies grid, this`roomCounter
      ensures Valid()
      ensures passed.Raised? ==> !AllContinue(Shape(), cells, order, draws)
      ensures passed.Returned? ==>
        && grid[..] == cells && roomCounter == old(roomCounter)
        && |tried'| == n + 1 && |rest| + 1 == |candidates| && Distinct(rest)
        && order == tried' + TryOrder(rest, draws[n + 1..])
        && AllContinue(Shape(), cells, tried', draws)
    {
      var pick := candidates[draws[n].pick % |candidates|];
      OrderStep(candidates, draws, n, tried, order);
      WithoutOne(candidates, pick);
      DistinctWithout(candidates, {pick});
      rest := Without(candidates, {pick});
      passed := TryCandidate(pick, draws[n]);
      tried' := tried + [pick];
      if passed.Raised? {
        OrderBreaks(Shape(), cells, order, draws, n);
      } else {
        ContinueSnoc(Shape(), cells, tried, draws, pick);
      }
    }

    /**
     * One pass of build_initial_hall's loop for the sampled candidate:
     * try_hall, and end_hall_with_room when the hall has a direction. It
     * returns, changing nothing, exactly when the candidate is passed over.
     */
    method TryCandidate(pick: nat, draw: Draw) returns (r: Outcome<()>)
      requires Valid() && pick < grid.Length
      modifies grid, this`roomCounter
      ensures Valid()
      ensures r.Returned? <==> Continues(Shape(), old(grid[..]), pick, draw.hallLength)
      ensures r.Returned? ==> grid[..] == old(grid[..]) && roomCounter == old(roomCounter)
    {
      var attempt := TryHall(pick, draw.hallLength);
      if attempt.Raised? {
        return Raised(attempt.error);
      }
      var hall := attempt.value;
      if hall.dir != Origin {
        HallInBoard(Shape(), grid[..], pick, draw.hallLength);
        var ended := EndHallWithRoom(hall.tiles, hall.dir, draw.roomWidth, draw.roomHeight);
        // end_hall_with_room never returns, so hall_built stays false
        return Raised(ended.error);
      }
      r := Returned(());
    }

    /**
     * Dungeon.new(...) with the draws its build_initial_hall consumes: it
     * returns a dungeon exactly when every candidate tried is passed over,
     * and that dungeon holds a fresh padded store and no rooms or halls.
     */
    static method Build(pixelWidth: int, pixelHeight: int, targetRooms: int,
                        minRoomWidth: int, maxRoomWidth: int, minRoomHeight: int, maxRoomHeight: int,
                        minHallLength: int, maxHallLength: int, pitch: int, draws: seq<Draw>)
      returns (r: Outcome<Dungeon>)
      requires pitch > 0 && pixelWidth >= 0 && pixelHeight >= 0
      requires |draws| >= (pixelWidth / pitch) * (pixelHeight / pitch)
      requires forall i :: 0 <= i < |draws| ==>
        InRange(draws[i], minRoomWidth, maxRoomWidth, minRoomHeight, maxRoomHeight, minHallLength, maxHallLength)
      ensures r.Returned? <==> NewReturns(Board(pixelWidth / pitch, pixelHeight / pitch, ColumnMajor), pitch, draws)
      ensures r.Returned? ==>
        var d := r.value;
        && fresh(d) && fresh(d.grid) && d.Valid()
        && d.cols == pixelWidth / pitch && d.rows == pixelHeight / pitch
        && d.roomCounter == 0 && d.hallCounter == 0
        && d.roomMap == map[] && d.hallMap == map[] && d.branchableRooms == []
        && d.grid[..] == Padded(d.Shape(), FreshCells(d.Shape(), pitch))
    {
      var d := new Dungeon(pixelWidth, pixelHeight, targetRooms, minRoomWidth, maxRoomWidth,
                           minRoomHeight, maxRoomHeight, minHallLength, maxHallLength, pitch);
      var built := d.BuildInitialHall(draws);
      match built
      case Raised(e) => r := Raised(e);
      case Returned(_) => r := Returned(d);
    }
  }
}
