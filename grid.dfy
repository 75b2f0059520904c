/**
 * model/grid.rb: a cols x rows board of tiles stored row-major in one array,
 * with a neighbour list per tile computed once from the four orthogonal
 * offsets. Tiles are referred to by their index in `elements`.
 */
module Grids {
  import opened Wrappers
  import opened Points
  import opened TileTypes
  import opened Tiles
  import opened Layout
  import opened Seqs
  import opened Boards

  // ---------------------------------------------------------------------------
  // The border scan shared by find_central_perimeter_tiles (grid.rb:104-129)
  // and build_initial_hall (dungeon.rb:54-79).

  /** Slot i's tile t after the border scan: PADDING on the border, untouched elsewhere. */
  function PadOne(b: Board, t: Tile, i: int): Tile
  {
    if OnBorder(b.CoordOf(i), b.cols, b.rows) then t.Become(Padding) else t
  }

  /** The scan's test on a tile at p, slot i of the board, is the central-perimeter test of i. */
  lemma BandAt(b: Board, i: nat, p: Point)
    requires b.CoordOf(i) == p
    ensures b.CentralPerimeter(i) <==> OnBorder(p, b.cols, b.rows) && InCentralBand(p, b.cols, b.rows)
  {
  }

  /** The store after the border scan. */
  function Padded(b: Board, cells: seq<Tile>): (r: seq<Tile>)
    ensures |r| == |cells|
    ensures forall i :: 0 <= i < |cells| ==> r[i] == PadOne(b, cells[i], i)
  {
    seq(|cells|, i requires 0 <= i < |cells| => PadOne(b, cells[i], i))
  }

  /** The store part-way through the border scan: the first n slots are done. */
  function PaddedUpTo(b: Board, cells: seq<Tile>, n: int): (r: seq<Tile>)
    ensures |r| == |cells|
  {
    seq(|cells|, i requires 0 <= i < |cells| => if i < n then PadOne(b, cells[i], i) else cells[i])
  }

  /** Scanning slot n moves the scan on by one slot. */
  lemma PaddedStep(b: Board, cells: seq<Tile>, n: int)
    requires 0 <= n < |cells|
    ensures PaddedUpTo(b, cells, n)[n] == cells[n]
    ensures PaddedUpTo(b, cells, n)[n := PadOne(b, cells[n], n)] == PaddedUpTo(b, cells, n + 1)
  {
  }

  /** Before the scan nothing is done; after it the store is padded. */
  lemma PaddedEnds(b: Board, cells: seq<Tile>)
    ensures PaddedUpTo(b, cells, 0) == cells
    ensures PaddedUpTo(b, cells, |cells|) == Padded(b, cells)
  {
  }

  class Grid {
    const cols: int
    const rows: int
    /** TILE_SIZE + MARGIN */
    const pitch: int
    const elements: array<Tile>
    const neighbors: array<seq<nat>>
    const orthogonal: seq<Point>

    /** The board's geometry: `@elements` is packed row by row. */
    function Shape(): Board
    {
      Board(cols, rows, RowMajor)
    }

    /** The coordinates of arena slot i. */
    function CoordOf(i: int): Point
    {
      Shape().CoordOf(i)
    }

    /** Tile t sits where slot i says, at the pixel position its coordinates give. */
    predicate Placed(t: Tile, i: int)
    {
      t.x == CoordOf(i).x && t.y == CoordOf(i).y && t.pixelX == t.x * pitch && t.pixelY == t.y * pitch
    }

    /** Tile t is the tile Tile.new builds for slot i. */
    predicate Initial(t: Tile, i: int)
    {
      t == NewTile(CoordOf(i).x, CoordOf(i).y, pitch)
    }

    /** The board's shape and the recorded neighbour lists, which no tile update touches. */
    ghost predicate Wired()
      reads neighbors
    {
      cols >= 0 && rows >= 0 && pitch > 0 && orthogonal == Orthogonal
      && elements.Length == cols * rows && neighbors.Length == cols * rows
      && (forall i :: 0 <= i < neighbors.Length ==> neighbors[i] == Shape().NeighborList(i))
      && (forall i, k :: 0 <= i < neighbors.Length && 0 <= k < |neighbors[i]| ==> neighbors[i][k] < elements.Length)
    }

    ghost predicate Valid()
      reads elements, neighbors
    {
      Wired() && forall i :: 0 <= i < elements.Length ==> Placed(elements[i], i)
    }

    /** Grid.new(pixel_width, pixel_height) followed by its set_neighbors call. */
    constructor (pixelWidth: int, pixelHeight: int, pitch: int)
      requires pitch > 0 && pixelWidth >= 0 && pixelHeight >= 0
      ensures cols == pixelWidth / pitch && rows == pixelHeight / pitch && this.pitch == pitch
      ensures Valid() && fresh(elements) && fresh(neighbors)
      ensures forall i :: 0 <= i < elements.Length ==> Initial(elements[i], i)
    {
      var c, r := pixelWidth / pitch, pixelHeight / pitch;
      cols, rows := c, r;
      this.pitch := pitch;
      elements := new Tile[c * r];
      neighbors := new seq<nat>[c * r];
      orthogonal := Orthogonal;
      new;
      FillElements();
      forall i | 0 <= i < elements.Length
        ensures Placed(elements[i], i)
      {
        InitialPlaced(elements[i], i);
      }
      SetNeighbors();
    }

    /** A freshly built tile sits where its slot says. */
    lemma InitialPlaced(t: Tile, i: int)
      requires Initial(t, i)
      ensures Placed(t, i)
    {
    }

    /** The nested loops of Grid.new that put Tile.new(x, y) in every slot. */
    method FillElements()
      requires cols >= 0 && rows >= 0 && elements.Length == cols * rows
      modifies elements
      ensures forall i :: 0 <= i < elements.Length ==> Initial(elements[i], i)
    {
      var y := 0;
      ghost var filled := 0;
      while y < rows
        invariant 0 <= y <= rows && filled == y * cols && filled <= elements.Length
        invariant forall i :: 0 <= i < filled ==> Initial(elements[i], i)
      {
        var x := 0;
        while x < cols
          invariant 0 <= x <= cols && filled == y * cols + x && filled <= elements.Length
          invariant forall i :: 0 <= i < filled ==> Initial(elements[i], i)
        {
          var index := GenerateIndex(x, y);
          assert index == filled && CoordOf(index) == Point(x, y);
          elements[index] := NewTile(x, y, pitch);
          x := x + 1;
          filled := filled + 1;
        }
        assert y * cols + cols == (y + 1) * cols;
        y := y + 1;
      }
    }

    /** generate_index: the row-major slot of (x, y); it round-trips with CoordOf inside the board. */
    function GenerateIndex(x: int, y: int): (i: int)
      ensures InBounds(Point(x, y), cols, rows) ==> 0 <= i < cols * rows && CoordOf(i) == Point(x, y)
      ensures i == Shape().IndexOf(x, y)
    {
      assert Shape().IndexOf(x, y) == Shape().Pack(x, y) == y * cols + x;
      y * cols + x
    }

    /** get_tile: the slot of (x, y) when it is on the board, nothing otherwise; it never fails. */
    function GetTile(x: int, y: int): (r: Option<nat>)
      ensures r.Some? <==> InBounds(Point(x, y), cols, rows)
      ensures r.Some? ==> r.value < cols * rows && CoordOf(r.value) == Point(x, y)
      ensures r == Shape().Lookup(x, y)
    {
      if x >= 0 && x < cols && y >= 0 && y < rows then Some(GenerateIndex(x, y)) else None
    }

    /** The inner loop of set_neighbors: the slots found at the four offsets from pos, in order. */
    method ProbeNeighbors(pos: Point) returns (found: seq<nat>)
      requires orthogonal == Orthogonal
      ensures found == Shape().Found(Theoretical(pos))
    {
      var theoretical := [pos.Add(orthogonal[0]), pos.Add(orthogonal[1]), pos.Add(orthogonal[2]), pos.Add(orthogonal[3])];
      found := [];
      var k := 0;
      while k < 4
        invariant 0 <= k <= 4
        invariant found == Shape().Found(theoretical[..k])
      {
        var coord := theoretical[k];
        var neighbor := GetTile(coord.x, coord.y);
        assert theoretical[..k + 1][..k] == theoretical[..k];
        if neighbor.Some? {
          found := found + [neighbor.value];
        }
        k := k + 1;
      }
      assert theoretical[..4] == theoretical;
    }

    /** set_neighbors: every slot gets the list of its in-bounds orthogonal neighbours. */
    method SetNeighbors()
      requires cols >= 0 && rows >= 0 && orthogonal == Orthogonal
      requires elements.Length == cols * rows && neighbors.Length == cols * rows
      requires forall i :: 0 <= i < elements.Length ==> Placed(elements[i], i)
      modifies neighbors
      ensures forall i :: 0 <= i < neighbors.Length ==> neighbors[i] == Shape().NeighborList(i)
      ensures forall i, k :: 0 <= i < neighbors.Length && 0 <= k < |neighbors[i]| ==> neighbors[i][k] < elements.Length
    {
      var n := 0;
      while n < elements.Length
        invariant 0 <= n <= elements.Length
        invariant forall i :: 0 <= i < n ==> neighbors[i] == Shape().NeighborList(i)
        invariant forall i, k :: 0 <= i < n && 0 <= k < |neighbors[i]| ==> neighbors[i][k] < elements.Length
      {
        var tile := elements[n];
        var found := ProbeNeighbors(Point(tile.x, tile.y));
        Shape().CoordOfRoundTrip(n);
        Shape().NeighborListBounded(n);
        neighbors[GenerateIndex(tile.x, tile.y)] := found;
        n := n + 1;
      }
    }

    /**
     * get_neighbors(tile, of_states): the recorded neighbours of the tile,
     * or those in one of of_states when it is given.
     */
    method GetNeighbors(tile: nat, ofStates: Option<seq<TileState>>) returns (r: seq<nat>)
      requires Wired() && tile < elements.Length && Placed(elements[tile], tile)
      ensures ofStates.None? ==> r == Shape().NeighborList(tile)
      ensures ofStates.Some? ==> r == Matching(elements[..], Shape().NeighborList(tile), ofStates.value)
    {
      Shape().CoordOfRoundTrip(tile);
      var ns := neighbors[GenerateIndex(elements[tile].x, elements[tile].y)];
      if ofStates.None? {
        return ns;
      }
      var states := ofStates.value;
      r := [];
      var k := 0;
      while k < |ns|
        invariant 0 <= k <= |ns|
        invariant r == Matching(elements[..], ns[..k], states)
      {
        assert ns[..k + 1][..k] == ns[..k];
        if elements[ns[k]].OneOf(states) {
          r := r + [ns[k]];
        }
        k := k + 1;
      }
      assert ns[..k] == ns;
    }

    /**
     * What get_neighbors returns with a state filter: exactly the on-board
     * tiles adjacent to the given one whose state is in the filter, and a
     * subsequence of the recorded list.
     */
    lemma GetNeighborsSpec(tile: int, states: seq<TileState>, j: int)
      requires Valid() && 0 <= tile < elements.Length
      ensures j in Matching(elements[..], neighbors[tile], states) <==>
        0 <= j < elements.Length && Adjacent(CoordOf(tile), CoordOf(j)) && elements[j].OneOf(states)
      ensures IsSubsequence(Matching(elements[..], neighbors[tile], states), neighbors[tile])
    {
      Shape().NeighborListSpec(tile, j);
      MatchingSpec(elements[..], neighbors[tile], states);
    }

    /**
     * find_central_perimeter_tiles: every border tile becomes PADDING, every
     * other tile is left alone, and the result lists the border tiles in the
     * central band, in row-major order.
     */
    method FindCentralPerimeterTiles() returns (r: seq<nat>)
      requires Valid()
      modifies elements
      ensures Valid()
      ensures elements[..] == Padded(Shape(), old(elements[..]))
      ensures r == Shape().CentralUpTo(elements.Length)
    {
      var centerCol := (cols - 1) / 2;
      var centerRow := (rows - 1) / 2;
      var colRange := cols / 3;
      var rowRange := rows / 3;
      var colMin, colMax := centerCol - colRange, centerCol + colRange;
      var rowMin, rowMax := centerRow - rowRange, centerRow + rowRange;
      r := [];
      var i := 0;
      PaddedEnds(Shape(), elements[..]);
      while i < elements.Length
        invariant 0 <= i <= elements.Length
        invariant Valid()
        invariant elements[..] == PaddedUpTo(Shape(), old(elements[..]), i)
        invariant r == Shape().CentralUpTo(i)
      {
        PaddedStep(Shape(), old(elements[..]), i);
        var central := ScanTile(i, colMin, colMax, rowMin, rowMax);
        if central {
          r := r + [i];
        }
        i := i + 1;
      }
    }

    /** One pass of the scan: a border tile becomes PADDING and is reported when it is in the central band. */
    method ScanTile(slot: nat, colMin: int, colMax: int, rowMin: int, rowMax: int) returns (central: bool)
      requires Valid() && slot < elements.Length
      requires colMin == (cols - 1) / 2 - cols / 3 && colMax == (cols - 1) / 2 + cols / 3
      requires rowMin == (rows - 1) / 2 - rows / 3 && rowMax == (rows - 1) / 2 + rows / 3
      modifies elements
      ensures Valid()
      ensures elements[..] == old(elements[..])[slot := PadOne(Shape(), old(elements[..])[slot], slot)]
      ensures central == Shape().CentralPerimeter(slot)
    {
      var tile := elements[slot];
      central := false;
      assert Placed(tile, slot);
      ghost var p := Point(tile.x, tile.y);
      assert CoordOf(slot) == p;
      BandAt(Shape(), slot, p);
      if tile.x == 0 || tile.x == cols - 1 || tile.y == 0 || tile.y == rows - 1 {
        elements[slot] := tile.Become(Padding);
        if (tile.x > colMin && tile.x < colMax) || (tile.y > rowMin && tile.y < rowMax) {
          central := true;
        }
      }
    }
  }

  /** The entries of ns whose tile in cells is in one of states, order kept. */
  function Matching(cells: seq<Tile>, ns: seq<nat>, states: seq<TileState>): (r: seq<nat>)
    requires forall k :: 0 <= k < |ns| ==> ns[k] < |cells|
    ensures forall k :: 0 <= k < |r| ==> r[k] < |cells|
  {
    if ns == [] then []
    else
      var j := ns[|ns| - 1];
      Matching(cells, ns[..|ns| - 1], states) + (if cells[j].OneOf(states) then [j] else [])
  }

  /** The filter keeps exactly the entries whose tile is in one of the given states, order kept. */
  lemma {:induction false} MatchingSpec(cells: seq<Tile>, ns: seq<nat>, states: seq<TileState>)
    requires forall k :: 0 <= k < |ns| ==> ns[k] < |cells|
    ensures IsSubsequence(Matching(cells, ns, states), ns)
    ensures forall j :: j in Matching(cells, ns, states) <==> j in ns && cells[j].OneOf(states)
    decreases |ns|
  {
    if ns != [] {
      var init := ns[..|ns| - 1];
      MatchingSpec(cells, init, states);
      assert ns == init + [ns[|ns| - 1]];
      SubsequenceAppend(Matching(cells, init, states), init, ns[|ns| - 1], cells[ns[|ns| - 1]].OneOf(states));
    }
  }
}
