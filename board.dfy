/**
 * The geometry shared by model/grid.rb and processing/dungeon.rb: a board of
 * cols x rows tiles packed into one arena, either row by row (Grid's
 * `@elements`) or column by column (Dungeon's `@grid[x][y]`), and the
 * neighbour list both record for each tile by probing the four orthogonal
 * offsets in order and keeping the hits.
 */
module Boards {
  import opened Wrappers
  import opened Points
  import opened Layout
  import opened Seqs

  datatype Order = RowMajor | ColumnMajor

  datatype Board = Board(cols: int, rows: int, order: Order)
  {
    predicate WellFormed()
    {
      cols >= 0 && rows >= 0
    }

    /** The number of slots. */
    function Size(): (n: nat)
      requires WellFormed()
      ensures n == cols * rows
    {
      ProductNonNegative(cols, rows);
      cols * rows
    }

    /** The coordinates of arena slot i. */
    function CoordOf(i: int): Point
    {
      match order
      case RowMajor => if cols <= 0 then Point(0, 0) else Point(i % cols, i / cols)
      case ColumnMajor => if rows <= 0 then Point(0, 0) else Point(i / rows, i % rows)
    }

    /** The arena slot of (x, y); inside the board it round-trips with CoordOf. */
    function IndexOf(x: int, y: int): (i: int)
      ensures InBounds(Point(x, y), cols, rows) ==> 0 <= i < cols * rows && CoordOf(i) == Point(x, y)
    {
      PackFacts(x, y);
      Pack(x, y)
    }

    function Pack(x: int, y: int): int
    {
      match order
      case RowMajor => y * cols + x
      case ColumnMajor => x * rows + y
    }

    lemma PackFacts(x: int, y: int)
      ensures InBounds(Point(x, y), cols, rows) ==> 0 <= Pack(x, y) < cols * rows && CoordOf(Pack(x, y)) == Point(x, y)
    {
      if InBounds(Point(x, y), cols, rows) {
        match order
        case RowMajor =>
          PackUnpack(cols, y, x);
          PackBound(cols, rows, y, x);
        case ColumnMajor =>
          PackUnpack(rows, x, y);
          PackBound(rows, cols, x, y);
      }
    }

    /** Every slot of the board is the slot of its own coordinates. */
    lemma CoordOfRoundTrip(i: int)
      requires WellFormed() && 0 <= i < cols * rows
      ensures InBounds(CoordOf(i), cols, rows) && IndexOf(CoordOf(i).x, CoordOf(i).y) == i
    {
      ProductPositive(cols, rows);
      match order
      case RowMajor => UnpackBound(cols, rows, i);
      case ColumnMajor => UnpackBound(rows, cols, i);
    }

    /** A bounds-checked lookup: the slot of (x, y) when it is on the board. */
    function Lookup(x: int, y: int): (r: Option<nat>)
      ensures r.Some? <==> InBounds(Point(x, y), cols, rows)
      ensures r.Some? ==> r.value < cols * rows && CoordOf(r.value) == Point(x, y)
    {
      if InBounds(Point(x, y), cols, rows) then Some(IndexOf(x, y)) else None
    }

    /** Looking up the coordinates of a slot finds that slot, and only that slot. */
    lemma LookupCoord(i: int)
      requires WellFormed() && 0 <= i < cols * rows
      ensures Lookup(CoordOf(i).x, CoordOf(i).y) == Some(i)
    {
      CoordOfRoundTrip(i);
    }

    /** The slots the lookup finds for ps, in order, skipping the misses. */
    function Found(ps: seq<Point>): (r: seq<nat>)
      ensures |r| <= |ps|
    {
      if ps == [] then []
      else
        var q := ps[|ps| - 1];
        Found(ps[..|ps| - 1]) + (match Lookup(q.x, q.y) case Some(j) => [j] case None => [])
    }

    /** The neighbour list recorded for slot i. */
    function NeighborList(i: int): seq<nat>
    {
      Found(Theoretical(CoordOf(i)))
    }

    /** A slot is found for ps exactly when it is on the board and its coordinates are in ps. */
    lemma {:induction false} FoundSpec(ps: seq<Point>, j: int)
      requires WellFormed()
      ensures j in Found(ps) <==> 0 <= j < cols * rows && CoordOf(j) in ps
      decreases |ps|
    {
      if ps != [] {
        var init, q := ps[..|ps| - 1], ps[|ps| - 1];
        FoundSpec(init, j);
        assert ps == init + [q];
        if 0 <= j < cols * rows && CoordOf(j) == q {
          LookupCoord(j);
        }
      }
    }

    /** Found keeps exactly the in-bounds points, so it is as long as KeepInBounds. */
    lemma {:induction false} FoundLength(ps: seq<Point>)
      ensures |Found(ps)| == |KeepInBounds(ps, cols, rows)|
      decreases |ps|
    {
      if ps != [] {
        FoundLength(ps[..|ps| - 1]);
      }
    }

    /** Distinct points give distinct slots. */
    lemma {:induction false} FoundDistinct(ps: seq<Point>)
      requires WellFormed() && Distinct(ps)
      ensures Distinct(Found(ps))
      decreases |ps|
    {
      if ps != [] {
        var init, q := ps[..|ps| - 1], ps[|ps| - 1];
        FoundDistinct(init);
        var tail: seq<nat> := match Lookup(q.x, q.y) case Some(j) => [j] case None => [];
        if Lookup(q.x, q.y).Some? {
          var j := Lookup(q.x, q.y).value;
          FoundSpec(init, j);
          assert q !in init by {
            assert ps == init + [q];
          }
        }
        DistinctConcat(Found(init), tail);
      }
    }

    /** A recorded neighbour is exactly an on-board slot orthogonally adjacent to i. */
    lemma NeighborListSpec(i: int, j: int)
      requires WellFormed()
      ensures j in NeighborList(i) <==> 0 <= j < cols * rows && Adjacent(CoordOf(i), CoordOf(j))
    {
      var p := CoordOf(i);
      FoundSpec(Theoretical(p), j);
      if 0 <= j < cols * rows {
        CoordOfRoundTrip(j);
        NeighborCoordsSpec(p, CoordOf(j), cols, rows);
      }
    }

    /** Every recorded neighbour is a slot of the board. */
    lemma NeighborListBounded(i: int)
      requires WellFormed()
      ensures forall k :: 0 <= k < |NeighborList(i)| ==> NeighborList(i)[k] < cols * rows
    {
      forall k | 0 <= k < |NeighborList(i)| ensures NeighborList(i)[k] < cols * rows {
        NeighborListSpec(i, NeighborList(i)[k]);
      }
    }

    /** Adjacency is symmetric: j is a neighbour of i iff i is a neighbour of j. */
    lemma NeighborSymmetric(i: int, j: int)
      requires WellFormed() && 0 <= i < cols * rows && 0 <= j < cols * rows
      ensures j in NeighborList(i) <==> i in NeighborList(j)
    {
      NeighborListSpec(i, j);
      NeighborListSpec(j, i);
    }

    /** No tile is its own neighbour. */
    lemma NeighborIrreflexive(i: int)
      requires WellFormed()
      ensures i !in NeighborList(i)
    {
      NeighborListSpec(i, i);
    }

    /** On a board of at least 2x2, a corner has 2 neighbours, another border tile 3 and an interior tile 4. */
    lemma NeighborListCount(i: int)
      requires cols >= 2 && rows >= 2 && 0 <= i < cols * rows
      ensures |NeighborList(i)| == 4 - BorderSides(CoordOf(i), cols, rows)
    {
      CoordOfRoundTrip(i);
      FoundLength(Theoretical(CoordOf(i)));
      NeighborCount(CoordOf(i), cols, rows);
    }

    /** No neighbour is recorded twice. */
    lemma NeighborListDistinct(i: int)
      requires WellFormed()
      ensures Distinct(NeighborList(i))
    {
      var t := Theoretical(CoordOf(i));
      assert Distinct(t);
      FoundDistinct(t);
    }

    /** The border-and-central-band test both routines apply to slot i. */
    predicate CentralPerimeter(i: nat)
    {
      OnBorder(CoordOf(i), cols, rows) && InCentralBand(CoordOf(i), cols, rows)
    }

    /** The slots below n that pass the test, in arena order. */
    function CentralUpTo(n: nat): (r: seq<nat>)
      ensures |r| <= n
    {
      if n == 0 then [] else CentralUpTo(n - 1) + (if CentralPerimeter(n - 1) then [n - 1] else [])
    }

    /** One more slot extends the list by that slot exactly when it passes. */
    lemma CentralNext(n: nat)
      ensures CentralUpTo(n + 1) == CentralUpTo(n) + (if CentralPerimeter(n) then [n] else [])
    {
    }

    /**
     * The central perimeter slots of an n-slot board, in arena order: exactly
     * the border slots in the central band, each listed once, ascending.
     */
    lemma {:induction false} CentralPerimeterSpec(n: nat, j: nat)
      ensures j in CentralUpTo(n) <==> j < n && OnBorder(CoordOf(j), cols, rows) && InCentralBand(CoordOf(j), cols, rows)
      ensures Increasing(CentralUpTo(n))
    {
      if n > 0 {
        CentralPerimeterSpec(n - 1, j);
        var s := CentralUpTo(n - 1);
        var r := CentralUpTo(n);
        forall a, b | 0 <= a < b < |r| ensures r[a] < r[b] {
          if b < |s| {
            assert r[a] == s[a] && r[b] == s[b];
          } else {
            assert r[a] == s[a] && s[a] in s;
            CentralPerimeterSpec(n - 1, s[a]);
          }
        }
      }
    }

    /** Column by column, the arena order is the order of (x, y) pairs. */
    lemma ColumnMajorOrder(p: Point, q: Point)
      requires order == ColumnMajor && InBounds(p, cols, rows) && InBounds(q, cols, rows)
      requires p.x < q.x || (p.x == q.x && p.y < q.y)
      ensures IndexOf(p.x, p.y) < IndexOf(q.x, q.y)
    {
      PackOrder(rows, p.x, p.y, q.x, q.y);
    }
  }
}
