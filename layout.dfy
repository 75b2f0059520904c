/**
 * Arithmetic shared by model/grid.rb and processing/dungeon.rb: the four
 * orthogonal probe offsets, bounds, the perimeter and central-band tests,
 * and packing 2D coordinates into a 1D arena index.
 */
module Layout {
  import opened Points
  import opened Seqs

  /** The four offsets both grids probe, in this order (grid.rb:24-29, dungeon.rb:24-29). */
  const Orthogonal: seq<Point> := [Point(0, 1), Point(1, 0), Point(0, -1), Point(-1, 0)]

  predicate InBounds(p: Point, cols: int, rows: int)
  {
    0 <= p.x < cols && 0 <= p.y < rows
  }

  function Abs(n: int): nat
  {
    if n < 0 then -n else n
  }

  /** p and q are orthogonal neighbours: one step apart along one axis. */
  predicate Adjacent(p: Point, q: Point)
  {
    Abs(p.x - q.x) + Abs(p.y - q.y) == 1
  }

  /** The four theoretical neighbours of p, in probe order. */
  function Theoretical(p: Point): seq<Point>
  {
    [p.Add(Orthogonal[0]), p.Add(Orthogonal[1]), p.Add(Orthogonal[2]), p.Add(Orthogonal[3])]
  }

  /** q as a one-element list when it is in bounds (the `if neighbor_tile` append). */
  function Probe(q: Point, cols: int, rows: int): seq<Point>
  {
    if InBounds(q, cols, rows) then [q] else []
  }

  /** The in-bounds points of ps, order kept. */
  function KeepInBounds(ps: seq<Point>, cols: int, rows: int): (r: seq<Point>)
    ensures |r| <= |ps|
    ensures forall q :: q in r <==> q in ps && InBounds(q, cols, rows)
  {
    if ps == [] then []
    else KeepInBounds(ps[..|ps| - 1], cols, rows) + Probe(ps[|ps| - 1], cols, rows)
  }

  /** The coordinates of the neighbours a grid records for p. */
  function NeighborCoords(p: Point, cols: int, rows: int): seq<Point>
  {
    KeepInBounds(Theoretical(p), cols, rows)
  }

  lemma NeighborCoordsUnfold(p: Point, cols: int, rows: int)
    ensures var t := Theoretical(p);
      NeighborCoords(p, cols, rows)
      == Probe(t[0], cols, rows) + Probe(t[1], cols, rows) + Probe(t[2], cols, rows) + Probe(t[3], cols, rows)
  {
    var t := Theoretical(p);
    assert KeepInBounds(t[..1], cols, rows) == Probe(t[0], cols, rows) by {
      assert t[..1][..0] == [];
    }
    assert KeepInBounds(t[..2], cols, rows) == KeepInBounds(t[..1], cols, rows) + Probe(t[1], cols, rows) by {
      assert t[..2][..1] == t[..1];
    }
    assert KeepInBounds(t[..3], cols, rows) == KeepInBounds(t[..2], cols, rows) + Probe(t[2], cols, rows) by {
      assert t[..3][..2] == t[..2];
    }
    assert KeepInBounds(t, cols, rows) == KeepInBounds(t[..3], cols, rows) + Probe(t[3], cols, rows) by {
      assert t[..|t| - 1] == t[..3];
    }
  }

  /** A recorded neighbour is exactly an in-bounds orthogonally adjacent point. */
  lemma NeighborCoordsSpec(p: Point, q: Point, cols: int, rows: int)
    ensures q in NeighborCoords(p, cols, rows) <==> InBounds(q, cols, rows) && Adjacent(p, q)
  {
    var t := Theoretical(p);
    if Adjacent(p, q) {
      if q.x == p.x + 1 { assert q == t[1]; }
      else if q.x == p.x - 1 { assert q == t[3]; }
      else if q.y == p.y + 1 { assert q == t[0]; }
      else { assert q == t[2]; }
    }
  }

  /** Number of sides of the grid that p lies on. */
  function BorderSides(p: Point, cols: int, rows: int): nat
  {
    (if p.x == 0 then 1 else 0) + (if p.x == cols - 1 then 1 else 0)
    + (if p.y == 0 then 1 else 0) + (if p.y == rows - 1 then 1 else 0)
  }

  /**
   * In a grid of at least 2x2, a corner has 2 recorded neighbours, another
   * border tile 3 and an interior tile 4.
   */
  lemma NeighborCount(p: Point, cols: int, rows: int)
    requires cols >= 2 && rows >= 2 && InBounds(p, cols, rows)
    ensures |NeighborCoords(p, cols, rows)| == 4 - BorderSides(p, cols, rows)
  {
    NeighborCoordsUnfold(p, cols, rows);
    var t := Theoretical(p);
    var n0, n1, n2, n3 := |Probe(t[0], cols, rows)|, |Probe(t[1], cols, rows)|, |Probe(t[2], cols, rows)|, |Probe(t[3], cols, rows)|;
    ProbeSides(p, cols, rows);
    assert |NeighborCoords(p, cols, rows)| == n0 + n1 + n2 + n3;
    SidesSum(p, cols, rows, n0, n1, n2, n3);
  }

  /** Each probe from an in-bounds point finds a tile unless p lies on the side it points past. */
  lemma ProbeSides(p: Point, cols: int, rows: int)
    requires InBounds(p, cols, rows)
    ensures var t := Theoretical(p);
      && |Probe(t[0], cols, rows)| == (if p.y == rows - 1 then 0 else 1)
      && |Probe(t[1], cols, rows)| == (if p.x == cols - 1 then 0 else 1)
      && |Probe(t[2], cols, rows)| == (if p.y == 0 then 0 else 1)
      && |Probe(t[3], cols, rows)| == (if p.x == 0 then 0 else 1)
  {
    var t := Theoretical(p);
    assert t[0] == Point(p.x, p.y + 1) && t[1] == Point(p.x + 1, p.y);
    assert t[2] == Point(p.x, p.y - 1) && t[3] == Point(p.x - 1, p.y);
  }

  lemma SidesSum(p: Point, cols: int, rows: int, n0: int, n1: int, n2: int, n3: int)
    requires n0 == (if p.y == rows - 1 then 0 else 1) && n1 == (if p.x == cols - 1 then 0 else 1)
    requires n2 == (if p.y == 0 then 0 else 1) && n3 == (if p.x == 0 then 0 else 1)
    ensures n0 + n1 + n2 + n3 == 4 - BorderSides(p, cols, rows)
  {
  }

  /** The four theoretical neighbours are pairwise different, so recorded lists have no repeats. */
  lemma NeighborCoordsDistinct(p: Point, cols: int, rows: int)
    ensures Distinct(NeighborCoords(p, cols, rows))
  {
    KeepInBoundsDistinct(Theoretical(p), cols, rows);
  }

  lemma {:induction false} KeepInBoundsDistinct(ps: seq<Point>, cols: int, rows: int)
    requires Distinct(ps)
    ensures Distinct(KeepInBounds(ps, cols, rows))
    decreases |ps|
  {
    if ps != [] {
      var init := ps[..|ps| - 1];
      KeepInBoundsDistinct(init, cols, rows);
      assert ps[|ps| - 1] !in init;
      DistinctConcat(KeepInBounds(init, cols, rows), Probe(ps[|ps| - 1], cols, rows));
    }
  }

  // ---------------------------------------------------------------------------
  // Packing (major, minor) into major * n + minor, as `y * cols + x` (row-major)
  // and `@grid[x][y]` (column-major) both do.

  lemma MulAtLeast(k: int, n: int)
    requires k >= 1 && n >= 0
    ensures k * n >= n
  {
    assert k * n == (k - 1) * n + n;
    assert (k - 1) * n >= 0;
  }

  /** Division and remainder recover both halves of a packed pair. */
  lemma PackUnpack(n: int, major: int, minor: int)
    requires 0 <= minor < n && 0 <= major
    ensures (major * n + minor) / n == major && (major * n + minor) % n == minor
  {
    var i := major * n + minor;
    var q, r := i / n, i % n;
    assert i == q * n + r && 0 <= r < n;
    assert (major - q) * n == r - minor;
    if major - q >= 1 {
      MulAtLeast(major - q, n);
    } else if q - major >= 1 {
      MulAtLeast(q - major, n);
    }
  }

  /** A packed in-range pair is a valid index of an n * m arena. */
  lemma PackBound(n: int, m: int, major: int, minor: int)
    requires 0 <= minor < n && 0 <= major < m
    ensures 0 <= major * n + minor < m * n
  {
    MulAtLeast(m - major, n);
    assert m * n == major * n + (m - major) * n;
    assert major * n >= 0;
  }

  /** Every index of an n * m arena unpacks to an in-range pair. */
  lemma UnpackBound(n: int, m: int, i: int)
    requires 0 < n && 0 <= m && 0 <= i < m * n
    ensures 0 <= i % n < n && 0 <= i / n < m && (i / n) * n + i % n == i
  {
  }

  /** Packing preserves the lexicographic order of (major, minor) pairs. */
  lemma PackOrder(n: int, major1: int, minor1: int, major2: int, minor2: int)
    requires 0 <= minor1 < n && 0 <= minor2 < n
    requires major1 < major2 || (major1 == major2 && minor1 < minor2)
    ensures major1 * n + minor1 < major2 * n + minor2
  {
    if major1 < major2 {
      MulAtLeast(major2 - major1, n);
      assert major2 * n == major1 * n + (major2 - major1) * n;
    }
  }

  lemma ProductNonNegative(n: int, m: int)
    requires 0 <= n && 0 <= m
    ensures n * m >= 0
  {
    if n >= 1 {
      MulAtLeast(n, m);
    }
  }

  lemma ProductPositive(n: int, m: int)
    requires 0 <= n && 0 <= m && n * m > 0
    ensures n > 0 && m > 0
  {
  }

  // ---------------------------------------------------------------------------
  // The outer ring and its central band (grid.rb:104-126, dungeon.rb:54-79).

  predicate OnBorder(p: Point, cols: int, rows: int)
  {
    p.x == 0 || p.x == cols - 1 || p.y == 0 || p.y == rows - 1
  }

  /**
   * center = (n - 1) / 2 and range = n / 3 on each axis; a tile is central
   * when strictly inside the band of either axis. Ruby's `/` floors; for the
   * positive divisors used here that agrees with Dafny's `/`.
   */
  predicate InCentralBand(p: Point, cols: int, rows: int)
  {
    var colMin := (cols - 1) / 2 - cols / 3;
    var colMax := (cols - 1) / 2 + cols / 3;
    var rowMin := (rows - 1) / 2 - rows / 3;
    var rowMax := (rows - 1) / 2 + rows / 3;
    (colMin < p.x < colMax) || (rowMin < p.y < rowMax)
  }
}
