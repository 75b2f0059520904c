/**
 * model/vector2.rb: a mutable integer vector. `set` and `zero` overwrite the
 * coordinates in place; `add` allocates a new vector.
 */
module Vectors {
  import Points
  import opened Wrappers

  class Vector2 {
    var x: int
    var y: int

    /** Vector2.new(x = 0, y = 0). */
    constructor (x0: int := 0, y0: int := 0)
      ensures x == x0 && y == y0
    {
      x, y := x0, y0;
    }

    /** Overwrites both coordinates. */
    method Set(nx: int, ny: int)
      modifies this
      ensures x == nx && y == ny
    {
      x := nx;
      y := ny;
    }

    /** `zero?`: the vector is the origin. */
    predicate IsZero()
      reads this
      ensures IsZero() <==> AsPoint() == Points.Origin
    {
      x == 0 && y == 0
    }

    /** Zeroes the vector in place; afterwards `zero?` holds. */
    method Zero()
      modifies this
      ensures IsZero()
      ensures x == 0 && y == 0
    {
      x := 0;
      y := 0;
    }

    /** A new vector with the componentwise sums; neither operand changes. */
    method Add(other: Vector2) returns (r: Vector2)
      ensures fresh(r)
      ensures r.x == x + other.x && r.y == y + other.y
      ensures r.AsPoint() == AsPoint().Add(other.AsPoint())
    {
      r := new Vector2(x + other.x, y + other.y);
    }

    /** The "x y" rendering, the same format as a Point's. */
    function String(): (s: string)
      reads this
      ensures Points.ParsePoint(s) == Some(AsPoint())
    {
      AsPoint().String()
    }

    /** The coordinates as an immutable point value. */
    function AsPoint(): Points.Point
      reads this
    {
      Points.Point(x, y)
    }
  }
}
