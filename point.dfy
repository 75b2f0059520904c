/**
 * model/point.rb: an immutable integer coordinate pair. Its readers are the
 * only accessors, so a value datatype models it exactly.
 */
module Points {
  import opened Wrappers

  datatype Point = Point(x: int, y: int) {

    /** A fresh point holding the componentwise sums (model/point.rb:18-20). */
    function Add(other: Point): (r: Point)
      ensures r.x - other.x == x && r.y - other.y == y
    {
      Point(x + other.x, y + other.y)
    }

    /** The rendering "x y": both coordinates in decimal, one space between. */
    function String(): (s: string)
      ensures ParsePoint(s) == Some(this)
      ensures s == IntToString(x) + " " + IntToString(y)
      ensures ' ' !in IntToString(x) && ' ' !in IntToString(y)
    {
      FormatRoundTrip(x, y);
      IntToString(x) + " " + IntToString(y)
    }
  }

  const Origin: Point := Point(0, 0)

  lemma AddOriginIdentity(p: Point)
    ensures p.Add(Origin) == p && Origin.Add(p) == p
  {
  }

  lemma AddCommutative(p: Point, q: Point)
    ensures p.Add(q) == q.Add(p)
  {
  }

  lemma AddAssociative(p: Point, q: Point, r: Point)
    ensures p.Add(q).Add(r) == p.Add(q.Add(r))
  {
  }

  // ---------------------------------------------------------------------------
  // Decimal rendering of integers (Ruby's Integer#to_s) and its inverse.

  predicate IsDigit(c: char) { '0' <= c <= '9' }

  predicate AllDigits(s: string) { forall i :: 0 <= i < |s| ==> IsDigit(s[i]) }

  function DigitChar(d: nat): (c: char)
    requires d < 10
    ensures IsDigit(c)
  {
    ('0' as int + d) as char
  }

  function DigitValue(c: char): (d: nat)
    requires IsDigit(c)
    ensures d < 10
  {
    c as int - '0' as int
  }

  function NatToString(n: nat): (s: string)
    ensures |s| >= 1 && AllDigits(s)
    decreases n
  {
    if n < 10 then [DigitChar(n)] else NatToString(n / 10) + [DigitChar(n % 10)]
  }

  function IntToString(i: int): (s: string)
    ensures ' ' !in s
  {
    if i < 0 then "-" + NatToString(-i) else NatToString(i)
  }

  function ParseNat(s: string): nat
    requires |s| >= 1 && AllDigits(s)
    decreases |s|
  {
    if |s| == 1 then DigitValue(s[0])
    else ParseNat(s[..|s| - 1]) * 10 + DigitValue(s[|s| - 1])
  }

  function ParseInt(s: string): Option<int>
  {
    if |s| >= 2 && s[0] == '-' && AllDigits(s[1..]) then Some(0 - ParseNat(s[1..]) as int)
    else if |s| >= 1 && AllDigits(s) then Some(ParseNat(s))
    else None
  }

  /** Index of the first occurrence of `c` in `s`, or |s| when there is none. */
  function IndexOf(s: string, c: char): (k: nat)
    ensures k <= |s|
    ensures k < |s| ==> s[k] == c
    ensures forall j :: 0 <= j < k ==> s[j] != c
  {
    if s == [] then 0 else if s[0] == c then 0 else 1 + IndexOf(s[1..], c)
  }

  /** Reads back the "x y" rendering: the text before and after the first space. */
  function ParsePoint(s: string): Option<Point>
  {
    var k := IndexOf(s, ' ');
    if k == |s| then None
    else
      match (ParseInt(s[..k]), ParseInt(s[k + 1..]))
      case (Some(x), Some(y)) => Some(Point(x, y))
      case _ => None
  }

  lemma {:induction false} NatRoundTrip(n: nat)
    ensures ParseNat(NatToString(n)) == n
    decreases n
  {
    if n >= 10 {
      var s := NatToString(n);
      var prefix := NatToString(n / 10);
      assert s[..|s| - 1] == prefix;
      NatRoundTrip(n / 10);
      assert DigitValue(s[|s| - 1]) == n % 10;
    }
  }

  lemma IntRoundTrip(i: int)
    ensures ParseInt(IntToString(i)) == Some(i)
  {
    var s := IntToString(i);
    if i < 0 {
      assert s[1..] == NatToString(-i);
      NatRoundTrip(-i);
    } else {
      NatRoundTrip(i);
      assert s[0] != '-';
    }
  }

  lemma FormatRoundTrip(x: int, y: int)
    ensures ParsePoint(IntToString(x) + " " + IntToString(y)) == Some(Point(x, y))
  {
    var sx, sy := IntToString(x), IntToString(y);
    var s := sx + " " + sy;
    IndexOfAfterPrefix(sx, sy);
    assert s[..|sx|] == sx;
    assert s[|sx| + 1..] == sy;
    IntRoundTrip(x);
    IntRoundTrip(y);
  }

  lemma {:induction false} IndexOfAfterPrefix(a: string, b: string)
    requires ' ' !in a
    ensures IndexOf(a + " " + b, ' ') == |a|
    decreases |a|
  {
    if a != [] {
      assert (a + " " + b)[1..] == a[1..] + " " + b;
      IndexOfAfterPrefix(a[1..], b);
    }
  }
}
