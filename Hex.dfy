/**
 * Axial hexagonal coordinates, standing in for the coordinate library the
 * game is built on. A coordinate is the pair (x, y); the third cube
 * coordinate is z = -x - y.
 */
module Hex {
  import opened Wrappers

  datatype Coord = Coord(x: int, y: int)

  const Origin := Coord(0, 0)

  function Z(c: Coord): int { -c.x - c.y }

  function Abs(n: int): int { if n < 0 then -n else n }

  function Max3(a: int, b: int, c: int): int {
    if a >= b && a >= c then a else if b >= c then b else c
  }

  function Min3(a: int, b: int, c: int): int {
    if a <= b && a <= c then a else if b <= c then b else c
  }

  /** The six directions, clockwise: YZ, XZ, XY, ZY, ZX, YX (`Direction::all`). */
  type Direction = d: int | 0 <= d < 6

  const YZ: Direction := 0
  const XZ: Direction := 1
  const XY: Direction := 2
  const ZY: Direction := 3
  const ZX: Direction := 4
  const YX: Direction := 5

  /** A rotation: Forward, Right, RightBack, Back, LeftBack, Left. */
  type Angle = a: int | 0 <= a < 6

  const Forward: Angle := 0
  const Right: Angle := 1
  const Left: Angle := 5

  /** `Direction + Angle`: turn a direction clockwise by the angle. */
  function Turn(d: Direction, a: Angle): Direction { (d + a) % 6 }

  /** `to - from`: the angle that turns `from` into `to`. */
  function AngleBetween(from: Direction, to: Direction): (a: Angle)
    ensures Turn(from, a) == to
    ensures a == Forward <==> from == to
  {
    (to - from) % 6
  }

  function Unit(d: Direction): Coord {
    match d
    case 0 => Coord(0, 1)
    case 1 => Coord(1, 0)
    case 2 => Coord(1, -1)
    case 3 => Coord(0, -1)
    case 4 => Coord(-1, 0)
    case 5 => Coord(-1, 1)
  }

  /** `c + d`: the neighbour of `c` in direction `d`. */
  function Step(c: Coord, d: Direction): Coord {
    Coord(c.x + Unit(d).x, c.y + Unit(d).y)
  }

  /** The six neighbours of `c`, in the order of `Direction::all`. */
  function Neighbors(c: Coord): (ns: seq<Coord>)
    ensures |ns| == 6
    ensures forall d: Direction :: ns[d] == Step(c, d)
  {
    [Step(c, 0), Step(c, 1), Step(c, 2), Step(c, 3), Step(c, 4), Step(c, 5)]
  }

  /** Hex distance: the largest difference of the three cube coordinates. */
  function Distance(a: Coord, b: Coord): int {
    Max3(Abs(a.x - b.x), Abs(a.y - b.y), Abs(Z(a) - Z(b)))
  }

  /**
   * The distance is never negative, is zero only between equal points, is
   * symmetric, and is half the sum of the three cube differences (the form
   * the coordinate library computes).
   */
  lemma DistanceFacts(a: Coord, b: Coord)
    ensures Distance(a, b) >= 0
    ensures Distance(a, b) == 0 <==> a == b
    ensures Distance(a, b) == Distance(b, a)
    ensures 2 * Distance(a, b) == Abs(a.x - b.x) + Abs(a.y - b.y) + Abs(Z(a) - Z(b))
  {
  }

  /** The ring of a cell is its distance from the centre. */
  lemma RingIsDistanceFromOrigin(c: Coord)
    ensures Ring(c) == Distance(c, Origin)
  {
  }

  /** Distance from the centre of the board: the largest cube coordinate. */
  function Ring(c: Coord): int { Max3(Abs(c.x), Abs(c.y), Abs(Z(c))) }

  predicate Adjacent(a: Coord, b: Coord) { Distance(a, b) == 1 }

  /** Two cells are adjacent exactly when one is a neighbour of the other. */
  lemma AdjacentIffStep(a: Coord, b: Coord)
    ensures Adjacent(a, b) <==> exists d: Direction :: Step(a, d) == b
    ensures Adjacent(a, b) <==> Adjacent(b, a)
  {
    if Adjacent(a, b) {
      var d: Direction :=
        if Step(a, 0) == b then 0 else if Step(a, 1) == b then 1
        else if Step(a, 2) == b then 2 else if Step(a, 3) == b then 3
        else if Step(a, 4) == b then 4 else 5;
      assert Step(a, d) == b;
    }
  }

  /** The direction pointing back. */
  function Opposite(d: Direction): Direction { (d + 3) % 6 }

  /** Stepping forth and back returns to the start. */
  lemma StepBack(c: Coord, d: Direction)
    ensures Step(Step(c, d), Opposite(d)) == c
  {
  }

  /** Every step goes to an adjacent cell. */
  lemma StepAdjacent(c: Coord, d: Direction)
    ensures Adjacent(c, Step(c, d)) && Adjacent(Step(c, d), c)
  {
  }

  /** The direction from `a` to an adjacent `b` (the first of `directions_to`). */
  function DirectionTo(a: Coord, b: Coord): (d: Direction)
    requires Adjacent(a, b)
    ensures Step(a, d) == b
  {
    if Step(a, 0) == b then 0
    else if Step(a, 1) == b then 1
    else if Step(a, 2) == b then 2
    else if Step(a, 3) == b then 3
    else if Step(a, 4) == b then 4
    else 5
  }

  /**
   * The direction of the sector `c` lies in, seen from the centre; on a
   * boundary between two sectors the clockwise one is preferred.
   */
  function DirectionFromCenterCw(c: Coord): Option<Direction> {
    var x, y, z := c.x, c.y, Z(c);
    var xy := if z < 0 then x >= y else x > y;
    var yz := if x < 0 then y >= z else y > z;
    var zx := if y < 0 then z >= x else z > x;
    if xy && yz && !zx then Some(XZ)
    else if xy && !yz && !zx then Some(XY)
    else if xy && !yz && zx then Some(ZY)
    else if !xy && !yz && zx then Some(ZX)
    else if !xy && yz && zx then Some(YX)
    else if !xy && yz && !zx then Some(YZ)
    else None
  }

  /** Only the centre has no direction from the centre. */
  lemma DirectionFromCenterNoneIffOrigin(c: Coord)
    ensures DirectionFromCenterCw(c).None? <==> c == Origin
  {
    // None is left exactly when the three comparisons agree, and they can
    // only agree when x, y and z are equal, hence all zero.
    var x, y, z := c.x, c.y, Z(c);
    var xy := if z < 0 then x >= y else x > y;
    var yz := if x < 0 then y >= z else y > z;
    var zx := if y < 0 then z >= x else z > x;
    assert DirectionFromCenterCw(c).None? <==> (xy == yz && yz == zx);
    assert (xy ==> x >= y) && (!xy ==> x <= y);
    assert (yz ==> y >= z) && (!yz ==> y <= z);
    assert (zx ==> z >= x) && (!zx ==> z <= x);
  }

  /** Every cube coordinate of `c` lies within r of zero. */
  predicate Within(c: Coord, r: int) {
    -r <= c.x <= r && -r <= c.y <= r && -r <= c.x + c.y <= r
  }

  lemma RingWithin(c: Coord, r: int)
    ensures Ring(c) <= r <==> Within(c, r)
  {
  }

  /** The coordinates (x, lo) .. (x, hi). */
  function Row(x: int, lo: int, hi: int): (s: seq<Coord>)
    ensures forall c :: c in s <==> c.x == x && lo <= c.y <= hi
    decreases hi - lo
  {
    if lo > hi then [] else [Coord(x, lo)] + Row(x, lo + 1, hi)
  }

  function Max(a: int, b: int): int { if a < b then b else a }
  function Min(a: int, b: int): int { if a < b then a else b }

  lemma RowWithin(x: int, r: int)
    requires -r <= x <= r
    ensures forall c :: c in Row(x, Max(-r, -x - r), Min(r, r - x)) <==> c.x == x && Within(c, r)
  {
    forall c ensures c in Row(x, Max(-r, -x - r), Min(r, r - x)) <==> c.x == x && Within(c, r) {
      assert c.x == x ==> (Max(-r, -x - r) <= c.y <= Min(r, r - x) <==> Within(c, r));
    }
  }

  /** The rows x .. r of the hexagon of radius r around the centre. */
  function Rows(r: int, x: int): (s: seq<Coord>)
    requires -r <= x
    ensures forall c :: c in s <==> x <= c.x && Within(c, r)
    decreases r - x
  {
    if x > r then []
    else
      RowWithin(x, r);
      Row(x, Max(-r, -x - r), Min(r, r - x)) + Rows(r, x + 1)
  }

  /**
   * Every coordinate within distance r of the centre (`range_iter`), row by
   * row.
   */
  function Range(r: int): (s: seq<Coord>)
    ensures forall c :: c in s <==> Ring(c) <= r
  {
    forall c ensures Ring(c) <= r <==> Within(c, r) { RingWithin(c, r); }
    Rows(r, -r)
  }

  /** The coordinates of `s` at exactly distance `d` from the centre, in order. */
  function OnRing(s: seq<Coord>, d: int): (t: seq<Coord>)
    ensures forall c :: c in t <==> c in s && Ring(c) == d
  {
    if s == [] then []
    else (if Ring(s[0]) == d then [s[0]] else []) + OnRing(s[1..], d)
  }

  /** The ring of coordinates at distance d from the centre (`ring_iter`). */
  function RingCells(d: int): (s: seq<Coord>)
    ensures forall c :: c in s <==> Ring(c) == d
  {
    OnRing(Range(d), d)
  }
}
