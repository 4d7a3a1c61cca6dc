/**
 * The gravity solver: the local fall rule for one cell, its repetition on a
 * bare point, and the facts the whole-board pass relies on.
 */
module Gravity {
  import opened Wrappers
  import opened Hex
  import opened Marbles

  /** The board's marbles (the source's hash map). */
  type MarbleMap = map<Coord, Marble>

  /** `is_in_bounds`: within the board's radius of the centre. */
  predicate InBounds(c: Coord, radius: nat) { Ring(c) <= radius }

  /** `is_solid`: out of bounds or holding a marble. */
  predicate IsSolid(m: MarbleMap, radius: nat, c: Coord) { !InBounds(c, radius) || c in m }

  predicate AllInBounds(m: MarbleMap, radius: nat) {
    forall c :: c in m ==> InBounds(c, radius)
  }

  /** "Down" at c: the sector direction from the centre, or YX at the centre. */
  function GravityDirection(c: Coord): Direction {
    match DirectionFromCenterCw(c)
    case Some(d) => d
    case None => YX
  }

  /** The three cells below c when "down" is g, in the order Forward, Left, Right. */
  function Below(c: Coord, g: Direction): seq<Coord> {
    [Step(c, Turn(g, Forward)), Step(c, Turn(g, Left)), Step(c, Turn(g, Right))]
  }

  /** The three cells below c. */
  function Candidates(c: Coord): seq<Coord> {
    Below(c, GravityDirection(c))
  }

  /** The locals of the loop over the three angles. */
  datatype ScanState = ScanState(shunt: Option<Coord>, solid: nat)

  /**
   * One turn of that loop: remember the first open target, count the solid
   * ones.
   */
  function ScanTarget(m: MarbleMap, radius: nat, s: ScanState, target: Coord): ScanState {
    if InBounds(target, radius) && target !in m then
      ScanState(if s.shunt.None? then Some(target) else s.shunt, s.solid)
    else
      ScanState(s.shunt, s.solid + 1)
  }

  /**
   * The three-angle loop over the cells `cs`: the first open one, unless
   * two or more of them are solid.
   */
  function FirstOpenUnlessPropped(m: MarbleMap, radius: nat, cs: seq<Coord>): (r: Option<Coord>)
    requires |cs| == 3
    ensures r.None? <==>
      (IsSolid(m, radius, cs[0]) && IsSolid(m, radius, cs[1])) ||
      (IsSolid(m, radius, cs[0]) && IsSolid(m, radius, cs[2])) ||
      (IsSolid(m, radius, cs[1]) && IsSolid(m, radius, cs[2]))
    ensures r.Some? ==> r.value == (if !IsSolid(m, radius, cs[0]) then cs[0]
                                    else if !IsSolid(m, radius, cs[1]) then cs[1]
                                    else cs[2])
  {
    var s := ScanTarget(m, radius, ScanTarget(m, radius, ScanTarget(m, radius, ScanState(None, 0), cs[0]), cs[1]), cs[2]);
    if s.solid < 2 then s.shunt else None
  }

  /**
   * `gravity_step`: where a marble at c falls, if it falls. It stays when
   * two or more of the three cells below are solid; otherwise it goes to
   * the first open one, which is an empty in-bounds neighbour of c. The
   * gravity setting plays no part.
   */
  function GravityStep(m: MarbleMap, radius: nat, c: Coord): (r: Option<Coord>)
    ensures var cs := Candidates(c);
      r.None? <==>
        (IsSolid(m, radius, cs[0]) && IsSolid(m, radius, cs[1])) ||
        (IsSolid(m, radius, cs[0]) && IsSolid(m, radius, cs[2])) ||
        (IsSolid(m, radius, cs[1]) && IsSolid(m, radius, cs[2]))
    ensures var cs := Candidates(c);
      r.Some? ==> r.value == (if !IsSolid(m, radius, cs[0]) then cs[0]
                              else if !IsSolid(m, radius, cs[1]) then cs[1]
                              else cs[2])
    ensures r.Some? ==> InBounds(r.value, radius) && r.value !in m
  {
    FirstOpenUnlessPropped(m, radius, Candidates(c))
  }

  /** How far c is from the middle line of its sector. */
  function MinAbs(c: Coord): int { Min3(Abs(c.x), Abs(c.y), Abs(Z(c))) }

  /**
   * One move from c to t goes one ring further out, or stays on the ring
   * and comes one step nearer the middle of the sector.
   */
  predicate Lowers(c: Coord, t: Coord) {
    (Ring(t) == Ring(c) + 1 && MinAbs(t) <= MinAbs(c) + 1) ||
    (Ring(t) == Ring(c) && MinAbs(t) + 1 == MinAbs(c))
  }

  /**
   * The potential gravity lowers: three per ring still inside the rim, plus
   * the distance from the middle of the sector; nothing outside the board.
   */
  function Height(c: Coord, radius: nat): int {
    if InBounds(c, radius) then 3 * (radius - Ring(c)) + MinAbs(c) else 0
  }

  /** Moving from c to each of a, b and d lowers it. */
  predicate LowersAll(c: Coord, a: Coord, b: Coord, d: Coord) {
    Lowers(c, a) && Lowers(c, b) && Lowers(c, d)
  }

  // One lemma per sector of the board: in the sector whose "down" is g, the
  // cube coordinates are ordered as the requires says, and the three cells
  // below are c + g, c + (g turned left) and c + (g turned right).

  lemma ArithYZLowers(x: int, y: int)
    requires y >= x >= -x - y && y > -x - y
    ensures LowersAll(Coord(x, y), Coord(x, y + 1), Coord(x - 1, y + 1), Coord(x + 1, y))
  {
  }

  lemma ArithXZLowers(x: int, y: int)
    requires x >= y >= -x - y && x > -x - y
    ensures LowersAll(Coord(x, y), Coord(x + 1, y), Coord(x, y + 1), Coord(x + 1, y - 1))
  {
  }

  lemma ArithXYLowers(x: int, y: int)
    requires x >= -x - y >= y && x > y
    ensures LowersAll(Coord(x, y), Coord(x + 1, y - 1), Coord(x + 1, y), Coord(x, y - 1))
  {
  }

  lemma ArithZYLowers(x: int, y: int)
    requires -x - y >= x >= y && -x - y > y
    ensures LowersAll(Coord(x, y), Coord(x, y - 1), Coord(x + 1, y - 1), Coord(x - 1, y))
  {
  }

  lemma ArithZXLowers(x: int, y: int)
    requires -x - y >= y >= x && -x - y > x
    ensures LowersAll(Coord(x, y), Coord(x - 1, y), Coord(x, y - 1), Coord(x - 1, y + 1))
  {
  }

  lemma ArithYXLowers(x: int, y: int)
    requires y >= -x - y >= x && y > x
    ensures LowersAll(Coord(x, y), Coord(x - 1, y + 1), Coord(x - 1, y), Coord(x, y + 1))
  {
  }

  /** How the cube coordinates are ordered in each sector. */
  lemma SectorOrder(c: Coord)
    ensures var x, y, z := c.x, c.y, Z(c);
      match DirectionFromCenterCw(c)
      case None => c == Origin
      case Some(g) =>
        (g == YZ ==> y >= x >= z && y > z) &&
        (g == XZ ==> x >= y >= z && x > z) &&
        (g == XY ==> x >= z >= y && x > y) &&
        (g == ZY ==> z >= x >= y && z > y) &&
        (g == ZX ==> z >= y >= x && z > x) &&
        (g == YX ==> y >= z >= x && y > x)
  {
    DirectionFromCenterNoneIffOrigin(c);
  }

  lemma SectorYZLowers(c: Coord)
    requires DirectionFromCenterCw(c) == Some(YZ)
    ensures LowersAll(c, Candidates(c)[0], Candidates(c)[1], Candidates(c)[2])
  {
    var x, y := c.x, c.y;
    assert GravityDirection(c) == YZ;
    assert Candidates(c) == [Coord(x, y + 1), Coord(x - 1, y + 1), Coord(x + 1, y)];
    SectorOrder(c);
    ArithYZLowers(x, y);
  }

  lemma SectorXZLowers(c: Coord)
    requires DirectionFromCenterCw(c) == Some(XZ)
    ensures LowersAll(c, Candidates(c)[0], Candidates(c)[1], Candidates(c)[2])
  {
    var x, y := c.x, c.y;
    assert GravityDirection(c) == XZ;
    assert Candidates(c) == [Coord(x + 1, y), Coord(x, y + 1), Coord(x + 1, y - 1)];
    SectorOrder(c);
    ArithXZLowers(x, y);
  }

  lemma SectorXYLowers(c: Coord)
    requires DirectionFromCenterCw(c) == Some(XY)
    ensures LowersAll(c, Candidates(c)[0], Candidates(c)[1], Candidates(c)[2])
  {
    var x, y := c.x, c.y;
    assert GravityDirection(c) == XY;
    assert Candidates(c) == [Coord(x + 1, y - 1), Coord(x + 1, y), Coord(x, y - 1)];
    SectorOrder(c);
    ArithXYLowers(x, y);
  }

  lemma SectorZYLowers(c: Coord)
    requires DirectionFromCenterCw(c) == Some(ZY)
    ensures LowersAll(c, Candidates(c)[0], Candidates(c)[1], Candidates(c)[2])
  {
    var x, y := c.x, c.y;
    assert GravityDirection(c) == ZY;
    assert Candidates(c) == [Coord(x, y - 1), Coord(x + 1, y - 1), Coord(x - 1, y)];
    SectorOrder(c);
    ArithZYLowers(x, y);
  }

  lemma SectorZXLowers(c: Coord)
    requires DirectionFromCenterCw(c) == Some(ZX)
    ensures LowersAll(c, Candidates(c)[0], Candidates(c)[1], Candidates(c)[2])
  {
    var x, y := c.x, c.y;
    assert GravityDirection(c) == ZX;
    assert Candidates(c) == [Coord(x - 1, y), Coord(x, y - 1), Coord(x - 1, y + 1)];
    SectorOrder(c);
    ArithZXLowers(x, y);
  }

  lemma SectorYXLowers(c: Coord)
    requires DirectionFromCenterCw(c) == Some(YX)
    ensures LowersAll(c, Candidates(c)[0], Candidates(c)[1], Candidates(c)[2])
  {
    var x, y := c.x, c.y;
    assert GravityDirection(c) == YX;
    assert Candidates(c) == [Coord(x - 1, y + 1), Coord(x - 1, y), Coord(x, y + 1)];
    SectorOrder(c);
    ArithYXLowers(x, y);
  }

  /** Every cell below c lowers it, in every sector and at the centre. */
  lemma CandidatesLower(c: Coord)
    ensures LowersAll(c, Candidates(c)[0], Candidates(c)[1], Candidates(c)[2])
  {
    match DirectionFromCenterCw(c)
    case None =>
      DirectionFromCenterNoneIffOrigin(c);
      assert Candidates(c) == [Coord(-1, 1), Coord(-1, 0), Coord(0, 1)];
    case Some(g) =>
      if g == YZ { SectorYZLowers(c); }
      else if g == XZ { SectorXZLowers(c); }
      else if g == XY { SectorXYLowers(c); }
      else if g == ZY { SectorZYLowers(c); }
      else if g == ZX { SectorZXLowers(c); }
      else { SectorYXLowers(c); }
  }

  /**
   * A gravity step only happens in bounds, and it strictly lowers the
   * height, which never goes below zero: so repeated steps stop.
   */
  lemma GravityStepDescends(m: MarbleMap, radius: nat, c: Coord)
    requires GravityStep(m, radius, c).Some?
    ensures InBounds(c, radius)
    ensures 0 <= Height(GravityStep(m, radius, c).value, radius) < Height(c, radius)
  {
    CandidatesLower(c);
  }

  /**
   * `gravity_all`: follow the fall rule from a bare point until it stops.
   * The result is a point that does not fall; a point that does not fall is
   * its own result; from an open in-bounds point the walk only visits open
   * in-bounds points; a point off the board stays where it is.
   */
  function GravityAll(m: MarbleMap, radius: nat, c: Coord): (r: Coord)
    ensures GravityStep(m, radius, r).None?
    ensures GravityStep(m, radius, c).None? ==> r == c
    ensures InBounds(c, radius) && c !in m ==> InBounds(r, radius) && r !in m
    ensures !InBounds(c, radius) ==> r == c
    decreases Height(c, radius)
  {
    match GravityStep(m, radius, c)
    case None => c
    case Some(next) =>
      GravityStepDescends(m, radius, c);
      GravityAll(m, radius, next)
  }

  /** Every marble is at rest. */
  predicate AtRest(m: MarbleMap, radius: nat) {
    forall c :: c in m ==> GravityStep(m, radius, c).None?
  }

  /** The cells holding one colour. */
  function CellsOf(m: MarbleMap, col: Marble): set<Coord> {
    set c | c in m && m[c] == col
  }

  /** How many marbles of one colour there are. */
  function ColorCount(m: MarbleMap, col: Marble): nat {
    |CellsOf(m, col)|
  }

  /** Same number of marbles and the same number of each colour. */
  predicate SameColors(a: MarbleMap, b: MarbleMap) {
    |a| == |b| && forall col :: ColorCount(a, col) == ColorCount(b, col)
  }

  /** Take the marble at `from` and put it down at the empty cell `to`. */
  function Move(m: MarbleMap, from: Coord, to: Coord): (r: MarbleMap)
    requires from in m && to !in m
    ensures r.Keys == m.Keys - {from} + {to} && r[to] == m[from]
    ensures forall c :: c in m && c != from ==> r[c] == m[c]
  {
    (m - {from})[to := m[from]]
  }

  /** Swapping one element of a set for a new one keeps its size. */
  lemma SwapCard(a: set<Coord>, b: set<Coord>, x: Coord, y: Coord)
    requires x in a && y !in a && b == a - {x} + {y}
    ensures |b| == |a|
  {
    var rest := a - {x};
    assert a == rest + {x};
  }

  /** The cells of one colour after a move. */
  lemma CellsOfMove(m: MarbleMap, from: Coord, to: Coord, col: Marble)
    requires from in m && to !in m
    ensures CellsOf(Move(m, from, to), col) ==
      if m[from] == col then CellsOf(m, col) - {from} + {to} else CellsOf(m, col)
  {
  }

  /** Moving a marble keeps the number of marbles of one colour. */
  lemma MoveKeepsColor(m: MarbleMap, from: Coord, to: Coord, col: Marble)
    requires from in m && to !in m
    ensures ColorCount(m, col) == ColorCount(Move(m, from, to), col)
  {
    CellsOfMove(m, from, to, col);
    if m[from] == col {
      SwapCard(CellsOf(m, col), CellsOf(Move(m, from, to), col), from, to);
    }
  }

  /** Moving a marble keeps the number of marbles and of each colour. */
  lemma MoveKeepsColors(m: MarbleMap, from: Coord, to: Coord)
    requires from in m && to !in m
    ensures SameColors(m, Move(m, from, to))
  {
    SwapCard(m.Keys, Move(m, from, to).Keys, from, to);
    forall col ensures ColorCount(m, col) == ColorCount(Move(m, from, to), col) {
      MoveKeepsColor(m, from, to, col);
    }
  }

  /** The sum of the heights of a set of cells. */
  ghost function TotalHeight(s: set<Coord>, radius: nat): int {
    if s == {} then 0
    else
      var c :| c in s;
      Height(c, radius) + TotalHeight(s - {c}, radius)
  }

  /** The sum does not depend on which cell is taken out first. */
  lemma {:induction false} TotalHeightRemove(s: set<Coord>, c: Coord, radius: nat)
    requires c in s
    ensures TotalHeight(s, radius) == Height(c, radius) + TotalHeight(s - {c}, radius)
    decreases |s|
  {
    var d :| d in s && TotalHeight(s, radius) == Height(d, radius) + TotalHeight(s - {d}, radius);
    if d != c {
      TotalHeightRemove(s - {d}, c, radius);
      TotalHeightRemove(s - {c}, d, radius);
      assert s - {d} - {c} == s - {c} - {d};
    }
  }

  lemma {:induction false} TotalHeightNonNegative(s: set<Coord>, radius: nat)
    ensures TotalHeight(s, radius) >= 0
    decreases |s|
  {
    if s != {} {
      var c :| c in s;
      TotalHeightRemove(s, c, radius);
      TotalHeightNonNegative(s - {c}, radius);
    }
  }

  /** A marble that falls lowers the board's total height. */
  lemma MoveLowersHeight(m: MarbleMap, radius: nat, from: Coord)
    requires from in m && GravityStep(m, radius, from).Some?
    ensures var to := GravityStep(m, radius, from).value;
      TotalHeight(Move(m, from, to).Keys, radius) < TotalHeight(m.Keys, radius)
  {
    var to := GravityStep(m, radius, from).value;
    GravityStepDescends(m, radius, from);
    var r := Move(m, from, to);
    TotalHeightRemove(m.Keys, from, radius);
    TotalHeightRemove(r.Keys, to, radius);
    assert r.Keys - {to} == m.Keys - {from};
  }
}
