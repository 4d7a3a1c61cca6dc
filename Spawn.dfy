/**
 * Where the next marble appears: a wall-following step from the previous
 * spawn point, falling back to the nearest empty cell, and then shunted
 * outwards by gravity.
 */
module Spawn {
  import opened Wrappers
  import opened Hex
  import opened Marbles
  import opened Gravity

  /**
   * Keep the left hand on the wall: the cell ahead in direction d is open
   * while the cell one turn to its left is solid.
   */
  predicate WallHug(m: MarbleMap, radius: nat, prev: Coord, d: Direction) {
    !IsSolid(m, radius, Step(prev, d)) && IsSolid(m, radius, Step(prev, Turn(d, Left)))
  }

  /**
   * The loop over `Direction::all` from direction `from` on: the first
   * direction that hugs the wall.
   */
  function WallFollow(m: MarbleMap, radius: nat, prev: Coord, from: nat): (r: Option<Direction>)
    requires from <= 6
    ensures r.Some? ==> from <= r.value && WallHug(m, radius, prev, r.value)
    ensures r.Some? ==> forall d: Direction :: from <= d < r.value ==> !WallHug(m, radius, prev, d)
    ensures r.None? ==> forall d: Direction :: from <= d ==> !WallHug(m, radius, prev, d)
    decreases 6 - from
  {
    if from == 6 then None
    else if WallHug(m, radius, prev, from) then Some(from)
    else WallFollow(m, radius, prev, from + 1)
  }

  /**
   * `min_by_key(key)` over the empty cells of `cs`: the first of those
   * with the least key.
   */
  function NearestEmpty(m: MarbleMap, cs: seq<Coord>, key: Coord -> int): Option<Coord> {
    if cs == [] then None
    else
      var rest := NearestEmpty(m, cs[1..], key);
      if cs[0] !in m && (rest.None? || key(cs[0]) <= key(rest.value)) then Some(cs[0])
      else rest
  }

  /**
   * There is a least empty cell exactly when `cs` has an empty cell; it is
   * one of them, and no other has a smaller key.
   */
  lemma {:induction false} NearestEmptyIsNearest(m: MarbleMap, cs: seq<Coord>, key: Coord -> int)
    ensures var r := NearestEmpty(m, cs, key);
      && (r.None? <==> forall c :: c in cs ==> c in m)
      && (r.Some? ==> r.value in cs && r.value !in m)
      && (r.Some? ==> forall c :: c in cs && c !in m ==> key(r.value) <= key(c))
  {
    if cs != [] {
      NearestEmptyIsNearest(m, cs[1..], key);
      assert forall c :: c in cs <==> c == cs[0] || c in cs[1..];
    }
  }

  /** Every empty cell with a key as small comes no earlier in `cs` (the first minimum is taken). */
  lemma {:induction false} NearestEmptyIsFirst(m: MarbleMap, cs: seq<Coord>, key: Coord -> int)
    ensures var r := NearestEmpty(m, cs, key);
      r.Some? ==> forall j :: 0 <= j < |cs| && cs[j] !in m && key(cs[j]) <= key(r.value) ==> r.value in cs[..j + 1]
  {
    if cs != [] {
      var t := cs[1..];
      NearestEmptyIsFirst(m, t, key);
      NearestEmptyIsNearest(m, t, key);
      var r := NearestEmpty(m, cs, key);
      var rest := NearestEmpty(m, t, key);
      if r.Some? && r.value != cs[0] {
        assert r == rest;
        forall j | 0 <= j < |cs| && cs[j] !in m && key(cs[j]) <= key(r.value)
          ensures r.value in cs[..j + 1]
        {
          if j == 0 {
            assert false;
          }
          assert key(t[j - 1]) <= key(r.value);
          TailPrefix(cs, j, r.value);
        }
      } else if r.Some? {
        forall j | 0 <= j < |cs| && cs[j] !in m && key(cs[j]) <= key(r.value)
          ensures r.value in cs[..j + 1]
        {
          assert cs[..j + 1][0] == cs[0];
        }
      }
    }
  }

  /** A cell among the first j cells after the head is among the first j + 1. */
  lemma TailPrefix(cs: seq<Coord>, j: int, x: Coord)
    requires 1 <= j < |cs| && x in cs[1..][..j]
    ensures x in cs[..j + 1]
  {
    assert cs[1..][..j] == cs[1..j + 1];
  }

  /**
   * `find_next_spawnpoint`: the wall-following cell if there is one,
   * otherwise the nearest empty cell of the board, shunted by gravity (even
   * when the board has no gravity).
   */
  function NextSpawnpoint(m: MarbleMap, radius: nat, prev: Coord): Option<Coord> {
    var pos := match WallFollow(m, radius, prev, 0)
      case Some(d) => Some(Step(prev, d))
      case None => NearestEmpty(m, Range(radius), c => Distance(c, prev));
    match pos
    case Some(p) => Some(GravityAll(m, radius, p))
    case None => None
  }

  /**
   * The spawn point is an empty cell of the board where gravity would not
   * move it any further, and there is none exactly when the board is full.
   */
  lemma NextSpawnpointEmpty(m: MarbleMap, radius: nat, prev: Coord)
    ensures var r := NextSpawnpoint(m, radius, prev);
      && (r.Some? ==> InBounds(r.value, radius) && r.value !in m && GravityStep(m, radius, r.value).None?)
      && (r.None? <==> forall c :: InBounds(c, radius) ==> c in m)
  {
    var w := WallFollow(m, radius, prev, 0);
    if w.None? {
      NearestEmptyIsNearest(m, Range(radius), c => Distance(c, prev));
      var n := NearestEmpty(m, Range(radius), c => Distance(c, prev));
      if n.Some? {
        assert Ring(n.value) <= radius;
      } else {
        forall c | InBounds(c, radius) ensures c in m {
          assert c in Range(radius);
        }
      }
    } else {
      var ahead := Step(prev, w.value);
      assert InBounds(ahead, radius) && ahead !in m;
    }
  }

  /**
   * When some direction hugs the wall the spawn point is the first such
   * neighbour of `prev` (in `Direction::all` order), shunted by gravity.
   */
  lemma NextSpawnpointFollowsWall(m: MarbleMap, radius: nat, prev: Coord, d: Direction)
    requires WallHug(m, radius, prev, d)
    requires forall e: Direction :: e < d ==> !WallHug(m, radius, prev, e)
    ensures NextSpawnpoint(m, radius, prev) == Some(GravityAll(m, radius, Step(prev, d)))
  {
    var w := WallFollow(m, radius, prev, 0);
    assert w.Some?;
    assert w.value == d;
  }

  /**
   * When no direction hugs the wall but the board has an empty cell, the
   * spawn point is an empty cell of the board no farther from `prev` than
   * any other, shunted by gravity.
   */
  lemma NextSpawnpointFallsBack(m: MarbleMap, radius: nat, prev: Coord, c: Coord)
    requires forall d: Direction :: !WallHug(m, radius, prev, d)
    requires InBounds(c, radius) && c !in m
    ensures var p := NearestEmpty(m, Range(radius), c => Distance(c, prev));
      && p.Some? && InBounds(p.value, radius) && p.value !in m
      && (forall e :: InBounds(e, radius) && e !in m ==> Distance(p.value, prev) <= Distance(e, prev))
      && NextSpawnpoint(m, radius, prev) == Some(GravityAll(m, radius, p.value))
  {
    assert c in Range(radius);
    NearestEmptyIsNearest(m, Range(radius), c => Distance(c, prev));
    var p := NearestEmpty(m, Range(radius), c => Distance(c, prev)).value;
    assert Ring(p) <= radius;
    forall e | InBounds(e, radius) && e !in m ensures Distance(p, prev) <= Distance(e, prev) {
      assert e in Range(radius);
    }
  }
}
