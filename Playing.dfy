/**
 * The playing mode: the player drags a closed loop of neighbouring marbles
 * over the board; a loop that is a regular hexagon with corners of one
 * colour deletes that colour, any other loop cycles its marbles one step
 * along the path.
 */
module Playing {
  import opened Wrappers
  import opened Hex
  import opened Marbles
  import opened Gravity
  import opened Blobs
  import opened Actions
  import opened Engine

  /** `PatternExtensionValidity`: whether a drawn pattern may grow, is broken, or closes a loop. */
  datatype Validity = Continue | Invalid | Finished

  /** Each cell of the path is a neighbour of the next. */
  predicate Chain(p: seq<Coord>) {
    forall i :: 0 <= i < |p| - 1 ==> Adjacent(p[i], p[i + 1])
  }

  /**
   * The pair check of `is_pattern_valid`: a path of two or more cells
   * passes when it is a chain of neighbours whose cells all hold marbles; a
   * single cell has no pair to check.
   */
  predicate Linked(p: seq<Coord>, m: MarbleMap) {
    Chain(p) && (|p| >= 2 ==> forall c :: c in p ==> c in m)
  }

  /** Both cells hold marbles and are neighbours. */
  predicate Joined(m: MarbleMap, a: Coord, b: Coord) {
    a in m && b in m && Adjacent(a, b)
  }

  /** The pair check is the check of every consecutive pair, as the `windows(2)` loop makes it. */
  lemma LinkedAt(p: seq<Coord>, m: MarbleMap)
    ensures Linked(p, m) <==> forall i :: 0 <= i < |p| - 1 ==> Joined(m, p[i], p[i + 1])
  {
    if forall i :: 0 <= i < |p| - 1 ==> Joined(m, p[i], p[i + 1]) {
      forall c | c in p && |p| >= 2 ensures c in m {
        var k :| 0 <= k < |p| && p[k] == c;
        if k < |p| - 1 {
          assert Joined(m, p[k], p[k + 1]);
        } else {
          assert Joined(m, p[k - 1], p[k]);
        }
      }
    }
  }

  /**
   * `is_pattern_valid`: a broken pair makes the pattern Invalid; up to two
   * cells it may go on; three cells must not end where they started; from
   * four cells on, the new end must not revisit an inner cell, and the
   * pattern is Finished when it returns to its start.
   */
  function IsPatternValid(p: seq<Coord>, m: MarbleMap): (r: Validity)
    ensures r != Invalid ==> Linked(p, m)
    ensures r == Finished ==> |p| >= 4 && p[0] == p[|p| - 1]
    ensures |p| <= 2 ==> (r == Continue <==> Linked(p, m))
  {
    if !Linked(p, m) then Invalid
    else if |p| <= 2 then Continue
    else if |p| == 3 then (if p[2] == p[0] then Invalid else Continue)
    else if p[|p| - 1] in p[1..|p| - 1] then Invalid
    else if p[0] == p[|p| - 1] then Finished
    else Continue
  }

  /**
   * The shape every stored pattern has: no cell repeats, except that a
   * pattern of four or more cells may end on its start.
   */
  predicate WellDrawn(p: seq<Coord>) {
    |p| >= 1 && (Distinct(p) || (|p| >= 4 && p[|p| - 1] == p[0] && Distinct(p[..|p| - 1])))
  }

  /** A well-drawn pattern that may still grow repeats no cell. */
  lemma ContinueIsDistinct(p: seq<Coord>, m: MarbleMap)
    requires WellDrawn(p) && IsPatternValid(p, m) == Continue
    ensures Distinct(p)
  {
  }

  /**
   * Extending a pattern that may grow by a cell, when the result is not
   * Invalid, keeps it well drawn; it is Finished exactly when the new cell
   * is the start and the pattern already had three cells.
   */
  lemma ExtendKeepsWellDrawn(p: seq<Coord>, c: Coord, m: MarbleMap)
    requires WellDrawn(p) && IsPatternValid(p, m) == Continue
    requires IsPatternValid(p + [c], m) != Invalid
    ensures WellDrawn(p + [c])
    ensures IsPatternValid(p + [c], m) == Finished <==> |p| >= 3 && c == p[0]
  {
    ContinueIsDistinct(p, m);
    var q := p + [c];
    assert q[..|q| - 1] == p;
    LinkedAt(q, m);
    assert Adjacent(q[|q| - 2], q[|q| - 1]);
    if |p| >= 3 && c == p[0] {
      assert p[0] !in p[1..] by {
        forall i | 1 <= i < |p| ensures p[i] != p[0] {
          assert p[0] != p[i];
        }
      }
      assert q[1..|q| - 1] == p[1..];
    } else if |q| >= 4 {
      assert q[1..|q| - 1] == p[1..];
      assert c != p[0];
    }
  }

  /**
   * The other direction: a pattern that may grow accepts a cell exactly
   * when the longer pattern still passes the pair check and stays well
   * drawn, so every legal move is taken. With three cells that is: the new
   * cell is not the start; from four on: it revisits no cell but the start.
   */
  lemma {:induction false} ExtendAcceptedIff(p: seq<Coord>, c: Coord, m: MarbleMap)
    requires WellDrawn(p) && IsPatternValid(p, m) == Continue
    ensures IsPatternValid(p + [c], m) != Invalid <==> Linked(p + [c], m) && WellDrawn(p + [c])
  {
    var q := p + [c];
    if IsPatternValid(q, m) != Invalid {
      ExtendKeepsWellDrawn(p, c, m);
    }
    if Linked(q, m) && WellDrawn(q) && |q| >= 4 {
      ContinueIsDistinct(p, m);
      assert q[1..|q| - 1] == p[1..];
      forall i | 1 <= i < |p| ensures p[i] != c {
        if Distinct(q) {
          assert q[i] != q[|q| - 1];
        } else {
          assert p[i] != p[0];
        }
      }
    }
  }

  /**
   * A Finished pattern that was drawn cell by cell is a closed loop: it has
   * at least four cells, ends on its start, visits its other cells once,
   * and every step, including the one back to the start, joins
   * neighbouring marbles.
   */
  lemma FinishedIsLoop(p: seq<Coord>, m: MarbleMap)
    requires WellDrawn(p) && IsPatternValid(p, m) == Finished
    ensures |p| >= 4 && p[0] == p[|p| - 1]
    ensures Distinct(p[..|p| - 1])
    ensures forall i :: 0 <= i < |p| - 1 ==> p[i] in m && Adjacent(p[i], p[i + 1])
    ensures Adjacent(p[|p| - 2], p[0])
  {
    LinkedAt(p, m);
    assert p[|p| - 1] in p[..|p| - 1] by {
      assert p[..|p| - 1][0] == p[|p| - 1];
    }
  }

  /**
   * Three mutually neighbouring occupied cells drawn as a loop: the
   * prefixes give Continue, Continue, Continue, and the closed loop is
   * Finished.
   */
  lemma TrianglePrefixes(a: Coord, b: Coord, c: Coord, m: MarbleMap)
    requires a in m && b in m && c in m
    requires Adjacent(a, b) && Adjacent(b, c) && Adjacent(c, a)
    ensures IsPatternValid([a], m) == Continue
    ensures IsPatternValid([a, b], m) == Continue
    ensures IsPatternValid([a, b, c], m) == Continue
    ensures IsPatternValid([a, b, c, a], m) == Finished
  {
    assert [a, b, c][1..] == [b, c] && [b, c][1..] == [c];
    assert [a, b, c, a][1..] == [b, c, a] && [b, c, a][1..] == [c, a] && [c, a][1..] == [a];
    assert [a, b, c, a][1..3] == [b, c];
  }

  /** The direction of each step of a linked pattern (`directions_to(..).first()` over `windows(2)`). */
  function Deltas(p: seq<Coord>): (ds: seq<Direction>)
    requires |p| >= 1
    requires Chain(p)
    ensures |ds| == |p| - 1
    ensures forall i :: 0 <= i < |ds| ==> Step(p[i], ds[i]) == p[i + 1]
  {
    seq(|p| - 1, i requires 0 <= i < |p| - 1 => DirectionTo(p[i], p[i + 1]))
  }

  /** The turn at each inner cell: the angle from one step's direction to the next. */
  function Angles(ds: seq<Direction>): (ts: seq<Angle>)
    requires |ds| >= 1
    ensures |ts| == |ds| - 1
    ensures forall i :: 0 <= i < |ts| ==> ts[i] == AngleBetween(ds[i], ds[i + 1])
  {
    seq(|ds| - 1, i requires 0 <= i < |ds| - 1 => AngleBetween(ds[i], ds[i + 1]))
  }

  predicate IsCorner(a: Angle) { a == Left || a == Right }

  /** The number of Forward turns just before index k: the length of the side being drawn. */
  function RunTo(ts: seq<Angle>, k: nat): nat
    requires k <= |ts|
  {
    if k == 0 || ts[k - 1] != Forward then 0 else 1 + RunTo(ts, k - 1)
  }

  /**
   * The side rule over the first k turns: every turn goes straight or
   * bends by 60 degrees, all bends go the same way, and every side that
   * ends at a bend has the same length.
   */
  predicate RegularUpTo(ts: seq<Angle>, k: nat)
    requires k <= |ts|
  {
    && (forall i :: 0 <= i < k ==> ts[i] == Forward || IsCorner(ts[i]))
    && (forall i, j :: 0 <= i < j < k && IsCorner(ts[i]) && IsCorner(ts[j]) ==>
          ts[i] == ts[j] && RunTo(ts, i) == RunTo(ts, j))
  }

  /** The colour rule: every corner cell holds what the start cell holds (`all_equal`). */
  predicate CornersSame(p: seq<Coord>, m: MarbleMap, ts: seq<Angle>)
    requires |ts| + 2 <= |p|
  {
    forall i :: 0 <= i < |ts| && IsCorner(ts[i]) ==> Content(m, p[i + 1]) == Content(m, p[0])
  }

  /** The hexagon test of `pattern_to_action` on a linked pattern of three or more cells. */
  predicate HexagonTest(p: seq<Coord>, m: MarbleMap)
    requires |p| >= 2
    requires Chain(p)
  {
    var ts := Angles(Deltas(p));
    CornersSame(p, m, ts) && RegularUpTo(ts, |ts|)
  }

  /**
   * The state of the hexagon loop after k turns: the turns so far obey the
   * side rule, `current` is the side being drawn, and once a bend has been
   * seen, `first` is the first bend, whose side length and sense are kept.
   */
  ghost predicate Walked(ts: seq<Angle>, k: nat, sideLen: Option<nat>, turnAngle: Option<Angle>, current: nat, first: nat) {
    && k <= |ts| && RegularUpTo(ts, k) && current == RunTo(ts, k)
    && (sideLen.None? <==> turnAngle.None?)
    && (sideLen.None? ==> forall i :: 0 <= i < k ==> ts[i] == Forward)
    && (sideLen.Some? ==>
          && first < k && IsCorner(ts[first])
          && RunTo(ts, first) == sideLen.value && ts[first] == turnAngle.value)
  }

  lemma WalkForward(ts: seq<Angle>, k: nat, sideLen: Option<nat>, turnAngle: Option<Angle>, current: nat, first: nat)
    requires Walked(ts, k, sideLen, turnAngle, current, first) && k < |ts| && ts[k] == Forward
    ensures Walked(ts, k + 1, sideLen, turnAngle, current + 1, first)
  {
  }

  lemma WalkCorner(ts: seq<Angle>, k: nat, sideLen: Option<nat>, turnAngle: Option<Angle>, current: nat, first: nat)
    requires Walked(ts, k, sideLen, turnAngle, current, first) && k < |ts| && IsCorner(ts[k])
    requires sideLen.Some? ==> sideLen.value == current && turnAngle.value == ts[k]
    ensures Walked(ts, k + 1, Some(current), Some(ts[k]), 0, if sideLen.None? then k else first)
  {
    if sideLen.Some? {
      forall i, j | 0 <= i < j < k + 1 && IsCorner(ts[i]) && IsCorner(ts[j])
        ensures ts[i] == ts[j] && RunTo(ts, i) == RunTo(ts, j)
      {
        if j == k {
          assert ts[i] == ts[first] && RunTo(ts, i) == RunTo(ts, first) by {
            if i < first {
              assert RegularUpTo(ts, k);
            } else if first < i {
              assert RegularUpTo(ts, k);
            }
          }
        }
      }
    }
  }

  lemma WalkFails(ts: seq<Angle>, k: nat, sideLen: Option<nat>, turnAngle: Option<Angle>, current: nat, first: nat)
    requires Walked(ts, k, sideLen, turnAngle, current, first) && k < |ts|
    requires ts[k] != Forward
    requires !(IsCorner(ts[k]) && (sideLen.Some? ==> sideLen.value == current && turnAngle.value == ts[k]))
    ensures !RegularUpTo(ts, |ts|)
  {
    if IsCorner(ts[k]) {
      assert !(ts[first] == ts[k] && RunTo(ts, first) == RunTo(ts, k));
    } else {
      assert !(ts[k] == Forward || IsCorner(ts[k]));
    }
  }

  /**
   * The loop of the hexagon test: walks the turns keeping the first side
   * length, the first bend and the current side length, and gives up at
   * the first turn that breaks the side rule.
   */
  method SidesRegular(ts: seq<Angle>) returns (ok: bool)
    ensures ok <==> RegularUpTo(ts, |ts|)
  {
    var sideLen: Option<nat> := None;
    var turnAngle: Option<Angle> := None;
    var current: nat := 0;
    ghost var first: nat := 0;
    var k := 0;
    while k < |ts|
      invariant Walked(ts, k, sideLen, turnAngle, current, first)
      decreases |ts| - k
    {
      var angle := ts[k];
      if angle == Forward {
        WalkForward(ts, k, sideLen, turnAngle, current, first);
        current := current + 1;
      } else if IsCorner(angle) {
        ghost var side0, turn0, first0 := sideLen, turnAngle, first;
        if sideLen.None? {
          sideLen := Some(current);
          first := k;
        } else if sideLen.value != current {
          WalkFails(ts, k, side0, turn0, current, first0);
          return false;
        }
        if turnAngle.None? {
          turnAngle := Some(angle);
        } else if turnAngle.value != angle {
          WalkFails(ts, k, side0, turn0, current, first0);
          return false;
        }
        WalkCorner(ts, k, side0, turn0, current, first0);
        current := 0;
      } else {
        WalkFails(ts, k, sideLen, turnAngle, current, first);
        return false;
      }
      k := k + 1;
    }
    return true;
  }

  /** The `is_hexagon` closure: the colour rule, then the side rule. */
  method IsHexagon(p: seq<Coord>, m: MarbleMap) returns (hex: bool)
    requires |p| >= 2
    requires Chain(p)
    ensures hex <==> HexagonTest(p, m)
  {
    var ts := Angles(Deltas(p));
    if !CornersSame(p, m, ts) {
      return false;
    }
    hex := SidesRegular(ts);
  }

  /**
   * `pattern_to_action`, called on a Finished pattern: a hexagon deletes
   * the colour of its start cell; any other loop drops the closing cell and
   * cycles the marbles along the rest.
   */
  method PatternToAction(p: seq<Coord>, m: MarbleMap) returns (action: BoardAction)
    requires IsPatternValid(p, m) == Finished
    ensures HexagonTest(p, m) ==> action == DeleteColor(m[p[0]])
    ensures !HexagonTest(p, m) ==> action == Cycle(p[..|p| - 1])
  {
    var hex := IsHexagon(p, m);
    if hex {
      action := DeleteColor(m[p[0]]);
    } else {
      action := Cycle(p[..|p| - 1]);
    }
  }

  /**
   * The action a drawn loop asks for: either the colour of a marble on the
   * board, or a path of at least three distinct cells, each a neighbour of
   * the next and the last a neighbour of the first, so the cycle rotates
   * every marble on it.
   */
  lemma LoopAction(p: seq<Coord>, m: MarbleMap)
    requires WellDrawn(p) && IsPatternValid(p, m) == Finished
    ensures p[0] in m
    ensures var path := p[..|p| - 1];
      && |path| >= 3 && Distinct(path) && Adjacent(path[|path| - 1], path[0])
      && (forall i :: 0 <= i < |path| - 1 ==> path[i] in m && Adjacent(path[i], path[i + 1]))
      && path[|path| - 1] in m
  {
    FinishedIsLoop(p, m);
  }

  /** On a board whose marbles lie in bounds, the action a drawn loop asks for names only cells of the board. */
  lemma LoopActionInBounds(p: seq<Coord>, m: MarbleMap, radius: nat)
    requires WellDrawn(p) && IsPatternValid(p, m) == Finished && AllInBounds(m, radius)
    ensures ActionInBounds(if HexagonTest(p, m) then DeleteColor(m[p[0]]) else Cycle(p[..|p| - 1]), radius)
  {
    LoopAction(p, m);
  }

  /** Queueing an action on the board and a ClearBlobs after it keeps the board consistent. */
  lemma QueueGrows(m: MarbleMap, q0: seq<BoardAction>, action: BoardAction, planned: Option<Coord>, radius: nat)
    requires Consistent(m, q0, planned, radius) && ActionInBounds(action, radius)
    ensures Consistent(m, q0 + [action, ClearBlobs(0)], planned, radius)
  {
  }

  /** The six neighbours of a cell walked clockwise from the one in direction YZ, back to the start. */
  function RingAround(c: Coord): seq<Coord> {
    [Step(c, YZ), Step(c, XZ), Step(c, XY), Step(c, ZY), Step(c, ZX), Step(c, YX), Step(c, YZ)]
  }

  /** Each neighbour of a cell lies in one direction only. */
  lemma StepInjective(c: Coord, d: Direction, e: Direction)
    requires Step(c, d) == Step(c, e)
    ensures d == e
  {
  }

  /** Turning a direction by different angles gives different directions. */
  lemma TurnInjective(d: Direction, a: Angle, b: Angle)
    requires Turn(d, a) == Turn(d, b)
    ensures a == b
  {
  }

  /** Walking around a cell is a chain of steps XY, ZY, ZX, YX, YZ, XZ. */
  lemma RingDeltas(c: Coord)
    ensures Chain(RingAround(c))
    ensures Deltas(RingAround(c)) == [XY, ZY, ZX, YX, YZ, XZ]
  {
    var p := RingAround(c);
    var walk: seq<Direction> := [XY, ZY, ZX, YX, YZ, XZ];
    forall i | 0 <= i < 6 ensures Adjacent(p[i], p[i + 1]) && Step(p[i], walk[i]) == p[i + 1] {
      StepAdjacent(p[i], walk[i]);
    }
    var ds := Deltas(p);
    forall i | 0 <= i < 6 ensures ds[i] == walk[i] {
      StepInjective(p[i], ds[i], walk[i]);
    }
  }

  /** Those six steps turn right five times. */
  lemma RingTurns()
    ensures Angles([XY, ZY, ZX, YX, YZ, XZ]) == [Right, Right, Right, Right, Right]
  {
    var ts := Angles([XY, ZY, ZX, YX, YZ, XZ]);
    assert AngleBetween(XY, ZY) == Right;
    assert AngleBetween(ZY, ZX) == Right;
    assert AngleBetween(ZX, YX) == Right;
    assert AngleBetween(YX, YZ) == Right;
    assert AngleBetween(YZ, XZ) == Right;
    FiveRights(ts);
  }

  lemma FiveRights(ts: seq<Angle>)
    requires |ts| == 5 && ts[0] == Right && ts[1] == Right && ts[2] == Right && ts[3] == Right && ts[4] == Right
    ensures ts == [Right, Right, Right, Right, Right]
  {
  }

  /** Turns that all bend the same way, with no straight stretch, obey the side rule. */
  lemma BendsOnlyRegular(ts: seq<Angle>, a: Angle)
    requires IsCorner(a) && forall i :: 0 <= i < |ts| ==> ts[i] == a
    ensures RegularUpTo(ts, |ts|)
  {
    forall k | 0 <= k <= |ts| ensures RunTo(ts, k) == 0 {
      if k > 0 {
        assert ts[k - 1] == a;
      }
    }
  }

  /** Five right bends obey the side rule. */
  lemma RingRegular()
    ensures RegularUpTo([Right, Right, Right, Right, Right], 5)
  {
    var ts: seq<Angle> := [Right, Right, Right, Right, Right];
    assert forall i :: 0 <= i < |ts| ==> ts[i] == Right;
    BendsOnlyRegular(ts, Right);
  }

  /** Walking around a cell through six marbles of one colour is a hexagon: it deletes that colour. */
  lemma RingIsHexagon(c: Coord, m: MarbleMap, col: Marble)
    requires forall d: Direction :: Step(c, d) in m && m[Step(c, d)] == col
    ensures var p := RingAround(c);
      && IsPatternValid(p, m) == Finished
      && HexagonTest(p, m)
  {
    var p := RingAround(c);
    RingDeltas(c);
    RingTurns();
    assert forall x :: x in p ==> x in m;
    assert p[6] !in p[1..6];
    var ts: seq<Angle> := [Right, Right, Right, Right, Right];
    RingRegular();
    assert CornersSame(p, m, ts) by {
      assert Content(m, p[1]) == Content(m, Step(c, XZ)) == Some(col);
      assert Content(m, p[2]) == Content(m, Step(c, XY)) == Some(col);
      assert Content(m, p[3]) == Content(m, Step(c, ZY)) == Some(col);
      assert Content(m, p[4]) == Content(m, Step(c, ZX)) == Some(col);
      assert Content(m, p[5]) == Content(m, Step(c, YX)) == Some(col);
      assert Content(m, p[0]) == Content(m, Step(c, YZ)) == Some(col);
    }
  }

  /** Two steps that end next to where they began turn by 120 degrees. */
  lemma ShortCut(a: Coord, d: Direction, e: Direction)
    requires Adjacent(a, Step(Step(a, d), e))
    ensures AngleBetween(d, e) == 2 || AngleBetween(d, e) == 4
  {
  }

  /** A loop around three mutually neighbouring cells turns by 120 degrees, so it is never a hexagon. */
  lemma TriangleIsNoHexagon(a: Coord, b: Coord, c: Coord, m: MarbleMap)
    requires Adjacent(a, b) && Adjacent(b, c) && Adjacent(c, a)
    ensures !HexagonTest([a, b, c, a], m)
  {
    var p := [a, b, c, a];
    var ds := Deltas(p);
    AdjacentIffStep(c, a);
    ShortCut(a, ds[0], ds[1]);
    var ts := Angles(ds);
    assert !(ts[0] == Forward || IsCorner(ts[0]));
  }

  /**
   * Holding the button over `pos`: a pattern that may still grow takes a
   * cell of the board when the longer pattern is not Invalid; otherwise it
   * stays as it is.
   */
  function Extended(p: seq<Coord>, pos: Coord, m: MarbleMap, radius: nat): (q: seq<Coord>)
    ensures q == p || (q == p + [pos] && InBounds(pos, radius) && IsPatternValid(q, m) != Invalid)
  {
    if InBounds(pos, radius) && IsPatternValid(p, m) == Continue && IsPatternValid(p + [pos], m) != Invalid
    then p + [pos] else p
  }

  /**
   * Releasing the button over pattern `p`: a Finished pattern queues its
   * action and then ClearBlobs(0) at the back; any other leaves the queue
   * alone.
   */
  ghost predicate Released(p: seq<Coord>, m: MarbleMap, q0: seq<BoardAction>, q1: seq<BoardAction>) {
    if IsPatternValid(p, m) == Finished then
      var action := if HexagonTest(p, m) then DeleteColor(m[p[0]]) else Cycle(p[..|p| - 1]);
      q1 == q0 + [action, ClearBlobs(0)]
    else
      q1 == q0
  }

  /** The playing mode: the board and the pattern being drawn. */
  class ModePlaying {
    const board: Board
    var pattern: Option<seq<Coord>>

    /** The board is valid, and a stored pattern is well drawn and lies on the board. */
    ghost predicate Valid()
      reads this, board
    {
      && board.Playable() && board.Valid()
      && (pattern.Some? ==>
            WellDrawn(pattern.value) && forall c :: c in pattern.value ==> InBounds(c, board.settings.radius))
    }

    /** `ModePlaying::new`: a fresh board and no pattern. */
    constructor (settings: BoardSettings, draws: Coord -> nat)
      requires settings.borderWidth <= settings.radius
      requires settings.clearBlobSize >= 2 && settings.marbleColorCount >= 1
      ensures fresh(board) && board.settings == settings && pattern == None
      ensures Valid()
    {
      board := new Board(settings, draws);
      pattern := None;
    }

    /**
     * The pattern branch of `actually_update`, with the mouse already
     * mapped to the cell `pos`. A click starts a pattern on a cell of the
     * board; holding the button extends a pattern that may still grow when
     * the longer pattern is not Invalid; releasing a Finished pattern queues
     * its action followed by ClearBlobs(0); a release always forgets the
     * pattern.
     */
    method UpdatePattern(clickedDown: bool, pressed: bool, pos: Coord)
      requires Valid()
      modifies this`pattern, board`actionQueue
      ensures Valid()
      ensures var m, r := board.marbles, board.settings.radius;
        match old(pattern)
        case None =>
          && board.actionQueue == old(board.actionQueue)
          && pattern == (if clickedDown && InBounds(pos, r) then Some([pos]) else None)
        case Some(p) =>
          if pressed then
            board.actionQueue == old(board.actionQueue) && pattern == Some(Extended(p, pos, m, r))
          else
            pattern == None && Released(p, m, old(board.actionQueue), board.actionQueue)
    {
      var r := board.settings.radius;
      match pattern {
        case None =>
          if clickedDown && InBounds(pos, r) {
            pattern := Some([pos]);
          }
        case Some(p) =>
          if pressed {
            if InBounds(pos, r) && IsPatternValid(p, board.marbles) == Continue {
              var longer := p + [pos];
              if IsPatternValid(longer, board.marbles) != Invalid {
                ExtendKeepsWellDrawn(p, pos, board.marbles);
                pattern := Some(longer);
              }
            }
          } else {
            Release(p);
            pattern := None;
          }
      }
    }

    /** The release branch: a Finished pattern queues its action and ClearBlobs(0). */
    method Release(p: seq<Coord>)
      requires board.Valid() && WellDrawn(p)
      modifies board`actionQueue
      ensures board.Valid()
      ensures Released(p, board.marbles, old(board.actionQueue), board.actionQueue)
    {
      if IsPatternValid(p, board.marbles) == Finished {
        ghost var q0 := board.actionQueue;
        var action := PatternToAction(p, board.marbles);
        LoopActionInBounds(p, board.marbles, board.settings.radius);
        board.PushAction(action);
        board.PushAction(ClearBlobs(0));
        assert board.actionQueue == q0 + [action, ClearBlobs(0)];
        QueueGrows(board.marbles, q0, action, board.plannedNextSpawnPos, board.settings.radius);
      }
    }

    /**
     * `actually_update` without the pause check: the pattern is handled
     * against the board as it was, then the board ticks, and the mode
     * reports a loss (where it swaps to the losing screen) exactly when the
     * tick does.
     */
    method Update(clickedDown: bool, pressed: bool, pos: Coord, roll: nat) returns (lost: bool)
      requires Valid()
      modifies this`pattern, board`marbles, board`score, board`actionQueue, board`actionTimer
      modifies board`nextSpawnTimer, board`plannedNextSpawnPos, board`tickCount
      ensures Valid()
      ensures lost <==>
        old(board.nextSpawnTimer) + 1 >= TimerMax(old(board.tickCount)) && old(board.plannedNextSpawnPos).None?
      ensures var r := board.settings.radius;
        pattern == match old(pattern)
          case None => if clickedDown && InBounds(pos, r) then Some([pos]) else None
          case Some(p) => if pressed then Some(Extended(p, pos, old(board.marbles), r)) else None
      ensures !lost ==> board.tickCount == old(board.tickCount) + 1
      ensures board.score >= old(board.score)
    {
      UpdatePattern(clickedDown, pressed, pos);
      lost := board.Tick(roll);
    }
  }
}
