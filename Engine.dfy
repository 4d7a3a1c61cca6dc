/**
 * The board: its marbles, score, action queue and timers, updated in place
 * by spawning, gravity, the three actions and the per-frame tick.
 */
module Engine {
  import opened Wrappers
  import opened Hex
  import opened Marbles
  import opened Gravity
  import opened Blobs
  import opened Spawn
  import opened Actions

  /** The keys of the map, each once, in whatever order the map yields them. */
  method KeysOf(m: MarbleMap) returns (ks: seq<Coord>)
    ensures Distinct(ks)
    ensures forall c :: c in ks <==> c in m
  {
    ks := [];
    var left := m.Keys;
    while left != {}
      invariant left <= m.Keys
      invariant Distinct(ks)
      invariant forall c :: c in ks <==> c in m && c !in left
      decreases left
    {
      var c :| c in left;
      ks := ks + [c];
      left := left - {c};
    }
  }

  /** The marbles fill exactly the rings pad + 1 .. radius. */
  ghost predicate FilledBeyond(m: MarbleMap, pad: int, radius: nat) {
    forall c :: c in m <==> pad < Ring(c) <= radius
  }

  /**
   * On a board filled exactly beyond ring `pad`, the cell (pad, 0) does not
   * fall: every cell below it is one ring further out, so it holds a marble
   * or lies off the board.
   */
  lemma InitialSpawnAtRest(m: MarbleMap, radius: nat, pad: nat)
    requires pad <= radius
    requires FilledBeyond(m, pad, radius)
    ensures GravityStep(m, radius, Coord(pad, 0)).None?
  {
    OuterRingsSolid(m, radius, pad);
    PlannedCellPropped(m, radius, pad);
    StuckWhenPropped(m, radius, Coord(pad, 0));
  }

  /** The new board is consistent: its marbles lie on it and the first planned spawn point does not fall. */
  lemma InitialConsistent(m: MarbleMap, radius: nat, pad: nat)
    requires pad <= radius
    requires FilledBeyond(m, pad, radius)
    ensures Consistent(m, [], Some(Coord(pad, 0)), radius)
  {
    InitialSpawnAtRest(m, radius, pad);
  }

  /** The cells below the centre lie on ring 1. */
  lemma CentreCandidates()
    ensures forall k :: 0 <= k < 3 ==> Ring(Candidates(Origin)[k]) == 1
  {
    DirectionFromCenterNoneIffOrigin(Origin);
    assert GravityDirection(Origin) == YX;
    assert Turn(YX, Forward) == YX && Turn(YX, Left) == ZX && Turn(YX, Right) == YZ;
    assert Candidates(Origin) == [Step(Origin, YX), Step(Origin, ZX), Step(Origin, YZ)];
  }

  /** The cells below (pad, 0) lie on ring pad + 1. */
  lemma RimCandidates(pad: nat)
    requires pad > 0
    ensures forall k :: 0 <= k < 3 ==> Ring(Candidates(Coord(pad, 0))[k]) == pad + 1
  {
    assert DirectionFromCenterCw(Coord(pad, 0)) == Some(XZ);
    assert Candidates(Coord(pad, 0)) == [Coord(pad + 1, 0), Coord(pad, 1), Coord(pad + 1, -1)];
  }

  /** When ring pad + 1 is solid, so are the first two cells below (pad, 0). */
  lemma PlannedCellPropped(m: MarbleMap, radius: nat, pad: nat)
    requires forall t :: Ring(t) == pad + 1 ==> IsSolid(m, radius, t)
    ensures IsSolid(m, radius, Candidates(Coord(pad, 0))[0]) && IsSolid(m, radius, Candidates(Coord(pad, 0))[1])
  {
    if pad == 0 {
      CentreCandidates();
      assert Coord(pad, 0) == Origin;
      var cs := Candidates(Origin);
      assert Ring(cs[0]) == pad + 1 && Ring(cs[1]) == pad + 1;
    } else {
      RimCandidates(pad);
      var cs := Candidates(Coord(pad, 0));
      assert Ring(cs[0]) == pad + 1 && Ring(cs[1]) == pad + 1;
    }
  }

  /** On a board filled exactly beyond ring `pad`, every cell of ring pad + 1 is solid. */
  lemma OuterRingsSolid(m: MarbleMap, radius: nat, pad: nat)
    requires pad <= radius
    requires FilledBeyond(m, pad, radius)
    ensures forall t :: Ring(t) == pad + 1 ==> IsSolid(m, radius, t)
  {
  }

  /** A cell whose first two cells below are solid does not fall. */
  lemma StuckWhenPropped(m: MarbleMap, radius: nat, c: Coord)
    requires IsSolid(m, radius, Candidates(c)[0]) && IsSolid(m, radius, Candidates(c)[1])
    ensures GravityStep(m, radius, c).None?
  {
  }

  /**
   * Every marble and every cell a queued action names lies on the board,
   * and the planned spawn point would not fall any further.
   */
  ghost predicate Consistent(m: MarbleMap, queue: seq<BoardAction>, planned: Option<Coord>, radius: nat) {
    && AllInBounds(m, radius)
    && (forall a :: a in queue ==> ActionInBounds(a, radius))
    && (planned.Some? ==> GravityStep(m, radius, planned.value).None?)
  }

  /** A queue that only gained a ClearBlobs at the front keeps every action on the board. */
  lemma QueueStaysInBounds(q0: seq<BoardAction>, q1: seq<BoardAction>, radius: nat)
    requires forall a :: a in q0 ==> ActionInBounds(a, radius)
    requires q1 == q0 || (|q1| > 0 && q1[0].ClearBlobs? && q1[1..] == q0)
    ensures forall a :: a in q1 ==> ActionInBounds(a, radius)
  {
    forall a | a in q1 ensures ActionInBounds(a, radius) {
      if q1 != q0 && a != q1[0] {
        assert a in q1[1..];
      }
    }
  }

  /**
   * One cell's turn in a gravity pass, from m0 to m1: the marble at pos
   * moved exactly when the fall rule sends it somewhere, and then one step
   * there (colours kept, total height lower); otherwise nothing changed.
   */
  ghost predicate Fell(m0: MarbleMap, m1: MarbleMap, pos: Coord, moved: bool, radius: nat) {
    && (moved <==> GravityStep(m0, radius, pos).Some?)
    && (!moved ==> m1 == m0)
    && (moved ==> m1.Keys == m0.Keys - {pos} + {GravityStep(m0, radius, pos).value})
    && SameColors(m0, m1)
    && (AllInBounds(m0, radius) ==> AllInBounds(m1, radius))
    && (moved ==> TotalHeight(m1.Keys, radius) < TotalHeight(m0.Keys, radius))
  }

  /**
   * The state of a gravity pass from `start` after the first i cells of
   * `poses`: the cells still to visit hold marbles, colours are kept, the
   * board stays in bounds, and either something moved and the total height
   * went down, or nothing moved and every visited cell was at rest.
   */
  ghost predicate Passing(start: MarbleMap, m: MarbleMap, poses: seq<Coord>, i: int, shunted: bool, radius: nat) {
    && 0 <= i <= |poses|
    && Distinct(poses)
    && (forall c :: c in start <==> c in poses)
    && (forall j :: i <= j < |poses| ==> poses[j] in m)
    && SameColors(start, m)
    && (AllInBounds(start, radius) ==> AllInBounds(m, radius))
    && (shunted ==> TotalHeight(m.Keys, radius) < TotalHeight(start.Keys, radius))
    && (!shunted ==> m == start && forall j :: 0 <= j < i ==> GravityStep(start, radius, poses[j]).None?)
  }

  /** Each cell's turn keeps the pass state. */
  lemma PassStep(start: MarbleMap, m0: MarbleMap, m1: MarbleMap, poses: seq<Coord>, i: int, shunted: bool,
                 moved: bool, radius: nat)
    requires Passing(start, m0, poses, i, shunted, radius) && i < |poses|
    requires Fell(m0, m1, poses[i], moved, radius)
    ensures Passing(start, m1, poses, i + 1, shunted || moved, radius)
  {
    if moved {
      forall j | i + 1 <= j < |poses| ensures poses[j] in m1 {
        assert poses[j] != poses[i];
      }
    }
  }

  class Board {
    var marbles: MarbleMap
    var score: nat
    var actionQueue: seq<BoardAction>
    /** Ticks spent so far on the action at the front of the queue. */
    var actionTimer: nat
    /** Ticks since the last spawn. */
    var nextSpawnTimer: nat
    var plannedNextSpawnPos: Option<Coord>
    var tickCount: nat
    const settings: BoardSettings

    /**
     * Settings under which spawning ends: there is a colour to draw, and
     * only blobs of two or more are cleared, so one of the seven colours
     * always fits.
     */
    predicate Playable() {
      settings.clearBlobSize >= 2 && settings.marbleColorCount >= 1
    }

    /**
     * Every marble and every cell a queued action names lies on the board,
     * and the planned spawn point would not fall any further.
     */
    ghost predicate Valid()
      reads this
    {
      Consistent(marbles, actionQueue, plannedNextSpawnPos, settings.radius)
    }

    /**
     * `Board::new`: the outer `borderWidth` rings are filled, no blob is big
     * enough to clear, and the first spawn is planned at (pad, 0), the
     * first empty ring. `draws` supplies the random draw for each cell.
     */
    constructor (settings: BoardSettings, draws: Coord -> nat)
      requires settings.borderWidth <= settings.radius
      requires settings.clearBlobSize >= 2 && settings.marbleColorCount >= 1
      ensures this.settings == settings
      ensures FilledBeyond(marbles, settings.radius - settings.borderWidth, settings.radius)
      ensures NoClearable(marbles, settings.clearBlobSize)
      ensures score == 0 && actionQueue == [] && actionTimer == 0 && nextSpawnTimer == 0 && tickCount == 0
      ensures plannedNextSpawnPos == Some(Coord(settings.radius - settings.borderWidth, 0))
      ensures Valid()
    {
      var pad := settings.radius - settings.borderWidth;
      this.settings := settings;
      marbles := map[];
      score := 0;
      actionQueue := [];
      actionTimer := 0;
      nextSpawnTimer := 0;
      plannedNextSpawnPos := Some(Coord(pad, 0));
      tickCount := 0;
      new;
      FillRings(pad, draws);
      assert score == 0 && actionQueue == [] && actionTimer == 0 && nextSpawnTimer == 0 && tickCount == 0;
      assert plannedNextSpawnPos == Some(Coord(pad, 0));
      InitialConsistent(marbles, settings.radius, pad);
    }

    /**
     * The loop of `Board::new` over the rings pad + 1 .. radius + 1: every
     * cell of those rings that lies on the board gets a marble, and no blob
     * big enough to clear forms.
     */
    method FillRings(pad: nat, draws: Coord -> nat)
      requires Playable() && pad <= settings.radius && marbles == map[]
      modifies this`marbles
      ensures FilledBeyond(marbles, pad, settings.radius)
      ensures NoClearable(marbles, settings.clearBlobSize)
    {
      var dist := pad;
      while dist <= settings.radius
        invariant pad <= dist <= settings.radius + 1
        invariant forall c :: c in marbles <==> pad < Ring(c) <= dist && Ring(c) <= settings.radius
        invariant NoClearable(marbles, settings.clearBlobSize)
      {
        SpawnRing(RingCells(dist + 1), draws);
        dist := dist + 1;
      }
    }

    /** `spawn_marble` on each cell of a ring: the cells on the board that were empty get a marble. */
    method SpawnRing(ring: seq<Coord>, draws: Coord -> nat)
      requires Playable()
      modifies this`marbles
      ensures forall c :: c in marbles <==> c in old(marbles) || (c in ring && InBounds(c, settings.radius))
      ensures NoClearable(old(marbles), settings.clearBlobSize) ==> NoClearable(marbles, settings.clearBlobSize)
    {
      var j := 0;
      while j < |ring|
        invariant 0 <= j <= |ring|
        invariant forall c :: c in marbles <==> c in old(marbles) || (c in ring[..j] && InBounds(c, settings.radius))
        invariant NoClearable(old(marbles), settings.clearBlobSize) ==> NoClearable(marbles, settings.clearBlobSize)
      {
        var _ := SpawnMarble(ring[j], draws(ring[j]));
        assert ring[..j + 1] == ring[..j] + [ring[j]];
        j := j + 1;
      }
      assert ring[..|ring|] == ring;
    }

    /**
     * `spawn_marble`: refused, changing nothing, off the board or on an
     * occupied cell. Otherwise exactly one marble is added at c, in the
     * first colour of the retry rotation whose blob through c stays below
     * the clearing size; so a board without a clearable blob keeps none.
     */
    method SpawnMarble(c: Coord, roll: nat) returns (ok: bool)
      requires Playable()
      modifies this`marbles
      ensures ok <==> InBounds(c, settings.radius) && c !in old(marbles)
      ensures !ok ==> marbles == old(marbles)
      ensures ok ==> c in marbles && marbles == old(marbles)[c := marbles[c]]
      ensures ok ==> FitsAt(old(marbles), c, marbles[c], settings.clearBlobSize)
      ensures ok ==> FirstFitting(old(marbles), c, Random(settings.marbleColorCount, roll), marbles[c], settings.clearBlobSize)
      ensures NoClearable(old(marbles), settings.clearBlobSize) ==> NoClearable(marbles, settings.clearBlobSize)
    {
      if !InBounds(c, settings.radius) || c in marbles {
        return false;
      }
      var marble := Random(settings.marbleColorCount, roll);
      var placed := PlaceFitting(c, marble);
      return true;
    }

    /**
     * The retry loop of `spawn_marble` on an empty cell: the marble is put
     * down, and while its flood fill is big enough to clear it is replaced
     * by the next colour. It ends within seven tries, as a cell has only
     * six neighbours.
     */
    method PlaceFitting(c: Coord, first: Marble) returns (placed: Marble)
      requires Playable() && c !in marbles
      modifies this`marbles
      ensures marbles == old(marbles)[c := placed]
      ensures FitsAt(old(marbles), c, placed, settings.clearBlobSize)
      ensures FirstFitting(old(marbles), c, first, placed, settings.clearBlobSize)
    {
      ghost var m0 := marbles;
      var marble := first;
      ghost var tries: nat := 0;
      ghost var prev := marble;
      while true
        invariant Retrying(m0, c, first, tries, marble)
        invariant NoneFits(m0, c, first, tries, settings.clearBlobSize)
        invariant marbles == m0 || marbles == m0[c := prev]
        decreases 6 - tries
      {
        var fits := TryColor(c, marble, m0, first, tries, prev);
        if fits {
          return marble;
        }
        NoneFitsStep(m0, c, first, tries, settings.clearBlobSize);
        prev := marble;
        tries := tries + 1;
        marble := Another(marble);
      }
    }

    /**
     * One turn of that loop: the marble is put down at c, and it fits when
     * its flood fill is smaller than the clearing size; when it does not,
     * the loop may go on to the next colour.
     */
    method TryColor(c: Coord, marble: Marble, ghost m0: MarbleMap, ghost first: Marble, ghost tries: nat,
                    ghost prev: Marble) returns (fits: bool)
      requires Playable() && c !in m0 && Retrying(m0, c, first, tries, marble)
      requires marbles == m0 || marbles == m0[c := prev]
      modifies this`marbles
      ensures marbles == m0[c := marble]
      ensures fits <==> FitsAt(m0, c, marble, settings.clearBlobSize)
      ensures !fits ==> Retrying(m0, c, first, tries + 1, Another(marble))
    {
      marbles := marbles[c := marble];
      assert marbles == m0[c := marble];
      var blob := Floodfill(marbles, c);
      Attempt(m0, c, first, tries, marble, blob, settings.clearBlobSize);
      fits := |blob| < settings.clearBlobSize;
      if !fits {
        assert IsBlob(m0[c := marble], blob) && c in blob;
      }
    }

    /**
     * One pass of `gravitate` over a snapshot of the cells: each marble
     * that can fall moves one step. Colours are kept; the pass reports
     * whether anything moved, and if so the total height went down, and if
     * not every marble is at rest.
     */
    method GravityPass() returns (shuntedAny: bool)
      modifies this`marbles
      ensures SameColors(old(marbles), marbles)
      ensures AllInBounds(old(marbles), settings.radius) ==> AllInBounds(marbles, settings.radius)
      ensures shuntedAny ==> TotalHeight(marbles.Keys, settings.radius) < TotalHeight(old(marbles).Keys, settings.radius)
      ensures !shuntedAny ==> marbles == old(marbles) && AtRest(marbles, settings.radius)
      ensures AtRest(old(marbles), settings.radius) ==> !shuntedAny
    {
      var poses := KeysOf(marbles);
      ghost var start := marbles;
      shuntedAny := false;
      var i := 0;
      while i < |poses|
        invariant Passing(start, marbles, poses, i, shuntedAny, settings.radius)
        invariant AtRest(start, settings.radius) ==> !shuntedAny
        decreases |poses| - i
      {
        ghost var before := marbles;
        var moved := Fall(poses[i]);
        PassStep(start, before, marbles, poses, i, shuntedAny, moved, settings.radius);
        shuntedAny := shuntedAny || moved;
        i := i + 1;
      }
      assert forall c :: c in start ==> c in poses;
    }

    /**
     * The body of that pass for one cell: a marble that can fall moves one
     * step to where the fall rule sends it; otherwise nothing changes.
     */
    method Fall(pos: Coord) returns (moved: bool)
      requires pos in marbles
      modifies this`marbles
      ensures Fell(old(marbles), marbles, pos, moved, settings.radius)
    {
      var target := GravityStep(marbles, settings.radius, pos);
      moved := target.Some?;
      if moved {
        ghost var before := marbles;
        MoveKeepsColors(marbles, pos, target.value);
        MoveLowersHeight(marbles, settings.radius, pos);
        var m := marbles[pos];
        marbles := marbles - {pos};
        marbles := marbles[target.value := m];
        assert marbles == Move(before, pos, target.value);
      }
    }

    /**
     * `gravitate`: with gravity on, passes repeat until one moves nothing,
     * so every marble ends at rest; with gravity off nothing moves. The
     * colours are kept either way, and a board already at rest is left as
     * it is, since the first pass moves nothing.
     */
    method Gravitate()
      modifies this`marbles
      ensures !settings.gravity ==> marbles == old(marbles)
      ensures AtRest(old(marbles), settings.radius) ==> marbles == old(marbles)
      ensures settings.gravity ==> AtRest(marbles, settings.radius)
      ensures SameColors(old(marbles), marbles)
      ensures AllInBounds(old(marbles), settings.radius) ==> AllInBounds(marbles, settings.radius)
    {
      if !settings.gravity {
        return;
      }
      while true
        invariant SameColors(old(marbles), marbles)
        invariant AllInBounds(old(marbles), settings.radius) ==> AllInBounds(marbles, settings.radius)
        invariant AtRest(old(marbles), settings.radius) ==> marbles == old(marbles)
        decreases TotalHeight(marbles.Keys, settings.radius)
      {
        TotalHeightNonNegative(marbles.Keys, settings.radius);
        var shuntedAny := GravityPass();
        if !shuntedAny {
          return;
        }
      }
    }

    /** One window of Cycle: take out the marbles of p and q, then put each down on the other's cell. */
    method SwapCells(p: Coord, q: Coord)
      modifies this`marbles
      ensures marbles == Swapped(old(marbles), p, q)
    {
      ghost var m0 := marbles;
      var a := Content(marbles, p);
      marbles := marbles - {p};
      var b := Content(marbles, q);
      marbles := marbles - {q};
      if a.Some? {
        marbles := marbles[q := a.value];
      }
      if b.Some? {
        marbles := marbles[p := b.value];
      }
      SwappedContent(m0, p, q);
      forall c ensures Content(marbles, c) == Content(Swapped(m0, p, q), c) {
        assert Content(Swapped(m0, p, q), c) == Content(m0, SwapSource(c, p, q));
      }
      ContentExt(marbles, Swapped(m0, p, q));
    }

    /**
     * The Cycle action: with two or more cells, the windows of the path are
     * swapped from the last one back to the first.
     */
    method CycleMarbles(poses: seq<Coord>)
      modifies this`marbles
      ensures CycledAlong(old(marbles), marbles, poses)
    {
      ghost var m0 := marbles;
      if |poses| < 2 {
        return;
      }
      var i := |poses| - 1;
      while i > 0
        invariant 0 <= i < |poses|
        invariant SameColors(m0, marbles)
        invariant OffPathUnchanged(m0, marbles, poses)
        invariant Distinct(poses) ==> RotatedDownTo(m0, marbles, poses, i)
      {
        SwapKeepsColors(marbles, poses[i - 1], poses[i]);
        SwapOnPath(m0, marbles, poses, poses[i - 1], poses[i]);
        if Distinct(poses) {
          RotateStep(m0, marbles, poses, i);
        }
        SwapCells(poses[i - 1], poses[i]);
        i := i - 1;
      }
      if Distinct(poses) {
        RotatedDownToFirst(m0, marbles, poses);
      }
    }

    /** The DeleteColor action: every marble of the colour goes, one point each. */
    method DeleteColorMarbles(color: Marble)
      modifies this`marbles, this`score
      ensures marbles == WithoutColor(old(marbles), color)
      ensures score == old(score) + ColorCount(old(marbles), color)
    {
      var originalLen := |marbles|;
      WithoutColorFacts(marbles, color);
      marbles := WithoutColor(marbles, color);
      score := score + (originalLen - |marbles|);
    }

    /**
     * The ClearBlobs action: every clearable cell is emptied; when there was
     * one, the score grows by the clearing score over all found blobs and
     * a ClearBlobs with the next multiplier goes to the front of the queue;
     * when there was none, nothing changes.
     */
    method ClearBlobsMarbles(multiplier: nat)
      modifies this`marbles, this`score, this`actionQueue
      ensures ClearStep(old(marbles), marbles, old(score), score, old(actionQueue), actionQueue,
                        settings.clearBlobSize, multiplier)
      ensures ClearableCells(old(marbles), settings.clearBlobSize) == {} <==> NoClearable(old(marbles), settings.clearBlobSize)
      ensures score >= old(score)
      ensures actionQueue == old(actionQueue) || actionQueue == [ClearBlobs(multiplier + 1)] + old(actionQueue)
    {
      ghost var m0 := marbles;
      var blobs := FindBlobs(marbles, settings.clearBlobSize);
      assert BlobsOf(m0, settings.clearBlobSize, blobs);
      ClearedCells(m0, settings.clearBlobSize, blobs);
      ghost var gone := ClearableCells(m0, settings.clearBlobSize);
      var blobCount := |blobs|;
      var toRemove := Flatten(blobs);
      assert |toRemove| == |gone| && Elems(toRemove) == gone;
      assert toRemove == [] <==> NoClearable(m0, settings.clearBlobSize);
      if toRemove != [] {
        var n := |toRemove|;
        score := score + ClearScore(n, multiplier, blobCount);
        actionQueue := [ClearBlobs(multiplier + 1)] + actionQueue;
        RemoveAll(toRemove);
      } else {
        assert gone == {};
        assert marbles.Keys == m0.Keys - gone;
      }
      assert score == old(score) + ClearScore(|gone|, multiplier, |blobs|);
    }

    /** `for c in to_remove { remove(c) }`: every listed cell is emptied, nothing else changes. */
    method RemoveAll(toRemove: seq<Coord>)
      modifies this`marbles
      ensures marbles.Keys == old(marbles).Keys - Elems(toRemove)
      ensures forall c :: c in marbles ==> marbles[c] == old(marbles)[c]
    {
      var i := 0;
      while i < |toRemove|
        invariant 0 <= i <= |toRemove|
        invariant marbles.Keys == old(marbles).Keys - Elems(toRemove[..i])
        invariant forall c :: c in marbles ==> marbles[c] == old(marbles)[c]
      {
        assert toRemove[..i + 1] == toRemove[..i] + [toRemove[i]];
        marbles := marbles - {toRemove[i]};
        i := i + 1;
      }
      assert toRemove[..|toRemove|] == toRemove;
    }

    /** `execute_action`: one of the three actions, by its kind. */
    method ExecuteAction(action: BoardAction)
      modifies this`marbles, this`score, this`actionQueue
      ensures Executed(action, old(marbles), marbles, old(score), score, old(actionQueue), actionQueue, settings.clearBlobSize)
    {
      match action
      case Cycle(poses) =>
        CycleMarbles(poses);
      case DeleteColor(color) =>
        DeleteColorMarbles(color);
      case ClearBlobs(multiplier) =>
        ClearBlobsMarbles(multiplier);
    }

    /** `push_action`: the action goes to the back of the queue. */
    method PushAction(action: BoardAction)
      modifies this`actionQueue
      ensures actionQueue == old(actionQueue) + [action]
    {
      actionQueue := actionQueue + [action];
    }

    /**
     * The spawn half of `tick`. The spawn timer counts up; once it reaches
     * the interval it restarts, and then the game is lost when no spawn
     * point is planned, and otherwise a marble is spawned at the planned
     * point (refused if that cell is occupied), gravity runs, a ClearBlobs
     * goes to the back of the queue and the next spawn point is planned.
     */
    method SpawnPhase(roll: nat) returns (lost: bool)
      requires Playable() && Valid()
      modifies this`marbles, this`actionQueue, this`nextSpawnTimer, this`plannedNextSpawnPos
      ensures Valid()
      ensures var due := old(nextSpawnTimer) + 1 >= TimerMax(old(tickCount));
        && (lost <==> due && old(plannedNextSpawnPos).None?)
        && nextSpawnTimer == (if due then 0 else old(nextSpawnTimer) + 1)
        && (!due || lost ==>
             marbles == old(marbles) && actionQueue == old(actionQueue) && plannedNextSpawnPos == old(plannedNextSpawnPos))
      ensures var due := old(nextSpawnTimer) + 1 >= TimerMax(old(tickCount));
        due && !lost ==> SpawnedAt(old(marbles), old(actionQueue), old(plannedNextSpawnPos).value)
    {
      nextSpawnTimer := nextSpawnTimer + 1;
      lost := false;
      if nextSpawnTimer >= TimerMax(tickCount) {
        nextSpawnTimer := 0;
        if plannedNextSpawnPos.Some? {
          SpawnAt(plannedNextSpawnPos.value, roll);
        } else {
          lost := true;
        }
      }
    }

    /**
     * The state after a spawn at `sp` from board `m0` and queue `q0`. When
     * `sp` was an empty cell of the board, a marble of a colour that fits
     * there was put down at `sp` and then gravity ran: the board has the
     * colours of `m0[sp := col]`, and is that board when gravity is off.
     * Otherwise the spawn was refused and only gravity ran. Either way every
     * marble is at rest under gravity, a ClearBlobs is at the back of the
     * queue, and the next spawn point is planned from `sp`.
     */
    ghost predicate SpawnedAt(m0: MarbleMap, q0: seq<BoardAction>, sp: Coord)
      reads this
    {
      && actionQueue == q0 + [ClearBlobs(1)]
      && Spawned(m0, marbles, sp)
      && plannedNextSpawnPos == NextSpawnpoint(marbles, settings.radius, sp)
    }

    /**
     * The board after `spawn_marble(sp)` and `gravitate` from `m0`: one
     * marble more exactly when `sp` was an empty cell of the board, with
     * the colours described above, and every marble at rest under gravity.
     */
    ghost predicate Spawned(m0: MarbleMap, m1: MarbleMap, sp: Coord) {
      && |m1| == |m0| + (if InBounds(sp, settings.radius) && sp !in m0 then 1 else 0)
      && (if InBounds(sp, settings.radius) && sp !in m0 then
            exists col :: PlacedThenFell(m0, m1, sp, col)
          else
            SameColors(m0, m1) && (!settings.gravity ==> m1 == m0))
      && (settings.gravity ==> AtRest(m1, settings.radius))
    }

    /**
     * Board `m1` is `m0` with a fitting marble of colour `col` put down at
     * `sp` and then left to gravity.
     */
    ghost predicate PlacedThenFell(m0: MarbleMap, m1: MarbleMap, sp: Coord, col: Marble) {
      var placed := m0[sp := col];
      && FitsAt(m0, sp, col, settings.clearBlobSize)
      && SameColors(placed, m1)
      && (!settings.gravity ==> m1 == placed)
      && (AtRest(placed, settings.radius) ==> m1 == placed)
    }

    /** The spawn itself, at the planned point `sp`. */
    method SpawnAt(sp: Coord, roll: nat)
      requires Playable() && Consistent(marbles, actionQueue, Some(sp), settings.radius)
      modifies this`marbles, this`actionQueue, this`plannedNextSpawnPos
      ensures Consistent(marbles, actionQueue, plannedNextSpawnPos, settings.radius)
      ensures SpawnedAt(old(marbles), old(actionQueue), sp)
    {
      PlaceAndFall(sp, roll);
      ghost var q0 := actionQueue;
      actionQueue := actionQueue + [ClearBlobs(1)];
      assert forall a :: a in actionQueue ==> a in q0 || a == ClearBlobs(1);
      plannedNextSpawnPos := NextSpawnpoint(marbles, settings.radius, sp);
      NextSpawnpointEmpty(marbles, settings.radius, sp);
    }

    /** `spawn_marble` at `sp`, then `gravitate`. */
    method PlaceAndFall(sp: Coord, roll: nat)
      requires Playable() && AllInBounds(marbles, settings.radius)
      modifies this`marbles
      ensures AllInBounds(marbles, settings.radius)
      ensures Spawned(old(marbles), marbles, sp)
    {
      ghost var m0 := marbles;
      var ok := SpawnMarble(sp, roll);
      assert |marbles| == |m0| + (if ok then 1 else 0);
      assert AllInBounds(marbles, settings.radius);
      ghost var m1 := marbles;
      Gravitate();
      assert |marbles| == |m1|;
      if ok {
        assert PlacedThenFell(m0, marbles, sp, m1[sp]);
      }
    }

    /**
     * The loop over the front of the queue in `tick`: a ClearBlobs at the
     * front while the board has no clearable blob is dropped, without
     * touching the action timer; the first action that stays advances the
     * timer, and is due once the timer reaches its time.
     */
    method PollAction() returns (doAction: bool)
      modifies this`actionQueue, this`actionTimer
      ensures |actionQueue| <= |old(actionQueue)|
      ensures actionQueue == old(actionQueue)[|old(actionQueue)| - |actionQueue|..]
      ensures forall j :: 0 <= j < |old(actionQueue)| - |actionQueue| ==> old(actionQueue)[j].ClearBlobs?
      ensures |actionQueue| < |old(actionQueue)| ==> NoClearable(marbles, settings.clearBlobSize)
      ensures actionQueue != [] && actionQueue[0].ClearBlobs? ==> !NoClearable(marbles, settings.clearBlobSize)
      ensures actionQueue == [] ==> !doAction && actionTimer == old(actionTimer)
      ensures actionQueue != [] ==>
        actionTimer == old(actionTimer) + 1 && (doAction <==> actionTimer >= Time(actionQueue[0]))
    {
      ghost var q0 := actionQueue;
      while true
        invariant |actionQueue| <= |q0| && actionQueue == q0[|q0| - |actionQueue|..]
        invariant forall j :: 0 <= j < |q0| - |actionQueue| ==> q0[j].ClearBlobs?
        invariant |actionQueue| < |q0| ==> NoClearable(marbles, settings.clearBlobSize)
        invariant actionTimer == old(actionTimer)
        decreases |actionQueue|
      {
        if actionQueue == [] {
          return false;
        }
        var front := actionQueue[0];
        if front.ClearBlobs? {
          var blobs := FindBlobs(marbles, settings.clearBlobSize);
          if blobs == [] {
            actionQueue := actionQueue[1..];
            continue;
          }
        }
        actionTimer := actionTimer + 1;
        return actionTimer >= Time(front);
      }
    }

    /**
     * The due action leaves the front of the queue and runs, and the action
     * timer restarts. A ClearBlobs may put its successor at the front.
     */
    method RunAction()
      requires actionQueue != [] && AllInBounds(marbles, settings.radius)
      requires forall a :: a in actionQueue ==> ActionInBounds(a, settings.radius)
      modifies this`marbles, this`score, this`actionQueue, this`actionTimer
      ensures AllInBounds(marbles, settings.radius)
      ensures forall a :: a in actionQueue ==> ActionInBounds(a, settings.radius)
      ensures Executed(old(actionQueue)[0], old(marbles), marbles, old(score), score, old(actionQueue)[1..], actionQueue,
                       settings.clearBlobSize)
      ensures score >= old(score) && actionTimer == 0
      ensures actionQueue == old(actionQueue)[1..]
        || (old(actionQueue)[0].ClearBlobs? && actionQueue == [ClearBlobs(old(actionQueue)[0].multiplier + 1)] + old(actionQueue)[1..])
    {
      var action := actionQueue[0];
      assert action in actionQueue;
      actionQueue := actionQueue[1..];
      ghost var m0, s0, rest := marbles, score, actionQueue;
      ExecuteAction(action);
      ExecutedFacts(action, m0, marbles, s0, score, rest, actionQueue, settings.clearBlobSize);
      ExecutedInBounds(action, m0, marbles, s0, score, rest, actionQueue, settings.clearBlobSize, settings.radius);
      QueueStaysInBounds(rest, actionQueue, settings.radius);
      actionTimer := 0;
    }

    /**
     * After an action: gravity runs, and the planned spawn point is shunted
     * by gravity, as the marbles likely moved.
     */
    method Settle()
      requires AllInBounds(marbles, settings.radius)
      modifies this`marbles, this`plannedNextSpawnPos
      ensures AllInBounds(marbles, settings.radius)
      ensures settings.gravity ==> AtRest(marbles, settings.radius)
      ensures !settings.gravity ==> marbles == old(marbles)
      ensures plannedNextSpawnPos ==
        if old(plannedNextSpawnPos).None? then None
        else Some(GravityAll(marbles, settings.radius, old(plannedNextSpawnPos).value))
      ensures plannedNextSpawnPos.Some? ==> GravityStep(marbles, settings.radius, plannedNextSpawnPos.value).None?
    {
      Gravitate();
      if plannedNextSpawnPos.Some? {
        plannedNextSpawnPos := Some(GravityAll(marbles, settings.radius, plannedNextSpawnPos.value));
      }
    }

    /**
     * `tick`, one frame. The game is lost exactly when the spawn timer runs
     * out with no planned spawn point, and then only the spawn timer moves.
     * Otherwise the tick count goes up by one; the action timer stays put
     * when no action is queued, goes up by one while the front action is not
     * yet due, and restarts at 0 when a due action runs (after which gravity
     * runs and the planned spawn point is shunted); the score never goes
     * down, and the board stays valid.
     */
    method Tick(roll: nat) returns (lost: bool)
      requires Playable() && Valid()
      modifies this`marbles, this`score, this`actionQueue, this`actionTimer, this`nextSpawnTimer
      modifies this`plannedNextSpawnPos, this`tickCount
      ensures Valid()
      ensures lost <==> old(nextSpawnTimer) + 1 >= TimerMax(old(tickCount)) && old(plannedNextSpawnPos).None?
      ensures lost ==>
        && marbles == old(marbles) && score == old(score) && actionQueue == old(actionQueue)
        && actionTimer == old(actionTimer) && tickCount == old(tickCount) && nextSpawnTimer == 0
        && plannedNextSpawnPos == old(plannedNextSpawnPos)
      ensures !lost ==> tickCount == old(tickCount) + 1
      ensures !lost ==>
        nextSpawnTimer == if old(nextSpawnTimer) + 1 >= TimerMax(old(tickCount)) then 0 else old(nextSpawnTimer) + 1
      ensures !lost ==>
        || (actionQueue == [] && actionTimer == old(actionTimer))
        || (actionQueue != [] && actionTimer == old(actionTimer) + 1 && actionTimer < Time(actionQueue[0]))
        || actionTimer == 0
      ensures score >= old(score)
    {
      lost := SpawnPhase(roll);
      if lost {
        return;
      }
      var doAction := PollAction();
      if doAction {
        RunAction();
        Settle();
      }
      tickCount := tickCount + 1;
    }
  }
}
