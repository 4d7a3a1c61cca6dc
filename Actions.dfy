/**
 * What the three board actions do to the marbles, stated on values: the
 * swap of two cells that Cycle repeats along its path, the colour filter of
 * DeleteColor, and the cells and score of ClearBlobs.
 */
module Actions {
  import opened Wrappers
  import opened Hex
  import opened Marbles
  import opened Gravity
  import opened Blobs

  /** What a cell holds: its marble, or nothing. */
  function Content(m: MarbleMap, c: Coord): Option<Marble> {
    if c in m then Some(m[c]) else None
  }

  /** Two boards that agree on every cell are the same board. */
  lemma ContentExt(a: MarbleMap, b: MarbleMap)
    requires forall c :: Content(a, c) == Content(b, c)
    ensures a == b
  {
    forall c ensures c in a <==> c in b {
      assert Content(a, c) == Content(b, c);
    }
    forall c | c in a ensures a[c] == b[c] {
      assert Content(a, c) == Content(b, c);
    }
  }

  /** The cell whose content lands on c when p and q exchange contents. */
  function SwapSource(c: Coord, p: Coord, q: Coord): Coord {
    if c == p then q else if c == q then p else c
  }

  /** The board with the contents of p and q exchanged, an empty cell included. */
  function Swapped(m: MarbleMap, p: Coord, q: Coord): MarbleMap {
    map c | c in m.Keys + {p, q} && SwapSource(c, p, q) in m :: m[SwapSource(c, p, q)]
  }

  /** Each cell of the swapped board holds what its source cell held. */
  lemma SwappedContent(m: MarbleMap, p: Coord, q: Coord)
    ensures forall c :: Content(Swapped(m, p, q), c) == Content(m, SwapSource(c, p, q))
  {
  }

  /** Swapping two cells keeps the number of marbles and of each colour. */
  lemma SwapKeepsColors(m: MarbleMap, p: Coord, q: Coord)
    ensures SameColors(m, Swapped(m, p, q))
  {
    var r := Swapped(m, p, q);
    SwappedContent(m, p, q);
    if p == q || (p !in m && q !in m) {
      forall c ensures Content(r, c) == Content(m, c) {
        assert Content(r, c) == Content(m, SwapSource(c, p, q));
      }
      ContentExt(r, m);
    } else if p in m && q !in m {
      forall c ensures Content(r, c) == Content(Move(m, p, q), c) {
        assert Content(r, c) == Content(m, SwapSource(c, p, q));
      }
      ContentExt(r, Move(m, p, q));
      MoveKeepsColors(m, p, q);
    } else if q in m && p !in m {
      forall c ensures Content(r, c) == Content(Move(m, q, p), c) {
        assert Content(r, c) == Content(m, SwapSource(c, p, q));
      }
      ContentExt(r, Move(m, q, p));
      MoveKeepsColors(m, q, p);
    } else {
      ExchangeKeepsColors(m, p, q, r);
    }
  }

  /** Exchanging the marbles of two occupied cells keeps every colour count. */
  lemma ExchangeKeepsColors(m: MarbleMap, p: Coord, q: Coord, r: MarbleMap)
    requires p != q && p in m && q in m
    requires forall c :: Content(r, c) == Content(m, SwapSource(c, p, q))
    ensures SameColors(m, r)
  {
    forall c ensures c in r <==> c in m {
      assert Content(r, c) == Content(m, SwapSource(c, p, q));
    }
    assert r.Keys == m.Keys;
    forall col ensures ColorCount(m, col) == ColorCount(r, col) {
      ExchangeKeepsColor(m, p, q, r, col);
    }
  }

  lemma ExchangeKeepsColor(m: MarbleMap, p: Coord, q: Coord, r: MarbleMap, col: Marble)
    requires p != q && p in m && q in m
    requires forall c :: Content(r, c) == Content(m, SwapSource(c, p, q))
    ensures ColorCount(m, col) == ColorCount(r, col)
  {
    var rest := CellsOf(m, col) - {p, q};
    var here := CellsOf(m, col) * {p, q};
    var there := CellsOf(r, col) * {p, q};
    ExchangeOffPair(m, p, q, r, col);
    ExchangeOnPair(m, p, q, r, col);
    assert CellsOf(m, col) == rest + here;
    assert CellsOf(r, col) == rest + there;
  }

  lemma ExchangeOffPair(m: MarbleMap, p: Coord, q: Coord, r: MarbleMap, col: Marble)
    requires forall c :: Content(r, c) == Content(m, SwapSource(c, p, q))
    ensures CellsOf(r, col) - {p, q} == CellsOf(m, col) - {p, q}
  {
    forall c | c != p && c != q ensures c in CellsOf(r, col) <==> c in CellsOf(m, col) {
      assert Content(r, c) == Content(m, c);
    }
  }

  lemma ExchangeOnPair(m: MarbleMap, p: Coord, q: Coord, r: MarbleMap, col: Marble)
    requires p != q && p in m && q in m
    requires forall c :: Content(r, c) == Content(m, SwapSource(c, p, q))
    ensures |CellsOf(m, col) * {p, q}| == |CellsOf(r, col) * {p, q}|
  {
    assert Content(r, p) == Content(m, q) && Content(r, q) == Content(m, p);
    var here := CellsOf(m, col) * {p, q};
    var there := CellsOf(r, col) * {p, q};
    if m[p] == col && m[q] == col {
      assert here == there;
    } else if m[p] == col {
      assert here == {p} && there == {q};
    } else if m[q] == col {
      assert here == {q} && there == {p};
    } else {
      assert here == {} && there == {};
    }
  }

  /** Cells off the path keep their contents. */
  ghost predicate OffPathUnchanged(m0: MarbleMap, m1: MarbleMap, poses: seq<Coord>) {
    forall c :: c !in poses ==> Content(m1, c) == Content(m0, c)
  }

  /**
   * Every content on the path has moved one step along it, and the content
   * of the last cell has moved to the first.
   */
  ghost predicate Rotated(m0: MarbleMap, m1: MarbleMap, poses: seq<Coord>)
    requires |poses| >= 1
  {
    && Content(m1, poses[0]) == Content(m0, poses[|poses| - 1])
    && forall j :: 0 < j < |poses| ==> Content(m1, poses[j]) == Content(m0, poses[j - 1])
  }

  /**
   * A rotation along a path leaves no freedom: two boards that both rotate
   * the same board along the same path, and keep every other cell, are
   * equal.
   */
  lemma RotationDeterminesBoard(m0: MarbleMap, m1: MarbleMap, m2: MarbleMap, poses: seq<Coord>)
    requires |poses| >= 1
    requires Rotated(m0, m1, poses) && OffPathUnchanged(m0, m1, poses)
    requires Rotated(m0, m2, poses) && OffPathUnchanged(m0, m2, poses)
    ensures m1 == m2
  {
    forall c ensures Content(m1, c) == Content(m2, c) {
      if c in poses {
        var j :| 0 <= j < |poses| && poses[j] == c;
        if j > 0 {
          assert Content(m1, poses[j]) == Content(m0, poses[j - 1]);
        }
      }
    }
    ContentExt(m1, m2);
  }

  /**
   * The Cycle loop after the windows from the last one down to window i
   * have swapped: the last content sits at cell i, each cell after i holds
   * its predecessor's content, and the cells before i are untouched.
   */
  ghost predicate RotatedDownTo(m0: MarbleMap, m1: MarbleMap, poses: seq<Coord>, i: nat)
    requires i < |poses|
  {
    && Content(m1, poses[i]) == Content(m0, poses[|poses| - 1])
    && (forall j :: i < j < |poses| ==> Content(m1, poses[j]) == Content(m0, poses[j - 1]))
    && (forall j :: 0 <= j < i ==> Content(m1, poses[j]) == Content(m0, poses[j]))
  }

  /** Swapping window i - 1 carries the rotation one cell further back. */
  lemma RotateStep(m0: MarbleMap, m1: MarbleMap, poses: seq<Coord>, i: nat)
    requires Distinct(poses) && 0 < i < |poses|
    requires RotatedDownTo(m0, m1, poses, i)
    ensures RotatedDownTo(m0, Swapped(m1, poses[i - 1], poses[i]), poses, i - 1)
  {
    var p, q := poses[i - 1], poses[i];
    var m2 := Swapped(m1, p, q);
    SwappedContent(m1, p, q);
    assert Content(m2, p) == Content(m1, q);
    assert Content(m2, q) == Content(m1, p);
    forall j | 0 <= j < |poses| && j != i - 1 && j != i
      ensures Content(m2, poses[j]) == Content(m1, poses[j])
    {
      assert SwapSource(poses[j], p, q) == poses[j];
    }
  }

  /** Swapping two cells of the path keeps every cell off the path. */
  lemma SwapOnPath(m0: MarbleMap, m1: MarbleMap, poses: seq<Coord>, p: Coord, q: Coord)
    requires OffPathUnchanged(m0, m1, poses) && p in poses && q in poses
    ensures OffPathUnchanged(m0, Swapped(m1, p, q), poses)
  {
    SwappedContent(m1, p, q);
  }

  /** When the rotation has reached the first cell, the whole path is rotated. */
  lemma RotatedDownToFirst(m0: MarbleMap, m1: MarbleMap, poses: seq<Coord>)
    requires |poses| >= 1 && RotatedDownTo(m0, m1, poses, 0)
    ensures Rotated(m0, m1, poses)
  {
  }

  /**
   * What Cycle promises: cells off the path keep their contents, along a
   * path without repeats the contents rotate one step, a path shorter
   * than two cells changes nothing, and the colours are kept.
   */
  ghost predicate CycledAlong(m0: MarbleMap, m1: MarbleMap, poses: seq<Coord>) {
    && OffPathUnchanged(m0, m1, poses)
    && (|poses| >= 1 && Distinct(poses) ==> Rotated(m0, m1, poses))
    && (|poses| < 2 ==> m1 == m0)
    && SameColors(m0, m1)
  }

  /** A marble after a Cycle along in-bounds cells is in bounds. */
  lemma CycleKeepsInBounds(m0: MarbleMap, m1: MarbleMap, poses: seq<Coord>, radius: nat)
    requires OffPathUnchanged(m0, m1, poses)
    requires forall c :: c in poses ==> InBounds(c, radius)
    requires AllInBounds(m0, radius)
    ensures AllInBounds(m1, radius)
  {
    forall c | c in m1 ensures InBounds(c, radius) {
      if c !in poses {
        assert Content(m1, c) == Content(m0, c);
      }
    }
  }

  /** `retain` of every marble not of colour col. */
  function WithoutColor(m: MarbleMap, col: Marble): MarbleMap {
    map c | c in m && m[c] != col :: m[c]
  }

  /**
   * Deleting a colour leaves none of it, keeps every other marble where it
   * was, and removes exactly as many marbles as there were of the colour.
   */
  lemma WithoutColorFacts(m: MarbleMap, col: Marble)
    ensures var r := WithoutColor(m, col);
      && ColorCount(r, col) == 0
      && (forall c :: c in m && m[c] != col ==> c in r && r[c] == m[c])
      && (forall c :: c in r ==> c in m && r[c] != col)
      && |m| == |r| + ColorCount(m, col)
  {
    var r := WithoutColor(m, col);
    assert CellsOf(r, col) == {};
    WithoutColorSplit(m, col);
  }

  lemma WithoutColorSplit(m: MarbleMap, col: Marble)
    ensures |m| == |WithoutColor(m, col)| + ColorCount(m, col)
  {
    var r := WithoutColor(m, col);
    var gone := CellsOf(m, col);
    assert m.Keys == r.Keys + gone;
    assert r.Keys * gone == {};
  }

  /** The cells on some blob of at least `clearBlobSize` marbles. */
  ghost function ClearableCells(m: MarbleMap, clearBlobSize: nat): set<Coord> {
    set c | c in m && Clearable(m, clearBlobSize, c)
  }

  /** What `find_blobs` promises about the blobs it returns. */
  ghost predicate BlobsOf(m: MarbleMap, clearBlobSize: nat, blobs: seq<seq<Coord>>) {
    && (forall i :: 0 <= i < |blobs| ==>
         IsBlob(m, blobs[i]) && Closed(m, Elems(blobs[i])) && |blobs[i]| >= clearBlobSize)
    && (forall i, j :: 0 <= i < j < |blobs| ==> Elems(blobs[i]) !! Elems(blobs[j]))
    && (blobs == [] <==> NoClearable(m, clearBlobSize))
    && (forall c :: c in Flatten(blobs) <==> Clearable(m, clearBlobSize, c))
  }

  /**
   * The flattened blobs list every clearable cell exactly once, so their
   * number is the number of clearable cells, and it is zero exactly when
   * there is no blob.
   */
  lemma ClearedCells(m: MarbleMap, clearBlobSize: nat, blobs: seq<seq<Coord>>)
    requires BlobsOf(m, clearBlobSize, blobs)
    ensures Distinct(Flatten(blobs))
    ensures Elems(Flatten(blobs)) == ClearableCells(m, clearBlobSize)
    ensures |Flatten(blobs)| == |ClearableCells(m, clearBlobSize)|
    ensures Flatten(blobs) == [] <==> blobs == []
  {
    FlattenDistinct(blobs);
    forall c | c in Flatten(blobs) ensures c in m {
      var b :| IsBlob(m, b) && |b| >= clearBlobSize && c in b;
    }
    assert Elems(Flatten(blobs)) == ClearableCells(m, clearBlobSize);
    DistinctCard(Flatten(blobs));
    if blobs != [] {
      assert |blobs[0]| > 0;
      assert Flatten(blobs) == blobs[0] + Flatten(blobs[1..]);
    }
  }

  /** What ClearBlobs does to the marbles: every clearable cell is emptied, nothing else changes. */
  ghost predicate ClearedBlobs(m0: MarbleMap, m1: MarbleMap, clearBlobSize: nat) {
    && m1.Keys == m0.Keys - ClearableCells(m0, clearBlobSize)
    && (forall c :: c in m1 ==> m1[c] == m0[c])
  }

  /**
   * The score of one clearing: every marble counts once and every one past
   * the sixth once more, times the multiplier and the number of blobs.
   */
  function ClearScore(n: nat, multiplier: nat, blobCount: nat): (s: nat)
    ensures n <= 6 ==> s == n * multiplier * blobCount
    ensures n > 6 ==> s == (2 * n - 6) * multiplier * blobCount
  {
    (n + SaturatingSub(n, 6)) * multiplier * blobCount
  }

  /**
   * One ClearBlobs step with the given multiplier, from board m0, score s0
   * and queue q0 to m1, s1, q1: the clearable cells are emptied; with none
   * nothing changes, otherwise the successor ClearBlobs goes to the front of
   * the queue; the score grows by the clearing score over the blobs found.
   */
  ghost predicate ClearStep(m0: MarbleMap, m1: MarbleMap, s0: nat, s1: nat, q0: seq<BoardAction>, q1: seq<BoardAction>,
                            clearBlobSize: nat, multiplier: nat)
  {
    && ClearedBlobs(m0, m1, clearBlobSize)
    && (NoClearable(m0, clearBlobSize) ==> m1 == m0 && s1 == s0 && q1 == q0)
    && (!NoClearable(m0, clearBlobSize) ==> q1 == [ClearBlobs(multiplier + 1)] + q0)
    && (exists blobs :: (BlobsOf(m0, clearBlobSize, blobs)
         && s1 == s0 + ClearScore(|ClearableCells(m0, clearBlobSize)|, multiplier, |blobs|)))
  }

  /**
   * `execute_action` from board m0, score s0 and queue q0 to m1, s1, q1:
   * a Cycle rotates the marbles along its path, a DeleteColor removes its
   * colour at one point per marble, a ClearBlobs is one clearing step.
   */
  ghost predicate Executed(action: BoardAction, m0: MarbleMap, m1: MarbleMap, s0: nat, s1: nat,
                           q0: seq<BoardAction>, q1: seq<BoardAction>, clearBlobSize: nat)
  {
    match action
    case Cycle(poses) => CycledAlong(m0, m1, poses) && s1 == s0 && q1 == q0
    case DeleteColor(col) => m1 == WithoutColor(m0, col) && s1 == s0 + ColorCount(m0, col) && q1 == q0
    case ClearBlobs(multiplier) => ClearStep(m0, m1, s0, s1, q0, q1, clearBlobSize, multiplier)
  }

  /**
   * Whatever the action, the score does not go down, and the queue is
   * unchanged or gains the successor ClearBlobs at its front.
   */
  lemma ExecutedFacts(action: BoardAction, m0: MarbleMap, m1: MarbleMap, s0: nat, s1: nat,
                      q0: seq<BoardAction>, q1: seq<BoardAction>, clearBlobSize: nat)
    requires Executed(action, m0, m1, s0, s1, q0, q1, clearBlobSize)
    ensures s1 >= s0
    ensures q1 == q0 || (action.ClearBlobs? && q1 == [ClearBlobs(action.multiplier + 1)] + q0)
  {
    if action.ClearBlobs? {
      ClearStepFacts(m0, m1, s0, s1, q0, q1, clearBlobSize, action.multiplier, 0);
    }
  }

  /**
   * A board whose marbles and whose action's cells lie within the radius
   * keeps its marbles within it.
   */
  lemma ExecutedInBounds(action: BoardAction, m0: MarbleMap, m1: MarbleMap, s0: nat, s1: nat,
                         q0: seq<BoardAction>, q1: seq<BoardAction>, clearBlobSize: nat, radius: nat)
    requires Executed(action, m0, m1, s0, s1, q0, q1, clearBlobSize)
    requires ActionInBounds(action, radius) && AllInBounds(m0, radius)
    ensures AllInBounds(m1, radius)
  {
    match action
    case Cycle(poses) =>
      CycleKeepsInBounds(m0, m1, poses, radius);
    case DeleteColor(col) =>
    case ClearBlobs(multiplier) =>
      ClearStepFacts(m0, m1, s0, s1, q0, q1, clearBlobSize, multiplier, radius);
  }

  /**
   * A clearing step never lowers the score, leaves the queue as it was or
   * with its successor at the front, and only removes marbles.
   */
  lemma ClearStepFacts(m0: MarbleMap, m1: MarbleMap, s0: nat, s1: nat, q0: seq<BoardAction>, q1: seq<BoardAction>,
                       clearBlobSize: nat, multiplier: nat, radius: nat)
    requires ClearStep(m0, m1, s0, s1, q0, q1, clearBlobSize, multiplier)
    ensures s1 >= s0
    ensures q1 == q0 || q1 == [ClearBlobs(multiplier + 1)] + q0
    ensures AllInBounds(m0, radius) ==> AllInBounds(m1, radius)
  {
    var blobs :| BlobsOf(m0, clearBlobSize, blobs)
      && s1 == s0 + ClearScore(|ClearableCells(m0, clearBlobSize)|, multiplier, |blobs|);
  }

  /** The colours tried by the first n attempts of the spawn retry loop. */
  function Tried(first: Marble, n: nat): set<Marble> {
    if n == 0 then {} else Tried(first, n - 1) + {AnotherN(first, n - 1)}
  }

  lemma {:induction false} NotTried(first: Marble, n: nat, x: Marble)
    requires forall j :: 0 <= j < n ==> AnotherN(first, j) != x
    ensures x !in Tried(first, n)
  {
    if n > 0 {
      NotTried(first, n - 1, x);
    }
  }

  /** The spawn retry loop never tries a colour twice within seven attempts. */
  lemma {:induction false} TriedCard(first: Marble, n: nat)
    requires n <= 7
    ensures |Tried(first, n)| == n
  {
    if n > 0 {
      TriedCard(first, n - 1);
      forall j | 0 <= j < n - 1 ensures AnotherN(first, j) != AnotherN(first, n - 1) {
        AnotherIsSevenCycle(first, j, n - 1);
      }
      NotTried(first, n - 1, AnotherN(first, n - 1));
    }
  }

  /**
   * The state of the spawn retry loop: attempt `tries` uses the colour
   * `tries` steps after the first draw, and every colour tried so far is
   * the colour of some neighbour of c.
   */
  ghost predicate Retrying(m0: MarbleMap, c: Coord, first: Marble, tries: nat, marble: Marble) {
    tries <= 6 && marble == AnotherN(first, tries) && Tried(first, tries) <= NeighborColors(m0, c)
  }

  /**
   * A failed attempt on an empty cell, where the flood fill reached two or
   * more marbles, moves the loop on to the next colour; there are at most
   * six failures, since there are only six neighbours.
   */
  lemma RetryStep(m0: MarbleMap, c: Coord, first: Marble, tries: nat, marble: Marble, blob: seq<Coord>)
    requires Retrying(m0, c, first, tries, marble)
    requires c !in m0
    requires IsBlob(m0[c := marble], blob) && blob[0] == c && |blob| >= 2
    ensures Retrying(m0, c, first, tries + 1, Another(marble))
  {
    FailingColorIsNeighbor(m0, c, marble, blob);
    assert Tried(first, tries + 1) <= NeighborColors(m0, c);
    TriedAtMostSix(first, tries + 1, m0, c);
  }

  /** The colour of the marble at x, as a set of at most one colour. */
  function ColorAt(m: MarbleMap, x: Coord): set<Marble> {
    if x in m then {m[x]} else {}
  }

  /** The colours of the marbles next to c. */
  function NeighborColors(m: MarbleMap, c: Coord): set<Marble> {
    ColorAt(m, Step(c, 0)) + ColorAt(m, Step(c, 1)) + ColorAt(m, Step(c, 2))
    + ColorAt(m, Step(c, 3)) + ColorAt(m, Step(c, 4)) + ColorAt(m, Step(c, 5))
  }

  /** Tried colours are all among the neighbours' colours, so there are at most six of them. */
  lemma TriedAtMostSix(first: Marble, n: nat, m: MarbleMap, c: Coord)
    requires n <= 7 && Tried(first, n) <= NeighborColors(m, c)
    ensures n <= 6
  {
    TriedCard(first, n);
    NeighborColorsCard(m, c);
    var a, b := Tried(first, n), NeighborColors(m, c);
    assert b == a + (b - a);
    assert a * (b - a) == {};
  }

  /** Six neighbours show at most six colours. */
  lemma NeighborColorsCard(m: MarbleMap, c: Coord)
    ensures |NeighborColors(m, c)| <= 6
  {
    var a := ColorAt(m, Step(c, 0)) + ColorAt(m, Step(c, 1)) + ColorAt(m, Step(c, 2));
    assert |a| <= 3;
    var b := a + ColorAt(m, Step(c, 3)) + ColorAt(m, Step(c, 4));
    assert |b| <= 5;
  }

  lemma ColorAtInNeighbors(m: MarbleMap, c: Coord, d: Direction)
    ensures ColorAt(m, Step(c, d)) <= NeighborColors(m, c)
  {
    if d == 0 {
    } else if d == 1 {
    } else if d == 2 {
    } else if d == 3 {
    } else if d == 4 {
    } else {
      assert d == 5;
    }
  }

  /**
   * A marble dropped on an empty cell only makes a blob of two or more
   * when a neighbour already has its colour.
   */
  lemma FailingColorIsNeighbor(m0: MarbleMap, c: Coord, col: Marble, blob: seq<Coord>)
    requires c !in m0
    requires IsBlob(m0[c := col], blob) && blob[0] == c && |blob| >= 2
    ensures col in NeighborColors(m0, c)
  {
    var m1 := m0[c := col];
    assert LinkedBack(blob, 1);
    var j, d: Direction :| 0 <= j < 1 && blob[1] == Step(blob[j], d);
    assert blob[1] != blob[0];
    assert blob[1] in m1 && m1[blob[1]] == col;
    assert col in ColorAt(m0, Step(c, d));
    ColorAtInNeighbors(m0, c, d);
  }

  /** A blob of the new board that avoids c was already a blob of the old one. */
  lemma BlobAvoidingNew(m0: MarbleMap, c: Coord, col: Marble, b: seq<Coord>)
    requires IsBlob(m0[c := col], b) && c !in b
    ensures IsBlob(m0, b)
  {
    var m1 := m0[c := col];
    assert b[0] != c;
    forall i | 0 <= i < |b| ensures b[i] in m0 && m0[b[i]] == m0[b[0]] {
      assert b[i] != c;
    }
  }

  /**
   * A marble of colour col added at the empty cell c: every blob through c
   * is smaller than the clearing size, and if m0 had no clearable blob then
   * neither has the new board.
   */
  ghost predicate FitsAt(m0: MarbleMap, c: Coord, col: Marble, clearBlobSize: nat) {
    && (forall b :: IsBlob(m0[c := col], b) && c in b ==> |b| < clearBlobSize)
    && (NoClearable(m0, clearBlobSize) ==> NoClearable(m0[c := col], clearBlobSize))
  }

  /**
   * `col` is the first colour of the rotation from `first` that fits at c:
   * it is reached within six steps, and every colour before it fails.
   */
  ghost predicate FirstFitting(m0: MarbleMap, c: Coord, first: Marble, col: Marble, clearBlobSize: nat) {
    exists k :: 0 <= k <= 6 && col == AnotherN(first, k) && NoneFits(m0, c, first, k, clearBlobSize)
  }

  /** None of the first k colours of the rotation from `first` fits at c. */
  ghost predicate NoneFits(m0: MarbleMap, c: Coord, first: Marble, k: nat, clearBlobSize: nat) {
    forall j :: 0 <= j < k ==> !FitsAt(m0, c, AnotherN(first, j), clearBlobSize)
  }

  /** A colour of the rotation that does not fit extends the run of colours that do not. */
  lemma NoneFitsStep(m0: MarbleMap, c: Coord, first: Marble, k: nat, clearBlobSize: nat)
    requires NoneFits(m0, c, first, k, clearBlobSize) && !FitsAt(m0, c, AnotherN(first, k), clearBlobSize)
    ensures NoneFits(m0, c, first, k + 1, clearBlobSize)
  {
  }

  /**
   * When the flood fill from a new marble is smaller than the clearing size,
   * so is every blob through it, and a board without a clearable blob stays
   * without one.
   */
  lemma SpawnKeepsNoClearable(m0: MarbleMap, c: Coord, col: Marble, fill: seq<Coord>, clearBlobSize: nat)
    requires c !in m0
    requires IsBlob(m0[c := col], fill) && fill[0] == c && Closed(m0[c := col], Elems(fill))
    requires |fill| < clearBlobSize
    ensures FitsAt(m0, c, col, clearBlobSize)
  {
    var m1 := m0[c := col];
    forall b | IsBlob(m1, b) && c in b ensures |b| < clearBlobSize {
      var i :| 0 <= i < |b| && b[i] == c;
      BlobWithinClosed(m1, fill, b, i);
    }
    if NoClearable(m0, clearBlobSize) {
      forall b | IsBlob(m1, b) ensures |b| < clearBlobSize {
        if c !in b {
          BlobAvoidingNew(m0, c, col, b);
        }
      }
    }
  }

  /**
   * One attempt of the retry loop: a flood fill below the clearing size
   * means the colour fits; otherwise the loop moves on to the next colour.
   */
  lemma Attempt(m0: MarbleMap, c: Coord, first: Marble, tries: nat, marble: Marble, blob: seq<Coord>,
                clearBlobSize: nat)
    requires Retrying(m0, c, first, tries, marble) && c !in m0 && clearBlobSize >= 2
    requires IsBlob(m0[c := marble], blob) && blob[0] == c && Closed(m0[c := marble], Elems(blob))
    ensures |blob| < clearBlobSize ==> FitsAt(m0, c, marble, clearBlobSize)
    ensures |blob| >= clearBlobSize ==> Retrying(m0, c, first, tries + 1, Another(marble))
  {
    if |blob| < clearBlobSize {
      SpawnKeepsNoClearable(m0, c, marble, blob, clearBlobSize);
    } else {
      RetryStep(m0, c, first, tries, marble, blob);
    }
  }

  /** Every cell an action names lies on the board. */
  predicate ActionInBounds(a: BoardAction, radius: nat) {
    a.Cycle? ==> forall c :: c in a.poses ==> InBounds(c, radius)
  }
}
