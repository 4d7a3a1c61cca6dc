/**
 * The blob finder: flood fill through same-coloured neighbours, and the
 * search for every blob big enough to clear.
 */
module Blobs {
  import opened Hex
  import opened Marbles
  import opened Gravity

  /** The cells of a sequence, as a set. */
  function Elems(s: seq<Coord>): set<Coord> { set x | x in s }

  predicate Distinct(s: seq<Coord>) {
    forall i, j :: 0 <= i < j < |s| ==> s[i] != s[j]
  }

  /** Every cell of s holds a marble of colour col. */
  predicate AllColored(m: MarbleMap, s: seq<Coord>, col: Marble) {
    forall i :: 0 <= i < |s| ==> s[i] in m && m[s[i]] == col
  }

  /** The i-th cell of s is a neighbour of an earlier one. */
  predicate LinkedBack(s: seq<Coord>, i: int)
    requires 0 <= i < |s|
  {
    exists j, d: Direction :: 0 <= j < i && s[i] == Step(s[j], d)
  }

  /** Every cell after the first is a neighbour of an earlier one. */
  predicate Chained(s: seq<Coord>) {
    forall i :: 0 < i < |s| ==> LinkedBack(s, i)
  }

  /**
   * A blob: a non-empty, duplicate-free, connected group of marbles of a
   * single colour, listed from a starting cell outwards.
   */
  predicate IsBlob(m: MarbleMap, b: seq<Coord>) {
    |b| > 0 && b[0] in m && AllColored(m, b, m[b[0]]) && Chained(b) && Distinct(b)
  }

  /** Every same-coloured neighbour of a marble in s is in s too. */
  predicate Closed(m: MarbleMap, s: set<Coord>) {
    forall a, d: Direction :: a in s && a in m && Step(a, d) in m && m[Step(a, d)] == m[a] ==> Step(a, d) in s
  }

  /** No blob of the board is big enough to clear. */
  ghost predicate NoClearable(m: MarbleMap, clearBlobSize: nat) {
    forall b :: IsBlob(m, b) ==> |b| < clearBlobSize
  }

  /** A duplicate-free sequence has as many cells as elements. */
  lemma {:induction false} DistinctCard(s: seq<Coord>)
    requires Distinct(s)
    ensures |Elems(s)| == |s|
  {
    if s != [] {
      var t := s[..|s| - 1];
      assert Distinct(t);
      DistinctCard(t);
      assert Elems(s) == Elems(t) + {s[|s| - 1]};
      assert s[|s| - 1] !in Elems(t);
    }
  }

  /**
   * Walking back along a blob's chain from a cell inside a closed set
   * stays inside it, so the blob's first cell is inside too.
   */
  lemma {:induction false} ChainReachesRoot(m: MarbleMap, b: seq<Coord>, s: set<Coord>, i: nat)
    requires IsBlob(m, b) && Closed(m, s)
    requires i < |b| && b[i] in s
    ensures b[0] in s
    decreases i
  {
    if i > 0 {
      assert LinkedBack(b, i);
      var j, d :| 0 <= j < i && b[i] == Step(b[j], d);
      StepBack(b[j], d);
      assert b[j] == Step(b[i], Opposite(d));
      ChainReachesRoot(m, b, s, j);
    }
  }

  /** A blob whose first cell lies in a closed set lies in it entirely. */
  lemma {:induction false} ChainStaysInside(m: MarbleMap, b: seq<Coord>, s: set<Coord>, n: nat)
    requires IsBlob(m, b) && Closed(m, s) && b[0] in s
    requires n <= |b|
    ensures forall i :: 0 <= i < n ==> b[i] in s
  {
    if n > 1 {
      ChainStaysInside(m, b, s, n - 1);
      assert LinkedBack(b, n - 1);
      var j, d :| 0 <= j < n - 1 && b[n - 1] == Step(b[j], d);
      assert b[j] in s;
    }
  }

  lemma SubsetCard(a: set<Coord>, b: set<Coord>)
    requires a <= b
    ensures |a| <= |b|
  {
    assert b == a + (b - a);
  }

  /**
   * A closed blob is the whole connected group of its first cell: every
   * blob that shares a cell with it lies inside it, so it is no shorter.
   */
  lemma BlobWithinClosed(m: MarbleMap, f: seq<Coord>, b: seq<Coord>, i: nat)
    requires IsBlob(m, f) && Closed(m, Elems(f))
    requires IsBlob(m, b) && i < |b| && b[i] in f
    ensures Elems(b) <= Elems(f) && |b| <= |f|
  {
    ChainReachesRoot(m, b, Elems(f), i);
    ChainStaysInside(m, b, Elems(f), |b|);
    assert Elems(b) <= Elems(f);
    DistinctCard(b);
    DistinctCard(f);
    SubsetCard(Elems(b), Elems(f));
  }

  /** t is a cell of b or a neighbour of one. */
  predicate Near(t: Coord, b: seq<Coord>) {
    t in b || exists d: Direction :: Step(t, d) in b
  }

  /**
   * Growing the blob by x, with x and its neighbours pushed, keeps every
   * stacked cell near the blob.
   */
  lemma NearGrow(rest: seq<Coord>, b: seq<Coord>, x: Coord)
    requires forall k :: 0 <= k < |rest| ==> Near(rest[k], b)
    ensures forall k :: 0 <= k < |rest + [x] + Neighbors(x)| ==> Near((rest + [x] + Neighbors(x))[k], b + [x])
  {
    var b' := b + [x];
    var todo' := rest + [x] + Neighbors(x);
    assert forall t :: t in b ==> t in b';
    assert x in b';
    forall k | 0 <= k < |todo'| ensures Near(todo'[k], b') {
      if k < |rest| {
        assert todo'[k] == rest[k];
        assert Near(rest[k], b);
      } else if k > |rest| {
        var d: Direction := k - |rest| - 1;
        assert todo'[k] == Step(x, d);
        StepBack(x, d);
        assert Step(Step(x, d), Opposite(d)) in b';
      }
    }
  }

  /** Appending a neighbour of an earlier cell keeps a sequence chained. */
  lemma ChainGrow(b: seq<Coord>, x: Coord, j: int, d: Direction)
    requires Chained(b) && 0 <= j < |b| && x == Step(b[j], d)
    ensures Chained(b + [x])
  {
    var b' := b + [x];
    forall i | 0 < i < |b'| ensures LinkedBack(b', i) {
      if i < |b| {
        assert LinkedBack(b, i);
        var j', d': Direction :| 0 <= j' < i && b[i] == Step(b[j'], d');
        assert 0 <= j' < i && b'[i] == Step(b'[j'], d');
      } else {
        assert 0 <= j < i && b'[i] == Step(b'[j], d);
      }
    }
    assert Chained(b');
  }

  /** Popping a cell and pushing x and its neighbours keeps the frontier covered, x included. */
  lemma FrontierGrow(m: MarbleMap, color: Marble, seen: set<Coord>, rest: seq<Coord>, x: Coord)
    requires FrontierCovered(m, color, seen, rest + [x])
    ensures FrontierCovered(m, color, seen + {x}, rest + [x] + Neighbors(x))
  {
    var todo' := rest + [x] + Neighbors(x);
    assert forall t :: t in rest + [x] ==> t in todo';
    forall d: Direction ensures Step(x, d) in todo' {
      assert todo'[|rest| + 1 + d] == Step(x, d);
    }
  }

  /**
   * Every same-coloured neighbour of a cell already in the blob is in the
   * blob or still waiting on the stack.
   */
  predicate FrontierCovered(m: MarbleMap, color: Marble, seen: set<Coord>, todo: seq<Coord>) {
    forall a, d: Direction :: a in seen && Step(a, d) in m && m[Step(a, d)] == color ==>
      Step(a, d) in seen || Step(a, d) in todo
  }

  /** The loop invariant of the flood fill from c. */
  predicate FloodInv(m: MarbleMap, c: Coord, color: Marble, seen: set<Coord>, todo: seq<Coord>, blob: seq<Coord>) {
    && seen == Elems(blob)
    && Distinct(blob) && AllColored(m, blob, color) && Chained(blob)
    && (blob != [] ==> blob[0] == c)
    && (blob == [] ==> todo == [c])
    && (blob != [] ==> forall k :: 0 <= k < |todo| ==> Near(todo[k], blob))
    && FrontierCovered(m, color, seen, todo)
  }

  /** Popping a cell that is already in the blob, or of another colour, keeps the invariant. */
  lemma FloodSkip(m: MarbleMap, c: Coord, color: Marble, seen: set<Coord>, todo: seq<Coord>, blob: seq<Coord>)
    requires FloodInv(m, c, color, seen, todo, blob) && todo != []
    requires var x := todo[|todo| - 1]; x in seen || x !in m || m[x] != color
    requires blob != []
    ensures FloodInv(m, c, color, seen, todo[..|todo| - 1], blob)
  {
    var x := todo[|todo| - 1];
    var rest := todo[..|todo| - 1];
    assert forall t :: t in todo ==> t in rest || t == x;
    assert forall k :: 0 <= k < |rest| ==> rest[k] == todo[k];
  }

  /** A new cell near the blob links back to it. */
  lemma ChainGrowNear(b: seq<Coord>, x: Coord)
    requires Chained(b) && x !in b
    requires b != [] ==> Near(x, b)
    ensures Chained(b + [x])
  {
    if b != [] {
      var d :| Step(x, d) in b;
      var j :| 0 <= j < |b| && b[j] == Step(x, d);
      StepBack(x, d);
      ChainGrow(b, x, j, Opposite(d));
    } else {
      assert b + [x] == [x];
    }
  }

  /** Popping a new cell of the colour adds it to the blob and its neighbours to the stack. */
  lemma FloodGrow(m: MarbleMap, c: Coord, color: Marble, seen: set<Coord>, todo: seq<Coord>, blob: seq<Coord>)
    requires FloodInv(m, c, color, seen, todo, blob) && todo != []
    requires var x := todo[|todo| - 1]; x !in seen && x in m && m[x] == color
    ensures var x := todo[|todo| - 1];
      FloodInv(m, c, color, seen + {x}, todo[..|todo| - 1] + [x] + Neighbors(x), blob + [x])
  {
    var x := todo[|todo| - 1];
    var rest := todo[..|todo| - 1];
    assert todo == rest + [x];
    assert Elems(blob + [x]) == seen + {x};
    assert forall k :: 0 <= k < |rest| ==> rest[k] == todo[k];
    if blob != [] {
      assert Near(x, blob);
    } else {
      assert rest == [];
    }
    ChainGrowNear(blob, x);
    NearGrow(rest, blob, x);
    FrontierGrow(m, color, seen, rest, x);
    ColoredGrow(m, blob, x, color);
  }

  /** Appending a new cell of the colour keeps the blob duplicate-free and single-coloured. */
  lemma ColoredGrow(m: MarbleMap, b: seq<Coord>, x: Coord, color: Marble)
    requires Distinct(b) && AllColored(m, b, color)
    requires x !in b && x in m && m[x] == color
    ensures Distinct(b + [x]) && AllColored(m, b + [x], color)
  {
  }

  /** Visiting one more cell of a set leaves fewer of it unvisited. */
  lemma FewerLeft(a: set<Coord>, seen: set<Coord>, x: Coord)
    requires x in a && x !in seen
    ensures |a - (seen + {x})| < |a - seen|
  {
    assert a - (seen + {x}) == (a - seen) - {x};
  }

  /** An empty stack leaves a closed blob. */
  lemma FloodDone(m: MarbleMap, c: Coord, color: Marble, seen: set<Coord>, blob: seq<Coord>)
    requires FloodInv(m, c, color, seen, [], blob)
    ensures Closed(m, Elems(blob))
  {
    forall a, d: Direction | a in Elems(blob) && a in m && Step(a, d) in m && m[Step(a, d)] == m[a]
      ensures Step(a, d) in Elems(blob)
    {
      var i :| 0 <= i < |blob| && blob[i] == a;
    }
  }

  /**
   * `floodfill`: the blob of same-coloured marbles connected to c, found
   * with a work stack; empty when c holds no marble.
   */
  method Floodfill(m: MarbleMap, c: Coord) returns (blob: seq<Coord>)
    ensures c !in m ==> blob == []
    ensures c in m ==> IsBlob(m, blob) && blob[0] == c && Closed(m, Elems(blob))
  {
    if c !in m {
      return [];
    }
    var color := m[c];
    var seen: set<Coord> := {};
    var todo := [c];
    blob := [];
    while todo != []
      invariant FloodInv(m, c, color, seen, todo, blob)
      decreases |CellsOf(m, color) - seen|, |todo|
    {
      var x := todo[|todo| - 1];
      if x !in seen && x in m && m[x] == color {
        FloodGrow(m, c, color, seen, todo, blob);
        FewerLeft(CellsOf(m, color), seen, x);
        seen := seen + {x};
        todo := todo[..|todo| - 1] + [x] + Neighbors(x);
        blob := blob + [x];
      } else {
        FloodSkip(m, c, color, seen, todo, blob);
        todo := todo[..|todo| - 1];
      }
    }
    FloodDone(m, c, color, seen, blob);
  }

  /**
   * `find_blobs`: every blob of at least `clearBlobSize` marbles. The
   * marbles are visited in whatever order the map gives; each reported blob
   * is a whole connected group, the groups are pairwise disjoint, and none
   * is reported exactly when no blob of the board reaches the size.
   */
  method FindBlobs(m: MarbleMap, clearBlobSize: nat) returns (blobs: seq<seq<Coord>>)
    ensures forall i :: 0 <= i < |blobs| ==>
      IsBlob(m, blobs[i]) && Closed(m, Elems(blobs[i])) && |blobs[i]| >= clearBlobSize
    ensures forall i, j :: 0 <= i < j < |blobs| ==> Elems(blobs[i]) !! Elems(blobs[j])
    ensures blobs == [] <==> NoClearable(m, clearBlobSize)
    ensures forall c :: c in Flatten(blobs) <==> Clearable(m, clearBlobSize, c)
  {
    var seen: set<Coord> := {};
    var keys := m.Keys;
    // the closed blob each visited cell was found in
    ghost var owner: map<Coord, seq<Coord>> := map[];
    blobs := [];
    while keys != {}
      invariant FindInv(m, clearBlobSize, keys, seen, owner, blobs)
      decreases keys
    {
      var c :| c in keys;
      if c in seen {
        keys := keys - {c};
        continue;
      }
      var blob := Floodfill(m, c);
      FindVisit(m, clearBlobSize, keys, seen, owner, blobs, c, blob);
      keys := keys - {c};
      seen := seen + Elems(blob);
      owner := Claim(owner, blob);
      if |blob| >= clearBlobSize {
        blobs := blobs + [blob];
      }
    }
    NoneReportedIffNoClearable(m, owner, blobs, clearBlobSize);
    ReportedCoverClearable(m, owner, blobs, clearBlobSize);
  }

  /** Some blob of at least `clearBlobSize` marbles goes through c. */
  ghost predicate Clearable(m: MarbleMap, clearBlobSize: nat, c: Coord) {
    exists b :: IsBlob(m, b) && |b| >= clearBlobSize && c in b
  }

  /** The cells of all the blobs, one blob after another (`flatten`). */
  function Flatten(bs: seq<seq<Coord>>): seq<Coord> {
    if bs == [] then [] else bs[0] + Flatten(bs[1..])
  }

  lemma {:induction false} FlattenMember(bs: seq<seq<Coord>>, c: Coord)
    ensures c in Flatten(bs) <==> exists i :: 0 <= i < |bs| && c in bs[i]
  {
    if bs != [] {
      FlattenMember(bs[1..], c);
      if c in Flatten(bs[1..]) {
        var i :| 0 <= i < |bs[1..]| && c in bs[1..][i];
        assert c in bs[i + 1];
      }
      if exists i :: 0 <= i < |bs| && c in bs[i] {
        var i :| 0 <= i < |bs| && c in bs[i];
        if i > 0 {
          assert c in bs[1..][i - 1];
        }
      }
    }
  }

  /**
   * Duplicate-free, pairwise disjoint blobs flatten to a duplicate-free
   * sequence, as long as all of them together.
   */
  lemma {:induction false} FlattenDistinct(bs: seq<seq<Coord>>)
    requires forall i :: 0 <= i < |bs| ==> Distinct(bs[i])
    requires forall i, j :: 0 <= i < j < |bs| ==> Elems(bs[i]) !! Elems(bs[j])
    ensures Distinct(Flatten(bs))
  {
    if bs != [] {
      var t := bs[1..];
      assert forall i, j :: 0 <= i < j < |t| ==> Elems(t[i]) !! Elems(t[j]) by {
        forall i, j | 0 <= i < j < |t| ensures Elems(t[i]) !! Elems(t[j]) {
          assert t[i] == bs[i + 1] && t[j] == bs[j + 1];
        }
      }
      FlattenDistinct(t);
      forall x | x in bs[0] ensures x !in Flatten(t) {
        FlattenMember(t, x);
        assert x in Elems(bs[0]);
      }
      DistinctConcat(bs[0], Flatten(t));
    }
  }

  /** Two duplicate-free sequences with no common cell concatenate to a duplicate-free one. */
  lemma DistinctConcat(a: seq<Coord>, b: seq<Coord>)
    requires Distinct(a) && Distinct(b)
    requires forall x :: x in a ==> x !in b
    ensures Distinct(a + b)
  {
    var s := a + b;
    forall i, j | 0 <= i < j < |s| ensures s[i] != s[j] {
      if i < |a| && j >= |a| {
        assert s[i] in a && s[j] == b[j - |a|];
      }
    }
  }

  /**
   * Once every marble is visited, the reported blobs cover exactly the
   * cells that lie on some blob of at least the size.
   */
  lemma ReportedCoverClearable(m: MarbleMap, owner: map<Coord, seq<Coord>>, blobs: seq<seq<Coord>>, clearBlobSize: nat)
    requires OwnersClosed(m, owner) && m.Keys <= owner.Keys
    requires forall x :: x in owner && |owner[x]| >= clearBlobSize ==> owner[x] in blobs
    requires Reported(m, blobs, clearBlobSize, owner.Keys)
    ensures forall c :: c in Flatten(blobs) <==> Clearable(m, clearBlobSize, c)
  {
    forall c ensures c in Flatten(blobs) <==> Clearable(m, clearBlobSize, c) {
      FlattenMember(blobs, c);
      if c in Flatten(blobs) {
        ReportedClearable(m, blobs, clearBlobSize, owner.Keys, c);
      }
      if Clearable(m, clearBlobSize, c) {
        ClearableReported(m, owner, blobs, clearBlobSize, c);
      }
    }
  }

  /** A cell on a reported blob lies on a blob of at least the size. */
  lemma ReportedClearable(m: MarbleMap, blobs: seq<seq<Coord>>, clearBlobSize: nat, seen: set<Coord>, c: Coord)
    requires Reported(m, blobs, clearBlobSize, seen)
    requires exists i :: 0 <= i < |blobs| && c in blobs[i]
    ensures Clearable(m, clearBlobSize, c)
  {
    var i :| 0 <= i < |blobs| && c in blobs[i];
    assert IsBlob(m, blobs[i]) && |blobs[i]| >= clearBlobSize;
  }

  /** A cell on a blob of at least the size lies on a reported blob. */
  lemma ClearableReported(m: MarbleMap, owner: map<Coord, seq<Coord>>, blobs: seq<seq<Coord>>, clearBlobSize: nat, c: Coord)
    requires OwnersClosed(m, owner) && m.Keys <= owner.Keys
    requires forall x :: x in owner && |owner[x]| >= clearBlobSize ==> owner[x] in blobs
    requires Clearable(m, clearBlobSize, c)
    ensures exists i :: 0 <= i < |blobs| && c in blobs[i]
  {
    var b :| IsBlob(m, b) && |b| >= clearBlobSize && c in b;
    var f := owner[b[0]];
    BlobWithinClosed(m, f, b, 0);
    var i :| 0 <= i < |blobs| && blobs[i] == f;
    assert c in Elems(b);
  }

  /** The loop invariant of the blob search. */
  ghost predicate FindInv(m: MarbleMap, clearBlobSize: nat, keys: set<Coord>, seen: set<Coord>,
                          owner: map<Coord, seq<Coord>>, blobs: seq<seq<Coord>>) {
    && keys <= m.Keys
    && seen == owner.Keys
    && (forall x :: x in m && x !in keys ==> x in seen)
    && OwnersClosed(m, owner)
    && (forall x :: x in owner && |owner[x]| >= clearBlobSize ==> owner[x] in blobs)
    && Reported(m, blobs, clearBlobSize, seen)
  }

  /** Every cell of the blob now belongs to it. */
  ghost function Claim(owner: map<Coord, seq<Coord>>, blob: seq<Coord>): (r: map<Coord, seq<Coord>>)
    ensures r.Keys == owner.Keys + Elems(blob)
    ensures forall x :: x in r ==> r[x] == if x in owner then owner[x] else blob
  {
    map x | x in owner.Keys + Elems(blob) :: if x in owner then owner[x] else blob
  }

  /** Visiting an unvisited marble c through its flood fill keeps the invariant. */
  lemma FindVisit(m: MarbleMap, clearBlobSize: nat, keys: set<Coord>, seen: set<Coord>,
                  owner: map<Coord, seq<Coord>>, blobs: seq<seq<Coord>>, c: Coord, blob: seq<Coord>)
    requires FindInv(m, clearBlobSize, keys, seen, owner, blobs)
    requires c in keys && c !in seen
    requires IsBlob(m, blob) && blob[0] == c && Closed(m, Elems(blob))
    ensures FindInv(m, clearBlobSize, keys - {c}, seen + Elems(blob), Claim(owner, blob),
                    if |blob| >= clearBlobSize then blobs + [blob] else blobs)
  {
    FreshBlobDisjoint(m, owner, blob);
    ReportedMore(m, blobs, clearBlobSize, seen, Elems(blob));
    OwnersGrow(m, owner, blob, Claim(owner, blob));
    if |blob| >= clearBlobSize {
      ReportedGrow(m, blobs, clearBlobSize, seen, blob);
    }
    assert blob[0] in Elems(blob);
  }

  /**
   * Once every marble is visited, nothing is reported exactly when no blob
   * reaches the size.
   */
  lemma NoneReportedIffNoClearable(m: MarbleMap, owner: map<Coord, seq<Coord>>, blobs: seq<seq<Coord>>, clearBlobSize: nat)
    requires OwnersClosed(m, owner) && m.Keys <= owner.Keys
    requires forall x :: x in owner && |owner[x]| >= clearBlobSize ==> owner[x] in blobs
    requires Reported(m, blobs, clearBlobSize, owner.Keys)
    ensures blobs == [] <==> NoClearable(m, clearBlobSize)
  {
    if blobs == [] {
      forall b | IsBlob(m, b)
        ensures |b| < clearBlobSize
      {
        BlobWithinClosed(m, owner[b[0]], b, 0);
      }
    } else {
      assert IsBlob(m, blobs[0]);
    }
  }

  /**
   * The blobs reported so far: whole groups of at least the size, pairwise
   * disjoint, all among the visited cells.
   */
  predicate Reported(m: MarbleMap, blobs: seq<seq<Coord>>, clearBlobSize: nat, seen: set<Coord>) {
    && (forall i :: 0 <= i < |blobs| ==>
         IsBlob(m, blobs[i]) && Closed(m, Elems(blobs[i])) && |blobs[i]| >= clearBlobSize)
    && (forall i :: 0 <= i < |blobs| ==> Elems(blobs[i]) <= seen)
    && (forall i, j :: 0 <= i < j < |blobs| ==> Elems(blobs[i]) !! Elems(blobs[j]))
  }

  /** Reporting a fresh closed blob of the size keeps the reported blobs apart. */
  lemma ReportedGrow(m: MarbleMap, blobs: seq<seq<Coord>>, clearBlobSize: nat, seen: set<Coord>, blob: seq<Coord>)
    requires Reported(m, blobs, clearBlobSize, seen)
    requires IsBlob(m, blob) && Closed(m, Elems(blob)) && |blob| >= clearBlobSize && Elems(blob) !! seen
    ensures Reported(m, blobs + [blob], clearBlobSize, seen + Elems(blob))
  {
    var b' := blobs + [blob];
    forall i, j | 0 <= i < j < |b'| ensures Elems(b'[i]) !! Elems(b'[j]) {
      if j == |blobs| {
        assert Elems(b'[i]) <= seen;
      }
    }
  }

  /** Visiting more cells keeps the reported blobs among them. */
  lemma ReportedMore(m: MarbleMap, blobs: seq<seq<Coord>>, clearBlobSize: nat, seen: set<Coord>, more: set<Coord>)
    requires Reported(m, blobs, clearBlobSize, seen)
    ensures Reported(m, blobs, clearBlobSize, seen + more)
  {
  }

  /**
   * Each visited cell is mapped to a closed blob that holds it, and every
   * cell of that blob was visited too.
   */
  ghost predicate OwnersClosed(m: MarbleMap, owner: map<Coord, seq<Coord>>) {
    forall x :: x in owner ==>
      IsBlob(m, owner[x]) && Closed(m, Elems(owner[x])) && x in owner[x] && Elems(owner[x]) <= owner.Keys
  }

  /** A closed blob found from an unvisited cell shares no cell with the visited ones. */
  lemma FreshBlobDisjoint(m: MarbleMap, owner: map<Coord, seq<Coord>>, blob: seq<Coord>)
    requires OwnersClosed(m, owner)
    requires IsBlob(m, blob) && blob[0] !in owner
    ensures Elems(blob) !! owner.Keys
  {
    forall x | x in Elems(blob) && x in owner ensures false {
      var k :| 0 <= k < |blob| && blob[k] == x;
      ChainReachesRoot(m, blob, Elems(owner[x]), k);
    }
  }

  /** Adding a fresh closed blob to the visited cells keeps every owner closed. */
  lemma OwnersGrow(m: MarbleMap, owner: map<Coord, seq<Coord>>, blob: seq<Coord>, owner': map<Coord, seq<Coord>>)
    requires OwnersClosed(m, owner)
    requires IsBlob(m, blob) && Closed(m, Elems(blob)) && Elems(blob) !! owner.Keys
    requires owner'.Keys == owner.Keys + Elems(blob)
    requires forall x :: x in owner' ==> owner'[x] == if x in owner then owner[x] else blob
    ensures OwnersClosed(m, owner')
  {
  }
}
