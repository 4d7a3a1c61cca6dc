/**
 * The value types of the board engine: marble colours, board actions and
 * board settings with their three presets.
 */
module Marbles {
  import opened Wrappers
  import opened Hex

  /** The seven marble colours, in declaration order. */
  datatype Marble = Red | Green | Blue | Yellow | Cyan | Purple | Pink

  /** The colour's position in the declaration (`Marble as usize`). */
  function Index(m: Marble): nat {
    match m
    case Red => 0
    case Green => 1
    case Blue => 2
    case Yellow => 3
    case Cyan => 4
    case Purple => 5
    case Pink => 6
  }

  function FromIndex(i: nat): (m: Marble)
    requires i < 7
    ensures Index(m) == i
  {
    match i
    case 0 => Red
    case 1 => Green
    case 2 => Blue
    case 3 => Yellow
    case 4 => Cyan
    case 5 => Purple
    case 6 => Pink
  }

  /**
   * `Marble::random(max)`: the random draw `roll` is supplied by the caller.
   * The draw ranges over 0 .. min(max, 6), so Pink is never drawn; an empty
   * range makes the generator panic, hence max >= 1.
   */
  function Random(max: nat, roll: nat): (m: Marble)
    requires max >= 1
    ensures m != Pink && Index(m) < max
  {
    FromIndex(roll % Min(max, Index(Pink)))
  }

  /** The next colour in a fixed rotation of all seven. */
  function Another(m: Marble): Marble {
    match m
    case Red => Green
    case Green => Blue
    case Blue => Yellow
    case Yellow => Cyan
    case Cyan => Purple
    case Purple => Pink
    case Pink => Red
  }

  /** `Another` applied k times. */
  function AnotherN(m: Marble, k: nat): Marble {
    if k == 0 then m else Another(AnotherN(m, k - 1))
  }

  /** `Another` advances the colour index by one, modulo seven. */
  lemma AnotherAdvances(m: Marble)
    ensures Index(Another(m)) == (Index(m) + 1) % 7
  {
  }

  /** k applications of `Another` advance the index by k, modulo seven. */
  lemma {:induction false} AnotherNIndex(m: Marble, k: nat)
    ensures Index(AnotherN(m, k)) == (Index(m) + k) % 7
  {
    if k > 0 {
      AnotherNIndex(m, k - 1);
      AnotherAdvances(AnotherN(m, k - 1));
    }
  }

  /**
   * `Another` is a single cycle through all seven colours: the first seven
   * iterates are pairwise different, and the seventh returns to the start.
   */
  lemma AnotherIsSevenCycle(m: Marble, i: nat, j: nat)
    requires i < j < 7
    ensures AnotherN(m, i) != AnotherN(m, j)
    ensures AnotherN(m, 7) == m
  {
    AnotherNIndex(m, i);
    AnotherNIndex(m, j);
    AnotherNIndex(m, 7);
    assert Index(AnotherN(m, 7)) == Index(m);
  }

  /** Moves the board can be asked to make. */
  datatype BoardAction =
    | Cycle(poses: seq<Coord>)   // shunt each marble along the path to the next coordinate
    | DeleteColor(color: Marble) // delete every marble of one colour
    | ClearBlobs(multiplier: nat) // clear every large enough blob, with a score multiplier

  const CycleTime: nat := 10
  const DeleteColorTime: nat := 30
  const ClearBlobsTime: nat := 20

  /** How many ticks an action takes before it runs. */
  function Time(a: BoardAction): (t: nat)
    ensures t > 0
  {
    match a
    case Cycle(_) => CycleTime
    case DeleteColor(_) => DeleteColorTime
    case ClearBlobs(_) => ClearBlobsTime
  }

  datatype BoardSettingsModeKey = Classic | Advanced | NoGravity

  datatype BoardSettings = BoardSettings(
    radius: nat,          // rings from the centre; radius 0 is the single centre cell
    borderWidth: nat,     // outer rings filled at the start
    gravity: bool,        // whether marbles fall outwards
    clearBlobSize: nat,   // smallest blob that gets cleared
    spawnMultiplier: real, // spawn rate multiplier (not used by the tick schedule here)
    marbleColorCount: nat, // colours drawn at random
    modeKey: Option<BoardSettingsModeKey>)

  function ClassicSettings(): (s: BoardSettings)
    ensures s.borderWidth <= s.radius && s.clearBlobSize >= 2 && s.marbleColorCount >= 1
  {
    BoardSettings(5, 2, true, 4, 1.0, 6, Some(Classic))
  }

  function AdvancedSettings(): (s: BoardSettings)
    ensures s.borderWidth <= s.radius && s.clearBlobSize >= 2 && s.marbleColorCount >= 1
  {
    BoardSettings(6, 3, true, 4, 1.2, 7, Some(Advanced))
  }

  function NoGravitySettings(): (s: BoardSettings)
    ensures s.borderWidth <= s.radius && s.clearBlobSize >= 2 && s.marbleColorCount >= 1
  {
    BoardSettings(3, 2, false, 4, 0.8, 4, Some(NoGravity))
  }

  /**
   * The spawn interval, in ticks, after `tickCount` ticks (before the
   * division by the spawn multiplier).
   */
  function TimerMax(tickCount: nat): (t: nat)
    ensures 20 <= t <= 60
    ensures tickCount >= 60 * 120 ==> t <= 36
    ensures tickCount >= 60 * 30 * 20 ==> t == 20
  {
    if tickCount < 60 * 10 then 60
    else if tickCount < 60 * 20 then 50
    else if tickCount < 60 * 40 then 40
    else if tickCount < 60 * 60 then 30
    else if tickCount < 60 * 120 then 40
    else Max(SaturatingSub(40, tickCount / (60 * 30)), 20)
  }

  /** Unsigned subtraction that stops at zero. */
  function SaturatingSub(a: nat, b: nat): nat { if a < b then 0 else a - b }
}
