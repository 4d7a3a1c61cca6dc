/**
 * The stack of game modes: the top mode is the one that runs, and each
 * update may hand back a transition that reshapes the stack. A mode that
 * comes on top is told so (`on_reveal`); here that call is recorded in a
 * log rather than run, and the modes themselves are opaque values.
 */
module Modes {
  import Wrappers

  /** `Transition`: the ways a mode can reshape the stack. */
  datatype Transition<M> =
    | None                                // leave the stack alone
    | Swap(next: M)                       // replace the top mode
    | Push(next: M)                       // put a mode on top
    | Pop                                 // take the top mode off
    | PopNAndPush(count: nat, news: seq<M>) // take `count` modes off, then put `news` on, last on top

  /**
   * One call of `on_reveal`: the mode that came on top, and the modes just
   * popped off above it (topmost last) when it was revealed by popping.
   */
  datatype Reveal<M> = Reveal(top: M, popped: Wrappers.Option<seq<M>>)

  /**
   * What `apply` needs of the stack: `PopNAndPush` subtracts `count` from
   * the length as an unsigned number, and when it pushes nothing it
   * keeps at least one mode, so it cannot drain an empty stack.
   */
  predicate Applicable<M>(stack: seq<M>, t: Transition<M>) {
    t.PopNAndPush? ==> t.count <= |stack| && (|t.news| == 0 ==> |stack| >= 1)
  }

  /** How many modes `PopNAndPush` keeps: all but `count`, and at least one when it pushes nothing. */
  function KeptLength<M>(len: nat, count: nat, news: seq<M>): nat
    requires count <= len
  {
    var lowerLimit := if |news| == 0 then 1 else 0;
    if lowerLimit < len - count then len - count else lowerLimit
  }

  /** The stack after a transition. */
  function AfterStack<M>(stack: seq<M>, t: Transition<M>): seq<M>
    requires Applicable(stack, t)
  {
    match t
    case None => stack
    case Swap(next) => (if |stack| == 0 then [] else stack[..|stack| - 1]) + [next]
    case Push(next) => stack + [next]
    case Pop => if |stack| >= 2 then stack[..|stack| - 1] else stack
    case PopNAndPush(count, news) => stack[..KeptLength(|stack|, count, news)] + news
  }

  /** The `on_reveal` calls a transition makes: none, or one on the new top. */
  function RevealOf<M>(stack: seq<M>, t: Transition<M>): seq<Reveal<M>>
    requires Applicable(stack, t)
  {
    match t
    case None => []
    case Swap(next) => [Reveal(next, Wrappers.None)]
    case Push(next) => [Reveal(next, Wrappers.None)]
    case Pop =>
      if |stack| >= 2 then [Reveal(stack[|stack| - 2], Wrappers.Some([stack[|stack| - 1]]))] else []
    case PopNAndPush(count, news) =>
      var kept := KeptLength(|stack|, count, news);
      if |news| == 0 then [Reveal(stack[kept - 1], Wrappers.Some(stack[kept..]))]
      else [Reveal(news[|news| - 1], Wrappers.None)]
  }

  /** `None` changes nothing and reveals nothing. */
  lemma NoneKeepsStack<M>(stack: seq<M>)
    ensures AfterStack(stack, None) == stack && RevealOf(stack, None) == []
  {
  }

  /**
   * `Swap(next)` takes the top off if there is one and puts `next` there:
   * the stack has at least one mode, those below the top are the old ones,
   * and `next` is revealed.
   */
  lemma SwapReplacesTop<M>(stack: seq<M>, next: M)
    ensures var after := AfterStack(stack, Swap(next));
      && |after| == (if |stack| == 0 then 1 else |stack|)
      && after[..|after| - 1] == stack[..|after| - 1]
      && after[|after| - 1] == next
      && RevealOf(stack, Swap(next)) == [Reveal(next, Wrappers.None)]
  {
  }

  /** `Push(next)` keeps the old stack underneath and reveals `next` on top. */
  lemma PushAddsTop<M>(stack: seq<M>, next: M)
    ensures var after := AfterStack(stack, Push(next));
      && |after| == |stack| + 1 && after[..|stack|] == stack && after[|stack|] == next
      && RevealOf(stack, Push(next)) == [Reveal(next, Wrappers.None)]
  {
  }

  /**
   * `Pop` never empties the stack: with two or more modes it removes
   * exactly the top and hands it to the mode below, which it reveals;
   * otherwise nothing happens and nothing is revealed.
   */
  lemma PopRemovesTop<M>(stack: seq<M>)
    ensures |stack| >= 2 ==>
      && AfterStack(stack, Pop) + [stack[|stack| - 1]] == stack
      && RevealOf(stack, Pop) == [Reveal(stack[|stack| - 2], Wrappers.Some([stack[|stack| - 1]]))]
    ensures |stack| < 2 ==> AfterStack(stack, Pop) == stack && RevealOf(stack, Pop) == []
  {
    if |stack| >= 2 {
      assert stack[..|stack| - 1] + [stack[|stack| - 1]] == stack;
    }
  }

  /**
   * `PopNAndPush(count, news)` keeps the bottom max(lower, len - count)
   * modes, where lower is 1 when `news` is empty and 0 otherwise, and
   * puts `news` on top. Pushing nothing reveals the new top with the
   * removed modes, which together with it make up the old stack; pushing
   * something reveals the last new mode.
   */
  lemma PopNAndPushTruncates<M>(stack: seq<M>, count: nat, news: seq<M>)
    requires Applicable(stack, PopNAndPush(count, news))
    ensures var t := PopNAndPush(count, news);
      var lower := if |news| == 0 then 1 else 0;
      var kept := if lower < |stack| - count then |stack| - count else lower;
      && AfterStack(stack, t) == stack[..kept] + news
      && (|news| == 0 ==>
            && RevealOf(stack, t) == [Reveal(stack[kept - 1], Wrappers.Some(stack[kept..]))]
            && AfterStack(stack, t) + stack[kept..] == stack)
      && (|news| > 0 ==> RevealOf(stack, t) == [Reveal(news[|news| - 1], Wrappers.None)])
  {
    var kept := KeptLength(|stack|, count, news);
    assert stack[..kept] + stack[kept..] == stack;
  }

  /**
   * Every transition other than `None` and a refused `Pop` calls
   * `on_reveal` exactly once, and on the mode that ends on top.
   */
  lemma RevealsFinalTop<M>(stack: seq<M>, t: Transition<M>)
    requires Applicable(stack, t)
    ensures var after, calls := AfterStack(stack, t), RevealOf(stack, t);
      && (t.None? || (t.Pop? && |stack| < 2) <==> calls == [])
      && (calls != [] ==> |calls| == 1 && |after| >= 1 && calls[0].top == after[|after| - 1])
  {
    if t.PopNAndPush? && |t.news| == 0 {
      var kept := KeptLength(|stack|, t.count, t.news);
      assert AfterStack(stack, t) == stack[..kept];
    }
  }

  /** A stack with a mode on it keeps one through every transition. */
  lemma NeverEmptied<M>(stack: seq<M>, t: Transition<M>)
    requires |stack| >= 1 && Applicable(stack, t)
    ensures |AfterStack(stack, t)| >= 1
  {
  }

  /** The mode stack, with the log of `on_reveal` calls made so far. */
  class ModeStack<M> {
    var stack: seq<M>
    var revealLog: seq<Reveal<M>>

    constructor (initial: seq<M>)
      ensures stack == initial && revealLog == []
    {
      stack := initial;
      revealLog := [];
    }

    /** Tell the mode on top that it came on top. */
    method RevealTop(popped: Wrappers.Option<seq<M>>)
      requires |stack| >= 1
      modifies this`revealLog
      ensures revealLog == old(revealLog) + [Reveal(stack[|stack| - 1], popped)]
    {
      revealLog := revealLog + [Reveal(stack[|stack| - 1], popped)];
    }

    /** `Transition::apply`: reshape the stack in place, then reveal the new top. */
    method Apply(t: Transition<M>)
      requires Applicable(stack, t)
      modifies this`stack, this`revealLog
      ensures stack == AfterStack(old(stack), t)
      ensures revealLog == old(revealLog) + RevealOf(old(stack), t)
    {
      match t {
        case None =>
        case Swap(next) =>
          if |stack| != 0 {
            stack := stack[..|stack| - 1];
          }
          stack := stack + [next];
          RevealTop(Wrappers.None);
        case Push(next) =>
          stack := stack + [next];
          RevealTop(Wrappers.None);
        case Pop =>
          if |stack| >= 2 {
            ghost var s0 := stack;
            var popped := stack[|stack| - 1];
            stack := stack[..|stack| - 1];
            assert stack[|stack| - 1] == s0[|s0| - 2];
            RevealTop(Wrappers.Some([popped]));
          }
        case PopNAndPush(count, news) =>
          var lowerLimit := if |news| == 0 then 1 else 0;
          var truncLen := if lowerLimit < |stack| - count then |stack| - count else lowerLimit;
          assert truncLen == KeptLength(|stack|, count, news);
          ghost var s0 := stack;
          var removed := stack[truncLen..];
          stack := stack[..truncLen];
          if |news| == 0 {
            assert stack[|stack| - 1] == s0[truncLen - 1];
            RevealTop(Wrappers.Some(removed));
          } else {
            stack := stack + news;
            RevealTop(Wrappers.None);
          }
      }
    }
  }
}
