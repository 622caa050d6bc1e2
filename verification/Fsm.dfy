/**
 Finite state machines: the single loop behind FSM_Switch, for arbitrary exit and enter code, and
 the plain exit-then-enter process that it carries out.
 */
module Fsms {
  import opened Options

  const FSM_MAXT := 64

  /** x | bit in two's complement. */
  function OrBit(x: int, bit: nat): int
    requires bit < 2
  {
    if x % 2 == 0 then x + bit else x
  }

  /** FSM_Exit(state) and FSM_Enter(state). */
  function ExitLabel(state: int): int
  {
    OrBit(2 * state, 1)
  }

  function EnterLabel(state: int): int
  {
    2 * state
  }

  /** The value the switch statement dispatches on. */
  function Dispatch(state: int, i: nat): int
  {
    OrBit(state * 2, i % 2)
  }

  /** Case labels never collide, negative (transient) states included, and for state codes of up to
      31 bits they fit an int. */
  lemma LabelsNeverCollide(s: int, t: int, i: nat)
    ensures ExitLabel(s) != EnterLabel(t)
    ensures ExitLabel(s) == ExitLabel(t) <==> s == t
    ensures EnterLabel(s) == EnterLabel(t) <==> s == t
    ensures Dispatch(s, i) == if i % 2 == 1 then ExitLabel(s) else EnterLabel(s)
    ensures -0x4000_0000 <= s < 0x4000_0000 ==>
              -0x8000_0000 <= EnterLabel(s) < 0x8000_0000 && -0x8000_0000 <= ExitLabel(s) < 0x8000_0000
  {
    assert (2 * s) % 2 == 0 && (2 * t) % 2 == 0;
  }

  datatype Error = InfiniteLoop | StateChanged | UserError

  /** The code in the case branches: given the labels executed so far, the last one being its own,
      the state it leaves the machine in, or None if it throws. It can call FSM_Goto anywhere. */
  type Code = seq<int> -> Option<int>

  /** How a run ends: the labels executed, the state of the machine, and the exception, if any. */
  datatype Run = Run(trace: seq<int>, state: int, error: Option<Error>)

  /** One exit and one enter at a time, until a steady state is entered; at most 63 such pairs,
      after which one more exit takes place. */
  function Process(code: Code, trace: seq<int>, state: int, pairs: nat): (r: Run)
    requires pairs < FSM_MAXT
    ensures trace < r.trace
    decreases FSM_MAXT - pairs
  {
    var exiting := trace + [ExitLabel(state)];
    match code(exiting)
    case None => Run(exiting, state, Some(UserError))
    case Some(next) =>
      if pairs == FSM_MAXT - 1 then Run(exiting, next, Some(InfiniteLoop))
      else
        var entering := exiting + [EnterLabel(next)];
        match code(entering)
        case None => Run(entering, next, Some(UserError))
        case Some(final) =>
          if final != next then Run(entering, final, Some(StateChanged))
          else if next >= 0 then Run(entering, next, None)
          else Process(code, entering, next, pairs + 1)
  }

  // ---------------------------------------------------------------- the code decides

  /** The label at position n + j of all labels executed, of a run that began at n in the given state.
      First comes the exit of that state. An enter is that of the state that the exit code before it
      chose; an exit is that of the transient state just entered, which the enter code left alone. */
  predicate LabelFollows(code: Code, all: seq<int>, n: nat, state: int, j: nat)
    requires n + j < |all|
  {
    if j == 0 then all[n] == ExitLabel(state)
    else
      match code(all[..n + j])
      case None => false
      case Some(chosen) =>
        if j % 2 == 1 then all[n + j] == EnterLabel(chosen)
        else chosen < 0 && all[n + j - 1] == EnterLabel(chosen) && all[n + j] == ExitLabel(chosen)
  }

  ghost predicate CodeDecides(code: Code, all: seq<int>, n: nat, state: int)
  {
    forall j: nat :: n + j < |all| ==> LabelFollows(code, all, n, state, j)
  }

  /** How the run ends, by what the code of the last label returned: where it threw, in the state it
      ran for; else in the state it chose, normally after the enter of a steady state that it left
      alone, with an error if it changed the state there, or after the 64th exit. */
  predicate EndsAsCodeSays(code: Code, all: seq<int>, n: nat, state: int, error: Option<Error>)
    requires n < |all|
  {
    var last := all[|all| - 1] / 2;
    match code(all)
    case None => error == Some(UserError) && state == last
    case Some(chosen) =>
      && state == chosen
      && if (|all| - n) % 2 == 1 then error == Some(InfiniteLoop)
         else if chosen != last then error == Some(StateChanged)
         else error == None && chosen >= 0
  }

  lemma LabelsTellStates(state: int)
    ensures ExitLabel(state) / 2 == state && EnterLabel(state) / 2 == state
  {
  }

  lemma {:induction false} RunFollowsCode(code: Code, trace: seq<int>, state: int, pairs: nat, j: nat)
    requires pairs < FSM_MAXT && |trace| + j < |Process(code, trace, state, pairs).trace|
    ensures LabelFollows(code, Process(code, trace, state, pairs).trace, |trace|, state, j)
    decreases j
  {
    var all := Process(code, trace, state, pairs).trace;
    var exiting := trace + [ExitLabel(state)];
    assert exiting <= all by { FirstLabel(code, trace, state, pairs); }
    if j == 0 {
      assert all[|trace|] == exiting[|trace|];
    } else {
      assert all[..|trace| + 1] == exiting;
      SecondLabel(code, trace, state, pairs);
      if j >= 2 {
        var chosen := code(exiting).value;
        var entering := exiting + [EnterLabel(chosen)];
        assert all[..|trace| + 2] == entering;
        RunFollowsCode(code, entering, chosen, pairs + 1, j - 2);
        assert |entering| + (j - 2) == |trace| + j;
      }
    }
  }

  lemma CodeDecidesRun(code: Code, trace: seq<int>, state: int)
    ensures CodeDecides(code, Process(code, trace, state, 0).trace, |trace|, state)
  {
    forall j: nat | |trace| + j < |Process(code, trace, state, 0).trace|
      ensures LabelFollows(code, Process(code, trace, state, 0).trace, |trace|, state, j)
    {
      RunFollowsCode(code, trace, state, 0, j);
    }
  }

  lemma FirstLabel(code: Code, trace: seq<int>, state: int, pairs: nat)
    requires pairs < FSM_MAXT
    ensures trace + [ExitLabel(state)] <= Process(code, trace, state, pairs).trace
  {
  }

  lemma SecondLabel(code: Code, trace: seq<int>, state: int, pairs: nat)
    requires pairs < FSM_MAXT && |Process(code, trace, state, pairs).trace| > |trace| + 1
    ensures var exiting := trace + [ExitLabel(state)];
            && code(exiting).Some? && pairs < FSM_MAXT - 1
            && var entering := exiting + [EnterLabel(code(exiting).value)];
               && entering <= Process(code, trace, state, pairs).trace
               && (|Process(code, trace, state, pairs).trace| > |trace| + 2 ==>
                     && code(entering) == code(exiting) && code(exiting).value < 0
                     && Process(code, trace, state, pairs) == Process(code, entering, code(exiting).value, pairs + 1))
  {
  }

  lemma {:induction false} RunEndsAsCodeSays(code: Code, trace: seq<int>, state: int, pairs: nat)
    requires pairs < FSM_MAXT
    ensures var r := Process(code, trace, state, pairs); EndsAsCodeSays(code, r.trace, |trace|, r.state, r.error)
    decreases FSM_MAXT - pairs
  {
    var r := Process(code, trace, state, pairs);
    LabelsTellStates(state);
    if |r.trace| > |trace| + 1 {
      SecondLabel(code, trace, state, pairs);
      var exiting := trace + [ExitLabel(state)];
      var chosen := code(exiting).value;
      LabelsTellStates(chosen);
      var entering := exiting + [EnterLabel(chosen)];
      if |r.trace| > |trace| + 2 {
        RunEndsAsCodeSays(code, entering, chosen, pairs + 1);
      } else {
        assert r.trace == entering;
      }
    } else {
      assert r.trace == trace + [ExitLabel(state)];
    }
  }

  class Fsm {
    var state: int
    var trace: seq<int>  // labels executed so far: all that user code can depend on

    constructor ()
      ensures state == 0 && trace == []
    {
      state, trace := 0, [];
    }

    /** FSM_Switch: i counts up; odd values run exit code, even ones enter code. The condition and
        the step of the loop carry the two throws. */
    method Switch(code: Code) returns (error: Option<Error>)
      modifies this
      ensures Run(trace, state, error) == Process(code, old(trace), old(state), 0)
      ensures old(trace) < trace && CodeDecides(code, trace, |old(trace)|, old(state))
      ensures EndsAsCodeSays(code, trace, |old(trace)|, state, error)
      ensures Disciplined(trace[|old(trace)|..], old(state), state, error, 0)
    {
      ProcessIsDisciplined(code, trace, state, 0);
      RunEndsAsCodeSays(code, trace, state, 0);
      CodeDecidesRun(code, trace, state);
      error := RunLoop(code);
    }

    method RunLoop(code: Code) returns (error: Option<Error>)
      modifies this
      ensures Run(trace, state, error) == Process(code, old(trace), old(state), 0)
    {
      var i, savedState := 1, 0;
      ghost var pairs, entering := 0, false;
      ghost var whole := Process(code, trace, state, 0);
      while true
        invariant i == 2 * pairs + (if entering then 2 else 1) && pairs < FSM_MAXT
        invariant entering ==> savedState == state && AfterExit(code, trace, state, pairs, whole)
        invariant !entering && (pairs == 0 || state < 0) ==> Process(code, trace, state, pairs) == whole
        invariant !entering && pairs > 0 && state >= 0 ==> Run(trace, state, None) == whole
        decreases 2 * FSM_MAXT - i
      {
        if !(i < 3 || i % 2 == 0 || state < 0) {
          return None;
        }
        if i >= 2 * FSM_MAXT {
          return Some(InfiniteLoop);
        }
        LabelsNeverCollide(state, state, i);
        trace := trace + [Dispatch(state, i)];
        var next := code(trace);
        if next == None {
          return Some(UserError);
        }
        state := next.value;
        if i % 2 == 0 && savedState != state {
          return Some(StateChanged);
        }
        savedState, i := state, i + 1;
        pairs, entering := if entering then pairs + 1 else pairs, !entering;
      }
    }
  }

  /** What is left to do between exit and enter, after the given number of complete pairs. */
  predicate AfterExit(code: Code, trace: seq<int>, state: int, pairs: nat, whole: Run)
    requires pairs < FSM_MAXT
  {
    if pairs == FSM_MAXT - 1 then whole == Run(trace, state, Some(InfiniteLoop))
    else
      var entering := trace + [EnterLabel(state)];
      match code(entering)
      case None => whole == Run(entering, state, Some(UserError))
      case Some(final) =>
        if final != state then whole == Run(entering, final, Some(StateChanged))
        else if state >= 0 then whole == Run(entering, state, None)
        else whole == Process(code, entering, state, pairs + 1)
  }

  // ---------------------------------------------------------------- what any run looks like

  /** Labels from position from on alternate between exits and enters, an enter being followed by
      the exit of the same state, and all states entered before the last label are transient. */
  ghost predicate Alternates(labels: seq<int>, first: int)
  {
    labels == [] ||
      (labels[0] == ExitLabel(first)
       && (|labels| == 1 || (labels[1] % 2 == 0 && (|labels| == 2 || (labels[1] < 0 && Alternates(labels[2..], labels[1] / 2))))))
  }

  /** The labels a run executes, given how many pairs went before. */
  ghost predicate Disciplined(labels: seq<int>, first: int, state: int, error: Option<Error>, pairs: nat)
    requires pairs < FSM_MAXT
  {
    var most := 2 * (FSM_MAXT - pairs) - 1;
    && labels != [] && Alternates(labels, first) && |labels| <= most
    && (error == None ==> state >= 0 && |labels| % 2 == 0 && labels[|labels| - 1] == EnterLabel(state))
    && (error == Some(StateChanged) ==> |labels| % 2 == 0 && labels[|labels| - 1] != EnterLabel(state))
    && (error == Some(InfiniteLoop) ==> |labels| == most)
    && (|labels| == most ==> error == Some(InfiniteLoop) || error == Some(UserError))
  }

  lemma OneMorePair(labels: seq<int>, first: int, next: int, state: int, error: Option<Error>, pairs: nat)
    requires pairs < FSM_MAXT - 1 && next < 0 && Disciplined(labels, next, state, error, pairs + 1)
    ensures Disciplined([ExitLabel(first), EnterLabel(next)] + labels, first, state, error, pairs)
  {
    var all := [ExitLabel(first), EnterLabel(next)] + labels;
    assert all[2..] == labels && all[1] / 2 == next;
  }

  /** For all user code: exits and enters alternate strictly; the run ends normally only when it has
      entered a non-negative state, after at most 63 pairs; a state change in enter code is always
      caught; the infinite-loop error comes after the 64th exit, whatever that exit led to. */
  lemma {:induction false} ProcessIsDisciplined(code: Code, trace: seq<int>, state: int, pairs: nat)
    requires pairs < FSM_MAXT
    ensures var r := Process(code, trace, state, pairs);
            Disciplined(r.trace[|trace|..], state, r.state, r.error, pairs)
    decreases FSM_MAXT - pairs
  {
    var r := Process(code, trace, state, pairs);
    var exiting := trace + [ExitLabel(state)];
    if code(exiting).Some? && pairs < FSM_MAXT - 1 {
      var next := code(exiting).value;
      var entering := exiting + [EnterLabel(next)];
      if code(entering) == Some(next) && next < 0 {
        ProcessIsDisciplined(code, entering, next, pairs + 1);
        TwoMoreLabels(trace, ExitLabel(state), EnterLabel(next), r.trace);
        OneMorePair(r.trace[|entering|..], state, next, r.state, r.error, pairs);
      } else {
        assert r.trace[|trace|..] == [ExitLabel(state), EnterLabel(next)];
        LabelsNeverCollide(next, r.state, 0);
      }
    } else {
      assert r.trace[|trace|..] == [ExitLabel(state)];
    }
  }

  lemma TwoMoreLabels(trace: seq<int>, a: int, b: int, all: seq<int>)
    requires trace + [a] + [b] <= all
    ensures all[|trace|..] == [a, b] + all[|trace + [a] + [b]|..]
  {
    assert all[..|trace| + 2] == trace + [a] + [b];
    assert all[|trace|] == a && all[|trace| + 1] == b;
  }
}
