/**
 * `jacz.util.AI.search.DynamicState`: a state that a daemon keeps driving toward a goal.
 * A lookup gives, for the current state and goal, the transition to apply next, or none
 * once the goal is reached. Transitions are abstract here: one is the function from
 * state and goal to the new state and an optional wait, plus whether it carries the
 * before/after hooks. The daemon is modelled by the number of `stateChange` signals it
 * received, the hooks and the sleeps by logs of their calls.
 */
module DynamicStates {
  import opened Optional

  /** What `actOnState` leaves behind: the new state, and a wait in milliseconds or none. */
  datatype Acted<S> = Acted(state: S, wait: Option<int>)

  /** A `Transition`, or a `TransitionWithEvents` when `withEvents`. */
  datatype Transition<!S, -G> = Transition(act: (S, G) -> Acted<S>, withEvents: bool)

  /** One call of a transition's hook. */
  datatype Hook<S, G> = Before(state: S, goal: G) | After(state: S, goal: G)

  /** The effect of one transition: what it acted, and the hooks it called, in order. */
  datatype Application<S, G> = Application(acted: Acted<S>, hooks: seq<Hook<S, G>>)

  /** The effect of one `solveState` call on a live instance. */
  datatype Solution<S, G> = Solution(solved: bool, state: S, hooks: seq<Hook<S, G>>, wait: Option<int>)

  /**
   * `TransitionWithEventsExecutor.actOnState` (DynamicState.java:50-56), or the bare
   * `actOnState` for a transition without events: the hooks surround the act, the
   * `after` hook sees the state the act left, and the act's result is passed on as is.
   */
  function Apply<S, G>(t: Transition<S, G>, s: S, g: G): (a: Application<S, G>)
    ensures a.acted == t.act(s, g)
    ensures t.withEvents ==> a.hooks == [Before(s, g), After(t.act(s, g).state, g)]
    ensures !t.withEvents ==> a.hooks == []
  {
    var acted := t.act(s, g);
    if t.withEvents then Application(acted, [Before(s, g), After(acted.state, g)])
    else Application(acted, [])
  }

  /**
   * `solveState` (DynamicState.java:103-125) on a live instance: no transition means the
   * goal is reached and nothing happens; otherwise the transition runs once and the
   * state is reported as not solved yet.
   */
  function Solve<S, G>(ts: (S, G) -> Option<Transition<S, G>>, s: S, g: G): (r: Solution<S, G>)
    ensures r.solved <==> ts(s, g).None?
    ensures r.solved ==> r.state == s && r.hooks == [] && r.wait.None?
    ensures !r.solved ==>
      && r.state == ts(s, g).value.act(s, g).state
      && r.wait == ts(s, g).value.act(s, g).wait
      && r.hooks == Apply(ts(s, g).value, s, g).hooks
  {
    match ts(s, g)
    case None => Solution(true, s, [], None)
    case Some(t) =>
      var a := Apply(t, s, g);
      Solution(false, a.acted.state, a.hooks, a.acted.wait)
  }

  /** `hasReachedGoal` (DynamicState.java:99-101) as written: true when a transition is still to be applied. */
  predicate ReachedAsWritten<S, G>(ts: (S, G) -> Option<Transition<S, G>>, s: S, g: G) {
    ts(s, g).Some?
  }

  /** The goal is reached when no transition is left to apply, as `solveState` reports it. */
  predicate Reached<S, G>(ts: (S, G) -> Option<Transition<S, G>>, s: S, g: G) {
    ts(s, g).None?
  }

  /** As written, `hasReachedGoal` answers exactly the opposite of what `solveState` reports. */
  lemma ReachedAsWrittenIsInverted<S, G>(ts: (S, G) -> Option<Transition<S, G>>, s: S, g: G)
    ensures ReachedAsWritten(ts, s, g) <==> !Solve(ts, s, g).solved
  {
  }

  /** With no transition left for any state, the goal is plainly reached, yet the as-written check says no. */
  lemma NothingLeftToDo()
    ensures !ReachedAsWritten((s: int, g: int) => None, 0, 0)
    ensures Reached((s: int, g: int) => None, 0, 0)
  {
  }

  /** Corrected: the goal is reached exactly when `solveState` reports solved, and then it changes nothing. */
  lemma ReachedAgreesWithSolve<S, G>(ts: (S, G) -> Option<Transition<S, G>>, s: S, g: G)
    ensures Reached(ts, s, g) <==> Solve(ts, s, g).solved
    ensures Reached(ts, s, g) ==> Solve(ts, s, g).state == s && Solve(ts, s, g).hooks == []
  {
  }

  class DynamicState<S, G(==)> {
    var state: S
    var goal: G
    const transitions: (S, G) -> Option<Transition<S, G>>
    /** Set in the constructor and never cleared, `stop` included. */
    const alive: bool
    /** Whether `stop` has been called, stopping the daemon and the hook executor. */
    var stopped: bool
    /** `daemon.stateChange()` calls so far. */
    var signals: nat
    /** Hook calls so far, oldest first. */
    var hooks: seq<Hook<S, G>>
    /** `ThreadUtil.safeSleep` calls so far, oldest first. */
    var sleeps: seq<int>

    constructor(initialState: S, initialGoal: G, transitions: (S, G) -> Option<Transition<S, G>>)
      ensures state == initialState && goal == initialGoal && this.transitions == transitions
      ensures alive && !stopped && signals == 0 && hooks == [] && sleeps == []
    {
      state := initialState;
      goal := initialGoal;
      this.transitions := transitions;
      alive := true;
      stopped := false;
      signals := 0;
      hooks := [];
      sleeps := [];
    }

    /** A new goal replaces the old one and signals the daemon once; the same goal does nothing. */
    method SetGoal(newGoal: G)
      modifies this`goal, this`signals
      ensures goal == newGoal
      ensures old(goal) == newGoal ==> signals == old(signals)
      ensures old(goal) != newGoal ==> signals == old(signals) + 1
    {
      if goal != newGoal {
        goal := newGoal;
        signals := signals + 1;
      }
    }

    /** `hasReachedGoal` as written (see `ReachedAsWrittenIsInverted`). */
    method HasReachedGoalAsWritten() returns (reached: bool)
      ensures reached == ReachedAsWritten(transitions, state, goal)
      ensures reached <==> !Solve(transitions, state, goal).solved
    {
      ReachedAsWrittenIsInverted(transitions, state, goal);
      reached := transitions(state, goal).Some?;
    }

    /** `hasReachedGoal` with the test the name promises. */
    method HasReachedGoal() returns (reached: bool)
      ensures reached == Reached(transitions, state, goal)
      ensures reached <==> Solve(transitions, state, goal).solved
    {
      ReachedAgreesWithSolve(transitions, state, goal);
      reached := transitions(state, goal).None?;
    }

    /**
     * One call from the daemon: while alive, applies the pending transition, if any,
     * and sleeps for the wait it asked for. The `!alive` branch, commented "stopped" in
     * the source, reports solved and changes nothing; since `alive` is set by the
     * constructor and never cleared, not even by `stop`, that branch is unreachable.
     */
    method SolveState() returns (solved: bool)
      modifies this`state, this`hooks, this`sleeps
      ensures !alive ==> solved && state == old(state) && hooks == old(hooks) && sleeps == old(sleeps)
      ensures alive ==>
        var r := Solve(transitions, old(state), goal);
        && solved == r.solved
        && state == r.state
        && hooks == old(hooks) + r.hooks
        && sleeps == old(sleeps) + (if r.wait.Some? then [r.wait.value] else [])
    {
      if alive {
        var transition := transitions(state, goal);
        if transition.Some? {
          var acted := ActOnState(transition.value);
          if acted.wait.Some? {
            sleeps := sleeps + [acted.wait.value];
          }
          solved := false;
        } else {
          solved := true;
        }
      } else {
        solved := true;
      }
    }

    /** Runs one transition on this instance, through its hooks when it has them. */
    method ActOnState(t: Transition<S, G>) returns (acted: Acted<S>)
      modifies this`state, this`hooks
      ensures acted == t.act(old(state), goal)
      ensures state == acted.state
      ensures hooks == old(hooks) + Apply(t, old(state), goal).hooks
    {
      if t.withEvents {
        hooks := hooks + [Before(state, goal)];
      }
      acted := t.act(state, goal);
      state := acted.state;
      if t.withEvents {
        hooks := hooks + [After(state, goal)];
      }
    }

    /** A reminder timer fired: signal the daemon; the null result leaves the timer to stop. */
    method WakeUp() returns (next: Option<int>)
      modifies this`signals
      ensures signals == old(signals) + 1
      ensures next == None
    {
      signals := signals + 1;
      next := None;
    }

    /** Stops the daemon and the hook executor; `alive` stays set. */
    method Stop()
      modifies this`stopped
      ensures stopped
    {
      stopped := true;
    }
  }
}
