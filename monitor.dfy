/**
 * `org.aanguita.jacuzzi.concurrency.monitor.Monitor`: clients report state changes; a
 * single worker task calls the state solver until the state is solved, and changes
 * reported while it works are coalesced into further rounds of that same worker.
 *
 * Each `synchronized` method is one atomic step over the flags below. The protocol is
 * stated first as functions over a `Flags` value, with a ghost count of submitted and
 * exited worker tasks; the `Monitor` class then performs the steps on its fields and is
 * proved to follow those functions.
 */
module Monitors {

  /**
   * changePending: `stateChangeFlag`; workerActive: `daemonThreadFlag`; alive: `alive`;
   * gateClosed: `blockUntilStateSolve` is paused; hasFuture: `future != null`;
   * submitted/exited: worker tasks handed to the executor / finished so far.
   */
  datatype Flags = Flags(
    changePending: bool,
    workerActive: bool,
    alive: bool,
    gateClosed: bool,
    hasFuture: bool,
    submitted: nat,
    exited: nat)

  /** What one call of `stateSolver.solveState()` does: returns true, returns false, or throws. */
  datatype Outcome = Solved | Unsolved | Fault

  /** One round of the worker: the `stateChange` calls that arrive while the solver runs, then its outcome. */
  datatype Round = Round(changes: nat, outcome: Outcome)

  /** The state after a worker step and the worker's `finished` variable. */
  datatype Step = Step(flags: Flags, finished: bool)

  /** The state after `stop`; `acted` when this call switched the monitor off, `awaitsWorker` when it then waits on `future.get()`. */
  datatype StopReply = StopReply(flags: Flags, acted: bool, awaitsWorker: bool)

  /** A freshly constructed monitor. */
  const Init := Flags(false, false, true, false, false, 0, 0)

  /**
   * The protocol invariant: the worker flag, the future and the closed gate go together;
   * a pending change always has a worker to handle it unless the monitor is stopped; and
   * at most one worker task exists at any time.
   */
  predicate Inv(f: Flags) {
    && f.hasFuture == f.workerActive
    && f.gateClosed == f.workerActive
    && (f.changePending ==> f.workerActive || !f.alive)
    && f.submitted == f.exited + (if f.workerActive then 1 else 0)
  }

  /** `stateChange` (Monitor.java:95-106). */
  function OnStateChange(f: Flags): (g: Flags)
    ensures Inv(f) ==> Inv(g)
    ensures !f.alive ==> g == f
    ensures f.alive ==> g.alive && g.workerActive && g.gateClosed
    ensures f.alive && !f.workerActive ==> g.submitted == f.submitted + 1 && !g.changePending
    ensures f.workerActive ==> g.submitted == f.submitted
    ensures f.alive && f.workerActive ==> g.changePending
    ensures g.exited == f.exited
  {
    if !f.alive then f
    else
      var g := f.(changePending := true, gateClosed := true);
      if !g.workerActive then
        g.(workerActive := true, changePending := false, hasFuture := true, submitted := g.submitted + 1)
      else g
  }

  /** `requestKillDaemonThread` (Monitor.java:134-148), called by the worker. */
  function OnRequestKill(f: Flags): (s: Step)
    ensures Inv(f) && f.workerActive ==> Inv(s.flags)
    ensures s.finished <==> !f.changePending || !f.alive
    ensures s.finished ==>
      && !s.flags.workerActive && !s.flags.hasFuture && !s.flags.gateClosed
      && s.flags.exited == f.exited + 1
    ensures !s.finished ==> s.flags == f.(changePending := false)
    ensures s.flags.alive == f.alive && s.flags.submitted == f.submitted
  {
    if !f.changePending || !f.alive then
      Step(f.(workerActive := false, hasFuture := false, gateClosed := false, exited := f.exited + 1), true)
    else
      Step(f.(changePending := false), false)
  }

  /** `isStateSolved` (Monitor.java:108-110). */
  predicate StateSolved(f: Flags) {
    !f.changePending && !f.workerActive
  }

  /** While the monitor is alive, the state is solved exactly when clients are let through the gate. */
  lemma SolvedIffGateOpen(f: Flags)
    requires Inv(f) && f.alive
    ensures StateSolved(f) <==> !f.gateClosed
  {
  }

  /** `stop` (Monitor.java:116-127): only the call that finds the monitor alive acts. */
  function OnStop(f: Flags): (r: StopReply)
    ensures r.acted <==> f.alive
    ensures r.awaitsWorker <==> f.alive && f.hasFuture
    ensures !r.flags.alive
    ensures r.flags == f.(alive := false)
    ensures Inv(f) ==> Inv(r.flags)
  {
    StopReply(f.(alive := false), f.alive, f.alive && f.hasFuture)
  }

  /** A second `stop` does nothing and waits for nothing. */
  lemma StopOnce(f: Flags)
    ensures OnStop(OnStop(f).flags) == StopReply(OnStop(f).flags, false, false)
  {
  }

  /** `n` calls of `stateChange`, one after the other. */
  function Changes(f: Flags, n: nat): Flags
    decreases n
  {
    if n == 0 then f else Changes(OnStateChange(f), n - 1)
  }

  /** While a worker is active, any number of changes leave just one pending change and submit nothing. */
  lemma {:induction false} ChangesWhileActive(f: Flags, n: nat)
    requires Inv(f) && f.workerActive
    ensures Changes(f, n) == if n > 0 && f.alive then f.(changePending := true) else f
    decreases n
  {
    if n > 0 {
      var g := OnStateChange(f);
      ChangesWhileActive(g, n - 1);
      if f.alive {
        ChangesWhileActive(f.(changePending := true), n - 1);
      }
    }
  }

  /** With no worker, a burst of changes submits exactly one worker, which will see one pending change if the burst had more than one. */
  lemma ChangesWhileIdle(f: Flags, n: nat)
    requires Inv(f) && f.alive && !f.workerActive && n >= 1
    ensures Changes(f, n) == f.(workerActive := true, hasFuture := true, gateClosed := true,
                                changePending := n > 1, submitted := f.submitted + 1)
  {
    ChangesWhileActive(OnStateChange(f), n - 1);
  }

  /** Changes reported while a worker is active never submit another one. */
  lemma {:induction false} ChangesKeepWorker(f: Flags, n: nat)
    requires f.workerActive
    ensures Changes(f, n).workerActive
    ensures Changes(f, n).submitted == f.submitted
    ensures Changes(f, n).exited == f.exited
    ensures Changes(f, n).alive == f.alive
    ensures Inv(f) ==> Inv(Changes(f, n))
    decreases n
  {
    if n > 0 {
      ChangesKeepWorker(OnStateChange(f), n - 1);
    }
  }

  /**
   * One iteration of the worker loop (Monitor.java:30-41 with `executeAction`,
   * Monitor.java:150-159), run by the active worker: a stopped monitor only asks to
   * finish; otherwise the solver runs while other threads report changes, and a solved
   * state, or a fault, lets the worker ask to finish. A fault switches the monitor off
   * without waiting for any task.
   */
  function OnRound(f: Flags, r: Round): (s: Step)
    requires f.workerActive
    ensures Inv(f) ==> Inv(s.flags)
    ensures s.flags.submitted == f.submitted
    ensures s.finished <==> !s.flags.workerActive
    ensures s.finished ==> s.flags.exited == f.exited + 1 && !s.flags.gateClosed
    ensures !s.finished ==> s.flags.alive && s.flags.exited == f.exited
    ensures f.alive && r.outcome == Fault ==> s.finished && !s.flags.alive
  {
    if !f.alive then OnRequestKill(f)
    else
      ChangesKeepWorker(f, r.changes);
      var g := Changes(f, r.changes);
      match r.outcome
      case Unsolved => Step(g, false)
      case Solved => OnRequestKill(g)
      case Fault => OnRequestKill(OnStop(g).flags)
  }

  /**
   * Coalescing: at the start of a round, with no change pending, the worker finishes
   * after a solved state exactly when no change arrived during the round; any number of
   * changes buy exactly one more round, which starts with no change pending.
   */
  lemma Coalescing(f: Flags, n: nat)
    requires Inv(f) && f.alive && f.workerActive && !f.changePending
    ensures OnRound(f, Round(n, Solved)).finished <==> n == 0
    ensures n > 0 ==> OnRound(f, Round(n, Solved)).flags == f
  {
    ChangesWhileActive(f, n);
  }

  /** A run of the worker task: rounds until one lets it finish, or until the rounds given run out. */
  function WorkerRun(f: Flags, rs: seq<Round>): (s: Step)
    requires f.workerActive
    ensures Inv(f) ==> Inv(s.flags)
    ensures s.flags.submitted == f.submitted
    ensures s.finished <==> !s.flags.workerActive
    ensures s.finished ==> s.flags.exited == f.exited + 1 && !s.flags.gateClosed
    ensures !s.finished ==> s.flags.exited == f.exited
    decreases |rs|
  {
    if rs == [] then Step(f, false)
    else
      var s := OnRound(f, rs[0]);
      if s.finished then s else WorkerRun(s.flags, rs[1..])
  }

  /** A worker that meets a quiet round (no change reported, the solver reports success) finishes there. */
  lemma {:induction false} QuietRoundEndsRun(f: Flags, rs: seq<Round>, k: nat)
    requires Inv(f) && f.alive && f.workerActive && !f.changePending
    requires k < |rs| && rs[k] == Round(0, Solved)
    requires forall i :: 0 <= i < k ==> rs[i].outcome == Solved
    ensures WorkerRun(f, rs).finished
    decreases k
  {
    if k > 0 {
      var s := OnRound(f, rs[0]);
      if !s.finished {
        Coalescing(f, rs[0].changes);
        QuietRoundEndsRun(f, rs[1..], k - 1);
      }
    } else {
      Coalescing(f, 0);
    }
  }

  /** What `executeAction` does as written: on a fault it calls `stop`, which blocks on `future.get()`. */
  datatype Action = Returned(flags: Flags, finished: bool) | AwaitsOwnFuture(flags: Flags)

  /** `executeAction` (Monitor.java:150-159) as written, given the solver's outcome. */
  function ExecuteActionAsWritten(f: Flags, outcome: Outcome): (a: Action)
    ensures outcome != Fault ==> a == Returned(f, outcome == Solved)
  {
    match outcome
    case Solved => Returned(f, true)
    case Unsolved => Returned(f, false)
    case Fault =>
      var r := OnStop(f);
      if r.awaitsWorker then AwaitsOwnFuture(r.flags) else Returned(r.flags, true)
  }

  /**
   * As written, a fault in the solver makes the worker wait on the future of the very
   * task it is running, which cannot complete while it waits, so the worker never gets
   * to `requestKillDaemonThread` and the flags stay set.
   */
  lemma FaultAsWrittenAwaitsOwnFuture(f: Flags)
    requires Inv(f) && f.alive && f.workerActive
    ensures ExecuteActionAsWritten(f, Fault).AwaitsOwnFuture?
    ensures ExecuteActionAsWritten(f, Fault).flags.workerActive
    ensures ExecuteActionAsWritten(f, Fault).flags.gateClosed
  {
  }

  /** Corrected: a fault switches the monitor off and the worker finishes, opening the gate. */
  lemma FaultEndsWorker(f: Flags, n: nat)
    requires Inv(f) && f.alive && f.workerActive
    ensures OnRound(f, Round(n, Fault)) == Step(Changes(f, n).(alive := false, workerActive := false, hasFuture := false, gateClosed := false, exited := f.exited + 1), true)
    ensures StateSolved(OnRound(f, Round(n, Fault)).flags) <==> !Changes(f, n).changePending
  {
  }

  /** The calls any thread can make, in the order they take effect. */
  datatype Event = Change | Stop | Work(round: Round)

  /** A history of calls from a given state; a round only runs while a worker exists. */
  function Run(f: Flags, es: seq<Event>): Flags
    decreases |es|
  {
    if es == [] then f
    else
      var g := match es[0]
        case Change => OnStateChange(f)
        case Stop => OnStop(f).flags
        case Work(r) => if f.workerActive then OnRound(f, r).flags else f;
      Run(g, es[1..])
  }

  /** Every history keeps the invariant; from a fresh monitor, at most one worker task is ever alive. */
  lemma {:induction false} RunKeepsInv(f: Flags, es: seq<Event>)
    requires Inv(f)
    ensures Inv(Run(f, es))
    decreases |es|
  {
    if es != [] {
      var g := match es[0]
        case Change => OnStateChange(f)
        case Stop => OnStop(f).flags
        case Work(r) => if f.workerActive then OnRound(f, r).flags else f;
      RunKeepsInv(g, es[1..]);
    }
  }

  lemma AtMostOneWorker(es: seq<Event>)
    ensures Run(Init, es).submitted <= Run(Init, es).exited + 1
    ensures Run(Init, es).workerActive <==> Run(Init, es).submitted == Run(Init, es).exited + 1
  {
    RunKeepsInv(Init, es);
  }

  /**
   * The monitor itself. The state solver, the executor, the gate and the future are not
   * objects here: each solver call is given as its `Outcome`, the future and the gate are
   * flags, and the executor is the ghost count of submitted tasks.
   */
  class Monitor {
    var changePending: bool
    var workerActive: bool
    var alive: bool
    var gateClosed: bool
    var hasFuture: bool
    ghost var submitted: nat
    ghost var exited: nat

    ghost function Abs(): Flags
      reads this
    {
      Flags(changePending, workerActive, alive, gateClosed, hasFuture, submitted, exited)
    }

    ghost predicate Valid()
      reads this
    {
      Inv(Abs())
    }

    constructor()
      ensures Valid() && Abs() == Init
    {
      changePending := false;
      workerActive := false;
      gateClosed := false;
      alive := true;
      hasFuture := false;
      submitted := 0;
      exited := 0;
    }

    method StateChange()
      requires Valid()
      modifies this
      ensures Valid() && Abs() == OnStateChange(old(Abs()))
    {
      if alive {
        changePending := true;
        gateClosed := true;
        if !workerActive {
          workerActive := true;
          changePending := false;
          hasFuture := true;
          submitted := submitted + 1;
        }
      }
    }

    method IsStateSolved() returns (solved: bool)
      ensures solved <==> StateSolved(Abs())
    {
      solved := !changePending && !workerActive;
    }

    /** Returns whether the caller now waits, on `future.get()`, for the worker to finish. */
    method Stop() returns (awaitsWorker: bool)
      requires Valid()
      modifies this`alive
      ensures Valid()
      ensures Abs() == OnStop(old(Abs())).flags
      ensures awaitsWorker == OnStop(old(Abs())).awaitsWorker
    {
      var wasAlive := alive;
      alive := false;
      awaitsWorker := wasAlive && hasFuture;
    }

    method RequestKillDaemonThread() returns (finished: bool)
      requires Valid() && workerActive
      modifies this
      ensures Valid()
      ensures Step(Abs(), finished) == OnRequestKill(old(Abs()))
    {
      if !changePending || !alive {
        workerActive := false;
        hasFuture := false;
        gateClosed := false;
        exited := exited + 1;
        finished := true;
      } else {
        changePending := false;
        finished := false;
      }
    }

    /**
     * Calls the solver, during which other threads report `round.changes` state
     * changes; a fault switches the monitor off, without waiting, and counts as done.
     */
    method ExecuteAction(round: Round) returns (done: bool)
      requires Valid() && alive && workerActive
      modifies this
      ensures Valid() && workerActive
      ensures done ==> OnRound(old(Abs()), round) == OnRequestKill(Abs())
      ensures !done ==> OnRound(old(Abs()), round) == Step(Abs(), false)
    {
      ghost var f := Abs();
      ChangesKeepWorker(f, round.changes);
      for k := 0 to round.changes
        invariant Valid() && workerActive
        invariant Changes(Abs(), round.changes - k) == Changes(f, round.changes)
      {
        StateChange();
      }
      match round.outcome
      case Solved =>
        done := true;
      case Unsolved =>
        done := false;
      case Fault =>
        alive := false;
        done := true;
    }

    /** `MonitorTask.run`: loops until a round lets it finish, or until the rounds given run out. */
    method Run(rounds: seq<Round>) returns (finished: bool)
      requires Valid() && workerActive
      modifies this
      ensures Valid()
      ensures Step(Abs(), finished) == WorkerRun(old(Abs()), rounds)
    {
      finished := false;
      var i := 0;
      while !finished && i < |rounds|
        invariant 0 <= i <= |rounds|
        invariant Valid()
        invariant !finished ==> workerActive && WorkerRun(Abs(), rounds[i..]) == WorkerRun(old(Abs()), rounds)
        invariant finished ==> Step(Abs(), true) == WorkerRun(old(Abs()), rounds)
        decreases |rounds| - i, !finished
      {
        ghost var f := Abs();
        assert rounds[i..][0] == rounds[i] && rounds[i..][1..] == rounds[i + 1..];
        if !alive {
          finished := RequestKillDaemonThread();
        } else {
          finished := ExecuteAction(rounds[i]);
          if finished {
            finished := RequestKillDaemonThread();
          }
        }
        i := i + 1;
      }
      if !finished {
        assert rounds[i..] == [];
      }
    }
  }
}
