/** The two threads of `_open_download_response` (scripts/bootstrap_uv.py) as a state machine: the worker opens
  * the response and hands it over under a condition variable, the caller waits for it until the deadline.
  * Every acquire, release, wait and wake-up is a step of its own, so a run is any interleaving of the two.
  */
module ResponseHandoff {
  import opened Wrappers

  /** What `urlopen` came back with. */
  datatype Opened = Response | Nothing | Failure

  datatype Lock = Free | HeldByWorker | HeldByCaller

  datatype Worker =
    | Opening
    | BeforeLock(result: Opened)
    | InLock(result: Opened)
    | Leaving(mustClose: bool)   // still holds the lock
    | ClosingLate
    | WorkerDone

  datatype Ending = Returned | DeadlineExceeded | RaisedFailure | Unavailable

  datatype Caller =
    | Entering
    | Testing                    // holds the lock: `while "outcome" not in state`
    | Timing                     // holds the lock: computes the remaining seconds
    | Cancelling                 // holds the lock, has set "cancelled"
    | Waiting                    // has released the lock inside `wait`
    | Taking(result: Opened)     // holds the lock, has read the outcome
    | Deciding(result: Opened)
    | ClosingExpired
    | CallerDone(ending: Ending)

  datatype State = State(
    deadline: int,
    now: int,
    lock: Lock,
    cancelled: bool,
    outcome: Option<Opened>,
    worker: Worker,
    caller: Caller,
    obtained: bool,      // a response has been opened
    closes: nat,       // how often it has been closed
    expired: bool)     // some deadline check has failed

  ghost predicate Init(s: State) {
    s == State(s.deadline, s.now, Free, false, None, Opening, Entering, false, 0, false)
  }

  // ----- the steps -----

  datatype Action =
    | Tick(elapsed: nat)
    | Open(result: Opened)
    | WorkerAcquires | WorkerSettles | WorkerReleases | WorkerCloses
    | CallerAcquires | CallerTests | CallerTimes | CallerCancels | CallerWakes
    | CallerReleases | CallerDecides | CallerCloses

  /** The state after a step, when the step is enabled. */
  function Step(s: State, a: Action): Option<State> {
    match a
    case Tick(elapsed) => Some(s.(now := s.now + elapsed))
    case Open(result) =>
      if s.worker.Opening? then Some(s.(worker := BeforeLock(result), obtained := result.Response?)) else None
    case WorkerAcquires =>
      if s.worker.BeforeLock? && s.lock.Free? then Some(s.(worker := InLock(s.worker.result), lock := HeldByWorker))
        else None
    case WorkerSettles =>
      if !s.worker.InLock? then None
      else if s.cancelled then Some(s.(worker := Leaving(s.worker.result.Response?)))
      else Some(s.(worker := Leaving(false), outcome := Some(s.worker.result)))
    case WorkerReleases =>
      if s.worker.Leaving? then Some(s.(worker := if s.worker.mustClose then ClosingLate else WorkerDone, lock := Free))
        else None
    case WorkerCloses =>
      if s.worker.ClosingLate? then Some(s.(worker := WorkerDone, closes := s.closes + 1)) else None
    case CallerAcquires =>
      if s.caller.Entering? && s.lock.Free? then Some(s.(caller := Testing, lock := HeldByCaller)) else None
    case CallerTests =>
      if !s.caller.Testing? then None
      else if s.outcome.None? then Some(s.(caller := Timing))
      else Some(s.(caller := Taking(s.outcome.value)))
    case CallerTimes =>
      if !s.caller.Timing? then None
      else if s.deadline - s.now <= 0 then Some(s.(caller := Cancelling, cancelled := true, expired := true))
      else Some(s.(caller := Waiting, lock := Free))
    case CallerCancels =>
      if s.caller.Cancelling? then Some(s.(caller := CallerDone(DeadlineExceeded), lock := Free)) else None
    case CallerWakes =>  // notified, timed out or woken for no reason; `wait` takes the lock again
      if s.caller.Waiting? && s.lock.Free? then Some(s.(caller := Testing, lock := HeldByCaller)) else None
    case CallerReleases =>
      if s.caller.Taking? then Some(s.(caller := Deciding(s.caller.result), lock := Free)) else None
    case CallerDecides =>
      if !s.caller.Deciding? then None
      else if s.now >= s.deadline then
        var next := if s.caller.result.Response? then ClosingExpired else CallerDone(DeadlineExceeded);
        Some(s.(caller := next, expired := true))
      else
        Some(s.(caller := CallerDone(
          match s.caller.result case Response => Returned case Nothing => Unavailable case Failure => RaisedFailure)))
    case CallerCloses =>
      if s.caller.ClosingExpired? then Some(s.(caller := CallerDone(DeadlineExceeded), closes := s.closes + 1))
        else None
  }

  ghost predicate Next(s: State, t: State) {
    exists a :: Step(s, a) == Some(t)
  }

  /** A run: it starts initially and takes one step after another. */
  ghost predicate IsRun(run: seq<State>) {
    && |run| > 0 && Init(run[0])
    && forall i {:trigger run[i]} :: 0 <= i && i + 1 < |run| ==> Next(run[i], run[i + 1])
  }

  // ----- the invariant -----

  predicate CallerHolds(c: Caller) {
    c.Testing? || c.Timing? || c.Cancelling? || c.Taking?
  }

  predicate WorkerHolds(w: Worker) {
    w.InLock? || w.Leaving?
  }

  ghost predicate ReturnedResponse(s: State) {
    s.caller == CallerDone(Returned)
  }

  /** Who still has to hand over or close the response. */
  ghost predicate WorkerOwes(s: State) {
    || s.worker == BeforeLock(Response) || s.worker == InLock(Response)
    || s.worker == Leaving(true) || s.worker.ClosingLate?
  }

  ghost predicate CallerOwes(s: State) {
    && s.outcome == Some(Response)
    && !s.caller.CallerDone?
  }

  ghost predicate Inv(s: State) {
    // the lock excludes
    && (s.lock.HeldByWorker? <==> WorkerHolds(s.worker))
    && (s.lock.HeldByCaller? <==> CallerHolds(s.caller))
    // the outcome is settled once, and never after a cancellation
    && (s.outcome.Some? ==> !s.cancelled)
    && (s.cancelled <==> s.caller.Cancelling? || (s.caller == CallerDone(DeadlineExceeded) && s.outcome.None?))
    && (s.worker.Opening? || s.worker.BeforeLock? || s.worker.InLock? ==> s.outcome.None?)
    && (s.worker.WorkerDone? || s.worker.Leaving? || s.worker.ClosingLate? ==> s.outcome.Some? || s.cancelled)
    && (s.worker.Leaving? && s.worker.mustClose ==> s.cancelled)
    && (s.worker.ClosingLate? ==> s.cancelled)
    && (s.caller.Timing? ==> s.outcome.None?)
    && (s.caller.Taking? || s.caller.Deciding? ==> s.outcome == Some(s.caller.result))
    && (s.caller.ClosingExpired? ==> s.outcome == Some(Response) && s.expired)
    && (s.caller.CallerDone? && s.caller.ending != DeadlineExceeded ==> s.outcome.Some?)
    && (ReturnedResponse(s) ==> s.outcome == Some(Response) && !s.expired)
    && (s.caller.Waiting? || s.caller.Entering? || s.caller.Testing? || s.caller.Timing? ==> !s.expired)
    && (s.caller.Taking? || s.caller.Deciding? ==> !s.expired)
    && (s.cancelled ==> s.expired) && (s.expired ==> s.now >= s.deadline)
    && (s.caller == CallerDone(DeadlineExceeded) ==> s.expired)
    && (s.caller == CallerDone(RaisedFailure) ==> s.outcome == Some(Failure))
    && (s.caller == CallerDone(Unavailable) ==> s.outcome == Some(Nothing))
    // an opened response is somebody's duty, or has met its end, once
    && (s.worker.Opening? ==> !s.obtained)
    && (s.obtained <==> WorkerOwes(s) || CallerOwes(s) || ReturnedResponse(s) || s.closes > 0)
    && (WorkerOwes(s) || CallerOwes(s) ==> s.closes == 0 && !ReturnedResponse(s))
    && (ReturnedResponse(s) ==> s.closes == 0)
    && s.closes <= 1
  }

  predicate ByWorker(a: Action) {
    a.Open? || a.WorkerAcquires? || a.WorkerSettles? || a.WorkerReleases? || a.WorkerCloses?
  }

  /** The first half of the caller's work: waiting for the outcome. */
  predicate ByWaitingCaller(a: Action) {
    a.CallerAcquires? || a.CallerTests? || a.CallerTimes? || a.CallerWakes?
  }

  lemma WorkerKeepsInv(s: State, a: Action)
    requires Inv(s) && Step(s, a).Some? && ByWorker(a)
    ensures Inv(Step(s, a).value)
  {
  }

  lemma WaitingCallerKeepsInv(s: State, a: Action)
    requires Inv(s) && Step(s, a).Some? && ByWaitingCaller(a)
    ensures Inv(Step(s, a).value)
  {
  }

  lemma DecidingCallerKeepsInv(s: State, a: Action)
    requires Inv(s) && Step(s, a).Some? && !ByWorker(a) && !ByWaitingCaller(a)
    ensures Inv(Step(s, a).value)
  {
  }

  lemma InvStep(s: State, a: Action)
    requires Inv(s) && Step(s, a).Some?
    ensures Inv(Step(s, a).value)
  {
    hide Inv, Step;
    if ByWorker(a) {
      WorkerKeepsInv(s, a);
    } else if ByWaitingCaller(a) {
      WaitingCallerKeepsInv(s, a);
    } else {
      DecidingCallerKeepsInv(s, a);
    }
  }

  lemma StepLasts(s: State, a: Action)
    requires Step(s, a).Some?
    ensures
      var t := Step(s, a).value;
      && (s.expired ==> t.expired) && (s.cancelled ==> t.cancelled)
      && s.deadline == t.deadline && s.now <= t.now
  {
  }

  /** Nothing but the caller's decision, taken before the deadline, returns a response. */
  lemma ReturnStep(s: State, a: Action)
    requires Inv(s) && Step(s, a).Some? && !ReturnedResponse(s) && ReturnedResponse(Step(s, a).value)
    ensures s.now < s.deadline && s.caller == Deciding(Response)
  {
  }

  lemma {:induction false} InvAlong(run: seq<State>, i: nat)
    requires IsRun(run) && i < |run|
    ensures Inv(run[i])
    decreases i
  {
    if i > 0 {
      InvAlong(run, i - 1);
      assert Next(run[i - 1], run[i - 1 + 1]);
      var a :| Step(run[i - 1], a) == Some(run[i]);
      InvStep(run[i - 1], a);
    }
  }

  // ----- safety, in every interleaving -----

  /** A response is never both returned and closed, and never closed twice. */
  lemma NeverReturnedAndClosed(run: seq<State>, i: nat)
    requires IsRun(run) && i < |run|
    ensures run[i].closes <= 1 && !(ReturnedResponse(run[i]) && run[i].closes > 0)
  {
    InvAlong(run, i);
  }

  /** Once both threads have finished, an opened response was returned or closed, exactly once. */
  lemma DeliveredOrClosed(run: seq<State>, i: nat)
    requires IsRun(run) && i < |run| && run[i].worker.WorkerDone? && run[i].caller.CallerDone?
    ensures run[i].obtained <==> ReturnedResponse(run[i]) || run[i].closes == 1
    ensures run[i].obtained ==> (ReturnedResponse(run[i]) <==> run[i].closes == 0)
  {
    InvAlong(run, i);
  }

  lemma {:induction false} ExpiryLasts(run: seq<State>, i: nat, j: nat)
    requires IsRun(run) && i <= j < |run|
    ensures run[i].expired ==> run[j].expired
    ensures run[i].cancelled ==> run[j].cancelled
    ensures run[i].deadline == run[j].deadline && run[i].now <= run[j].now
    decreases j
  {
    if i < j {
      hide Step;
      ExpiryLasts(run, i, j - 1);
      assert Next(run[j - 1], run[j - 1 + 1]);
      var a :| Step(run[j - 1], a) == Some(run[j]);
      StepLasts(run[j - 1], a);
    }
  }

  /** A response is never returned after cancellation or after a failed deadline check. */
  lemma NeverReturnedLate(run: seq<State>, i: nat, j: nat)
    requires IsRun(run) && i <= j < |run| && (run[i].cancelled || run[i].expired)
    ensures !ReturnedResponse(run[j])
  {
    ExpiryLasts(run, i, j);
    InvAlong(run, i);
    InvAlong(run, j);
  }

  /** The caller gives up only when the deadline has passed, and otherwise reports what the worker found. */
  lemma EndingIsRight(run: seq<State>, i: nat)
    requires IsRun(run) && i < |run| && run[i].caller.CallerDone?
    ensures match run[i].caller.ending
            case Returned => run[i].outcome == Some(Response)
            case RaisedFailure => run[i].outcome == Some(Failure)
            case Unavailable => run[i].outcome == Some(Nothing)
            case DeadlineExceeded => run[i].now >= run[i].deadline
  {
    InvAlong(run, i);
  }

  /** A response is returned by a step that was taken before the deadline. */
  lemma {:induction false} ReturnedInTime(run: seq<State>, j: nat) returns (i: nat)
    requires IsRun(run) && j < |run| && ReturnedResponse(run[j])
    ensures i < j && run[i].now < run[i].deadline && run[i].caller == Deciding(Response) && ReturnedResponse(run[i + 1])
    decreases j
  {
    hide Step, Inv;
    assert j > 0;
    assert Next(run[j - 1], run[j - 1 + 1]);
    var a :| Step(run[j - 1], a) == Some(run[j]);
    if ReturnedResponse(run[j - 1]) {
      i := ReturnedInTime(run, j - 1);
    } else {
      InvAlong(run, j - 1);
      ReturnStep(run[j - 1], a);
      i := j - 1;
    }
  }

  // ----- progress -----

  ghost predicate Finished(s: State) {
    s.worker.WorkerDone? && s.caller.CallerDone?
  }

  /** Some thread can take a step. */
  ghost predicate CanMove(s: State) {
    exists a: Action :: !a.Tick? && Step(s, a).Some?
  }

  /** A step of a thread that is enabled. */
  function Move(s: State): Action {
    match s.worker
    case Opening => Open(Failure)
    case InLock(_) => WorkerSettles
    case Leaving(_) => WorkerReleases
    case ClosingLate => WorkerCloses
    case _ =>
      match s.caller
      case Testing => CallerTests
      case Timing => CallerTimes
      case Cancelling => CallerCancels
      case Taking(_) => CallerReleases
      case Deciding(_) => CallerDecides
      case ClosingExpired => CallerCloses
      case Entering => if s.lock.Free? then CallerAcquires else WorkerAcquires
      case Waiting => if s.lock.Free? then CallerWakes else WorkerAcquires
      case CallerDone(_) => WorkerAcquires
  }

  lemma MoveIsEnabled(s: State)
    requires Inv(s) && !Finished(s)
    ensures !Move(s).Tick? && Step(s, Move(s)).Some?
  {
  }

  lemma FinishedIsStill(s: State)
    requires Finished(s)
    ensures !CanMove(s)
  {
  }

  lemma MovesUnlessFinished(s: State)
    requires Inv(s)
    ensures CanMove(s) <==> !Finished(s)
  {
    hide Inv, Step;
    if Finished(s) {
      FinishedIsStill(s);
    } else {
      MoveIsEnabled(s);
    }
  }

  /** There is no deadlock: in every interleaving some thread can take a step until both have finished, and then none.
    */
  lemma NeverStuck(run: seq<State>, i: nat)
    requires IsRun(run) && i < |run|
    ensures CanMove(run[i]) <==> !Finished(run[i])
  {
    InvAlong(run, i);
    MovesUnlessFinished(run[i]);
  }

  function Rank(s: State): nat {
    (match s.worker
     case Opening => 5 case BeforeLock(_) => 4 case InLock(_) => 3 case Leaving(_) => 2 case ClosingLate => 1
       case WorkerDone => 0)
    + match s.caller
      case Entering => 7 case Waiting => 7 case Testing => 6 case Timing => 5 case Taking(_) => 3 case Cancelling => 1
      case Deciding(_) => 2 case ClosingExpired => 1 case CallerDone(_) => 0
  }

  /** After the deadline every step of a thread brings the end nearer. */
  lemma RankStep(s: State, a: Action)
    requires Step(s, a).Some? && s.now >= s.deadline
    ensures
      var t := Step(s, a).value;
      && t.now >= t.deadline
      && Rank(t) + (if a.Tick? then 0 else 1) <= Rank(s)
  {
  }

  function Run(s: State, actions: seq<Action>): Option<State>
    decreases |actions|
  {
    if actions == [] then Some(s)
    else
      var t := Step(s, actions[0]);
      if t.None? then None else Run(t.value, actions[1..])
  }

  function ThreadSteps(actions: seq<Action>): nat {
    if actions == [] then 0 else (if actions[0].Tick? then 0 else 1) + ThreadSteps(actions[1..])
  }

  /** After the deadline the two threads take at most Rank(s) more steps, whatever wakes the caller up. */
  lemma {:induction false} FewStepsAfterDeadline(s: State, actions: seq<Action>)
    requires Run(s, actions).Some? && s.now >= s.deadline
    ensures ThreadSteps(actions) + Rank(Run(s, actions).value) <= Rank(s)
    decreases |actions|
  {
    hide Step, Rank;
    if actions != [] {
      RankStep(s, actions[0]);
      FewStepsAfterDeadline(Step(s, actions[0]).value, actions[1..]);
    }
  }

  lemma {:induction false} InvAfter(s: State, actions: seq<Action>)
    requires Inv(s) && Run(s, actions).Some?
    ensures Inv(Run(s, actions).value)
    decreases |actions|
  {
    hide Inv, Step;
    if actions != [] {
      InvStep(s, actions[0]);
      InvAfter(Step(s, actions[0]).value, actions[1..]);
    }
  }

  /** From any state of a run on after the deadline: however the two threads go on, they take at most Rank(s) more
    * steps, and where they can go on no further, both have finished.
    */
  lemma FinishedAfterDeadline(run: seq<State>, i: nat, actions: seq<Action>)
    requires IsRun(run) && i < |run| && run[i].now >= run[i].deadline && Run(run[i], actions).Some?
    ensures ThreadSteps(actions) <= Rank(run[i])
    ensures CanMove(Run(run[i], actions).value) <==> !Finished(Run(run[i], actions).value)
  {
    hide Inv, Step, Rank;
    InvAlong(run, i);
    FewStepsAfterDeadline(run[i], actions);
    InvAfter(run[i], actions);
    MovesUnlessFinished(Run(run[i], actions).value);
  }

  lemma {:induction false} FinishFrom(s: State) returns (actions: seq<Action>)
    requires Inv(s) && s.now >= s.deadline
    ensures |actions| <= Rank(s) && Run(s, actions).Some? && Finished(Run(s, actions).value)
    decreases Rank(s)
  {
    hide Inv, Step, Rank;
    if Finished(s) {
      actions := [];
    } else {
      MoveIsEnabled(s);
      var a := Move(s);
      InvStep(s, a);
      RankStep(s, a);
      var rest := FinishFrom(Step(s, a).value);
      actions := [a] + rest;
      assert actions[1..] == rest;
    }
  }

  /** And Rank(s) steps of the threads are enough for both to finish, whatever state the deadline finds them in. */
  lemma CanFinishAfterDeadline(run: seq<State>, i: nat) returns (actions: seq<Action>)
    requires IsRun(run) && i < |run| && run[i].now >= run[i].deadline
    ensures |actions| <= Rank(run[i]) && Run(run[i], actions).Some? && Finished(Run(run[i], actions).value)
  {
    InvAlong(run, i);
    actions := FinishFrom(run[i]);
  }
}
