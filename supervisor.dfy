/**
 * The coordinating part of the sidecar's `main`: the settling loop that
 * decides when to start the main program, and the event loop that sends
 * SIGHUP on configuration changes, forwards termination between confd and
 * the main program, and ends once both have exited.
 *
 * Go's `select` receives from several channels in an order nobody controls.
 * The model takes that order as input: a sequence of events, each one the
 * value the coordinator received next. An event whose channel the current
 * `select` does not listen to (a SIGTERM or a child's exit during
 * settling, a timer that is not armed, a child whose exit channel was set
 * to nil, anything after the loop ended) cannot be received; the model
 * leaves the state unchanged for it. Time is an integer count of
 * milliseconds.
 */
module Supervisor {
  import opened Wrappers
  import opened Strings
  import opened ExitStatus

  /** The quiet window of `time.After(1 * time.Second)`, in milliseconds. */
  const Window: int := 1000

  /** The text confd writes to its standard error when it has rewritten a file. */
  const UpdateMarker: string := " has been updated"

  /** A line of confd's standard error announces a configuration change. */
  predicate IsChangeMarker(line: string)
  {
    Contains(line, UpdateMarker)
  }

  /**
   * A line announces a change exactly when the marker text occurs in it,
   * anywhere; a line shorter than the marker never does.
   */
  lemma ChangeMarkerAnywhere(line: string, before: string, after: string)
    ensures IsChangeMarker(before + UpdateMarker + after)
    ensures |line| < |UpdateMarker| ==> !IsChangeMarker(line)
  {
    var s := before + UpdateMarker + after;
    assert s[|before|..|before| + |UpdateMarker|] == UpdateMarker;
    assert OccursAt(s, UpdateMarker, |before|);
  }

  datatype Event =
    | Change(t: int)             // a change marker, stamped with `time.Now()` by the reader goroutine
    | TimerFired(at: int)        // the armed `confdSettleTimeout` fired; `at` is the clock reading
    | SigTerm                    // SIGTERM delivered to the sidecar
    | ConfdExit(err: WaitError)  // `confdCmd.Wait()` returned
    | MainExit(err: WaitError)   // `mainProgramCmd.Wait()` returned

  datatype Process = Confd | MainProgram

  datatype Signal = SIGTERM | SIGHUP

  /** What the sidecar does to its children: start the main program, or signal a child. */
  datatype Action = Launch(at: int) | Send(to: Process, sig: Signal)

  /** Settling: before the `settled` loop breaks; Running: inside the event loop; Ended: after it. */
  datatype Phase = Settling | Running | Ended

  /**
   * The coordinator's variables. `settleTimeout` is the deadline of the
   * timer `confdSettleTimeout` (None for a nil channel); `awaitingConfd`
   * and `awaitingMainProgram` say whether `confdEnded` and
   * `mainProgramEnded` are still non-nil; `actions` logs what was done to
   * the children, in order.
   */
  datatype State = State(
    phase: Phase,
    settleTimeout: Option<int>,
    mainProgramStartTime: int,
    confdSignaled: bool,
    mainProgramSignaled: bool,
    confdExitStatus: int,
    mainProgramExitStatus: int,
    awaitingConfd: bool,
    awaitingMainProgram: bool,
    actions: seq<Action>)

  /** Right after confd was started at time `start`: the settle timer is armed for one window. */
  function Init(start: int): (s: State)
  {
    State(Settling, Some(start + Window), 0, false, false, 0, 0, true, true, [])
  }

  /** The armed timer has reached its deadline by time `at`. */
  predicate Due(timeout: Option<int>, at: int)
  {
    timeout.Some? && at >= timeout.value
  }

  /**
   * One turn of the `settled` loop: a change re-arms the timer, the timer
   * firing starts the main program. Nothing else is received here.
   */
  function SettleStep(s: State, e: Event): (s': State)
  {
    match e
    case Change(t) => s.(settleTimeout := Some(t + Window))
    case TimerFired(at) =>
      if Due(s.settleTimeout, at) then
        s.(phase := Running, settleTimeout := None, mainProgramStartTime := at, actions := s.actions + [Launch(at)])
      else s
    case _ => s
  }

  /** One turn of the event loop, followed by its check whether both children have ended. */
  function RunStep(s: State, e: Event): (s': State)
  {
    var next :=
      match e
      case Change(t) =>
        if t > s.mainProgramStartTime then s.(settleTimeout := Some(t + Window)) else s
      case TimerFired(at) =>
        if Due(s.settleTimeout, at) then
          s.(settleTimeout := None, actions := s.actions + [Send(MainProgram, SIGHUP)])
        else s
      case SigTerm =>
        s.(confdSignaled := true, mainProgramSignaled := true,
           actions := s.actions + [Send(Confd, SIGTERM)] + [Send(MainProgram, SIGTERM)])
      case ConfdExit(err) =>
        if s.awaitingConfd then
          s.(confdExitStatus := LogExit(err), confdSignaled := true, awaitingConfd := false,
             actions := if s.mainProgramSignaled then s.actions else s.actions + [Send(MainProgram, SIGTERM)])
        else s
      case MainExit(err) =>
        if s.awaitingMainProgram then
          s.(mainProgramExitStatus := LogExit(err), mainProgramSignaled := true, awaitingMainProgram := false,
             actions := if s.confdSignaled then s.actions else s.actions + [Send(Confd, SIGTERM)])
        else s;
    if !next.awaitingConfd && !next.awaitingMainProgram then next.(phase := Ended) else next
  }

  /** The coordinator receives event `e`. */
  function Step(s: State, e: Event): (s': State)
  {
    match s.phase
    case Settling => SettleStep(s, e)
    case Running => RunStep(s, e)
    case Ended => s
  }

  /** The coordinator receives the events of `events`, in order. */
  function Run(s: State, events: seq<Event>): (s': State)
    decreases |events|
  {
    if |events| == 0 then s
    else Step(Run(s, events[..|events| - 1]), events[|events| - 1])
  }

  /** How the sidecar ends, once the event loop has ended (None while it still runs). */
  function Outcome(s: State): (ending: Option<Ending>)
  {
    if s.phase == Ended then Some(Resolve(s.mainProgramExitStatus, s.confdExitStatus)) else None
  }

  /** Receiving one more event is one more `Step`. */
  lemma RunExtend(s: State, events: seq<Event>, n: int)
    requires 0 <= n < |events|
    ensures Run(s, events[..n + 1]) == Step(Run(s, events[..n]), events[n])
  {
    assert events[..n + 1][..n] == events[..n];
  }

  /** Once the event loop has ended, no event changes anything. */
  lemma {:induction false} RunAfterEnded(s: State, events: seq<Event>, n: int)
    requires 0 <= n <= |events| && Run(s, events[..n]).phase == Ended
    ensures Run(s, events) == Run(s, events[..n])
    decreases |events| - n
  {
    if n < |events| {
      RunExtend(s, events, n);
      RunAfterEnded(s, events, n + 1);
    } else {
      assert events[..n] == events;
    }
  }

  /**
   * In the event loop, a change stamped after the main program started
   * re-arms the reload timer one window later; an earlier (stale) change
   * leaves the timer and everything else as they were.
   */
  lemma ReceiveChange(s: State, t: int)
    requires s.phase == Running && (s.awaitingConfd || s.awaitingMainProgram)
    ensures t > s.mainProgramStartTime ==> Step(s, Change(t)) == s.(settleTimeout := Some(t + Window))
    ensures t <= s.mainProgramStartTime ==> Step(s, Change(t)) == s
  {
  }

  /**
   * When the armed reload timer fires, the main program gets exactly one
   * SIGHUP and the timer is disarmed; a timer that is not armed, or not yet
   * due, is not received.
   */
  lemma ReceiveTimer(s: State, at: int)
    requires s.phase == Running && (s.awaitingConfd || s.awaitingMainProgram)
    ensures Due(s.settleTimeout, at) ==>
      Step(s, TimerFired(at)) == s.(settleTimeout := None, actions := s.actions + [Send(MainProgram, SIGHUP)])
    ensures !Due(s.settleTimeout, at) ==> Step(s, TimerFired(at)) == s
  {
  }

  /**
   * SIGTERM is forwarded to confd and then to the main program
   * unconditionally, and both count as signaled; nothing else changes.
   */
  lemma ReceiveSigTerm(s: State)
    requires s.phase == Running && (s.awaitingConfd || s.awaitingMainProgram)
    ensures Step(s, SigTerm) == s.(confdSignaled := true, mainProgramSignaled := true,
                                   actions := s.actions + [Send(Confd, SIGTERM)] + [Send(MainProgram, SIGTERM)])
  {
  }

  /**
   * confd's exit is recorded once: its `LogExit` status is kept, confd
   * counts as signaled and is no longer awaited, and the main program gets
   * SIGTERM unless it was already signaled (its own flag is left as it
   * was). The loop ends if the main program has already exited.
   */
  lemma ReceiveConfdExit(s: State, err: WaitError)
    requires s.phase == Running && (s.awaitingConfd || s.awaitingMainProgram)
    ensures s.awaitingConfd ==> (Step(s, ConfdExit(err)) ==
      s.(phase := if s.awaitingMainProgram then Running else Ended,
         confdExitStatus := LogExit(err), confdSignaled := true, awaitingConfd := false,
         actions := if s.mainProgramSignaled then s.actions else s.actions + [Send(MainProgram, SIGTERM)]))
    ensures !s.awaitingConfd ==> Step(s, ConfdExit(err)) == s
  {
  }

  /** The main program's exit, symmetric to `ReceiveConfdExit`. */
  lemma ReceiveMainExit(s: State, err: WaitError)
    requires s.phase == Running && (s.awaitingConfd || s.awaitingMainProgram)
    ensures s.awaitingMainProgram ==> (Step(s, MainExit(err)) ==
      s.(phase := if s.awaitingConfd then Running else Ended,
         mainProgramExitStatus := LogExit(err), mainProgramSignaled := true, awaitingMainProgram := false,
         actions := if s.confdSignaled then s.actions else s.actions + [Send(Confd, SIGTERM)]))
    ensures !s.awaitingMainProgram ==> Step(s, MainExit(err)) == s
  {
  }

  /**
   * The settling loop of `main`: confd was started at time `start`; every
   * change re-arms the settle timer one window later, and the first timer
   * reading at or after the deadline ends the loop and starts the main
   * program at that time. Returns how many events were consumed and, when
   * the main program was started, when.
   */
  method Settle(start: int, events: seq<Event>) returns (i: nat, launchedAt: Option<int>)
    ensures i <= |events|
    ensures launchedAt.None? ==>
      i == |events| && Run(Init(start), events).phase == Settling && Run(Init(start), events).actions == []
    ensures launchedAt.Some? ==>
      0 < i && Run(Init(start), events[..i]) == State(Running, None, launchedAt.value, false, false, 0, 0, true, true, [Launch(launchedAt.value)])
  {
    i := 0;
    var confdSettleTimeout: Option<int> := Some(start + Window);
    launchedAt := None;
    while i < |events| && launchedAt.None?
      invariant 0 <= i <= |events|
      invariant confdSettleTimeout.Some?
      invariant launchedAt.None? ==>
        Run(Init(start), events[..i]) == State(Settling, confdSettleTimeout, 0, false, false, 0, 0, true, true, [])
      invariant launchedAt.Some? ==>
        0 < i && Run(Init(start), events[..i]) == State(Running, None, launchedAt.value, false, false, 0, 0, true, true, [Launch(launchedAt.value)])
    {
      RunExtend(Init(start), events, i);
      match events[i] {
        case Change(t) =>
          confdSettleTimeout := Some(t + Window);
        case TimerFired(at) =>
          if at >= confdSettleTimeout.value {
            launchedAt := Some(at);
          }
        case _ =>
      }
      i := i + 1;
    }
    if launchedAt.None? {
      assert events[..i] == events;
    }
  }

  /**
   * One turn of the event loop of `main`: the coordinator receives `e` while
   * at least one child is still awaited and updates its locals as the
   * matching `select` case does.
   */
  method Receive(e: Event, mainProgramStartTime: int, confdSettleTimeout0: Option<int>,
                 confdSignaled0: bool, mainProgramSignaled0: bool, confdExitStatus0: int, mainProgramExitStatus0: int,
                 awaitingConfd0: bool, awaitingMainProgram0: bool, actions0: seq<Action>)
    returns (confdSettleTimeout: Option<int>, confdSignaled: bool, mainProgramSignaled: bool,
             confdExitStatus: int, mainProgramExitStatus: int, awaitingConfd: bool, awaitingMainProgram: bool,
             actions: seq<Action>)
    requires awaitingConfd0 || awaitingMainProgram0
    ensures
      var before := State(Running, confdSettleTimeout0, mainProgramStartTime, confdSignaled0, mainProgramSignaled0,
                          confdExitStatus0, mainProgramExitStatus0, awaitingConfd0, awaitingMainProgram0, actions0);
      Step(before, e) ==
        State(if awaitingConfd || awaitingMainProgram then Running else Ended, confdSettleTimeout, mainProgramStartTime,
              confdSignaled, mainProgramSignaled, confdExitStatus, mainProgramExitStatus,
              awaitingConfd, awaitingMainProgram, actions)
  {
    confdSettleTimeout, confdSignaled, mainProgramSignaled := confdSettleTimeout0, confdSignaled0, mainProgramSignaled0;
    confdExitStatus, mainProgramExitStatus := confdExitStatus0, mainProgramExitStatus0;
    awaitingConfd, awaitingMainProgram, actions := awaitingConfd0, awaitingMainProgram0, actions0;
    ghost var before := State(Running, confdSettleTimeout, mainProgramStartTime,
                              confdSignaled, mainProgramSignaled, confdExitStatus, mainProgramExitStatus,
                              awaitingConfd, awaitingMainProgram, actions);
    match e {
      case Change(t) =>
        ReceiveChange(before, t);
        if t > mainProgramStartTime {
          confdSettleTimeout := Some(t + Window);
        }
      case TimerFired(at) =>
        ReceiveTimer(before, at);
        if confdSettleTimeout.Some? && at >= confdSettleTimeout.value {
          confdSettleTimeout := None;
          actions := actions + [Send(MainProgram, SIGHUP)];
        }
      case SigTerm =>
        ReceiveSigTerm(before);
        actions := actions + [Send(Confd, SIGTERM)];
        confdSignaled := true;
        actions := actions + [Send(MainProgram, SIGTERM)];
        mainProgramSignaled := true;
      case ConfdExit(err) =>
        ReceiveConfdExit(before, err);
        if awaitingConfd {
          confdExitStatus := LogExit(err);
          confdSignaled := true;
          awaitingConfd := false;
          if !mainProgramSignaled {
            actions := actions + [Send(MainProgram, SIGTERM)];
          }
        }
      case MainExit(err) =>
        ReceiveMainExit(before, err);
        if awaitingMainProgram {
          mainProgramExitStatus := LogExit(err);
          mainProgramSignaled := true;
          awaitingMainProgram := false;
          if !confdSignaled {
            actions := actions + [Send(Confd, SIGTERM)];
          }
        }
    }
  }

  /**
   * `main` from confd's start: the settling loop, the start of the main
   * program and the event loop, over the events the coordinator receives.
   * Returns how the sidecar ends (None when the events run out before both
   * children have exited) and what it did to its children.
   */
  method Supervise(start: int, events: seq<Event>) returns (ending: Option<Ending>, actions: seq<Action>)
    ensures actions == Run(Init(start), events).actions
    ensures ending == Outcome(Run(Init(start), events))
  {
    var i, launchedAt := Settle(start, events);
    if launchedAt.None? {
      return None, [];
    }

    var mainProgramStartTime := launchedAt.value;
    actions := [Launch(mainProgramStartTime)];
    var confdSignaled, mainProgramSignaled := false, false;
    var confdExitStatus, mainProgramExitStatus := 0, 0;
    var awaitingConfd, awaitingMainProgram := true, true;
    var confdSettleTimeout: Option<int> := None;
    while i < |events| && (awaitingConfd || awaitingMainProgram)
      invariant 0 <= i <= |events|
      invariant Run(Init(start), events[..i]) ==
        State(if awaitingConfd || awaitingMainProgram then Running else Ended, confdSettleTimeout, mainProgramStartTime,
              confdSignaled, mainProgramSignaled, confdExitStatus, mainProgramExitStatus,
              awaitingConfd, awaitingMainProgram, actions)
    {
      RunExtend(Init(start), events, i);
      confdSettleTimeout, confdSignaled, mainProgramSignaled, confdExitStatus, mainProgramExitStatus,
        awaitingConfd, awaitingMainProgram, actions :=
        Receive(events[i], mainProgramStartTime, confdSettleTimeout, confdSignaled, mainProgramSignaled,
                confdExitStatus, mainProgramExitStatus, awaitingConfd, awaitingMainProgram, actions);
      i := i + 1;
    }
    if !awaitingConfd && !awaitingMainProgram {
      RunAfterEnded(Init(start), events, i);
      ending := Some(Resolve(mainProgramExitStatus, confdExitStatus));
    } else {
      assert events[..i] == events;
      ending := None;
    }
  }
}
