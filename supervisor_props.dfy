/**
 * What the coordinator of `main` guarantees over every order in which its
 * `select` statements may receive events: the main program is started once,
 * after a quiet window; reloads are coalesced; a child's exit is recorded
 * once and the other child is told to stop; and the sidecar's exit code is
 * the status of a child that exited.
 */
module SupervisorProperties {
  import opened Wrappers
  import opened ExitStatus
  import opened Supervisor

  /** How often `a` occurs in `acts`. */
  function Count(acts: seq<Action>, a: Action): (n: nat)
    decreases |acts|
  {
    if |acts| == 0 then 0
    else Count(acts[..|acts| - 1], a) + (if acts[|acts| - 1] == a then 1 else 0)
  }

  lemma CountAppend(acts: seq<Action>, x: Action, a: Action)
    ensures Count(acts + [x], a) == Count(acts, a) + (if x == a then 1 else 0)
  {
    assert (acts + [x])[..|acts|] == acts;
  }

  /** Receiving `a` and then `b` is receiving `a + b`. */
  lemma {:induction false} RunAppend(s: State, a: seq<Event>, b: seq<Event>)
    ensures Run(s, a + b) == Run(Run(s, a), b)
    decreases |b|
  {
    if |b| == 0 {
      assert a + b == a;
    } else {
      assert (a + b)[..|a + b| - 1] == a + b[..|b| - 1];
      RunAppend(s, a, b[..|b| - 1]);
    }
  }

  // ---------------------------------------------------------------------
  // The invariant of the coordinator
  // ---------------------------------------------------------------------

  /** Before the main program starts: the timer is armed and nothing else has happened. */
  ghost predicate SettlingInv(s: State)
  {
    s.settleTimeout.Some? && s.awaitingConfd && s.awaitingMainProgram &&
    !s.confdSignaled && !s.mainProgramSignaled &&
    s.confdExitStatus == 0 && s.mainProgramExitStatus == 0 && s.actions == []
  }

  /** The main program was started once, first, and everything done since was a signal. */
  ghost predicate LaunchedOnce(s: State)
  {
    |s.actions| > 0 && s.actions[0] == Launch(s.mainProgramStartTime) &&
    forall j :: 0 < j < |s.actions| ==> s.actions[j].Send?
  }

  /**
   * A child that is no longer awaited has exited, its status is recorded
   * and it counts as signaled; a child still awaited has status 0.
   */
  ghost predicate ExitsRecorded(s: State)
  {
    s.confdExitStatus >= 0 && s.mainProgramExitStatus >= 0 &&
    (s.awaitingConfd ==> s.confdExitStatus == 0) &&
    (s.awaitingMainProgram ==> s.mainProgramExitStatus == 0) &&
    (!s.awaitingConfd ==> s.confdSignaled) &&
    (!s.awaitingMainProgram ==> s.mainProgramSignaled)
  }

  /**
   * Every child still running that counts as signaled, or whose partner
   * has exited, has been sent SIGTERM; confd is never sent SIGHUP.
   */
  ghost predicate NoOrphanInv(s: State)
  {
    (s.awaitingConfd && (s.confdSignaled || !s.awaitingMainProgram) ==> Send(Confd, SIGTERM) in s.actions) &&
    (s.awaitingMainProgram && (s.mainProgramSignaled || !s.awaitingConfd) ==> Send(MainProgram, SIGTERM) in s.actions) &&
    Send(Confd, SIGHUP) !in s.actions
  }

  ghost predicate Inv(s: State)
  {
    (s.phase == Settling ==> SettlingInv(s)) &&
    (s.phase != Settling ==> LaunchedOnce(s)) &&
    (s.phase == Ended <==> !s.awaitingConfd && !s.awaitingMainProgram) &&
    ExitsRecorded(s) && NoOrphanInv(s)
  }

  lemma InitInv(start: int)
    ensures Inv(Init(start))
  {
  }

  lemma AppendSend(acts: seq<Action>, x: Action)
    requires |acts| > 0 && forall j :: 0 < j < |acts| ==> acts[j].Send?
    requires x.Send?
    ensures var r := acts + [x]; |r| > 0 && r[0] == acts[0] && forall j :: 0 < j < |r| ==> r[j].Send?
  {
  }

  lemma SettleStepInv(s: State, e: Event)
    requires s.phase == Settling && Inv(s)
    ensures Inv(Step(s, e))
  {
  }

  lemma RunStepInv(s: State, e: Event)
    requires s.phase == Running && Inv(s)
    ensures Inv(Step(s, e))
  {
    var r := Step(s, e);
    match e {
      case Change(t) =>
      case TimerFired(at) =>
        if Due(s.settleTimeout, at) {
          AppendSend(s.actions, Send(MainProgram, SIGHUP));
        }
      case SigTerm =>
        AppendSend(s.actions, Send(Confd, SIGTERM));
        AppendSend(s.actions + [Send(Confd, SIGTERM)], Send(MainProgram, SIGTERM));
      case ConfdExit(err) =>
        if s.awaitingConfd && !s.mainProgramSignaled {
          AppendSend(s.actions, Send(MainProgram, SIGTERM));
        }
      case MainExit(err) =>
        if s.awaitingMainProgram && !s.confdSignaled {
          AppendSend(s.actions, Send(Confd, SIGTERM));
        }
    }
  }

  lemma StepInv(s: State, e: Event)
    requires Inv(s)
    ensures Inv(Step(s, e))
  {
    match s.phase {
      case Settling => SettleStepInv(s, e);
      case Running => RunStepInv(s, e);
      case Ended =>
    }
  }

  /** Every state the coordinator reaches from confd's start satisfies `Inv`. */
  lemma {:induction false} RunInv(start: int, events: seq<Event>)
    ensures Inv(Run(Init(start), events))
    decreases |events|
  {
    if |events| == 0 {
      InitInv(start);
    } else {
      RunInv(start, events[..|events| - 1]);
      StepInv(Run(Init(start), events[..|events| - 1]), events[|events| - 1]);
    }
  }

  // ---------------------------------------------------------------------
  // Consequences of the invariant
  // ---------------------------------------------------------------------

  /**
   * Once either child has exited, the other one has exited too or has been
   * sent SIGTERM: the sidecar never leaves a child running unasked.
   */
  lemma {:induction false} NoOrphan(start: int, events: seq<Event>)
    ensures var s := Run(Init(start), events);
      (!s.awaitingConfd ==> !s.awaitingMainProgram || Send(MainProgram, SIGTERM) in s.actions) &&
      (!s.awaitingMainProgram ==> !s.awaitingConfd || Send(Confd, SIGTERM) in s.actions)
  {
    RunInv(start, events);
  }

  /** The event loop ends exactly when both children's exits have been processed. */
  lemma {:induction false} EndsWhenBothExited(start: int, events: seq<Event>)
    ensures var s := Run(Init(start), events);
      s.phase == Ended <==> !s.awaitingConfd && !s.awaitingMainProgram
  {
    RunInv(start, events);
  }

  /**
   * Nothing is done to the children while settling; afterwards the first
   * thing done was starting the main program, and it is never started again.
   */
  lemma {:induction false} LaunchedExactlyOnce(start: int, events: seq<Event>)
    ensures var s := Run(Init(start), events);
      (s.phase == Settling ==> s.actions == []) &&
      (s.phase != Settling ==>
         |s.actions| > 0 && s.actions[0] == Launch(s.mainProgramStartTime) &&
         forall j :: 0 < j < |s.actions| ==> !s.actions[j].Launch?)
  {
    RunInv(start, events);
  }

  /** confd is only ever sent SIGTERM; SIGHUP goes to the main program alone. */
  lemma {:induction false} ConfdNeverReloaded(start: int, events: seq<Event>)
    ensures Send(Confd, SIGHUP) !in Run(Init(start), events).actions
  {
    RunInv(start, events);
  }

  // ---------------------------------------------------------------------
  // Settling
  // ---------------------------------------------------------------------

  /** The timestamp of the last change in `events`, or `start` when there is none. */
  function LastChange(events: seq<Event>, start: int): (t: int)
    decreases |events|
  {
    if |events| == 0 then start
    else match events[|events| - 1]
      case Change(t) => t
      case _ => LastChange(events[..|events| - 1], start)
  }

  /**
   * While settling, the timer is armed one window after the last change,
   * or one window after confd's start when there was none.
   */
  lemma {:induction false} SettleDeadline(start: int, events: seq<Event>)
    requires Run(Init(start), events).phase == Settling
    ensures Run(Init(start), events).settleTimeout == Some(LastChange(events, start) + Window)
    decreases |events|
  {
    if |events| > 0 {
      var p := events[..|events| - 1];
      if Run(Init(start), p).phase != Settling {
        RunInv(start, p);
      } else {
        SettleDeadline(start, p);
      }
    }
  }

  /** Settling ends only by a due timer reading, which becomes the main program's start time. */
  lemma LeavesSettling(s: State, e: Event)
    requires s.phase == Settling && Step(s, e).phase != Settling
    ensures e == TimerFired(Step(s, e).mainProgramStartTime) && Due(s.settleTimeout, e.at)
  {
  }

  /** After settling, the start time of the main program never changes. */
  lemma StartTimeKept(s: State, e: Event)
    requires s.phase != Settling
    ensures Step(s, e).phase != Settling && Step(s, e).mainProgramStartTime == s.mainProgramStartTime
  {
  }

  /**
   * The main program is started by a timer reading taken while settling,
   * at or after one full window since the last change: with no change in
   * the window before it.
   */
  lemma {:induction false} LaunchAfterQuietWindow(start: int, events: seq<Event>)
    requires Run(Init(start), events).phase != Settling
    ensures var launchedAt := Run(Init(start), events).mainProgramStartTime;
      exists k :: 0 <= k < |events| && events[k] == TimerFired(launchedAt) &&
        Run(Init(start), events[..k]).phase == Settling &&
        launchedAt >= LastChange(events[..k], start) + Window
    decreases |events|
  {
    var n := |events| - 1;
    var p := events[..n];
    var launchedAt := Run(Init(start), events).mainProgramStartTime;
    assert Run(Init(start), events) == Step(Run(Init(start), p), events[n]);
    if Run(Init(start), p).phase == Settling {
      SettleDeadline(start, p);
      LeavesSettling(Run(Init(start), p), events[n]);
    } else {
      StartTimeKept(Run(Init(start), p), events[n]);
      LaunchAfterQuietWindow(start, p);
      var k :| 0 <= k < |p| && p[k] == TimerFired(launchedAt) &&
        Run(Init(start), p[..k]).phase == Settling &&
        launchedAt >= LastChange(p[..k], start) + Window;
      assert p[..k] == events[..k];
      assert events[k] == p[k];
    }
  }

  /** The clock reading a change or a timer event carries. */
  function Clock(e: Event): (t: int)
    requires e.Change? || e.TimerFired?
  {
    if e.Change? then e.t else e.at
  }

  /**
   * A burst of changes while settling: only changes and timer readings, in
   * chronological order, each change arriving before the window opened by
   * the previous change (or by confd's start) has closed, and the last
   * event a change.
   */
  ghost predicate Burst(start: int, events: seq<Event>)
  {
    |events| > 0 && events[|events| - 1].Change? &&
    (forall j :: 0 <= j < |events| ==> events[j].Change? || events[j].TimerFired?) &&
    (forall j, k :: 0 <= j < k < |events| ==> Clock(events[j]) <= Clock(events[k])) &&
    (forall k :: 0 <= k < |events| && events[k].Change? ==> events[k].t < LastChange(events[..k], start) + Window)
  }

  /** A timer reading before the last change is followed by a change, with no change in between. */
  lemma {:induction false} NextChange(start: int, events: seq<Event>, j: int) returns (k: int)
    requires |events| > 0 && events[|events| - 1].Change?
    requires 0 <= j < |events| && !events[j].Change?
    ensures j < k < |events| && events[k].Change?
    ensures LastChange(events[..k], start) == LastChange(events[..j], start)
    decreases |events| - j
  {
    assert events[..j + 1][..j] == events[..j];
    if events[j + 1].Change? {
      k := j + 1;
    } else {
      k := NextChange(start, events, j + 1);
    }
  }

  /** No timer reading within a burst is due: every prefix of a burst is still settling. */
  lemma {:induction false} BurstKeepsSettling(start: int, events: seq<Event>, n: int)
    requires Burst(start, events) && 0 <= n <= |events|
    ensures Run(Init(start), events[..n]).phase == Settling
    decreases n
  {
    if n > 0 {
      BurstKeepsSettling(start, events, n - 1);
      RunExtend(Init(start), events, n - 1);
      if events[n - 1].TimerFired? {
        SettleDeadline(start, events[..n - 1]);
        var k := NextChange(start, events, n - 1);
        assert Clock(events[n - 1]) <= Clock(events[k]);
      }
    }
  }

  /**
   * A burst of changes delays the start of the main program: after it the
   * sidecar is still settling, with the timer armed one window after the
   * burst's last change.
   */
  lemma BurstDelaysLaunch(start: int, events: seq<Event>)
    requires Burst(start, events)
    ensures Run(Init(start), events).phase == Settling
    ensures Run(Init(start), events).settleTimeout == Some(events[|events| - 1].t + Window)
  {
    BurstKeepsSettling(start, events, |events|);
    assert events[..|events|] == events;
    SettleDeadline(start, events);
  }

  /**
   * A burst of changes followed by a timer reading one window after its
   * last change starts the main program, at that reading, and does
   * nothing else.
   */
  lemma BurstThenQuietLaunches(start: int, events: seq<Event>, at: int)
    requires Burst(start, events) && at >= events[|events| - 1].t + Window
    ensures Run(Init(start), events + [TimerFired(at)]).phase == Running
    ensures Run(Init(start), events + [TimerFired(at)]).mainProgramStartTime == at
    ensures Run(Init(start), events + [TimerFired(at)]).actions == [Launch(at)]
  {
    BurstDelaysLaunch(start, events);
    RunInv(start, events);
    RunAppend(Init(start), events, [TimerFired(at)]);
  }

  // ---------------------------------------------------------------------
  // The event loop: reloads
  // ---------------------------------------------------------------------

  /**
   * Where the reload timer stands after the changes `changes`, received in
   * the event loop of a main program started at `startTime`: armed one
   * window after the last change later than `startTime`, or as it was when
   * there was none.
   */
  function ReloadDeadline(changes: seq<Event>, startTime: int, timeout: Option<int>): (deadline: Option<int>)
    decreases |changes|
  {
    if |changes| == 0 then timeout
    else match changes[|changes| - 1]
      case Change(t) =>
        if t > startTime then Some(t + Window)
        else ReloadDeadline(changes[..|changes| - 1], startTime, timeout)
      case _ => ReloadDeadline(changes[..|changes| - 1], startTime, timeout)
  }

  /** Changes received in the event loop move the reload timer and change nothing else. */
  lemma {:induction false} ChangesOnlyArmTimer(s: State, changes: seq<Event>)
    requires s.phase == Running && (s.awaitingConfd || s.awaitingMainProgram)
    requires forall j :: 0 <= j < |changes| ==> changes[j].Change?
    ensures Run(s, changes) == s.(settleTimeout := ReloadDeadline(changes, s.mainProgramStartTime, s.settleTimeout))
    decreases |changes|
  {
    if |changes| > 0 {
      var p := changes[..|changes| - 1];
      ChangesOnlyArmTimer(s, p);
      ReceiveChange(Run(s, p), changes[|changes| - 1].t);
    }
  }

  /** Some reading in `timers` has reached the deadline of `timeout`. */
  ghost predicate AnyDue(timeout: Option<int>, timers: seq<Event>)
  {
    exists j :: 0 <= j < |timers| && timers[j].TimerFired? && Due(timeout, timers[j].at)
  }

  lemma DueReadings(deadline: int, timers: seq<Event>)
    requires forall j :: 0 <= j < |timers| ==> timers[j].TimerFired?
    ensures AnyDue(Some(deadline), timers) <==> exists j :: 0 <= j < |timers| && timers[j].at >= deadline
  {
  }

  /**
   * However often the reload timer is read, it fires at most once: the
   * main program gets a single SIGHUP, when some reading is due, and the
   * timer is disarmed.
   */
  lemma {:induction false} TimerFiresOnce(s: State, timers: seq<Event>)
    requires s.phase == Running && (s.awaitingConfd || s.awaitingMainProgram)
    requires forall j :: 0 <= j < |timers| ==> timers[j].TimerFired?
    ensures Run(s, timers) ==
      if AnyDue(s.settleTimeout, timers) then
        s.(settleTimeout := None, actions := s.actions + [Send(MainProgram, SIGHUP)])
      else s
    decreases |timers|
  {
    if |timers| > 0 {
      var n := |timers| - 1;
      var p := timers[..n];
      TimerFiresOnce(s, p);
      ReceiveTimer(Run(s, p), timers[n].at);
      if AnyDue(s.settleTimeout, p) {
        var j :| 0 <= j < |p| && p[j].TimerFired? && Due(s.settleTimeout, p[j].at);
        assert timers[j] == p[j];
      } else if Due(s.settleTimeout, timers[n].at) {
      } else {
        forall j | 0 <= j < |timers|
          ensures !Due(s.settleTimeout, timers[j].at)
        {
          if j < n {
            assert timers[j] == p[j];
          }
        }
      }
    }
  }

  /** Changes followed by timer readings send SIGHUP once if a reading reaches the deadline the changes left. */
  lemma ChangesThenTimers(s: State, changes: seq<Event>, timers: seq<Event>)
    requires s.phase == Running && (s.awaitingConfd || s.awaitingMainProgram)
    requires forall j :: 0 <= j < |changes| ==> changes[j].Change?
    requires forall j :: 0 <= j < |timers| ==> timers[j].TimerFired?
    ensures Run(s, changes + timers).actions ==
      if AnyDue(ReloadDeadline(changes, s.mainProgramStartTime, s.settleTimeout), timers)
      then s.actions + [Send(MainProgram, SIGHUP)] else s.actions
  {
    var armed := Run(s, changes);
    ChangesOnlyArmTimer(s, changes);
    RunAppend(s, changes, timers);
    TimerFiresOnce(armed, timers);
  }

  /**
   * Qualifying changes inside one window, however many, followed by any
   * number of timer readings, reload the main program at most once, and
   * exactly once when a reading reaches one window after the last of them.
   */
  lemma BurstReloadsOnce(s: State, changes: seq<Event>, timers: seq<Event>)
    requires s.phase == Running && (s.awaitingConfd || s.awaitingMainProgram)
    requires forall j :: 0 <= j < |changes| ==> changes[j].Change?
    requires forall j :: 0 <= j < |timers| ==> timers[j].TimerFired?
    ensures var r := Run(s, changes + timers);
      r.actions == s.actions ||
      r.actions == s.actions + [Send(MainProgram, SIGHUP)]
    ensures |changes| > 0 && changes[|changes| - 1].t > s.mainProgramStartTime ==>
      (Run(s, changes + timers).actions == s.actions + [Send(MainProgram, SIGHUP)] <==>
       exists j :: 0 <= j < |timers| && timers[j].at >= changes[|changes| - 1].t + Window)
  {
    ChangesThenTimers(s, changes, timers);
    assert |s.actions + [Send(MainProgram, SIGHUP)]| != |s.actions|;
    if |changes| > 0 && changes[|changes| - 1].t > s.mainProgramStartTime {
      DueReadings(changes[|changes| - 1].t + Window, timers);
    }
  }

  // ---------------------------------------------------------------------
  // The event loop: exits and termination
  // ---------------------------------------------------------------------

  /** No step waits for a child again, and a recorded status is never overwritten. */
  lemma StepKeepsExits(s: State, e: Event)
    ensures !s.awaitingConfd ==>
      !Step(s, e).awaitingConfd && Step(s, e).confdExitStatus == s.confdExitStatus
    ensures !s.awaitingMainProgram ==>
      !Step(s, e).awaitingMainProgram && Step(s, e).mainProgramExitStatus == s.mainProgramExitStatus
  {
  }

  /**
   * Each child's exit is processed at most once: once it has been
   * received, the child is no longer awaited and its status stays as
   * recorded, whatever is received afterwards.
   */
  lemma {:induction false} ExitRecordedOnce(s: State, events: seq<Event>)
    ensures !s.awaitingConfd ==>
      !Run(s, events).awaitingConfd && Run(s, events).confdExitStatus == s.confdExitStatus
    ensures !s.awaitingMainProgram ==>
      !Run(s, events).awaitingMainProgram && Run(s, events).mainProgramExitStatus == s.mainProgramExitStatus
    decreases |events|
  {
    if |events| > 0 {
      var p := events[..|events| - 1];
      ExitRecordedOnce(s, p);
      StepKeepsExits(Run(s, p), events[|events| - 1]);
    }
  }

  /** A child stops being awaited only when its exit is received, and its status is `LogExit`'s verdict. */
  lemma ExitReceived(s: State, e: Event)
    ensures s.awaitingConfd && !Step(s, e).awaitingConfd ==>
      e.ConfdExit? && Step(s, e).confdExitStatus == LogExit(e.err)
    ensures s.awaitingMainProgram && !Step(s, e).awaitingMainProgram ==>
      e.MainExit? && Step(s, e).mainProgramExitStatus == LogExit(e.err)
  {
  }

  /** Event `j` is confd's exit, and the event loop received it: it was running and still waiting for confd. */
  ghost predicate ConfdExitReceived(start: int, events: seq<Event>, j: int)
  {
    0 <= j < |events| && events[j].ConfdExit? &&
    Run(Init(start), events[..j]).phase == Running && Run(Init(start), events[..j]).awaitingConfd
  }

  /** Event `j` is the main program's exit, and the event loop received it. */
  ghost predicate MainExitReceived(start: int, events: seq<Event>, j: int)
  {
    0 <= j < |events| && events[j].MainExit? &&
    Run(Init(start), events[..j]).phase == Running && Run(Init(start), events[..j]).awaitingMainProgram
  }

  /** The recorded statuses are `LogExit`'s verdicts on exits that the event loop received. */
  lemma {:induction false} StatusesComeFromExits(start: int, events: seq<Event>)
    ensures var s := Run(Init(start), events);
      (!s.awaitingConfd ==>
         exists j :: ConfdExitReceived(start, events, j) && s.confdExitStatus == LogExit(events[j].err)) &&
      (!s.awaitingMainProgram ==>
         exists j :: MainExitReceived(start, events, j) && s.mainProgramExitStatus == LogExit(events[j].err))
    decreases |events|
  {
    if |events| > 0 {
      var n := |events| - 1;
      var p := events[..n];
      var before := Run(Init(start), p);
      var s := Step(before, events[n]);
      assert Run(Init(start), events) == s;
      StatusesComeFromExits(start, p);
      StepKeepsExits(before, events[n]);
      ExitReceived(before, events[n]);
      if !s.awaitingConfd {
        if before.awaitingConfd {
          assert ConfdExitReceived(start, events, n);
        } else {
          var j :| ConfdExitReceived(start, p, j) && before.confdExitStatus == LogExit(p[j].err);
          assert events[j] == p[j] && events[..j] == p[..j];
          assert ConfdExitReceived(start, events, j);
        }
      }
      if !s.awaitingMainProgram {
        if before.awaitingMainProgram {
          assert MainExitReceived(start, events, n);
        } else {
          var j :| MainExitReceived(start, p, j) && before.mainProgramExitStatus == LogExit(p[j].err);
          assert events[j] == p[j] && events[..j] == p[..j];
          assert MainExitReceived(start, events, j);
        }
      }
    }
  }

  /**
   * How the sidecar ends is decided by the two exits it received: `Resolve`
   * applied to `LogExit`'s verdicts on the main program's and on confd's.
   */
  lemma EndingFromChildExits(start: int, events: seq<Event>)
    ensures var s := Run(Init(start), events);
      s.phase == Ended ==>
        exists i, j :: MainExitReceived(start, events, i) && ConfdExitReceived(start, events, j) &&
          Outcome(s) == Some(Resolve(LogExit(events[i].err), LogExit(events[j].err)))
  {
    RunInv(start, events);
    StatusesComeFromExits(start, events);
  }

  /** The bound of `TermOnceWithoutSigTerm` on one state. */
  ghost predicate TermBound(s: State)
  {
    Count(s.actions, Send(MainProgram, SIGTERM)) <= (if s.awaitingConfd then 0 else 1) &&
    Count(s.actions, Send(Confd, SIGTERM)) <= (if s.awaitingMainProgram then 0 else 1)
  }

  lemma TermCountRunning(s: State, e: Event)
    requires e != SigTerm && s.phase == Running && (s.awaitingConfd || s.awaitingMainProgram)
    requires TermBound(s)
    ensures TermBound(Step(s, e))
  {
    var mainTerm, confdTerm := Send(MainProgram, SIGTERM), Send(Confd, SIGTERM);
    match e {
      case Change(t) =>
        ReceiveChange(s, t);
      case TimerFired(at) =>
        ReceiveTimer(s, at);
        CountAppend(s.actions, Send(MainProgram, SIGHUP), mainTerm);
        CountAppend(s.actions, Send(MainProgram, SIGHUP), confdTerm);
      case ConfdExit(err) =>
        ReceiveConfdExit(s, err);
        CountAppend(s.actions, mainTerm, mainTerm);
        CountAppend(s.actions, mainTerm, confdTerm);
      case MainExit(err) =>
        ReceiveMainExit(s, err);
        CountAppend(s.actions, confdTerm, mainTerm);
        CountAppend(s.actions, confdTerm, confdTerm);
    }
  }

  /** A step that is not a SIGTERM delivery keeps `TermBound`. */
  lemma TermCountStep(s: State, e: Event)
    requires e != SigTerm
    requires s.phase == Running ==> s.awaitingConfd || s.awaitingMainProgram
    requires TermBound(s)
    ensures TermBound(Step(s, e))
  {
    if s.phase == Settling {
      var r := Step(s, e);
      if r.actions != s.actions {
        CountAppend(s.actions, Launch(r.mainProgramStartTime), Send(MainProgram, SIGTERM));
        CountAppend(s.actions, Launch(r.mainProgramStartTime), Send(Confd, SIGTERM));
      }
    } else if s.phase == Running {
      TermCountRunning(s, e);
    }
  }

  /**
   * Without a SIGTERM delivered to the sidecar, each child is sent SIGTERM
   * at most once, and only after the other child's exit was received.
   */
  lemma {:induction false} TermOnceWithoutSigTerm(start: int, events: seq<Event>)
    requires SigTerm !in events
    ensures TermBound(Run(Init(start), events))
    decreases |events|
  {
    if |events| > 0 {
      var p := events[..|events| - 1];
      assert forall e | e in p :: e in events;
      TermOnceWithoutSigTerm(start, p);
      RunInv(start, p);
      TermCountStep(Run(Init(start), p), events[|events| - 1]);
    }
  }

  lemma {:induction false} CountPositive(acts: seq<Action>, a: Action)
    requires a in acts
    ensures Count(acts, a) > 0
    decreases |acts|
  {
    if acts[|acts| - 1] != a {
      assert a in acts[..|acts| - 1];
      CountPositive(acts[..|acts| - 1], a);
    }
  }

  /**
   * Without a SIGTERM delivered to the sidecar, a child whose partner has
   * exited while it still runs has been sent exactly one SIGTERM.
   */
  lemma ExactlyOneTerm(start: int, events: seq<Event>)
    requires SigTerm !in events
    ensures var s := Run(Init(start), events);
      (!s.awaitingConfd && s.awaitingMainProgram ==> Count(s.actions, Send(MainProgram, SIGTERM)) == 1) &&
      (!s.awaitingMainProgram && s.awaitingConfd ==> Count(s.actions, Send(Confd, SIGTERM)) == 1)
  {
    var s := Run(Init(start), events);
    TermOnceWithoutSigTerm(start, events);
    NoOrphan(start, events);
    if !s.awaitingConfd && s.awaitingMainProgram {
      CountPositive(s.actions, Send(MainProgram, SIGTERM));
    }
    if !s.awaitingMainProgram && s.awaitingConfd {
      CountPositive(s.actions, Send(Confd, SIGTERM));
    }
  }

  // ---------------------------------------------------------------------
  // Behaviour as written
  // ---------------------------------------------------------------------

  /**
   * While settling, SIGTERM and the children's exits are not received:
   * from any settling state, however it was reached, a run of them leaves
   * the state unchanged.
   */
  lemma {:induction false} SettlingIgnoresTermination(s: State, events: seq<Event>)
    requires s.phase == Settling
    requires forall j :: 0 <= j < |events| ==> !events[j].Change? && !events[j].TimerFired?
    ensures Run(s, events) == s
    decreases |events|
  {
    if |events| > 0 {
      SettlingIgnoresTermination(s, events[..|events| - 1]);
    }
  }


  /**
   * The reload timer is not disarmed when a child exits: after confd's
   * exit the main program is sent SIGTERM and then, when the pending
   * reload fires, SIGHUP.
   */
  lemma ReloadAfterConfdExit()
    ensures Run(Init(0), [TimerFired(1000), Change(1500), ConfdExit(NoErr), TimerFired(2500)]).actions ==
      [Launch(1000), Send(MainProgram, SIGTERM), Send(MainProgram, SIGHUP)]
  {
    var events := [TimerFired(1000), Change(1500), ConfdExit(NoErr), TimerFired(2500)];
    assert events[..0] == [] && events[..4] == events;
    RunExtend(Init(0), events, 0);
    RunExtend(Init(0), events, 1);
    RunExtend(Init(0), events, 2);
    RunExtend(Init(0), events, 3);
  }

  /**
   * confd's exit sends the main program SIGTERM without marking it
   * signaled, so a SIGTERM delivered afterwards sends it a second one.
   */
  lemma MainProgramTermTwice()
    ensures Run(Init(0), [TimerFired(1000), ConfdExit(NoErr), SigTerm]).actions ==
      [Launch(1000), Send(MainProgram, SIGTERM), Send(Confd, SIGTERM), Send(MainProgram, SIGTERM)]
  {
    var events := [TimerFired(1000), ConfdExit(NoErr), SigTerm];
    assert events[..0] == [] && events[..3] == events;
    RunExtend(Init(0), events, 0);
    RunExtend(Init(0), events, 1);
    RunExtend(Init(0), events, 2);
    var launched := Run(Init(0), events[..1]);
    assert launched == State(Running, None, 1000, false, false, 0, 0, true, true, [Launch(1000)]);
    ReceiveConfdExit(launched, NoErr);
    var confdGone := Run(Init(0), events[..2]);
    assert confdGone == launched.(confdSignaled := true, awaitingConfd := false,
                                  actions := [Launch(1000), Send(MainProgram, SIGTERM)]);
    ReceiveSigTerm(confdGone);
  }

}
