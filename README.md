# confd-sidecar: a verified model of the supervisor's decisions

`confd-sidecar` starts `confd` next to a "main program". It waits until
confd has stopped rewriting configuration files, then starts the main
program. Afterwards it sends the main program SIGHUP when confd rewrites a
file, and it forwards termination between the two children. It exits with
a status derived from the children's statuses.

This project models the decision logic of `confd-sidecar.go` in Dafny and
proves what it guarantees:

- `exit_status.dfy` (module `ExitStatus`): `logExit`, which turns the error
  returned by `Wait` into a status code, and the end of `main`, which turns
  the two recorded statuses into the sidecar's own exit.
- `config.dfy` (module `Config`): `getConfdConfiguration`, over the
  environment given as the list of `KEY=VALUE` strings, and
  `confdConfiguration.args`. `GetConfdConfiguration` is a method with the
  loop of the source, proved against the functions `Getenv` and `Files`.
- `strings.dfy` (module `Strings`): the `strings` functions the source
  uses (`SplitN(s, sep, 2)`, `HasPrefix`, `Contains`).
- `supervisor.dfy` (module `Supervisor`): the settling loop, the event loop
  and the exit resolution of `main`.
  - `Supervise` is a method with the two loops and the local variables of
    `main`. `Settle` holds the settling loop. `Receive` holds one turn of
    the event loop.
  - They are proved against `Run(Init(start), events)`, a specification
    that folds `Step` over the events.
- `supervisor_props.dfy` (module `SupervisorProperties`): what the
  coordinator guarantees for every order of events. This covers:
  - the invariant `Inv` of every reachable state;
  - settling and the single launch;
  - coalesced reloads;
  - exits that are recorded once;
  - no orphaned child;
  - the origin of the exit code.

Concurrency is replaced by an input sequence of events. Each event is the
next value one of `main`'s `select` statements received:

- `Change(t)`: a change marker stamped `t`;
- `TimerFired(at)`: the armed timer, read at time `at`;
- `SigTerm`;
- `ConfdExit(err)`;
- `MainExit(err)`.

An event the current `select` does not listen to cannot be received, and
the model leaves the state unchanged for it. Examples are a SIGTERM while
settling, a timer that is not armed, and an exit whose channel is nil.
Every order of events is allowed. Time is an integer number of
milliseconds. A timer armed by a change stamped `t` fires at `t + 1000` at
the earliest. The start time of the main program is the reading of the
timer that started it. `Init(start)` is the state just after confd was
started. Everything the sidecar does to its children after that is logged
in order as `Launch(at)` or `Send(process, signal)`.

## Model

| member | source | states |
|---|---|---|
| ExitStatus.LogExit | confd-sidecar.go:39-60 | nil gives 0; an `ExitError` whose wait status has `ExitStatus() > 0` gives that status; any other `ExitError` (killed, status 0) gives 254; any other error gives 253; the code is never negative, at most 255 for a wait status the operating system can report, and 0 exactly for nil |
| ExitStatus.Resolve | confd-sidecar.go:263-268 | `os.Exit` with the main program's status when it is not 0, else with confd's when that is not 0; `main` returns normally exactly when both are 0, and an `os.Exit` code is never 0 |
| ExitStatus.ResolvedCodeIsAChildStatus | confd-sidecar.go:242-268 | the sidecar's exit status is `logExit` of one of the two children, the main program's whenever it did not end normally, non-negative, at most 255 for well-formed wait statuses, and 0 exactly when both ended normally |
| Strings.HasPrefixIsTake | confd-sidecar.go:88 | `HasPrefix(s, p)` holds exactly when `p` is the first `len(p)` characters of `s` |
| Strings.IndexOfFindsFirst | confd-sidecar.go:87 | the index found is that of the first occurrence of the character, and -1 exactly when it does not occur |
| Strings.SplitOnceCutsAtFirst | confd-sidecar.go:87-89 | `SplitN(s, sep, 2)` gives one part (the whole string) exactly when `sep` does not occur, else two parts that rejoin with `sep` to `s`, the first free of `sep` |
| Strings.SplitOnceJoin | confd-sidecar.go:87 | splitting `a + sep + b` where `a` has no `sep` gives back `a` and `b` |
| Strings.Contains | confd-sidecar.go:190 | `Contains(s, sub)` holds exactly when `sub` occurs in `s` at some position |
| Supervisor.ChangeMarkerAnywhere | confd-sidecar.go:190 | a line holding " has been updated" anywhere is a change marker; a line shorter than the marker is not |
| Config.GetenvReadsFirstDefinition | confd-sidecar.go:72-81 | `os.Getenv` gives "" for an unset variable and otherwise the value of the first entry assigning it |
| Config.SettingDefaults | confd-sidecar.go:72-84 | `CONFD_CONFDIR`, `CONFD_BACKEND` and `CONFD_PATH` unset or set to "" take their defaults, a non-empty value is used as given, and the result is never "" |
| Config.GetConfdConfiguration | confd-sidecar.go:71-104 | panics (`Failure`) exactly when some provisioning entry holds no `=`, naming the first such entry; otherwise the three defaulted settings, `CONFD_NODE` as given, and the two provisioning maps built by one pass over the environment |
| Config.ReadEntry | confd-sidecar.go:86-102 | one entry updates the conf.d map if its name is `CONFD_CONFDFILE` or starts with `CONFD_CONFDFILE_`, and the templates map likewise for `CONFD_TEMPLATE`; it panics exactly when such an entry has no `=` |
| Config.FileOfSplitsAtFirstNewline | confd-sidecar.go:89-92 | a provisioning value is split at its first newline into file name and content; the content is "" when there is no newline |
| Config.FilesDomain | confd-sidecar.go:86-102 | a file is provisioned exactly when some entry of its family names it |
| Config.FilesLastWins | confd-sidecar.go:86-101 | a file gets the content of the last entry naming it; a later entry with the same name overwrites an earlier one |
| Config.ArgsRoundTrip | confd-sidecar.go:106-112 | the arguments are `-confdir=…`, `-backend=…`, `-watch`, then `-node=…` only when the node is not ""; confd reads the configured directory, backend and node back from them |
| Supervisor.Settle | confd-sidecar.go:198-209 | the settling loop consumes events until a due timer reading; it then leaves the state `Run` gives, with the main program started at that reading; if no reading is due it consumes all events and is still settling |
| Supervisor.Receive | confd-sidecar.go:225-257 | one turn of the event loop leaves `main`'s variables as `Step` leaves the state |
| Supervisor.Supervise | confd-sidecar.go:198-268 | the signals and the start `main` performs are `Run`'s log, and the sidecar ends as `Resolve` says once both children have exited (not at all while one is awaited) |
| Supervisor.RunAfterEnded | confd-sidecar.go:258-261 | once both exits are processed the loop is left, and later events change nothing |
| Supervisor.ReceiveChange | confd-sidecar.go:226-230 | a change stamped after the main program's start re-arms the reload timer one window later; a change at or before it leaves every part of the state unchanged |
| Supervisor.ReceiveTimer | confd-sidecar.go:231-234 | the armed timer firing sends exactly one SIGHUP to the main program and disarms the timer |
| Supervisor.ReceiveSigTerm | confd-sidecar.go:235-240 | SIGTERM goes to confd and then to the main program unconditionally, and both count as signaled; nothing else changes |
| Supervisor.ReceiveConfdExit | confd-sidecar.go:241-248 | confd's exit records `logExit`'s status, marks confd signaled and no longer awaited, and sends the main program SIGTERM iff it is not marked signaled; a second exit is not received |
| Supervisor.ReceiveMainExit | confd-sidecar.go:249-256 | the main program's exit, symmetrically |
| SupervisorProperties.RunAppend | confd-sidecar.go:224-262 | receiving two sequences of events one after the other is receiving their concatenation |
| SupervisorProperties.RunInv | confd-sidecar.go:198-262 | every reachable state satisfies `Inv`: while settling nothing has happened; after it the log starts with the single launch; the loop has ended iff both exits were processed; recorded statuses are non-negative; every child still running that counts as signaled has been sent SIGTERM; confd is never sent SIGHUP |
| SupervisorProperties.NoOrphan | confd-sidecar.go:241-256 | once either child has exited, the other one has exited too or has been sent SIGTERM |
| SupervisorProperties.EndsWhenBothExited | confd-sidecar.go:258-261 | the event loop has ended exactly when both exits have been processed |
| SupervisorProperties.LaunchedExactlyOnce | confd-sidecar.go:198-211 | nothing is done to the children while settling; afterwards the log starts with the launch at the recorded start time, and no other entry is a launch |
| SupervisorProperties.ConfdNeverReloaded | confd-sidecar.go:231-237 | confd is never sent SIGHUP |
| SupervisorProperties.SettleDeadline | confd-sidecar.go:198-208 | while settling, the timer is armed one window after the last change, or after confd's start when there was none |
| SupervisorProperties.LaunchAfterQuietWindow | confd-sidecar.go:198-212 | the main program is started by a timer reading taken while settling, at least one full window after the last change before it |
| SupervisorProperties.BurstDelaysLaunch | confd-sidecar.go:200-208 | after a burst of chronological changes, each within the window of the one before, the sidecar is still settling, with the timer armed one window after the last change |
| SupervisorProperties.BurstThenQuietLaunches | confd-sidecar.go:200-211 | after such a burst, a timer reading at least one window after the last change starts the main program at that reading, and the log holds exactly that launch |
| SupervisorProperties.ChangesOnlyArmTimer | confd-sidecar.go:226-230 | in the event loop, changes move only the reload timer: to one window after the last change later than the start time, or nowhere if there is none |
| SupervisorProperties.TimerFiresOnce | confd-sidecar.go:231-234 | however often it is read, the reload timer fires at most once: one SIGHUP when some reading is due, and the timer disarmed |
| SupervisorProperties.BurstReloadsOnce | confd-sidecar.go:226-234 | changes followed by timer readings send at most one SIGHUP; if the last change was stamped after the start time, exactly one iff some reading is at least one window after that change |
| SupervisorProperties.ExitRecordedOnce | confd-sidecar.go:241-256 | once a child's exit was received, it stays not awaited and its recorded status never changes |
| SupervisorProperties.StatusesComeFromExits | confd-sidecar.go:241-252 | a recorded status is `logExit`'s verdict on an exit event the event loop received, that is one arriving while it was running and still waiting for that child (`ConfdExitReceived`, `MainExitReceived`) |
| SupervisorProperties.EndingFromChildExits | confd-sidecar.go:241-268 | when the loop has ended, the sidecar's ending is `Resolve` of `logExit` for a main-program exit and a confd exit that the event loop received, each while still waiting for that child |
| SupervisorProperties.TermOnceWithoutSigTerm | confd-sidecar.go:241-256 | without a SIGTERM to the sidecar, each child gets at most one SIGTERM, and only after the other child's exit |
| SupervisorProperties.ExactlyOneTerm | confd-sidecar.go:241-256 | without a SIGTERM to the sidecar, a child still running whose partner has exited has been sent exactly one SIGTERM |
| SupervisorProperties.SettlingIgnoresTermination | confd-sidecar.go:199-209 | from any settling state, including one reached after changes and timer readings, SIGTERM and the children's exits are not received and change nothing |
| SupervisorProperties.ReloadAfterConfdExit | confd-sidecar.go:231-248 | the reload timer is not disarmed when a child exits, so the main program can be sent SIGTERM and then SIGHUP |
| SupervisorProperties.MainProgramTermTwice | confd-sidecar.go:235-248 | after launch, confd exiting and then a SIGTERM to the sidecar log exactly: launch, SIGTERM to the main program, SIGTERM to confd, and a second SIGTERM to the main program, because the counterpart is never marked signaled |

## Behaviour as written

The model follows the code, including these consequences of it:

- A reload timer armed before a child exits still fires. The timer case
  (confd-sidecar.go:231-234) is taken whether or not the exit cases
  (:242-256) have run, and neither exit case sets `confdSettleTimeout` to
  nil. `ReloadAfterConfdExit` shows the main program sent SIGTERM and then
  SIGHUP.
- confd's exit sends the main program SIGTERM (:245-248) without setting
  `mainProgramSignaled`, and the main program's exit does the same for
  confd (:253-256). A SIGTERM reaching the sidecar afterwards (:235-240)
  signals that child again (`MainProgramTermTwice`). Without a SIGTERM to
  the sidecar each child gets at most one (`TermOnceWithoutSigTerm`).
- The settling loop (:200-209) selects only on the settle timer and the
  change channel, so SIGTERM and child exits wait until the main program
  has started (`SettlingIgnoresTermination`).
- The comment of `logExit` (:41) says a killed process gives 254. The code
  gives 254 for every `ExitError` whose status is not positive, including
  status 0 (:45-50).
- The main program's start time is read after the settle timer fired
  (:212). Changes stamped before it, including those queued during
  settling, never cause a reload (:227).

## Left out

- Starting processes and wiring their standard streams (`execCommand`). The
  launch is the `Launch(at)` entry of the log; a launch failure, which
  panics, is not modelled.
- Signal registration, the goroutines and the channels, including the
  1000-slot buffer of change timestamps. They are replaced by the input
  sequence of events.
- Reading confd's standard error with a scanner and echoing it. Only the
  marker test on each line is modelled.
- `createFile` and the provisioning loop with its exit code 32 (filesystem
  I/O). The usage text and exit code 64 for fewer than two arguments
  (console output).
- `logf` and all logging.
- The wall clock. Timestamps are integers in milliseconds, and a timer
  armed for a change stamped `t` is due at `t + 1000`. The source arms it
  when the change is processed, which may be later.
- The operating system keeps only the low 8 bits of an exit code. The
  model does not bound `ExitErr`'s status by itself: `WellFormed` states
  the range the operating system reports, and the 255 bound of `LogExit`
  holds under it.
- The Go runtime drops later duplicates of a variable from `os.Environ()`.
  `GetConfdConfiguration` sees every entry it is given.
- Sending a signal to a child that has already exited fails silently in
  the source. The model logs the send regardless.
