/**
 * How the sidecar turns the outcome of waiting for a child into a status
 * code (`logExit`), and how it turns the two children's statuses into its
 * own process exit (the end of `main`).
 */
module ExitStatus {

  /**
   * The error that `(*exec.Cmd).Wait` returns, reduced to what `logExit`
   * looks at: nil, an `*exec.ExitError` (whose `Sys()` is a
   * `syscall.WaitStatus` when `isWaitStatus` holds, with the
   * `ExitStatus()` it reports: -1 when the child was killed by a signal),
   * or any other error.
   */
  datatype WaitError =
    | NoErr
    | ExitErr(isWaitStatus: bool, exitStatus: int)
    | OtherErr

  /** Status code for a child killed by a signal or not reporting an exit status. */
  const Killed: int := 254
  /** Status code for a wait that failed without an `ExitError`. */
  const WaitFailed: int := 253

  /**
   * A wait error as the operating system can produce it: the `ExitStatus()`
   * of a `syscall.WaitStatus` is -1 for a child killed by a signal and
   * otherwise the low 8 bits of the child's exit code.
   */
  predicate WellFormed(err: WaitError)
  {
    err.ExitErr? ==> -1 <= err.exitStatus <= 255
  }

  /** `logExit` (logging left out): the status code the sidecar records for a child. */
  function LogExit(err: WaitError): (code: int)
    ensures code >= 0
    ensures WellFormed(err) ==> code <= 255
    ensures code == 0 <==> err.NoErr?
    ensures err.ExitErr? && err.isWaitStatus && err.exitStatus > 0 ==> code == err.exitStatus
    ensures err.ExitErr? && !(err.isWaitStatus && err.exitStatus > 0) ==> code == Killed
    ensures err.OtherErr? ==> code == WaitFailed
  {
    match err
    case NoErr => 0
    case ExitErr(isWaitStatus, status) =>
      if isWaitStatus && status > 0 then status else Killed
    case OtherErr => WaitFailed
  }

  /** What the end of `main` does: call `os.Exit(code)`, or return normally. */
  datatype Ending = OsExit(code: int) | Return

  /** The exit status the operating system sees for an ending (a normal return is 0). */
  function ProcessExitCode(d: Ending): (code: int)
  {
    match d
    case OsExit(code) => code
    case Return => 0
  }

  /**
   * The end of `main`: exit with the main program's status if it is not 0,
   * else with confd's if that is not 0, else return normally.
   */
  function Resolve(mainStatus: int, confdStatus: int): (d: Ending)
    ensures d.OsExit? ==> d.code != 0
    ensures d.Return? <==> mainStatus == 0 && confdStatus == 0
    ensures mainStatus != 0 ==> ProcessExitCode(d) == mainStatus
    ensures mainStatus == 0 ==> ProcessExitCode(d) == confdStatus
  {
    if mainStatus != 0 then OsExit(mainStatus)
    else if confdStatus != 0 then OsExit(confdStatus)
    else Return
  }

  /**
   * The sidecar's exit status is the main program's if that one is not 0,
   * otherwise confd's; it is a status of one of the two children, and is
   * never negative when both came from `LogExit`, and at most 255 when
   * both wait errors are well formed.
   */
  lemma ResolvedCodeIsAChildStatus(mainErr: WaitError, confdErr: WaitError)
    ensures var code := ProcessExitCode(Resolve(LogExit(mainErr), LogExit(confdErr)));
      && code >= 0
      && (WellFormed(mainErr) && WellFormed(confdErr) ==> code <= 255)
      && (code == 0 <==> mainErr.NoErr? && confdErr.NoErr?)
      && (code == LogExit(mainErr) || code == LogExit(confdErr))
      && (!mainErr.NoErr? ==> code == LogExit(mainErr))
  {
  }
}
