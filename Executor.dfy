/** `run_script`: the job callback. It logs the execution first, then runs a
    ".sh" path with bash and waits for it, or starts any other path through the
    shell without waiting. A failure to start is logged and swallowed. */
module Executor {
  import opened Text
  import opened AuditLog

  /** How the script is started. */
  datatype Dispatch =
    | RunWithBash       // subprocess.call(['bash', path]), blocking
    | LaunchDetached    // subprocess.Popen(path, shell=True), not waited for

  /** What starting the process did: the operating system and the script are not
      modelled, so this is an input. Only a raised exception counts as failure; a
      script that runs and exits non-zero is `Launched`. */
  datatype Launch = Launched | LaunchFailed(message: string)

  function DispatchFor(path: string): (d: Dispatch)
    ensures d == RunWithBash <==> EndsWith(path, ".sh")
  {
    if EndsWith(path, ".sh") then RunWithBash else LaunchDetached
  }

  /** `run_script(path)`. It returns normally whatever `launch` is: the "Executed"
      record always comes first, and a failure adds exactly one "ERROR" record. */
  method RunScript(log: Logger, path: string, launch: Launch) returns (d: Dispatch)
    modifies log
    ensures d == DispatchFor(path)
    ensures log.records == old(log.records) + [Executed(path)]
                           + (if launch.LaunchFailed? then [Error(launch.message)] else [])
  {
    log.Append(Executed(path));
    d := DispatchFor(path);
    match launch
    case Launched =>
    case LaunchFailed(message) =>
      log.Append(Error(message));
  }
}
