/**
 * What the extractors learn from the operating system.  Every child process
 * the program starts is an input to the model: the host is a set of
 * functions from an invocation to its outcome, so running the same
 * invocation twice gives the same outcome.
 */
module Process {

  /** How a child process ended when no time limit was set.  `Raised`
      carries `str(e)` of a Python exception raised while starting the child
      or decoding its output (a missing executable, say); a non-zero exit is
      data, not an exception. */
  datatype Completion =
    | Exited(code: int, out: string, err: string)
    | Raised(msg: string)

  /** How a child process ended when a time limit was set. */
  datatype Bounded =
    | Completed(result: Completion)
    | TimedOut

  /** The host:
      `exec`  runs an argument vector directly, with no time limit;
      `shell` runs a command line through `/bin/bash`, with no time limit;
      `shellWithin` runs a command line through the shell, given a limit in
      seconds. */
  datatype Host = Host(
    exec: seq<string> -> Completion,
    shell: string -> Completion,
    shellWithin: (string, nat) -> Bounded)

  /** A completed run whose exit status is not zero. */
  predicate Rejected(c: Completion) {
    c.Exited? && c.code != 0
  }

  /** The catch-all `except Exception as e` of every field getter. */
  function ExceptionText(msg: string): string {
    "An exception occurred: " + msg
  }
}
