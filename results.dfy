/** Diagnostics yielded by check bodies, and the outcome of running an external tool. */
module Results {

  datatype Option<+T> = None | Some(value: T)

  /** The result levels a check body may yield. */
  datatype Status = PASS | INFO | WARN | FAIL | ERROR | SKIP

  /** A diagnostic message: free text, or text carrying a stable code for programmatic matching. */
  datatype Message = Text(text: string) | Coded(code: string, text: string)

  /** One `yield status, message` of a check body. */
  datatype Diagnostic = Diagnostic(status: Status, message: Message)

  /** How a `subprocess.check_output` call ended: the binary could not be started (`OSError`),
      it exited with a non-zero code (`CalledProcessError`, with its output), or it ran and
      produced `result`. */
  datatype ToolRun<+T> = NotInstalled(error: string) | ErrorExit(output: string) | Ran(result: T)

  /** Python truthiness of an optional text: None and the empty string are false. */
  predicate Truthy(s: Option<string>)
  {
    s.Some? && s.value != ""
  }

  /** Python's `str(x)` for an optional attribute value: `None` prints as "None". */
  function OrNone(s: Option<string>): string
  {
    match s
    case None => "None"
    case Some(v) => v
  }
}
