/** What the library asks of the outside world, and what it gets back.
    Nothing here runs: every process, message box and file is either a
    request recorded in a trace or an answer read from a `World`. */
module Effects {

  /** How a `system` call ended: exit status 0, another exit status, or the
      command could not be run at all. */
  datatype Status = Succeeded | Failed | NotRun

  /** The Ruby values the dialog functions return. */
  datatype Value = Bool(b: bool) | Int(i: int) | Str(s: string) | Nil

  /** `Kernel#system` returns `true`, `false` or `nil`. */
  function SystemValue(st: Status): (v: Value)
    ensures v.Bool? <==> st != NotRun
    ensures v == Bool(true) <==> st == Succeeded
  {
    match st
    case Succeeded => Bool(true)
    case Failed => Bool(false)
    case NotRun => Nil
  }

  /** Ruby truthiness: everything except `nil` and `false`. */
  predicate Truthy(v: Value)
  {
    v != Nil && v != Bool(false)
  }

  /** One request to the outside world. */
  datatype Invocation =
    | Shell(cmd: string)         // `system(cmd)`
    | Capture(cmd: string)       // `` `cmd` ``, standard output captured
    | MsgBox(text: string, title: string, flags: int)  // `MessageBoxA`
    | Print(line: string)        // `puts line`

  datatype Outcome = Returned(value: Value) | Raised(message: string)

  /** The requests a call makes, in order, and how it ends. */
  datatype Call = Call(trace: seq<Invocation>, outcome: Outcome)

  /** The answers of the outside world: the status every `system` call ends
      with, what a captured command prints, what `MessageBoxA` returns,
      whether the license file exists and what it holds, what
      `/tmp/zenity.sock` holds, and `File.basename($0)`. */
  datatype World = World(
    status: Status,
    stdout: string,
    msgBoxCode: int,
    fileExists: bool,
    fileText: string,
    sockText: string,
    programName: string)
}
