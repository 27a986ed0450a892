/**
 The decisions `main` of sat-cbr-example.cc takes before the simulation runs:
 reading the message file, choosing the predefined scenario from its name,
 and refusing to start when the message is empty.

 The file system is an input: `file` is the file's content, or `None` when it
 cannot be opened. The command line is an input too: `arg` is the value given
 for `--scenario`, if any.
 */
module Startup {
  import opened Bytes

  datatype Option<T> = None | Some(value: T)

  /** The satellite scenarios the helper can build. */
  datatype Scenario = Simple | Larger | Full

  /** The value `scenario` holds when the command line does not set it. */
  const DefaultScenarioName: string := "full"

  /** Exit status when the message is missing or empty. */
  const ExitEmptyMessage: int := 1

  /** What `main` does: stop with an exit status, or build a scenario and run it. */
  datatype Launch =
    | Aborted(exitCode: int)
    | Ran(scenario: Scenario, scheduled: Option<seq<Byte>>)

  /** `ReadBinaryFile`: the whole file, or the empty message when it cannot be opened. */
  function ReadBinaryFile(file: Option<seq<Byte>>): seq<Byte> {
    match file
    case None => []
    case Some(content) => content
  }

  /** The scenario name after command-line parsing. */
  function ScenarioName(arg: Option<string>): string {
    match arg
    case None => DefaultScenarioName
    case Some(s) => s
  }

  /** "larger" selects LARGER, "full" selects FULL, any other name keeps SIMPLE. */
  function SelectScenario(name: string): Scenario {
    if name == "larger" then Larger
    else if name == "full" then Full
    else Simple
  }

  /** The exit status of the process. */
  function ExitCode(l: Launch): int {
    match l
    case Aborted(code) => code
    case Ran(_, _) => 0
  }

  /** The one-shot send `main` schedules, if any. */
  function Scheduled(l: Launch): Option<seq<Byte>> {
    match l
    case Aborted(_) => None
    case Ran(_, send) => send
  }

  /**
   `main`: an empty or unreadable message stops the process with exit status
   1 before any scenario is built or any send is scheduled; otherwise the
   selected scenario runs, and only the "full" scenario wires the relays and
   schedules the single send of the whole message.
   */
  function Start(arg: Option<string>, file: Option<seq<Byte>>): (l: Launch)
    ensures ExitCode(l) == ExitEmptyMessage <==> file.None? || file.value == []
    ensures ExitCode(l) == 0 <==> file.Some? && file.value != []
    ensures l.Aborted? <==> file.None? || file.value == []
    ensures l.Aborted? ==> Scheduled(l).None?
    ensures l.Ran? ==> (l.scenario == Full <==> arg.None? || arg.value == "full")
    ensures l.Ran? ==> (l.scenario == Larger <==> arg == Some("larger"))
    ensures l.Ran? ==> (l.scenario == Simple <==> arg.Some? && arg.value != "full" && arg.value != "larger")
    ensures l.Ran? ==> (Scheduled(l).Some? <==> l.scenario == Full)
    ensures Scheduled(l).Some? ==> file.Some? && Scheduled(l).value == file.value
  {
    var message := ReadBinaryFile(file);
    var name := ScenarioName(arg);
    var scenario := SelectScenario(name);
    if message == [] then
      Aborted(ExitEmptyMessage)
    else
      Ran(scenario, if name == "full" then Some(message) else None)
  }

  /** With no `--scenario` argument and a readable, non-empty file, the message is sent. */
  lemma DefaultRunSendsMessage(message: seq<Byte>)
    requires message != []
    ensures Start(None, Some(message)) == Ran(Full, Some(message))
  {
  }
}
