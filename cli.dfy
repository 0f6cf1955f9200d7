/** Command-line argument parsing of src/lib.rs (`Config::build`). `args[0]`
    is the program name; the command word is `args[1]`. */
module Cli {
  import opened Chars
  import opened Wrappers

  datatype Command =
    | Help(helpCommand: Option<string>)
    | Print(filePath: string, numbered: bool)
    | List

  datatype Config = Config(command: Command)

  const NOT_ENOUGH_ARGUMENTS := "Not enough arguments"
  const MISSING_FILE_PATH := "Missing file path for print"
  const UNKNOWN_COMMAND := "Unknown command"
  const NUMBERED_FLAG := "--numbered"

  /** `Config::build`. The command word is matched exactly; the `--numbered`
      flag after a file path is matched ignoring case. */
  function Build(args: seq<string>): (r: Result<Config, string>)
    ensures r == Err(NOT_ENOUGH_ARGUMENTS) <==> |args| < 2
    ensures r == Err(UNKNOWN_COMMAND) <==>
      |args| >= 2 && args[1] != "help" && args[1] != "print" && args[1] != "list"
    ensures r == Err(MISSING_FILE_PATH) <==> |args| == 2 && args[1] == "print"
    ensures (r.Ok? && r.value.command.Help?) <==> |args| >= 2 && args[1] == "help"
    ensures r.Ok? && r.value.command.Help? ==>
      r.value.command.helpCommand == if |args| > 2 then Some(args[2]) else None
    ensures (r.Ok? && r.value.command.Print?) <==> |args| >= 3 && args[1] == "print"
    ensures r.Ok? && r.value.command.Print? ==>
      r.value.command.filePath == args[2] &&
      (r.value.command.numbered <==> |args| > 3 && ToLower(args[3]) == NUMBERED_FLAG)
    ensures r == Ok(Config(List)) <==> |args| >= 2 && args[1] == "list"
  {
    if |args| < 2 then Err(NOT_ENOUGH_ARGUMENTS)
    else
      var cmd := args[1];
      if cmd == "help" then
        Ok(Config(Help(if |args| > 2 then Some(args[2]) else None)))
      else if cmd == "print" then
        if |args| < 3 then Err(MISSING_FILE_PATH)
        else
          var numbered := if |args| > 3 then ToLower(args[3]) == NUMBERED_FLAG else false;
          Ok(Config(Print(args[2], numbered)))
      else if cmd == "list" then Ok(Config(List))
      else Err(UNKNOWN_COMMAND)
  }

  /** The flag is case-insensitive: two argument lists that differ only in the
      case of the fourth argument build the same configuration. */
  lemma FlagIgnoresCase(a: seq<string>, b: seq<string>)
    requires |a| == |b| >= 4 && a[..3] == b[..3]
    requires ToLower(a[3]) == ToLower(b[3])
    ensures Build(a) == Build(b)
  {
  }

  /** The flag is recognised in any mix of cases, for instance `--NUMBERED`. */
  lemma UpperCaseFlagRecognised(prog: string, path: string)
    ensures Build([prog, "print", path, "--NUMBERED"]) == Ok(Config(Print(path, true)))
  {
  }

  /** The command word, unlike the flag, is case-sensitive. */
  lemma CommandIsCaseSensitive(prog: string)
    ensures Build([prog, "HELP"]) == Err(UNKNOWN_COMMAND)
    ensures Build([prog, "List"]) == Err(UNKNOWN_COMMAND)
  {
  }

  /** Arguments after the ones a command reads are ignored. */
  lemma ExtraArgumentsIgnored(args: seq<string>, extra: seq<string>)
    requires |args| >= 2
    requires args[1] == "list" || (args[1] == "help" && |args| >= 3) || (args[1] == "print" && |args| >= 4)
    ensures Build(args + extra) == Build(args)
  {
  }
}
