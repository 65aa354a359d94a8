/** Command-line parsing (src/main.rs). `args` is the whole argument vector,
    the program's own name first; the command word is `args[1]`. */
module CommandLine {

  datatype Action =
    | Run(part: string)
    | Test(part: string)
    | TestOne(part: string, test: string)
    | Invalid(message: string)

  /** `parse_args`: decided by the number of arguments and the command word;
      it is total and never looks at `args[0]`. */
  function ParseArgs(args: seq<string>): (a: Action)
    // the three well-formed command lines
    ensures a.Run? <==> (|args| == 3 && args[1] == "run")
    ensures a.Test? <==> (|args| == 3 && args[1] == "test")
    ensures a.TestOne? <==> (|args| == 4 && args[1] == "test")
    ensures (a.Run? || a.Test? || a.TestOne?) ==> a.part == args[2]
    ensures a.TestOne? ==> a.test == args[3]
    // everything else, with its message
    ensures |args| < 2 ==> a == Invalid("No commands specified")
    ensures (|args| == 2 && args[1] == "run") ==> a == Invalid("run: Missing <part>")
    ensures (|args| > 3 && args[1] == "run") ==> a == Invalid("run: Too many arguments")
    ensures (|args| == 2 && args[1] == "test") ==> a == Invalid("test: Missing <part> [test]")
    ensures (|args| > 4 && args[1] == "test") ==> a == Invalid("test: Too many arguments")
    ensures (|args| >= 2 && args[1] != "run" && args[1] != "test")
      ==> a == Invalid("Unknown command " + args[1])
  {
    if |args| < 2 then Invalid("No commands specified")
    else if args[1] == "run" then
      if |args| < 3 then Invalid("run: Missing <part>")
      else if |args| > 3 then Invalid("run: Too many arguments")
      else Run(args[2])
    else if args[1] == "test" then
      if |args| < 3 then Invalid("test: Missing <part> [test]")
      else if |args| == 3 then Test(args[2])
      else if |args| == 4 then TestOne(args[2], args[3])
      else Invalid("test: Too many arguments")
    else Invalid("Unknown command " + args[1])
  }

  /** The words after the program name that ask for a valid action. */
  function CommandWords(a: Action): (words: seq<string>)
    requires !a.Invalid?
  {
    match a
    case Run(part) => ["run", part]
    case Test(part) => ["test", part]
    case TestOne(part, test) => ["test", part, test]
  }

  /** Every valid action is produced by its own command line, whatever the
      program is called. */
  lemma ParseCommandWords(programName: string, a: Action)
    requires !a.Invalid?
    ensures ParseArgs([programName] + CommandWords(a)) == a
  {
  }

  /** Conversely, an argument vector that parses to a valid action is exactly
      that action's command line. */
  lemma ValidArgsAreCommandWords(args: seq<string>)
    requires !ParseArgs(args).Invalid?
    ensures args == [args[0]] + CommandWords(ParseArgs(args))
  {
  }

  /** The program's own name never changes the result. */
  lemma ProgramNameIgnored(args: seq<string>, programName: string)
    requires |args| >= 1
    ensures ParseArgs(args[0 := programName]) == ParseArgs(args)
  {
  }
}
