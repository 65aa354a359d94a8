/** Running one test case and reporting it (src/runner.rs). The file system
    and the child process are not modelled: whether a file exists, what
    running the program yields and what reading a file yields are answers of
    an environment `Env` handed to `RunTest`. */
module Runner {
  import opened Common

  /** A fixture: the input file fed to the program and the file holding the
      output it should print. */
  datatype TestCase = TestCase(inputFilename: string, expectedOutputFilename: string)

  datatype TestResult =
    | Success
    | Failure(actual: string, expected: string)
    | NoInputFile
    | NoOutputFile
    | RunError(error: string)

  /** The outside world as `run_test` queries it:
      `fileExists(f)` is `files::file_exists(f)`;
      `runPythonProg(p, i)` is what `run_python_prog(p, i)` returns, the
      program's whole standard output or an error message;
      `readToString(f)` is `fs::read_to_string(f)`, the error carried as the
      text the I/O error displays. */
  datatype Env = Env(
    fileExists: string -> bool,
    runPythonProg: (string, string) -> Result<string>,
    readToString: string -> Result<string>)

  /** Both files of the test case are on disk. */
  predicate BothExist(testCase: TestCase, env: Env) {
    env.fileExists(testCase.inputFilename) && env.fileExists(testCase.expectedOutputFilename)
  }

  /** What running the program on the test's input yields. */
  function Ran(progFilename: string, testCase: TestCase, env: Env): Result<string> {
    env.runPythonProg(progFilename, testCase.inputFilename)
  }

  /** What reading the expected-output file yields. */
  function ReadExpected(testCase: TestCase, env: Env): Result<string> {
    env.readToString(testCase.expectedOutputFilename)
  }

  /** `run_test`: the first check that fails decides the outcome. */
  function RunTest(progFilename: string, testCase: TestCase, env: Env): (r: TestResult)
    // a missing input wins over everything else
    ensures !env.fileExists(testCase.inputFilename) ==> r == NoInputFile
    ensures (env.fileExists(testCase.inputFilename) && !env.fileExists(testCase.expectedOutputFilename))
      ==> r == NoOutputFile
    // the program's error is passed on unchanged
    ensures (BothExist(testCase, env) && Ran(progFilename, testCase, env).Err?)
      ==> r == RunError(Ran(progFilename, testCase, env).error)
    // an unreadable expected output, after a successful run
    ensures (BothExist(testCase, env) && Ran(progFilename, testCase, env).Ok?
             && ReadExpected(testCase, env).Err?)
      ==> r == RunError("Cannot read output file " + testCase.expectedOutputFilename + ". "
                        + ReadExpected(testCase, env).error)
    // success exactly when the output matches, character for character
    ensures r == Success
      <==> (BothExist(testCase, env) && Ran(progFilename, testCase, env).Ok?
            && ReadExpected(testCase, env).Ok?
            && Ran(progFilename, testCase, env).value == ReadExpected(testCase, env).value)
    // a failure carries both texts as they were
    ensures r.Failure?
      <==> (BothExist(testCase, env) && Ran(progFilename, testCase, env).Ok?
            && ReadExpected(testCase, env).Ok?
            && Ran(progFilename, testCase, env).value != ReadExpected(testCase, env).value)
    ensures r.Failure?
      ==> (Ran(progFilename, testCase, env) == Ok(r.actual) && ReadExpected(testCase, env) == Ok(r.expected))
  {
    if !env.fileExists(testCase.inputFilename) then NoInputFile
    else if !env.fileExists(testCase.expectedOutputFilename) then NoOutputFile
    else
      match env.runPythonProg(progFilename, testCase.inputFilename)
      case Err(err) => RunError(err)
      case Ok(actualOutput) =>
        match env.readToString(testCase.expectedOutputFilename)
        case Err(err) =>
          RunError("Cannot read output file " + testCase.expectedOutputFilename + ". " + err)
        case Ok(expectedOutput) =>
          if actualOutput != expectedOutput then Failure(actualOutput, expectedOutput)
          else Success
  }

  /** The outcome depends on the environment only through the two existence
      checks of this test case, the run of this program on this input, and
      the read of this expected-output file. */
  lemma RunTestLooksOnlyAtItsFixture(progFilename: string, testCase: TestCase, e1: Env, e2: Env)
    requires e1.fileExists(testCase.inputFilename) == e2.fileExists(testCase.inputFilename)
    requires e1.fileExists(testCase.expectedOutputFilename) == e2.fileExists(testCase.expectedOutputFilename)
    requires e1.runPythonProg(progFilename, testCase.inputFilename)
          == e2.runPythonProg(progFilename, testCase.inputFilename)
    requires e1.readToString(testCase.expectedOutputFilename)
          == e2.readToString(testCase.expectedOutputFilename)
    ensures RunTest(progFilename, testCase, e1) == RunTest(progFilename, testCase, e2)
  {
  }

  /** The program is consulted only after both files are found to exist, and
      the expected output is read only after the program ran successfully:
      before that point, neither answer can change the outcome. */
  lemma ProgramRunsOnlyAfterBothChecks(progFilename: string, testCase: TestCase, env: Env,
                                       run: (string, string) -> Result<string>,
                                       read: string -> Result<string>)
    requires !env.fileExists(testCase.inputFilename) || !env.fileExists(testCase.expectedOutputFilename)
    ensures RunTest(progFilename, testCase, env)
         == RunTest(progFilename, testCase, env.(runPythonProg := run, readToString := read))
  {
  }

  lemma ExpectedReadOnlyAfterRun(progFilename: string, testCase: TestCase, env: Env,
                                 read: string -> Result<string>)
    requires env.runPythonProg(progFilename, testCase.inputFilename).Err?
    ensures RunTest(progFilename, testCase, env)
         == RunTest(progFilename, testCase, env.(readToString := read))
  {
  }

  /** `get_test_result_string`: status icon, input file name, outcome tag,
      separated by single spaces. */
  function GetTestResultString(testCase: TestCase, testResult: TestResult): (line: string)
    ensures |line| > 5 + |testCase.inputFilename|
    ensures line[3] == ' ' && line[4..4 + |testCase.inputFilename|] == testCase.inputFilename
    ensures line[4 + |testCase.inputFilename|] == ' '
    ensures KindOfTag(line[5 + |testCase.inputFilename|..]) == Some(KindOf(testResult))
    ensures line[..3] == "   " <==> testResult.Success?
    ensures line[..3] == "(X)" <==> testResult.Failure?
    ensures line[..3] == "(!)" <==> !testResult.Success? && !testResult.Failure?
  {
    var resultString :=
      match testResult
      case Success => "SUCCESS"
      case Failure(_, _) => "FAILURE"
      case NoInputFile => "INPUT-MISSING"
      case NoOutputFile => "OUTPUT-MISSING"
      case RunError(_) => "RUN-ERROR";
    var icon :=
      match testResult
      case Success => "   "
      case Failure(_, _) => "(X)"
      case _ => "(!)";
    var name := testCase.inputFilename;
    LineLayout(icon, name, resultString);
    icon + " " + name + " " + resultString
  }

  /** The variant of an outcome, without what it carries: what a report line
      tells. */
  datatype Kind = SuccessKind | FailureKind | InputMissingKind | OutputMissingKind | RunErrorKind

  function KindOf(r: TestResult): Kind {
    match r
    case Success => SuccessKind
    case Failure(_, _) => FailureKind
    case NoInputFile => InputMissingKind
    case NoOutputFile => OutputMissingKind
    case RunError(_) => RunErrorKind
  }

  /** Index of the last space in `s`, or -1 when there is none. */
  function LastSpace(s: string): (i: int)
    ensures -1 <= i < |s|
    ensures i >= 0 ==> s[i] == ' '
    ensures forall j :: i < j < |s| ==> s[j] != ' '
  {
    if |s| == 0 then -1
    else if s[|s| - 1] == ' ' then |s| - 1
    else LastSpace(s[..|s| - 1])
  }

  /** The outcome tags, read back. */
  function KindOfTag(tag: string): Option<Kind> {
    if tag == "SUCCESS" then Some(SuccessKind)
    else if tag == "FAILURE" then Some(FailureKind)
    else if tag == "INPUT-MISSING" then Some(InputMissingKind)
    else if tag == "OUTPUT-MISSING" then Some(OutputMissingKind)
    else if tag == "RUN-ERROR" then Some(RunErrorKind)
    else None
  }

  /** The icon a reader expects in front of each kind of outcome. */
  function IconOfKind(k: Kind): string {
    match k
    case SuccessKind => "   "
    case FailureKind => "(X)"
    case _ => "(!)"
  }

  /** Reads a report line back: the tag is the word after the last space
      (no tag contains one), the file name lies between the icon and it. */
  function ParseReportLine(line: string): Option<(Kind, string)> {
    var i := LastSpace(line);
    if i < 4 || line[3] != ' ' then None
    else
      match KindOfTag(line[i + 1..])
      case None => None
      case Some(k) => if line[..3] == IconOfKind(k) then Some((k, line[4..i])) else None
  }

  /** Where the icon, the name and the tag lie in a line built from them. */
  lemma LineLayout(icon: string, name: string, tag: string)
    requires |icon| == 3
    ensures var line := icon + " " + name + " " + tag;
      |line| == 5 + |name| + |tag| && line[..3] == icon && line[3] == ' '
      && line[4..4 + |name|] == name && line[4 + |name|] == ' ' && line[5 + |name|..] == tag
  {
    var line := icon + " " + name + " " + tag;
    assert line == (icon + " ") + (name + (" " + tag));
    assert line[..3] == icon;
    assert line[4..] == name + (" " + tag);
    assert line[4..][..|name|] == name;
    assert line[4..][|name|..] == " " + tag;
  }

  /** Where the pieces of a report line lie. */
  lemma ReportLineParts(icon: string, name: string, tag: string)
    requires |icon| == 3 && ' ' !in tag
    ensures var line := icon + " " + name + " " + tag;
      LastSpace(line) == 4 + |name| && line[4 + |name| + 1..] == tag
      && line[..3] == icon && line[3] == ' ' && line[4..4 + |name|] == name
  {
    var line := icon + " " + name + " " + tag;
    LineLayout(icon, name, tag);
    var i := LastSpace(line);
    assert forall j :: 4 + |name| < j < |line| ==> line[j] == tag[j - 5 - |name|];
  }

  /** A line built from a kind's icon and tag parses back to that kind. */
  lemma ParseBuiltLine(k: Kind, icon: string, name: string, tag: string)
    requires |icon| == 3 && ' ' !in tag
    requires KindOfTag(tag) == Some(k) && IconOfKind(k) == icon
    ensures ParseReportLine(icon + " " + name + " " + tag) == Some((k, name))
  {
    ReportLineParts(icon, name, tag);
  }

  /** The report line gives back exactly which variant the outcome was and
      which input file it was for. */
  lemma ReportLineRoundTrip(testCase: TestCase, testResult: TestResult)
    ensures ParseReportLine(GetTestResultString(testCase, testResult))
         == Some((KindOf(testResult), testCase.inputFilename))
  {
    var name := testCase.inputFilename;
    match testResult
    case Success =>
      ParseBuiltLine(SuccessKind, "   ", name, "SUCCESS");
    case Failure(_, _) =>
      ParseBuiltLine(FailureKind, "(X)", name, "FAILURE");
    case NoInputFile =>
      ParseBuiltLine(InputMissingKind, "(!)", name, "INPUT-MISSING");
    case NoOutputFile =>
      ParseBuiltLine(OutputMissingKind, "(!)", name, "OUTPUT-MISSING");
    case RunError(_) =>
      ParseBuiltLine(RunErrorKind, "(!)", name, "RUN-ERROR");
  }

  /** Two equal report lines are about the same input file and the same
      kind of outcome. */
  lemma ReportLineDistinguishesOutcomes(tc1: TestCase, r1: TestResult, tc2: TestCase, r2: TestResult)
    requires GetTestResultString(tc1, r1) == GetTestResultString(tc2, r2)
    ensures KindOf(r1) == KindOf(r2) && tc1.inputFilename == tc2.inputFilename
  {
    ReportLineRoundTrip(tc1, r1);
    ReportLineRoundTrip(tc2, r2);
  }

  /** Report lines of the system test for part "1". */
  lemma SuccessLineExample()
    ensures GetTestResultString(TestCase("t1.1.txt", "t1.1.out.txt"), Success)
         == "    t1.1.txt SUCCESS"
  {
  }

  lemma OutputMissingLineExample()
    ensures GetTestResultString(TestCase("t1.noout1.txt", "t1.noout1.out.txt"), NoOutputFile)
         == "(!) t1.noout1.txt OUTPUT-MISSING"
  {
  }

  lemma FailureLineExample()
    ensures GetTestResultString(TestCase("t1.wrong.txt", "t1.wrong.out.txt"), Failure("1\n", "2\n"))
         == "(X) t1.wrong.txt FAILURE"
  {
  }

  /** `get_diff`: the fixture's name, then the actual and the expected text,
      framed by marker lines; only a failure has a diff. */
  function GetDiff(testCase: TestCase, testResult: TestResult): (d: string)
    requires testResult.Failure?
    ensures d == "===== DIFF (" + testCase.inputFilename + ") =====" + "\n" + "" + "\n" + "### Actual:"
                 + "\n" + testResult.actual + "\n" + "### Expected:" + "\n" + testResult.expected
                 + "\n" + "==== END ===="
  {
    var header := "===== DIFF (" + testCase.inputFilename + ") =====";
    DiffJoin(header, testResult.actual, testResult.expected);
    Join([header, "", "### Actual:", testResult.actual,
          "### Expected:", testResult.expected, "==== END ===="], "\n")
  }

  /** The seven parts of a diff, joined by "\n". */
  lemma DiffJoin(header: string, actual: string, expected: string)
    ensures Join([header, "", "### Actual:", actual, "### Expected:", expected, "==== END ===="], "\n")
         == header + "\n" + "" + "\n" + "### Actual:" + "\n" + actual + "\n" + "### Expected:" + "\n"
            + expected + "\n" + "==== END ===="
  {
    var s1 := [header];
    var s2 := s1 + [""];
    var s3 := s2 + ["### Actual:"];
    var s4 := s3 + [actual];
    var s5 := s4 + ["### Expected:"];
    var s6 := s5 + [expected];
    var s7 := s6 + ["==== END ===="];
    JoinSnoc(s1, "", "\n");
    JoinSnoc(s2, "### Actual:", "\n");
    JoinSnoc(s3, actual, "\n");
    JoinSnoc(s4, "### Expected:", "\n");
    JoinSnoc(s5, expected, "\n");
    JoinSnoc(s6, "==== END ====", "\n");
    assert s7 == [header, "", "### Actual:", actual, "### Expected:", expected, "==== END ===="];
  }

  /** Split into lines, a diff is its header line(s), a blank line, the
      "### Actual:" marker, the lines of the actual output, the
      "### Expected:" marker, the lines of the expected output and the end
      marker: the lines of both texts lie between the markers. */
  lemma DiffLines(testCase: TestCase, testResult: TestResult)
    requires testResult.Failure?
    ensures Lines(GetDiff(testCase, testResult))
         == Lines("===== DIFF (" + testCase.inputFilename + ") =====")
            + ["", "### Actual:"] + Lines(testResult.actual)
            + ["### Expected:"] + Lines(testResult.expected) + ["==== END ===="]
  {
    var header := "===== DIFF (" + testCase.inputFilename + ") =====";
    DiffJoin(header, testResult.actual, testResult.expected);
    SevenLines(header, "", "### Actual:", testResult.actual,
               "### Expected:", testResult.expected, "==== END ====");
  }

  /** The lines of seven newline-joined parts are the lines of each part;
      a part without a newline is one line. */
  lemma SevenLines(p0: string, p1: string, p2: string, p3: string, p4: string, p5: string, p6: string)
    requires '\n' !in p1 && '\n' !in p2 && '\n' !in p4 && '\n' !in p6
    ensures Lines(p0 + "\n" + p1 + "\n" + p2 + "\n" + p3 + "\n" + p4 + "\n" + p5 + "\n" + p6)
         == Lines(p0) + [p1, p2] + Lines(p3) + [p4] + Lines(p5) + [p6]
  {
    var j1 := p0 + "\n" + p1;
    var j2 := j1 + "\n" + p2;
    var j3 := j2 + "\n" + p3;
    var j4 := j3 + "\n" + p4;
    var j5 := j4 + "\n" + p5;
    LinesOfNewlineFree(p1);
    LinesOfNewlineFree(p2);
    LinesOfNewlineFree(p4);
    LinesOfNewlineFree(p6);
    LinesAppend(p0, p1);
    assert Lines(j1) == Lines(p0) + [p1];
    LinesAppend(j1, p2);
    assert Lines(j2) == Lines(p0) + [p1, p2];
    LinesAppend(j2, p3);
    assert Lines(j3) == Lines(p0) + [p1, p2] + Lines(p3);
    LinesAppend(j3, p4);
    assert Lines(j4) == Lines(p0) + [p1, p2] + Lines(p3) + [p4];
    LinesAppend(j4, p5);
    assert Lines(j5) == Lines(p0) + [p1, p2] + Lines(p3) + [p4] + Lines(p5);
    LinesAppend(j5, p6);
  }

  /** A diff gives both texts back when the actual output has no line reading
      "### Expected:": the first such line of the diff is then the marker. */
  lemma DiffDeterminesTexts(testCase: TestCase, r1: TestResult, r2: TestResult)
    requires r1.Failure? && r2.Failure?
    requires "### Expected:" !in Lines(r1.actual) && "### Expected:" !in Lines(r2.actual)
    requires GetDiff(testCase, r1) == GetDiff(testCase, r2)
    ensures r1 == r2
  {
    var header := Lines("===== DIFF (" + testCase.inputFilename + ") =====");
    DiffLines(testCase, r1);
    DiffLines(testCase, r2);
    MarkedLinesDetermine(header, Lines(r1.actual), Lines(r1.expected),
                         Lines(r2.actual), Lines(r2.expected));
    JoinOfLines(r1.actual);
    JoinOfLines(r2.actual);
    JoinOfLines(r1.expected);
    JoinOfLines(r2.expected);
  }

  /** The lines between the markers of a diff, read back. */
  lemma MarkedLinesDetermine(header: seq<string>, a1: seq<string>, e1: seq<string>,
                             a2: seq<string>, e2: seq<string>)
    requires "### Expected:" !in a1 && "### Expected:" !in a2
    requires header + ["", "### Actual:"] + a1 + ["### Expected:"] + e1 + ["==== END ===="]
          == header + ["", "### Actual:"] + a2 + ["### Expected:"] + e2 + ["==== END ===="]
    ensures a1 == a2 && e1 == e2
  {
    var pre := header + ["", "### Actual:"];
    var t1 := a1 + ["### Expected:"] + (e1 + ["==== END ===="]);
    var t2 := a2 + ["### Expected:"] + (e2 + ["==== END ===="]);
    assert pre + a1 + ["### Expected:"] + e1 + ["==== END ===="] == pre + t1;
    assert pre + a2 + ["### Expected:"] + e2 + ["==== END ===="] == pre + t2;
    assert t1 == (pre + t1)[|pre|..] && t2 == (pre + t2)[|pre|..];
    SplitAtFirst(a1, e1 + ["==== END ===="], a2, e2 + ["==== END ===="], "### Expected:");
    assert e1 == (e1 + ["==== END ===="])[..|e1|] && e2 == (e2 + ["==== END ===="])[..|e2|];
  }

  /** A sequence cut at the first occurrence of a marker has one such cut. */
  lemma SplitAtFirst(a1: seq<string>, b1: seq<string>, a2: seq<string>, b2: seq<string>, m: string)
    requires m !in a1 && m !in a2
    requires a1 + [m] + b1 == a2 + [m] + b2
    ensures a1 == a2 && b1 == b2
  {
    var s := a1 + [m] + b1;
    assert s[|a1|] == m && s[|a2|] == m;
    assert forall i :: 0 <= i < |a1| ==> s[i] == a1[i];
    assert forall i :: 0 <= i < |a2| ==> s[i] == a2[i];
    assert |a1| == |a2|;
    assert a1 == s[..|a1|] && a2 == s[..|a2|];
    assert b1 == s[|a1| + 1..] && b2 == s[|a2| + 1..];
  }

  /** Without that condition a diff is ambiguous: an actual output holding the
      marker line reads the same as an expected output holding it. */
  lemma DiffAmbiguousWithMarkerLine(testCase: TestCase, a: string, b: string, c: string)
    ensures GetDiff(testCase, Failure(a + "\n### Expected:\n" + b, c))
         == GetDiff(testCase, Failure(a, b + "\n### Expected:\n" + c))
  {
    var h := "===== DIFF (" + testCase.inputFilename + ") =====\n\n### Actual:\n";
    var m := "\n### Expected:\n";
    var e := "\n==== END ====";
    assert h + (a + m + b) + m + c + e == h + a + m + (b + m + c) + e;
  }
}
