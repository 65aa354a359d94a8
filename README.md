# Puzzle-solution test harness, modelled in Dafny

This project models the core of a small Rust command-line harness. The harness runs one Python program per puzzle "part" against text fixtures and compares the program's output with expected-output files. Three pieces are modelled, with the file system and the child process replaced by plain inputs:

- **Fixture naming and discovery** (`files.dfy`, module `Files`; the sort order is in `string_order.dfy`, module `StringOrder`). The program of part `n` is `n.py`. A fixture `f` has its input in `f.txt` and its expected output in `f.out.txt`. The fixtures of part `n` are the input files whose names start with `tn`. Discovery filters a directory listing and then sorts it. The listing is an input: either an error message or a sequence of entries. An entry is an unreadable item, a name that is not valid Unicode (the loop sees `""`), or a name.
- **Running one test and reporting it** (`runner.dfy`, module `Runner`). `RunTest` is a total function into the five outcomes. Its environment `Env` answers three questions: does a file exist, what does running the program yield, and what does reading a file yield. The module also models the one-line report of an outcome and the diff block of a failure.
- **Command-line parsing** (`command_line.dfy`, module `CommandLine`). The argument vector becomes an `Action`.

`common.dfy` (module `Common`) holds the shared vocabulary. It defines `Result` and `Option`, the `starts_with`/`ends_with` tests, `join`, and a newline splitter `Lines`. Joining the pieces of `Lines` with `"\n"` gives the text back. Splitting a `"\n"`-join of newline-free parts gives the parts back.

Each operation has a partner and lemmas that connect the two:
- file names and `RemoveExt` round-trip;
- discovery is characterised by membership, counts and sortedness, and does not depend on listing order;
- report lines parse back to the outcome's variant and file name;
- a diff splits into its marker lines with the lines of both texts between them, and gives both texts back when the actual output has no line reading "### Expected:";
- parsed actions come from exactly their own command lines.

Rust compares `String`s by their UTF-8 bytes. UTF-8 preserves code-point order, so `StringOrder.LexLe` compares Dafny `char`s (Unicode scalar values) lexicographically.

## Model

| member | source | states |
|---|---|---|
| Files.GetProgFilename | src/files.rs:10-12 | the program file ends with ".py", and stripping ".py" gives back the part name |
| Files.GetInputFilename | src/files.rs:14-16 | the input file ends with ".txt", and stripping ".txt" gives back the fixture name |
| Files.GetOutputFilename | src/files.rs:18-20 | the output file ends with ".out.txt" and also with ".txt"; stripping ".out.txt" gives back the fixture name |
| Files.GetTestPrefix | src/files.rs:22-24 | the prefix starts with "t" and continues with exactly the part name |
| Files.RemoveExt | src/files.rs:26-31 | with the suffix present, the result followed by the suffix is the input; without it, the input is returned unchanged (never an error) |
| Files.GetAllInputFilenamesWithPrefix | src/files.rs:37-62 | a failed listing gives `Err("Fail to read file listing for cwd. " + error)`; otherwise `Ok` of the filtered names, pushed in listing order by the loop and then sorted |
| Files.MatchingCount | src/files.rs:45-56 | the loop pushes a name once per entry carrying it, if the name starts with the prefix, ends with ".txt" and does not end with ".out.txt", and otherwise never; unreadable and non-Unicode entries contribute nothing |
| Files.DiscoverMembership | src/files.rs:45-61 | a name is discovered if and only if the listing holds it and it passes the three-part filter |
| Files.DiscoverSortedPermutation | src/files.rs:45-61 | the result is sorted and holds each passing listing entry exactly as often as the listing does: nothing passing is dropped, nothing else is added |
| Files.OutputNeverDiscovered | src/files.rs:49-53 | no `get_output_filename(n)` is ever discovered, although ".out.txt" ends with ".txt" |
| Files.DiscoveredAreInputFiles | src/files.rs:14-31 | every discovered name is `get_input_filename` of the name `remove_ext` recovers from it |
| Files.DiscoverNothing | src/files.rs:37-61 | the result is empty exactly when no listed name passes the filter (an empty `Ok`, not an error) |
| Files.DiscoverIgnoresListingOrder | src/files.rs:58-59 | two listings with the same entries in any order give the same result |
| Files.DiscoverPartOneExample | src/files.rs:45-61 | for part "1", neither "1.txt" nor an output file is discovered, and "t1.1.txt" comes before "t1.txt" |
| StringOrder.SortStrings | src/files.rs:58-59 | `result.sort()` yields a sorted permutation of its input |
| StringOrder.SortedPermutationUnique | src/files.rs:58-59 | a multiset of strings has only one sorted arrangement, so the sorted result is determined by the set of names found |
| Runner.RunTest | src/runner.rs:67-99 | a missing input gives `NoInputFile` whatever else holds; input present and output missing gives `NoOutputFile`; a run error is passed on unchanged; an unreadable expected file after a good run gives `RunError` whose message is "Cannot read output file <name>. " followed by the I/O error; `Success` iff both texts are read and are exactly equal; `Failure` iff they differ, carrying both texts unchanged |
| Runner.RunTestLooksOnlyAtItsFixture | src/runner.rs:67-99 | the outcome depends only on the two existence checks, on running this program on this input, and on reading this expected-output file |
| Runner.ProgramRunsOnlyAfterBothChecks | src/runner.rs:68-79 | while either file is missing, neither the program's result nor the read of the expected file can change the outcome |
| Runner.ExpectedReadOnlyAfterRun | src/runner.rs:76-91 | when the program fails, the read of the expected file cannot change the outcome |
| Runner.GetTestResultString | src/runner.rs:102-117 | the line is the icon, a space, the input file name, a space and a tag; the tag reads back as exactly the outcome's variant; the icon is "   " iff `Success`, "(X)" iff `Failure` and "(!)" iff any other variant |
| Runner.ReportLineRoundTrip | src/runner.rs:102-117 | reading a report line back gives exactly the outcome's variant (one tag per variant) and the input file name |
| Runner.ReportLineDistinguishesOutcomes | src/runner.rs:102-117 | equal report lines come from the same input file and the same variant |
| Runner.SuccessLineExample | testing/system_test.py:75 | a passing fixture reports as "    t1.1.txt SUCCESS" |
| Runner.OutputMissingLineExample | testing/system_test.py:86 | a fixture without expected output reports as "(!) t1.noout1.txt OUTPUT-MISSING" |
| Runner.FailureLineExample | testing/system_test.py:88 | a failing fixture reports as "(X) t1.wrong.txt FAILURE" |
| Runner.GetDiff | src/runner.rs:119-138 | only defined for a `Failure`; the text is the header "===== DIFF (<input>) =====", a blank line, "### Actual:", the actual text, "### Expected:", the expected text and "==== END ====", with a newline between each two of them |
| Runner.DiffLines | src/runner.rs:119-138 | split on newlines, the diff is the header's lines, "", "### Actual:", the actual text's lines, "### Expected:", the expected text's lines and "==== END ====" |
| Runner.DiffDeterminesTexts | src/runner.rs:119-138 | for one fixture, two failures whose actual outputs have no line reading "### Expected:" give the same diff only if they carry the same actual and expected texts |
| Runner.DiffAmbiguousWithMarkerLine | src/runner.rs:119-138 | when the actual output may hold a line "### Expected:", different failures can give the same diff: "a", then the marker line, then "b" as actual with "c" as expected reads the same as "a" as actual with "b", the marker line and "c" as expected |
| CommandLine.ParseArgs | src/main.rs:11-58 | `Run` iff 3 arguments with "run"; `Test` iff 3 with "test"; `TestOne` iff 4 with "test", with the part and test taken from `args[2]` and `args[3]`; otherwise `Invalid` with the source's message for each case (no command, missing part, too many arguments, unknown command plus its word); total on every input |
| CommandLine.ParseCommandWords | src/main.rs:19-47 | every valid action is what its own command line parses to, whatever the program name |
| CommandLine.ValidArgsAreCommandWords | src/main.rs:11-58 | an argument vector that parses to a valid action is exactly that action's command line |
| CommandLine.ProgramNameIgnored | src/main.rs:11-58 | `args[0]` never affects the result |

## Left out

- `run_python_prog` (src/runner.rs:15-45) and `actions::run::execute` (src/actions/run.rs): they spawn a Python process and pipe its input and output. Their result appears only as the `Env.runPythonProg` answer. The panics on pipe errors are not modelled.
- `get_python_name` (src/runner.rs:7-13, src/actions/run.rs:5-11): a platform switch with no logic to verify.
- `file_exists` (src/files.rs:33-35), `write_output` (src/runner.rs:47-52) and `fs::read_to_string`: these are file-system calls. Existence and read results are `Env` answers, and writing is not modelled.
- `fs::read_dir` and the `OsStr`-to-`str` conversion in discovery (src/files.rs:40-48): the listing is an input of `GetAllInputFilenamesWithPrefix`.
- `Vec::sort` is a library routine. `StringOrder.SortStrings` models its result as a sorted permutation built by insertion, not its in-place steps on the vector.
- src/action.rs (`Action::parse_args` and `execute`): a wrapper over the `clap` library, whose behaviour is not visible here.
- `main()` in src/main.rs: it prints `Error: <message>` to standard error for an `Invalid` action and a placeholder line for each other action. Printing is output, not logic.
- Runner.DiffDeterminesTexts: it reads both texts back only when the actual output has no line "### Expected:". Otherwise the diff is ambiguous, as Runner.DiffAmbiguousWithMarkerLine shows.
- The run-all aggregation, the live fixture `<part>.txt`, the tally line and the final verdict line: testing/system_test.py expects them, but the code that produces them is not part of this model.
