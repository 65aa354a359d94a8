/** Fixture naming and discovery (src/files.rs). A part `n` has its program
    in `n.py`; a fixture `f` has its input in `f.txt` and its expected output
    in `f.out.txt`; the fixtures of part `n` are the inputs whose names start
    with `tn`. The directory listing that `fs::read_dir(".")` yields is an
    input of the model. */
module Files {
  import opened Common
  import opened StringOrder

  const PY_EXT: string := ".py"
  const INPUT_EXT: string := ".txt"
  const OUTPUT_EXT: string := ".out.txt"
  const TEST_PREFIX: string := "t"

  /** `get_prog_filename`: the name is recovered by stripping the extension. */
  function GetProgFilename(name: string): (r: string)
    ensures EndsWith(r, PY_EXT) && RemoveExt(r, PY_EXT) == name
  {
    StripAppended(name, PY_EXT);
    name + PY_EXT
  }

  /** `get_input_filename` */
  function GetInputFilename(name: string): (r: string)
    ensures EndsWith(r, INPUT_EXT) && RemoveExt(r, INPUT_EXT) == name
  {
    StripAppended(name, INPUT_EXT);
    name + INPUT_EXT
  }

  /** `get_output_filename`: an output name also ends with the input suffix. */
  function GetOutputFilename(name: string): (r: string)
    ensures EndsWith(r, OUTPUT_EXT) && RemoveExt(r, OUTPUT_EXT) == name
    ensures EndsWith(r, INPUT_EXT)
  {
    StripAppended(name, OUTPUT_EXT);
    EndsWithAppended(name + ".out", INPUT_EXT);
    assert name + OUTPUT_EXT == (name + ".out") + INPUT_EXT;
    name + OUTPUT_EXT
  }

  /** `get_test_prefix`: "t" followed by the part name. */
  function GetTestPrefix(name: string): (r: string)
    ensures StartsWith(r, TEST_PREFIX) && r[|TEST_PREFIX|..] == name
  {
    TEST_PREFIX + name
  }

  /** `remove_ext`: `strip_suffix`, or the name unchanged when the suffix is
      absent; it never fails. */
  function RemoveExt(filename: string, ext: string): (r: string)
    ensures EndsWith(filename, ext) ==> r + ext == filename
    ensures !EndsWith(filename, ext) ==> r == filename
  {
    if EndsWith(filename, ext) then
      assert filename == filename[..|filename| - |ext|] + filename[|filename| - |ext|..];
      filename[..|filename| - |ext|]
    else filename
  }

  lemma StripAppended(name: string, ext: string)
    ensures EndsWith(name + ext, ext) && RemoveExt(name + ext, ext) == name
  {
    EndsWithAppended(name, ext);
    assert (name + ext)[..|name|] == name;
  }

  /** One item of the `read_dir` iterator: an `Err` item, a name that is not
      valid Unicode (`to_str` fails, and the loop sees ""), or a name. */
  datatype DirEntry = BadEntry | NonUnicodeName | Named(name: string)

  /** The name the loop looks at for an entry that is not an `Err`. */
  function EntryFileName(e: DirEntry): string
    requires !e.BadEntry?
  {
    if e.Named? then e.name else ""
  }

  /** The filter of the discovery loop. */
  predicate IsTestInput(prefix: string, f: string) {
    StartsWith(f, prefix) && EndsWith(f, INPUT_EXT) && !EndsWith(f, OUTPUT_EXT)
  }

  /** The names the loop has pushed after visiting `entries`, in listing order. */
  function Matching(prefix: string, entries: seq<DirEntry>): seq<string> {
    if |entries| == 0 then []
    else
      var init := Matching(prefix, entries[..|entries| - 1]);
      var e := entries[|entries| - 1];
      if !e.BadEntry? && IsTestInput(prefix, EntryFileName(e)) then init + [EntryFileName(e)]
      else init
  }

  /** What a successful discovery returns: the matching names, sorted. */
  function Discover(prefix: string, entries: seq<DirEntry>): seq<string> {
    SortStrings(Matching(prefix, entries))
  }

  /** `get_all_input_filenames_with_prefix`, the listing given as `listing`. */
  method GetAllInputFilenamesWithPrefix(prefix: string, listing: Result<seq<DirEntry>>)
    returns (r: Result<seq<string>>)
    ensures listing.Err? ==> r == Err("Fail to read file listing for cwd. " + listing.error)
    ensures listing.Ok? ==> r == Ok(Discover(prefix, listing.value))
  {
    var result: seq<string> := [];
    match listing {
      case Err(err) =>
        return Err("Fail to read file listing for cwd. " + err);
      case Ok(entries) =>
        for i := 0 to |entries|
          invariant result == Matching(prefix, entries[..i])
        {
          assert entries[..i + 1][..i] == entries[..i];
          var entry := entries[i];
          if !entry.BadEntry? {
            var filename := if entry.Named? then entry.name else "";
            if StartsWith(filename, prefix) && EndsWith(filename, INPUT_EXT)
              && !EndsWith(filename, OUTPUT_EXT)
            {
              result := result + [filename];
            }
          }
        }
        assert entries[..|entries|] == entries;
        // the file system does not order its listing
        result := SortStrings(result);
        return Ok(result);
    }
  }

  /** How often a name is pushed: once per entry carrying exactly that name,
      and only if it passes the filter. */
  lemma {:induction false} MatchingCount(prefix: string, entries: seq<DirEntry>, x: string)
    ensures multiset(Matching(prefix, entries))[x]
         == if IsTestInput(prefix, x) then multiset(entries)[Named(x)] else 0
    decreases |entries|
  {
    if |entries| > 0 {
      var init := entries[..|entries| - 1];
      var e := entries[|entries| - 1];
      assert entries == init + [e];
      MatchingCount(prefix, init, x);
    }
  }

  /** A name is discovered exactly when the listing holds it and it starts with
      the prefix, ends with ".txt" and does not end with ".out.txt". */
  lemma DiscoverMembership(prefix: string, entries: seq<DirEntry>, x: string)
    ensures x in Discover(prefix, entries) <==> Named(x) in entries && IsTestInput(prefix, x)
  {
    MatchingCount(prefix, entries, x);
    assert x in Discover(prefix, entries) <==> x in multiset(Discover(prefix, entries));
    assert Named(x) in entries <==> Named(x) in multiset(entries);
  }

  /** Discovery returns every matching entry exactly as often as the listing
      holds it (nothing that passes is dropped), in sorted order. */
  lemma DiscoverSortedPermutation(prefix: string, entries: seq<DirEntry>)
    ensures Sorted(Discover(prefix, entries))
    ensures forall x :: multiset(Discover(prefix, entries))[x]
                     == if IsTestInput(prefix, x) then multiset(entries)[Named(x)] else 0
  {
    forall x
      ensures multiset(Discover(prefix, entries))[x]
           == if IsTestInput(prefix, x) then multiset(entries)[Named(x)] else 0
    {
      MatchingCount(prefix, entries, x);
    }
  }

  /** No expected-output file is ever taken for a test input, although
      ".out.txt" ends with ".txt". */
  lemma OutputNeverDiscovered(prefix: string, entries: seq<DirEntry>, n: string)
    ensures GetOutputFilename(n) !in Discover(prefix, entries)
  {
    DiscoverMembership(prefix, entries, GetOutputFilename(n));
  }

  /** Every discovered name is the input file of a fixture, whose logical
      name `remove_ext` recovers. */
  lemma DiscoveredAreInputFiles(prefix: string, entries: seq<DirEntry>, f: string)
    requires f in Discover(prefix, entries)
    ensures GetInputFilename(RemoveExt(f, INPUT_EXT)) == f
  {
    DiscoverMembership(prefix, entries, f);
  }

  /** A listing with nothing that matches gives the empty result, not an error. */
  lemma DiscoverNothing(prefix: string, entries: seq<DirEntry>)
    ensures Discover(prefix, entries) == []
        <==> forall x :: Named(x) in entries ==> !IsTestInput(prefix, x)
  {
    if Discover(prefix, entries) != [] {
      DiscoverMembership(prefix, entries, Discover(prefix, entries)[0]);
    }
    forall x | Named(x) in entries && IsTestInput(prefix, x)
      ensures Discover(prefix, entries) != []
    {
      DiscoverMembership(prefix, entries, x);
    }
  }

  /** The order in which the file system lists the directory does not matter:
      two listings with the same entries give the same result. */
  lemma DiscoverIgnoresListingOrder(prefix: string, e1: seq<DirEntry>, e2: seq<DirEntry>)
    requires multiset(e1) == multiset(e2)
    ensures Discover(prefix, e1) == Discover(prefix, e2)
  {
    forall x ensures multiset(Discover(prefix, e1))[x] == multiset(Discover(prefix, e2))[x] {
      MatchingCount(prefix, e1, x);
      MatchingCount(prefix, e2, x);
    }
    assert multiset(Discover(prefix, e1)) == multiset(Discover(prefix, e2));
    SortedPermutationUnique(Discover(prefix, e1), Discover(prefix, e2));
  }

  /** The fixtures of part "1" as the system test lays them out: neither the
      live fixture "1.txt" nor a ".out.txt" file is discovered, and "t1.1.txt"
      precedes "t1.txt" because '1' < 't'. */
  lemma DiscoverPartOneExample()
    ensures Discover(GetTestPrefix("1"), [Named("t1.txt"), Named("t1.1.out.txt"),
                                          Named("t1.1.txt"), Named("1.txt")])
         == ["t1.1.txt", "t1.txt"]
  {
    var es := [Named("t1.txt"), Named("t1.1.out.txt"), Named("t1.1.txt"), Named("1.txt")];
    assert GetTestPrefix("1") == "t1";
    PartOneMatching(es);
    PartOneSorted("t1.1.txt", "t1.txt");
  }

  lemma PartOneMatching(es: seq<DirEntry>)
    requires es == [Named("t1.txt"), Named("t1.1.out.txt"), Named("t1.1.txt"), Named("1.txt")]
    ensures Matching("t1", es) == ["t1.txt", "t1.1.txt"]
  {
    assert IsTestInput("t1", "t1.txt");
    assert !IsTestInput("t1", "t1.1.out.txt") by { assert EndsWith("t1.1.out.txt", OUTPUT_EXT); }
    assert IsTestInput("t1", "t1.1.txt");
    assert !IsTestInput("t1", "1.txt") by { assert "1.txt"[..2][0] != 't'; }
    assert es[..1][..0] == [] && es[..2][..1] == es[..1] && es[..3][..2] == es[..2];
    assert Matching("t1", es[..1]) == ["t1.txt"];
    assert Matching("t1", es[..2]) == ["t1.txt"];
    assert Matching("t1", es[..3]) == ["t1.txt", "t1.1.txt"];
  }

  lemma PartOneSorted(a: string, b: string)
    requires a == "t1.1.txt" && b == "t1.txt"
    ensures SortStrings([b, a]) == [a, b]
  {
    assert !LexLe("txt", "1.txt") by { assert "txt"[0] > "1.txt"[0]; }
    assert !LexLe(".txt", ".1.txt") by { assert ".txt"[1..] == "txt" && ".1.txt"[1..] == "1.txt"; }
    assert !LexLe("1.txt", "1.1.txt") by { assert "1.txt"[1..] == ".txt" && "1.1.txt"[1..] == ".1.txt"; }
    assert !LexLe(b, a) by { assert b[1..] == "1.txt" && a[1..] == "1.1.txt"; }
    assert SortStrings([a]) == [a] by { assert [a][1..] == []; }
    assert SortStrings([b, a]) == Insert(b, [a]) by { assert [b, a][1..] == [a]; }
    assert Insert(b, [a]) == [a] + Insert(b, []) by { assert [a][1..] == []; }
  }
}
