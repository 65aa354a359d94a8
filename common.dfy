/** Shared vocabulary: Rust's `Result<T, String>`, the prefix and suffix tests of
    `str::starts_with` / `str::ends_with`, `[String]::join` and a line splitter:
    joining its pieces with "\n" gives the text back, and splitting a join of
    newline-free parts gives the parts back. */
module Common {

  /** `Result<T, String>`: every error in the harness is carried as a message. */
  datatype Result<T> = Ok(value: T) | Err(error: string)

  datatype Option<T> = None | Some(value: T)

  /** `s.starts_with(p)` */
  predicate StartsWith(s: string, p: string) {
    |p| <= |s| && s[..|p|] == p
  }

  /** `s.ends_with(x)` */
  predicate EndsWith(s: string, x: string) {
    |x| <= |s| && s[|s| - |x|..] == x
  }

  /** Appending `x` makes a string that ends with `x`, and nothing else
      about the string's head matters. */
  lemma EndsWithAppended(a: string, x: string)
    ensures EndsWith(a + x, x)
  {
    assert (a + x)[|a + x| - |x|..] == x;
  }

  /** `parts.join(sep)` */
  function Join(parts: seq<string>, sep: string): string {
    if |parts| == 0 then ""
    else if |parts| == 1 then parts[0]
    else parts[0] + sep + Join(parts[1..], sep)
  }

  /** `s.split('\n')`: the pieces between newline characters; never empty. */
  function Lines(s: string): (r: seq<string>)
    ensures |r| >= 1
    ensures '\n' !in s ==> r == [s]
  {
    if |s| == 0 then [""]
    else
      var rest := Lines(s[1..]);
      assert s == [s[0]] + s[1..];
      if s[0] == '\n' then [""] + rest
      else [[s[0]] + rest[0]] + rest[1..]
  }

  lemma LinesOfNewlineFree(s: string)
    requires '\n' !in s
    ensures Lines(s) == [s]
  {
  }

  /** Splitting undoes one newline joint. */
  lemma {:induction false} LinesAppend(a: string, b: string)
    ensures Lines(a + "\n" + b) == Lines(a) + Lines(b)
  {
    if |a| == 0 {
      assert a + "\n" + b == "\n" + b;
      assert ("\n" + b)[1..] == b;
    } else {
      var s := a + "\n" + b;
      assert s[0] == a[0];
      assert s[1..] == a[1..] + "\n" + b;
      LinesAppend(a[1..], b);
    }
  }

  /** Joining the pieces of a split with "\n" gives the text back: `Lines`
      loses nothing. */
  lemma {:induction false} JoinOfLines(s: string)
    ensures Join(Lines(s), "\n") == s
    decreases |s|
  {
    if |s| > 0 {
      var rest := Lines(s[1..]);
      JoinOfLines(s[1..]);
      assert s == [s[0]] + s[1..];
      if s[0] == '\n' {
        assert ([""] + rest)[1..] == rest;
      } else if |rest| == 1 {
        assert Join(Lines(s), "\n") == [s[0]] + rest[0];
      } else {
        var first := [s[0]] + rest[0];
        assert ([first] + rest[1..])[1..] == rest[1..];
        assert Join(rest, "\n") == rest[0] + "\n" + Join(rest[1..], "\n");
        assert Join(Lines(s), "\n") == first + "\n" + Join(rest[1..], "\n");
        assert first + "\n" + Join(rest[1..], "\n") == [s[0]] + (rest[0] + "\n" + Join(rest[1..], "\n"));
      }
    }
  }

  /** Joining one more part adds a separator and that part at the end. */
  lemma {:induction false} JoinSnoc(parts: seq<string>, q: string, sep: string)
    requires |parts| >= 1
    ensures Join(parts + [q], sep) == Join(parts, sep) + sep + q
    decreases |parts|
  {
    if |parts| == 1 {
      assert (parts + [q])[1..] == [q];
    } else {
      assert (parts + [q])[1..] == parts[1..] + [q];
      JoinSnoc(parts[1..], q, sep);
      var j := Join(parts[1..], sep);
      assert parts[0] + sep + (j + sep + q) == (parts[0] + sep + j) + sep + q;
    }
  }

  /** Joining newline-free parts with "\n" and splitting again gives back the
      parts. */
  lemma {:induction false} JoinLinesRoundTrip(parts: seq<string>)
    requires |parts| >= 1
    requires forall i :: 0 <= i < |parts| ==> '\n' !in parts[i]
    ensures Lines(Join(parts, "\n")) == parts
    decreases |parts|
  {
    if |parts| > 1 {
      var init := parts[..|parts| - 1];
      var q := parts[|parts| - 1];
      assert parts == init + [q];
      JoinSnoc(init, q, "\n");
      LinesAppend(Join(init, "\n"), q);
      JoinLinesRoundTrip(init);
    }
  }
}
