/** The order `Vec<String>::sort` uses. Rust orders `String`s by their UTF-8
    bytes, lexicographically; UTF-8 preserves code-point order, so on Dafny's
    `char` (a Unicode scalar value) the same order is the lexicographic order
    on code points. The sort itself is a library routine: it is modelled by
    its result, an ordered permutation of its input, built by insertion. */
module StringOrder {

  /** `a <= b` for Rust strings: a prefix comes first, otherwise the first
      differing character decides. */
  predicate LexLe(a: string, b: string)
    decreases |a|
  {
    |a| == 0 || (|b| > 0 && (a[0] < b[0] || (a[0] == b[0] && LexLe(a[1..], b[1..]))))
  }

  lemma {:induction false} LexLeReflexive(a: string)
    ensures LexLe(a, a)
    decreases |a|
  {
    if |a| > 0 { LexLeReflexive(a[1..]); }
  }

  lemma {:induction false} LexLeTotal(a: string, b: string)
    ensures LexLe(a, b) || LexLe(b, a)
    decreases |a|
  {
    if |a| > 0 && |b| > 0 && a[0] == b[0] { LexLeTotal(a[1..], b[1..]); }
  }

  lemma {:induction false} LexLeTransitive(a: string, b: string, c: string)
    requires LexLe(a, b) && LexLe(b, c)
    ensures LexLe(a, c)
    decreases |a|
  {
    if |a| > 0 && a[0] == b[0] && b[0] == c[0] { LexLeTransitive(a[1..], b[1..], c[1..]); }
  }

  lemma {:induction false} LexLeAntisymmetric(a: string, b: string)
    requires LexLe(a, b) && LexLe(b, a)
    ensures a == b
    decreases |a|
  {
    if |a| > 0 {
      LexLeAntisymmetric(a[1..], b[1..]);
      assert a == [a[0]] + a[1..] && b == [b[0]] + b[1..];
    }
  }

  /** Every earlier element is at most every later one. */
  predicate Sorted(s: seq<string>) {
    forall i, j :: 0 <= i < j < |s| ==> LexLe(s[i], s[j])
  }

  /** Inserts `x` before the first element it does not exceed. */
  function Insert(x: string, s: seq<string>): (r: seq<string>)
    requires Sorted(s)
    ensures multiset(r) == multiset(s) + multiset{x}
    ensures Sorted(r)
  {
    if |s| == 0 then [x]
    else if LexLe(x, s[0]) then
      InsertFirstSorted(x, s);
      [x] + s
    else
      LexLeTotal(x, s[0]);
      var rest := Insert(x, s[1..]);
      assert s == [s[0]] + s[1..];
      HeadSorted(s[0], rest);
      [s[0]] + rest
  }

  /** `x` may go in front of a sorted `s` whose first element it does not exceed. */
  lemma InsertFirstSorted(x: string, s: seq<string>)
    requires Sorted(s) && |s| > 0 && LexLe(x, s[0])
    ensures Sorted([x] + s)
  {
    forall j | 0 < j < |s| + 1 ensures LexLe(x, ([x] + s)[j]) {
      if j > 1 { LexLeTransitive(x, s[0], s[j - 1]); }
    }
  }

  /** `h` may go in front of a sorted `t` all of whose elements are at least `h`. */
  lemma HeadSorted(h: string, t: seq<string>)
    requires Sorted(t)
    requires forall y :: y in multiset(t) ==> LexLe(h, y)
    ensures Sorted([h] + t)
  {
    forall j | 0 <= j < |t| ensures LexLe(h, t[j]) {
      assert t[j] in multiset(t);
    }
  }

  /** The result of `v.sort()` on a vector holding `s`. */
  function SortStrings(s: seq<string>): (r: seq<string>)
    ensures multiset(r) == multiset(s)
    ensures Sorted(r)
  {
    if |s| == 0 then []
    else
      assert s == [s[0]] + s[1..];
      Insert(s[0], SortStrings(s[1..]))
  }

  /** The first element of a sorted sequence is at most every element. */
  lemma SortedHeadLeast(a: seq<string>, x: string)
    requires Sorted(a) && x in multiset(a)
    ensures |a| > 0 && LexLe(a[0], x)
  {
    var i :| 0 <= i < |a| && a[i] == x;
    if i == 0 { LexLeReflexive(x); }
  }

  /** Equal multisets with equal heads have equal multisets of tails. */
  lemma TailsPermutation(a: seq<string>, b: seq<string>)
    requires |a| > 0 && |b| > 0 && a[0] == b[0]
    requires multiset(a) == multiset(b)
    ensures multiset(a[1..]) == multiset(b[1..])
  {
    assert a == [a[0]] + a[1..] && b == [b[0]] + b[1..];
    assert multiset(a[1..]) == multiset(a) - multiset{a[0]};
    assert multiset(b[1..]) == multiset(b) - multiset{b[0]};
  }

  /** There is one ordered arrangement of a multiset of strings: the sort's
      result depends only on which strings it is given, not on their order. */
  lemma {:induction false} SortedPermutationUnique(a: seq<string>, b: seq<string>)
    requires Sorted(a) && Sorted(b)
    requires multiset(a) == multiset(b)
    ensures a == b
    decreases |a|
  {
    if |a| == 0 {
      assert |b| == |multiset(b)| == 0;
    } else {
      assert a[0] in multiset(a);
      SortedHeadLeast(b, a[0]);
      SortedHeadLeast(a, b[0]);
      LexLeAntisymmetric(a[0], b[0]);
      TailsPermutation(a, b);
      SortedPermutationUnique(a[1..], b[1..]);
    }
  }
}
