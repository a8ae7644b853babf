/**
 Spec-file selection: the single entry of `TESTS_PATTERN`, the Ruby regular
 expression /.*Spec.*.scala$/, and `Specs#tests`, which keeps the enumerated
 `.scala` paths that the pattern accepts.

 Ruby semantics of that pattern: `===` looks for a match anywhere in the
 string; `.` matches any one character except a newline (so the unescaped
 `.` before `scala` is not a literal dot); `$` matches at the end of the
 string and also just before any newline. Matching is case-sensitive.
 */
module SpecPattern {
  import opened Strings
  import opened Filtering

  /** The pattern matches with `Spec` at `p` and `scala` ending at `e`. */
  ghost predicate MatchAt(s: string, p: int, e: int)
  {
    && 0 <= p && p + 10 <= e <= |s|
    && s[p..p + 4] == "Spec"
    && s[e - 5..e] == "scala"
    && (forall i :: p <= i < e ==> s[i] != '\n')
    && (e == |s| || s[e] == '\n')
  }

  /** The pattern /.*Spec.*.scala$/ matches somewhere in `s`. */
  ghost predicate PatternMatches(s: string)
  {
    exists p, e :: MatchAt(s, p, e)
  }

  /** `Spec` starts at `p` in `t`. */
  ghost predicate SpecAt(t: string, p: int)
  {
    0 <= p && p + 4 <= |t| && t[p..p + 4] == "Spec"
  }

  /** `Spec` occurs somewhere in `t`. */
  function ContainsSpec(t: string): bool
    decreases |t|
  {
    |t| >= 4 && (t[..4] == "Spec" || ContainsSpec(t[1..]))
  }

  /**
   A newline-free line is accepted when it is some text holding `Spec`,
   then one more character, then `scala` at its end.
   */
  function LineMatches(line: string): (accepted: bool)
  {
    |line| >= 10 && line[|line| - 5..] == "scala" && ContainsSpec(line[..|line| - 6])
  }

  /**
   The matcher: some line of `path` is accepted. A path of one line is
   selected exactly when that line is accepted, and nothing shorter than
   `Spec` plus one character plus `scala` is ever selected. What it
   means is stated in `IsSpecFileMeansPatternMatches`.
   */
  function IsSpecFile(path: string): (selected: bool)
    ensures '\n' !in path ==> (selected <==> LineMatches(path))
    ensures selected ==> |path| >= 10
    decreases |path|
  {
    var k := IndexOf(path, '\n');
    assert '\n' !in path ==> k == |path| && path[..k] == path by {
      if k < |path| {
        assert path[k] in path;
      }
    }
    LineMatches(path[..k]) || (k < |path| && IsSpecFile(path[k + 1..]))
  }

  lemma {:induction false} ContainsSpecIff(t: string)
    ensures ContainsSpec(t) <==> exists p :: SpecAt(t, p)
    decreases |t|
  {
    if |t| >= 4 {
      ContainsSpecIff(t[1..]);
      if ContainsSpec(t[1..]) {
        var p :| SpecAt(t[1..], p);
        assert t[p + 1..p + 5] == t[1..][p..p + 4];
        assert SpecAt(t, p + 1);
      }
      if t[..4] == "Spec" {
        assert SpecAt(t, 0);
      }
      if p :| SpecAt(t, p) {
        if p > 0 {
          assert t[1..][p - 1..p + 3] == t[p..p + 4];
          assert SpecAt(t[1..], p - 1);
        } else {
          assert t[..4] == t[p..p + 4];
        }
      }
    }
  }

  /** A match inside the text after the first newline is a match of the whole path, shifted. */
  lemma MatchShift(s: string, k: nat, p: int, e: int)
    requires k < |s| && s[k] == '\n' && 0 <= p
    ensures MatchAt(s[k + 1..], p, e) <==> MatchAt(s, p + k + 1, e + k + 1)
  {
    var rest := s[k + 1..];
    if 0 <= p && p + 10 <= e <= |rest| {
      assert rest[p..p + 4] == s[p + k + 1..p + k + 5];
      assert rest[e - 5..e] == s[e + k - 4..e + k + 1];
      assert forall i :: p <= i < e ==> rest[i] == s[i + k + 1];
      assert e < |rest| ==> rest[e] == s[e + k + 1];
    }
  }

  /** The parts of a line that `LineMatches` inspects, as slices of the whole string. */
  lemma LineParts(s: string, k: int)
    requires 6 <= k <= |s|
    ensures s[..k][..k - 6] == s[..k - 6]
    ensures s[..k][k - 5..] == s[k - 5..k]
  {
  }

  /** `Spec` occurs at `p` in a prefix exactly when it occurs there in the whole string and fits in the prefix. */
  lemma PrefixSpecAt(s: string, n: int, p: int)
    requires 0 <= n <= |s|
    ensures SpecAt(s[..n], p) <==> SpecAt(s, p) && p + 4 <= n
  {
    if 0 <= p && p + 4 <= n {
      assert s[..n][p..p + 4] == s[p..p + 4];
    }
  }

  /** A match found by the matcher is a match of the regular expression. */
  lemma {:induction false} IsSpecFileSound(s: string)
    requires IsSpecFile(s)
    ensures PatternMatches(s)
    decreases |s|
  {
    var k := IndexOf(s, '\n');
    if LineMatches(s[..k]) {
      LineParts(s, k);
      ContainsSpecIff(s[..k - 6]);
      var p :| SpecAt(s[..k - 6], p);
      PrefixSpecAt(s, k - 6, p);
      assert MatchAt(s, p, k);
    } else {
      var rest := s[k + 1..];
      IsSpecFileSound(rest);
      var p, e :| MatchAt(rest, p, e);
      MatchShift(s, k, p, e);
    }
  }

  /** A match that ends within the first line makes that line accepted. */
  lemma MatchOnFirstLine(s: string, p: int, e: int)
    requires MatchAt(s, p, e) && e <= IndexOf(s, '\n')
    ensures LineMatches(s[..IndexOf(s, '\n')])
  {
    var k := IndexOf(s, '\n');
    assert e == k;
    LineParts(s, k);
    PrefixSpecAt(s, k - 6, p);
    ContainsSpecIff(s[..k - 6]);
  }

  /** A match that ends after the first newline lies wholly after it. */
  lemma MatchOnLaterLine(s: string, p: int, e: int)
    requires MatchAt(s, p, e) && e > IndexOf(s, '\n')
    ensures IndexOf(s, '\n') < p
    ensures MatchAt(s[IndexOf(s, '\n') + 1..], p - IndexOf(s, '\n') - 1, e - IndexOf(s, '\n') - 1)
  {
    var k := IndexOf(s, '\n');
    assert s[k] == '\n';
    MatchShift(s, k, p - k - 1, e - k - 1);
  }

  /** Every match of the regular expression is found by the matcher. */
  lemma {:induction false} IsSpecFileComplete(s: string, p: int, e: int)
    requires MatchAt(s, p, e)
    ensures IsSpecFile(s)
    decreases |s|
  {
    var k := IndexOf(s, '\n');
    if e <= k {
      MatchOnFirstLine(s, p, e);
    } else {
      MatchOnLaterLine(s, p, e);
      IsSpecFileComplete(s[k + 1..], p - k - 1, e - k - 1);
    }
  }

  /** The matcher accepts exactly the strings in which the regular expression finds a match. */
  lemma IsSpecFileMeansPatternMatches(s: string)
    ensures IsSpecFile(s) <==> PatternMatches(s)
  {
    if IsSpecFile(s) {
      IsSpecFileSound(s);
    }
    if PatternMatches(s) {
      var p, e :| MatchAt(s, p, e);
      IsSpecFileComplete(s, p, e);
    }
  }

  /**
   For a path without newlines: it is selected iff it contains `Spec`,
   followed later by at least one further character and then `scala` at
   the very end.
   */
  lemma SelectedWithoutNewline(path: string)
    requires '\n' !in path
    ensures IsSpecFile(path) <==>
      && |path| >= 10
      && path[|path| - 5..] == "scala"
      && exists p :: SpecAt(path, p) && p + 10 <= |path|
  {
    IsSpecFileMeansPatternMatches(path);
    if IsSpecFile(path) {
      var p, e :| MatchAt(path, p, e);
      MatchWithoutNewline(path, p, e);
    } else {
      forall p | SpecAt(path, p) && p + 10 <= |path| && path[|path| - 5..] == "scala"
        ensures false
      {
        MatchFromSpec(path, p);
      }
    }
  }

  /** In a newline-free path every match ends at the end of the path. */
  lemma MatchWithoutNewline(path: string, p: int, e: int)
    requires '\n' !in path && MatchAt(path, p, e)
    ensures e == |path| && |path| >= 10 && path[|path| - 5..] == "scala"
    ensures SpecAt(path, p) && p + 10 <= |path|
  {
    assert forall i :: 0 <= i < |path| ==> path[i] != '\n' by {
      forall i | 0 <= i < |path| ensures path[i] != '\n' {
        assert path[i] in path;
      }
    }
  }

  /** In a newline-free path, `Spec` far enough before a final `scala` is a match. */
  lemma MatchFromSpec(path: string, p: int)
    requires '\n' !in path && SpecAt(path, p) && p + 10 <= |path| && path[|path| - 5..] == "scala"
    ensures MatchAt(path, p, |path|)
  {
    forall i | p <= i < |path| ensures path[i] != '\n' {
      assert path[i] in path;
    }
  }

  /** `FooSpec.scala` and `Spec.scala` are spec files. */
  lemma SelectedExamples(foo: string, bare: string)
    requires foo == "FooSpec.scala" && bare == "Spec.scala"
    ensures IsSpecFile(foo) && IsSpecFile(bare)
  {
    SelectedWithoutNewline(foo);
    assert SpecAt(foo, 3) && foo[|foo| - 5..] == "scala";
    SelectedWithoutNewline(bare);
    assert SpecAt(bare, 0) && bare[|bare| - 5..] == "scala";
  }

  /** `Foo.scala` lacks the token, and matching is case-sensitive, so `Foospec.scala` is rejected. */
  lemma RejectedExamples(plain: string, lower: string)
    requires plain == "Foo.scala" && lower == "Foospec.scala"
    ensures !IsSpecFile(plain) && !IsSpecFile(lower)
  {
    SelectedWithoutNewline(plain);
    SelectedWithoutNewline(lower);
    forall p | 0 <= p <= 3 ensures !SpecAt(lower, p) {
      assert lower[p] != 'S';
      assert lower[p..p + 4][0] == lower[p];
    }
  }

  /** `$` also matches before a newline, so a path whose first line is a spec name is selected. */
  lemma SelectedBeforeNewline(s: string)
    requires s == "FooSpec.scala\nREADME"
    ensures IsSpecFile(s)
  {
    assert s[3..7] == "Spec" && s[8..13] == "scala" && s[13] == '\n';
    assert MatchAt(s, 3, 13);
    IsSpecFileComplete(s, 3, 13);
  }

  /**
   `Specs#tests`: the enumerated paths the pattern accepts, in their
   enumeration order.
   */
  function Tests(enumerated: seq<string>): (selected: seq<string>)
    ensures |selected| <= |enumerated|
    ensures exists idx :: Picks(idx, selected, enumerated) && (forall i :: 0 <= i < |enumerated| ==> (i in idx <==> PatternMatches(enumerated[i])))
    ensures forall path :: path in selected <==> path in enumerated && PatternMatches(path)
  {
    FilterByPattern(enumerated);
    Filter(enumerated, IsSpecFile)
  }

  /** Filtering with the matcher is filtering with the regular expression's meaning. */
  lemma FilterByPattern(enumerated: seq<string>)
    ensures exists idx :: Picks(idx, Filter(enumerated, IsSpecFile), enumerated) && (forall i :: 0 <= i < |enumerated| ==> (i in idx <==> PatternMatches(enumerated[i])))
    ensures forall path :: path in Filter(enumerated, IsSpecFile) <==> path in enumerated && PatternMatches(path)
  {
    FilterPicksKept(enumerated, IsSpecFile);
    var idx :| Picks(idx, Filter(enumerated, IsSpecFile), enumerated) && ExactlyKept(idx, enumerated, IsSpecFile);
    forall i | 0 <= i < |enumerated| ensures i in idx <==> PatternMatches(enumerated[i]) {
      IsSpecFileMeansPatternMatches(enumerated[i]);
    }
    forall path ensures path in Filter(enumerated, IsSpecFile) <==> path in enumerated && PatternMatches(path) {
      FilterMembership(enumerated, IsSpecFile, path);
      IsSpecFileMeansPatternMatches(path);
    }
  }
}
