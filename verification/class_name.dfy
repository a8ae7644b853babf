/**
 Path-to-class-name resolution, the expression that `Specs#run` applies to
 each test path before launching it:

   test.sub(/.*?scala[\/\\]/, '').pathmap('%X').gsub("/", ".")

 Three steps: remove the text up to the first `scala/` or `scala\`; remove
 the extension of the last path component (Rake's `%X`, that is
 `chomp(File.extname(path))`); replace every `/` by `.`.
 */
module ClassName {
  import opened Strings

  datatype Option<T> = None | Some(value: T)

  // ---------------------------------------------------------------------------
  // Step 1: sub(/.*?scala[\/\\]/, '')
  // ---------------------------------------------------------------------------

  /** `scala/` or `scala\` starts at `j`. */
  predicate MarkerAt(s: string, j: int)
  {
    0 <= j && j + 6 <= |s| && s[j..j + 5] == "scala" && (s[j + 5] == '/' || s[j + 5] == '\\')
  }

  /** The first marker at or after `from`. */
  function FirstMarker(s: string, from: nat): (r: Option<nat>)
    requires from <= |s|
    ensures r.Some? ==> from <= r.value && MarkerAt(s, r.value)
    ensures forall j :: from <= j && (r.None? || j < r.value) ==> !MarkerAt(s, j)
    decreases |s| - from
  {
    if from + 6 > |s| then None
    else if MarkerAt(s, from) then Some(from)
    else FirstMarker(s, from + 1)
  }

  /**
   Ruby semantics of /.*?scala[\/\\]/: it matches exactly `s[i..e]` when that
   text is some newline-free characters followed by a marker.
   */
  ghost predicate SubMatch(s: string, i: int, e: int)
  {
    0 <= i <= e - 6 && MarkerAt(s, e - 6) && forall t :: i <= t < e - 6 ==> s[t] != '\n'
  }

  /** The match `sub` replaces: the leftmost start, and from there the shortest (lazy) extent. */
  ghost predicate FirstSubMatch(s: string, i: int, e: int)
  {
    && SubMatch(s, i, e)
    && (forall i', e' :: SubMatch(s, i', e') ==> i <= i')
    && (forall e' :: SubMatch(s, i, e') ==> e <= e')
  }

  /** `sub(/.*?scala[\/\\]/, '')`: cut out the match that starts at the first marker's line. */
  function StripSourceRoot(path: string): (rest: string)
    ensures rest == path || |rest| + 6 <= |path|
  {
    match FirstMarker(path, 0)
    case None => path
    case Some(j) => path[..AfterLast(path, '\n', j)] + path[j + 6..]
  }

  /** `StripSourceRoot` removes exactly the text that Ruby's `sub` replaces with the empty string. */
  lemma StripSourceRootIsSub(path: string)
    ensures (forall i, e :: !SubMatch(path, i, e)) ==> StripSourceRoot(path) == path
    ensures (exists i, e :: SubMatch(path, i, e)) ==> exists i, e :: FirstSubMatch(path, i, e)
    ensures forall i, e :: FirstSubMatch(path, i, e) ==> StripSourceRoot(path) == path[..i] + path[e..]
  {
    match FirstMarker(path, 0)
    case None =>
      forall i, e ensures !SubMatch(path, i, e) { }
    case Some(j) =>
      var start := AfterLast(path, '\n', j);
      FirstMarkerStartsMatch(path, j);
      forall i, e | FirstSubMatch(path, i, e) ensures i == start && e == j + 6 {
        FirstSubMatchUnique(path, i, e, start, j + 6);
      }
  }

  /** The first marker ends the match, which starts after the last newline before it. */
  lemma FirstMarkerStartsMatch(path: string, j: nat)
    requires FirstMarker(path, 0) == Some(j)
    ensures FirstSubMatch(path, AfterLast(path, '\n', j), j + 6)
  {
    var start := AfterLast(path, '\n', j);
    AfterLastFinds(path, '\n', j);
    assert SubMatch(path, start, j + 6);
    forall i', e' | SubMatch(path, i', e') ensures start <= i' {
      assert j <= e' - 6;
    }
    forall e' | SubMatch(path, start, e') ensures j + 6 <= e' {
      assert MarkerAt(path, e' - 6);
    }
  }

  /** There is at most one leftmost-shortest match. */
  lemma FirstSubMatchUnique(path: string, i: int, e: int, i2: int, e2: int)
    requires FirstSubMatch(path, i, e) && FirstSubMatch(path, i2, e2)
    ensures i == i2 && e == e2
  {
    assert SubMatch(path, i2, e2) && SubMatch(path, i, e);
  }

  /** `s[..k]` is the shortest prefix of `s` that ends in `scala/` or `scala\`. */
  ghost predicate ShortestRootPrefix(s: string, k: int)
  {
    6 <= k <= |s| && MarkerAt(s, k - 6) && forall j :: 0 <= j < k - 6 ==> !MarkerAt(s, j)
  }

  /**
   For a path without newlines the removed text is the shortest prefix
   ending in `scala/` or `scala\`.
   */
  lemma StripSourceRootPrefix(path: string, k: int)
    requires '\n' !in path && ShortestRootPrefix(path, k)
    ensures StripSourceRoot(path) == path[k..]
  {
    var j := FirstMarker(path, 0).value;
    assert j == k - 6;
    AfterLastFinds(path, '\n', j);
    assert AfterLast(path, '\n', j) == 0;
  }

  /** Without any `scala/` or `scala\` nothing is removed. */
  lemma StripSourceRootNoMarker(path: string)
    requires forall j :: !MarkerAt(path, j)
    ensures StripSourceRoot(path) == path
  {
  }

  // ---------------------------------------------------------------------------
  // Step 2: pathmap('%X'), Rake's `ext`: chomp(File.extname(path))
  // ---------------------------------------------------------------------------

  /**
   `j` is the dot that begins the extension: the last dot of the last path
   component, not its final character, with a character other than a dot
   before it in that component (leading dots never start an extension).
   */
  ghost predicate ExtensionDot(path: string, j: int)
  {
    && 0 <= j < |path| - 1
    && path[j] == '.'
    && (forall i :: j < i < |path| ==> path[i] != '.' && path[i] != '/')
    && (exists i :: 0 <= i < j && path[i] != '.' && forall t :: i <= t < j ==> path[t] != '/')
  }

  /** Where the extension of the last path component starts, or `|path|` when it has none. */
  function ExtensionStart(path: string): (j: nat)
    ensures j <= |path|
    ensures j < |path| ==> j + 1 < |path| && path[j] == '.'
  {
    var base := AfterLast(path, '/', |path|);
    var stem := SkipRun(path, '.', base);
    var afterDot := AfterLast(path, '.', |path|);
    AfterLastFinds(path, '.', |path|);
    if stem < afterDot < |path| then afterDot - 1 else |path|
  }

  /**
   `File.extname`: the extension of the last path component, dot included,
   or empty. A trailing `/` is not skipped here, so `a/b.scala/` has no
   extension, where Ruby would report `.scala`; `%X` strips nothing from
   such a path either way.
   */
  function Extname(path: string): (ext: string)
    ensures |ext| <= |path| && ext == path[|path| - |ext|..]
    ensures ext != [] ==> |ext| >= 2 && ext[0] == '.'
  {
    path[ExtensionStart(path)..]
  }

  /** When `Extname` finds an extension, it starts at an extension dot. */
  lemma ExtnameFindsDot(path: string, base: nat, stem: nat, afterDot: nat)
    requires base == AfterLast(path, '/', |path|)
    requires stem == SkipRun(path, '.', base)
    requires afterDot == AfterLast(path, '.', |path|)
    requires stem < afterDot < |path|
    ensures ExtensionDot(path, afterDot - 1)
  {
    AfterLastFinds(path, '/', |path|);
    AfterLastFinds(path, '.', |path|);
    SkipRunSkips(path, '.', base);
    var j := afterDot - 1;
    assert path[j] == '.' && path[stem] != '.';
    assert base <= stem < j;
    assert forall i :: j < i < |path| ==> path[i] != '.' && path[i] != '/';
    assert 0 <= stem < j && path[stem] != '.' && forall t :: stem <= t < j ==> path[t] != '/';
  }

  /** An extension dot is the last dot, and it lies past the component's leading dots. */
  lemma ExtensionDotIsLastDot(path: string, j: int, base: nat, stem: nat, afterDot: nat)
    requires base == AfterLast(path, '/', |path|)
    requires stem == SkipRun(path, '.', base)
    requires afterDot == AfterLast(path, '.', |path|)
    requires ExtensionDot(path, j)
    ensures afterDot == j + 1 && stem < afterDot < |path|
  {
    AfterLastFinds(path, '/', |path|);
    AfterLastFinds(path, '.', |path|);
    SkipRunSkips(path, '.', base);
    var i :| 0 <= i < j && path[i] != '.' && forall t :: i <= t < j ==> path[t] != '/';
    assert base <= i by {
      if base > 0 {
        assert path[base - 1] == '/';
      }
    }
  }

  /** `Extname` returns the text from the extension dot on, and is empty iff there is none. */
  lemma ExtnameIsFromExtensionDot(path: string)
    ensures Extname(path) != [] <==> exists j :: ExtensionDot(path, j)
    ensures forall j :: ExtensionDot(path, j) ==> Extname(path) == path[j..]
  {
    var base := AfterLast(path, '/', |path|);
    var stem := SkipRun(path, '.', base);
    var afterDot := AfterLast(path, '.', |path|);
    if stem < afterDot < |path| {
      ExtnameFindsDot(path, base, stem, afterDot);
    }
    forall j | ExtensionDot(path, j) ensures Extname(path) == path[j..] {
      ExtensionDotIsLastDot(path, j, base, stem, afterDot);
    }
  }

  /** Ruby's `chomp("")`: strips every trailing "\n" together with a "\r" just before it. */
  function ChompLineEnds(s: string): (r: string)
    ensures |r| <= |s| && r == s[..|r|]
    ensures r == [] || r[|r| - 1] != '\n'
    ensures forall i :: |r| <= i < |s| ==> s[i] == '\n' || s[i] == '\r'
    ensures forall i :: |r| <= i < |s| && s[i] == '\r' ==> i + 1 < |s| && s[i + 1] == '\n'
    ensures |r| < |s| && r != [] ==> !(r[|r| - 1] == '\r' && s[|r|] == '\n')
    decreases |s|
  {
    if |s| > 0 && s[|s| - 1] == '\n' then
      var n := if |s| > 1 && s[|s| - 2] == '\r' then |s| - 2 else |s| - 1;
      var r := ChompLineEnds(s[..n]);
      assert r == s[..n][..|r|] == s[..|r|];
      r
    else s
  }

  /**
   `pathmap('%X')`: `chomp(File.extname(path))`. With no extension the
   argument to `chomp` is empty, which strips trailing line ends.
   */
  function StripExtension(path: string): (stem: string)
    ensures |stem| <= |path| && stem == path[..|stem|]
    ensures Extname(path) != [] ==> stem + Extname(path) == path
  {
    var j := ExtensionStart(path);
    assert path[..j] + path[j..] == path;
    if j == |path| then ChompLineEnds(path) else path[..j]
  }

  /** Only the last component's extension is dropped; directory names keep their dots. */
  lemma StripExtensionAtDot(path: string, j: int)
    requires ExtensionDot(path, j)
    ensures StripExtension(path) == path[..j]
  {
    ExtnameIsFromExtensionDot(path);
  }

  /** A newline-free path without an extension is left as it is. */
  lemma StripExtensionNoDot(path: string)
    requires '\n' !in path && forall j :: !ExtensionDot(path, j)
    ensures StripExtension(path) == path
  {
    ExtnameIsFromExtensionDot(path);
  }

  // ---------------------------------------------------------------------------
  // Step 3: gsub("/", ".")
  // ---------------------------------------------------------------------------

  /** `gsub("/", ".")`: every `/` becomes `.`; every other character, backslash included, stays. */
  function Dotted(s: string): (r: string)
    ensures |r| == |s| && '/' !in r
    ensures forall i :: 0 <= i < |s| ==> r[i] == (if s[i] == '/' then '.' else s[i])
    decreases |s|
  {
    if s == [] then [] else [if s[0] == '/' then '.' else s[0]] + Dotted(s[1..])
  }

  /** The class name the Java runner is given for a test path. */
  function ResolveName(path: string): (name: string)
    ensures '/' !in name
  {
    Dotted(StripExtension(StripSourceRoot(path)))
  }

  /**
   For a newline-free path: the name is the text after the shortest prefix
   ending in `scala/` or `scala\`, up to that text's extension dot, with
   `/` turned into `.`.
   */
  lemma ResolveNameStructure(path: string, k: int, j: int)
    requires '\n' !in path
    requires ShortestRootPrefix(path, k) && ExtensionDot(path[k..], j)
    ensures ResolveName(path) == Dotted(path[k..k + j])
  {
    StripSourceRootPrefix(path, k);
    StripExtensionAtDot(path[k..], j);
    SliceOfSuffix(path, k, j);
    assert StripExtension(StripSourceRoot(path)) == path[k..k + j];
  }

  lemma SliceOfSuffix(s: string, k: int, j: int)
    requires 0 <= k <= k + j <= |s|
    ensures s[k..][..j] == s[k..k + j]
  {
  }

  /**
   The standard source layout, for any package directories `a`, `b` and class
   `c`: `src/spec/scala/a/b/c.scala` runs as `a.b.c` (so
   `src/spec/scala/a/b/CSpec.scala` runs as `a.b.CSpec`). Dots inside the
   directory names are kept.
   */
  lemma ResolveNameExample(a: string, b: string, c: string)
    requires '/' !in a && '/' !in b && '/' !in c
    requires '\n' !in a && '\n' !in b && '\n' !in c
    requires c != [] && '.' !in c
    ensures ResolveName("src/spec/scala/" + a + "/" + b + "/" + c + ".scala") == a + "." + b + "." + c
  {
    var rel := a + "/" + b + "/" + c;
    var path := "src/spec/scala/" + rel + ".scala";
    assert path == "src/spec/scala/" + a + "/" + b + "/" + c + ".scala";
    assert '\n' !in rel;
    RootThenRelative(path, "src/spec/scala/", rel);
    ClassFileDot(a + "/" + b + "/", c);
    ResolveNameStructure(path, 15, |rel|);
    DottedPackagePath(a, b, c);
  }

  /** `a/b/c` dots to `a.b.c` when the three parts hold no `/`. */
  lemma DottedPackagePath(a: string, b: string, c: string)
    requires '/' !in a && '/' !in b && '/' !in c
    ensures Dotted(a + "/" + b + "/" + c) == a + "." + b + "." + c
  {
    DottedPlain(a);
    DottedPlain(b);
    DottedPlain(c);
    DottedPointwise("/", ".");
    calc {
      Dotted(a + "/" + b + "/" + c);
      { DottedConcat(a + "/" + b + "/", c); }
      Dotted(a + "/" + b + "/") + c;
      { DottedConcat(a + "/" + b, "/"); }
      Dotted(a + "/" + b) + "." + c;
      { DottedConcat(a + "/", b); }
      Dotted(a + "/") + b + "." + c;
      { DottedConcat(a, "/"); }
      a + "." + b + "." + c;
    }
  }

  /** In `dir + c + ".scala"`, with `c` a plain non-empty file stem, the dot before `scala` is the extension dot. */
  lemma ClassFileDot(dir: string, c: string)
    requires '/' !in c && c != [] && '.' !in c
    ensures ExtensionDot(dir + c + ".scala", |dir| + |c|)
  {
    var rest := dir + c + ".scala";
    var j := |dir|;
    assert forall t :: j <= t < j + |c| ==> rest[t] == c[t - j];
    assert forall i :: j + |c| < i < |rest| ==> rest[i] != '.' && rest[i] != '/';
    assert 0 <= j < j + |c| && rest[j] != '.' && forall t :: j <= t < j + |c| ==> rest[t] != '/';
  }

  /**
   Backslash separators end the source root (`scala\`) but are not turned
   into dots: `src\spec\scala\a\b\CSpec.scala` runs as `a\b\CSpec`.
   */
  lemma ResolveNameKeepsBackslashes(rel: string)
    requires '/' !in rel && '\n' !in rel
    requires rel != [] && rel[0] != '.'
    ensures ResolveName("src\\spec\\scala\\" + rel + ".scala") == rel
  {
    var path := "src\\spec\\scala\\" + rel + ".scala";
    RootThenRelative(path, "src\\spec\\scala\\", rel);
    assert ExtensionDot(rel + ".scala", |rel|) by {
      var rest := rel + ".scala";
      assert forall i :: |rel| < i < |rest| ==> rest[i] != '.' && rest[i] != '/';
      assert 0 <= 0 < |rel| && rest[0] != '.' && forall t :: 0 <= t < |rel| ==> rest[t] != '/';
    }
    ResolveNameStructure(path, 15, |rel|);
    DottedPointwise(rel, rel);
  }

  /**
   A path made of a 15-character source root whose only marker ends it,
   then `rel`, then `.scala`: newline-free, with the root as its shortest
   marked prefix.
   */
  lemma RootThenRelative(path: string, root: string, rel: string)
    requires root == "src/spec/scala/" || root == "src\\spec\\scala\\"
    requires '\n' !in rel
    requires path == root + rel + ".scala"
    ensures '\n' !in path && ShortestRootPrefix(path, 15)
    ensures path[15..] == rel + ".scala" && path[15..15 + |rel|] == rel
  {
    var tail := rel + ".scala";
    assert path == root + tail;
    assert path[..15] == root && path[15..] == tail;
    assert path[15..15 + |rel|] == tail[..|rel|] == rel;
    assert '\n' !in root && '\n' !in ".scala";
    RootMarkers(root);
    forall j | 0 <= j <= 9 ensures MarkerAt(path, j) == MarkerAt(root, j) {
      MarkerAtPrefix(path, 15, j);
    }
  }

  /** The source roots `src/spec/scala/` and `src\spec\scala\` have their only marker at 9. */
  lemma RootMarkers(root: string)
    requires root == "src/spec/scala/" || root == "src\\spec\\scala\\"
    ensures MarkerAt(root, 9) && forall j :: 0 <= j < 9 ==> !MarkerAt(root, j)
  {
    assert root[9..14] == "scala";
    forall j | 0 <= j < 9 ensures !MarkerAt(root, j) {
      assert root[j..j + 5][0] == root[j];
      assert root[j..j + 5][1] == root[j + 1];
    }
  }

  /** A marker lies in a prefix exactly when it lies in the whole string and fits in the prefix. */
  lemma MarkerAtPrefix(s: string, n: int, j: int)
    requires 0 <= n <= |s|
    ensures MarkerAt(s[..n], j) <==> MarkerAt(s, j) && j + 6 <= n
  {
    if 0 <= j && j + 6 <= n {
      assert s[..n][j..j + 5] == s[j..j + 5];
    }
  }

  /** A string that agrees with `t` after the character-by-character replacement is its dotted form. */
  lemma DottedPointwise(t: string, u: string)
    requires |t| == |u|
    requires forall i :: 0 <= i < |t| ==> u[i] == (if t[i] == '/' then '.' else t[i])
    ensures Dotted(t) == u
  {
  }

  /** `gsub` works character by character, so it distributes over concatenation. */
  lemma DottedConcat(s: string, t: string)
    ensures Dotted(s + t) == Dotted(s) + Dotted(t)
  {
    var whole, parts := Dotted(s + t), Dotted(s) + Dotted(t);
    forall i | 0 <= i < |s| + |t| ensures whole[i] == parts[i] {
      if i < |s| {
        assert (s + t)[i] == s[i] && parts[i] == Dotted(s)[i];
      } else {
        assert (s + t)[i] == t[i - |s|] && parts[i] == Dotted(t)[i - |s|];
      }
    }
  }

  /** Text without `/` is left unchanged. */
  lemma DottedPlain(s: string)
    requires '/' !in s
    ensures Dotted(s) == s
  {
  }
}
