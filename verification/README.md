# Buildr Specs adapter, modelled in Dafny

Buildr's `Specs` test framework (`specs_bdd.rb`) selects the Scala spec
files of a project and runs each one through the Java launcher. This project
models its core:

- **Selection** (`Specs#tests`): the enumerated `.scala` paths are kept when
  the Ruby regular expression `/.*Spec.*.scala$/` finds a match in them. The
  regular expression is modelled with Ruby's semantics. Matching is
  unanchored. `.` matches anything but a newline. `$` matches at the end of
  the string and also before any newline. Matching is case-sensitive. The
  executable matcher `SpecPattern.IsSpecFile` is proved equal to the
  declarative `SpecPattern.PatternMatches`.
- **Class-name resolution**: `test.sub(/.*?scala[\/\\]/, '').pathmap('%X').gsub("/", ".")`
  has three steps. The first removes the text up to the first `scala/` or
  `scala\` on the line. The second is Rake's `%X`, which is
  `chomp(File.extname(path))`. The third turns `/` into `.`.
- **Options**: the configured test options are merged over
  `{ :nostacktrace => false }` and restricted to the `OPTIONS` whitelist
  `[:properties, :java_args]`. They then become the stack-trace switch and
  the command options. The classpath in the command options is the
  `dependencies` argument. As written, the whitelist drops `:nostacktrace`
  (see Findings). The launches in the model use the switch as written. The
  corrected switch is defined beside it, with its property proved.
- **Run** (`Specs#run`): an `inject` fold over the tests. Each test gets
  one launch. A test is appended to `passed` when its launch returns. A
  launch that raises a `StandardError` leaves `passed` unchanged, and the
  fold goes on to the next test. `SpecsRun.Run` is a method with a loop. It is proved equal to
  `Filtering.Filter` with the predicate "the launch succeeds", and the
  properties of `Filter` are proved once, in `Filtering`.

Modules: `Strings` (character searches), `Filtering` (order-preserving
filters and subsequences), `SpecPattern`, `ClassName`, `RunOptions` and
`SpecsRun`.

The Java launch (`Java::Commands.java`) is the parameter `java` of
`SpecsRun.Run`. It maps an `Invocation` (class names, stack-trace switch,
command options) to an `Outcome`: `Pass`, or `Fail` with the message of the
exception. The file-system enumeration of `Specs#tests` is its argument
`enumerated`.

`Specs#tests` enumerates absolute paths (`path_to`), and the model takes
them as they come. The pattern and the `sub` step therefore also see the
parent directories of the project. `Spec` in a parent directory's name
selects every `.scala` file below it. A parent directory whose name ends in
`scala` is cut off in place of the source root, so
`/w/myscala/p/src/spec/scala/a/FooSpec.scala` resolves to
`p.src.spec.scala.a.FooSpec`.

## Model

| member | source | states |
|---|---|---|
| `SpecPattern.IsSpecFileMeansPatternMatches` | specs_bdd.rb:26 | The matcher accepts a path exactly when `/.*Spec.*.scala$/` matches somewhere in it, with Ruby's `.` and `$` semantics (both directions). |
| `SpecPattern.IsSpecFile` | specs_bdd.rb:26 | On a path without a newline, the path is selected iff its single line matches. A selected path has at least 10 characters. `IsSpecFileMeansPatternMatches` states what selection means on every path. |
| `SpecPattern.IsSpecFileSound` | specs_bdd.rb:26 | Whatever the line-by-line matcher accepts has a regular-expression match. |
| `SpecPattern.IsSpecFileComplete` | specs_bdd.rb:26 | Every regular-expression match is found by the matcher. |
| `SpecPattern.ContainsSpecIff` | specs_bdd.rb:26 | The `Spec` search succeeds exactly when `Spec` occurs at some position. |
| `SpecPattern.SelectedWithoutNewline` | specs_bdd.rb:26 | A path without a newline is selected iff it ends in `scala` and holds `Spec` at least 10 characters before its end (the unescaped `.` needs one character between them). |
| `SpecPattern.SelectedExamples` | specs_bdd.rb:26 | `FooSpec.scala` and `Spec.scala` are selected. |
| `SpecPattern.RejectedExamples` | specs_bdd.rb:26 | `Foo.scala` and `Foospec.scala` are rejected; matching is case-sensitive. |
| `SpecPattern.SelectedBeforeNewline` | specs_bdd.rb:26 | `$` matches before a newline, so `FooSpec.scala\nREADME` is selected. |
| `SpecPattern.Tests` | specs_bdd.rb:34-37 | The selected paths are an order-preserving subsequence of the enumerated ones, taken at exactly the positions whose path the pattern matches. A path is selected iff it was enumerated and matches. |
| `SpecPattern.FilterByPattern` | specs_bdd.rb:35-36 | Filtering with the matcher keeps exactly the positions where the regular expression matches. |
| `Filtering.Filter` | specs_bdd.rb:48-58 | The filtered sequence is never longer than its input. |
| `Filtering.FilterThree` | specs_bdd.rb:48-58 | Filtering three elements keeps each one exactly when it is kept, in order. |
| `Filtering.FilterPicksKept` | specs_bdd.rb:48-58 | The result is the input's elements at exactly the kept positions, in increasing position order. |
| `Filtering.FilterIsSubsequence` | specs_bdd.rb:48-58 | The result is an order-preserving subsequence of the input. |
| `Filtering.FilterCount` | specs_bdd.rb:48-58 | A kept value occurs as often as in the input; a dropped value does not occur at all. |
| `Filtering.FilterMembership` | specs_bdd.rb:48-58 | A value is in the result iff it is in the input and kept. |
| `Filtering.SubsequenceNoLonger` | specs_bdd.rb:48-58 | A subsequence is never longer than its source. |
| `Filtering.SubsequenceTransitive` | specs_bdd.rb:34-58 | A subsequence of a subsequence is a subsequence. |
| `ClassName.FirstMarker` | specs_bdd.rb:49 | It finds the first `scala/` or `scala\` at or after a position, or reports that there is none. |
| `ClassName.StripSourceRoot` | specs_bdd.rb:49 | The `sub` step either leaves the path unchanged or removes at least the six characters of a `scala/` or `scala\` marker. `StripSourceRootIsSub` states which text it removes. |
| `ClassName.StripSourceRootIsSub` | specs_bdd.rb:49 | `sub(/.*?scala[\/\\]/, '')` removes the leftmost, then shortest, match. With no match the path is unchanged. |
| `ClassName.StripSourceRootPrefix` | specs_bdd.rb:49 | On a newline-free path, it removes the shortest prefix ending in `scala/` or `scala\`. |
| `ClassName.StripSourceRootNoMarker` | specs_bdd.rb:49 | Without `scala/` or `scala\` the path is left as it is. |
| `ClassName.ExtnameIsFromExtensionDot` | specs_bdd.rb:49 | `File.extname` is non-empty iff the last component has an extension dot. In that case it is the text from that dot on. |
| `ClassName.ExtnameFindsDot` | specs_bdd.rb:49 | The dot `Extname` finds meets the definition of an extension dot. |
| `ClassName.ExtensionDotIsLastDot` | specs_bdd.rb:49 | An extension dot is the one `Extname` finds. |
| `ClassName.ExtensionStart` | specs_bdd.rb:49 | The extension starts at a `.` followed by at least one character, or there is none and the position is the length. |
| `ClassName.Extname` | specs_bdd.rb:49 | `File.extname` is a suffix of the path. When non-empty it starts with `.` and has at least one more character. `ExtnameIsFromExtensionDot` states which suffix it is. |
| `ClassName.ChompLineEnds` | specs_bdd.rb:49 | `chomp("")` returns a prefix that does not end in `\n`. Everything it strips is `\n` or `\r`, and every stripped `\r` is followed by `\n`. It never stops between a `\r` and the `\n` that follows it. |
| `ClassName.StripExtensionAtDot` | specs_bdd.rb:49 | `pathmap('%X')` drops only the last component's extension; directory dots stay. |
| `ClassName.StripExtensionNoDot` | specs_bdd.rb:49 | A newline-free path without an extension is unchanged by `%X`. |
| `ClassName.StripExtension` | specs_bdd.rb:49 | `pathmap('%X')` returns a prefix of the path. When the path has an extension, the prefix followed by `File.extname` gives back the whole path. |
| `ClassName.Dotted` | specs_bdd.rb:49 | `gsub("/", ".")` keeps the length and leaves no `/`. It changes each `/` to `.` and keeps every other character, backslash included. |
| `ClassName.DottedConcat` | specs_bdd.rb:49 | `gsub("/", ".")` distributes over concatenation. |
| `ClassName.DottedPlain` | specs_bdd.rb:49 | Text without `/` is left unchanged. |
| `ClassName.DottedPackagePath` | specs_bdd.rb:49 | `a/b/c` becomes `a.b.c` when the segments hold no `/`. |
| `ClassName.ResolveName` | specs_bdd.rb:49 | A derived class name never contains `/`. |
| `ClassName.ResolveNameStructure` | specs_bdd.rb:49 | On a newline-free path, the name is the text after the source root, up to its extension dot, with `/` turned into `.`. |
| `ClassName.ClassFileDot` | specs_bdd.rb:49 | In `dir + c + ".scala"`, the dot before `scala` is the extension dot. |
| `ClassName.RootThenRelative` | specs_bdd.rb:49 | `src\spec\scala\` is the shortest source-root prefix of a path built on it. |
| `ClassName.ResolveNameExample` | specs_bdd.rb:49 | `src/spec/scala/a/b/C.scala` resolves to `a.b.C` for any segments without `/` or newline, the last one non-empty and without `.`; for example `src/spec/scala/a/b/CSpec.scala` to `a.b.CSpec`. |
| `ClassName.ResolveNameKeepsBackslashes` | specs_bdd.rb:49 | After a `scala\` source root, backslashes in the rest are kept in the name. |
| `RunOptions.Merge` | specs_bdd.rb:40 | `Hash#merge` holds the keys of both hashes, and the second hash wins on shared keys. |
| `RunOptions.Only` | specs_bdd.rb:40 | `Hash#only` keeps exactly the listed keys that are present, with their values. |
| `RunOptions.EffectiveOptions` | specs_bdd.rb:27-40 | The filtered options hold exactly the configured `:properties` and `:java_args`, with their values. `:nostacktrace` is never among them. |
| `RunOptions.StackTraceSwitch` | specs_bdd.rb:40-42 | The switch as written is `""` or `-ns`, and `-ns` only when `:nostacktrace` survives the whitelist. `StackTraceSwitchAlwaysEmpty` shows that it never does. |
| `RunOptions.IntendedStackTraceSwitch` | specs_bdd.rb:14 | The corrected switch is `""` or `-ns`, and `-ns` only when the project configures `:nostacktrace`. `IntendedStackTraceSwitchHonoursOption` gives both directions. |
| `RunOptions.StackTraceSwitchAlwaysEmpty` | specs_bdd.rb:40-42 | As written, the stack-trace switch is `""` whatever is configured. |
| `RunOptions.NoStackTraceIgnored` | specs_bdd.rb:14 | A project configuring `:nostacktrace => true` still gets an empty switch. |
| `RunOptions.IntendedStackTraceSwitchHonoursOption` | specs_bdd.rb:14 | With `:nostacktrace` whitelisted, the switch is `-ns` exactly when the configured value is truthy. When it is unset, the default `false` gives `""`. |
| `RunOptions.CommandOptionsFor` | specs_bdd.rb:44-46 | The command options carry the configured `:properties` and `:java_args` (or `nil`), and `dependencies` unchanged as the classpath. |
| `SpecsRun.Run` | specs_bdd.rb:48-58 | The returned tests are exactly those whose launch succeeded, in their original order, as an order-preserving subsequence of the input. A test is in the result iff it was given and its launch passed. |
| `SpecsRun.PassedCharacterised` | specs_bdd.rb:48-58 | The specification of `Run`, stated by position and by membership. |
| `SpecsRun.InvocationFor` | specs_bdd.rb:44-51 | Every launch gets one class name with no `/`. Its stack-trace switch is `""`, as written (see Findings). It gets the configured `:properties` and `:java_args`, with `dependencies` as the classpath. |
| `SpecsRun.SecondOfThreeFails` | specs_bdd.rb:50-57 | For three tests where the second launch fails, the result is the first and the third: one failure does not stop the run. |
| `SpecsRun.RunOfTestsWithinEnumeration` | specs_bdd.rb:34-58 | Running the selected tests returns an order-preserving subsequence of the enumerated paths, never longer. |
| `Strings.IndexOf` | specs_bdd.rb:26 | It returns the first occurrence of a character, or the length when there is none. |
| `Strings.AfterLastFinds` | specs_bdd.rb:49 | `AfterLast` returns the position just after the last occurrence before a bound, or 0. |
| `Strings.SkipRunSkips` | specs_bdd.rb:49 | `SkipRun` returns the first position at or after a start that does not hold the character. |

## Left out

- The file-system enumeration in `Specs#tests` (`Dir[...]` over `path_to(:source, bdd_dir, lang, "**/*.scala")`) is I/O. It is the argument `enumerated`. Its `dependencies` argument is unused in the source, so it is not modelled.
- `Specs.applies_to?` is left out. It is a file-system glob that only decides whether the framework is chosen.
- `REQUIRES`, the registration `Buildr::TestFramework << Buildr::Specs`, `self.lang` and the `TestFramework::JavaBDD` plumbing are configuration, not behaviour.
- `Java::Commands.java` runs a JVM. It is the pure parameter `java`, so the model assumes that one invocation always has the same outcome. Launches that differ from run to run are not modelled.
- SpecsRun.Run: the outcome `Fail` stands for a `StandardError` only, which is what the bare `rescue => e` catches. Any other exception from the launch, such as `Interrupt`, `SystemExit` or `NotImplementedError`, leaves the `inject` and aborts the whole run in the source. The model has no outcome for that.
- `print e.message` writes to the console. The message is kept in `Outcome.Fail`, but the output is not modelled.
- Option keys are Ruby symbols and are modelled by their names as strings. A string key that spells the same name is not distinguished from the symbol.
- `File.extname` follows the Ruby versions in which a name ending in a dot has no extension. Later versions return `"."` for such a name.
- `File::ALT_SEPARATOR` on Windows is not modelled: `File.extname` treats only `/` as a separator. The `sub` step's `[\/\\]` is modelled in full.
- Extname: a path ending in `/` has no extension in the model, where Ruby's `File.extname` ignores the trailing `/` (`a/b.scala/` gives `.scala`). `%X` leaves such a path unchanged either way, because `pathmap` applies `chomp` to the whole path and it does not end in the extension. Enumerated spec files never end in `/`.
- Ruby strings are modelled as sequences of characters. Encodings and invalid byte sequences are not modelled.

## Findings

| source | as written | input that shows it | evidently intended | confidence | as-written member | corrected member |
|---|---|---|---|---|---|---|
| specs_bdd.rb:40-42 | `.only(*OPTIONS)` with `OPTIONS = [:properties, :java_args]` drops `:nostacktrace` before line 42 reads it. The switch is therefore always `""`. | A project whose test options are `{ :nostacktrace => true }` still gets `""`, not `"-ns"`. | The documented option (line 14) should reach the switch, so `:nostacktrace` belongs in the whitelist. | not executed | `RunOptions.StackTraceSwitchAlwaysEmpty` | `RunOptions.IntendedStackTraceSwitchHonoursOption` |

`RunOptions.StackTraceSwitch` is the switch as written, and
`RunOptions.NoStackTraceIgnored` exhibits the concrete input.
`SpecsRun.Run` launches with this switch as written, so every launch gets
`""` (`SpecsRun.InvocationFor`). The corrected definition is
`RunOptions.IntendedStackTraceSwitch`.
