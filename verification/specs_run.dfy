/**
 `Specs#run`: for each test, in order, derive its class name, launch the
 Java runner on it, and keep the test when the launch does not raise. A
 launch that raises a `StandardError` is reported and the run moves on to
 the next test; `Fail` stands for that case only.

 The Java launch is the parameter `java`, which maps the invocation (class
 names, stack-trace switch, command options) to its outcome.
 */
module SpecsRun {
  import opened Filtering
  import opened SpecPattern
  import opened ClassName
  import opened RunOptions

  /** What one launch of the runner returns: success, or the message of the error it raised. */
  datatype Outcome = Pass | Fail(message: string)

  /** The arguments of one `Java::Commands.java` call. */
  datatype Invocation = Invocation(classNames: seq<string>, stackTraceSwitch: string, options: CommandOptions)

  /**
   The invocation `run` makes for `test`: one class name without `/`, the
   stack-trace switch as written (always empty, see
   `StackTraceSwitchAlwaysEmpty`), the configured `:properties` and
   `:java_args`, and the dependencies as the classpath.
   */
  function InvocationFor(test: string, configured: Options, dependencies: seq<string>): (inv: Invocation)
    ensures |inv.classNames| == 1 && '/' !in inv.classNames[0]
    ensures inv.stackTraceSwitch == ""
    ensures inv.options.properties == Lookup(configured, Properties)
    ensures inv.options.javaArgs == Lookup(configured, JavaArgs)
    ensures inv.options.classpath == dependencies
  {
    StackTraceSwitchAlwaysEmpty(configured);
    Invocation([ResolveName(test)], StackTraceSwitch(configured), CommandOptionsFor(configured, dependencies))
  }

  /** Whether the runner accepts `test`. */
  function Passes(configured: Options, dependencies: seq<string>, java: Invocation -> Outcome): (keep: string -> bool)
  {
    test => java(InvocationFor(test, configured, dependencies)).Pass?
  }

  /**
   The tests that passed, in their original order: exactly those whose
   launch succeeded, each failure leaving the result unchanged.
   */
  method Run(configured: Options, tests: seq<string>, dependencies: seq<string>, java: Invocation -> Outcome)
    returns (passed: seq<string>)
    ensures passed == Filter(tests, Passes(configured, dependencies, java))
    ensures exists idx :: Picks(idx, passed, tests) && (forall i :: 0 <= i < |tests| ==> (i in idx <==> java(InvocationFor(tests[i], configured, dependencies)).Pass?))
    ensures forall t :: t in passed <==> t in tests && java(InvocationFor(t, configured, dependencies)).Pass?
  {
    var nostacktrace := StackTraceSwitch(configured);
    var cmdOptions := CommandOptionsFor(configured, dependencies);
    ghost var keep := Passes(configured, dependencies, java);
    passed := [];
    for i := 0 to |tests|
      invariant passed == Filter(tests[..i], keep)
    {
      var test := tests[i];
      var name := ResolveName(test);
      var outcome := java(Invocation([name], nostacktrace, cmdOptions));
      LaunchDecides(test, configured, dependencies, java, name, nostacktrace, cmdOptions);
      FilterPrefixStep(tests, i, keep);
      match outcome {
        case Fail(_) =>
        case Pass =>
          passed := passed + [test];
      }
    }
    assert tests[..|tests|] == tests;
    PassedCharacterised(tests, configured, dependencies, java);
  }

  /** `Passes` applied to one test is the outcome of its invocation. */
  lemma PassesApplied(test: string, configured: Options, dependencies: seq<string>, java: Invocation -> Outcome)
    ensures Passes(configured, dependencies, java)(test) == java(InvocationFor(test, configured, dependencies)).Pass?
  {
  }

  /** The launch `Run` makes for `test` is the one `Passes` consults. */
  lemma LaunchDecides(test: string, configured: Options, dependencies: seq<string>, java: Invocation -> Outcome,
                      name: string, nostacktrace: string, cmdOptions: CommandOptions)
    requires name == ResolveName(test)
    requires nostacktrace == StackTraceSwitch(configured)
    requires cmdOptions == CommandOptionsFor(configured, dependencies)
    ensures Passes(configured, dependencies, java)(test) == java(Invocation([name], nostacktrace, cmdOptions)).Pass?
  {
    assert Invocation([name], nostacktrace, cmdOptions) == InvocationFor(test, configured, dependencies);
  }

  /** The specification of `Run`, stated positionally and by membership. */
  lemma PassedCharacterised(tests: seq<string>, configured: Options, dependencies: seq<string>, java: Invocation -> Outcome)
    ensures exists idx :: Picks(idx, Filter(tests, Passes(configured, dependencies, java)), tests) && (forall i :: 0 <= i < |tests| ==> (i in idx <==> java(InvocationFor(tests[i], configured, dependencies)).Pass?))
    ensures forall t :: t in Filter(tests, Passes(configured, dependencies, java)) <==> t in tests && java(InvocationFor(t, configured, dependencies)).Pass?
  {
    var keep := Passes(configured, dependencies, java);
    FilterPicksKept(tests, keep);
    var idx :| Picks(idx, Filter(tests, keep), tests) && ExactlyKept(idx, tests, keep);
    forall i | 0 <= i < |tests| ensures i in idx <==> java(InvocationFor(tests[i], configured, dependencies)).Pass? {
      PassesApplied(tests[i], configured, dependencies, java);
    }
    forall t ensures t in Filter(tests, keep) <==> t in tests && java(InvocationFor(t, configured, dependencies)).Pass? {
      FilterMembership(tests, keep, t);
      PassesApplied(t, configured, dependencies, java);
    }
  }

  /** Three tests of which only the second fails: the result is the first and the third, in that order. */
  lemma SecondOfThreeFails(a: string, b: string, c: string, configured: Options, dependencies: seq<string>, java: Invocation -> Outcome)
    requires java(InvocationFor(a, configured, dependencies)).Pass?
    requires java(InvocationFor(b, configured, dependencies)).Fail?
    requires java(InvocationFor(c, configured, dependencies)).Pass?
    ensures Filter([a, b, c], Passes(configured, dependencies, java)) == [a, c]
  {
    var keep := Passes(configured, dependencies, java);
    PassesApplied(a, configured, dependencies, java);
    PassesApplied(b, configured, dependencies, java);
    PassesApplied(c, configured, dependencies, java);
    FilterDropsSecond(a, b, c, keep);
  }

  /**
   From enumeration to result: what `run` returns for the selected tests is
   an order-preserving subsequence of the enumerated paths, so never longer.
   */
  lemma RunOfTestsWithinEnumeration(enumerated: seq<string>, configured: Options, dependencies: seq<string>, java: Invocation -> Outcome)
    ensures IsSubsequence(Filter(Tests(enumerated), Passes(configured, dependencies, java)), enumerated)
    ensures |Filter(Tests(enumerated), Passes(configured, dependencies, java))| <= |enumerated|
  {
    var selected := Tests(enumerated);
    var passed := Filter(selected, Passes(configured, dependencies, java));
    FilterIsSubsequence(selected, Passes(configured, dependencies, java));
    assert IsSubsequence(selected, enumerated);
    SubsequenceTransitive(passed, selected, enumerated);
    SubsequenceNoLonger(passed, enumerated);
  }
}
