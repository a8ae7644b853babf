/**
 The options `Specs#run` forwards to the Java runner. The project's test
 options (a Ruby hash keyed by symbols) are merged over the default
 `{ :nostacktrace => false }`, restricted to the `OPTIONS` whitelist
 `[:properties, :java_args]`, and turned into a stack-trace switch and a
 command-options hash whose classpath is the `dependencies` argument.
 */
module RunOptions {

  /** A Ruby value as it can appear among a project's test options. */
  datatype Value =
    | Nil
    | Flag(on: bool)
    | Str(text: string)
    | Array(elements: seq<Value>)
    | Hash(entries: map<string, Value>)

  /** Ruby truthiness: everything except `nil` and `false`. */
  predicate Truthy(v: Value)
  {
    !(v.Nil? || v == Flag(false))
  }

  /** An options hash; each key is the name of a Ruby symbol. */
  type Options = map<string, Value>

  const NoStackTrace: string := "nostacktrace"
  const Properties: string := "properties"
  const JavaArgs: string := "java_args"

  /** `OPTIONS`: the keys forwarded to the runner. */
  const Whitelist: seq<string> := [Properties, JavaArgs]

  /** The defaults `run` merges the configured options over. */
  const Defaults: Options := map[NoStackTrace := Flag(false)]

  /** `Hash#[]`: the value under `key`, or `nil`. */
  function Lookup(m: Options, key: string): (v: Value)
    ensures key !in m ==> v.Nil?
    ensures key in m ==> v == m[key]
  {
    if key in m then m[key] else Nil
  }

  /** `Hash#merge`: every key of either hash; on a shared key the second hash wins. */
  function Merge(base: Options, over: Options): (m: Options)
    ensures forall k :: k in m <==> k in base || k in over
    ensures forall k :: k in over ==> m[k] == over[k]
    ensures forall k :: k in base && k !in over ==> m[k] == base[k]
  {
    base + over
  }

  /** `Hash#only`: the entries whose key is listed. */
  function Only(m: Options, keys: seq<string>): (r: Options)
    ensures forall k :: k in r <==> k in m && k in keys
    ensures forall k :: k in r ==> r[k] == m[k]
  {
    map k | k in m && k in keys :: m[k]
  }

  /** `{ :nostacktrace => false }.merge(options).only(*OPTIONS)` */
  function EffectiveOptions(configured: Options): (options: Options)
    ensures forall k :: k in options <==> k in configured && (k == Properties || k == JavaArgs)
    ensures forall k :: k in options ==> options[k] == configured[k]
    ensures NoStackTrace !in options
  {
    Only(Merge(Defaults, configured), Whitelist)
  }

  /**
   The switch passed to the runner: `"-ns"` when the filtered options hold a
   truthy `:nostacktrace`, and `""` otherwise. It can be `"-ns"` only when the
   whitelist keeps that key (see `StackTraceSwitchAlwaysEmpty`).
   */
  function StackTraceSwitch(configured: Options): (switch: string)
    ensures switch == "" || switch == "-ns"
    ensures switch == "-ns" ==> NoStackTrace in EffectiveOptions(configured)
  {
    if Truthy(Lookup(EffectiveOptions(configured), NoStackTrace)) then "-ns" else ""
  }

  /**
   As written, the whitelist removes `:nostacktrace` before it is read, so
   the switch is empty whatever the project configures.
   */
  lemma StackTraceSwitchAlwaysEmpty(configured: Options)
    ensures StackTraceSwitch(configured) == ""
  {
  }

  /** A project that asks for `:nostacktrace => true` still gets stack traces. */
  lemma NoStackTraceIgnored(configured: Options)
    requires configured == map[NoStackTrace := Flag(true)]
    ensures Truthy(Lookup(configured, NoStackTrace)) && StackTraceSwitch(configured) == ""
  {
  }

  /** The whitelist the documented `:nostacktrace` option needs. */
  const IntendedWhitelist: seq<string> := [NoStackTrace, Properties, JavaArgs]

  /** The corrected switch: the whitelist keeps `:nostacktrace`, so a configured value reaches it. */
  function IntendedStackTraceSwitch(configured: Options): (switch: string)
    ensures switch == "" || switch == "-ns"
    ensures switch == "-ns" ==> NoStackTrace in configured
  {
    var options := Only(Merge(Defaults, configured), IntendedWhitelist);
    if Truthy(Lookup(options, NoStackTrace)) then "-ns" else ""
  }

  /** With the corrected whitelist, `-ns` is passed exactly when the project sets a truthy `:nostacktrace`; unset means the default `false`. */
  lemma IntendedStackTraceSwitchHonoursOption(configured: Options)
    ensures IntendedStackTraceSwitch(configured) == (if Truthy(Lookup(configured, NoStackTrace)) then "-ns" else "")
    ensures NoStackTrace !in configured ==> IntendedStackTraceSwitch(configured) == ""
  {
    var merged := Merge(Defaults, configured);
    assert Lookup(merged, NoStackTrace) == (if NoStackTrace in configured then configured[NoStackTrace] else Flag(false));
  }

  /** The command-options hash: `:properties`, `:java_args` and `:classpath`, nothing else. */
  datatype CommandOptions = CommandOptions(properties: Value, javaArgs: Value, classpath: seq<string>)

  /**
   `cmd_options`: the configured `:properties` and `:java_args` (or `nil`)
   and the dependencies as the classpath, unmodified.
   */
  function CommandOptionsFor(configured: Options, dependencies: seq<string>): (cmd: CommandOptions)
    ensures cmd.properties == Lookup(configured, Properties)
    ensures cmd.javaArgs == Lookup(configured, JavaArgs)
    ensures cmd.classpath == dependencies
  {
    var options := EffectiveOptions(configured);
    CommandOptions(Lookup(options, Properties), Lookup(options, JavaArgs), dependencies)
  }
}
