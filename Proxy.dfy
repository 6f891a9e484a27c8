/**
 * What one registered npm method does when it is called: the command line it
 * composes from the command, the caller's parameters and the instance's
 * default options; the options it hands to the shell; and how the shell's
 * exit code and output become a return value, a thrown error or a callback.
 */
module Proxy {
  import opened Wrappers
  import opened Text

  /** A JavaScript value an option may hold, as far as the proxy looks at it. */
  datatype Value = Undefined | Bool(b: bool) | Str(s: string) | Num(n: int)

  /**
   * The instance's default configuration. A string flag that is empty stands
   * for an absent or falsy one; `silent` is `None` when the key is absent
   * (and `Some(Undefined)` when it is present with an undefined value);
   * `exec` is empty when absent.
   */
  datatype Options = Options(
    username: string,
    password: string,
    registry: string,
    userconfig: string,
    silent: Option<Value>,
    exec: map<string, Value>)

  /** `{}`, what the constructor substitutes for missing options. */
  const NoOptions := Options("", "", "", "", None, map[])

  /** The first argument of a proxied call, classified by its `typeof`. */
  datatype Arg = NoParams | Params(text: string) | Callback | OtherValue

  /** The flags appended to every command, after all the others. */
  const DefaultFlags := "--always-auth --no-strict-ssl"

  /** The caller's text, when the first argument is a string. */
  function ParamText(params: Arg): string {
    if params.Params? then params.text else ""
  }

  /** One optional flag: nothing when the value is falsy, else the flag, its value and a space. */
  function Flag(name: string, value: string): (r: string)
    requires name != [] && name[0] == '-'
    ensures value == "" ==> r == ""
    ensures value != "" ==> r != [] && r[0] == '-' && r[|r| - 1] == ' '
  {
    if value == "" then "" else name + value + " "
  }

  /**
   * The optional flags, in the fixed order username, password, registry,
   * userconfig. The userconfig value follows its flag name with no space.
   * The text is empty exactly when no option is set, and otherwise is a
   * sequence of flags starting with `-` and ending in a space.
   */
  function FlagText(o: Options): (r: string)
    ensures r == [] <==> o.username == "" && o.password == "" && o.registry == "" && o.userconfig == ""
    ensures r != [] ==> r[0] == '-' && r[|r| - 1] == ' '
  {
    Flag("--username ", o.username) + Flag("--password ", o.password)
      + Flag("--registry ", o.registry) + Flag("--userconfig", o.userconfig)
  }

  /** The binary, the command and the caller's text, with whitespace trimmed from both ends. */
  function Base(binary: string, cmd: string, params: Arg): (b: string)
    ensures Trimmed(b)
  {
    Trim(binary + " " + cmd + " " + ParamText(params))
  }

  /**
   * The command line that is executed: the trimmed base, a space, the
   * optional flags, and the default flags last. It carries no whitespace at
   * its ends and always finishes with the default flags.
   */
  function CommandLine(binary: string, cmd: string, params: Arg, o: Options): (r: string)
    ensures Trimmed(r)
    ensures |r| >= |DefaultFlags| && r[|r| - |DefaultFlags|..] == DefaultFlags
  {
    var b := Base(binary, cmd, params);
    var head := (if b == "" then "" else b + " ") + FlagText(o);
    LineShape(head);
    head + DefaultFlags
  }

  lemma DefaultFlagsShape()
    ensures |DefaultFlags| > 0 && DefaultFlags[0] == '-' && DefaultFlags[|DefaultFlags| - 1] == 'l'
  {
  }

  /** Whatever precedes the default flags, the line ends with them and starts with no space. */
  lemma LineShape(head: string)
    requires head == [] || !IsSpace(head[0])
    ensures var r := head + DefaultFlags;
      Trimmed(r) && |r| >= |DefaultFlags| && r[|r| - |DefaultFlags|..] == DefaultFlags
  {
    DefaultFlagsShape();
    var r := head + DefaultFlags;
    assert r[|r| - 1] == DefaultFlags[|DefaultFlags| - 1];
    assert r[0] == if head == [] then DefaultFlags[0] else head[0];
  }

  /**
   * The final `trim()`: the base followed by a space, the flags, the default
   * flags and a space, loses the surrounding spaces, including the space
   * after an empty base.
   */
  lemma FinalTrim(base: string, flags: string, defaults: string)
    requires Trimmed(base)
    requires flags == [] || flags[0] == '-'
    requires defaults != [] && defaults[0] == '-' && !IsSpace(defaults[|defaults| - 1])
    ensures Trim(base + " " + flags + defaults + " ")
      == (if base == "" then "" else base + " ") + flags + defaults
  {
    var head := (if base == "" then "" else base + " ") + flags;
    var lead := if base == "" then " " else "";
    var body := head + defaults;
    assert body[0] == if head == [] then defaults[0] else head[0];
    assert body[|body| - 1] == defaults[|defaults| - 1];
    assert base + " " + flags + defaults + " " == lead + body + " ";
    TrimOfPadded(lead, body, " ");
  }

  /** The text before the final `trim()` trims to the command line. */
  lemma ComposedLine(binary: string, cmd: string, params: Arg, o: Options)
    ensures Trim(Base(binary, cmd, params) + " " + FlagText(o) + DefaultFlags + " ") == CommandLine(binary, cmd, params, o)
  {
    DefaultFlagsShape();
    FinalTrim(Base(binary, cmd, params), FlagText(o), DefaultFlags);
  }

  /** One conditional `+=` of a flag extends the flags written so far by that flag. */
  lemma AppendFlag(npm: string, head: string, flags: string, name: string, value: string)
    requires name != [] && name[0] == '-'
    requires npm == head + flags
    ensures (if value != "" then npm + (name + value + " ") else npm) == head + (flags + Flag(name, value))
  {
    if value == "" {
      assert flags + Flag(name, value) == flags;
    }
  }

  /**
   * The composition as the proxy performs it: the base is built, trimmed and
   * given back a space, each flag is appended in turn, and the result is
   * trimmed once more.
   */
  method ComposeCommandLine(binary: string, cmd: string, params: Arg, o: Options) returns (line: string)
    ensures line == CommandLine(binary, cmd, params, o)
  {
    var npm := binary + " " + cmd + " ";
    if params.Params? {
      npm := npm + params.text;
    }
    assert npm == binary + " " + cmd + " " + ParamText(params);
    var base := Trim(npm);
    assert base == Base(binary, cmd, params);
    npm := base + " ";
    ghost var before := npm;
    if o.username != "" {
      npm := npm + ("--username " + o.username + " ");
    }
    AppendFlag(before, base + " ", "", "--username ", o.username);
    before := npm;
    if o.password != "" {
      npm := npm + ("--password " + o.password + " ");
    }
    AppendFlag(before, base + " ", Flag("--username ", o.username), "--password ", o.password);
    before := npm;
    if o.registry != "" {
      npm := npm + ("--registry " + o.registry + " ");
    }
    AppendFlag(before, base + " ", Flag("--username ", o.username) + Flag("--password ", o.password),
      "--registry ", o.registry);
    before := npm;
    if o.userconfig != "" {
      npm := npm + ("--userconfig" + o.userconfig + " ");
    }
    AppendFlag(before, base + " ",
      Flag("--username ", o.username) + Flag("--password ", o.password) + Flag("--registry ", o.registry),
      "--userconfig", o.userconfig);
    assert npm == base + " " + FlagText(o);
    npm := npm + DefaultFlags + " ";
    ComposedLine(binary, cmd, params, o);
    line := Trim(npm);
  }

  // ---------------------------------------------------------------------------
  // Properties of the command line
  // ---------------------------------------------------------------------------

  /** Joining a non-empty trimmed binary and command leaves a trimmed text. */
  lemma CommandTrimmed(binary: string, cmd: string, tail: string)
    requires binary != "" && Trimmed(binary)
    requires tail != [] && !IsSpace(tail[|tail| - 1])
    ensures Trimmed(binary + " " + cmd + " " + tail)
  {
    var s := binary + " " + cmd + " " + tail;
    assert s[0] == binary[0];
    assert s[|s| - 1] == tail[|tail| - 1];
  }

  /**
   * Without caller text (no string argument, or one that is only whitespace)
   * the command line is the binary, the command, the optional flags and the
   * default flags, single-spaced.
   */
  lemma BareCommandLine(binary: string, cmd: string, params: Arg, o: Options)
    requires binary != "" && Trimmed(binary) && cmd != "" && Trimmed(cmd)
    requires !params.Params? || AllSpace(params.text)
    ensures CommandLine(binary, cmd, params, o) == binary + " " + cmd + " " + FlagText(o) + DefaultFlags
  {
    var t := ParamText(params);
    assert (binary + " " + cmd)[0] == binary[0];
    assert binary + " " + cmd + " " + t == [] + (binary + " " + cmd) + (" " + t);
    assert AllSpace(" " + t) by {
      forall i | 0 <= i < |" " + t| ensures IsSpace((" " + t)[i]) {
        if i > 0 { assert (" " + t)[i] == t[i - 1]; }
      }
    }
    TrimOfPadded([], binary + " " + cmd, " " + t);
  }

  /**
   * The caller's text is kept verbatim inside the command line, except that
   * whitespace at its end is dropped; the flags follow it after one space.
   */
  lemma ParamsVerbatim(binary: string, cmd: string, a: string, p: string, b: string, o: Options)
    requires binary != "" && Trimmed(binary)
    requires AllSpace(a) && AllSpace(b) && p != "" && Trimmed(p)
    ensures CommandLine(binary, cmd, Params(a + p + b), o)
      == binary + " " + cmd + " " + (a + p) + " " + FlagText(o) + DefaultFlags
  {
    var s := binary + " " + cmd + " " + (a + p);
    assert (a + p)[|a + p| - 1] == p[|p| - 1];
    CommandTrimmed(binary, cmd, a + p);
    assert binary + " " + cmd + " " + (a + p + b) == [] + s + b;
    TrimOfPadded([], s, b);
  }

  /** Trailing whitespace in the caller's text does not change the command line. */
  lemma TrailingSpaceIgnored(binary: string, cmd: string, p: string, b: string, o: Options)
    requires binary != "" && Trimmed(binary)
    requires AllSpace(b) && p != "" && Trimmed(p)
    ensures CommandLine(binary, cmd, Params(p + b), o) == CommandLine(binary, cmd, Params(p), o)
  {
    assert [] + p + b == p + b && [] + p + [] == p;
    ParamsVerbatim(binary, cmd, [], p, b, o);
    ParamsVerbatim(binary, cmd, [], p, [], o);
  }

  /** The options only add flags: they never change the part of the line before the flags. */
  lemma OptionsOnlyAppend(binary: string, cmd: string, params: Arg, o: Options)
    requires Base(binary, cmd, params) != ""
    ensures var line := CommandLine(binary, cmd, params, o);
      var b := Base(binary, cmd, params);
      |line| > |b| && line[..|b| + 1] == b + " "
  {
    var b := Base(binary, cmd, params);
    assert CommandLine(binary, cmd, params, o) == (b + " ") + FlagText(o) + DefaultFlags;
    PrefixKept(b + " ", FlagText(o), DefaultFlags);
  }

  lemma PrefixKept(x: string, y: string, z: string)
    ensures |x + y + z| >= |x| && (x + y + z)[..|x|] == x
  {
    assert forall i :: 0 <= i < |x| ==> (x + y + z)[i] == x[i];
  }

  /**
   * Only a string first argument adds text to the line: no argument, a
   * callback, any other value and the empty string give the same line.
   */
  lemma NonStringArgsAlike(binary: string, cmd: string, o: Options)
    ensures CommandLine(binary, cmd, Callback, o) == CommandLine(binary, cmd, NoParams, o)
    ensures CommandLine(binary, cmd, OtherValue, o) == CommandLine(binary, cmd, NoParams, o)
    ensures CommandLine(binary, cmd, Params(""), o) == CommandLine(binary, cmd, NoParams, o)
  {
  }

  /** With a username and a registry set, their flags appear in that order, each followed by its value. */
  lemma UsernameAndRegistry(u: string, reg: string)
    requires u != "" && reg != ""
    ensures FlagText(Options(u, "", reg, "", None, map[])) == "--username " + u + " " + "--registry " + reg + " "
  {
  }

  /** With every flag option set, the four flags appear in the fixed order, each followed by its value. */
  lemma AllFlags(u: string, p: string, reg: string, c: string, silent: Option<Value>, exec: map<string, Value>)
    requires u != "" && p != "" && reg != "" && c != ""
    ensures FlagText(Options(u, p, reg, c, silent, exec))
      == "--username " + u + " --password " + p + " --registry " + reg + " --userconfig" + c + " "
  {
  }

  /** With only a password set, the flags are just the password flag and its value. */
  lemma PasswordOnly(p: string)
    requires p != ""
    ensures FlagText(Options("", p, "", "", None, map[])) == "--password " + p + " "
  {
  }

  /** The userconfig value is written directly after its flag name, with no space in between. */
  lemma UserconfigUnspaced(v: string)
    requires v != ""
    ensures FlagText(Options("", "", "", v, None, map[])) == "--userconfig" + v + " "
  {
  }

  // ---------------------------------------------------------------------------
  // Options handed to the shell
  // ---------------------------------------------------------------------------

  /**
   * `Object.assign({}, options.exec || {}, {silent: ...})`: every key of the
   * `exec` options is kept except `silent`, which is set last, to the
   * instance's own `silent` option when that key is present and to `true`
   * otherwise.
   */
  function ExecOptions(o: Options): (r: map<string, Value>)
    ensures r.Keys == o.exec.Keys + {"silent"}
    ensures r["silent"] == (if o.silent.Some? then o.silent.value else Bool(true))
    ensures forall k :: k in o.exec && k != "silent" ==> r[k] == o.exec[k]
  {
    o.exec["silent" := if o.silent.Some? then o.silent.value else Bool(true)]
  }

  /** A `silent` key inside the `exec` options is always overridden. */
  lemma ExecSilentOverridden(o: Options)
    requires "silent" in o.exec && o.silent.None?
    requires o.exec["silent"] != Bool(true)
    ensures ExecOptions(o)["silent"] != o.exec["silent"]
  {
  }

  // ---------------------------------------------------------------------------
  // Outcome of the shell command
  // ---------------------------------------------------------------------------

  /** What the shell reports once the command has run: its exit code and its output. */
  datatype Execution = Execution(code: int, output: string)

  const IncorrectCode := "Incorrect code #"

  /**
   * The message of the error raised for a failed command: the output, or
   * when there is none `Incorrect code #` and the exit code; trimmed. Output
   * made only of whitespace yields an empty message.
   */
  function ErrorMessage(run: Execution): (m: string)
    ensures Trimmed(m)
    ensures run.output != "" ==> m == Trim(run.output)
    ensures run.output == "" ==> m == IncorrectCode + IntString(run.code)
  {
    FallbackTrimmed(run.code);
    Trim(if run.output != "" then run.output else IncorrectCode + IntString(run.code))
  }

  /** The fallback message has no whitespace at its ends, so trimming leaves it unchanged. */
  lemma FallbackTrimmed(code: int)
    ensures Trim(IncorrectCode + IntString(code)) == IncorrectCode + IntString(code)
  {
    var digits := IntString(code);
    var text := IncorrectCode + digits;
    assert text[0] == 'I' && text[|text| - 1] == digits[|digits| - 1];
    TrimOfTrimmed(text);
  }

  /** A synchronous call either returns the output or throws an error with a message. */
  datatype SyncResult = Returned(output: string) | Thrown(message: string)

  /** The arguments the callback receives: an error, or `undefined` and the output. */
  datatype Completion = Completion(error: Option<string>, output: Option<string>)

  /**
   * A synchronous call's result, or an asynchronous call's immediate return
   * value and the later callback, when one was passed.
   */
  datatype Invocation = Sync(result: SyncResult) | Async(returned: string, completion: Option<Completion>)

  /** JavaScript truthiness of an option value. */
  predicate Truthy(v: Value) {
    match v
    case Undefined => false
    case Bool(b) => b
    case Str(s) => s != ""
    case Num(n) => n != 0
  }

  /** The shell runs a command in the background when its options carry a truthy `async`. */
  predicate AsyncRequested(execOptions: map<string, Value>) {
    "async" in execOptions && Truthy(execOptions["async"])
  }

  /** Synchronous mode: a non-zero exit code throws, otherwise the output (or `''`) is returned. */
  function SyncOutcome(run: Execution): (r: SyncResult)
    ensures r.Thrown? <==> run.code != 0
    ensures r.Thrown? ==> r.message == ErrorMessage(run)
    ensures r.Returned? ==> r.output == run.output
  {
    if run.code != 0 then Thrown(ErrorMessage(run)) else Returned(run.output)
  }

  /** Asynchronous mode: the callback gets an error for a non-zero exit code, otherwise the output. */
  function AsyncCompletion(run: Execution): (c: Completion)
    ensures c.error.Some? <==> run.code != 0
    ensures c.error.Some? ==> c.error.value == ErrorMessage(run) && c.output.None?
    ensures c.error.None? ==> c.output == Some(run.output)
  {
    if run.code != 0 then Completion(Some(ErrorMessage(run)), None) else Completion(None, Some(run.output))
  }

  /**
   * The whole outcome of one call. The shell runs the command in the
   * background when a callback is passed (which the shell treats as a request
   * for `async`) or when the options ask for `async`. A background call
   * returns `''` at once, because the handle the shell gives back has no
   * output and no exit code of its own, so it never throws; the callback, when
   * there is one, gets the completion.
   */
  function Outcome(run: Execution, callback: bool, asyncOption: bool): (r: Invocation)
    ensures r.Async? <==> callback || asyncOption
    ensures r.Async? ==> r.returned == "" && (r.completion.Some? <==> callback)
    ensures r.Async? && callback ==> r.completion == Some(AsyncCompletion(run))
    ensures r.Sync? ==> r.result == SyncOutcome(run)
  {
    if callback then Async("", Some(AsyncCompletion(run)))
    else if asyncOption then Async("", None)
    else Sync(SyncOutcome(run))
  }

  /** With `async` in the options and no callback, a failed command is neither thrown nor reported. */
  lemma AsyncOptionNeverThrows(run: Execution)
    ensures Outcome(run, false, true) == Async("", None)
    ensures Outcome(run, false, true) != Sync(SyncOutcome(run))
  {
  }

  /** Both modes fail on the same runs with the same message, and succeed with the same output. */
  lemma SyncAsyncAgree(run: Execution)
    ensures SyncOutcome(run).Thrown? <==> AsyncCompletion(run).error.Some?
    ensures SyncOutcome(run).Thrown? ==> AsyncCompletion(run).error == Some(SyncOutcome(run).message)
    ensures SyncOutcome(run).Returned? ==> AsyncCompletion(run).output == Some(SyncOutcome(run).output)
  {
  }

  /** When a failed command printed nothing, the exit code can be read back from the message. */
  lemma CodeInMessage(run: Execution)
    requires run.code != 0 && run.output == ""
    ensures var m := SyncOutcome(run).message;
      |m| > |IncorrectCode| && m[..|IncorrectCode|] == IncorrectCode
      && var digits := m[|IncorrectCode|..];
         (AllDigits(digits) || (digits[0] == '-' && AllDigits(digits[1..]))) && IntValue(digits) == run.code
  {
    var m := SyncOutcome(run).message;
    assert m == IncorrectCode + IntString(run.code);
    assert m[|IncorrectCode|..] == IntString(run.code);
    IntStringRoundTrip(run.code);
  }

  /** A failed command whose output is only whitespace fails with an empty message. */
  lemma BlankOutputEmptyMessage(run: Execution)
    requires run.code != 0 && run.output != "" && AllSpace(run.output)
    ensures SyncOutcome(run) == Thrown("")
  {
  }

  /** The output of a failed command becomes the message without its surrounding whitespace. */
  lemma OutputIsMessage(run: Execution, a: string, text: string, b: string)
    requires run.code != 0 && run.output == a + text + b
    requires AllSpace(a) && AllSpace(b) && text != "" && Trimmed(text)
    ensures SyncOutcome(run) == Thrown(text)
    ensures AsyncCompletion(run) == Completion(Some(text), None)
  {
    TrimOfPadded(a, text, b);
  }
}
