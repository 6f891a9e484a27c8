# npm-shizzle in Dafny

npm-shizzle exposes the npm commands installed on the host as methods of an
`NPM` object. When the module loads, it runs `npm -l` and parses the listing
into command names. Each name is folded into a JavaScript-friendly method
identifier (`dist-tag` becomes `distTag`), and a proxy method is defined
under that identifier. The name is also recorded in `NPM.commands`. An
instance holds a working directory and default options. Calling a proxy
method builds a command line from the binary, the command, the caller's
parameters, the option flags and two fixed flags. The shell is handed the
instance's directory (`shelly.cd`) and runs the command. The call then returns
the output, throws an error, or hands either one to a completion callback;
when the `exec` options ask for `async` and no callback is given, it returns
`''` at once. `cd` moves the instance with
`path.join` and returns the instance for chaining.

The model has five modules:

- `Text` (in `Text.dfy`, with a small `Wrappers` module for `Option`): the
  JavaScript string operations the source relies on, restricted to ASCII.
  These are `\s`, `trim()`, `split` on a character class, `slice`,
  `indexOf`, `toUpperCase` and the decimal rendering of an integer.
- `Discovery`: parsing the listing, the hyphen-folding loop (kept as a
  method with its `while` loop), and the shared registry. The registry is a
  class holding the binary, `NPM.commands` and the method table.
- `Paths`: POSIX `path.join`/`path.normalize`, modelled as resolving
  segments on a stack.
- `Proxy`: the command line (the step-by-step `+=` composition is kept as a
  method), the options passed to the shell, and the outcome policy for sync
  and async calls.
- `Instance`: the `Npm` class with its directory and options, its
  constructor, `Cd`, and `Invoke`, which stands for calling a proxy method.

The shell is outside the model. The binary's location and the text of the
`npm -l` listing are parameters of the registry constructor. The exit code
and output of a proxied command are a parameter (`Execution`) of `Invoke`.
What `Invoke` hands to the shell (command line, directory, execution
options, whether a callback is passed) is its result.

Two behaviours of the code are easy to misread:

- The execution options are built with `Object.assign({}, options.exec, {silent: ...})`.
  The `silent` value is written last, so it always overrides a `silent` key
  inside `exec`. If the instance options have no `silent` key, the value is
  `true`, whatever `exec` says (`Proxy.ExecOptions`, `Proxy.ExecSilentOverridden`).
- `cd` with an absolute argument does not replace the directory. `path.join`
  appends it like any other segment, so `/a` joined with `/b` is `/a/b`
  (`Paths.JoinAbsoluteArgument`).

## Model

| member | source | states |
|---|---|---|
| Text.Trim | index.js:55 | `trim()` leaves no whitespace at either end, and the result is empty exactly when the input is all whitespace |
| Text.TrimOfPadded | index.js:94 | trimming removes exactly the whitespace padding around a text with no whitespace at its ends |
| Text.Split | index.js:54 | `split` on a character class gives at least one piece, and no piece contains a separator |
| Text.SplitAt | index.js:54 | splitting at a separator splits the two sides independently and concatenates the pieces |
| Text.IndexOf | index.js:66 | `indexOf` gives -1 exactly when the character is absent, otherwise its first position |
| Text.Slice | index.js:68-70 | `slice` clamps its bounds to the length of the string |
| Text.UpperString | index.js:69 | `toUpperCase` maps each character on its own and keeps the length |
| Text.IntString | index.js:128 | the decimal rendering of the exit code is non-empty and has no whitespace at its ends |
| Text.IntStringRoundTrip | index.js:128 | the decimal rendering of an integer can be read back to that integer |
| Discovery.NameRun | index.js:55 | the greedy run of name characters (word characters, bar and hyphen) is the longest such run |
| Discovery.KeepNonEmpty | index.js:58 | `filter(Boolean)` keeps only non-empty strings from its input, and keeps every non-empty one |
| Discovery.KeepNonEmptySingle | index.js:58 | one string is kept exactly when it is non-empty |
| Discovery.KeepNonEmptyConcat | index.js:58 | filtering works element by element and keeps the order: filtering a concatenation concatenates the filtered parts |
| Discovery.WholeMatch | index.js:55 | the regular expression matches exactly when the line lists some name; the match is a prefix of the line, four whitespace characters first and one last |
| Discovery.MatchedName | index.js:55 | on a matching line, the run after the four leading whitespace characters is a listed name, and the trimmed match is that name |
| Discovery.ParseLine | index.js:54-57 | a line yields a name only when it lists that name (four whitespace characters, the name, then whitespace), and a line that lists a name yields exactly that name |
| Discovery.Discover | index.js:52-58 | every discovered name is non-empty, made of name characters, with no line break |
| Discovery.DiscoverConcat | index.js:52-58 | the names of a listing are the names of its lines, in order, duplicates kept |
| Discovery.DiscoverLine | index.js:54-58 | a single line contributes the name it lists, or nothing when it lists none |
| Discovery.IndentedLineListed | index.js:55 | a line indented by four whitespace characters, then a name, whitespace and any description, yields that name |
| Discovery.ShallowNotListed | index.js:55 | a line indented by fewer than four whitespace characters lists no name |
| Discovery.ShallowLineSkipped | index.js:54-58 | such a line contributes no command |
| Discovery.ListingExample | index.js:52-58 | a four-space command line followed by a two-space line yields just the first command |
| Discovery.MethodIdentifier | index.js:66-72 | the identifier a name folds to contains no hyphen, which is what ends the loop |
| Discovery.IdentifierOfPlain | index.js:66-72 | a name without hyphens is its own method identifier |
| Discovery.IdentifierLength | index.js:66-72 | folding removes exactly the hyphens, so the identifier is shorter by their number |
| Discovery.IdentifierUppercasesAfterHyphen | index.js:67-71 | the character after a removed hyphen is upper-cased, and the rest is folded independently |
| Discovery.IdentifierIdempotent | index.js:66-72 | folding an identifier again changes nothing |
| Discovery.DistTagExample | index.js:66-72 | `dist-tag` folds to `distTag` |
| Discovery.FoldStep | index.js:67-71 | one round of the loop preserves the identifier the name folds to |
| Discovery.FoldRound | index.js:66-71 | the loop body, applied at the first hyphen, keeps the identifier and shortens the name by exactly one |
| Discovery.FoldMethodName | index.js:59-72 | the loop ends with the name's identifier, which has no hyphen and is shorter by the number of hyphens |
| Discovery.Register | index.js:82 | registering names keeps every identifier bound before and binds the identifier of every name |
| Discovery.RegisterLastWins | index.js:82 | the last name that folds to an identifier is the one bound to it |
| Discovery.RegisterLookup | index.js:82 | after registration, an identifier is bound exactly when it was bound before or a name folds to it; the last such name wins; other bindings are kept |
| Discovery.Registry.constructor | index.js:38-58 | the registry starts empty, then its commands are the discovered names and its method table registers them in order |
| Discovery.Registry.RegisterAll | index.js:58-145 | the names are appended to `NPM.commands` in order, and each is registered under its folded identifier |
| Paths.Normalize | index.js:155 | the normalized path is never empty, an absolute path stays absolute, and a trailing slash is kept |
| Paths.Join | index.js:155 | joining onto an absolute directory gives an absolute directory |
| Paths.ResolveConcat | index.js:155 | resolving segments is a left fold: resolving `a + b` is resolving `b` after `a` |
| Paths.ResolveAbsolute | index.js:155 | the segments of a canonical absolute path resolve back to its own segments |
| Paths.JoinOntoAbsolute | index.js:155 | `cd` from a canonical directory resolves the argument's segments on top of it, and the result is canonical again |
| Paths.JoinPlain | index.js:155 | entering a plain sub-directory appends it |
| Paths.JoinAbsoluteArgument | index.js:155 | an absolute argument is appended, not substituted |
| Paths.JoinParent | index.js:155 | `../name` replaces the last segment, and at the root `..` is dropped |
| Paths.CdChain | index.js:154-159 | entering `sub` and then `../other` is the same as entering `other` |
| Proxy.NonStringArgsAlike | index.js:87-88 | only a string first argument adds text: no argument, a callback, another value and `''` give the same line |
| Proxy.FlagText | index.js:99-113 | the optional flags are empty exactly when no option is set, and otherwise start with `-` and end in a space |
| Proxy.Base | index.js:84-94 | the binary, command and parameters have no whitespace at their ends once trimmed |
| Proxy.CommandLine | index.js:84-127 | the executed line has no whitespace at its ends and always finishes with `--always-auth --no-strict-ssl` |
| Proxy.LineShape | index.js:115 | whatever comes before the default flags, the line ends with them |
| Proxy.FinalTrim | index.js:94-127 | the final `trim()` removes the space after the default flags, and also the space after an empty base |
| Proxy.ComposedLine | index.js:94-127 | the composed text trims to the command line |
| Proxy.AppendFlag | index.js:99-113 | each conditional `+=` extends the flags written so far by exactly that flag |
| Proxy.ComposeCommandLine | index.js:83-127 | the step-by-step composition yields the command line |
| Proxy.BareCommandLine | index.js:84-127 | with no string parameters, or only whitespace, the line is binary, command, flags and default flags, single-spaced |
| Proxy.ParamsVerbatim | index.js:88-94 | the caller's text is kept verbatim, leading whitespace included; only its trailing whitespace is dropped; the flags follow after one space |
| Proxy.TrailingSpaceIgnored | index.js:88-94 | trailing whitespace in the parameters does not change the command line |
| Proxy.OptionsOnlyAppend | index.js:96-115 | the options never change the part of the line before the flags |
| Proxy.UsernameAndRegistry | index.js:99-109 | with a username and a registry, their flags come in that order, each followed by its value |
| Proxy.AllFlags | index.js:99-113 | with every flag option set, the flags are username, password, registry and userconfig in that order, each followed by its value |
| Proxy.PasswordOnly | index.js:103-105 | with only a password set, the flags are the password flag and its value |
| Proxy.UserconfigUnspaced | index.js:111-113 | the userconfig value follows its flag name with no space in between |
| Proxy.ExecOptions | index.js:123-125 | every `exec` key except `silent` is kept; `silent` is the instance option when present, else `true` |
| Proxy.ExecSilentOverridden | index.js:123-125 | a `silent` key inside `exec` never reaches the shell when the instance has no `silent` option |
| Proxy.ErrorMessage | index.js:128 | the error message is the trimmed output, or `Incorrect code #` and the code when there is no output |
| Proxy.FallbackTrimmed | index.js:138 | the fallback message is unchanged by trimming |
| Proxy.SyncOutcome | index.js:137-141 | a synchronous call throws exactly on a non-zero exit code, with the error message, and otherwise returns the output |
| Proxy.AsyncCompletion | index.js:127-131 | the callback gets an error exactly on a non-zero exit code, and otherwise no error and the output |
| Proxy.Outcome | index.js:127-141 | a call runs in the background exactly when a callback is passed or the `exec` options ask for `async`; it then returns `''` at once and only a callback gets the completion; otherwise the synchronous policy applies |
| Proxy.AsyncOptionNeverThrows | index.js:123-141 | with `async` in the `exec` options and no callback, a failed command neither throws nor is reported |
| Proxy.SyncAsyncAgree | index.js:127-141 | both modes fail on the same runs with the same message, and succeed with the same output |
| Proxy.CodeInMessage | index.js:138 | when a failed command printed nothing, the exit code can be read back from the message |
| Proxy.BlankOutputEmptyMessage | index.js:138 | a failed command whose output is only whitespace throws an empty message |
| Proxy.OutputIsMessage | index.js:128-138 | the output of a failed command, without its surrounding whitespace, is the message in both modes |
| Instance.Npm.constructor | index.js:22-28 | the instance keeps its directory; missing options become `{}` |
| Instance.Npm.Cd | index.js:154-159 | the directory becomes `path.join` of the old one and the argument; options are unchanged; the instance is returned |
| Instance.Npm.Invoke | index.js:82-142 | calling a registered method hands the shell the instance's directory (`shelly.cd`), its command's line and the execution options; a callback in either position is passed on; the outcome follows the policy, background mode included when `exec` asks for `async` |

## Left out

- Running commands: locating `npm` with `which`, changing the process directory, and executing commands are shell I/O. The binary, the listing, and each command's exit code and output are parameters instead.
- The `diagnostics` debug output and the `fusing` helpers (`fuse`, `readable`). Defining a method on the prototype is modelled as an entry in the registry's method table.
- Calling `NPM` without `new`: the `if (!this)` guard (index.js:23) fires only in strict mode. The module is not strict, so such a call gets past the guard and fails at `this.fuse()`. The model creates instances with `new` only.
- Relative directories: `shelly.cd` resolves the instance's directory against the process directory, which the previous call already moved. With a relative directory such as `sub`, successive calls run in `sub`, then `sub/sub`, and so on. The model states only the directory handed to the shell (`ShellCall.cwd`), not the process directory the command ends up in.
- Sharing the options object: the source keeps the caller's options object by reference and reads it on every call, so later changes by the caller, or by another instance sharing it, change later command lines. The model copies the options into the instance when it is created.
- Unicode: whitespace, `\w` and upper-casing are modelled for ASCII only.
- Option values that are not strings: a flag option is a string, and the empty string stands for every falsy value. Truthy non-string values, which JavaScript would convert to text, are not modelled.
- A second argument that is truthy but not a function: `fn` is modelled as "a callback is given". Calling such a value in the callback would raise a `TypeError`.
- A directory that is not a string (for example an undefined one), for which `path.join` throws.
- A missing `npm` binary, for which `which` yields `null` and every line would start with `null`.
- A listed command whose identifier is `cd`, or collides with another prototype property. The table keeps the last registration, and the order against the `cd` method is not modelled.
- Concurrency: two asynchronous calls from instances in different directories share the one process directory.
- Instance.Npm.Invoke: the asynchronous outcome is modelled as one completion with the command's final exit code and output. Output streamed while the command runs is not.
