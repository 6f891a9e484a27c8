/**
 * An `NPM` instance: the directory its commands run in and its default
 * options. Calling one of the registered methods composes the command line
 * for the command the method was registered for, and hands the shell the
 * instance's directory to change into before it runs the command.
 */
module Instance {
  import opened Wrappers
  import opened Proxy
  import opened Paths
  import opened Discovery

  /**
   * What a proxied call hands to the shell: the command line, the directory
   * the shell is changed into first, the options for the execution, and
   * whether a completion callback is passed.
   */
  datatype ShellCall = ShellCall(commandLine: string, cwd: string, execOptions: map<string, Value>, callback: bool)

  class Npm {
    var dir: string
    var options: Options

    /** `new NPM(dir, options)`: missing options become `{}`. */
    constructor (dir: string, options: Option<Options>)
      ensures this.dir == dir
      ensures this.options == (if options.Some? then options.value else NoOptions)
    {
      this.dir := dir;
      this.options := if options.Some? then options.value else NoOptions;
    }

    /** `cd(d)`: the directory becomes `path.join` of the old one and `d`; the instance is returned for chaining. */
    method Cd(d: string) returns (self: Npm)
      modifies this
      ensures self == this
      ensures dir == Join(old(dir), d)
      ensures options == old(options)
    {
      dir := Join(dir, d);
      self := this;
    }

    /**
     * Calls the method registered under `name` with the arguments `params`
     * and `fn` (`fn` tells whether a second, callback argument is given).
     * `run` is what the shell reports for the command. The shell is handed
     * the instance's directory, the command line and the execution options
     * built from the instance's options; a callback in either position, or a
     * truthy `async` among the `exec` options, makes the call asynchronous.
     */
    method Invoke(npm: Registry, name: string, params: Arg, fn: bool, run: Execution)
      returns (call: ShellCall, result: Invocation)
      requires name in npm.methods
      ensures call.commandLine == CommandLine(npm.binary, npm.methods[name], params, options)
      ensures call.cwd == dir
      ensures call.execOptions == ExecOptions(options)
      ensures call.callback <==> params.Callback? || fn
      ensures result == Outcome(run, call.callback, AsyncRequested(call.execOptions))
    {
      var cmd := npm.methods[name];
      var line := ComposeCommandLine(npm.binary, cmd, params, options);
      var callback := false;
      if params.Callback? {
        callback := true;
      }
      if fn {
        callback := true;
      }
      var execOptions := ExecOptions(options);
      call := ShellCall(line, dir, execOptions, callback);
      if callback {
        result := Async("", Some(AsyncCompletion(run)));
      } else if "async" in execOptions && Truthy(execOptions["async"]) {
        result := Async("", None);
      } else if run.code != 0 {
        result := Sync(Thrown(ErrorMessage(run)));
      } else {
        result := Sync(Returned(run.output));
      }
    }
  }
}
