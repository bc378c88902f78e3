/**
 * The task executor: runs the planned shell commands one after another with
 * `sh -c`, and stops at the first command that does not succeed.
 *
 * The operating system is an oracle. A `Host` records every process it is
 * asked to start, and the outcome of each start is a fixed function (`os`)
 * of everything started so far, this one included. This covers a command
 * whose result depends on what ran before it, and the same command line
 * giving different outcomes at different points in a run.
 */
module Executor {
  import opened Wrappers
  import Str

  /** One planned shell invocation and what it is for. */
  datatype TaskCommand = TaskCommand(command: string, description: string)

  /** A Rust `i32`, the type of a process exit code. */
  type Int32 = x: int | -0x8000_0000 <= x < 0x8000_0000

  /** The outcome of one attempted command. */
  datatype CommandResult = CommandResult(
    command: string,
    success: bool,
    exitCode: Option<Int32>,
    stdout: string,
    stderr: string)

  /** The executor's configuration: the working directory and the per-command timeout. */
  datatype ExecutorConfig = ExecutorConfig(workingDir: Option<string>, timeoutSecs: nat, echoResult: bool)

  /** The configuration used when the file gives none: current directory, 120 seconds, results echoed. */
  const DefaultConfig := ExecutorConfig(None, 120, true)

  /** How a finished process ended (Unix): it exited with a code, or a signal killed it. */
  datatype ExitStatus = Exited(code: Int32) | Signaled(signal: int) {
    /** Rust's `ExitStatus::success`. */
    predicate Success() { Exited? && code == 0 }

    /** Rust's `ExitStatus::code`: absent when a signal ended the process. */
    function Code(): Option<Int32> {
      if Exited? then Some(code) else None
    }
  }

  /** A process succeeded exactly when it exited with code 0. */
  lemma SuccessIffExitZero(status: ExitStatus)
    ensures status.Success() <==> status.Code() == Some(0)
  {
  }

  /** A process start request: program, arguments, working directory and time limit. */
  datatype Invocation = Invocation(program: string, args: seq<string>, dir: string, timeoutSecs: nat)

  /**
   * What starting a process gives: it finished (its output already decoded
   * to text), it ran past its time limit, or it could not be started.
   */
  datatype ProcessOutcome =
    | Finished(status: ExitStatus, stdout: string, stderr: string)
    | TimedOut
    | StartFailed(ioError: string)

  /** The command line is handed whole to `sh -c`, in the configured directory or ".". */
  function ShellInvocation(config: ExecutorConfig, cmd: string): (inv: Invocation)
    ensures inv.program == "sh" && inv.args == ["-c", cmd]
    ensures inv.dir == config.workingDir.GetOr(".") && inv.timeoutSecs == config.timeoutSecs
  {
    Invocation("sh", ["-c", cmd], config.workingDir.GetOr("."), config.timeoutSecs)
  }

  /** The invocations for a list of commands, in order. */
  function Invocations(config: ExecutorConfig, commands: seq<TaskCommand>): (invs: seq<Invocation>)
    ensures |invs| == |commands|
  {
    seq(|commands|, i requires 0 <= i < |commands| => ShellInvocation(config, commands[i].command))
  }

  /** The invocations of a run begin with that of its first command. */
  lemma InvocationsCons(config: ExecutorConfig, commands: seq<TaskCommand>, i: nat)
    requires i < |commands|
    ensures Invocations(config, commands[..i + 1])
         == [ShellInvocation(config, commands[0].command)] + Invocations(config, commands[1..][..i])
  {
  }

  /** Starting one more command adds its invocation at the end. */
  lemma InvocationsStep(config: ExecutorConfig, commands: seq<TaskCommand>, i: nat)
    requires i < |commands|
    ensures Invocations(config, commands[..i + 1]) == Invocations(config, commands[..i]) + [ShellInvocation(config, commands[i].command)]
  {
  }

  /** The error text of a timeout, as the error's outermost context displays it. */
  function TimeoutMessage(timeoutSecs: nat, cmd: string): string {
    "命令超时 (" + Str.NatToString(timeoutSecs) + " 秒): " + cmd
  }

  /** The error text of a failed start, as the error's outermost context displays it. */
  function StartFailureMessage(cmd: string): string {
    "命令执行失败: " + cmd
  }

  /** A result whose success flag agrees with its exit code. */
  predicate Consistent(r: CommandResult) {
    r.success <==> r.exitCode == Some(0)
  }

  /**
   * What `run_command` returns for a process outcome: a result built from a
   * finished process, or an error for a timeout or a failed start.
   */
  function CommandOutcome(config: ExecutorConfig, cmd: string, outcome: ProcessOutcome): (r: Result<CommandResult, string>)
    ensures r.Success? <==> outcome.Finished?
    ensures r.Success? ==> r.value.command == cmd && Consistent(r.value)
    ensures r.Success? ==> r.value.stdout == outcome.stdout && r.value.stderr == outcome.stderr
    ensures r.Success? ==> r.value.exitCode == outcome.status.Code() && r.value.success == outcome.status.Success()
    ensures r.Success? && r.value.exitCode.None? ==> !r.value.success
    ensures outcome.TimedOut? ==> r == Failure(TimeoutMessage(config.timeoutSecs, cmd))
    ensures outcome.StartFailed? ==> r == Failure(StartFailureMessage(cmd))
  {
    match outcome
    case Finished(status, out, err) =>
      Success(CommandResult(cmd, status.Success(), status.Code(), out, err))
    case TimedOut => Failure(TimeoutMessage(config.timeoutSecs, cmd))
    case StartFailed(_) => Failure(StartFailureMessage(cmd))
  }

  /** The result `run_commands` records when the runner itself fails. */
  function RunnerErrorResult(cmd: string, e: string): CommandResult {
    CommandResult(cmd, false, None, "", e)
  }

  /** The result recorded for a runner outcome: the runner's result, or the synthetic failed one. */
  function Settle(cmd: string, r: Result<CommandResult, string>): CommandResult {
    match r
    case Success(result) => result
    case Failure(e) => RunnerErrorResult(cmd, e)
  }

  /**
   * The results of the fail-stop run of `commands` on a host whose earlier
   * starts are `history`: one result per attempted command, stopping after
   * the first that fails.
   */
  function FailStop(os: seq<Invocation> -> ProcessOutcome, config: ExecutorConfig,
                    history: seq<Invocation>, commands: seq<TaskCommand>): seq<CommandResult>
    decreases |commands|
  {
    if commands == [] then []
    else
      var cmd := commands[0].command;
      var h := history + [ShellInvocation(config, cmd)];
      match CommandOutcome(config, cmd, os(h))
      case Success(result) =>
        if result.success then [result] + FailStop(os, config, h, commands[1..]) else [result]
      case Failure(e) => [RunnerErrorResult(cmd, e)]
  }

  // ---------------------------------------------------------------------------
  // Properties of the fail-stop run
  // ---------------------------------------------------------------------------

  /** No more results than commands; none exactly for no commands; at least one otherwise. */
  lemma {:induction false} FailStopLength(os: seq<Invocation> -> ProcessOutcome, config: ExecutorConfig,
                                          history: seq<Invocation>, commands: seq<TaskCommand>)
    ensures |FailStop(os, config, history, commands)| <= |commands|
    ensures FailStop(os, config, history, commands) == [] <==> commands == []
    decreases |commands|
  {
    if commands != [] {
      var h := history + [ShellInvocation(config, commands[0].command)];
      FailStopLength(os, config, h, commands[1..]);
    }
  }

  /**
   * Result `i` is what the runner gave for command `i`, started after
   * exactly the commands before it: the results are index-aligned with the
   * commands and each command was started once, in order.
   */
  lemma {:induction false} FailStopAt(os: seq<Invocation> -> ProcessOutcome, config: ExecutorConfig,
                                      history: seq<Invocation>, commands: seq<TaskCommand>, i: nat)
    requires i < |FailStop(os, config, history, commands)|
    ensures i < |commands|
    ensures FailStop(os, config, history, commands)[i]
         == Settle(commands[i].command,
                   CommandOutcome(config, commands[i].command, os(history + Invocations(config, commands[..i + 1]))))
    decreases |commands|
  {
    FailStopLength(os, config, history, commands);
    var h := history + [ShellInvocation(config, commands[0].command)];
    if i > 0 {
      FailStopLength(os, config, h, commands[1..]);
      FailStopAt(os, config, h, commands[1..], i - 1);
      assert commands[1..][i - 1] == commands[i];
      InvocationsCons(config, commands, i);
      Str.AppendAssoc(history, [ShellInvocation(config, commands[0].command)], Invocations(config, commands[1..][..i]));
    } else {
      assert Invocations(config, commands[..1]) == [ShellInvocation(config, commands[0].command)];
    }
  }

  /** The first step of a run: settle the first command, and go on only if it succeeded. */
  lemma FailStopUnfold(os: seq<Invocation> -> ProcessOutcome, config: ExecutorConfig,
                       history: seq<Invocation>, commands: seq<TaskCommand>)
    requires commands != []
    ensures var h := history + [ShellInvocation(config, commands[0].command)];
            var first := Settle(commands[0].command, CommandOutcome(config, commands[0].command, os(h)));
            FailStop(os, config, history, commands)
            == if first.success then [first] + FailStop(os, config, h, commands[1..]) else [first]
  {
  }

  /** One step of the run, for whichever outcome the runner gave for the first command. */
  lemma FailStopStep(os: seq<Invocation> -> ProcessOutcome, config: ExecutorConfig,
                     history: seq<Invocation>, commands: seq<TaskCommand>, r: Result<CommandResult, string>)
    requires commands != []
    requires r == CommandOutcome(config, commands[0].command, os(history + [ShellInvocation(config, commands[0].command)]))
    ensures r.Success? && r.value.success ==>
              FailStop(os, config, history, commands)
              == [r.value] + FailStop(os, config, history + [ShellInvocation(config, commands[0].command)], commands[1..])
    ensures r.Success? && !r.value.success ==> FailStop(os, config, history, commands) == [r.value]
    ensures r.Failure? ==> FailStop(os, config, history, commands) == [RunnerErrorResult(commands[0].command, r.error)]
  {
  }

  /**
   * Three commands whose first two exit with 0 and 1: the run records two
   * results, a success and then a failure with exit code 1, and the third
   * command never starts.
   */
  lemma FailStopStopsAtNonZeroExit(os: seq<Invocation> -> ProcessOutcome, config: ExecutorConfig,
                                   history: seq<Invocation>, a: TaskCommand, b: TaskCommand, c: TaskCommand)
    requires os(history + [ShellInvocation(config, a.command)]).Finished?
    requires os(history + [ShellInvocation(config, a.command)]).status == Exited(0)
    requires os(history + [ShellInvocation(config, a.command), ShellInvocation(config, b.command)]).Finished?
    requires os(history + [ShellInvocation(config, a.command), ShellInvocation(config, b.command)]).status == Exited(1)
    ensures |FailStop(os, config, history, [a, b, c])| == 2
    ensures FailStop(os, config, history, [a, b, c])[0].success
    ensures !FailStop(os, config, history, [a, b, c])[1].success
    ensures FailStop(os, config, history, [a, b, c])[1].exitCode == Some(1)
  {
    var h1 := history + [ShellInvocation(config, a.command)];
    assert h1 + [ShellInvocation(config, b.command)]
        == history + [ShellInvocation(config, a.command), ShellInvocation(config, b.command)];
    assert [a, b, c][1..] == [b, c];
    assert [b, c][1..] == [c];
    FailStopUnfold(os, config, history, [a, b, c]);
    FailStopUnfold(os, config, h1, [b, c]);
  }

  /** The recorded result of a command names it and agrees with its exit code. */
  lemma SettleOutcome(config: ExecutorConfig, cmd: string, outcome: ProcessOutcome)
    ensures var r := Settle(cmd, CommandOutcome(config, cmd, outcome));
            r.command == cmd && Consistent(r) && (r.success ==> outcome.Finished?)
  {
  }

  /** Every result names the command it came from: the results are index-aligned with the commands. */
  lemma FailStopAligned(os: seq<Invocation> -> ProcessOutcome, config: ExecutorConfig,
                        history: seq<Invocation>, commands: seq<TaskCommand>)
    ensures |FailStop(os, config, history, commands)| <= |commands|
    ensures forall i :: 0 <= i < |FailStop(os, config, history, commands)| ==>
              FailStop(os, config, history, commands)[i].command == commands[i].command
  {
    FailStopLength(os, config, history, commands);
    forall i | 0 <= i < |FailStop(os, config, history, commands)|
      ensures FailStop(os, config, history, commands)[i].command == commands[i].command
    {
      FailStopAt(os, config, history, commands, i);
      SettleOutcome(config, commands[i].command, os(history + Invocations(config, commands[..i + 1])));
    }
  }

  /** Every result but the last is a success: nothing ran after a failure. */
  lemma {:induction false} FailStopPrefixOfSuccesses(os: seq<Invocation> -> ProcessOutcome, config: ExecutorConfig,
                                                     history: seq<Invocation>, commands: seq<TaskCommand>)
    ensures var results := FailStop(os, config, history, commands);
            forall i :: 0 <= i < |results| - 1 ==> results[i].success
    decreases |commands|
  {
    if commands != [] {
      var h := history + [ShellInvocation(config, commands[0].command)];
      FailStopUnfold(os, config, history, commands);
      FailStopPrefixOfSuccesses(os, config, h, commands[1..]);
      var results := FailStop(os, config, history, commands);
      var rest := FailStop(os, config, h, commands[1..]);
      if results[0].success {
        assert results == [results[0]] + rest;
        assert forall i :: 1 <= i < |results| ==> results[i] == rest[i - 1];
      }
    }
  }

  /** A run of only successes covers every command. */
  lemma {:induction false} FailStopAllSucceeded(os: seq<Invocation> -> ProcessOutcome, config: ExecutorConfig,
                                                history: seq<Invocation>, commands: seq<TaskCommand>)
    ensures var results := FailStop(os, config, history, commands);
            (forall i :: 0 <= i < |results| ==> results[i].success) ==> |results| == |commands|
    decreases |commands|
  {
    if commands != [] {
      var h := history + [ShellInvocation(config, commands[0].command)];
      FailStopUnfold(os, config, history, commands);
      FailStopAllSucceeded(os, config, h, commands[1..]);
      var results := FailStop(os, config, history, commands);
      var rest := FailStop(os, config, h, commands[1..]);
      if results[0].success {
        assert forall i :: 0 <= i < |rest| ==> rest[i] == results[i + 1];
      }
    }
  }

  /**
   * The run stops short of the end of the list exactly when a command
   * before the last one failed, and then the last result is that failure.
   */
  lemma FailStopShortIffFailure(os: seq<Invocation> -> ProcessOutcome, config: ExecutorConfig,
                                history: seq<Invocation>, commands: seq<TaskCommand>)
    ensures var results := FailStop(os, config, history, commands);
            |results| < |commands| <==> exists i :: 0 <= i < |results| && i < |commands| - 1 && !results[i].success
    ensures var results := FailStop(os, config, history, commands);
            |results| < |commands| ==> !results[|results| - 1].success
  {
    var results := FailStop(os, config, history, commands);
    FailStopLength(os, config, history, commands);
    FailStopPrefixOfSuccesses(os, config, history, commands);
    FailStopAllSucceeded(os, config, history, commands);
    if |results| < |commands| {
      assert !results[|results| - 1].success;
      assert |results| - 1 < |commands| - 1;
    }
  }

  /** Every recorded result has a success flag that agrees with its exit code. */
  lemma FailStopConsistent(os: seq<Invocation> -> ProcessOutcome, config: ExecutorConfig,
                           history: seq<Invocation>, commands: seq<TaskCommand>)
    ensures var results := FailStop(os, config, history, commands);
            forall i :: 0 <= i < |results| ==> Consistent(results[i])
  {
    var results := FailStop(os, config, history, commands);
    forall i | 0 <= i < |results| ensures Consistent(results[i]) {
      FailStopAt(os, config, history, commands, i);
    }
  }

  /**
   * When the runner fails on command `i` (a timeout or a failed start), the
   * recorded result is failed, has no exit code, no output and the error
   * text, and it is the last result.
   */
  lemma FailStopRunnerError(os: seq<Invocation> -> ProcessOutcome, config: ExecutorConfig,
                            history: seq<Invocation>, commands: seq<TaskCommand>, i: nat)
    requires i < |FailStop(os, config, history, commands)|
    requires i < |commands|
    requires !os(history + Invocations(config, commands[..i + 1])).Finished?
    ensures var results := FailStop(os, config, history, commands);
            var r := results[i];
            && |results| == i + 1
            && !r.success && r.exitCode == None && r.stdout == ""
            && r.command == commands[i].command
            && r.stderr == (if os(history + Invocations(config, commands[..i + 1])).TimedOut?
                            then TimeoutMessage(config.timeoutSecs, commands[i].command)
                            else StartFailureMessage(commands[i].command))
  {
    FailStopAt(os, config, history, commands, i);
    FailStopPrefixOfSuccesses(os, config, history, commands);
  }

  // ---------------------------------------------------------------------------
  // The host and the executor
  // ---------------------------------------------------------------------------

  /** The operating system as the executor sees it: it starts processes and remembers them. */
  class Host {
    const os: seq<Invocation> -> ProcessOutcome
    var spawned: seq<Invocation>

    constructor (os: seq<Invocation> -> ProcessOutcome)
      ensures this.os == os && spawned == []
    {
      this.os := os;
      spawned := [];
    }

    /** Starts a process and waits for it, within its time limit. */
    method Spawn(inv: Invocation) returns (outcome: ProcessOutcome)
      modifies this
      ensures spawned == old(spawned) + [inv]
      ensures outcome == os(spawned)
    {
      spawned := spawned + [inv];
      outcome := os(spawned);
    }
  }

  class Executor {
    const config: ExecutorConfig
    const host: Host

    constructor (config: ExecutorConfig, host: Host)
      ensures this.config == config && this.host == host
    {
      this.config := config;
      this.host := host;
    }

    /** Runs one command line with `sh -c` and builds its result. */
    method RunCommand(cmd: string) returns (r: Result<CommandResult, string>)
      modifies host
      ensures host.spawned == old(host.spawned) + [ShellInvocation(config, cmd)]
      ensures r == CommandOutcome(config, cmd, host.os(host.spawned))
    {
      var outcome := host.Spawn(ShellInvocation(config, cmd));
      match outcome
      case Finished(status, out, err) =>
        r := Success(CommandResult(cmd, status.Success(), status.Code(), out, err));
      case TimedOut =>
        r := Failure(TimeoutMessage(config.timeoutSecs, cmd));
      case StartFailed(_) =>
        r := Failure(StartFailureMessage(cmd));
    }

    /**
     * Runs the commands in order and stops after the first that fails. The
     * results are the fail-stop run, and the host started exactly the
     * attempted commands, in order.
     */
    method RunCommands(commands: seq<TaskCommand>) returns (results: seq<CommandResult>)
      modifies host
      ensures results == FailStop(host.os, config, old(host.spawned), commands)
      ensures |results| <= |commands|
      ensures host.spawned == old(host.spawned) + Invocations(config, commands[..|results|])
    {
      ghost var before := host.spawned;
      ghost var os := host.os;
      FailStopLength(os, config, before, commands);
      results := [];
      for i := 0 to |commands|
        invariant |results| == i
        invariant host.spawned == before + Invocations(config, commands[..i])
        invariant FailStop(os, config, before, commands) == results + FailStop(os, config, host.spawned, commands[i..])
      {
        var task := commands[i];
        ghost var h := host.spawned;
        ghost var rest := commands[i..];
        assert rest[0] == task && rest[1..] == commands[i + 1..];
        var outcome := RunCommand(task.command);
        FailStopStep(os, config, h, rest, outcome);
        InvocationsStep(config, commands, i);
        Str.AppendAssoc(before, Invocations(config, commands[..i]), [ShellInvocation(config, task.command)]);
        match outcome {
          case Success(result) =>
            Str.AppendAssoc(results, [result], FailStop(os, config, host.spawned, commands[i + 1..]));
            results := results + [result];
            if !result.success {
              assert results == FailStop(os, config, before, commands);
              break;
            }
          case Failure(e) =>
            results := results + [RunnerErrorResult(task.command, e)];
            assert results == FailStop(os, config, before, commands);
            break;
        }
      }
    }
  }
}
