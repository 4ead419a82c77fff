/**
 * The `codex` command (src/commands/codex.ts): `run <iteration> <prompt>`
 * validates its arguments, kills any existing session and launches a new
 * one; `poll` reports the session's status.
 *
 * `parseInt` is a parameter: it maps the iteration argument to an integer,
 * or to None where JavaScript yields NaN.
 */
module Codex {
  import opened Wrappers
  import opened Types
  import opened Tmux

  /** The session operations `run` performs, in order. */
  datatype SessionOp =
    | KillOp(killed: bool)
    | LaunchOp(iteration: nat, promptFile: string)

  /** Exit code, the JSON result printed on success, the session operations
      performed and the supervised world afterwards. */
  datatype RunOutcome = RunOutcome(
    exitCode: int,
    result: Option<CodexRunResult>,
    ops: seq<SessionOp>,
    state: Supervisor)

  /** A positional argument is present: defined and not the empty string. */
  predicate HasArg(args: seq<string>, i: nat) {
    i < |args| && args[i] != ""
  }

  /** The iteration argument as a positive integer, if it is one. */
  function ValidIteration(args: seq<string>, parseInt: string -> Option<int>): (r: Option<nat>)
    requires HasArg(args, 0)
    ensures r.Some? <==> parseInt(args[0]).Some? && parseInt(args[0]).value >= 1
    ensures r.Some? ==> r.value == parseInt(args[0]).value && r.value >= 1
  {
    match parseInt(args[0])
    case None => None
    case Some(n) => if n < 1 then None else Some(n)
  }

  /** `codexRun`. */
  function CodexRun(args: seq<string>, parseInt: string -> Option<int>, s: Supervisor): (o: RunOutcome)
    ensures o.exitCode == 0 || o.exitCode == 1
    ensures o.exitCode == 0 <==> o.result.Some?
    // a missing argument exits before any session operation
    ensures !HasArg(args, 0) || !HasArg(args, 1) ==> o == RunOutcome(1, None, [], s)
    // so does an iteration that is NaN or below 1
    ensures HasArg(args, 0) && HasArg(args, 1) && ValidIteration(args, parseInt).None? ==>
              o == RunOutcome(1, None, [], s)
    // otherwise: kill first, then launch with the validated iteration
    ensures o.ops != [] ==>
              && HasArg(args, 0) && HasArg(args, 1) && ValidIteration(args, parseInt).Some?
              && o.ops == [KillOp(SessionExists(s)),
                           LaunchOp(ValidIteration(args, parseInt).value, args[1])]
    ensures o.ops == [] ==> o.state == s
    // it succeeds exactly when the arguments are valid and the prompt readable
    ensures o.exitCode == 0 <==>
              HasArg(args, 0) && HasArg(args, 1) && ValidIteration(args, parseInt).Some?
              && args[1] in s.readable
    ensures o.result.Some? ==>
              var i := ValidIteration(args, parseInt).value;
              o.result.value == CodexRunResult(TmuxSession, i, GetLogFile(TrackB, i),
                                               GetOutputFile(TrackB, i), TrackBStatus)
  {
    if !HasArg(args, 0) || !HasArg(args, 1) then
      RunOutcome(1, None, [], s)
    else
      match ValidIteration(args, parseInt)
      case None => RunOutcome(1, None, [], s)
      case Some(iteration) =>
        var promptFile := args[1];
        var kill := KillSession(s);
        var ops := [KillOp(kill.killed), LaunchOp(iteration, promptFile)];
        match LaunchCodex(kill.state, iteration, promptFile)
        case LaunchFailed(_, after) => RunOutcome(1, None, ops, after)
        case Launched(after) =>
          var result := CodexRunResult(TmuxSession, iteration, GetLogFile(TrackB, iteration),
                                       GetOutputFile(TrackB, iteration), TrackBStatus);
          RunOutcome(0, Some(result), ops, after)
  }

  /** After a successful run the new session runs the runner with this
      iteration's files, and the status file is whatever it was before. */
  lemma RunStartsSession(args: seq<string>, parseInt: string -> Option<int>, s: Supervisor)
    requires CodexRun(args, parseInt, s).exitCode == 0
    ensures var o := CodexRun(args, parseInt, s);
            var i := o.result.value.iteration;
      && o.state.session == Some(Command(TrackBRunner, LaunchArgs(i, args[1])))
      && o.state.statusFile == s.statusFile
      && o.result.value.logFile == GetLogFile(TrackB, i)
      && PollStatus(o.state) == Running
  {
  }

  /** Because the kill comes first, the launch never meets a live session:
      with valid arguments the only failure is an unreadable prompt, and
      even then the previous session is gone. */
  lemma KillBeforeLaunch(args: seq<string>, parseInt: string -> Option<int>, s: Supervisor)
    requires HasArg(args, 0) && HasArg(args, 1) && ValidIteration(args, parseInt).Some?
    ensures var o := CodexRun(args, parseInt, s);
      && o.ops[0] == KillOp(SessionExists(s))
      && (args[1] !in s.readable ==>
            o.exitCode == 1 && !SessionExists(o.state) && o.state.statusFile == s.statusFile
            && o.state.runnerWritten == s.runnerWritten)
  {
  }

  /** A run whose agent is killed by the next run's kill, where that next
      run then fails on its prompt, leaves the verdict from before both runs
      to be polled. */
  lemma RerunBeforeExitPollsStale(args: seq<string>, parseInt: string -> Option<int>,
                                 s: Supervisor, args2: seq<string>)
    requires CodexRun(args, parseInt, s).exitCode == 0
    requires HasArg(args2, 0) && HasArg(args2, 1) && ValidIteration(args2, parseInt).Some?
    requires args2[1] !in s.readable
    ensures var o := CodexRun(args2, parseInt, CodexRun(args, parseInt, s).state);
      PollStatus(o.state) == ClassifyStatus(s.statusFile)
  {
  }

  /** The `codex` command's outcome: a run, a poll, or the usage message. */
  datatype CodexOutcome =
    | Ran(run: RunOutcome)
    | Polled(status: CodexPollResult)
    | Usage

  function ExitCode(o: CodexOutcome): int {
    match o
    case Ran(run) => run.exitCode
    case Polled(_) => 0
    case Usage => 1
  }

  /** `codex`: dispatch on the subcommand. `poll` cannot fail, since every
      failure inside `pollStatus` is caught and classified. */
  function CodexCommand(args: seq<string>, parseInt: string -> Option<int>, s: Supervisor): (o: CodexOutcome)
    ensures |args| > 0 && args[0] == "run" ==> o == Ran(CodexRun(args[1..], parseInt, s))
    ensures |args| > 0 && args[0] == "poll" ==> o == Polled(PollStatus(s))
    ensures o.Usage? <==> |args| == 0 || (args[0] != "run" && args[0] != "poll")
    ensures ExitCode(o) == 0 <==> o.Polled? || (o.Ran? && o.run.result.Some?)
  {
    if |args| == 0 then Usage
    else if args[0] == "run" then Ran(CodexRun(args[1..], parseInt, s))
    else if args[0] == "poll" then Polled(PollStatus(s))
    else Usage
  }

  /** The command-level cycle: after a successful `codex run`, `codex poll`
      says RUNNING until the agent exits, and then DONE for exit code 0 and
      FAILED for any other. */
  lemma RunExitPoll(args: seq<string>, parseInt: string -> Option<int>, s: Supervisor,
                    exitCode: int)
    requires ExitCode(CodexCommand(["run"] + args, parseInt, s)) == 0
    ensures var after := CodexCommand(["run"] + args, parseInt, s).run.state;
      && CodexCommand(["poll"], parseInt, after) == Polled(Running)
      && CodexCommand(["poll"], parseInt, RunnerExit(after, exitCode))
         == Polled(if exitCode == 0 then Done else Failed)
  {
    assert (["run"] + args)[1..] == args;
    var i := ValidIteration(args, parseInt).value;
    LaunchExitPoll(KillSession(s).state, i, args[1], exitCode);
  }
}
