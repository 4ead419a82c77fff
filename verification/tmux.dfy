/**
 * The track-b session supervisor (src/lib/tmux.ts): one detached tmux
 * session that runs the runner script, which runs the agent and records
 * its outcome in the status file, and the poll that classifies what it
 * sees.
 *
 * The world the supervisor touches is an immutable record: the live
 * session (if any) with the command it runs, the text of the status file
 * (if it exists), whether the runner script has been written, and which
 * prompt files are readable. tmux, bash and the agent are replaced by
 * their observable contract.
 */
module Tmux {
  import opened Wrappers
  import opened Strings
  import opened Types

  // ---------------------------------------------------------------------
  // The runner script's interface

  /** The positional parameters `$1`..`$6` of the runner script. */
  datatype RunnerParams = RunnerParams(
    iteration: string,
    promptFile: string,
    worktree: string,
    outputFile: string,
    logFile: string,
    statusFile: string)

  /** The argument list that supplies `p` positionally. */
  function RunnerArgs(p: RunnerParams): (args: seq<string>)
    ensures |args| == 6
  {
    [p.iteration, p.promptFile, p.worktree, p.outputFile, p.logFile, p.statusFile]
  }

  /** How the script binds its arguments. Under `set -u`, reading an unset
      `$1`..`$6` aborts it; arguments after the sixth are ignored. */
  function BindRunnerArgs(args: seq<string>): (r: Option<RunnerParams>)
    ensures r.Some? <==> |args| >= 6
    ensures r.Some? ==> RunnerArgs(r.value) == args[..6]
  {
    if |args| < 6 then None
    else Some(RunnerParams(args[0], args[1], args[2], args[3], args[4], args[5]))
  }

  /** Binding the positional list of some parameters gives them back. */
  lemma BindRunnerArgsRoundTrip(p: RunnerParams, extra: seq<string>)
    ensures BindRunnerArgs(RunnerArgs(p) + extra) == Some(p)
  {
    var args := RunnerArgs(p) + extra;
    assert args[..6] == RunnerArgs(p);
  }

  /** What the runner writes to its status file for the agent's exit code. */
  function RunnerVerdict(exitCode: int): (text: string)
    ensures exitCode == 0 ==> text == "DONE\n"
    ensures exitCode != 0 ==> text == "FAILED\n"
  {
    if exitCode == 0 then "DONE\n" else "FAILED\n"
  }

  // ---------------------------------------------------------------------
  // The supervised world

  /** A command line run by a session. */
  datatype Command = Command(program: string, args: seq<string>)

  datatype Supervisor = Supervisor(
    session: Option<Command>,    // the live session named TmuxSession
    statusFile: Option<string>,  // text of TrackBStatus, None if absent
    runnerWritten: bool,         // the runner script exists at TrackBRunner
    readable: set<string>)       // prompt files that can be read

  /** A live session only ever runs the runner script, which is on disk,
      with at least six arguments, the sixth naming the track-b status file. */
  predicate Valid(s: Supervisor) {
    s.session.Some? ==>
      && s.runnerWritten && s.session.value.program == TrackBRunner
      && |s.session.value.args| >= 6 && s.session.value.args[5] == TrackBStatus
  }

  /** `sessionExists`: `tmux has-session` succeeds iff the session is live;
      a failure is answered with false, never thrown. */
  function SessionExists(s: Supervisor): (alive: bool)
    ensures alive <==> s.session.Some?
  {
    s.session.Some?
  }

  datatype KillOutcome = KillOutcome(killed: bool, state: Supervisor)

  /** `killSession`: `tmux kill-session`, reporting whether it succeeded.
      The runner is killed with the session, so it writes no verdict. */
  function KillSession(s: Supervisor): (o: KillOutcome)
    ensures o.killed <==> SessionExists(s)
    ensures !SessionExists(o.state)
    ensures o.state.statusFile == s.statusFile
    ensures o.state.runnerWritten == s.runnerWritten && o.state.readable == s.readable
  {
    KillOutcome(s.session.Some?, s.(session := None))
  }

  /** A second kill finds nothing to kill and changes nothing. */
  lemma KillIdempotent(s: Supervisor)
    ensures var once := KillSession(s).state;
      KillSession(once) == KillOutcome(false, once)
  {
  }

  // ---------------------------------------------------------------------
  // Launching

  /** The arguments after the runner's path on the `new-session` line; `$1`
      is the iteration's exact decimal text (see Strings.NatToString). */
  function LaunchArgs(iteration: nat, promptFile: string): (args: seq<string>)
    ensures |args| == 6
  {
    [NatToString(iteration), promptFile, TrackBWorktree,
     GetOutputFile(TrackB, iteration), GetLogFile(TrackB, iteration), TrackBStatus]
  }

  /** The full argument list handed to tmux. */
  function NewSessionArgv(iteration: nat, promptFile: string): (argv: seq<string>)
    ensures |argv| == 11
  {
    ["new-session", "-d", "-s", TmuxSession, TrackBRunner] + LaunchArgs(iteration, promptFile)
  }

  /** The launch line feeds the runner's `$1`..`$6` in its order: iteration,
      prompt, worktree, output file, log file, status file. */
  lemma LaunchArgsBindInOrder(iteration: nat, promptFile: string)
    ensures var argv := NewSessionArgv(iteration, promptFile);
      && argv[..5] == ["new-session", "-d", "-s", TmuxSession, TrackBRunner]
      && BindRunnerArgs(argv[5..]) == Some(RunnerParams(
           NatToString(iteration), promptFile, TrackBWorktree,
           GetOutputFile(TrackB, iteration), GetLogFile(TrackB, iteration), TrackBStatus))
  {
    var argv := NewSessionArgv(iteration, promptFile);
    assert argv[5..] == LaunchArgs(iteration, promptFile);
  }

  datatype LaunchError =
    | PromptUnreadable(promptFile: string)   // thrown before anything else
    | NewSessionFailed                       // `tmux new-session` rejected

  datatype LaunchOutcome =
    | Launched(state: Supervisor)
    | LaunchFailed(error: LaunchError, state: Supervisor)

  /** `launchCodex`: check that the prompt is readable, write the runner
      script, then start the detached session. tmux refuses a second
      session of the same name. The status file is left as it is. */
  function LaunchCodex(s: Supervisor, iteration: nat, promptFile: string): (o: LaunchOutcome)
    // an unreadable prompt throws before any effect
    ensures promptFile !in s.readable <==> o == LaunchFailed(PromptUnreadable(promptFile), s)
    // otherwise the runner is on disk, whatever tmux then does
    ensures promptFile in s.readable ==> o.state.runnerWritten
    // a live session makes new-session fail and survives untouched
    ensures promptFile in s.readable && SessionExists(s) ==>
              o == LaunchFailed(NewSessionFailed, s.(runnerWritten := true))
    // with no session, a session running the runner with the launch args
    ensures promptFile in s.readable && !SessionExists(s) ==>
              o.Launched? && o.state.session == Some(Command(TrackBRunner, LaunchArgs(iteration, promptFile)))
    // launching never writes or removes the status file
    ensures o.state.statusFile == s.statusFile && o.state.readable == s.readable
  {
    if promptFile !in s.readable then
      LaunchFailed(PromptUnreadable(promptFile), s)
    else
      var written := s.(runnerWritten := true);
      if written.session.Some? then
        LaunchFailed(NewSessionFailed, written)
      else
        Launched(written.(session := Some(Command(TrackBRunner, LaunchArgs(iteration, promptFile)))))
  }

  // ---------------------------------------------------------------------
  // The runner finishing

  /** The session's command exits. The runner binds its arguments (aborting
      without a verdict if fewer than six are given), runs the agent, and
      writes the verdict for `exitCode` to `$6`; only a `$6` naming the
      track-b status file is visible here. The session ends with it. With
      no live session nothing happens. */
  function RunnerExit(s: Supervisor, exitCode: int): (s': Supervisor)
    ensures !SessionExists(s')
    ensures s'.runnerWritten == s.runnerWritten && s'.readable == s.readable
    ensures s.session.None? ==> s' == s
  {
    match s.session
    case None => s
    case Some(cmd) =>
      var status :=
        if cmd.program != TrackBRunner || !s.runnerWritten then s.statusFile
        else match BindRunnerArgs(cmd.args)
          case None => s.statusFile
          case Some(p) => if p.statusFile == TrackBStatus then Some(RunnerVerdict(exitCode)) else s.statusFile;
      s.(session := None, statusFile := status)
  }

  // ---------------------------------------------------------------------
  // Polling

  /** The status file classified: its trimmed text "DONE" or "FAILED", or
      NOT_FOUND for anything else and for a missing or unreadable file. */
  function ClassifyStatus(content: Option<string>): (r: CodexPollResult)
    ensures r != Running
    ensures r == Done <==> content.Some? && Trim(content.value) == "DONE"
    ensures r == Failed <==> content.Some? && Trim(content.value) == "FAILED"
  {
    match content
    case None => NotFound
    case Some(text) =>
      var trimmed := Trim(text);
      if trimmed == "DONE" then Done
      else if trimmed == "FAILED" then Failed
      else NotFound
  }

  /** `pollStatus`: RUNNING while the session is live, without looking at
      the status file; otherwise the status file decides. */
  function PollStatus(s: Supervisor): (r: CodexPollResult)
    ensures SessionExists(s) ==> r == Running
    ensures r == Running ==> SessionExists(s)
    ensures !SessionExists(s) ==> r == ClassifyStatus(s.statusFile)
  {
    if SessionExists(s) then Running else ClassifyStatus(s.statusFile)
  }

  lemma TrimDoneVerdict()
    ensures Trim(RunnerVerdict(0)) == "DONE"
  {
    TrimPadded("", "DONE", "\n");
    assert "" + "DONE" + "\n" == RunnerVerdict(0);
  }

  lemma TrimFailedVerdict(exitCode: int)
    requires exitCode != 0
    ensures Trim(RunnerVerdict(exitCode)) == "FAILED"
  {
    TrimPadded("", "FAILED", "\n");
    assert "" + "FAILED" + "\n" == RunnerVerdict(exitCode);
  }

  /** The verdict the runner writes reads back, through trim, as the
      outcome it records. */
  lemma VerdictRoundTrip(exitCode: int)
    ensures ClassifyStatus(Some(RunnerVerdict(exitCode))) == if exitCode == 0 then Done else Failed
  {
    if exitCode == 0 {
      TrimDoneVerdict();
    } else {
      TrimFailedVerdict(exitCode);
    }
  }

  /** Whitespace around the verdict is ignored. */
  lemma PaddedVerdictsClassify(pre: string, post: string)
    requires AllSpace(pre) && AllSpace(post)
    ensures ClassifyStatus(Some(pre + "DONE" + post)) == Done
    ensures ClassifyStatus(Some(pre + "FAILED" + post)) == Failed
  {
    TrimPadded(pre, "DONE", post);
    TrimPadded(pre, "FAILED", post);
  }

  /** From any valid state with a live session, the runner's exit followed
      by a poll reports exactly the agent's outcome. */
  lemma ValidExitPolls(s: Supervisor, exitCode: int)
    requires Valid(s) && SessionExists(s)
    ensures RunnerExit(s, exitCode).statusFile == Some(RunnerVerdict(exitCode))
    ensures PollStatus(RunnerExit(s, exitCode)) == if exitCode == 0 then Done else Failed
  {
    var args := s.session.value.args;
    assert BindRunnerArgs(args).value.statusFile == RunnerArgs(BindRunnerArgs(args).value)[5];
    VerdictRoundTrip(exitCode);
  }

  /** Launch, let the agent exit with `exitCode`, then poll: the poll
      reports exactly that outcome. */
  lemma LaunchExitPoll(s: Supervisor, iteration: nat, promptFile: string, exitCode: int)
    requires promptFile in s.readable && !SessionExists(s)
    ensures var o := LaunchCodex(s, iteration, promptFile);
      && o.Launched?
      && PollStatus(o.state) == Running
      && PollStatus(RunnerExit(o.state, exitCode)) == if exitCode == 0 then Done else Failed
  {
    var o := LaunchCodex(s, iteration, promptFile);
    assert Valid(o.state);
    ValidExitPolls(o.state, exitCode);
  }

  /** A run killed before it finishes leaves the status file as it was: the
      poll reports the previous run's verdict, or NOT_FOUND if there was
      none. */
  lemma KilledRunPollsStale(s: Supervisor, iteration: nat, promptFile: string)
    requires promptFile in s.readable && !SessionExists(s)
    ensures var launched := LaunchCodex(s, iteration, promptFile).state;
      PollStatus(KillSession(launched).state) == ClassifyStatus(s.statusFile)
    ensures s.statusFile.None? ==>
      PollStatus(KillSession(LaunchCodex(s, iteration, promptFile).state).state) == NotFound
  {
  }

  /** Every operation keeps a live session running the runner script. */
  lemma OperationsPreserveValid(s: Supervisor, iteration: nat, promptFile: string, exitCode: int)
    requires Valid(s)
    ensures Valid(KillSession(s).state)
    ensures Valid(LaunchCodex(s, iteration, promptFile).state)
    ensures Valid(RunnerExit(s, exitCode))
  {
  }
}
