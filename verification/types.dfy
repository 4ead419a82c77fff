/**
 * The track identifiers, the fixed path constants and the per-track path
 * builders of the orchestrator (src/lib/types.ts), plus the result shapes
 * the other modules return.
 */
module Types {
  import opened Wrappers
  import opened Strings

  /** The two debugging tracks, "track-a" and "track-b". */
  datatype Track = TrackA | TrackB

  function TrackName(t: Track): string {
    match t
    case TrackA => "track-a"
    case TrackB => "track-b"
  }

  /** `isValidTrack` as a parser: the type guard narrows a string to a Track. */
  function ParseTrack(s: string): (r: Option<Track>)
    ensures r.Some? ==> TrackName(r.value) == s
    ensures r.None? ==> forall t: Track :: TrackName(t) != s
  {
    if s == "track-a" then Some(TrackA)
    else if s == "track-b" then Some(TrackB)
    else None
  }

  /** `isValidTrack`: exactly the names of the two tracks are valid. */
  function IsValidTrack(s: string): (b: bool)
    ensures b <==> exists t: Track :: TrackName(t) == s
  {
    ParseTrack(s).Some?
  }

  /** Every track name parses back to its track. */
  lemma ParseTrackName(t: Track)
    ensures ParseTrack(TrackName(t)) == Some(t)
  {
  }

  // The fixed locations of the PATHS table.
  const TrackAWorktree: string := "/tmp/debug-track-a"
  const TrackBWorktree: string := "/tmp/debug-track-b"
  const TrackAProgress: string := "/tmp/debug-track-a-progress.md"
  const TrackBProgress: string := "/tmp/debug-track-b-progress.md"

  // Entries the code reads from PATHS but the table does not define. Their
  // text is unknown. The placeholders are distinct from each other and from
  // every path the builders below produce, and each starts with 'P' rather
  // than '/' (Cleanup.PlaceholderNotIteration relies on that); nothing relies
  // on more.
  const TmuxSession: string := "PATHS.TMUX_SESSION"
  const TrackBRunner: string := "PATHS.TRACK_B_RUNNER"
  const TrackBStatus: string := "PATHS.TRACK_B_STATUS"
  const ContextFile: string := "PATHS.CONTEXT_FILE"
  const ContextPrompt: string := "PATHS.CONTEXT_PROMPT"
  const ContextStatus: string := "PATHS.CONTEXT_STATUS"
  const ContextLog: string := "PATHS.CONTEXT_LOG"
  const ContextOutput: string := "PATHS.CONTEXT_OUTPUT"
  const ContextRunner: string := "PATHS.CONTEXT_RUNNER"

  /** Directory prefix shared by every file path the builders produce. */
  const FileRoot: string := "/tmp/debug-track-"

  function TrackLetter(t: Track): char {
    if t == TrackA then 'a' else 'b'
  }

  /** "debug-track-a" or "debug-track-b". */
  function TrackPrefix(t: Track): string {
    "debug-track-" + [TrackLetter(t)]
  }

  /** `getProgressDocPath` (src/lib/progress.ts): the track's `PATHS`
      progress constant, which is the track's root + "-progress.md". */
  function GetProgressDocPath(t: Track): (path: string)
    ensures path == "/tmp/" + TrackPrefix(t) + "-progress.md"
    ensures UnderTrackRoot(path, t) && EndsWith(path, "-progress.md")
  {
    var path := if t == TrackA then TrackAProgress else TrackBProgress;
    ProgressConstantScheme(t);
    BuiltPathUnderRoot(t, "-progress.md");
    assert path[|path| - 12..] == "-progress.md";
    path
  }

  lemma ProgressConstantScheme(t: Track)
    ensures (if t == TrackA then TrackAProgress else TrackBProgress)
            == "/tmp/" + TrackPrefix(t) + "-progress.md"
  {
    WorktreeConstantScheme(t);
    ProgressBesideWorktree();
  }

  lemma WorktreeConstantScheme(t: Track)
    ensures (if t == TrackA then TrackAWorktree else TrackBWorktree) == "/tmp/" + TrackPrefix(t)
  {
    var w := "/tmp/" + TrackPrefix(t);
    if t == TrackA {
      assert |TrackAWorktree| == |w| && forall k | 0 <= k < |w| :: TrackAWorktree[k] == w[k];
    } else {
      assert |TrackBWorktree| == |w| && forall k | 0 <= k < |w| :: TrackBWorktree[k] == w[k];
    }
  }

  lemma ProgressBesideWorktree()
    ensures TrackAProgress == TrackAWorktree + "-progress.md"
    ensures TrackBProgress == TrackBWorktree + "-progress.md"
  {
  }

  datatype TrackPaths = TrackPaths(
    worktree: string,
    progress: string,
    prompt: string,
    status: string,
    runner: string,
    tmuxSession: string)

  function Resources(p: TrackPaths): set<string> {
    {p.worktree, p.progress, p.prompt, p.status, p.runner, p.tmuxSession}
  }

  /** Every file path of a track starts with the shared root and the track's
      letter. */
  predicate UnderTrackRoot(path: string, t: Track) {
    StartsWith(path, FileRoot) && |path| > |FileRoot| && path[|FileRoot|] == TrackLetter(t)
  }

  /** A path built as "/tmp/" + prefix + rest lies under the track's root. */
  lemma BuiltPathUnderRoot(t: Track, rest: string)
    ensures UnderTrackRoot("/tmp/" + TrackPrefix(t) + rest, t)
  {
    var path := "/tmp/" + TrackPrefix(t) + rest;
    assert path == FileRoot + [TrackLetter(t)] + rest;
    assert path[..|FileRoot|] == FileRoot;
  }

  /** `getTrackPaths`: the resources of a track. */
  function GetTrackPaths(t: Track): (p: TrackPaths)
    ensures p.progress == GetProgressDocPath(t)
  {
    var prefix := TrackPrefix(t);
    TrackPaths(
      if t == TrackA then TrackAWorktree else TrackBWorktree,
      if t == TrackA then TrackAProgress else TrackBProgress,
      "/tmp/" + prefix + "-prompt.md",
      "/tmp/" + prefix + ".status",
      "/tmp/" + prefix + "-runner.sh",
      prefix + "-codex")
  }

  /** The worktree and progress document are the PATHS constants, written
      in the same "/tmp/" + prefix scheme as the other resources. */
  lemma ConstantsFollowScheme(t: Track)
    ensures GetTrackPaths(t).worktree == "/tmp/" + TrackPrefix(t)
    ensures GetTrackPaths(t).progress == "/tmp/" + TrackPrefix(t) + "-progress.md"
  {
    WorktreeFollowsScheme(t);
  }

  lemma WorktreeFollowsScheme(t: Track)
    ensures GetTrackPaths(t).worktree == "/tmp/" + TrackPrefix(t)
  {
    WorktreeConstantScheme(t);
  }

  /** Every file resource of a track lies under "/tmp/debug-track-" followed
      by the track's letter; the session name carries the letter too. */
  lemma TrackFilesUnderRoot(t: Track)
    ensures var p := GetTrackPaths(t);
      && UnderTrackRoot(p.worktree, t) && UnderTrackRoot(p.progress, t)
      && UnderTrackRoot(p.prompt, t) && UnderTrackRoot(p.status, t)
      && UnderTrackRoot(p.runner, t)
      && StartsWith(p.tmuxSession, TrackPrefix(t))
  {
    var p := GetTrackPaths(t);
    ConstantsFollowScheme(t);
    BuiltPathUnderRoot(t, "");
    assert p.worktree == "/tmp/" + TrackPrefix(t) + "";
    BuiltPathUnderRoot(t, "-progress.md");
    BuiltPathUnderRoot(t, "-prompt.md");
    BuiltPathUnderRoot(t, ".status");
    BuiltPathUnderRoot(t, "-runner.sh");
    assert p.tmuxSession[..|TrackPrefix(t)|] == TrackPrefix(t);
  }

  /** `getLogFile`: the per-iteration log of a track. */
  function GetLogFile(t: Track, iteration: nat): (path: string)
    ensures UnderTrackRoot(path, t)
    ensures EndsWith(path, ".log")
  {
    var rest := "-iter" + NatToString(iteration) + ".log";
    var r := "/tmp/" + TrackPrefix(t) + rest;
    BuiltPathUnderRoot(t, rest);
    assert r[|r| - 4..] == ".log";
    r
  }

  /** `getOutputFile`: the per-iteration agent output of a track. */
  function GetOutputFile(t: Track, iteration: nat): (path: string)
    ensures UnderTrackRoot(path, t)
    ensures EndsWith(path, "-out.txt")
  {
    var rest := "-iter" + NatToString(iteration) + "-out.txt";
    var r := "/tmp/" + TrackPrefix(t) + rest;
    BuiltPathUnderRoot(t, rest);
    assert r[|r| - 8..] == "-out.txt";
    r
  }

  /** Within a track, a resource is told apart by its length and last
      character; across tracks, by the track letter. */
  lemma ResourceShapes(t: Track)
    ensures var p := GetTrackPaths(t);
      && |p.worktree| == 18 && p.worktree[17] == TrackLetter(t)
      && |p.progress| == 30 && p.progress[17] == TrackLetter(t) && p.progress[29] == 'd'
      && |p.prompt| == 28 && p.prompt[17] == TrackLetter(t) && p.prompt[27] == 'd'
      && |p.status| == 25 && p.status[17] == TrackLetter(t) && p.status[24] == 's'
      && |p.runner| == 28 && p.runner[17] == TrackLetter(t) && p.runner[27] == 'h'
      && |p.tmuxSession| == 19 && p.tmuxSession[0] == 'd' && p.tmuxSession[12] == TrackLetter(t)
      && p.worktree[0] == '/' && p.progress[0] == '/' && p.prompt[0] == '/'
      && p.status[0] == '/' && p.runner[0] == '/'
  {
  }

  /** The two tracks share no resource: no field of one equals any field of
      the other. */
  lemma TracksShareNoResource()
    ensures Resources(GetTrackPaths(TrackA)) !! Resources(GetTrackPaths(TrackB))
  {
    ResourceShapes(TrackA);
    ResourceShapes(TrackB);
  }

  /** The six resources of a track are pairwise distinct. */
  lemma TrackResourcesDistinct(t: Track)
    ensures |Resources(GetTrackPaths(t))| == 6
  {
    ResourceShapes(t);
  }

  function LastChar(s: string): char
    requires |s| > 0
  {
    s[|s| - 1]
  }

  /** The log and output files are never the same file. */
  lemma LogIsNotOutput(t: Track, i: nat, u: Track, j: nat)
    ensures GetLogFile(t, i) != GetOutputFile(u, j)
  {
    var l := GetLogFile(t, i);
    var o := GetOutputFile(u, j);
    assert LastChar(l) == 'g' by { assert l[|l| - 4..][3] == l[|l| - 1]; }
    assert LastChar(o) == 't' by { assert o[|o| - 8..][7] == o[|o| - 1]; }
  }

  /** `getLogFile` decomposed: the track letter sits right after the root and
      the iteration's digits between "-iter" and ".log". */
  lemma LogFileParts(t: Track, i: nat)
    ensures var path := GetLogFile(t, i);
      && |path| == |FileRoot| + 6 + |NatToString(i)| + 4
      && path[|FileRoot|] == TrackLetter(t)
      && path[|FileRoot| + 6..|path| - 4] == NatToString(i)
  {
    var path := GetLogFile(t, i);
    assert path == FileRoot + [TrackLetter(t)] + "-iter" + NatToString(i) + ".log";
  }

  lemma OutputFileParts(t: Track, i: nat)
    ensures var path := GetOutputFile(t, i);
      && |path| == |FileRoot| + 6 + |NatToString(i)| + 8
      && path[|FileRoot|] == TrackLetter(t)
      && path[|FileRoot| + 6..|path| - 8] == NatToString(i)
  {
    var path := GetOutputFile(t, i);
    assert path == FileRoot + [TrackLetter(t)] + "-iter" + NatToString(i) + "-out.txt";
  }

  /** What the one-argument calls `getLogFile(iteration)` (suffix ".log") and
      `getOutputFile(iteration)` (suffix "-out.txt") build: the number binds
      to `track`, which is not "track-a", so the prefix is track B's, and
      `iteration` is undefined, which a template literal writes as
      "undefined". */
  function OneArgumentFile(iteration: nat, suffix: string): (path: string)
    ensures UnderTrackRoot(path, TrackB) && EndsWith(path, suffix)
  {
    BuiltPathUnderRoot(TrackB, "-iterundefined" + suffix);
    var path := "/tmp/" + TrackPrefix(TrackB) + "-iter" + "undefined" + suffix;
    assert path[|path| - |suffix|..] == suffix;
    path
  }

  /** Distinct (track, iteration) pairs get distinct log files. */
  lemma LogFileInjective(t: Track, i: nat, u: Track, j: nat)
    ensures GetLogFile(t, i) == GetLogFile(u, j) ==> t == u && i == j
  {
    if GetLogFile(t, i) == GetLogFile(u, j) {
      LogFileParts(t, i);
      LogFileParts(u, j);
      NatToStringInjective(i, j);
    }
  }

  /** Distinct (track, iteration) pairs get distinct output files. */
  lemma OutputFileInjective(t: Track, i: nat, u: Track, j: nat)
    ensures GetOutputFile(t, i) == GetOutputFile(u, j) ==> t == u && i == j
  {
    if GetOutputFile(t, i) == GetOutputFile(u, j) {
      OutputFileParts(t, i);
      OutputFileParts(u, j);
      NatToStringInjective(i, j);
    }
  }

  /** No per-iteration file is one of the fixed resources of either track. */
  lemma IterationFilesAreNotTrackResources(t: Track, i: nat, u: Track)
    ensures GetLogFile(t, i) !in Resources(GetTrackPaths(u))
    ensures GetOutputFile(t, i) !in Resources(GetTrackPaths(u))
  {
    var l := GetLogFile(t, i);
    var o := GetOutputFile(t, i);
    assert LastChar(l) == 'g' by { assert l[|l| - 4..][3] == l[|l| - 1]; }
    assert LastChar(o) == 't' by { assert o[|o| - 8..][7] == o[|o| - 1]; }
    ResourceEndings(u);
  }

  /** No fixed resource ends in 'g' or 't'. */
  lemma ResourceEndings(u: Track)
    ensures forall p | p in Resources(GetTrackPaths(u)) ::
              |p| > 0 && LastChar(p) != 'g' && LastChar(p) != 't'
  {
    var q := GetTrackPaths(u);
    ResourceShapes(u);
    var session := TrackPrefix(u) + "-codex";
    assert session[18] == 'x';
    assert LastChar(q.worktree) == TrackLetter(u) && LastChar(q.progress) == 'd';
    assert LastChar(q.prompt) == 'd' && LastChar(q.status) == 's';
    assert LastChar(q.runner) == 'h' && LastChar(q.tmuxSession) == 'x';
  }

  /** The signal kinds a progress result may carry. */
  datatype Signal = Continue | SkipToVerify | ReadyForFix | NeedsMoreWork | EarlyExit

  /** `ProgressStatusResult`: `rootCause` and `reason` are optional fields. */
  datatype ProgressStatus = ProgressStatus(
    track: Track,
    signal: Signal,
    rootCause: Option<string>,
    reason: Option<string>,
    iterationCount: nat)

  /** `CodexPollResult`. */
  datatype CodexPollResult = Running | Done | Failed | NotFound

  /** `CodexRunResult`. */
  datatype CodexRunResult = CodexRunResult(
    session: string,
    iteration: nat,
    logFile: string,
    outputFile: string,
    statusFile: string)

  /** `CleanupResult`. */
  datatype CleanupResult = CleanupResult(
    tmuxKilled: bool,
    worktreesRemoved: seq<string>,
    branchesArchived: seq<string>,
    tempFilesDeleted: seq<string>,
    debugAgentLines: seq<string>)
}
