# debug-mode core, modelled in Dafny

debug-mode runs two debugging tracks side by side. Each track has a git
worktree and a progress document under /tmp. Track B is driven by a Codex
agent that runs in a detached tmux session. This project models and proves
four parts of the tool:

- **Progress-signal parser** (`Progress`, src/lib/progress.ts). The parser
  makes two global, case-insensitive scans of a track's progress document,
  one for `READY FOR FIX:` and one for `EARLY EXIT:`. The kind whose last
  match starts later wins, and that match's capture is trimmed to give the
  payload. The parser also counts the `## Iteration N` headers.
  - The scan follows `String.prototype.matchAll` as ECMA-262 (section 22.2)
    defines it for LF-only text.
  - `Scan` is characterised by the chain predicate `LeftmostChain`: every
    match starts at a marker, the matches are ordered and do not overlap,
    and every marker occurrence is either matched or swallowed by an
    earlier match.
  - `ChainUnique` proves that `Scan` is the only sequence with these
    properties.
  - `ProgressExamples` works through concrete documents:
    - a lower-case marker is recognised;
    - an underscored `READY_FOR_FIX:` is not recognised;
    - a blank marker line takes its payload from the next line;
    - a marker swallowed by the other kind's payload still counts for its
      own scan;
    - the iteration headers are counted.
- **Path resolver** (`Types`, src/lib/types.ts). This covers the track names,
  the `PATHS` constants, `getTrackPaths`, `getLogFile` and `getOutputFile`,
  with proofs that the paths are distinct, lie under the track's root, and
  that the iteration files are injective. `Strings` supplies decimal rendering
  (with its inverse), ECMAScript whitespace and `trim`.
- **Session supervisor** (`Tmux`, src/lib/tmux.ts, and `Codex`,
  src/commands/codex.ts).
  - The supervised world is an immutable record: the live session and the
    command it runs, the status file's text, whether the runner script
    exists, and which prompt files are readable.
  - The operations are kill, launch, the runner's exit with an exit code,
    and poll. `codex run` and `codex poll` are built from them.
  - The tmux module is hard-wired to track B. At src/lib/tmux.ts:67-68 and
    src/commands/codex.ts:52-53 it calls `getLogFile(iteration)` and
    `getOutputFile(iteration)` with one argument. The number binds to
    `track`, which is not "track-a", and `iteration` is `undefined`. The
    names are therefore "/tmp/debug-track-b-iterundefined.log" and
    "/tmp/debug-track-b-iterundefined-out.txt" for every iteration, and
    cleanup's filters accept neither. (A TypeScript type check rejects both
    calls.) The model follows the intended two-argument calls
    `GetLogFile(TrackB, i)` and `GetOutputFile(TrackB, i)`; see Findings.
- **Cleanup accounting** (`Cleanup`, src/commands/cleanup.ts). This covers the
  two basename filters for iteration files, the candidate list, and the
  continue-on-error deletion loop over an abstract file system. The result
  record is built from the outcomes of the calls outside the module.

Some names the code uses are not defined in src/lib/types.ts:
`PATHS.TMUX_SESSION`, `PATHS.TRACK_B_RUNNER`, `PATHS.TRACK_B_STATUS` and
`PATHS.CONTEXT_*`. The model gives each a distinct placeholder string
constant. `killAllSessions` is imported by cleanup.ts but src/lib/tmux.ts
does not define it. Its outcome is an input of `Cleanup.Cleanup`, where None
stands for a throw.

An underscored `READY_FOR_FIX:` line is not a marker, because the patterns at
src/lib/progress.ts:55,58 need literal spaces
(`ProgressExamples.UnderscoreMarkerIgnored`).

Iteration numbers are rendered as their exact decimal digits. JavaScript
writes the same text only up to 2^53. Above 2^53 it writes the shortest
digits that round-trip to the same double, padded with zeros: 2^60 becomes
"1152921504606847000", not "1152921504606846976". From 10^21
(`Strings.PlainDecimalBound`) on it writes exponent form such as "1e+21",
which the cleanup filters reject. Below 10^21 JavaScript's text is still all
digits with no leading zero, so the lemmas about the cleanup filters are
stated below that bound.

## Model

| member | source | states |
|---|---|---|
| Types.ParseTrack | src/lib/types.ts:34-38 | a string parses to a track exactly when it is that track's name; any other string names no track |
| Types.IsValidTrack | src/lib/types.ts:36-38 | `isValidTrack(s)` holds iff `s` is the name of one of the two tracks |
| Types.ParseTrackName | src/lib/types.ts:34-38 | every track name is accepted and narrows back to that track |
| Types.GetProgressDocPath | src/lib/progress.ts:4-6 | the progress document a track's parse reads is "/tmp/" + the track prefix + "-progress.md": it lies under the track's root and ends in "-progress.md" |
| Types.GetTrackPaths | src/lib/types.ts:55-65 | the progress path of `getTrackPaths` is the one `getProgressDocPath` reads |
| Types.ConstantsFollowScheme | src/lib/types.ts:48-59 | the `PATHS` worktree and progress constants are "/tmp/" + the track prefix (+ "-progress.md"), the same scheme as the built paths |
| Types.TrackFilesUnderRoot | src/lib/types.ts:49-62 | every file path of a track starts with "/tmp/debug-track-" followed by the track's letter, and the session name starts with the track prefix |
| Types.TracksShareNoResource | src/lib/types.ts:55-65 | no field of one track's paths equals any field of the other track's |
| Types.TrackResourcesDistinct | src/lib/types.ts:55-65 | the six resources of a track are pairwise distinct |
| Types.GetLogFile | src/lib/types.ts:67-70 | a log path lies under its track's root and ends in ".log" |
| Types.GetOutputFile | src/lib/types.ts:72-75 | an output path lies under its track's root and ends in "-out.txt" |
| Types.LogIsNotOutput | src/lib/types.ts:67-75 | no log path equals any output path, whatever the tracks and iterations |
| Types.LogFileParts | src/lib/types.ts:67-70 | a log path holds the track letter after the root and the iteration's decimal digits between "-iter" and ".log" |
| Types.OutputFileParts | src/lib/types.ts:72-75 | an output path holds the track letter after the root and the iteration's decimal digits between "-iter" and "-out.txt" |
| Types.OneArgumentFile | src/lib/tmux.ts:67-68 | the one-argument calls `getLogFile(iteration)` and `getOutputFile(iteration)` build a track-B path that ends in the file's suffix, whatever the iteration |
| Types.LogFileInjective | src/lib/types.ts:67-70 | equal log paths come from the same track and the same iteration |
| Types.OutputFileInjective | src/lib/types.ts:72-75 | equal output paths come from the same track and the same iteration |
| Types.IterationFilesAreNotTrackResources | src/lib/types.ts:55-75 | no per-iteration log or output path is a fixed resource of either track |
| Strings.NatToString | src/lib/types.ts:69 | the decimal rendering of a natural is non-empty, all digits, one digit exactly below 10, and has no leading zero |
| Strings.ParseNatToString | src/lib/types.ts:69 | reading the rendered digits back gives the number |
| Strings.NatToStringParse | src/lib/types.ts:69 | every canonical digit string is the rendering of its own value |
| Strings.NatToStringInjective | src/lib/types.ts:69 | distinct naturals render to distinct digit strings |
| Strings.Trim | src/lib/progress.ts:71 | `trim` returns a contiguous slice of its input that neither starts nor ends with ECMAScript whitespace, and what it removed on either side is all whitespace |
| Strings.TrimPadded | src/lib/tmux.ts:94 | trimming removes any whitespace padding from a core that does not itself start or end with whitespace |
| Progress.SkipSpace | src/lib/progress.ts:55 | greedy `\s*`: the run it takes is all whitespace and stops at a non-space or the end of the text |
| Progress.LineEnd | src/lib/progress.ts:55 | the lazy capture ends at the first '\n' at or after its start, or at the end of the text |
| Progress.MatchAt | src/lib/progress.ts:55-59 | a match at a marker: whitespace after the marker is skipped, the capture holds no '\n' and runs to the line end, and the match ends after that '\n' or at the end of the text |
| Progress.Scan | src/lib/progress.ts:54-59 | the global scan returns matches at marker positions, in order and without overlap, and every marker occurrence is matched or lies inside an earlier match |
| Progress.ChainUnique | src/lib/progress.ts:54-59 | only one sequence of matches has those properties, so `Scan` is exactly what `matchAll` yields |
| Progress.ChainTail | src/lib/progress.ts:54-59 | after its first match, the scan resumes at that match's end |
| Progress.FirstMatchLeftmost | src/lib/progress.ts:54-59 | the first match is at the leftmost marker occurrence |
| Progress.ChainIndicesIncrease | src/lib/progress.ts:54-62 | match offsets strictly increase, so the last element is the latest match |
| Progress.ChainEmptyIff | src/lib/progress.ts:54-62 | a scan is empty exactly when the marker occurs nowhere after its start |
| Progress.ScanSkip | src/lib/progress.ts:54-59 | the scan passes over positions where the marker does not occur |
| Progress.ScanHit | src/lib/progress.ts:54-59 | at a marker the scan records that match and resumes after it |
| Progress.MarkersNeverTie | src/lib/progress.ts:55-58 | the two markers never occur at the same position, because they start with different letters |
| Progress.ScansNeverTie | src/lib/progress.ts:54-67 | both scans' offsets increase and the two scans never report the same offset, so `readyIndex > earlyIndex` decides every case |
| Progress.HeaderMatches | src/lib/progress.ts:51 | the header scan finds, in increasing order, exactly the positions where the case-sensitive "## Iteration " is followed by a digit |
| Progress.NoHeaderInsideHeader | src/lib/progress.ts:51 | no header match begins inside another header match |
| Progress.HeaderMatchesCount | src/lib/progress.ts:51-52 | the number of header matches equals the number of header positions |
| Progress.IterationCount | src/lib/progress.ts:51-52 | `iterationCount` is the number of header positions in the document |
| Progress.NoHashNoHeaders | src/lib/progress.ts:51-52 | text without '#' has an iteration count of 0 |
| Progress.Resolve | src/lib/progress.ts:61-105 | the result keeps the track and count; it is CONTINUE, READY_FOR_FIX or EARLY_EXIT only; rootCause comes exactly with READY_FOR_FIX and reason exactly with EARLY_EXIT; CONTINUE iff both scans are empty |
| Progress.ResolveByLast | src/lib/progress.ts:61-99 | when the last ready match is later, or the only kind present, READY_FOR_FIX wins with its trimmed capture; otherwise a present EARLY EXIT wins with its trimmed capture |
| Progress.ResolveLatest | src/lib/progress.ts:61-99 | for increasing scans that never share an offset, the kind of the single latest match over both scans wins, with that match's trimmed capture as payload, and every winning payload comes from that latest match |
| Progress.LatestIsLast | src/lib/progress.ts:61-62 | in an increasing scan, a match as late as all others is the one `.at(-1)` returns |
| Progress.ParseProgressStatus | src/lib/progress.ts:46-106 | the parsed document's iteration count is its number of header positions |
| Progress.ContinueIffNoMarker | src/lib/progress.ts:101-105 | the signal is CONTINUE iff neither marker occurs anywhere, and then neither payload is present |
| Progress.LatestMatchWins | src/lib/progress.ts:54-99 | for any document, the kind of the latest match over both scans wins, with that match's capture trimmed |
| Progress.ReadProgressDoc | src/lib/progress.ts:38-44 | the track's document text, or "" when that file is missing or unreadable |
| Progress.ParseTrackProgress | src/lib/progress.ts:38-49 | the parse carries the track and reads that track's own progress document |
| Progress.MissingDocumentContinues | src/lib/progress.ts:38-49 | a missing document yields CONTINUE with no payload and an iteration count of 0 |
| ProgressExamples.LowerCaseMarkerRecognised | src/lib/progress.ts:55 | "ready for fix: x" gives READY_FOR_FIX with root cause "x": the marker is matched ignoring case |
| ProgressExamples.UnderscoreMarkerIgnored | src/lib/progress.ts:55-58 | "READY_FOR_FIX: x" is no marker, so the result is CONTINUE with count 0 |
| ProgressExamples.NextLinePayload | src/lib/progress.ts:58 | "EARLY EXIT:\n  stuck" gives EARLY_EXIT with reason "stuck": `\s*` crosses the newline |
| ProgressExamples.SwallowedMarkerStillWins | src/lib/progress.ts:54-74 | in "EARLY EXIT: READY FOR FIX: y" the ready marker is inside the early payload, yet the ready scan still finds it later, so READY_FOR_FIX "y" wins |
| ProgressExamples.IterationsCounted | src/lib/progress.ts:51-52 | "## Iteration 1\n## Iteration 12\n" counts 2 iterations |
| Tmux.BindRunnerArgs | src/lib/tmux.ts:9-16 | under `set -u` the script binds `$1`..`$6` iff at least six arguments are given, and then takes them in order |
| Tmux.BindRunnerArgsRoundTrip | src/lib/tmux.ts:11-16 | binding the positional list of any parameters gives those parameters back, whatever follows |
| Tmux.RunnerVerdict | src/lib/tmux.ts:20-29 | the runner writes "DONE\n" when the agent exits 0 and "FAILED\n" otherwise |
| Tmux.SessionExists | src/lib/tmux.ts:46-53 | `sessionExists` is true exactly when a session is live, and never throws |
| Tmux.KillSession | src/lib/tmux.ts:37-44 | kill reports true exactly when a session was live; afterwards none is live, and the status file, the runner script and the prompt files are untouched |
| Tmux.KillIdempotent | src/lib/tmux.ts:37-44 | a second kill reports false and changes nothing |
| Tmux.NewSessionArgv | src/lib/tmux.ts:70-82 | the tmux command line has eleven arguments |
| Tmux.LaunchArgsBindInOrder | src/lib/tmux.ts:11-16 | the new-session line names the session and the runner, then feeds `$1`..`$6` as iteration, prompt, worktree, output file, log file, status file |
| Tmux.LaunchCodex | src/lib/tmux.ts:55-83 | an unreadable prompt fails before any effect; otherwise the runner is written; a live session makes new-session fail; with none, a session runs the runner with the launch arguments; the status file is never written or removed |
| Tmux.RunnerExit | src/lib/tmux.ts:18-29 | when the runner exits the session ends and only the status file may change; with no session nothing happens |
| Tmux.ClassifyStatus | src/lib/tmux.ts:92-105 | DONE iff the file exists and trims to "DONE", FAILED iff it trims to "FAILED", otherwise NOT_FOUND, never RUNNING |
| Tmux.PollStatus | src/lib/tmux.ts:85-106 | RUNNING exactly while the session is live, without reading the status file; otherwise the classification of the status file |
| Tmux.VerdictRoundTrip | src/lib/tmux.ts:26-28 | the verdict the runner writes reads back through `trim` as DONE for exit 0 and FAILED otherwise |
| Tmux.PaddedVerdictsClassify | src/lib/tmux.ts:93-99 | whitespace around DONE or FAILED in the status file does not change the classification |
| Tmux.LaunchExitPoll | src/lib/tmux.ts:55-106 | launch, agent exit and poll: RUNNING until the exit, then exactly DONE or FAILED for the exit code |
| Tmux.KilledRunPollsStale | src/lib/tmux.ts:37-44 | a run killed before it finishes polls as the previous verdict, or NOT_FOUND if there was none |
| Tmux.ValidExitPolls | src/lib/tmux.ts:16-29 | from any state where a live session runs the written runner with `$6` the status file, the agent's exit writes its verdict there and the next poll reports DONE for exit 0 and FAILED otherwise |
| Tmux.OperationsPreserveValid | src/lib/tmux.ts:55-83 | kill, launch and exit keep the invariant that a live session runs the written runner script with the status file as `$6` |
| Codex.ValidIteration | src/commands/codex.ts:36-40 | the iteration is accepted iff it parses to a number of at least 1, and it is then that number |
| Codex.CodexRun | src/commands/codex.ts:24-62 | a missing argument or an invalid iteration exits 1 before any session operation; otherwise kill then launch; exit 0 iff the arguments are valid and the prompt readable, with the result naming the validated iteration and the track-b files |
| Codex.RunStartsSession | src/commands/codex.ts:42-55 | after a successful run the session runs the runner with this iteration's files, the status file is unchanged, and poll says RUNNING |
| Codex.KillBeforeLaunch | src/commands/codex.ts:43-47 | the kill comes first; with an unreadable prompt the run exits 1 after the old session is gone |
| Codex.RerunBeforeExitPollsStale | src/commands/codex.ts:43-61 | a run killed by a rerun whose prompt is unreadable leaves the verdict from before both runs to be polled |
| Codex.CodexCommand | src/commands/codex.ts:4-22 | `run` and `poll` dispatch to their handlers and anything else is the usage error; the exit code is 0 exactly for a poll or a successful run |
| Codex.RunExitPoll | src/commands/codex.ts:4-22 | after a successful `codex run`, `codex poll` says RUNNING until the agent exits and then DONE for exit code 0, FAILED otherwise |
| Cleanup.IterNamed | src/commands/cleanup.ts:72-75 | an entry passes `/^debug-track-[ab]-iter\d+SUFFIX$/`: the literal head, a track letter, "-iter", one or more ASCII digits, then the suffix at the end (the characterisation is proved by `IterNameAccepted` and `IterNameParts`) |
| Cleanup.IterNameAccepted | src/commands/cleanup.ts:72-75 | every name "debug-track-" + a/b + "-iter" + digits + suffix passes the filter |
| Cleanup.IterNameParts | src/commands/cleanup.ts:72-75 | every name the filter accepts has that shape, so the filter is exactly the pattern |
| Cleanup.FiltersDisjoint | src/commands/cleanup.ts:72-77 | no entry passes both filters, so each entry is pushed at most once |
| Cleanup.LogFileScanned | src/commands/cleanup.ts:72-73 | for iterations below 10^21, every path `getLogFile` builds is "/tmp/" + an entry the log filter accepts |
| Cleanup.OutputFileScanned | src/commands/cleanup.ts:75-76 | for iterations below 10^21, every path `getOutputFile` builds is "/tmp/" + an entry the output filter accepts |
| Cleanup.FixedTempFiles | src/commands/cleanup.ts:52-67 | the fixed part of the candidate list has fourteen entries |
| Cleanup.FixedTempFilesContents | src/commands/cleanup.ts:52-67 | the fixed list names each track's progress document (the one `getProgressDocPath` reads), prompt, status file and runner script, and the six context files |
| Cleanup.CleanupRemovesFixedFiles | src/commands/cleanup.ts:52-87 | once the session kill has not thrown, every fixed temporary file that exists and can be removed is deleted and reported, whatever /tmp lists, and the others stay |
| Cleanup.FixedTempFilesNotScanned | src/commands/cleanup.ts:52-78 | no fixed temporary file passes either filter, so the /tmp scan never adds one of them a second time |
| Cleanup.ScannedFiles | src/commands/cleanup.ts:69-81 | the scan pushes "/tmp/" + exactly the entries one of the filters accepts, at most one path per entry |
| Cleanup.ScannedFilesAppend | src/commands/cleanup.ts:71-78 | the scan keeps the listing's order |
| Cleanup.TempFileCandidates | src/commands/cleanup.ts:52-81 | the fourteen fixed files come first in source order, then the scanned files; an unreadable /tmp leaves just the fixed list |
| Cleanup.DeleteFile | src/commands/cleanup.ts:6-13 | the unlink succeeds exactly when the path exists and may be removed, and only then is the path gone |
| Cleanup.DeleteFiles | src/commands/cleanup.ts:83-87 | the recorded paths are exactly the candidates that existed and could be removed, without repeats and in candidate order; a failure does not stop later deletions; the remaining files are the others |
| Cleanup.DeleteAll | src/commands/cleanup.ts:83-87 | the loop records exactly the paths whose unlink succeeded, and leaves exactly the other files |
| Cleanup.Archived | src/commands/cleanup.ts:39-46 | an archive name is recorded only when it is present and not empty |
| Cleanup.Cleanup | src/commands/cleanup.ts:15-105 | exit 1 with no effect iff the session kill throws; otherwise exit 0 with the removed worktrees (each at most once, A before B, only on success), the truthy archive names, exactly the deleted temporary files, and the debug-agent lines reported as data |
| Cleanup.CleanupRemovesIterationFiles | src/commands/cleanup.ts:69-87 | with /tmp listed, every log and output file of any track and of any iteration below 10^21 is deleted unless it cannot be removed |
| Cleanup.OneArgumentFilesUnscanned | src/lib/tmux.ts:67-68 | the one-argument calls give every iteration the same log name and the same output name, and neither passes its cleanup filter |
| Cleanup.TwoArgumentFilesScanned | src/lib/types.ts:67-75 | with the track passed, each iteration below 10^21 gets its own log and output names, and both pass the cleanup filters |
| Cleanup.CleanupIdempotent | src/commands/cleanup.ts:6-13 | a second cleanup, with nothing created in between and /tmp listed faithfully, deletes nothing |

## Left out

- Reading and writing files, spawning processes and printing are not
  modelled. The prompt files that can be read, the status file's text and
  the /tmp listing are inputs, and so are the results of the git and grep
  shell-outs in src/lib/git.ts: `removeWorktree`, `archiveBranch` with its
  wall-clock timestamp, and `findDebugAgentLines`.
- The tmux, bash and agent processes are replaced by their observable
  contract. The session is live until the runner exits, and the runner then
  writes DONE or FAILED.
- `createProgressDoc` is not modelled. It only writes a template.
- Writing the runner script is assumed to succeed. A failure there, or any
  `new-session` failure other than a duplicate session name, is not
  modelled.
- Tmux.LaunchCodex: the runner's `$1` and the log and output names carry the
  iteration's exact digits. Above 2^53 JavaScript writes the shortest
  round-trip digits followed by zeros there, and from 10^21 on exponent
  form, and this model does not.
- Tmux.LaunchCodex: follows the intended two-argument calls
  `getLogFile("track-b", iteration)` and `getOutputFile("track-b",
  iteration)`, not the one-argument calls at src/lib/tmux.ts:67-68, which
  name "-iterundefined" files (see Findings).
- Codex.CodexRun: the result's `logFile` and `outputFile` follow the same
  intended two-argument calls, not the one-argument calls at
  src/commands/codex.ts:52-53.
- Strings.NatToString: renders every natural as its exact decimal digits,
  which is JavaScript's `String(n)` only up to 2^53. Above 2^53 JavaScript
  writes the shortest digits that round-trip to the same double, followed by
  zeros, and from 10^21 on exponent form ("1e+21"); this model does neither.
- Types.LogFileParts: the digits it names are the exact decimal rendering.
  For iterations above 2^53 JavaScript's path holds the shortest round-trip
  digits followed by zeros there, and from 10^21 on exponent text.
- Types.OutputFileParts: the same as Types.LogFileParts: exact digits, which
  differ from JavaScript's above 2^53.
- Cleanup.LogFileScanned: stated for iterations below 10^21 only. From there
  on JavaScript writes "1e+21"-style text, which `\d+` rejects.
- Cleanup.OutputFileScanned: stated for iterations below 10^21 only, for the
  same reason.
- Cleanup.CleanupRemovesIterationFiles: stated for iterations below 10^21
  only, for the same reason.
- Tmux.LaunchCodex: takes the iteration as a natural number. The source
  accepts any number, but its only caller passes a validated integer of at
  least 1.
- Codex.ValidIteration: `parseInt` is a parameter, so its quirks ("1abc"
  reads as 1) are not modelled.
- The regular expressions are modelled for LF-only text with ASCII
  case-insensitivity. CR, CRLF, U+2028 and U+2029 line ends and Unicode case
  folding are not modelled.
- The `PATHS` entries that src/lib/types.ts does not define, and the
  missing `killAllSessions`, are modelled as described above. The model
  does not show what actually happens when they are used while undefined.
- Cleanup's `projectRoot` default and its warning printout are not
  modelled. They only affect the shell-outs and stderr.
- Cleanup.Cleanup: worktree removal does not change the modelled file set.
  The worktrees are directories outside the deletion candidates, so their
  removal is visible only through the reported booleans.

## Findings

| source | as written | input that shows it | evidently intended | confidence | as-written member | corrected member |
|---|---|---|---|---|---|---|
| src/lib/tmux.ts:67-68 | `getLogFile(iteration)` and `getOutputFile(iteration)` pass the number as the track and leave `iteration` undefined | `codex run 3 prompt.md` launches the agent with "/tmp/debug-track-b-iterundefined.log" and "/tmp/debug-track-b-iterundefined-out.txt" | `getLogFile("track-b", iteration)` and `getOutputFile("track-b", iteration)` | not executed | Cleanup.OneArgumentFilesUnscanned | Cleanup.TwoArgumentFilesScanned |
| src/commands/codex.ts:52-53 | the run result reports the same one-argument names | `codex run 3 prompt.md` reports `logFile` "/tmp/debug-track-b-iterundefined.log", which `cleanup` does not delete | the two-argument calls, as above | not executed | Cleanup.OneArgumentFilesUnscanned | Cleanup.TwoArgumentFilesScanned |
