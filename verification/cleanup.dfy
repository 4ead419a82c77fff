/**
 * The `cleanup` command (src/commands/cleanup.ts): kill the sessions, remove
 * both worktrees, archive both branches, delete the fixed temporary files and
 * every per-iteration log and output file found in /tmp, and report what
 * was done.
 *
 * Everything outside this module's logic is an input: the outcome of
 * `killAllSessions` (None where it throws), the booleans `removeWorktree`
 * returns, the names `archiveBranch` returns, the /tmp listing (None where
 * `readdir` throws) and the lines `findDebugAgentLines` returns. The file
 * system is the set of paths that exist, together with the set of paths
 * `unlink` refuses to remove.
 */
module Cleanup {
  import opened Wrappers
  import opened Strings
  import opened Types

  const LogSuffix: string := ".log"
  const OutSuffix: string := "-out.txt"

  /** `/^debug-track-[ab]-iter\d+SUFFIX$/` applied to a directory entry: the
      literal head, a track letter, "-iter", at least one ASCII digit, and the
      suffix ending the entry. */
  predicate IterNamed(e: string, suffix: string) {
    && |e| > 18 + |suffix|
    && e[..12] == "debug-track-"
    && (e[12] == 'a' || e[12] == 'b')
    && e[13..18] == "-iter"
    && EndsWith(e, suffix)
    && AllDigits(e[18..|e| - |suffix|])
  }

  /** The entry a track letter and a digit string spell with a suffix. */
  function IterName(letter: char, digits: string, suffix: string): string {
    "debug-track-" + [letter] + "-iter" + digits + suffix
  }

  /** Every entry the pattern describes is accepted ... */
  lemma IterNameAccepted(letter: char, digits: string, suffix: string)
    requires letter == 'a' || letter == 'b'
    requires |digits| > 0 && AllDigits(digits)
    ensures IterNamed(IterName(letter, digits, suffix), suffix)
  {
    var e := IterName(letter, digits, suffix);
    assert e[..12] == "debug-track-";
    assert e[13..18] == "-iter";
    assert e[|e| - |suffix|..] == suffix;
    assert e[18..|e| - |suffix|] == digits;
  }

  /** ... and every accepted entry is one the pattern describes. */
  lemma IterNameParts(e: string, suffix: string)
    requires IterNamed(e, suffix)
    ensures e == IterName(e[12], e[18..|e| - |suffix|], suffix)
  {
    var n := |e| - |suffix|;
    calc {
      e;
      e[..12] + e[12..13] + e[13..18] + e[18..n] + e[n..];
      { assert e[12..13] == [e[12]]; }
      IterName(e[12], e[18..n], suffix);
    }
  }

  /** The two filters never accept the same entry, so an entry is pushed at
      most once. */
  lemma FiltersDisjoint(e: string)
    ensures !(IterNamed(e, LogSuffix) && IterNamed(e, OutSuffix))
  {
    if IterNamed(e, LogSuffix) {
      SuffixLast(e, LogSuffix);
    }
    if IterNamed(e, OutSuffix) {
      SuffixLast(e, OutSuffix);
    }
  }

  lemma SuffixLast(e: string, suffix: string)
    requires |suffix| > 0 && EndsWith(e, suffix)
    ensures e[|e| - 1] == suffix[|suffix| - 1]
  {
    assert e[|e| - |suffix|..][|suffix| - 1] == e[|e| - 1];
  }

  /** The log `getLogFile` names is "/tmp/" + an entry the log filter accepts. */
  lemma LogFileScanned(t: Track, i: nat)
    requires i < PlainDecimalBound
    ensures var e := IterName(TrackLetter(t), NatToString(i), LogSuffix);
      GetLogFile(t, i) == "/tmp/" + e && IterNamed(e, LogSuffix)
  {
    var e := IterName(TrackLetter(t), NatToString(i), LogSuffix);
    assert GetLogFile(t, i) == "/tmp/" + e;
    IterNameAccepted(TrackLetter(t), NatToString(i), LogSuffix);
  }

  /** The output `getOutputFile` names is "/tmp/" + an entry the output
      filter accepts. */
  lemma OutputFileScanned(t: Track, i: nat)
    requires i < PlainDecimalBound
    ensures var e := IterName(TrackLetter(t), NatToString(i), OutSuffix);
      GetOutputFile(t, i) == "/tmp/" + e && IterNamed(e, OutSuffix)
  {
    var e := IterName(TrackLetter(t), NatToString(i), OutSuffix);
    assert GetOutputFile(t, i) == "/tmp/" + e;
    IterNameAccepted(TrackLetter(t), NatToString(i), OutSuffix);
  }

  /** The temporary files deleted whatever /tmp holds, in order: both
      progress documents, the six context files, and each track's prompt,
      status file and runner script. */
  function FixedTempFiles(): (r: seq<string>)
    ensures |r| == 14
  {
    var a := GetTrackPaths(TrackA);
    var b := GetTrackPaths(TrackB);
    [TrackAProgress, TrackBProgress,
     ContextFile, ContextPrompt, ContextStatus, ContextLog, ContextOutput, ContextRunner,
     a.prompt, a.status, a.runner,
     b.prompt, b.status, b.runner]
  }

  /** Which files the fixed list names: each track's progress document,
      prompt, status file and runner script, and the six context files. */
  lemma FixedTempFilesContents()
    ensures var r := FixedTempFiles();
      && (forall t: Track ::
            && GetProgressDocPath(t) in r && GetTrackPaths(t).prompt in r
            && GetTrackPaths(t).status in r && GetTrackPaths(t).runner in r)
      && ContextFile in r && ContextPrompt in r && ContextStatus in r
      && ContextLog in r && ContextOutput in r && ContextRunner in r
  {
  }

  /** `f` is "/tmp/" + an entry one of the filters accepts. */
  predicate IsIterationPath(f: string) {
    StartsWith(f, "/tmp/") && (IterNamed(f[5..], LogSuffix) || IterNamed(f[5..], OutSuffix))
  }

  /** No fixed temporary file is one the /tmp scan could add again. */
  lemma FixedTempFilesNotScanned()
    ensures forall f | f in FixedTempFiles() :: !IsIterationPath(f)
  {
    var r := FixedTempFiles();
    TrackFilesNotIteration(TrackA);
    TrackFilesNotIteration(TrackB);
    PlaceholderNotIteration(ContextFile);
    PlaceholderNotIteration(ContextPrompt);
    PlaceholderNotIteration(ContextStatus);
    PlaceholderNotIteration(ContextLog);
    PlaceholderNotIteration(ContextOutput);
    PlaceholderNotIteration(ContextRunner);
  }

  lemma TrackFilesNotIteration(t: Track)
    ensures var p := GetTrackPaths(t);
      && !IsIterationPath(GetProgressDocPath(t)) && !IsIterationPath(p.prompt)
      && !IsIterationPath(p.status) && !IsIterationPath(p.runner)
  {
    BuiltPathNotIteration(t, "-progress.md");
    BuiltPathNotIteration(t, "-prompt.md");
    BuiltPathNotIteration(t, ".status");
    BuiltPathNotIteration(t, "-runner.sh");
  }

  /** A track path whose rest does not have the 'i' of "-iter" second is
      no iteration file. */
  lemma BuiltPathNotIteration(t: Track, rest: string)
    requires |rest| > 1 && rest[1] != 'i'
    ensures !IsIterationPath("/tmp/" + TrackPrefix(t) + rest)
  {
    var e := ("/tmp/" + TrackPrefix(t) + rest)[5..];
    assert e[14] == rest[1];
    IterNamedSecondIsI(e, LogSuffix);
    IterNamedSecondIsI(e, OutSuffix);
  }

  lemma IterNamedSecondIsI(e: string, suffix: string)
    ensures IterNamed(e, suffix) ==> e[14] == 'i'
  {
    if IterNamed(e, suffix) {
      assert e[13..18][1] == e[14];
    }
  }

  lemma PlaceholderNotIteration(f: string)
    requires |f| > 0 && f[0] == 'P'
    ensures !IsIterationPath(f)
  {
  }

  /** `f` is "/tmp/" + an entry of the listing one of the filters accepts. */
  predicate IsScanned(f: string, entries: seq<string>) {
    IsIterationPath(f) && f[5..] in entries
  }

  lemma TmpPath(e: string)
    ensures StartsWith("/tmp/" + e, "/tmp/") && ("/tmp/" + e)[5..] == e
  {
    assert ("/tmp/" + e)[..5] == "/tmp/";
  }

  lemma TmpPathOf(f: string)
    requires StartsWith(f, "/tmp/")
    ensures f == "/tmp/" + f[5..]
  {
    assert f == f[..5] + f[5..];
  }

  /** One step of the scan: the paths pushed for the first entry, followed by
      those of the rest, are the scanned paths of the whole listing. */
  lemma ScanStep(entries: seq<string>, head: seq<string>, tail: seq<string>)
    requires |entries| > 0
    requires forall f :: f in head <==>
               f == "/tmp/" + entries[0] &&
               (IterNamed(entries[0], LogSuffix) || IterNamed(entries[0], OutSuffix))
    requires forall f :: f in tail <==> IsScanned(f, entries[1..])
    ensures forall f :: f in head + tail <==> IsScanned(f, entries)
  {
    TmpPath(entries[0]);
    forall f
      ensures f in head + tail <==> IsScanned(f, entries)
    {
      if IsScanned(f, entries) && f[5..] == entries[0] {
        TmpPathOf(f);
      } else if IsScanned(f, entries) {
        assert f[5..] in entries[1..] by {
          var k :| 0 <= k < |entries| && entries[k] == f[5..];
          assert entries[1..][k - 1] == entries[k];
        }
      }
    }
  }

  /** The loop over the /tmp listing: for each entry, one push if the log
      filter accepts it and one if the output filter does, in listing order. */
  function ScannedFiles(entries: seq<string>): (r: seq<string>)
    ensures |r| <= |entries|
    ensures forall f :: f in r <==> IsScanned(f, entries)
  {
    if |entries| == 0 then []
    else
      var rest := ScannedFiles(entries[1..]);
      FiltersDisjoint(entries[0]);
      ScanStep(entries, ScanHead(entries[0]), rest);
      ScanHead(entries[0]) + rest
  }

  /** What one entry pushes: a path if the log filter accepts it, then a
      path if the output filter does. */
  function ScanHead(e: string): seq<string> {
    (if IterNamed(e, LogSuffix) then ["/tmp/" + e] else [])
    + (if IterNamed(e, OutSuffix) then ["/tmp/" + e] else [])
  }

  /** The scan keeps the listing's order: scanning two listings one after the
      other is scanning them joined. */
  lemma {:induction false} ScannedFilesAppend(a: seq<string>, b: seq<string>)
    ensures ScannedFiles(a + b) == ScannedFiles(a) + ScannedFiles(b)
    decreases |a|
  {
    if |a| > 0 {
      var head := ScanHead(a[0]);
      assert (a + b)[0] == a[0];
      assert (a + b)[1..] == a[1..] + b;
      assert ScannedFiles(a + b) == head + ScannedFiles(a[1..] + b);
      ScannedFilesAppend(a[1..], b);
      assert head + (ScannedFiles(a[1..]) + ScannedFiles(b))
          == (head + ScannedFiles(a[1..])) + ScannedFiles(b);
    } else {
      assert a + b == b;
    }
  }

  /** The list of files to delete: the fixed ones, then what the listing
      contributes (nothing when /tmp could not be read). */
  function TempFileCandidates(listing: Option<seq<string>>): (r: seq<string>)
    ensures |r| >= 14 && r[..14] == FixedTempFiles()
    ensures forall f :: f in r[14..] <==> listing.Some? && IsScanned(f, listing.value)
    ensures listing.None? ==> r == FixedTempFiles()
  {
    var scanned := if listing.Some? then ScannedFiles(listing.value) else [];
    var r := FixedTempFiles() + scanned;
    assert r[14..] == scanned;
    r
  }

  /** `a` is `b` with some elements left out, the rest in their order. */
  predicate IsSubsequence<T(==)>(a: seq<T>, b: seq<T>)
    decreases |b|
  {
    || |a| == 0
    || (&& |b| > 0
        && if a[0] == b[0] then IsSubsequence(a[1..], b[1..]) else IsSubsequence(a, b[1..]))
  }

  /** What a run of `deleteFile` over the candidates leaves behind. */
  datatype Deletion = Deletion(deleted: seq<string>, remaining: set<string>)

  /** `deleteFile`: unlink the path, reporting success instead of throwing.
      It succeeds exactly when the path exists and may be removed, and only
      then is the path gone. */
  function DeleteFile(path: string, fs: set<string>, protected: set<string>): (r: (bool, set<string>))
    ensures r.0 <==> path in fs && path !in protected
    ensures forall p :: p in r.1 <==> p in fs && !(r.0 && p == path)
  {
    if path in fs && path !in protected then (true, fs - {path}) else (false, fs)
  }

  /** `deleteFile` applied to each candidate in turn: an unlink succeeds when
      the path exists and may be removed, and a failure does not stop the
      candidates after it. */
  function DeleteFiles(candidates: seq<string>, fs: set<string>, protected: set<string>): (r: Deletion)
    ensures forall p :: p in r.deleted <==> p in candidates && p in fs && p !in protected
    ensures forall p :: p in r.remaining <==> p in fs && p !in r.deleted
    ensures forall i, j | 0 <= i < j < |r.deleted| :: r.deleted[i] != r.deleted[j]
    ensures |r.deleted| <= |candidates|
    ensures IsSubsequence(r.deleted, candidates)
    decreases |candidates|
  {
    if |candidates| == 0 then Deletion([], fs)
    else
      var f := candidates[0];
      assert forall p :: p in candidates <==> p == f || p in candidates[1..];
      var (ok, fs1) := DeleteFile(f, fs, protected);
      if ok then
        var rest := DeleteFiles(candidates[1..], fs1, protected);
        var r := Deletion([f] + rest.deleted, rest.remaining);
        assert forall j | 0 < j < |r.deleted| :: r.deleted[j] == rest.deleted[j - 1];
        r
      else
        DeleteFiles(candidates[1..], fs, protected)
  }

  /** The deletion loop of `cleanup`, which records each path whose unlink
      succeeded. It computes `DeleteFiles`, so what that function promises
      holds of its results. */
  method DeleteAll(candidates: seq<string>, fs: set<string>, protected: set<string>)
    returns (deleted: seq<string>, remaining: set<string>)
    ensures Deletion(deleted, remaining) == DeleteFiles(candidates, fs, protected)
    ensures forall p :: p in deleted <==> p in candidates && p in fs && p !in protected
    ensures forall p :: p in remaining <==> p in fs && p !in deleted
  {
    deleted := [];
    remaining := fs;
    var i := 0;
    while i < |candidates|
      invariant 0 <= i <= |candidates|
      invariant Deletion(deleted, remaining) == DeleteFiles(candidates[..i], fs, protected)
    {
      var unlinked := DeleteFile(candidates[i], remaining, protected);
      DeleteFilesSnoc(candidates[..i], candidates[i], fs, protected);
      assert candidates[..i + 1] == candidates[..i] + [candidates[i]];
      if unlinked.0 {
        deleted := deleted + [candidates[i]];
      }
      remaining := unlinked.1;
      i := i + 1;
    }
    assert candidates[..i] == candidates;
    var d := DeleteFiles(candidates, fs, protected);
    assert deleted == d.deleted && remaining == d.remaining;
  }

  /** Deleting one more candidate at the end: the run over the others, then
      that candidate's unlink against what they left. */
  lemma {:induction false} DeleteFilesSnoc(candidates: seq<string>, last: string,
                                           fs: set<string>, protected: set<string>)
    ensures var d := DeleteFiles(candidates, fs, protected);
            var u := DeleteFile(last, d.remaining, protected);
      DeleteFiles(candidates + [last], fs, protected) ==
        Deletion(if u.0 then d.deleted + [last] else d.deleted, u.1)
    decreases |candidates|
  {
    var all := candidates + [last];
    if |candidates| == 0 {
      assert all[1..] == [];
    } else {
      var f := candidates[0];
      assert all[0] == f && all[1..] == candidates[1..] + [last];
      var u0 := DeleteFile(f, fs, protected);
      DeleteFilesSnoc(candidates[1..], last, u0.1, protected);
      if u0.0 {
        var rest := DeleteFiles(candidates[1..], u0.1, protected);
        var u := DeleteFile(last, rest.remaining, protected);
        if u.0 {
          assert [f] + (rest.deleted + [last]) == [f] + rest.deleted + [last];
        }
      }
    }
  }

  /** The outcomes of the calls `cleanup` makes outside this module. */
  datatype Environment = Environment(
    killAll: Option<bool>,
    removedA: bool,
    removedB: bool,
    archivedA: Option<string>,
    archivedB: Option<string>,
    listing: Option<seq<string>>,
    debugAgentLines: seq<string>)

  /** Exit code, the JSON result printed on success, and the paths left. */
  datatype CleanupOutcome = CleanupOutcome(
    exitCode: int,
    result: Option<CleanupResult>,
    fs: set<string>)

  /** An archive name is recorded only when it is truthy: present and not
      the empty string. */
  function Archived(name: Option<string>): (r: seq<string>)
    ensures |r| <= 1
    ensures forall b :: b in r <==> name == Some(b) && b != ""
  {
    if name.Some? && name.value != "" then [name.value] else []
  }

  /** `cleanup`. */
  function Cleanup(env: Environment, fs: set<string>, protected: set<string>): (o: CleanupOutcome)
    // the only call that can throw is the session kill; it aborts everything
    ensures o.exitCode == 0 || o.exitCode == 1
    ensures o.exitCode == 0 <==> o.result.Some?
    ensures env.killAll.None? <==> o.exitCode == 1
    ensures env.killAll.None? ==> o == CleanupOutcome(1, None, fs)
    ensures o.result.Some? ==>
              var r := o.result.value;
              var d := DeleteFiles(TempFileCandidates(env.listing), fs, protected);
      && r.tmuxKilled == env.killAll.value
      // worktrees, A before B, each only if its removal succeeded
      && (forall w :: w in r.worktreesRemoved <==>
            (w == TrackAWorktree && env.removedA) || (w == TrackBWorktree && env.removedB))
      && |r.worktreesRemoved| == (if env.removedA then 1 else 0) + (if env.removedB then 1 else 0)
      && (env.removedA && env.removedB ==> r.worktreesRemoved == [TrackAWorktree, TrackBWorktree])
      // archived branches: the truthy names, A before B
      && (forall b :: b in r.branchesArchived <==>
            (env.archivedA == Some(b) || env.archivedB == Some(b)) && b != "")
      && r.branchesArchived == Archived(env.archivedA) + Archived(env.archivedB)
      && r.tempFilesDeleted == d.deleted && o.fs == d.remaining
      && r.debugAgentLines == env.debugAgentLines
  {
    match env.killAll
    case None => CleanupOutcome(1, None, fs)
    case Some(killed) =>
      var worktrees := (if env.removedA then [TrackAWorktree] else [])
                     + (if env.removedB then [TrackBWorktree] else []);
      var branches := Archived(env.archivedA) + Archived(env.archivedB);
      var d := DeleteFiles(TempFileCandidates(env.listing), fs, protected);
      var result := CleanupResult(killed, worktrees, branches, d.deleted, env.debugAgentLines);
      CleanupOutcome(0, Some(result), d.remaining)
  }

  /** The listing names exactly the paths under /tmp that exist. `readdir`
      lists only direct children, while this also takes in nested paths
      ("a/b" for "/tmp/a/b"); the difference is irrelevant here, because no
      entry containing '/' passes either filter. */
  ghost predicate Lists(listing: seq<string>, fs: set<string>) {
    forall e :: e in listing <==> InTmp(e, fs)
  }

  predicate InTmp(e: string, fs: set<string>) {
    "/tmp/" + e in fs
  }

  /** Cleanup removes every fixed temporary file that exists and can be
      removed, whatever /tmp lists; the others stay. */
  lemma CleanupRemovesFixedFiles(env: Environment, fs: set<string>, protected: set<string>,
                                 f: string)
    requires env.killAll.Some? && f in FixedTempFiles()
    ensures var o := Cleanup(env, fs, protected);
      && (f in o.fs <==> f in fs && f in protected)
      && (f in o.result.value.tempFilesDeleted <==> f in fs && f !in protected)
  {
    var cands := TempFileCandidates(env.listing);
    assert f in cands[..14];
  }

  /** Cleanup removes every existing, removable log and output file of every
      track and iteration, once /tmp can be listed. */
  lemma CleanupRemovesIterationFiles(env: Environment, fs: set<string>, protected: set<string>,
                                     t: Track, i: nat)
    requires i < PlainDecimalBound
    requires env.killAll.Some? && env.listing.Some? && Lists(env.listing.value, fs)
    ensures var o := Cleanup(env, fs, protected);
      && (GetLogFile(t, i) in o.fs <==> GetLogFile(t, i) in fs && GetLogFile(t, i) in protected)
      && (GetOutputFile(t, i) in o.fs <==> GetOutputFile(t, i) in fs && GetOutputFile(t, i) in protected)
      && (GetLogFile(t, i) in fs && GetLogFile(t, i) !in protected ==>
            GetLogFile(t, i) in o.result.value.tempFilesDeleted)
      && (GetOutputFile(t, i) in fs && GetOutputFile(t, i) !in protected ==>
            GetOutputFile(t, i) in o.result.value.tempFilesDeleted)
  {
    var listing := env.listing.value;
    var cands := TempFileCandidates(env.listing);
    LogFileScanned(t, i);
    OutputFileScanned(t, i);
    var log := GetLogFile(t, i);
    var out := GetOutputFile(t, i);
    TmpPath(log[5..]);
    TmpPath(out[5..]);
    if log in fs {
      assert InTmp(log[5..], fs);
      assert IsScanned(log, listing);
      assert log in cands[14..];
    }
    if out in fs {
      assert InTmp(out[5..], fs);
      assert IsScanned(out, listing);
      assert out in cands[14..];
    }
  }

  /** The one-argument calls `getLogFile(iteration)` and
      `getOutputFile(iteration)` of src/lib/tmux.ts and src/commands/codex.ts
      build the same two names for every iteration, and cleanup's filters
      accept neither of them. */
  lemma OneArgumentFilesUnscanned(i: nat, j: nat)
    ensures OneArgumentFile(i, LogSuffix) == OneArgumentFile(j, LogSuffix)
    ensures OneArgumentFile(i, OutSuffix) == OneArgumentFile(j, OutSuffix)
    ensures !IsIterationPath(OneArgumentFile(i, LogSuffix))
    ensures !IsIterationPath(OneArgumentFile(i, OutSuffix))
  {
    var log := OneArgumentFile(i, LogSuffix)[5..];
    var out := OneArgumentFile(i, OutSuffix)[5..];
    assert log[18] == 'u' && out[18] == 'u';
    IterNamedDigitFirst(log, LogSuffix);
    IterNamedDigitFirst(log, OutSuffix);
    IterNamedDigitFirst(out, LogSuffix);
    IterNamedDigitFirst(out, OutSuffix);
  }

  lemma IterNamedDigitFirst(e: string, suffix: string)
    ensures IterNamed(e, suffix) ==> IsDigit(e[18])
  {
    if IterNamed(e, suffix) {
      assert e[18..|e| - |suffix|][0] == e[18];
    }
  }

  /** The intended calls `getLogFile("track-b", iteration)` and
      `getOutputFile("track-b", iteration)`: every iteration gets its own
      two names, and cleanup's filters accept both. */
  lemma TwoArgumentFilesScanned(i: nat, j: nat)
    requires i < PlainDecimalBound
    ensures IsIterationPath(GetLogFile(TrackB, i))
    ensures IsIterationPath(GetOutputFile(TrackB, i))
    ensures i != j ==> GetLogFile(TrackB, i) != GetLogFile(TrackB, j)
    ensures i != j ==> GetOutputFile(TrackB, i) != GetOutputFile(TrackB, j)
  {
    LogFileScanned(TrackB, i);
    OutputFileScanned(TrackB, i);
    TmpPath(GetLogFile(TrackB, i)[5..]);
    TmpPath(GetOutputFile(TrackB, i)[5..]);
    LogFileInjective(TrackB, i, TrackB, j);
    OutputFileInjective(TrackB, i, TrackB, j);
  }

  /** Running cleanup a second time, with nothing created in between and
      /tmp listed faithfully both times, deletes nothing: every candidate of
      the second run was a candidate of the first, and whatever of it is left
      cannot be removed. */
  lemma CleanupIdempotent(env1: Environment, env2: Environment, fs: set<string>,
                          protected: set<string>)
    requires env1.killAll.Some? && env2.killAll.Some?
    requires env1.listing.Some? && Lists(env1.listing.value, fs)
    requires env2.listing.Some? &&
             Lists(env2.listing.value, Cleanup(env1, fs, protected).fs)
    ensures var first := Cleanup(env1, fs, protected);
      Cleanup(env2, first.fs, protected).result.value.tempFilesDeleted == []
  {
    var first := Cleanup(env1, fs, protected);
    var c1 := TempFileCandidates(env1.listing);
    var c2 := TempFileCandidates(env2.listing);
    var d1 := DeleteFiles(c1, fs, protected);
    var second := DeleteFiles(c2, first.fs, protected);
    assert first.fs == d1.remaining;
    forall p | p in c2 && p in first.fs
      ensures p in protected
    {
      SecondCandidateWasFirst(env1.listing.value, env2.listing.value, fs, first.fs, p);
    }
    NonEmptyHasHead(second.deleted);
  }

  /** A path the second run would try that still exists was a candidate of
      the first run: either a fixed file, or an entry the first listing
      showed because the path existed then. */
  lemma SecondCandidateWasFirst(listing1: seq<string>, listing2: seq<string>,
                                fs: set<string>, fs1: set<string>, p: string)
    requires Lists(listing1, fs) && Lists(listing2, fs1) && fs1 <= fs
    requires p in TempFileCandidates(Some(listing2)) && p in fs1
    ensures p in TempFileCandidates(Some(listing1))
  {
    var c1 := TempFileCandidates(Some(listing1));
    var c2 := TempFileCandidates(Some(listing2));
    assert c1 == c1[..14] + c1[14..];
    assert c2 == c2[..14] + c2[14..];
    if p in c2[14..] {
      assert IsScanned(p, listing2);
      TmpPathOf(p);
      assert InTmp(p[5..], fs1);
      assert InTmp(p[5..], fs);
      assert IsScanned(p, listing1);
      assert p in c1[14..];
    } else {
      assert p in c1[..14];
    }
  }

  lemma NonEmptyHasHead<T>(s: seq<T>)
    ensures |s| > 0 ==> s[0] in s
  {
  }
}
