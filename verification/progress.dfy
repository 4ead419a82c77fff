/**
 * The progress-signal parser (src/lib/progress.ts): two global,
 * case-insensitive regular-expression scans for the READY FOR FIX and
 * EARLY EXIT markers, resolution of the effective signal by the offset of
 * each scan's last match, and the count of "## Iteration N" headers.
 *
 * The scans follow `String.prototype.matchAll` (ECMA-262, section 22.2) on
 * LF-only text: the marker is compared case-insensitively, `\s*` greedily
 * takes whitespace (newlines included), the lazy capture `(.*?)` runs to the
 * next '\n' or the end of the text, the newline is consumed, and the next
 * search resumes after the match.
 */
module Progress {
  import opened Wrappers
  import opened Strings
  import opened Types

  const ReadyMarker: string := "READY FOR FIX:"
  const EarlyMarker: string := "EARLY EXIT:"
  const IterationHeader: string := "## Iteration "

  /** Case folding of a non-Unicode `/i` pattern. ECMAScript's Canonicalize
      upper-cases, but never maps a non-ASCII character onto an ASCII one,
      so for the ASCII markers here ASCII upper-casing is exact. */
  function AsciiUpper(c: char): char {
    if 'a' <= c <= 'z' then (c as int - 32) as char else c
  }

  /** The marker occurs at position `p`, ignoring case. */
  predicate MarkerAt(text: string, marker: string, p: nat) {
    && p + |marker| <= |text|
    && forall k | 0 <= k < |marker| :: AsciiUpper(text[p + k]) == AsciiUpper(marker[k])
  }

  /** End of the whitespace run starting at `i` (what a greedy `\s*` eats). */
  function SkipSpace(text: string, i: nat): (j: nat)
    requires i <= |text|
    ensures i <= j <= |text|
    ensures AllSpace(text[i..j])
    ensures forall k | i <= k < j :: IsSpace(text[k])
    ensures j < |text| ==> !IsSpace(text[j])
    decreases |text| - i
  {
    if i == |text| || !IsSpace(text[i]) then i
    else
      var j := SkipSpace(text, i + 1);
      assert forall k | i + 1 <= k < j :: text[i + 1..j][k - i - 1] == text[k];
      assert forall k | i <= k < j :: text[i..j][k - i] == text[k];
      j
  }

  /** The first '\n' at or after `i`, or the end of the text. */
  function LineEnd(text: string, i: nat): (j: nat)
    requires i <= |text|
    ensures i <= j <= |text|
    ensures '\n' !in text[i..j]
    ensures forall k | i <= k < j :: text[k] != '\n'
    ensures j < |text| ==> text[j] == '\n'
    decreases |text| - i
  {
    if i == |text| || text[i] == '\n' then i
    else
      var j := LineEnd(text, i + 1);
      assert text[i..j] == [text[i]] + text[i + 1..j];
      j
  }

  /** One regular-expression match: where it starts, where its capture
      group starts, the capture, and where the next search resumes. */
  datatype Match = Match(index: nat, start: nat, capture: string, end: nat)

  /** The match of `MARKER\s*(.*?)(?:\n|$)` at a position where the marker
      occurs. It always succeeds there: the capture may be empty only at the
      end of the text. */
  function MatchAt(text: string, marker: string, p: nat): (m: Match)
    requires MarkerAt(text, marker, p)
    ensures m.index == p
    ensures p + |marker| <= m.start <= m.start + |m.capture| <= m.end <= |text|
    // `\s*` ate only whitespace, and all of it
    ensures AllSpace(text[p + |marker|..m.start])
    ensures m.start < |text| ==> !IsSpace(text[m.start])
    // the capture is the rest of a single line
    ensures m.capture == text[m.start..m.start + |m.capture|]
    ensures '\n' !in m.capture
    // it stops at the first newline, which the match consumes, or at the end
    ensures || (m.start + |m.capture| == |text| && m.end == |text|)
            || (text[m.start + |m.capture|] == '\n' && m.end == m.start + |m.capture| + 1)
    ensures m.capture == [] ==> m.end == |text|
  {
    var s := SkipSpace(text, p + |marker|);
    var e := LineEnd(text, s);
    Match(p, s, text[s..e], if e < |text| then e + 1 else e)
  }

  /** Position `q` lies inside one of the matches. */
  ghost predicate Covered(ms: seq<Match>, q: nat) {
    exists i | 0 <= i < |ms| :: ms[i].index <= q < ms[i].end
  }

  /** Every element is the match at a marker position at or after `from`. */
  ghost predicate ChainMatches(text: string, marker: string, from: nat, ms: seq<Match>) {
    forall i | 0 <= i < |ms| ::
      && from <= ms[i].index
      && MarkerAt(text, marker, ms[i].index)
      && ms[i] == MatchAt(text, marker, ms[i].index)
  }

  /** The matches come in order and do not overlap. */
  ghost predicate ChainOrdered(ms: seq<Match>) {
    forall i, j | 0 <= i < j < |ms| :: ms[i].end <= ms[j].index
  }

  /** Every marker occurrence at or after `from` starts a match or lies
      inside one. */
  ghost predicate ChainCovers(text: string, marker: string, from: nat, ms: seq<Match>) {
    forall q: nat {:trigger Covered(ms, q)} | from <= q && MarkerAt(text, marker, q) :: Covered(ms, q)
  }

  /** `ms` is what a global scan from `from` returns: matches at marker
      positions at or after `from`, in order and not overlapping, such that
      every marker occurrence at or after `from` is the start of a match or
      lies inside one (a marker inside a consumed payload is not matched
      again). */
  ghost predicate LeftmostChain(text: string, marker: string, from: nat, ms: seq<Match>) {
    ChainMatches(text, marker, from, ms) && ChainOrdered(ms) && ChainCovers(text, marker, from, ms)
  }

  lemma ChainSkip(text: string, marker: string, from: nat, ms: seq<Match>)
    requires !MarkerAt(text, marker, from)
    requires LeftmostChain(text, marker, from + 1, ms)
    ensures LeftmostChain(text, marker, from, ms)
  {
    forall q: nat | from <= q && MarkerAt(text, marker, q)
      ensures Covered(ms, q)
    {
      assert from + 1 <= q;
    }
  }

  lemma ChainCons(text: string, marker: string, from: nat, ms: seq<Match>)
    requires 0 < |marker| && MarkerAt(text, marker, from)
    requires LeftmostChain(text, marker, MatchAt(text, marker, from).end, ms)
    ensures LeftmostChain(text, marker, from, [MatchAt(text, marker, from)] + ms)
  {
    ConsMatches(text, marker, from, ms);
    ConsOrdered(MatchAt(text, marker, from), ms);
    ConsCovers(text, marker, from, ms);
  }

  lemma ConsMatches(text: string, marker: string, from: nat, ms: seq<Match>)
    requires 0 < |marker| && MarkerAt(text, marker, from)
    requires ChainMatches(text, marker, MatchAt(text, marker, from).end, ms)
    ensures ChainMatches(text, marker, from, [MatchAt(text, marker, from)] + ms)
  {
    var all := [MatchAt(text, marker, from)] + ms;
    forall i | 0 <= i < |all|
      ensures from <= all[i].index && MarkerAt(text, marker, all[i].index)
      ensures all[i] == MatchAt(text, marker, all[i].index)
    {
      if i > 0 {
        assert all[i] == ms[i - 1];
      }
    }
  }

  lemma ConsOrdered(m: Match, ms: seq<Match>)
    requires ChainOrdered(ms)
    requires forall i | 0 <= i < |ms| :: m.end <= ms[i].index
    ensures ChainOrdered([m] + ms)
  {
    var all := [m] + ms;
    forall i, j | 0 <= i < j < |all|
      ensures all[i].end <= all[j].index
    {
      assert all[j] == ms[j - 1];
      if i > 0 {
        assert all[i] == ms[i - 1];
      }
    }
  }

  lemma ConsCovers(text: string, marker: string, from: nat, ms: seq<Match>)
    requires 0 < |marker| && MarkerAt(text, marker, from)
    requires ChainCovers(text, marker, MatchAt(text, marker, from).end, ms)
    ensures ChainCovers(text, marker, from, [MatchAt(text, marker, from)] + ms)
  {
    var m := MatchAt(text, marker, from);
    var all := [m] + ms;
    forall q: nat | from <= q && MarkerAt(text, marker, q)
      ensures Covered(all, q)
    {
      if q < m.end {
        assert all[0].index <= q < all[0].end;
      } else {
        assert Covered(ms, q);
        var i :| 0 <= i < |ms| && ms[i].index <= q < ms[i].end;
        assert all[i + 1] == ms[i];
      }
    }
  }

  /** The global scan (`matchAll`): search for the marker from `from`; on a
      match, record it and resume where it ended. */
  function Scan(text: string, marker: string, from: nat): (ms: seq<Match>)
    requires 0 < |marker| && from <= |text|
    ensures LeftmostChain(text, marker, from, ms)
    decreases |text| - from
  {
    if from == |text| then []
    else if MarkerAt(text, marker, from) then
      var m := MatchAt(text, marker, from);
      var rest := Scan(text, marker, m.end);
      ChainCons(text, marker, from, rest);
      [m] + rest
    else
      var rest := Scan(text, marker, from + 1);
      ChainSkip(text, marker, from, rest);
      rest
  }

  /** Dropping the first match leaves the scan that resumes after it. */
  lemma ChainTail(text: string, marker: string, from: nat, ms: seq<Match>)
    requires 0 < |marker| && |ms| > 0 && LeftmostChain(text, marker, from, ms)
    ensures LeftmostChain(text, marker, ms[0].end, ms[1..])
  {
    var tail := ms[1..];
    assert ChainMatches(text, marker, ms[0].end, tail) by {
      forall i | 0 <= i < |tail|
        ensures ms[0].end <= tail[i].index
      {
        assert tail[i] == ms[i + 1];
      }
    }
    assert ChainOrdered(tail) by {
      forall i, j | 0 <= i < j < |tail|
        ensures tail[i].end <= tail[j].index
      {
        assert tail[i] == ms[i + 1] && tail[j] == ms[j + 1];
      }
    }
    assert ChainCovers(text, marker, ms[0].end, tail) by {
      forall q: nat | ms[0].end <= q && MarkerAt(text, marker, q)
        ensures Covered(tail, q)
      {
        assert Covered(ms, q);
        var i :| 0 <= i < |ms| && ms[i].index <= q < ms[i].end;
        assert i != 0;
        assert tail[i - 1] == ms[i];
      }
    }
  }

  /** The first match of a chain is at the first marker occurrence. */
  lemma FirstMatchLeftmost(text: string, marker: string, from: nat, ms: seq<Match>, q: nat)
    requires 0 < |marker| && |ms| > 0 && LeftmostChain(text, marker, from, ms)
    requires from <= q && MarkerAt(text, marker, q)
    ensures ms[0].index <= q
  {
    assert Covered(ms, q);
    var i :| 0 <= i < |ms| && ms[i].index <= q < ms[i].end;
    if i > 0 {
      assert ms[0].end <= ms[i].index;
    }
  }

  /** Two chains from the same position start with the same match. */
  lemma ChainHeadsAgree(text: string, marker: string, from: nat, ms1: seq<Match>, ms2: seq<Match>)
    requires 0 < |marker| && |ms1| > 0 && |ms2| > 0
    requires LeftmostChain(text, marker, from, ms1)
    requires LeftmostChain(text, marker, from, ms2)
    ensures ms1[0] == ms2[0]
  {
    FirstMatchLeftmost(text, marker, from, ms1, ms2[0].index);
    FirstMatchLeftmost(text, marker, from, ms2, ms1[0].index);
  }

  lemma SameHeadSameTail<T>(a: seq<T>, b: seq<T>)
    requires |a| > 0 && |b| > 0 && a[0] == b[0] && a[1..] == b[1..]
    ensures a == b
  {
    assert a == [a[0]] + a[1..];
    assert b == [b[0]] + b[1..];
  }

  /** The scan is the only sequence of matches with the chain properties:
      the chain properties specify the global scan completely. */
  lemma {:induction false} ChainUnique(text: string, marker: string, from: nat,
                                       ms1: seq<Match>, ms2: seq<Match>)
    requires 0 < |marker| && from <= |text|
    requires LeftmostChain(text, marker, from, ms1)
    requires LeftmostChain(text, marker, from, ms2)
    ensures ms1 == ms2
    decreases |text| - from
  {
    if |ms1| == 0 || |ms2| == 0 {
      ChainEmptyIff(text, marker, from, ms1);
      ChainEmptyIff(text, marker, from, ms2);
    } else {
      ChainHeadsAgree(text, marker, from, ms1, ms2);
      ChainTail(text, marker, from, ms1);
      ChainTail(text, marker, from, ms2);
      ChainUnique(text, marker, ms1[0].end, ms1[1..], ms2[1..]);
      SameHeadSameTail(ms1, ms2);
    }
  }

  /** Match positions strictly increase along a chain, so the last match
      is the one at the greatest offset. */
  lemma ChainIndicesIncrease(text: string, marker: string, from: nat, ms: seq<Match>)
    requires 0 < |marker| && LeftmostChain(text, marker, from, ms)
    ensures forall i, j | 0 <= i < j < |ms| :: ms[i].index < ms[j].index
  {
    forall i, j | 0 <= i < j < |ms|
      ensures ms[i].index < ms[j].index
    {
      assert ms[i] == MatchAt(text, marker, ms[i].index);
    }
  }

  /** A chain is empty exactly when the marker occurs nowhere after its
      starting point. */
  lemma ChainEmptyIff(text: string, marker: string, from: nat, ms: seq<Match>)
    requires LeftmostChain(text, marker, from, ms)
    ensures ms == [] <==> forall q: nat | from <= q :: !MarkerAt(text, marker, q)
  {
    if ms != [] {
      assert MarkerAt(text, marker, ms[0].index);
    } else {
      forall q: nat | from <= q
        ensures !MarkerAt(text, marker, q)
      {
        assert !Covered(ms, q);
      }
    }
  }

  /** The scan passes over positions where the marker does not occur. */
  lemma {:induction false} ScanSkip(text: string, marker: string, from: nat, to: nat)
    requires 0 < |marker| && from <= to <= |text|
    requires forall q: nat | from <= q < to :: !MarkerAt(text, marker, q)
    ensures Scan(text, marker, from) == Scan(text, marker, to)
    decreases (to as int) - (from as int)
  {
    if from < to {
      ScanSkip(text, marker, from + 1, to);
    }
  }

  /** At a marker the scan records the match and resumes after it. */
  lemma ScanHit(text: string, marker: string, p: nat)
    requires 0 < |marker| && MarkerAt(text, marker, p)
    ensures Scan(text, marker, p) ==
              [MatchAt(text, marker, p)] + Scan(text, marker, MatchAt(text, marker, p).end)
  {
  }

  /** The whitespace run from `i` ends exactly at `j`. */
  lemma SkipSpaceAt(text: string, i: nat, j: nat)
    requires i <= j <= |text|
    requires forall k | i <= k < j :: IsSpace(text[k])
    requires j < |text| ==> !IsSpace(text[j])
    ensures SkipSpace(text, i) == j
  {
    var r := SkipSpace(text, i);
    assert !(r < j) && !(r > j);
  }

  /** The line from `i` ends exactly at `j`. */
  lemma LineEndAt(text: string, i: nat, j: nat)
    requires i <= j <= |text|
    requires forall k | i <= k < j :: text[k] != '\n'
    requires j < |text| ==> text[j] == '\n'
    ensures LineEnd(text, i) == j
  {
    var r := LineEnd(text, i);
    assert !(r < j) && !(r > j);
  }

  /** A verbatim copy of the marker is an occurrence. */
  lemma MarkerVerbatim(text: string, marker: string, p: nat)
    requires p + |marker| <= |text| && text[p..p + |marker|] == marker
    ensures MarkerAt(text, marker, p)
  {
    forall k | 0 <= k < |marker|
      ensures AsciiUpper(text[p + k]) == AsciiUpper(marker[k])
    {
      assert text[p..p + |marker|][k] == text[p + k];
    }
  }

  /** A marker occurrence needs every character to agree, ignoring case. */
  lemma Mismatch(text: string, marker: string, q: nat, k: nat)
    requires k < |marker| && q + k < |text|
    requires AsciiUpper(text[q + k]) != AsciiUpper(marker[k])
    ensures !MarkerAt(text, marker, q)
  {
  }

  /** No marker starts in a stretch of text that lacks the marker's first
      letter in either case. */
  lemma NoMarkerInRange(text: string, marker: string, a: nat, b: nat)
    requires 0 < |marker| && a <= b <= |text|
    requires forall k | a <= k < b :: AsciiUpper(text[k]) != AsciiUpper(marker[0])
    ensures forall q: nat | a <= q < b :: !MarkerAt(text, marker, q)
  {
    forall q: nat | a <= q < b
      ensures !MarkerAt(text, marker, q)
    {
      if q + |marker| <= |text| {
        Mismatch(text, marker, q, 0);
      }
    }
  }

  /** No iteration header starts in a stretch of text without '#'. */
  lemma NoHeaderInRange(text: string, a: nat, b: nat)
    requires a <= b <= |text|
    requires forall k | a <= k < b :: text[k] != '#'
    ensures forall q: nat | a <= q < b :: !HeaderAt(text, q)
  {
    forall q: nat | a <= q < b
      ensures !HeaderAt(text, q)
    {
      if q + |IterationHeader| < |text| {
        assert text[q + 0] != IterationHeader[0];
      }
    }
  }

  /** Without a '#' there is no iteration header. */
  lemma NoHashNoHeaders(text: string)
    requires '#' !in text
    ensures HeaderCount(text, 0) == 0
  {
    assert forall k | 0 <= k < |text| :: text[k] in text;
    NoHeaderInRange(text, 0, |text|);
    HeaderCountSkip(text, 0, |text|);
  }

  /** READY FOR FIX and EARLY EXIT start with different letters, so they
      never occur at the same offset. */
  lemma MarkersNeverTie(text: string, p: nat)
    ensures !(MarkerAt(text, ReadyMarker, p) && MarkerAt(text, EarlyMarker, p))
  {
    if MarkerAt(text, ReadyMarker, p) {
      assert AsciiUpper(text[p + 0]) == AsciiUpper(ReadyMarker[0]) == 'R';
      assert AsciiUpper(EarlyMarker[0]) == 'E';
    }
  }

  // ---------------------------------------------------------------------
  // Iteration headers: `content.match(/## Iteration \d+/g)`.

  /** A header match starts at `p`: the case-sensitive "## Iteration "
      followed by at least one digit. */
  predicate HeaderAt(text: string, p: nat) {
    && p + |IterationHeader| < |text|
    && (forall k | 0 <= k < |IterationHeader| :: text[p + k] == IterationHeader[k])
    && IsDigit(text[p + |IterationHeader|])
  }

  /** End of the digit run starting at `i` (what a greedy `\d+` eats). */
  function DigitsEnd(text: string, i: nat): (j: nat)
    requires i <= |text|
    ensures i <= j <= |text|
    ensures forall k | i <= k < j :: IsDigit(text[k])
    decreases |text| - i
  {
    if i == |text| || !IsDigit(text[i]) then i else DigitsEnd(text, i + 1)
  }

  /** A header match cannot start inside another: '#' occurs in the header
      only at its first two characters and never among digits. */
  lemma NoHeaderInsideHeader(text: string, p: nat, q: nat)
    requires HeaderAt(text, p)
    requires p < q < DigitsEnd(text, p + |IterationHeader|)
    ensures !HeaderAt(text, q)
  {
    if q == p + 1 {
      assert text[p + 2] == IterationHeader[2] == ' ';
      assert text[q + 1] != IterationHeader[1];
    } else if q < p + |IterationHeader| {
      assert text[p + (q - p)] == IterationHeader[q - p] != '#';
      assert text[q + 0] != IterationHeader[0];
    } else {
      assert IsDigit(text[q]);
      assert text[q + 0] != IterationHeader[0];
    }
  }

  /** Start positions of the matches of the global header scan from `from`:
      every header position, in increasing order. */
  function HeaderMatches(text: string, from: nat): (ps: seq<nat>)
    requires from <= |text|
    ensures forall i | 0 <= i < |ps| :: from <= ps[i] && HeaderAt(text, ps[i])
    ensures forall q: nat | from <= q && HeaderAt(text, q) :: q in ps
    ensures forall i, j | 0 <= i < j < |ps| :: ps[i] < ps[j]
    decreases |text| - from
  {
    if from == |text| then []
    else if HeaderAt(text, from) then
      var e := DigitsEnd(text, from + |IterationHeader|);
      var rest := HeaderMatches(text, e);
      assert forall q: nat | from < q < e :: !HeaderAt(text, q) by {
        forall q: nat | from < q < e
          ensures !HeaderAt(text, q)
        {
          NoHeaderInsideHeader(text, from, q);
        }
      }
      [from] + rest
    else
      HeaderMatches(text, from + 1)
  }

  /** Number of header positions at or after `from`, counted position by
      position: the reference definition of the iteration count. */
  function HeaderCount(text: string, from: nat): nat
    requires from <= |text|
    decreases |text| - from
  {
    if from == |text| then 0
    else (if HeaderAt(text, from) then 1 else 0) + HeaderCount(text, from + 1)
  }

  lemma {:induction false} HeaderCountSkip(text: string, a: nat, b: nat)
    requires a <= b <= |text|
    requires forall q: nat | a <= q < b :: !HeaderAt(text, q)
    ensures HeaderCount(text, a) == HeaderCount(text, b)
    decreases b - a
  {
    if a < b {
      HeaderCountSkip(text, a + 1, b);
    }
  }

  /** The global scan finds exactly as many headers as there are header
      positions. */
  lemma {:induction false} HeaderMatchesCount(text: string, from: nat)
    requires from <= |text|
    ensures |HeaderMatches(text, from)| == HeaderCount(text, from)
    decreases |text| - from
  {
    if from < |text| {
      if HeaderAt(text, from) {
        var e := DigitsEnd(text, from + |IterationHeader|);
        forall q: nat | from + 1 <= q < e
          ensures !HeaderAt(text, q)
        {
          NoHeaderInsideHeader(text, from, q);
        }
        HeaderCountSkip(text, from + 1, e);
        HeaderMatchesCount(text, e);
      } else {
        HeaderMatchesCount(text, from + 1);
      }
    }
  }

  /** `iterationMatches ? iterationMatches.length : 0`. */
  function IterationCount(content: string): (n: nat)
    ensures n == HeaderCount(content, 0)
  {
    HeaderMatchesCount(content, 0);
    |HeaderMatches(content, 0)|
  }

  // ---------------------------------------------------------------------
  // Signal resolution.

  /** The decision of `parseProgressStatus` once both scans are done: the
      kind whose last match starts later wins, its capture trimmed. */
  function Resolve(track: Track, ready: seq<Match>, early: seq<Match>, iterationCount: nat)
    : (r: ProgressStatus)
    ensures r.track == track && r.iterationCount == iterationCount
    // SKIP_TO_VERIFY and NEEDS_MORE_WORK are never produced
    ensures r.signal == Continue || r.signal == ReadyForFix || r.signal == EarlyExit
    // each payload comes only with its own kind, so never both
    ensures r.rootCause.Some? <==> r.signal == ReadyForFix
    ensures r.reason.Some? <==> r.signal == EarlyExit
    ensures r.signal == Continue <==> ready == [] && early == []
  {
    if |ready| > 0 && |early| > 0 then
      var lastReady := ready[|ready| - 1];
      var lastEarly := early[|early| - 1];
      if lastReady.index > lastEarly.index then
        ProgressStatus(track, ReadyForFix, Some(Trim(lastReady.capture)), None, iterationCount)
      else
        ProgressStatus(track, EarlyExit, None, Some(Trim(lastEarly.capture)), iterationCount)
    else if |ready| > 0 then
      ProgressStatus(track, ReadyForFix, Some(Trim(ready[|ready| - 1].capture)), None, iterationCount)
    else if |early| > 0 then
      ProgressStatus(track, EarlyExit, None, Some(Trim(early[|early| - 1].capture)), iterationCount)
    else
      ProgressStatus(track, Continue, None, None, iterationCount)
  }

  /** `parseProgressStatus` on the text of the document. */
  function ParseProgressStatus(track: Track, content: string): (r: ProgressStatus)
    ensures r.iterationCount == HeaderCount(content, 0)
  {
    Resolve(track, Scan(content, ReadyMarker, 0), Scan(content, EarlyMarker, 0), IterationCount(content))
  }

  /** No marker of either kind anywhere means CONTINUE without payload, and
      only then. */
  lemma ContinueIffNoMarker(track: Track, content: string)
    ensures var r := ParseProgressStatus(track, content);
      r.signal == Continue <==>
        forall q: nat :: !MarkerAt(content, ReadyMarker, q) && !MarkerAt(content, EarlyMarker, q)
    ensures var r := ParseProgressStatus(track, content);
      r.signal == Continue ==> r.rootCause == None && r.reason == None
  {
    ChainEmptyIff(content, ReadyMarker, 0, Scan(content, ReadyMarker, 0));
    ChainEmptyIff(content, EarlyMarker, 0, Scan(content, EarlyMarker, 0));
  }

  /** `m` is the match at the greatest offset among all matches of both
      scans. */
  ghost predicate IsLatest(m: Match, ready: seq<Match>, early: seq<Match>) {
    && (m in ready || m in early)
    && (forall m' | m' in ready :: m'.index <= m.index)
    && (forall m' | m' in early :: m'.index <= m.index)
  }

  ghost predicate IndicesIncrease(ms: seq<Match>) {
    forall i, j | 0 <= i < j < |ms| :: ms[i].index < ms[j].index
  }

  /** In an increasing sequence, a match at least as late as all others is
      the last one. */
  lemma LatestIsLast(ms: seq<Match>, m: Match)
    requires IndicesIncrease(ms) && m in ms
    requires forall m' | m' in ms :: m'.index <= m.index
    ensures m == ms[|ms| - 1]
  {
    var i :| 0 <= i < |ms| && ms[i] == m;
    assert ms[|ms| - 1] in ms;
  }

  /** The last match of each scan decides; stated without unfolding the
      decision in the callers. */
  lemma ResolveByLast(track: Track, ready: seq<Match>, early: seq<Match>, n: nat)
    ensures var r := Resolve(track, ready, early, n);
      && (|ready| > 0 && (|early| == 0 || early[|early| - 1].index < ready[|ready| - 1].index) ==>
            r.signal == ReadyForFix && r.rootCause == Some(Trim(ready[|ready| - 1].capture)))
      && (|early| > 0 && (|ready| == 0 || ready[|ready| - 1].index <= early[|early| - 1].index) ==>
            r.signal == EarlyExit && r.reason == Some(Trim(early[|early| - 1].capture)))
  {
  }

  /** The last match of an increasing scan is at least as late as every
      match of that scan. */
  lemma LastIsLatestOf(ms: seq<Match>)
    requires IndicesIncrease(ms) && |ms| > 0
    ensures forall m' | m' in ms :: m'.index <= ms[|ms| - 1].index
  {
  }

  lemma LatestReadyDecides(track: Track, ready: seq<Match>, early: seq<Match>, n: nat, m: Match)
    requires IndicesIncrease(ready) && IndicesIncrease(early)
    requires forall a, b | a in ready && b in early :: a.index != b.index
    requires m in ready && IsLatest(m, ready, early)
    ensures var r := Resolve(track, ready, early, n);
      r.signal == ReadyForFix && r.rootCause == Some(Trim(m.capture))
  {
    LatestIsLast(ready, m);
    ResolveByLast(track, ready, early, n);
    if |early| > 0 {
      assert early[|early| - 1] in early;
    }
  }

  lemma ReadyDecisionIsLatest(track: Track, ready: seq<Match>, early: seq<Match>, n: nat)
    requires IndicesIncrease(ready) && IndicesIncrease(early)
    requires Resolve(track, ready, early, n).signal == ReadyForFix
    ensures var r := Resolve(track, ready, early, n);
      exists m | m in ready :: IsLatest(m, ready, early) && r.rootCause == Some(Trim(m.capture))
  {
    var m := ready[|ready| - 1];
    LastIsLatestOf(ready);
    if |early| > 0 {
      LastIsLatestOf(early);
    }
    assert IsLatest(m, ready, early);
  }

  lemma ResolveReadySide(track: Track, ready: seq<Match>, early: seq<Match>, n: nat)
    requires IndicesIncrease(ready) && IndicesIncrease(early)
    requires forall a, b | a in ready && b in early :: a.index != b.index
    ensures var r := Resolve(track, ready, early, n);
      && (forall m | m in ready && IsLatest(m, ready, early) ::
            r.signal == ReadyForFix && r.rootCause == Some(Trim(m.capture)))
      && (r.signal == ReadyForFix ==>
            exists m | m in ready :: IsLatest(m, ready, early) && r.rootCause == Some(Trim(m.capture)))
  {
    forall m | m in ready && IsLatest(m, ready, early)
      ensures var r := Resolve(track, ready, early, n);
        r.signal == ReadyForFix && r.rootCause == Some(Trim(m.capture))
    {
      LatestReadyDecides(track, ready, early, n, m);
    }
    if Resolve(track, ready, early, n).signal == ReadyForFix {
      ReadyDecisionIsLatest(track, ready, early, n);
    }
  }

  lemma LatestEarlyDecides(track: Track, ready: seq<Match>, early: seq<Match>, n: nat, m: Match)
    requires IndicesIncrease(ready) && IndicesIncrease(early)
    requires forall a, b | a in ready && b in early :: a.index != b.index
    requires m in early && IsLatest(m, ready, early)
    ensures var r := Resolve(track, ready, early, n);
      r.signal == EarlyExit && r.reason == Some(Trim(m.capture))
  {
    LatestIsLast(early, m);
    ResolveByLast(track, ready, early, n);
    if |ready| > 0 {
      assert ready[|ready| - 1] in ready;
    }
  }

  lemma EarlyDecisionIsLatest(track: Track, ready: seq<Match>, early: seq<Match>, n: nat)
    requires IndicesIncrease(ready) && IndicesIncrease(early)
    requires Resolve(track, ready, early, n).signal == EarlyExit
    ensures var r := Resolve(track, ready, early, n);
      exists m | m in early :: IsLatest(m, ready, early) && r.reason == Some(Trim(m.capture))
  {
    var m := early[|early| - 1];
    LastIsLatestOf(early);
    if |ready| > 0 {
      LastIsLatestOf(ready);
    }
    assert IsLatest(m, ready, early);
  }

  lemma ResolveEarlySide(track: Track, ready: seq<Match>, early: seq<Match>, n: nat)
    requires IndicesIncrease(ready) && IndicesIncrease(early)
    requires forall a, b | a in ready && b in early :: a.index != b.index
    ensures var r := Resolve(track, ready, early, n);
      && (forall m | m in early && IsLatest(m, ready, early) ::
            r.signal == EarlyExit && r.reason == Some(Trim(m.capture)))
      && (r.signal == EarlyExit ==>
            exists m | m in early :: IsLatest(m, ready, early) && r.reason == Some(Trim(m.capture)))
  {
    forall m | m in early && IsLatest(m, ready, early)
      ensures var r := Resolve(track, ready, early, n);
        r.signal == EarlyExit && r.reason == Some(Trim(m.capture))
    {
      LatestEarlyDecides(track, ready, early, n, m);
    }
    if Resolve(track, ready, early, n).signal == EarlyExit {
      EarlyDecisionIsLatest(track, ready, early, n);
    }
  }

  /** The decision, on any two increasing scans that never meet: the kind
      of the latest match wins, with that match's capture trimmed. */
  lemma ResolveLatest(track: Track, ready: seq<Match>, early: seq<Match>, n: nat)
    requires IndicesIncrease(ready) && IndicesIncrease(early)
    requires forall a, b | a in ready && b in early :: a.index != b.index
    ensures var r := Resolve(track, ready, early, n);
      && (forall m | m in ready && IsLatest(m, ready, early) ::
            r.signal == ReadyForFix && r.rootCause == Some(Trim(m.capture)))
      && (forall m | m in early && IsLatest(m, ready, early) ::
            r.signal == EarlyExit && r.reason == Some(Trim(m.capture)))
      && (r.signal == ReadyForFix ==>
            exists m | m in ready :: IsLatest(m, ready, early) && r.rootCause == Some(Trim(m.capture)))
      && (r.signal == EarlyExit ==>
            exists m | m in early :: IsLatest(m, ready, early) && r.reason == Some(Trim(m.capture)))
  {
    ResolveReadySide(track, ready, early, n);
    ResolveEarlySide(track, ready, early, n);
  }

  /** The two scans of a document never report the same position. */
  lemma ScansNeverTie(content: string)
    ensures var ready := Scan(content, ReadyMarker, 0);
            var early := Scan(content, EarlyMarker, 0);
      && IndicesIncrease(ready) && IndicesIncrease(early)
      && forall a, b | a in ready && b in early :: a.index != b.index
  {
    var ready := Scan(content, ReadyMarker, 0);
    var early := Scan(content, EarlyMarker, 0);
    ChainIndicesIncrease(content, ReadyMarker, 0, ready);
    ChainIndicesIncrease(content, EarlyMarker, 0, early);
    forall a, b | a in ready && b in early
      ensures a.index != b.index
    {
      MarkersNeverTie(content, a.index);
    }
  }

  /** The effective signal is the kind of the latest match over both scans,
      with that match's capture trimmed as payload. */
  lemma LatestMatchWins(track: Track, content: string)
    ensures var r := ParseProgressStatus(track, content);
            var ready := Scan(content, ReadyMarker, 0);
            var early := Scan(content, EarlyMarker, 0);
      && (forall m | m in ready && IsLatest(m, ready, early) ::
            r.signal == ReadyForFix && r.rootCause == Some(Trim(m.capture)))
      && (forall m | m in early && IsLatest(m, ready, early) ::
            r.signal == EarlyExit && r.reason == Some(Trim(m.capture)))
      && (r.signal == ReadyForFix ==>
            exists m | m in ready :: IsLatest(m, ready, early) && r.rootCause == Some(Trim(m.capture)))
      && (r.signal == EarlyExit ==>
            exists m | m in early :: IsLatest(m, ready, early) && r.reason == Some(Trim(m.capture)))
  {
    ScansNeverTie(content);
    ResolveLatest(track, Scan(content, ReadyMarker, 0), Scan(content, EarlyMarker, 0),
                  IterationCount(content));
  }

  // ---------------------------------------------------------------------
  // Reading the document.

  /** `readProgressDoc`: the document text, or "" when the file is missing or
      unreadable. `files` holds the readable files and their contents. */
  function ReadProgressDoc(files: map<string, string>, track: Track): (content: string)
    ensures GetProgressDocPath(track) !in files ==> content == ""
    ensures GetProgressDocPath(track) in files ==> content == files[GetProgressDocPath(track)]
  {
    var path := GetProgressDocPath(track);
    if path in files then files[path] else ""
  }

  /** `parseProgressStatus(track)`: read the track's document, then parse. */
  function ParseTrackProgress(files: map<string, string>, track: Track): (r: ProgressStatus)
    ensures r.track == track
    // the track's own document is the one parsed
    ensures GetProgressDocPath(track) in files ==>
              r == ParseProgressStatus(track, files[GetProgressDocPath(track)])
  {
    ParseProgressStatus(track, ReadProgressDoc(files, track))
  }

  /** A missing or unreadable document reads as CONTINUE with no iterations. */
  lemma MissingDocumentContinues(files: map<string, string>, track: Track)
    requires GetProgressDocPath(track) !in files
    ensures ParseTrackProgress(files, track) == ProgressStatus(track, Continue, None, None, 0)
  {
    ContinueIffNoMarker(track, "");
  }
}
