/**
 * Documents on which the progress parser shows its less obvious behaviour:
 * case-insensitive markers with literal spaces, payloads taken from the
 * next line, markers inside an earlier payload, and the iteration count.
 *
 * Each document's character-level facts are proved in a lemma of their own
 * and the scans are then derived from them.
 */
module ProgressExamples {
  import opened Wrappers
  import opened Strings
  import opened Types
  import opened Progress

  /** A scan that finds no occurrence is empty. */
  lemma EmptyScan(text: string, marker: string)
    requires 0 < |marker|
    requires forall q: nat :: !MarkerAt(text, marker, q)
    ensures Scan(text, marker, 0) == []
  {
    ChainEmptyIff(text, marker, 0, Scan(text, marker, 0));
  }

  /** A scan with a single occurrence, whose match runs to the end. */
  lemma SingleScan(text: string, marker: string, p: nat, m: Match)
    requires 0 < |marker|
    requires forall q: nat | q < p :: !MarkerAt(text, marker, q)
    requires MarkerAt(text, marker, p) && MatchAt(text, marker, p) == m
    requires m.end == |text|
    ensures Scan(text, marker, 0) == [m]
  {
    ScanSkip(text, marker, 0, p);
    ScanHit(text, marker, p);
  }

  /** Resolution with one match of each kind: the later one decides. */
  lemma ResolveOneEach(t: Track, r: Match, e: Match, n: nat)
    ensures Resolve(t, [r], [e], n) ==
      if r.index > e.index then ProgressStatus(t, ReadyForFix, Some(Trim(r.capture)), None, n)
      else ProgressStatus(t, EarlyExit, None, Some(Trim(e.capture)), n)
  {
  }

  /** The payloads of the documents below have no surrounding whitespace. */
  lemma TrimmedX()
    ensures Trim("x") == "x"
  {
    TrimUnpadded("x");
  }

  lemma TrimmedY()
    ensures Trim("y") == "y"
  {
    TrimUnpadded("y");
  }

  lemma TrimmedStuck()
    ensures Trim("stuck") == "stuck"
  {
    TrimUnpadded("stuck");
  }

  // ---------------------------------------------------------------------
  // "ready for fix: x" -- markers are matched ignoring case

  const LowerCaseDoc: string := "ready for fix: x"

  lemma LowerCaseNoHeaders()
    ensures HeaderCount(LowerCaseDoc, 0) == 0
  {
    NoHashNoHeaders(LowerCaseDoc);
  }

  lemma LowerCaseReadyMatch()
    ensures MarkerAt(LowerCaseDoc, ReadyMarker, 0)
    ensures MatchAt(LowerCaseDoc, ReadyMarker, 0) == Match(0, 15, "x", 16)
  {
    var text := LowerCaseDoc;
    SkipSpaceAt(text, 14, 15);
    LineEndAt(text, 15, 16);
    assert text[15..16] == "x";
  }

  lemma LowerCaseNoEarly()
    ensures forall q: nat :: !MarkerAt(LowerCaseDoc, EarlyMarker, q)
  {
    var text := LowerCaseDoc;
    forall q: nat
      ensures !MarkerAt(text, EarlyMarker, q)
    {
      if q == 1 { Mismatch(text, EarlyMarker, 1, 2); }
      else if q <= 5 { Mismatch(text, EarlyMarker, q, 0); }
    }
  }

  lemma LowerCaseMarkerRecognised(t: Track)
    ensures ParseProgressStatus(t, LowerCaseDoc)
              == ProgressStatus(t, ReadyForFix, Some("x"), None, 0)
  {
    LowerCaseReadyMatch();
    SingleScan(LowerCaseDoc, ReadyMarker, 0, Match(0, 15, "x", 16));
    LowerCaseNoEarly();
    EmptyScan(LowerCaseDoc, EarlyMarker);
    LowerCaseNoHeaders();
    TrimmedX();
  }

  // ---------------------------------------------------------------------
  // "READY_FOR_FIX: x" -- the markers need literal spaces

  const UnderscoreDoc: string := "READY_FOR_FIX: x"

  lemma UnderscoreNoHeaders()
    ensures HeaderCount(UnderscoreDoc, 0) == 0
  {
    NoHashNoHeaders(UnderscoreDoc);
  }

  lemma UnderscoreNoMarker()
    ensures forall q: nat :: !MarkerAt(UnderscoreDoc, ReadyMarker, q)
    ensures forall q: nat :: !MarkerAt(UnderscoreDoc, EarlyMarker, q)
  {
    var text := UnderscoreDoc;
    forall q: nat
      ensures !MarkerAt(text, ReadyMarker, q)
    {
      if q == 0 { Mismatch(text, ReadyMarker, 0, 5); }
      else if q <= 2 { Mismatch(text, ReadyMarker, q, 0); }
    }
    forall q: nat
      ensures !MarkerAt(text, EarlyMarker, q)
    {
      if q == 1 { Mismatch(text, EarlyMarker, 1, 2); }
      else if q <= 5 { Mismatch(text, EarlyMarker, q, 0); }
    }
  }

  lemma UnderscoreMarkerIgnored(t: Track)
    ensures ParseProgressStatus(t, UnderscoreDoc) == ProgressStatus(t, Continue, None, None, 0)
  {
    UnderscoreNoMarker();
    EmptyScan(UnderscoreDoc, ReadyMarker);
    EmptyScan(UnderscoreDoc, EarlyMarker);
    UnderscoreNoHeaders();
  }

  // ---------------------------------------------------------------------
  // "EARLY EXIT:\n  stuck" -- a marker with nothing after it on its line
  // takes the next line as its payload, because `\s*` crosses the break

  const NextLineDoc: string := "EARLY EXIT:\n  stuck"

  lemma NextLineNoHeaders()
    ensures HeaderCount(NextLineDoc, 0) == 0
  {
    NoHashNoHeaders(NextLineDoc);
  }

  lemma NextLineEarlyMatch()
    ensures MarkerAt(NextLineDoc, EarlyMarker, 0)
    ensures MatchAt(NextLineDoc, EarlyMarker, 0) == Match(0, 14, "stuck", 19)
  {
    var text := NextLineDoc;
    SkipSpaceAt(text, 11, 14);
    LineEndAt(text, 14, 19);
    assert text[14..19] == "stuck";
  }

  lemma NextLineNoReady()
    ensures forall q: nat :: !MarkerAt(NextLineDoc, ReadyMarker, q)
  {
    var text := NextLineDoc;
    forall q: nat
      ensures !MarkerAt(text, ReadyMarker, q)
    {
      if q == 2 { Mismatch(text, ReadyMarker, 2, 1); }
      else if q <= 5 { Mismatch(text, ReadyMarker, q, 0); }
    }
  }

  lemma NextLinePayload(t: Track)
    ensures ParseProgressStatus(t, NextLineDoc)
              == ProgressStatus(t, EarlyExit, None, Some("stuck"), 0)
  {
    NextLineEarlyMatch();
    SingleScan(NextLineDoc, EarlyMarker, 0, Match(0, 14, "stuck", 19));
    NextLineNoReady();
    EmptyScan(NextLineDoc, ReadyMarker);
    NextLineNoHeaders();
    TrimmedStuck();
  }

  // ---------------------------------------------------------------------
  // "EARLY EXIT: READY FOR FIX: y" -- the EARLY EXIT payload runs over a
  // READY FOR FIX marker; the scans are independent, so the READY FOR FIX
  // scan still finds it, and being the later match it decides the signal

  const SwallowedDoc: string := "EARLY EXIT: READY FOR FIX: y"
  const SwallowedPayload: string := "READY FOR FIX: y"

  lemma SwallowedNoHeaders()
    ensures HeaderCount(SwallowedDoc, 0) == 0
  {
    NoHashNoHeaders(SwallowedDoc);
  }

  lemma SwallowedSlices()
    ensures SwallowedDoc[12..28] == SwallowedPayload
    ensures SwallowedDoc[12..26] == ReadyMarker
  {
  }

  lemma SwallowedEarlyMatch()
    ensures MarkerAt(SwallowedDoc, EarlyMarker, 0)
    ensures MatchAt(SwallowedDoc, EarlyMarker, 0) == Match(0, 12, SwallowedPayload, 28)
  {
    var text := SwallowedDoc;
    SkipSpaceAt(text, 11, 12);
    LineEndAt(text, 12, 28);
    SwallowedSlices();
  }

  lemma SwallowedReadyMatch()
    ensures MarkerAt(SwallowedDoc, ReadyMarker, 12)
    ensures MatchAt(SwallowedDoc, ReadyMarker, 12) == Match(12, 27, "y", 28)
  {
    var text := SwallowedDoc;
    SwallowedSlices();
    MarkerVerbatim(text, ReadyMarker, 12);
    SkipSpaceAt(text, 26, 27);
    LineEndAt(text, 27, 28);
    assert text[27..28] == "y";
  }

  lemma SwallowedReadyFirst()
    ensures forall q: nat | q < 12 :: !MarkerAt(SwallowedDoc, ReadyMarker, q)
  {
    var text := SwallowedDoc;
    NoMarkerInRange(text, ReadyMarker, 3, 12);
    forall q: nat | q < 3
      ensures !MarkerAt(text, ReadyMarker, q)
    {
      if q == 2 { Mismatch(text, ReadyMarker, 2, 1); }
      else { Mismatch(text, ReadyMarker, q, 0); }
    }
  }

  lemma SwallowedMarkerStillWins(t: Track)
    ensures ParseProgressStatus(t, SwallowedDoc)
              == ProgressStatus(t, ReadyForFix, Some("y"), None, 0)
  {
    var r, e := Match(12, 27, "y", 28), Match(0, 12, SwallowedPayload, 28);
    SwallowedEarlyMatch();
    SingleScan(SwallowedDoc, EarlyMarker, 0, e);
    SwallowedReadyMatch();
    SwallowedReadyFirst();
    SingleScan(SwallowedDoc, ReadyMarker, 12, r);
    SwallowedNoHeaders();
    ResolveOneEach(t, r, e, 0);
    TrimmedY();
  }

  // ---------------------------------------------------------------------
  // two iteration headings, one with a two-digit number: two iterations

  const IterationsDoc: string := "## Iteration 1\n## Iteration 12\n"

  lemma IterationsFirstLine()
    ensures HeaderCount(IterationsDoc, 0) == 1 + HeaderCount(IterationsDoc, 15)
  {
    var text := IterationsDoc;
    assert HeaderAt(text, 0);
    assert !HeaderAt(text, 1) by { assert text[1 + 1] != IterationHeader[1]; }
    NoHeaderInRange(text, 2, 15);
    HeaderCountSkip(text, 1, 15);
  }

  lemma IterationsSecondLine()
    ensures HeaderCount(IterationsDoc, 15) == 1
  {
    var text := IterationsDoc;
    assert HeaderAt(text, 15);
    assert !HeaderAt(text, 16) by { assert text[16 + 1] != IterationHeader[1]; }
    NoHeaderInRange(text, 17, 31);
    HeaderCountSkip(text, 16, 31);
  }

  lemma IterationsCounted(t: Track)
    ensures ParseProgressStatus(t, IterationsDoc).iterationCount == 2
  {
    IterationsFirstLine();
    IterationsSecondLine();
  }
}
