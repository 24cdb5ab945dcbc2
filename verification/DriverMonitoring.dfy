/** Driver monitoring (services/risk-engine/src/driver-monitoring.ts:25-82): the
    run-length loop and the assessment over a window of cabin samples. Confidences
    and angles are exact reals; only rounding to two decimals is modelled. */
module DriverMonitoring {
  import opened Collections
  import opened Sorting

  const MIN_RELIABLE_CONFIDENCE := 0.55
  const MIN_RELIABLE_COVERAGE := 0.5
  const MIN_VISIBLE_SAMPLES := 3
  const MIN_TEMPORAL_SPAN_MS := 1500
  const MAX_SAMPLE_GAP_MS := 2200
  const SUSPECTED_MICROSLEEP_MS := 1800
  const PROLONGED_GAZE_AWAY_MS := 3500
  const DISTRACTED_GAZE_AWAY_MS := 1500

  datatype Sample = Sample(
    timestampMs: int, faceDetected: bool, eyesClosed: bool, gazeAway: bool,
    headYawDeg: real, headPitchDeg: real, confidence: real)

  /** The two signs the assessment looks for in a sample. */
  datatype Sign = EyesClosed | AttentionAway

  predicate Shows(s: Sample, sign: Sign) {
    match sign
    case EyesClosed => s.eyesClosed
    case AttentionAway => s.gazeAway || AbsReal(s.headYawDeg) > 35.0 || AbsReal(s.headPitchDeg) > 28.0
  }

  // ------------------------------------------------------------ run length

  function Span(samples: seq<Sample>, i: nat, j: nat): int
    requires i < |samples| && j < |samples|
  {
    samples[j].timestampMs - samples[i].timestampMs
  }

  /** Sample `k` continues the sample before it: both show the sign, close enough in time. */
  predicate Continues(samples: seq<Sample>, sign: Sign, k: nat)
    requires k < |samples|
  {
    k > 0 && Shows(samples[k - 1], sign) && Shows(samples[k], sign) && Span(samples, k - 1, k) <= MAX_SAMPLE_GAP_MS
  }

  /** Samples `i` to `j` all show the sign, no two neighbours too far apart. */
  predicate Stretch(samples: seq<Sample>, sign: Sign, i: nat, j: nat) {
    i <= j < |samples| && Shows(samples[i], sign) && forall k :: i < k <= j ==> Continues(samples, sign, k)
  }

  /** A stretch that could not begin earlier. */
  predicate Run(samples: seq<Sample>, sign: Sign, i: nat, j: nat) {
    Stretch(samples, sign, i, j) && !Continues(samples, sign, i)
  }

  /** `longest` is the greatest span of a run that ends before sample `n`, or zero. */
  ghost predicate IsLongestRun(samples: seq<Sample>, sign: Sign, n: nat, longest: int) {
    longest >= 0 &&
    (forall i: nat, j: nat :: Run(samples, sign, i, j) && j < n ==> Span(samples, i, j) <= longest) &&
    (longest == 0 || exists i: nat, j: nat :: Run(samples, sign, i, j) && j < n && Span(samples, i, j) == longest)
  }

  lemma RunStart(samples: seq<Sample>, sign: Sign, k: nat)
    requires k < |samples| && Shows(samples[k], sign) && !Continues(samples, sign, k)
    ensures forall i: nat :: Run(samples, sign, i, k) <==> i == k
  {
    assert Stretch(samples, sign, k, k);
  }

  lemma RunGrows(samples: seq<Sample>, sign: Sign, start: nat, k: nat)
    requires 0 < k < |samples| && Run(samples, sign, start, k - 1) && Continues(samples, sign, k)
    ensures forall i: nat :: Run(samples, sign, i, k) <==> i == start
  {
    hide Continues;
    assert Stretch(samples, sign, start, k);
  }

  lemma NoRunHere(samples: seq<Sample>, sign: Sign, k: nat)
    requires k < |samples| && !Shows(samples[k], sign)
    ensures forall i: nat :: !Run(samples, sign, i, k)
  {
    assert !Continues(samples, sign, k);
  }

  lemma LongestStep(samples: seq<Sample>, sign: Sign, n: nat, longest: int, start: nat)
    requires start <= n < |samples| && IsLongestRun(samples, sign, n, longest)
    requires forall i: nat :: Run(samples, sign, i, n) <==> i == start
    ensures IsLongestRun(samples, sign, n + 1, if Span(samples, start, n) > longest then Span(samples, start, n)
      else longest)
  {
    hide Run, Span;
    if Span(samples, start, n) > longest { assert Run(samples, sign, start, n); }
  }

  lemma LongestSkip(samples: seq<Sample>, sign: Sign, n: nat, longest: int)
    requires n < |samples| && IsLongestRun(samples, sign, n, longest)
    requires forall i: nat :: !Run(samples, sign, i, n)
    ensures IsLongestRun(samples, sign, n + 1, longest)
  {
    hide Run, Span;
  }

  method LongestSpanMs(samples: seq<Sample>, sign: Sign) returns (longest: int)
    ensures IsLongestRun(samples, sign, |samples|, longest)
  {
    hide IsLongestRun, Shows, Stretch;
    longest := 0;
    var startedAt: Option<int>, previousAt: Option<int> := None, None;
    ghost var start := 0;
    assert IsLongestRun(samples, sign, 0, 0) by { LongestOfNone(samples, sign); }
    var n := 0;
    while n < |samples|
      invariant n <= |samples| && IsLongestRun(samples, sign, n, longest)
      invariant startedAt.Some? == previousAt.Some? == (n > 0 && Shows(samples[n - 1], sign))
      invariant startedAt.Some? ==>
        Run(samples, sign, start, n - 1) && start < n &&
        startedAt.value == samples[start].timestampMs && previousAt.value == samples[n - 1].timestampMs
    {
      var sample := samples[n];
      if Shows(sample, sign) {
        if startedAt.None? || previousAt.None? || sample.timestampMs - previousAt.value > MAX_SAMPLE_GAP_MS {
          startedAt := Some(sample.timestampMs);
          start := n;
          RunStart(samples, sign, n);
        } else {
          RunGrows(samples, sign, start, n);
        }
        LongestStep(samples, sign, n, longest, start);
        longest := if sample.timestampMs - startedAt.value > longest then sample.timestampMs - startedAt.value
          else longest;
        previousAt := Some(sample.timestampMs);
      } else {
        NoRunHere(samples, sign, n);
        LongestSkip(samples, sign, n, longest);
        startedAt, previousAt := None, None;
      }
      n := n + 1;
    }
  }

  lemma LongestOfNone(samples: seq<Sample>, sign: Sign)
    ensures IsLongestRun(samples, sign, 0, 0)
  {
  }

  predicate Earlier(a: Sample, b: Sample) {
    a.timestampMs <= b.timestampMs
  }

  predicate Chronological(samples: seq<Sample>) {
    SortedBy(samples, Earlier)
  }

  /** Every stretch lies in a run that ends with it. */
  lemma {:induction false} RunAround(samples: seq<Sample>, sign: Sign, i: nat, j: nat) returns (start: nat)
    requires Stretch(samples, sign, i, j)
    ensures start <= i && Run(samples, sign, start, j)
    decreases i
  {
    if Continues(samples, sign, i) {
      forall k | i - 1 < k <= j ensures Continues(samples, sign, k) {}
      start := RunAround(samples, sign, i - 1, j);
    } else {
      start := i;
    }
  }

  /** On samples in time order the loop's answer is the greatest span of any stretch. */
  lemma LongestOfStretches(samples: seq<Sample>, sign: Sign, longest: int)
    requires Chronological(samples)
    ensures IsLongestRun(samples, sign, |samples|, longest) <==>
            longest >= 0 &&
            (forall i: nat, j: nat :: Stretch(samples, sign, i, j) ==> Span(samples, i, j) <= longest) &&
            (longest == 0 || exists i: nat, j: nat :: Stretch(samples, sign, i, j) && Span(samples, i, j) == longest)
  {
    hide Continues, Shows;
    if IsLongestRun(samples, sign, |samples|, longest) {
      forall i: nat, j: nat | Stretch(samples, sign, i, j) ensures Span(samples, i, j) <= longest {
        var start := RunAround(samples, sign, i, j);
      }
    } else if longest > 0 {
      if i: nat, j: nat :| Stretch(samples, sign, i, j) && Span(samples, i, j) == longest {
        var start := RunAround(samples, sign, i, j);
        if Span(samples, start, j) <= longest {
          assert Run(samples, sign, start, j) && Span(samples, start, j) == longest;
        } else {
          assert Stretch(samples, sign, start, j);
        }
      }
    }
  }

  lemma LongestUnique(samples: seq<Sample>, sign: Sign, n: nat, a: int, b: int)
    requires IsLongestRun(samples, sign, n, a) && IsLongestRun(samples, sign, n, b)
    ensures a == b
  {
    hide Run;
  }

  // ------------------------------------------------------------ assessment

  datatype State = Attentive | Distracted | ProlongedDistraction | DrowsinessSuspected | DriverUnavailable

  datatype Reason =
    | InsufficientTemporalWindow | InsufficientTemporalSpan | CabinObservationDiscontinuous
    | NoReliableCabinObservation | CabinObservationQualityLow | DriverFaceUnavailable
    | AttentionWithinThresholds | SustainedEyeClosureEvent | SustainedEyeClosurePattern
    | SustainedRoadGazeAway | AttentionAwayFromRoad

  datatype Assessment = Assessment(
    state: State, confidence: real, attentionScore: real, perclos: real, gazeAwayRatio: real,
    faceAvailability: real, maxEyesClosedMs: int, maxGazeAwayMs: int, reason: Reason)

  function Max(a: real, b: real): real {
    if a > b then a else b
  }

  function Clamp01(x: real): real {
    if x < 0.0 then 0.0 else if x > 1.0 then 1.0 else x
  }

  /** `Number(x.toFixed(2))` on the exact value: the nearest hundredth, ties upwards. */
  function ToFixed2(x: real): real {
    (x * 100.0 + 0.5).Floor as real / 100.0
  }

  function Unavailable(reason: Reason, confidence: real, faceAvailability: real): Assessment {
    Assessment(DriverUnavailable, ToFixed2(Clamp01(confidence)), 0.0, 0.0, 0.0,
               ToFixed2(Clamp01(faceAvailability)), 0, 0, reason)
  }

  predicate Reliable(s: Sample) {
    s.confidence >= MIN_RELIABLE_CONFIDENCE
  }

  predicate HasFace(s: Sample) {
    s.faceDetected
  }

  function Valid(ordered: seq<Sample>): seq<Sample> {
    Keep(ordered, Reliable)
  }

  function Visible(ordered: seq<Sample>): seq<Sample> {
    Keep(Valid(ordered), HasFace)
  }

  function Duration(ordered: seq<Sample>): int
    requires ordered != []
  {
    var d := Span(ordered, 0, |ordered| - 1);
    if d > 0 then d else 0
  }

  predicate GapOk(ordered: seq<Sample>, k: nat)
    requires 0 < k < |ordered|
  {
    0 < Span(ordered, k - 1, k) <= MAX_SAMPLE_GAP_MS
  }

  predicate Continuous(ordered: seq<Sample>) {
    forall k :: 0 < k < |ordered| ==> GapOk(ordered, k)
  }

  function Coverage(ordered: seq<Sample>): real
    requires ordered != []
  {
    |Valid(ordered)| as real / |ordered| as real
  }

  function FaceAvailability(ordered: seq<Sample>): real
    requires Valid(ordered) != []
  {
    |Visible(ordered)| as real / |Valid(ordered)| as real
  }

  /** The mean confidence of the trusted samples, scaled down for coverage and missing faces. */
  function Confidence(ordered: seq<Sample>): real
    requires Valid(ordered) != []
  {
    Weight(Valid(ordered)) / |Valid(ordered)| as real * Coverage(ordered) * Max(0.5, FaceAvailability(ordered))
  }

  /** Why a window allows no assessment, checked in this order. */
  function Refusal(ordered: seq<Sample>): Option<Assessment> {
    if |ordered| < 3 then Some(Unavailable(InsufficientTemporalWindow, 0.0, 0.0))
    else if Duration(ordered) < MIN_TEMPORAL_SPAN_MS then Some(Unavailable(InsufficientTemporalSpan, 0.0, 0.0))
    else if !Continuous(ordered) then Some(Unavailable(CabinObservationDiscontinuous, 0.0, 0.0))
    else if Valid(ordered) == [] then Some(Unavailable(NoReliableCabinObservation, 0.0, 0.0))
    else if Coverage(ordered) < MIN_RELIABLE_COVERAGE then
      Some(Unavailable(CabinObservationQualityLow, Coverage(ordered), 0.0))
    else if FaceAvailability(ordered) < 0.35 || |Visible(ordered)| < MIN_VISIBLE_SAMPLES then
      Some(Unavailable(DriverFaceUnavailable, 1.0 - FaceAvailability(ordered), FaceAvailability(ordered)))
    else None
  }

  function Weight(samples: seq<Sample>): real {
    if samples == [] then 0.0 else samples[0].confidence + Weight(samples[1..])
  }

  function SignWeight(samples: seq<Sample>, sign: Sign): real {
    if samples == [] then 0.0
    else (if Shows(samples[0], sign) then samples[0].confidence else 0.0) + SignWeight(samples[1..], sign)
  }

  function Ratio(visible: seq<Sample>, sign: Sign): real {
    if Weight(visible) > 0.0 then SignWeight(visible, sign) / Weight(visible) else 0.0
  }

  function Verdict(durationMs: int, eyesMs: int, gazeMs: int, perclos: real, gazeAwayRatio: real): (State, Reason) {
    if eyesMs >= SUSPECTED_MICROSLEEP_MS || (durationMs >= 8000 && perclos >= 0.42) then
      (DrowsinessSuspected,
       if eyesMs >= SUSPECTED_MICROSLEEP_MS then SustainedEyeClosureEvent else SustainedEyeClosurePattern)
    else if gazeMs >= PROLONGED_GAZE_AWAY_MS || (durationMs >= 4000 && gazeAwayRatio >= 0.7) then
      (ProlongedDistraction, SustainedRoadGazeAway)
    else if gazeMs >= DISTRACTED_GAZE_AWAY_MS || (durationMs >= 1500 && gazeAwayRatio >= 0.45) then
      (Distracted, AttentionAwayFromRoad)
    else (Attentive, AttentionWithinThresholds)
  }

  function AttentionScore(perclos: real, gazeAwayRatio: real, eyesMs: int, gazeMs: int, faceAvailability: real): real {
    var fatigue := Max(perclos, Clamp01(eyesMs as real / 3000.0));
    var distraction := Max(gazeAwayRatio, Clamp01(gazeMs as real / 5000.0));
    Clamp01(1.0 - (0.45 * fatigue + 0.4 * distraction + 0.15 * (1.0 - faceAvailability)))
  }

  /** The assessment of a window that allows one, given its two longest runs. */
  function Judgement(ordered: seq<Sample>, eyesMs: int, gazeMs: int): Assessment
    requires Valid(ordered) != []
  {
    var visible := Visible(ordered);
    var perclos, gazeAwayRatio := Ratio(visible, EyesClosed), Ratio(visible, AttentionAway);
    var face := FaceAvailability(ordered);
    var (state, reason) := Verdict(Duration(ordered), eyesMs, gazeMs, perclos, gazeAwayRatio);
    Assessment(state, ToFixed2(Clamp01(Confidence(ordered))),
      ToFixed2(AttentionScore(perclos, gazeAwayRatio, eyesMs, gazeMs, face)),
               ToFixed2(perclos), ToFixed2(gazeAwayRatio), ToFixed2(face), eyesMs, gazeMs, reason)
  }

  ghost predicate JudgedBy(ordered: seq<Sample>, eyesMs: int, gazeMs: int, r: Assessment)
    requires Refusal(ordered).None?
  {
    IsLongestRun(Visible(ordered), EyesClosed, |Visible(ordered)|, eyesMs) &&
    IsLongestRun(Visible(ordered), AttentionAway, |Visible(ordered)|, gazeMs) &&
    r == Judgement(ordered, eyesMs, gazeMs)
  }

  /** What `r` has to be for a window of samples already in time order. */
  ghost predicate AssessedInOrder(ordered: seq<Sample>, r: Assessment) {
    match Refusal(ordered)
    case Some(refusal) => r == refusal
    case None => exists eyesMs, gazeMs :: JudgedBy(ordered, eyesMs, gazeMs, r)
  }

  ghost predicate Assessed(samples: seq<Sample>, r: Assessment) {
    AssessedInOrder(SortBy(samples, Earlier), r)
  }

  method AssessDriverMonitoring(samples: seq<Sample>) returns (r: Assessment)
    ensures Assessed(samples, r)
  {
    hide SortBy, IsLongestRun, Judgement, Keep;
    var ordered := SortBy(samples, Earlier);
    if |samples| < 3 { return Unavailable(InsufficientTemporalWindow, 0.0, 0.0); }
    if Duration(ordered) < MIN_TEMPORAL_SPAN_MS { return Unavailable(InsufficientTemporalSpan, 0.0, 0.0); }
    var index := 1;
    while index < |ordered|
      invariant 1 <= index <= |ordered|
      invariant forall k :: 0 < k < index ==> GapOk(ordered, k)
    {
      var gap := ordered[index].timestampMs - ordered[index - 1].timestampMs;
      if gap <= 0 || gap > MAX_SAMPLE_GAP_MS {
        assert !GapOk(ordered, index);
        return Unavailable(CabinObservationDiscontinuous, 0.0, 0.0);
      }
      index := index + 1;
    }
    var valid := Keep(ordered, Reliable);
    if valid == [] { return Unavailable(NoReliableCabinObservation, 0.0, 0.0); }
    var coverage := |valid| as real / |ordered| as real;
    if coverage < MIN_RELIABLE_COVERAGE { return Unavailable(CabinObservationQualityLow, coverage, 0.0); }
    var visible := Keep(valid, HasFace);
    var face := |visible| as real / |valid| as real;
    if face < 0.35 || |visible| < MIN_VISIBLE_SAMPLES { return Unavailable(DriverFaceUnavailable, 1.0 - face, face); }
    var eyesMs := LongestSpanMs(visible, EyesClosed);
    var gazeMs := LongestSpanMs(visible, AttentionAway);
    r := Judgement(ordered, eyesMs, gazeMs);
    assert JudgedBy(ordered, eyesMs, gazeMs, r);
  }

  // ------------------------------------------------------------------ laws

  lemma EarlierIsOrder()
    ensures TotalPreorder(Earlier)
  {
  }

  lemma JudgedUnique(ordered: seq<Sample>, r: Assessment, s: Assessment)
    requires AssessedInOrder(ordered, r) && AssessedInOrder(ordered, s)
    ensures r == s
  {
    hide IsLongestRun, Judgement, Visible;
    if Refusal(ordered).None? {
      var e, g :| JudgedBy(ordered, e, g, r);
      var e', g' :| JudgedBy(ordered, e', g', s);
      LongestUnique(Visible(ordered), EyesClosed, |Visible(ordered)|, e, e');
      LongestUnique(Visible(ordered), AttentionAway, |Visible(ordered)|, g, g');
    }
  }

  lemma {:induction false} ContinuousIsStrict(ordered: seq<Sample>, i: nat, j: nat)
    requires Continuous(ordered) && i < j < |ordered|
    ensures ordered[i].timestampMs < ordered[j].timestampMs
    decreases j
  {
    assert GapOk(ordered, j);
    if i < j - 1 { ContinuousIsStrict(ordered, i, j - 1); }
  }

  lemma FirstEarliest(a: seq<Sample>, x: Sample)
    requires Chronological(a) && x in a
    ensures Earlier(a[0], x) && Earlier(x, a[|a| - 1])
  {
    hide Earlier;
    assert Earlier(x, x) by { EarlierIsOrder(); }
    var i :| 0 <= i < |a| && a[i] == x;
  }

  lemma SameElements(a: seq<Sample>, b: seq<Sample>, x: Sample)
    requires multiset(a) == multiset(b) && x in a
    ensures x in b
  {
    assert x in multiset(a);
  }

  /** Two orderings of the same samples begin and end at the same times. */
  lemma SameEnds(a: seq<Sample>, b: seq<Sample>)
    requires Chronological(a) && Chronological(b) && multiset(a) == multiset(b) && a != [] && b != []
    ensures a[0].timestampMs == b[0].timestampMs && a[|a| - 1].timestampMs == b[|b| - 1].timestampMs
  {
    hide SortedBy, Chronological;
    SameElements(a, b, a[0]);
    SameElements(a, b, a[|a| - 1]);
    SameElements(b, a, b[0]);
    SameElements(b, a, b[|b| - 1]);
    FirstEarliest(a, b[0]);
    FirstEarliest(b, a[0]);
    FirstEarliest(a, b[|b| - 1]);
    FirstEarliest(b, a[|a| - 1]);
  }

  lemma TailContinuous(a: seq<Sample>)
    requires a != [] && Continuous(a)
    ensures Continuous(a[1..])
  {
    forall k | 0 < k < |a[1..]| ensures GapOk(a[1..], k) {
      assert GapOk(a, k + 1);
    }
  }

  lemma SameSize(a: seq<Sample>, b: seq<Sample>)
    requires multiset(a) == multiset(b)
    ensures |a| == |b|
  {
    assert |multiset(a)| == |multiset(b)|;
  }

  lemma TailsSame(a: seq<Sample>, b: seq<Sample>)
    requires multiset(a) == multiset(b) && a != [] && b != [] && a[0] == b[0]
    ensures multiset(a[1..]) == multiset(b[1..])
  {
    assert a == [a[0]] + a[1..] && b == [b[0]] + b[1..];
    assert multiset(a[1..]) == multiset(a) - multiset{a[0]};
    assert multiset(b[1..]) == multiset(b) - multiset{b[0]};
  }

  lemma FirstSame(a: seq<Sample>, b: seq<Sample>)
    requires Chronological(a) && Chronological(b) && multiset(a) == multiset(b) && Continuous(a) && a != [] && b != []
    ensures a[0] == b[0]
  {
    hide Chronological, Continuous;
    SameEnds(a, b);
    SameElements(b, a, b[0]);
    var i :| 0 <= i < |a| && a[i] == b[0];
    if i > 0 { ContinuousIsStrict(a, 0, i); }
  }

  /** Samples with different times have only one order. */
  lemma {:induction false} OneOrder(a: seq<Sample>, b: seq<Sample>)
    requires Chronological(a) && Chronological(b) && multiset(a) == multiset(b) && Continuous(a)
    ensures a == b
  {
    hide SortedBy, Continuous;
    SameSize(a, b);
    if a != [] {
      FirstSame(a, b);
      TailsSame(a, b);
      SortedTail(a, Earlier);
      SortedTail(b, Earlier);
      TailContinuous(a);
      OneOrder(a[1..], b[1..]);
      assert a == [a[0]] + a[1..] && b == [b[0]] + b[1..];
    }
  }

  /** Orderings of the same samples are refused alike for length, span and gaps. */
  lemma DiscontinuousAlike(a: seq<Sample>, b: seq<Sample>)
    requires Chronological(a) && Chronological(b) && multiset(a) == multiset(b)
    requires !Continuous(a) && !Continuous(b)
    ensures Refusal(a).Some? && Refusal(a) == Refusal(b)
  {
    hide SortedBy, Continuous, Unavailable, Valid, Visible, Coverage, FaceAvailability;
    SameSize(a, b);
    if |a| >= 3 { SameEnds(a, b); }
  }

  /** The order in which samples arrive never changes the assessment. */
  lemma OrderIrrelevant(samples: seq<Sample>, shuffled: seq<Sample>, r: Assessment, s: Assessment)
    requires multiset(samples) == multiset(shuffled)
    requires Assessed(samples, r) && Assessed(shuffled, s)
    ensures r == s
  {
    hide SortBy, Continuous, Refusal, JudgedBy, SortedBy;
    var a, b := SortBy(samples, Earlier), SortBy(shuffled, Earlier);
    EarlierIsOrder();
    SortSorts(samples, Earlier);
    SortSorts(shuffled, Earlier);
    SortKeeps(samples, Earlier);
    SortKeeps(shuffled, Earlier);
    if Continuous(a) {
      OneOrder(a, b);
      JudgedUnique(a, r, s);
    } else if Continuous(b) {
      OneOrder(b, a);
      JudgedUnique(a, r, s);
    } else {
      DiscontinuousAlike(a, b);
    }
  }

  lemma {:induction false} KeepChronological(samples: seq<Sample>, keep: Sample -> bool)
    requires Chronological(samples)
    ensures Chronological(Keep(samples, keep))
  {
    hide Earlier, SortedBy;
    if samples == [] {
      assert Chronological([]) by { NoneChronological(); }
    } else {
      SortedTail(samples, Earlier);
      KeepChronological(samples[1..], keep);
      var rest := Keep(samples[1..], keep);
      if !keep(samples[0]) {
        assert Keep(samples, keep) == rest;
      } else {
        if rest != [] {
          KeepIn(samples[1..], keep, rest[0]);
          FirstEarliest(samples, rest[0]);
        }
        EarlierIsOrder();
        SortedCons(samples[0], rest, Earlier);
      }
    }
  }

  lemma NoneChronological()
    ensures Chronological([])
  {
  }

  lemma VisibleChronological(samples: seq<Sample>)
    ensures Chronological(Visible(SortBy(samples, Earlier)))
  {
    hide SortBy, Keep, SortedBy;
    EarlierIsOrder();
    SortSorts(samples, Earlier);
    KeepChronological(SortBy(samples, Earlier), Reliable);
    KeepChronological(Valid(SortBy(samples, Earlier)), HasFace);
  }

  /** Some stretch of the sign in the visible samples lasts at least `ms`. */
  predicate Sustained(samples: seq<Sample>, sign: Sign, ms: int) {
    var visible := Visible(SortBy(samples, Earlier));
    exists i: nat, j: nat :: i < |visible| && j < |visible| && Stretch(visible, sign, i, j) && Span(visible, i, j) >= ms
  }

  lemma SustainedIff(visible: seq<Sample>, sign: Sign, longest: int, ms: int)
    requires Chronological(visible) && IsLongestRun(visible, sign, |visible|, longest) && ms > 0
    ensures longest >= ms <==>
            exists i: nat, j: nat :: i < |visible| && j < |visible| && Stretch(visible, sign, i, j) &&
              Span(visible, i, j) >= ms
  {
    hide Continues, Shows, Span, IsLongestRun, SortedBy;
    LongestOfStretches(visible, sign, longest);
  }

  /** A microsleep is reported exactly when the eyes stayed closed for 1.8 s, over
      neighbouring visible samples no more than 2.2 s apart; an attentive driver has
      closed the eyes for less and looked away for less than 1.5 s. */
  lemma MicrosleepIff(samples: seq<Sample>, r: Assessment)
    requires Assessed(samples, r) && r.state != DriverUnavailable
    ensures r.reason == SustainedEyeClosureEvent <==> Sustained(samples, EyesClosed, SUSPECTED_MICROSLEEP_MS)
    ensures r.state == Attentive ==> !Sustained(samples, AttentionAway, DISTRACTED_GAZE_AWAY_MS)
    ensures Sustained(samples, AttentionAway, PROLONGED_GAZE_AWAY_MS) ==>
            r.state == ProlongedDistraction || r.state == DrowsinessSuspected
  {
    hide SortBy, IsLongestRun, Visible, Stretch, Span, Continuous, ToFixed2, AttentionScore, FaceAvailability, Coverage,
      Chronological;
    var ordered := SortBy(samples, Earlier);
    var visible := Visible(ordered);
    VisibleChronological(samples);
    var eyesMs, gazeMs :| JudgedBy(ordered, eyesMs, gazeMs, r);
    SustainedIff(visible, EyesClosed, eyesMs, SUSPECTED_MICROSLEEP_MS);
    SustainedIff(visible, AttentionAway, gazeMs, DISTRACTED_GAZE_AWAY_MS);
    SustainedIff(visible, AttentionAway, gazeMs, PROLONGED_GAZE_AWAY_MS);
  }

  predicate Unit(x: real) {
    0.0 <= x <= 1.0
  }

  lemma ToFixedUnit(x: real)
    requires Unit(x)
    ensures Unit(ToFixed2(x))
  {
    var n := (x * 100.0 + 0.5).Floor;
    assert 0 <= n <= 100;
  }

  lemma {:induction false} SignWeightBounded(samples: seq<Sample>, sign: Sign)
    requires forall s :: s in samples ==> s.confidence >= 0.0
    ensures 0.0 <= SignWeight(samples, sign) <= Weight(samples)
  {
    if samples != [] {
      assert samples[0] in samples;
      SignWeightBounded(samples[1..], sign);
    }
  }

  lemma QuotientUnit(a: real, b: real)
    requires 0.0 <= a <= b && b > 0.0
    ensures Unit(a / b)
  {
  }

  lemma {:induction false} KeepShorter(samples: seq<Sample>, keep: Sample -> bool)
    ensures |Keep(samples, keep)| <= |samples|
  {
    if samples != [] { KeepShorter(samples[1..], keep); }
  }

  lemma RatioUnit(ordered: seq<Sample>, sign: Sign)
    ensures Unit(Ratio(Visible(ordered), sign))
  {
    hide Keep, Weight, SignWeight;
    var visible := Visible(ordered);
    forall s | s in visible ensures s.confidence >= 0.0 {
      KeepIn(Valid(ordered), HasFace, s);
      KeepIn(ordered, Reliable, s);
    }
    SignWeightBounded(visible, sign);
    if Weight(visible) > 0.0 { QuotientUnit(SignWeight(visible, sign), Weight(visible)); }
  }

  /** Every score an assessment reports lies between zero and one. */
  lemma ScoresInRange(samples: seq<Sample>, r: Assessment)
    requires Assessed(samples, r)
    ensures Unit(r.confidence) && Unit(r.attentionScore) && Unit(r.perclos) && Unit(r.gazeAwayRatio) &&
      Unit(r.faceAvailability)
  {
    hide SortBy, IsLongestRun, Valid, Visible, Continuous, ToFixed2, Ratio, Weight, Verdict, Max, Coverage,
      FaceAvailability;
    var ordered := SortBy(samples, Earlier);
    forall x | Unit(x) ensures Unit(ToFixed2(x)) { ToFixedUnit(x); }
    assert ToFixed2(0.0) == 0.0 by { ToFixedZero(); }
    if Refusal(ordered).None? {
      var eyesMs, gazeMs :| JudgedBy(ordered, eyesMs, gazeMs, r);
      RatioUnit(ordered, EyesClosed);
      RatioUnit(ordered, AttentionAway);
      FaceUnit(ordered);
    }
  }

  lemma ToFixedZero()
    ensures ToFixed2(0.0) == 0.0
  {
  }

  lemma FaceUnit(ordered: seq<Sample>)
    requires Valid(ordered) != []
    ensures Unit(FaceAvailability(ordered))
  {
    hide Keep;
    KeepShorter(Valid(ordered), HasFace);
    QuotientUnit(|Visible(ordered)| as real, |Valid(ordered)| as real);
  }
}
