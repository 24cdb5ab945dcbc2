/** When a window of cabin samples allows an assessment and which state it gives, told from
    the samples (services/risk-engine/src/driver-monitoring.ts:47-82). */
module DriverStates {
  import opened Collections
  import opened Sorting
  import opened DriverMonitoring

  // ------------------------------------------------------- weights and counts

  predicate Trusted(s: Sample) {
    s.confidence >= 0.55
  }

  /** A trusted sample in which a face is seen. */
  predicate Seen(s: Sample) {
    s.confidence >= 0.55 && s.faceDetected
  }

  /** The sign, from the sample's own figures. */
  predicate Signals(s: Sample, sign: Sign) {
    if sign.EyesClosed? then s.eyesClosed
    else s.gazeAway || s.headYawDeg > 35.0 || s.headYawDeg < -35.0 || s.headPitchDeg > 28.0 || s.headPitchDeg < -28.0
  }

  function TrustedCount(samples: seq<Sample>): nat {
    if samples == [] then 0 else (if Trusted(samples[0]) then 1 else 0) + TrustedCount(samples[1..])
  }

  function SeenCount(samples: seq<Sample>): nat {
    if samples == [] then 0 else (if Seen(samples[0]) then 1 else 0) + SeenCount(samples[1..])
  }

  function TrustedWeight(samples: seq<Sample>): real {
    if samples == [] then 0.0
    else (if Trusted(samples[0]) then samples[0].confidence else 0.0) + TrustedWeight(samples[1..])
  }

  function SeenWeight(samples: seq<Sample>): real {
    if samples == [] then 0.0
    else (if Seen(samples[0]) then samples[0].confidence else 0.0) + SeenWeight(samples[1..])
  }

  /** The weight of the samples seen that show the sign. */
  function SignalWeight(samples: seq<Sample>, sign: Sign): real {
    if samples == [] then 0.0
    else
      (if Seen(samples[0]) && Signals(samples[0], sign) then samples[0].confidence else 0.0) +
      SignalWeight(samples[1..], sign)
  }

  lemma VisibleStep(samples: seq<Sample>)
    requires samples != []
    ensures Valid(samples) == (if Trusted(samples[0]) then [samples[0]] else []) + Valid(samples[1..])
    ensures Visible(samples) == (if Seen(samples[0]) then [samples[0]] else []) + Visible(samples[1..])
  {
    var rest := Valid(samples[1..]);
    assert Valid(samples) == (if Trusted(samples[0]) then [samples[0]] else []) + rest;
    if Trusted(samples[0]) {
      assert ([samples[0]] + rest)[1..] == rest;
    } else {
      assert [] + rest == rest;
      assert [] + Visible(samples[1..]) == Visible(samples[1..]);
    }
  }

  lemma SignalsIsShows(s: Sample, sign: Sign)
    ensures Signals(s, sign) == Shows(s, sign)
  {
  }

  lemma {:induction false} Counted(samples: seq<Sample>)
    ensures |Valid(samples)| == TrustedCount(samples) && |Visible(samples)| == SeenCount(samples)
    ensures Weight(Valid(samples)) == TrustedWeight(samples) && Weight(Visible(samples)) == SeenWeight(samples)
  {
    hide Valid, Visible;
    if samples == [] {
      NothingVisible();
    } else {
      VisibleStep(samples);
      Counted(samples[1..]);
      var x, a, b := samples[0], Valid(samples[1..]), Visible(samples[1..]);
      assert ([x] + a)[1..] == a && ([x] + b)[1..] == b && [] + a == a && [] + b == b;
    }
  }

  lemma {:induction false} SignalCounted(samples: seq<Sample>, sign: Sign)
    ensures SignWeight(Visible(samples), sign) == SignalWeight(samples, sign)
  {
    hide Valid, Visible, Shows, Signals;
    if samples == [] {
      NothingVisible();
    } else {
      VisibleStep(samples);
      SignalCounted(samples[1..], sign);
      SignalsIsShows(samples[0], sign);
      var x, b := samples[0], Visible(samples[1..]);
      assert ([x] + b)[1..] == b && [] + b == b;
    }
  }

  lemma NothingVisible()
    ensures Valid([]) == [] && Visible([]) == []
  {
  }

  // ------------------------------------------------------------ assessability

  /** The window allows an assessment: three samples over 1.5 s without a gap above 2.2 s
      or a repeated time, half of them trusted, and a face in 35 percent of those and in
      three. */
  predicate Assessable(ordered: seq<Sample>) {
    var n := |ordered|;
    n >= 3 && ordered[n - 1].timestampMs - ordered[0].timestampMs >= 1500 &&
    (forall k :: 0 < k < n ==> 0 < ordered[k].timestampMs - ordered[k - 1].timestampMs <= 2200) &&
    2 * TrustedCount(ordered) >= n && 20 * SeenCount(ordered) >= 7 * TrustedCount(ordered) && SeenCount(ordered) >= 3
  }

  lemma ProductGrows(a: real, b: real, m: real)
    requires m > 0.0 && a < b
    ensures a * m < b * m
  {
    assert (b - a) * m > 0.0;
  }

  /** Comparing a share without dividing. */
  lemma ShareBelow(x: real, m: real, share: real)
    requires m > 0.0
    ensures x / m < share <==> x < share * m
  {
    var q := x / m;
    assert q * m == x;
    if q < share { ProductGrows(q, share, m); }
    if q > share { ProductGrows(share, q, m); }
  }

  lemma HalfIff(v: nat, n: nat)
    requires n > 0
    ensures v as real / n as real < 0.5 <==> 2 * v < n
  {
    ShareBelow(v as real, n as real, 0.5);
  }

  lemma FaceIff(f: nat, v: nat)
    requires v > 0
    ensures f as real / v as real < 0.35 <==> 20 * f < 7 * v
  {
    ShareBelow(f as real, v as real, 0.35);
  }

  lemma CoverageIff(ordered: seq<Sample>)
    requires |ordered| >= 3
    ensures Valid(ordered) == [] || Coverage(ordered) < 0.5 <==> 2 * TrustedCount(ordered) < |ordered|
    ensures Valid(ordered) != [] ==>
      (FaceAvailability(ordered) < 0.35 <==> 20 * SeenCount(ordered) < 7 * TrustedCount(ordered))
  {
    hide Valid, Visible, TrustedCount, SeenCount, TrustedWeight, SeenWeight, Weight;
    Counted(ordered);
    HalfIff(TrustedCount(ordered), |ordered|);
    if TrustedCount(ordered) > 0 { FaceIff(SeenCount(ordered), TrustedCount(ordered)); }
  }

  lemma ContinuousIs(ordered: seq<Sample>)
    ensures Continuous(ordered) <==>
      forall k :: 0 < k < |ordered| ==> 0 < ordered[k].timestampMs - ordered[k - 1].timestampMs <= 2200
  {
    if Continuous(ordered) {
      forall k | 0 < k < |ordered| ensures 0 < ordered[k].timestampMs - ordered[k - 1].timestampMs <= 2200 {
        assert GapOk(ordered, k);
      }
    }
  }

  lemma RefusalIff(ordered: seq<Sample>)
    ensures Refusal(ordered).None? <==> Assessable(ordered)
  {
    hide Valid, Visible, Unavailable, Coverage, FaceAvailability, Continuous;
    if |ordered| >= 3 {
      CoverageIff(ordered);
      Counted(ordered);
      ContinuousIs(ordered);
    }
  }

  /** A window is assessed exactly when it allows it; the samples may come in any order. */
  lemma AssessedIff(samples: seq<Sample>, r: Assessment)
    requires Assessed(samples, r)
    ensures r.state != DriverUnavailable <==> Assessable(SortBy(samples, Earlier))
  {
    hide SortBy, IsLongestRun, Judgement, Continuous, Assessable;
    var ordered := SortBy(samples, Earlier);
    RefusalIff(ordered);
    if Refusal(ordered).None? {
      var eyesMs, gazeMs :| JudgedBy(ordered, eyesMs, gazeMs, r);
      JudgementAvailable(ordered, eyesMs, gazeMs);
    } else {
      RefusalUnavailable(ordered);
    }
  }

  lemma JudgementAvailable(ordered: seq<Sample>, eyesMs: int, gazeMs: int)
    requires Valid(ordered) != []
    ensures Judgement(ordered, eyesMs, gazeMs).state != DriverUnavailable
  {
    hide Valid, Visible, ToFixed2, AttentionScore;
  }

  lemma RefusalUnavailable(ordered: seq<Sample>)
    requires Refusal(ordered).Some?
    ensures Refusal(ordered).value.state == DriverUnavailable
  {
    hide Valid, Visible, ToFixed2, Coverage, FaceAvailability, Continuous;
  }

  /** What is wrong with a window that allows no assessment: the first of six things. */
  function Trouble(ordered: seq<Sample>): Reason {
    var n := |ordered|;
    if n < 3 then InsufficientTemporalWindow
    else if ordered[n - 1].timestampMs - ordered[0].timestampMs < 1500 then InsufficientTemporalSpan
    else if exists k :: 0 < k < n && !(0 < ordered[k].timestampMs - ordered[k - 1].timestampMs <= 2200)
    then CabinObservationDiscontinuous
    else if TrustedCount(ordered) == 0 then NoReliableCabinObservation
    else if 2 * TrustedCount(ordered) < n then CabinObservationQualityLow
    else DriverFaceUnavailable
  }

  /** `r` is `x` to two decimals, 0 or 1 if `x` lies beyond. */
  predicate Reported(r: real, x: real) {
    r == ToFixed2(Clamp01(x))
  }

  lemma RefusalNames(ordered: seq<Sample>)
    requires Refusal(ordered).Some?
    ensures var r, n, v, f := Refusal(ordered).value, |ordered|, TrustedCount(ordered), SeenCount(ordered);
            r.reason == Trouble(ordered) && r.state == DriverUnavailable &&
            r.attentionScore == r.perclos == r.gazeAwayRatio == 0.0 && r.maxEyesClosedMs == r.maxGazeAwayMs == 0 &&
            (if r.reason == CabinObservationQualityLow then n > 0 && Reported(r.confidence, v as real / n as real)
             else if r.reason == DriverFaceUnavailable then
               v > 0 && Reported(r.confidence, 1.0 - f as real / v as real)
             else r.confidence == 0.0) &&
            if r.reason == DriverFaceUnavailable then v > 0 && Reported(r.faceAvailability, f as real / v as real)
            else r.faceAvailability == 0.0
  {
    hide Valid, Visible, Continuous, TrustedCount, SeenCount, TrustedWeight, SeenWeight, Weight, ToFixed2, Clamp01;
    ToFixedZero();
    if |ordered| >= 3 {
      CoverageIff(ordered);
      Counted(ordered);
      ContinuousIs(ordered);
    }
  }

  lemma ToFixedZero()
    ensures ToFixed2(Clamp01(0.0)) == 0.0
  {
    assert 0.5.Floor == 0;
  }

  /** What a refusal says: the first thing wrong, with the share of trusted samples as
      confidence if that was too low, and if faces were too few with their share. */
  lemma RefusedBecause(samples: seq<Sample>, r: Assessment)
    requires Assessed(samples, r) && r.state == DriverUnavailable
    ensures var ordered := SortBy(samples, Earlier);
            var n, v, f := |ordered|, TrustedCount(ordered), SeenCount(ordered);
            r.reason == Trouble(ordered) &&
            r.attentionScore == r.perclos == r.gazeAwayRatio == 0.0 && r.maxEyesClosedMs == r.maxGazeAwayMs == 0 &&
            (if r.reason == CabinObservationQualityLow then n > 0 && Reported(r.confidence, v as real / n as real)
             else if r.reason == DriverFaceUnavailable then
               v > 0 && Reported(r.confidence, 1.0 - f as real / v as real)
             else r.confidence == 0.0) &&
            if r.reason == DriverFaceUnavailable then v > 0 && Reported(r.faceAvailability, f as real / v as real)
            else r.faceAvailability == 0.0
  {
    hide SortBy, IsLongestRun, Judgement, TrustedCount, SeenCount, Trouble, Reported, Refusal, Assessable;
    var ordered := SortBy(samples, Earlier);
    AssessedIff(samples, r);
    RefusalIff(ordered);
    RefusalNames(ordered);
  }

  // -------------------------------------------------------------------- states

  /** The samples that show the sign have at least `share` of the weight of all seen. */
  predicate Often(ordered: seq<Sample>, sign: Sign, share: real) {
    SignalWeight(ordered, sign) >= share * SeenWeight(ordered)
  }

  predicate Lasts(ordered: seq<Sample>, ms: int) {
    ordered != [] && ordered[|ordered| - 1].timestampMs - ordered[0].timestampMs >= ms
  }

  predicate Drowsy(samples: seq<Sample>) {
    var ordered := SortBy(samples, Earlier);
    Sustained(samples, EyesClosed, 1800) || (Lasts(ordered, 8000) && Often(ordered, EyesClosed, 0.42))
  }

  predicate LongAway(samples: seq<Sample>) {
    var ordered := SortBy(samples, Earlier);
    Sustained(samples, AttentionAway, 3500) || (Lasts(ordered, 4000) && Often(ordered, AttentionAway, 0.7))
  }

  predicate Away(samples: seq<Sample>) {
    var ordered := SortBy(samples, Earlier);
    Sustained(samples, AttentionAway, 1500) || (Lasts(ordered, 1500) && Often(ordered, AttentionAway, 0.45))
  }

  lemma {:induction false} WeightAtLeast(samples: seq<Sample>)
    ensures SeenWeight(samples) >= 0.55 * SeenCount(samples) as real
  {
    if samples != [] { WeightAtLeast(samples[1..]); }
  }

  lemma OftenIff(ordered: seq<Sample>, sign: Sign, share: real)
    requires SeenCount(ordered) >= 3
    ensures Ratio(Visible(ordered), sign) >= share <==> Often(ordered, sign, share)
  {
    hide Visible, Weight, SignWeight, SeenWeight, SignalWeight;
    Counted(ordered);
    SignalCounted(ordered, sign);
    WeightAtLeast(ordered);
    ShareBelow(SignalWeight(ordered, sign), SeenWeight(ordered), share);
  }

  lemma LastsIff(ordered: seq<Sample>, ms: int)
    requires ordered != [] && ms > 0
    ensures Duration(ordered) >= ms <==> Lasts(ordered, ms)
  {
  }

  /** The state and the reason given are those of the first of the three conditions that
      holds: drowsy, long away, away. */
  lemma StateIff(samples: seq<Sample>, r: Assessment)
    requires Assessed(samples, r) && r.state != DriverUnavailable
    ensures (r.state, r.reason) ==
            if Drowsy(samples) then
              (DrowsinessSuspected,
               if Sustained(samples, EyesClosed, 1800) then SustainedEyeClosureEvent else SustainedEyeClosurePattern)
            else if LongAway(samples) then (ProlongedDistraction, SustainedRoadGazeAway)
            else if Away(samples) then (Distracted, AttentionAwayFromRoad)
            else (Attentive, AttentionWithinThresholds)
  {
    hide SortBy, IsLongestRun, Visible, Valid, Stretch, Span, Continuous, ToFixed2, AttentionScore, FaceAvailability,
      Coverage, Chronological, Often, Lasts, Duration, Ratio, SeenCount, TrustedCount, Sustained, Weight;
    var ordered := SortBy(samples, Earlier);
    AssessedIff(samples, r);
    VisibleChronological(samples);
    var eyesMs, gazeMs :| JudgedBy(ordered, eyesMs, gazeMs, r);
    SustainedIs(samples, EyesClosed, eyesMs, 1800);
    SustainedIs(samples, AttentionAway, gazeMs, 3500);
    SustainedIs(samples, AttentionAway, gazeMs, 1500);
    OftenIff(ordered, EyesClosed, 0.42);
    OftenIff(ordered, AttentionAway, 0.7);
    OftenIff(ordered, AttentionAway, 0.45);
    LastsIff(ordered, 8000);
    LastsIff(ordered, 4000);
    LastsIff(ordered, 1500);
  }

  lemma SustainedIs(samples: seq<Sample>, sign: Sign, longest: int, ms: int)
    requires var visible := Visible(SortBy(samples, Earlier));
             Chronological(visible) && IsLongestRun(visible, sign, |visible|, longest) && ms > 0
    ensures longest >= ms <==> Sustained(samples, sign, ms)
  {
    hide SortBy, IsLongestRun, Visible, Stretch, Span, Chronological;
    SustainedIff(Visible(SortBy(samples, Earlier)), sign, longest, ms);
  }

  // -------------------------------------------------------------------- scores

  /** `r` is `x` to two decimals: the nearest hundredth, ties upwards. */
  ghost predicate Hundredths(r: real, x: real) {
    x - 0.005 < r <= x + 0.005 && exists n: int :: IsHundredth(r, n)
  }

  predicate IsHundredth(r: real, n: int) {
    r == n as real / 100.0
  }

  lemma ToFixedIs(x: real)
    ensures Hundredths(ToFixed2(x), x)
  {
    var n := (x * 100.0 + 0.5).Floor;
    assert n as real <= x * 100.0 + 0.5 < (n + 1) as real;
    assert IsHundredth(ToFixed2(x), n);
  }

  /** How often a trusted sample shows a face. */
  function FaceShare(ordered: seq<Sample>): real
    requires TrustedCount(ordered) > 0
  {
    SeenCount(ordered) as real / TrustedCount(ordered) as real
  }

  /** The mean confidence, a sample that is not trusted counting nothing, scaled down for
      missing faces, to a half at most. */
  function Certainty(ordered: seq<Sample>): real
    requires ordered != [] && TrustedCount(ordered) > 0
  {
    TrustedWeight(ordered) / |ordered| as real * (if FaceShare(ordered) > 0.5 then FaceShare(ordered) else 0.5)
  }

  lemma ConfidenceIs(ordered: seq<Sample>)
    requires ordered != [] && Valid(ordered) != []
    ensures TrustedCount(ordered) > 0 && Confidence(ordered) == Certainty(ordered)
  {
    hide Visible, Valid, Weight, SeenCount, TrustedCount, TrustedWeight, SeenWeight;
    Counted(ordered);
    var w, v, n := TrustedWeight(ordered), TrustedCount(ordered) as real, |ordered| as real;
    MeanIs(w, v, n);
    assert FaceAvailability(ordered) == FaceShare(ordered);
    assert Weight(Valid(ordered)) / v * Coverage(ordered) == w / n;
  }

  lemma SharesAre(ordered: seq<Sample>, eyesMs: int, gazeMs: int)
    requires Valid(ordered) != [] && SeenCount(ordered) >= 3
    ensures var r, weight := Judgement(ordered, eyesMs, gazeMs), SeenWeight(ordered);
            weight > 0.0 && r.perclos == ToFixed2(SignalWeight(ordered, EyesClosed) / weight) &&
            r.gazeAwayRatio == ToFixed2(SignalWeight(ordered, AttentionAway) / weight) &&
            TrustedCount(ordered) > 0 &&
            r.faceAvailability == ToFixed2(SeenCount(ordered) as real / TrustedCount(ordered) as real) &&
            r.confidence == ToFixed2(Clamp01(Confidence(ordered)))
  {
    hide Confidence, Visible, Valid, ToFixed2, AttentionScore, Weight, SeenCount, TrustedCount, TrustedWeight,
      SeenWeight, Clamp01, Verdict, SignWeight, SignalWeight;
    Counted(ordered);
    SignalCounted(ordered, EyesClosed);
    SignalCounted(ordered, AttentionAway);
    WeightAtLeast(ordered);
  }

  lemma AssessableCounts(ordered: seq<Sample>)
    requires Refusal(ordered).None?
    ensures ordered != [] && SeenCount(ordered) >= 3 && TrustedCount(ordered) > 0 && Valid(ordered) != []
  {
    hide Visible, Valid, SeenCount, TrustedCount, Continuous;
    RefusalIff(ordered);
    Counted(ordered);
  }

  /** The shares and the confidence reported: how much of the weight seen shows each sign,
      how often a trusted sample shows a face, and the mean confidence, a sample that is
      not trusted counting nothing, scaled down to a half at most for missing faces. */
  lemma ScoresAre(samples: seq<Sample>, r: Assessment)
    requires Assessed(samples, r) && r.state != DriverUnavailable
    ensures var ordered := SortBy(samples, Earlier);
            ordered != [] && SeenWeight(ordered) > 0.0 && TrustedCount(ordered) > 0 &&
            var weight := SeenWeight(ordered);
            Hundredths(r.perclos, SignalWeight(ordered, EyesClosed) / weight) &&
            Hundredths(r.gazeAwayRatio, SignalWeight(ordered, AttentionAway) / weight) &&
            Hundredths(r.faceAvailability, FaceShare(ordered)) &&
            Hundredths(r.confidence, Clamp01(Certainty(ordered)))
  {
    hide SortBy, IsLongestRun, Judgement, Valid, Continuous, ToFixed2, SeenCount, TrustedCount, TrustedWeight,
      SeenWeight, SignalWeight, Hundredths, Clamp01, Refusal, Assessable, Confidence, Certainty;
    var ordered := SortBy(samples, Earlier);
    RefusedUnavailable(ordered, r);
    AssessableCounts(ordered);
    var eyesMs, gazeMs :| JudgedBy(ordered, eyesMs, gazeMs, r);
    SharesAre(ordered, eyesMs, gazeMs);
    ConfidenceIs(ordered);
    ToFixedIs(SignalWeight(ordered, EyesClosed) / SeenWeight(ordered));
    ToFixedIs(SignalWeight(ordered, AttentionAway) / SeenWeight(ordered));
    ToFixedIs(FaceShare(ordered));
    ToFixedIs(Clamp01(Certainty(ordered)));
  }

  function LongestOf(r: Assessment, sign: Sign): int {
    if sign.EyesClosed? then r.maxEyesClosedMs else r.maxGazeAwayMs
  }

  /** The longest stretches and the attention score reported are those of the samples
      seen. */
  lemma LongestReported(samples: seq<Sample>, r: Assessment, sign: Sign)
    requires Assessed(samples, r) && r.state != DriverUnavailable
    ensures var visible := Visible(SortBy(samples, Earlier));
            (forall i: nat, j: nat :: Stretch(visible, sign, i, j) ==> Span(visible, i, j) <= LongestOf(r, sign)) &&
            (LongestOf(r, sign) == 0 ||
             exists i: nat, j: nat :: Stretch(visible, sign, i, j) && Span(visible, i, j) == LongestOf(r, sign))
  {
    hide SortBy, IsLongestRun, Visible, Valid, Stretch, Span, Refusal, Verdict, ToFixed2, AttentionScore, Ratio,
      Confidence, FaceAvailability;
    var ordered := SortBy(samples, Earlier);
    RefusedUnavailable(ordered, r);
    VisibleChronological(samples);
    var eyesMs, gazeMs :| JudgedBy(ordered, eyesMs, gazeMs, r);
    LongestOfStretches(Visible(ordered), EyesClosed, eyesMs);
    LongestOfStretches(Visible(ordered), AttentionAway, gazeMs);
  }

  lemma ScoreIs(samples: seq<Sample>, r: Assessment)
    requires Assessed(samples, r) && r.state != DriverUnavailable
    ensures var ordered := SortBy(samples, Earlier);
            ordered != [] && SeenWeight(ordered) > 0.0 && TrustedCount(ordered) > 0 &&
            var weight := SeenWeight(ordered);
            Hundredths(r.attentionScore,
                       AttentionScore(SignalWeight(ordered, EyesClosed) / weight,
                                      SignalWeight(ordered, AttentionAway) / weight,
                                      r.maxEyesClosedMs, r.maxGazeAwayMs, FaceShare(ordered)))
  {
    hide SortBy, IsLongestRun, Judgement, Valid, Continuous, ToFixed2, SeenCount, TrustedCount, TrustedWeight,
      SeenWeight, SignalWeight, Hundredths, Refusal, AttentionScore;
    var ordered := SortBy(samples, Earlier);
    RefusedUnavailable(ordered, r);
    AssessableCounts(ordered);
    var eyesMs, gazeMs :| JudgedBy(ordered, eyesMs, gazeMs, r);
    JudgementScore(ordered, eyesMs, gazeMs);
    var weight := SeenWeight(ordered);
    ToFixedIs(AttentionScore(SignalWeight(ordered, EyesClosed) / weight, SignalWeight(ordered, AttentionAway) / weight,
                             eyesMs, gazeMs, FaceShare(ordered)));
  }

  lemma JudgementScore(ordered: seq<Sample>, eyesMs: int, gazeMs: int)
    requires Valid(ordered) != [] && SeenCount(ordered) >= 3
    ensures var r, weight := Judgement(ordered, eyesMs, gazeMs), SeenWeight(ordered);
            weight > 0.0 && TrustedCount(ordered) > 0 && r.maxEyesClosedMs == eyesMs && r.maxGazeAwayMs == gazeMs &&
            r.attentionScore ==
            ToFixed2(AttentionScore(SignalWeight(ordered, EyesClosed) / weight,
                                    SignalWeight(ordered, AttentionAway) / weight, eyesMs, gazeMs, FaceShare(ordered)))
  {
    hide Confidence, Visible, Valid, ToFixed2, AttentionScore, Weight, SeenCount, TrustedCount, TrustedWeight,
      SeenWeight, Verdict, SignWeight, SignalWeight;
    Counted(ordered);
    SignalCounted(ordered, EyesClosed);
    SignalCounted(ordered, AttentionAway);
    WeightAtLeast(ordered);
  }

  lemma RefusedUnavailable(ordered: seq<Sample>, r: Assessment)
    requires AssessedInOrder(ordered, r) && r.state != DriverUnavailable
    ensures Refusal(ordered).None?
  {
    hide Refusal, Judgement;
    if Refusal(ordered).Some? { RefusalUnavailable(ordered); }
  }

  lemma MeanIs(w: real, v: real, n: real)
    requires v > 0.0 && n > 0.0
    ensures w / v * (v / n) == w / n
  {
    assert w / v * v == w;
    assert (w / v) * (v / n) == ((w / v) * v) / n;
  }

  /** More closed eyes, more time looking away or fewer faces never raise the attention
      score. */
  lemma ScoreFalls(perclos: real, gaze: real, eyesMs: int, gazeMs: int, face: real,
                   perclos': real, gaze': real, eyesMs': int, gazeMs': int, face': real)
    requires perclos <= perclos' && gaze <= gaze' && eyesMs <= eyesMs' && gazeMs <= gazeMs' && face' <= face
    ensures AttentionScore(perclos', gaze', eyesMs', gazeMs', face') <=
            AttentionScore(perclos, gaze, eyesMs, gazeMs, face)
  {
    assert eyesMs as real / 3000.0 <= eyesMs' as real / 3000.0 && gazeMs as real / 5000.0 <= gazeMs' as real / 5000.0;
  }

  /** What each costs: eyes closed all the time or for 3 s 45 hundredths, looking away all
      the time or for 5 s 40, no face 15, in proportion. */
  lemma ScoreCosts(x: real)
    requires 0.0 <= x <= 1.0
    ensures AttentionScore(x, 0.0, 0, 0, 1.0) == 1.0 - 0.45 * x
    ensures AttentionScore(0.0, x, 0, 0, 1.0) == 1.0 - 0.4 * x
    ensures AttentionScore(0.0, 0.0, 0, 0, 1.0 - x) == 1.0 - 0.15 * x
    ensures AttentionScore(0.0, 0.0, 3000, 0, 1.0) == 0.55 && AttentionScore(0.0, 0.0, 1500, 0, 1.0) == 0.775
    ensures AttentionScore(0.0, 0.0, 0, 5000, 1.0) == 0.6 && AttentionScore(0.0, 0.0, 0, 2500, 1.0) == 0.8
  {
  }
}
