/** Angles and freshness in the radar-camera association
    (services/risk-engine/src/edge-fusion.ts:44-56, 88-111, 129-136). */
module EdgeFusionLaws {
  import opened Collections
  import opened EdgeFusion

  // --------------------------------------------------------------------- angles

  /** `turns` full circles lead from one direction to within `d` of the other. */
  predicate LeadsTo(a: real, b: real, d: real, turns: int) {
    a - b - 360.0 * turns as real == d || b - a + 360.0 * turns as real == d
  }

  /** The angle between two directions: at most half a circle. */
  ghost predicate IsAngle(a: real, b: real, d: real) {
    0.0 <= d <= 180.0 && exists turns: int :: LeadsTo(a, b, d, turns)
  }

  lemma RemainderSplits(x: real) returns (whole: int)
    ensures x == 360.0 * whole as real + Remainder360(x)
    ensures x >= 0.0 ==> 0.0 <= Remainder360(x) < 360.0
    ensures x <= 0.0 ==> -360.0 < Remainder360(x) <= 0.0
  {
    var turns := x / 360.0;
    whole := if turns >= 0.0 then turns.Floor else -((-turns).Floor);
    assert turns * 360.0 == x;
    if turns >= 0.0 {
      assert whole as real <= turns < (whole + 1) as real;
    } else {
      assert (-whole) as real <= -turns < (-whole + 1) as real;
    }
  }

  /** Directions have one angle. */
  lemma AngleUnique(a: real, b: real, d: real, e: real)
    requires IsAngle(a, b, d) && IsAngle(a, b, e)
    ensures d == e
  {
    var m :| LeadsTo(a, b, d, m);
    var n :| LeadsTo(a, b, e, n);
    assert m != n ==> 360.0 * (m - n) as real >= 360.0 || 360.0 * (m - n) as real <= -360.0;
  }

  predicate WholeTurns(a: real, b: real, turns: int) {
    a - b + 540.0 == 360.0 * turns as real
  }

  lemma NoWholeTurns(base: real, whole: int, r: real, turns: int)
    requires base == 360.0 * whole as real && -360.0 < r < 0.0
    ensures base + r != 360.0 * turns as real
  {
    assert turns >= whole ==> 360.0 * turns as real >= base;
    assert turns < whole ==> 360.0 * turns as real <= base - 360.0;
  }

  /** The residual that is compared is the angle between the two bearings, across north
      too, exactly unless the track's bearing is more than 540 degrees less than the
      detection's: JavaScript's remainder of a negative number is negative. */
  lemma AngleDeltaIff(a: real, b: real)
    ensures IsAngle(a, b, AngleDelta(a, b)) <==>
            a - b + 540.0 >= 0.0 || exists turns: int :: WholeTurns(a, b, turns)
  {
    var x := a - b + 540.0;
    var whole := RemainderSplits(x);
    var r, d := Remainder360(x), AngleDelta(a, b);
    if x >= 0.0 {
      assert -180.0 <= r - 180.0 < 180.0;
      assert LeadsTo(a, b, d, whole - 1);
    } else if r == 0.0 {
      assert WholeTurns(a, b, whole);
      assert LeadsTo(a, b, d, whole - 1);
    } else {
      assert d > 180.0;
      forall turns: int ensures !WholeTurns(a, b, turns) { NoWholeTurns(x - r, whole, r, turns); }
    }
  }

  /** For bearings of a circle it always is. */
  lemma BearingsHaveAngle(a: real, b: real)
    requires 0.0 <= a < 360.0 && 0.0 <= b < 360.0
    ensures IsAngle(a, b, AngleDelta(a, b))
  {
    AngleDeltaIff(a, b);
  }

  // ------------------------------------------------------------------ freshness

  /** What is left of a frame: nothing of one that is stale, and of another the tracks of
      the last 250 ms, none more than 50 ms ahead. */
  lemma TracksUsed(frame: Option<RadarFrame>, nowMs: int, t: RadarTrack)
    ensures t in FreshTracks(RawTracks(frame, nowMs), nowMs) <==>
            frame.Some? && nowMs - 250 <= frame.value.timestampMs <= nowMs + 50 && t in frame.value.tracks &&
            nowMs - 250 <= t.timestampMs <= nowMs + 50
  {
    KeepIn(RawTracks(frame, nowMs), (t: RadarTrack) => ObservationFresh(t.timestampMs, nowMs, RADAR_MAX_AGE_MS), t);
  }

  lemma DetectionsUsed(frame: Option<CameraFrame>, nowMs: int, d: CameraDetection)
    ensures d in FreshDetections(RawDetections(frame, nowMs), nowMs) <==>
            frame.Some? && nowMs - 350 <= frame.value.timestampMs <= nowMs + 50 && d in frame.value.detections &&
            nowMs - 350 <= d.timestampMs <= nowMs + 50
  {
    KeepIn(RawDetections(frame, nowMs),
           (d: CameraDetection) => ObservationFresh(d.timestampMs, nowMs, CAMERA_MAX_AGE_MS), d);
  }

  // -------------------------------------------------------------------- matches

  /** Which detections a track with an ordinary bearing may be matched to: no more than
      120 ms, 9 degrees and, if the camera has a distance, 8 m away. */
  lemma GatesIff(t: RadarTrack, d: CameraDetection, angle: real)
    requires IsAngle(t.bearingDeg, d.bearingDeg, angle) && t.bearingDeg - d.bearingDeg >= -540.0
    ensures Gates(t, d) <==>
            -120 <= t.timestampMs - d.timestampMs <= 120 && angle <= 9.0 &&
            (d.estimatedDistanceM.Some? ==> -8.0 <= t.distanceM - d.estimatedDistanceM.value <= 8.0)
  {
    AngleDeltaIff(t.bearingDeg, d.bearingDeg);
    AngleUnique(t.bearingDeg, d.bearingDeg, angle, AngleDelta(t.bearingDeg, d.bearingDeg));
  }

  /** How matches are weighed: a degree of bearing counts as much as 20 sevenths of a metre
      or 60 ms, and a missing distance like 2.8 m. */
  lemma ScoresCompare(t: RadarTrack, d: CameraDetection, e: CameraDetection, angle: real, other: real)
    requires t.bearingDeg - d.bearingDeg >= -540.0 && t.bearingDeg - e.bearingDeg >= -540.0
    requires IsAngle(t.bearingDeg, d.bearingDeg, angle) && IsAngle(t.bearingDeg, e.bearingDeg, other)
    ensures var m := if d.estimatedDistanceM.Some? then AbsReal(t.distanceM - d.estimatedDistanceM.value) else 2.8;
            var n := if e.estimatedDistanceM.Some? then AbsReal(t.distanceM - e.estimatedDistanceM.value) else 2.8;
            Score(t, d) < Score(t, e) <==>
            60.0 * (angle - other) + 21.0 * (m - n) < (SkewMs(t, e) - SkewMs(t, d)) as real
  {
    hide AngleDelta;
    AngleDeltaIff(t.bearingDeg, d.bearingDeg);
    AngleDeltaIff(t.bearingDeg, e.bearingDeg);
    AngleUnique(t.bearingDeg, d.bearingDeg, angle, AngleDelta(t.bearingDeg, d.bearingDeg));
    AngleUnique(t.bearingDeg, e.bearingDeg, other, AngleDelta(t.bearingDeg, e.bearingDeg));
  }
}
