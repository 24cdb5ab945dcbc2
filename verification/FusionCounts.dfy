/** What the diagnostics of a fusion step count and what its reply holds, told from the
    tracks, the detections and the pairs made
    (services/risk-engine/src/edge-fusion.ts:113-121, 138-213). */
module FusionCounts {
  import opened Collections
  import opened EdgeFusion
  import opened Sorting
  import opened EdgeFusionLaws

  /** Bearings are those of a circle. */
  predicate Bearings(objects: seq<Object>, ds: seq<CameraDetection>) {
    (forall o :: o in objects && o.FromRadar? ==> 0.0 <= o.track.bearingDeg < 360.0) &&
    (forall d :: d in ds ==> 0.0 <= d.bearingDeg < 360.0)
  }

  /** One of the first `n` objects is matched to a detection of this id. */
  ghost predicate TakenBefore(objects: seq<Object>, n: nat, id: Key)
    requires n <= |objects|
  {
    exists i :: 0 <= i < n && Matched(objects[i], id)
  }

  predicate Matched(o: Object, id: Key) {
    o.FromRadar? && o.camera.Some? && o.camera.value.id == id
  }

  lemma UsedIsTaken(objects: seq<Object>, n: nat, id: Key)
    requires n <= |objects|
    ensures id in UsedBy(objects, n) <==> TakenBefore(objects, n, id)
  {
    if id in UsedBy(objects, n) {
      var i := UsedByMatched(objects, n, id);
      assert Matched(objects[i], id);
    } else if TakenBefore(objects, n, id) {
      var i :| 0 <= i < n && Matched(objects[i], id);
      UsedByHolds(objects, i, n);
    }
  }

  /** Same time and direction, another distance: no more than 120 ms and 9 degrees away,
      but more than 8 m. */
  ghost predicate Contradicts(t: RadarTrack, d: CameraDetection) {
    -120 <= t.timestampMs - d.timestampMs <= 120 &&
    (exists angle :: IsAngle(t.bearingDeg, d.bearingDeg, angle) && angle <= 9.0) &&
    d.estimatedDistanceM.Some? &&
    (t.distanceM - d.estimatedDistanceM.value > 8.0 || d.estimatedDistanceM.value - t.distanceM > 8.0)
  }

  /** Object `i` is an unmatched track that a detection left over contradicts. */
  ghost predicate Disagrees(objects: seq<Object>, ds: seq<CameraDetection>, i: nat)
    requires i < |objects|
  {
    objects[i].FromRadar? && objects[i].camera.None? &&
    exists d :: d in ds && !TakenBefore(objects, i, d.id) && Contradicts(objects[i].track, d)
  }

  lemma ConflictIff(t: RadarTrack, d: CameraDetection)
    requires 0.0 <= t.bearingDeg < 360.0 && 0.0 <= d.bearingDeg < 360.0
    ensures Contradicts(t, d) <==>
            SkewMs(t, d) <= MAX_CROSS_SENSOR_SKEW_MS && AngleDelta(t.bearingDeg, d.bearingDeg) <= MATCH_BEARING_DEG &&
            d.estimatedDistanceM.Some? && DistanceResidual(t, d).value > MATCH_DISTANCE_M
  {
    hide AngleDelta, IsAngle;
    var delta := AngleDelta(t.bearingDeg, d.bearingDeg);
    BearingsHaveAngle(t.bearingDeg, d.bearingDeg);
    forall angle | IsAngle(t.bearingDeg, d.bearingDeg, angle) ensures angle == delta {
      AngleUnique(t.bearingDeg, d.bearingDeg, angle, delta);
    }
  }

  lemma ConflictingIff(objects: seq<Object>, ds: seq<CameraDetection>, i: nat)
    requires i < |objects| && Bearings(objects, ds)
    ensures Disagrees(objects, ds, i) <==>
            objects[i].FromRadar? && objects[i].camera.None? &&
            Conflicting(objects[i].track, ds, UsedBy(objects, i))
  {
    hide UsedBy, Contradicts, TakenBefore, SkewMs, AngleDelta;
    if objects[i].FromRadar? {
      assert objects[i] in objects;
      var t := objects[i].track;
      forall d | d in ds
        ensures d.id in UsedBy(objects, i) <==> TakenBefore(objects, i, d.id)
        ensures Contradicts(t, d) <==>
                SkewMs(t, d) <= MAX_CROSS_SENSOR_SKEW_MS &&
                AngleDelta(t.bearingDeg, d.bearingDeg) <= MATCH_BEARING_DEG &&
                d.estimatedDistanceM.Some? && DistanceResidual(t, d).value > MATCH_DISTANCE_M
      {
        UsedIsTaken(objects, i, d.id);
        ConflictIff(t, d);
      }
      if objects[i].camera.None? && Disagrees(objects, ds, i) {
        var d :| d in ds && !TakenBefore(objects, i, d.id) && Contradicts(t, d);
        var j :| 0 <= j < |ds| && ds[j] == d;
        assert Conflicting(t, ds, UsedBy(objects, i));
      }
    }
  }

  ghost function Disagreeing(objects: seq<Object>, ds: seq<CameraDetection>, n: nat): set<nat>
    requires n <= |objects|
  {
    set i | 0 <= i < n && Disagrees(objects, ds, i)
  }

  lemma ConflictStep(objects: seq<Object>, ds: seq<CameraDetection>, n: nat)
    requires n < |objects| && Bearings(objects, ds)
    ensures CountConflicts(objects[..n + 1], ds) ==
            CountConflicts(objects[..n], ds) + if Disagrees(objects, ds, n) then 1 else 0
  {
    hide Disagrees, Conflicting, UsedBy, Bearings;
    var front := objects[..n + 1];
    assert front[..n] == objects[..n] && front[n] == objects[n] && front + objects[n + 1..] == objects;
    ConflictingIff(objects, ds, n);
    UsedByPrefix(front, objects[n + 1..], n);
  }

  lemma {:induction false} CountIsDisagreeing(objects: seq<Object>, ds: seq<CameraDetection>, n: nat)
    requires n <= |objects| && Bearings(objects, ds)
    ensures CountConflicts(objects[..n], ds) == |Disagreeing(objects, ds, n)|
  {
    hide Disagrees, Bearings;
    if n > 0 {
      hide CountConflicts;
      CountIsDisagreeing(objects, ds, n - 1);
      ConflictStep(objects, ds, n - 1);
      var before := Disagreeing(objects, ds, n - 1);
      assert Disagreeing(objects, ds, n) == before + if Disagrees(objects, ds, n - 1) then {n - 1} else {};
    }
  }

  // ------------------------------------------------------------------- skews

  /** `ms` is how far apart in time the two sides of a match are. */
  predicate Apart(o: Object, ms: int) {
    o.FromRadar? && o.camera.Some? &&
    (o.track.timestampMs - o.camera.value.timestampMs == ms || o.camera.value.timestampMs - o.track.timestampMs == ms)
  }

  ghost predicate GreatestSkew(objects: seq<Object>, skew: Option<nat>) {
    match skew
    case None => forall i, ms: nat :: 0 <= i < |objects| ==> !Apart(objects[i], ms)
    case Some(most) =>
      (exists i :: 0 <= i < |objects| && Apart(objects[i], most)) &&
      forall i, ms: nat :: 0 <= i < |objects| && Apart(objects[i], ms) ==> ms <= most
  }

  lemma {:induction false} MaxSkewIsGreatest(objects: seq<Object>)
    ensures GreatestSkew(objects, MaxSkew(objects))
  {
    hide Apart;
    if objects != [] {
      var n := |objects| - 1;
      var front, o := objects[..n], objects[n];
      MaxSkewIsGreatest(front);
      SkewIsApart(o);
      var most := MaxSkew(objects);
      assert forall i :: 0 <= i < n ==> objects[i] == front[i];
      if most.Some? {
        if MaxSkew(front) == most {
          var i :| 0 <= i < n && Apart(front[i], most.value);
          assert Apart(objects[i], most.value);
        } else {
          assert Apart(objects[n], most.value);
        }
      }
    }
  }

  lemma SkewIsApart(o: Object)
    ensures forall ms :: Apart(o, ms) && ms >= 0 <==>
              o.FromRadar? && o.camera.Some? && ms == SkewMs(o.track, o.camera.value)
  {
  }

  // --------------------------------------------------------------- diagnostics

  /** The diagnostics: as many disagreements as unmatched tracks that a detection left over
      contradicts, and the greatest time between the two sides of a match. */
  lemma DiagnosticsCount(associated: seq<Object>, tracks: seq<RadarTrack>, ds: seq<CameraDetection>,
                         objects: seq<Object>, diagnostics: Diagnostics)
    requires FusedFrom(associated, tracks, ds, objects, diagnostics) && Bearings(associated, ds)
    ensures diagnostics.disagreementCount == |set i: nat | 0 <= i < |associated| && Disagrees(associated, ds, i)|
    ensures GreatestSkew(associated, diagnostics.maxTimestampSkewMs)
    ensures diagnostics.radarTrackCount == |tracks| && diagnostics.cameraDetectionCount == |ds|
  {
    hide CountConflicts, Disagrees, MaxSkew, GreatestSkew, Bearings, Associated;
    assert associated[..|associated|] == associated;
    CountIsDisagreeing(associated, ds, |associated|);
    assert Disagreeing(associated, ds, |associated|) ==
           set i: nat | 0 <= i < |associated| && Disagrees(associated, ds, i);
    MaxSkewIsGreatest(associated);
  }

  // --------------------------------------------------------------------- reply

  /** How far away an object is: by radar where there is a track. */
  predicate IsAway(o: Object, metres: real) {
    if o.FromRadar? then metres == o.track.distanceM else o.detection.estimatedDistanceM == Some(metres)
  }

  /** What a detection needs to be reported by itself. */
  ghost predicate Alone(associated: seq<Object>, ds: seq<CameraDetection>, d: CameraDetection) {
    d in ds && !TakenBefore(associated, |associated|, d.id) && d.estimatedDistanceM.Some? && d.confidence >= 0.72
  }

  lemma InAll(associated: seq<Object>, ds: seq<CameraDetection>, o: Object)
    ensures o in AllObjects(associated, ds) <==>
            o in associated || (o.FromCamera? && Alone(associated, ds, o.detection))
  {
    hide UsedBy, TakenBefore, CameraOnly;
    var used := UsedBy(associated, |associated|);
    CameraOnlyShape(ds, used, o);
    assert o in CameraOnly(ds, used) <==> multiset(CameraOnly(ds, used))[o] > 0;
    if o.FromCamera? {
      UsedIsTaken(associated, |associated|, o.detection.id);
      assert o.detection in ds <==> multiset(ds)[o.detection] > 0;
    }
  }

  lemma AwayIsDistance()
    ensures forall o, metres :: IsAway(o, metres) ==> metres == DistanceOf(o)
  {
  }

  lemma SortedAt(objects: seq<Object>, i: nat, j: nat)
    requires SortedBy(objects, NoFarther) && i < j < |objects|
    ensures DistanceOf(objects[i]) <= DistanceOf(objects[j])
  {
    assert NoFarther(objects[i], objects[j]);
  }

  lemma LeftOut(all: seq<Object>, objects: seq<Object>, o: Object)
    requires multiset(objects) <= multiset(all) && o in all && o !in objects
    ensures |objects| < |all| && o in multiset(all) - multiset(objects)
  {
    var rest := multiset(all) - multiset(objects);
    assert rest[o] == multiset(all)[o] - multiset(objects)[o];
    assert multiset(objects)[o] == 0 && multiset(all)[o] > 0;
    assert rest + multiset(objects) == multiset(all);
    assert |rest| + |objects| == |all|;
  }

  /** What is in the reply: tracks and such detections, all of them if they are no more
      than 64, and else none left out that is nearer than one listed, which are in order
      of distance. */
  lemma ReplyHolds(associated: seq<Object>, tracks: seq<RadarTrack>, ds: seq<CameraDetection>,
                   objects: seq<Object>, diagnostics: Diagnostics)
    requires FusedFrom(associated, tracks, ds, objects, diagnostics)
    ensures |objects| <= 64
    ensures forall o :: o in objects ==> o in associated || (o.FromCamera? && Alone(associated, ds, o.detection))
    ensures forall o :: (o in associated || (o.FromCamera? && Alone(associated, ds, o.detection))) && o !in objects ==>
              |objects| == 64 && forall p, m, n :: p in objects && IsAway(o, m) && IsAway(p, n) ==> n <= m
    ensures forall i, j, m, n :: 0 <= i < j < |objects| && IsAway(objects[i], m) && IsAway(objects[j], n) ==> m <= n
  {
    hide SortBy, DistanceOf, SortedBy, Qualifies, Associated, CountConflicts, MaxSkew, UsedBy, Alone, IsAway;
    var all := ReplyLaws(associated, tracks, ds, objects, diagnostics);
    forall o ensures o in all <==> o in associated || (o.FromCamera? && Alone(associated, ds, o.detection)) {
      InAll(associated, ds, o);
    }
    forall o | o in objects ensures o in all { assert o in multiset(objects); }
    AwayIsDistance();
    forall o | o in all && o !in objects
      ensures |objects| == 64 && forall p :: p in objects ==> DistanceOf(p) <= DistanceOf(o)
    {
      LeftOut(all, objects, o);
    }
    forall i, j | 0 <= i < j < |objects| ensures DistanceOf(objects[i]) <= DistanceOf(objects[j]) {
      SortedAt(objects, i, j);
    }
  }
}
