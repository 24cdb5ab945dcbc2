/** Radar and camera association
    (services/risk-engine/src/edge-fusion.ts:44-52, 88-213): matching, counting,
    ordering. Angles and distances are exact reals, times whole milliseconds. */
module EdgeFusion {
  import opened Collections
  import opened Sorting

  const CAMERA_MAX_AGE_MS := 350
  const RADAR_MAX_AGE_MS := 250
  const MAX_FUTURE_SKEW_MS := 50
  const MAX_CROSS_SENSOR_SKEW_MS := 120
  const MATCH_BEARING_DEG := 9.0
  const MATCH_DISTANCE_M := 8.0
  const MIN_CAMERA_ONLY_CONFIDENCE := 0.72
  const MAX_OBJECTS := 64

  datatype RadarTrack = RadarTrack(id: Key, distanceM: real, bearingDeg: real, timestampMs: int)

  datatype CameraDetection = CameraDetection(
    id: Key, estimatedDistanceM: Option<real>, bearingDeg: real, confidence: real, timestampMs: int)

  function AbsInt(x: int): nat {
    if x < 0 then -x else x
  }

  /** JavaScript's `%` by 360: the remainder keeps the sign of the dividend. */
  function Remainder360(x: real): real {
    var turns := x / 360.0;
    var whole := if turns >= 0.0 then turns.Floor else -((-turns).Floor);
    x - 360.0 * whole as real
  }

  function AngleDelta(a: real, b: real): real {
    AbsReal(Remainder360(a - b + 540.0) - 180.0)
  }

  predicate ObservationFresh(timestampMs: int, nowMs: int, maxAgeMs: int) {
    timestampMs <= nowMs + MAX_FUTURE_SKEW_MS && nowMs - timestampMs <= maxAgeMs
  }

  function SkewMs(t: RadarTrack, d: CameraDetection): nat {
    AbsInt(t.timestampMs - d.timestampMs)
  }

  function DistanceResidual(t: RadarTrack, d: CameraDetection): Option<real> {
    if d.estimatedDistanceM.None? then None else Some(AbsReal(t.distanceM - d.estimatedDistanceM.value))
  }

  /** The three gates: time, bearing, and distance where the camera estimates one. */
  predicate Gates(t: RadarTrack, d: CameraDetection) {
    SkewMs(t, d) <= MAX_CROSS_SENSOR_SKEW_MS &&
    AngleDelta(t.bearingDeg, d.bearingDeg) <= MATCH_BEARING_DEG &&
    (DistanceResidual(t, d).Some? ==> DistanceResidual(t, d).value <= MATCH_DISTANCE_M)
  }

  function Score(t: RadarTrack, d: CameraDetection): real {
    AngleDelta(t.bearingDeg, d.bearingDeg)
    + DistanceResidual(t, d).GetOr(MATCH_DISTANCE_M * 0.35) * 0.35
    + SkewMs(t, d) as real / MAX_CROSS_SENSOR_SKEW_MS as real * 2.0
  }

  predicate Eligible(t: RadarTrack, d: CameraDetection, used: set<Key>) {
    d.id !in used && Gates(t, d)
  }

  /** The first unused detection of least score that passes the gates. */
  ghost predicate IsBest(t: RadarTrack, ds: seq<CameraDetection>, used: set<Key>, best: Option<CameraDetection>) {
    match best
    case None => forall d :: d in ds ==> !Eligible(t, d, used)
    case Some(b) =>
      exists i :: 0 <= i < |ds| && ds[i] == b && Eligible(t, b, used) &&
        (forall j :: 0 <= j < |ds| && Eligible(t, ds[j], used) ==> Score(t, b) <= Score(t, ds[j])) &&
        (forall j :: 0 <= j < i && Eligible(t, ds[j], used) ==> Score(t, b) < Score(t, ds[j]))
  }

  method MatchCamera(t: RadarTrack, ds: seq<CameraDetection>, used: set<Key>) returns (best: Option<CameraDetection>)
    ensures IsBest(t, ds, used, best)
  {
    hide Gates, Score;
    best := None;
    ghost var at := 0;
    var i := 0;
    while i < |ds|
      invariant i <= |ds|
      invariant best.None? ==> forall j :: 0 <= j < i ==> !Eligible(t, ds[j], used)
      invariant best.Some? ==>
        at < i && ds[at] == best.value && Eligible(t, best.value, used) &&
        (forall j :: 0 <= j < i && Eligible(t, ds[j], used) ==> Score(t, best.value) <= Score(t, ds[j])) &&
        (forall j :: 0 <= j < at && Eligible(t, ds[j], used) ==> Score(t, best.value) < Score(t, ds[j]))
    {
      var d := ds[i];
      if d.id !in used && Gates(t, d) {
        if best.None? || Score(t, d) < Score(t, best.value) {
          best := Some(d);
          at := i;
        }
      }
      i := i + 1;
    }
  }

  /** An unused detection in time and bearing whose distance contradicts the track's. */
  predicate Conflicting(t: RadarTrack, ds: seq<CameraDetection>, used: set<Key>) {
    exists i :: 0 <= i < |ds| && ds[i].id !in used && SkewMs(t, ds[i]) <= MAX_CROSS_SENSOR_SKEW_MS &&
      AngleDelta(t.bearingDeg, ds[i].bearingDeg) <= MATCH_BEARING_DEG &&
      ds[i].estimatedDistanceM.Some? && DistanceResidual(t, ds[i]).value > MATCH_DISTANCE_M
  }

  datatype Object =
    | FromRadar(track: RadarTrack, camera: Option<CameraDetection>)
    | FromCamera(detection: CameraDetection)

  function DistanceOf(o: Object): real {
    match o
    case FromRadar(t, _) => t.distanceM
    case FromCamera(d) => d.estimatedDistanceM.GetOr(0.0)
  }

  datatype Diagnostics = Diagnostics(
    radarTrackCount: nat, cameraDetectionCount: nat, matchedCount: nat, disagreementCount: nat,
    maxTimestampSkewMs: Option<nat>, rejectedRadar: int, rejectedCamera: int)

  predicate Qualifies(d: CameraDetection, used: set<Key>) {
    d.id !in used && d.estimatedDistanceM.Some? && d.confidence >= MIN_CAMERA_ONLY_CONFIDENCE
  }

  /** Ids of the detections matched by the first `n` objects. */
  function UsedBy(objects: seq<Object>, n: nat): set<Key>
    requires n <= |objects|
  {
    if n == 0 then {}
    else
      var before := UsedBy(objects, n - 1);
      var o := objects[n - 1];
      if o.FromRadar? && o.camera.Some? then before + {o.camera.value.id} else before
  }

  function CountMatched(objects: seq<Object>): nat {
    if objects == [] then 0
    else
      var o := objects[|objects| - 1];
      CountMatched(objects[..|objects| - 1]) + (if o.FromRadar? && o.camera.Some? then 1 else 0)
  }

  function CountConflicts(objects: seq<Object>, ds: seq<CameraDetection>): nat {
    if objects == [] then 0
    else
      var n := |objects| - 1;
      var o := objects[n];
      CountConflicts(objects[..n], ds) +
      (if o.FromRadar? && o.camera.None? && Conflicting(o.track, ds, UsedBy(objects, n)) then 1 else 0)
  }

  function CameraOnly(ds: seq<CameraDetection>, used: set<Key>): seq<Object> {
    if ds == [] then []
    else
      var n := |ds| - 1;
      CameraOnly(ds[..n], used) + (if Qualifies(ds[n], used) then [FromCamera(ds[n])] else [])
  }

  /** One object a track, each matched to its best detection among those that earlier
      tracks left. */
  ghost predicate Associated(tracks: seq<RadarTrack>, ds: seq<CameraDetection>, objects: seq<Object>) {
    |objects| <= |tracks| &&
    forall i :: 0 <= i < |objects| ==>
      objects[i].FromRadar? && objects[i].track == tracks[i] &&
      IsBest(tracks[i], ds, UsedBy(objects, i), objects[i].camera)
  }

  lemma {:induction false} UsedByPrefix(objects: seq<Object>, more: seq<Object>, n: nat)
    requires n <= |objects|
    ensures UsedBy(objects + more, n) == UsedBy(objects, n)
  {
    if n > 0 {
      UsedByPrefix(objects, more, n - 1);
      assert (objects + more)[n - 1] == objects[n - 1];
    }
  }

  lemma AssociatedSnoc(tracks: seq<RadarTrack>, ds: seq<CameraDetection>, objects: seq<Object>,
      camera: Option<CameraDetection>)
    requires Associated(tracks, ds, objects) && |objects| < |tracks|
    requires IsBest(tracks[|objects|], ds, UsedBy(objects, |objects|), camera)
    ensures Associated(tracks, ds, objects + [FromRadar(tracks[|objects|], camera)])
  {
    hide IsBest, UsedBy;
    var more := [FromRadar(tracks[|objects|], camera)];
    var longer := objects + more;
    forall i | 0 <= i < |longer|
      ensures longer[i].FromRadar? && longer[i].track == tracks[i] &&
              IsBest(tracks[i], ds, UsedBy(longer, i), longer[i].camera)
    {
      UsedByPrefix(objects, more, i);
      if i < |objects| { assert longer[i] == objects[i]; }
    }
  }

  function FreshTracks(tracks: seq<RadarTrack>, nowMs: int): seq<RadarTrack> {
    Keep(tracks, (t: RadarTrack) => ObservationFresh(t.timestampMs, nowMs, RADAR_MAX_AGE_MS))
  }

  function FreshDetections(ds: seq<CameraDetection>, nowMs: int): seq<CameraDetection> {
    Keep(ds, (d: CameraDetection) => ObservationFresh(d.timestampMs, nowMs, CAMERA_MAX_AGE_MS))
  }

  datatype RadarFrame = RadarFrame(timestampMs: int, tracks: seq<RadarTrack>)
  datatype CameraFrame = CameraFrame(timestampMs: int, detections: seq<CameraDetection>)

  function RawTracks(frame: Option<RadarFrame>, nowMs: int): seq<RadarTrack> {
    if frame.Some? && ObservationFresh(frame.value.timestampMs, nowMs, RADAR_MAX_AGE_MS) then frame.value.tracks else []
  }

  function RawDetections(frame: Option<CameraFrame>, nowMs: int): seq<CameraDetection> {
    if frame.Some? && ObservationFresh(frame.value.timestampMs, nowMs, CAMERA_MAX_AGE_MS) then frame.value.detections
      else []
  }

  // -------------------------------------------------------------- ordering

  predicate NoFarther(o: Object, p: Object) {
    DistanceOf(o) <= DistanceOf(p)
  }

  lemma NoFartherIsOrder()
    ensures TotalPreorder(NoFarther)
  {
  }

  // ----------------------------------------------------------------- fusion

  function MaxSkew(objects: seq<Object>): Option<nat> {
    if objects == [] then None
    else
      var before := MaxSkew(objects[..|objects| - 1]);
      var o := objects[|objects| - 1];
      if o.FromRadar? && o.camera.Some? then
        var skew := SkewMs(o.track, o.camera.value);
        Some(if before.GetOr(0) > skew then before.GetOr(0) else skew)
      else before
  }

  method AssociateTracks(tracks: seq<RadarTrack>, ds: seq<CameraDetection>)
    returns (objects: seq<Object>, used: set<Key>, matched: nat, disagreements: nat, maxSkew: Option<nat>)
    ensures Associated(tracks, ds, objects) && |objects| == |tracks|
    ensures used == UsedBy(objects, |objects|) && matched == CountMatched(objects)
    ensures disagreements == CountConflicts(objects, ds) && maxSkew == MaxSkew(objects)
  {
    hide IsBest, Conflicting, SkewMs, Associated;
    objects, used, matched, disagreements, maxSkew := [], {}, 0, 0, None;
    NothingAssociated(tracks, ds);
    var i := 0;
    while i < |tracks|
      invariant i == |objects| <= |tracks| && Associated(tracks, ds, objects)
      invariant used == UsedBy(objects, |objects|) && matched == CountMatched(objects)
      invariant disagreements == CountConflicts(objects, ds) && maxSkew == MaxSkew(objects)
    {
      var best := MatchCamera(tracks[i], ds, used);
      AssociatedSnoc(tracks, ds, objects, best);
      ghost var more := objects + [FromRadar(tracks[i], best)];
      UsedByPrefix(objects, [FromRadar(tracks[i], best)], |objects|);
      assert more[..|objects|] == objects && more[|objects|] == FromRadar(tracks[i], best);
      if best.Some? {
        used := used + {best.value.id};
        matched := matched + 1;
        var skew := SkewMs(tracks[i], best.value);
        maxSkew := Some(if maxSkew.GetOr(0) > skew then maxSkew.GetOr(0) else skew);
      } else if |ds| > 0 && Conflicting(tracks[i], ds, used) {
        disagreements := disagreements + 1;
      } else {
        NoneConflict(tracks[i], ds, used);
      }
      objects := objects + [FromRadar(tracks[i], best)];
      i := i + 1;
    }
  }

  lemma NothingAssociated(tracks: seq<RadarTrack>, ds: seq<CameraDetection>)
    ensures Associated(tracks, ds, [])
  {
  }

  lemma NoneConflict(t: RadarTrack, ds: seq<CameraDetection>, used: set<Key>)
    ensures ds == [] ==> !Conflicting(t, ds, used)
  {
  }

  method AddCameraOnly(ds: seq<CameraDetection>, used: set<Key>) returns (objects: seq<Object>)
    ensures objects == CameraOnly(ds, used)
  {
    objects := [];
    var i := 0;
    while i < |ds|
      invariant i <= |ds| && objects == CameraOnly(ds[..i], used)
    {
      assert ds[..i + 1][..i] == ds[..i];
      if !(ds[i].id in used || ds[i].estimatedDistanceM.None? || ds[i].confidence < MIN_CAMERA_ONLY_CONFIDENCE) {
        objects := objects + [FromCamera(ds[i])];
      }
      i := i + 1;
    }
    assert ds[..i] == ds;
  }

  /** Everything a fusion step promises about its reply, given the radar objects in
      track order. */
  ghost predicate FusedFrom(associated: seq<Object>, tracks: seq<RadarTrack>, ds: seq<CameraDetection>,
                            objects: seq<Object>, diagnostics: Diagnostics)
  {
    var all := AllObjects(associated, ds);
    Associated(tracks, ds, associated) && |associated| == |tracks| &&
    objects == (if |all| > MAX_OBJECTS then SortBy(all, NoFarther)[..MAX_OBJECTS] else SortBy(all, NoFarther)) &&
    diagnostics.radarTrackCount == |tracks| && diagnostics.cameraDetectionCount == |ds| &&
    diagnostics.matchedCount == CountMatched(associated) &&
    diagnostics.disagreementCount == CountConflicts(associated, ds) &&
    diagnostics.maxTimestampSkewMs == MaxSkew(associated)
  }

  /** The objects before ordering and truncation. */
  function AllObjects(associated: seq<Object>, ds: seq<CameraDetection>): seq<Object> {
    associated + CameraOnly(ds, UsedBy(associated, |associated|))
  }

  method FuseEdgePerception(camera: Option<CameraFrame>, radar: Option<RadarFrame>, nowMs: int)
    returns (objects: seq<Object>, diagnostics: Diagnostics)
    ensures var raw, rawSeen := RawTracks(radar, nowMs), RawDetections(camera, nowMs);
            var tracks, ds := FreshTracks(raw, nowMs), FreshDetections(rawSeen, nowMs);
            (exists associated :: FusedFrom(associated, tracks, ds, objects, diagnostics)) &&
            diagnostics.rejectedRadar == |raw| - |tracks| && diagnostics.rejectedCamera == |rawSeen| - |ds|
  {
    hide Associated, CameraOnly, UsedBy, CountMatched, CountConflicts, MaxSkew;
    var raw, rawSeen := RawTracks(radar, nowMs), RawDetections(camera, nowMs);
    var tracks, ds := FreshTracks(raw, nowMs), FreshDetections(rawSeen, nowMs);
    var fromRadar, used, matched, disagreements, maxSkew := AssociateTracks(tracks, ds);
    var fromCamera := AddCameraOnly(ds, used);
    var sorted := SortBy(fromRadar + fromCamera, NoFarther);
    objects := if |sorted| > MAX_OBJECTS then sorted[..MAX_OBJECTS] else sorted;
    diagnostics := Diagnostics(|tracks|, |ds|, matched, disagreements, maxSkew, |raw| - |tracks|, |rawSeen| - |ds|);
    assert FusedFrom(fromRadar, tracks, ds, objects, diagnostics);
  }

  // -------------------------------------------------------------------- laws

  lemma {:induction false} UsedByHolds(objects: seq<Object>, i: nat, n: nat)
    requires i < n <= |objects| && objects[i].FromRadar? && objects[i].camera.Some?
    ensures objects[i].camera.value.id in UsedBy(objects, n)
    decreases n
  {
    if i < n - 1 { UsedByHolds(objects, i, n - 1); }
  }

  lemma {:induction false} UsedByMatched(objects: seq<Object>, n: nat, id: Key) returns (i: nat)
    requires n <= |objects| && id in UsedBy(objects, n)
    ensures i < n && objects[i].FromRadar? && objects[i].camera.Some? && objects[i].camera.value.id == id
    decreases n
  {
    var o := objects[n - 1];
    if o.FromRadar? && o.camera.Some? && o.camera.value.id == id {
      i := n - 1;
    } else {
      i := UsedByMatched(objects, n - 1, id);
    }
  }

  lemma BestIsEligible(t: RadarTrack, ds: seq<CameraDetection>, used: set<Key>, best: Option<CameraDetection>)
    requires IsBest(t, ds, used, best) && best.Some?
    ensures best.value in ds && Eligible(t, best.value, used)
    ensures forall d :: d in ds && Eligible(t, d, used) ==> Score(t, best.value) <= Score(t, d)
  {
    hide Gates, Score;
  }

  /** No track before `j` took detection `d`. */
  predicate LeftByEarlier(objects: seq<Object>, j: nat, d: CameraDetection)
    requires j <= |objects| && forall k :: 0 <= k < j ==> objects[k].FromRadar?
  {
    forall k :: 0 <= k < j && objects[k].camera.Some? ==> objects[k].camera.value.id != d.id
  }

  /** Matching is one-to-one and conservative: different tracks match detections with
      different ids, and every match passes all three gates and has the least score
      among the detections that earlier tracks left. */
  lemma MatchingOneToOne(tracks: seq<RadarTrack>, ds: seq<CameraDetection>, objects: seq<Object>, j: nat)
    requires Associated(tracks, ds, objects) && j < |objects| && objects[j].camera.Some?
    ensures objects[j].camera.value in ds && Gates(tracks[j], objects[j].camera.value)
    ensures LeftByEarlier(objects, j, objects[j].camera.value)
    ensures forall d :: d in ds && Gates(tracks[j], d) && LeftByEarlier(objects, j, d) ==>
                          Score(tracks[j], objects[j].camera.value) <= Score(tracks[j], d)
  {
    hide Gates, Score, IsBest;
    BestIsEligible(tracks[j], ds, UsedBy(objects, j), objects[j].camera);
    forall k | 0 <= k < j && objects[k].camera.Some?
      ensures objects[k].camera.value.id != objects[j].camera.value.id
    {
      UsedByHolds(objects, k, j);
    }
    forall d | d in ds && Gates(tracks[j], d) && LeftByEarlier(objects, j, d)
      ensures Score(tracks[j], objects[j].camera.value) <= Score(tracks[j], d)
    {
      if d.id in UsedBy(objects, j) {
        var k := UsedByMatched(objects, j, d.id);
      }
    }
  }

  /** A track left unmatched had no detection within the gates that earlier tracks left. */
  lemma UnmatchedHasNone(tracks: seq<RadarTrack>, ds: seq<CameraDetection>, objects: seq<Object>, j: nat,
      d: CameraDetection)
    requires Associated(tracks, ds, objects) && j < |objects| && objects[j].camera.None?
    requires d in ds && Gates(tracks[j], d)
    ensures exists k :: 0 <= k < j && objects[k].camera.Some? && objects[k].camera.value.id == d.id
  {
    hide Gates, Score;
    assert d.id in UsedBy(objects, j);
    var k := UsedByMatched(objects, j, d.id);
  }

  /** Each qualifying detection is there as often as it was seen, and nothing else is. */
  lemma {:induction false} CameraOnlyShape(ds: seq<CameraDetection>, used: set<Key>, o: Object)
    ensures multiset(CameraOnly(ds, used))[o] ==
            if o.FromCamera? && Qualifies(o.detection, used) then multiset(ds)[o.detection] else 0
  {
    hide Qualifies;
    if ds != [] {
      var n := |ds| - 1;
      CameraOnlyShape(ds[..n], used, o);
      assert ds == ds[..n] + [ds[n]];
    }
  }

  lemma {:induction false} MatchedIsCount(objects: seq<Object>)
    ensures CountMatched(objects) == |set i | 0 <= i < |objects| && objects[i].FromRadar? && objects[i].camera.Some?|
  {
    var all := set i | 0 <= i < |objects| && objects[i].FromRadar? && objects[i].camera.Some?;
    if objects == [] {
      assert all == {};
    } else {
      var n := |objects| - 1;
      var front := objects[..n];
      MatchedIsCount(front);
      var before := set i | 0 <= i < |front| && front[i].FromRadar? && front[i].camera.Some?;
      var o := objects[n];
      assert all == before + (if o.FromRadar? && o.camera.Some? then {n} else {}) by {
        forall i | i in all ensures i in before || i == n { if i < n { assert front[i] == objects[i]; } }
        forall i | i in before ensures i in all { assert front[i] == objects[i]; }
      }
    }
  }

  /** The reply: before truncation every track is there once, in order, and then exactly
      the detections no track matched that qualify; the count of matches is the number of
      radar-camera objects; what is returned is sorted, at most 64, and nothing left
      out is nearer than anything returned. */
  lemma ReplyLaws(associated: seq<Object>, tracks: seq<RadarTrack>, ds: seq<CameraDetection>,
                  objects: seq<Object>, diagnostics: Diagnostics) returns (all: seq<Object>)
    requires FusedFrom(associated, tracks, ds, objects, diagnostics)
    ensures all == AllObjects(associated, ds) && |tracks| <= |all|
    ensures diagnostics.matchedCount == |set i | 0 <= i < |all| && all[i].FromRadar? && all[i].camera.Some?|
    ensures all[..|tracks|] == associated
    ensures forall o :: multiset(all[|tracks|..])[o] ==
                        if o.FromCamera? && Qualifies(o.detection, UsedBy(associated, |associated|))
                        then multiset(ds)[o.detection] else 0
    ensures |objects| == (if |all| > MAX_OBJECTS then MAX_OBJECTS else |all|)
    ensures SortedBy(objects, NoFarther) && multiset(objects) <= multiset(all)
    ensures forall o, p :: o in objects && p in multiset(all) - multiset(objects) ==> DistanceOf(o) <= DistanceOf(p)
  {
    hide SortBy, DistanceOf, SortedBy, Qualifies, Associated, CountConflicts, MaxSkew, UsedBy;
    all := AllObjects(associated, ds);
    var rest := CameraOnly(ds, UsedBy(associated, |associated|));
    forall o: Object
      ensures multiset(rest)[o] == if o.FromCamera? && Qualifies(o.detection, UsedBy(associated, |associated|))
                                   then multiset(ds)[o.detection] else 0
    {
      CameraOnlyShape(ds, UsedBy(associated, |associated|), o);
    }
    assert all[|tracks|..] == rest;
    MatchedIsCount(associated);
    assert (set i | 0 <= i < |all| && all[i].FromRadar? && all[i].camera.Some?) ==
           (set i | 0 <= i < |associated| && associated[i].FromRadar? && associated[i].camera.Some?) by {
      forall i | |associated| <= i < |all| ensures !all[i].FromRadar? {
        assert all[i] in multiset(rest);
      }
    }
    NearestKept(all, objects);
  }

  lemma FrontAndBack(sorted: seq<Object>, n: nat)
    requires n <= |sorted| && SortedBy(sorted, NoFarther)
    ensures SortedBy(sorted[..n], NoFarther)
    ensures forall o, p :: o in sorted[..n] && p in sorted[n..] ==> DistanceOf(o) <= DistanceOf(p)
  {
    hide DistanceOf;
    forall o, p | o in sorted[..n] && p in sorted[n..] ensures DistanceOf(o) <= DistanceOf(p) {
      var i :| 0 <= i < n && sorted[i] == o;
      var j :| n <= j < |sorted| && sorted[j] == p;
      assert NoFarther(sorted[i], sorted[j]);
    }
  }

  lemma DroppedIsDifference(sorted: seq<Object>, n: nat)
    requires n <= |sorted|
    ensures multiset(sorted[..n]) <= multiset(sorted)
    ensures multiset(sorted) - multiset(sorted[..n]) == multiset(sorted[n..])
  {
    assert sorted == sorted[..n] + sorted[n..];
  }

  lemma NearestKept(all: seq<Object>, objects: seq<Object>)
    requires objects == (if |all| > MAX_OBJECTS then SortBy(all, NoFarther)[..MAX_OBJECTS] else SortBy(all, NoFarther))
    ensures |objects| == (if |all| > MAX_OBJECTS then MAX_OBJECTS else |all|)
    ensures SortedBy(objects, NoFarther) && multiset(objects) <= multiset(all)
    ensures forall o, p :: o in objects && p in multiset(all) - multiset(objects) ==> DistanceOf(o) <= DistanceOf(p)
  {
    hide SortBy, DistanceOf, SortedBy;
    NoFartherIsOrder();
    SortKeeps(all, NoFarther);
    SortSorts(all, NoFarther);
    var sorted := SortBy(all, NoFarther);
    assert objects == sorted[..|objects|];
    FrontAndBack(sorted, |objects|);
    DroppedIsDifference(sorted, |objects|);
    forall p | p in multiset(all) - multiset(objects) ensures p in sorted[|objects|..] {
      assert p in multiset(sorted[|objects|..]);
    }
  }
}
