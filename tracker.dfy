/** The per-frame tracker of the main loop (main.py:363-383, 418, 443-690) and the
    operator's rescue key (main.py:745-778). The loop's local dictionaries, sets and
    counters are the fields of one `Tracker`; Python's insertion-ordered dictionaries
    are a map plus the order of their keys. Times are milliseconds. */
module Tracking {
  import opened Common
  import opened Zones
  import opened Tiers
  import opened Identity
  import opened Bookkeeping
  import opened Missing
  import opened Rescuing

  /** `deque(maxlen=cap).append(x)`: the newest `cap` entries survive. */
  function BoundedAppend<T>(buf: seq<T>, x: T, cap: nat): (r: seq<T>)
    ensures |r| == if |buf| + 1 <= cap then |buf| + 1 else cap
    ensures r == (buf + [x])[|buf| + 1 - |r|..]
    ensures cap > 0 ==> r[|r| - 1] == x
  {
    var all := buf + [x];
    if |all| <= cap then all else all[|all| - cap..]
  }

  /** What one frame does to the books: the box loop from an empty scan, then the
      missing-person pass over the resulting states, skipping the sighted tracks. */
  datatype FrameResult = FrameResult(scan: Scan, books: Books, alerts: seq<AlertRequest>)

  function Frame(b: Books, zones: ZoneConfig, dets: seq<Detection>, ts: int, maxTotal: nat, missingAlertMs: int, windowMs: int)
    : (r: FrameResult)
    requires b.Valid()
    ensures r.books.Valid()
  {
    var s := Scanned(Scan(b, {}, {}, {}), zones, dets, ts, maxTotal, windowMs);
    var (after, alerts) := Swept(s.books, zones, s.books.personState.keys, s.seen, ts, missingAlertMs, windowMs);
    FrameResult(s, after, alerts)
  }

  /** Across a frame display ids only grow: existing bindings are never changed or
      dropped, new bindings go to former candidates or to freshly minted ids, minted
      ids are distinct, and the exited ids are never cleared. */
  lemma FrameGrowsIds(b: Books, zones: ZoneConfig, dets: seq<Detection>, ts: int, maxTotal: nat, missingAlertMs: int, windowMs: int)
    requires b.Valid()
    ensures var r := Frame(b, zones, dets, ts, maxTotal, missingAlertMs, windowMs).books;
      && IdsGrow(b.trackToDisplay, b.nextDisplayId, b.submerged.items.Keys, r.trackToDisplay, r.nextDisplayId)
      && b.exitedToSafeIds <= r.exitedToSafeIds
  {
    ScannedGrows(Scan(b, {}, {}, {}), zones, dets, ts, maxTotal, windowMs);
  }

  /** Every state a frame leaves for a track it did not sight existed before the frame
      and went through exactly one evaluation of the missing-person pass. No state is
      dropped by a frame. */
  lemma FrameEvaluatesUnseen(b: Books, zones: ZoneConfig, dets: seq<Detection>, ts: int, maxTotal: nat, missingAlertMs: int, windowMs: int)
    requires b.Valid()
    ensures var out := Frame(b, zones, dets, ts, maxTotal, missingAlertMs, windowMs);
      && (forall t :: t in b.personState.items ==> t in out.books.personState.items)
      && forall t :: t in out.books.personState.items && t !in out.scan.seen ==>
           && t in b.personState.items
           && EvaluatedFrom(zones, out.books.exitedToSafeIds, b.personState.items[t], out.books.personState.items[t], ts, missingAlertMs)
  {
    var s := Scanned(Scan(b, {}, {}, {}), zones, dets, ts, maxTotal, windowMs);
    ScannedSightedOnly(Scan(b, {}, {}, {}), zones, dets, ts, maxTotal, windowMs);
    SweptEvaluates(s.books, zones, s.books.personState.keys, s.seen, ts, missingAlertMs, windowMs);
  }

  /** The evaluation step of the tiers: the level moves from k to k + 1 only when the
      missing time meets tier k + 1's threshold, never by more, never above 5. */
  lemma EvaluatedLevelStep(zones: ZoneConfig, exited: set<nat>, before: PersonState, after: PersonState, ts: int, missingAlertMs: int)
    requires EvaluatedFrom(zones, exited, before, after, ts, missingAlertMs)
    ensures after.alertLevel == before.alertLevel
         || (after.alertLevel == before.alertLevel + 1 <= MaxLevel && ts - before.lastSeen >= Threshold(after.alertLevel))
  {
    var logs: bool :| after == Evaluated(before, AtRisk(zones, exited, before), logs, ts, missingAlertMs);
  }

  class Tracker<F> {
    /** `MISSING_ALERT_SEC`: unseen this long, a pool person is counted missing. */
    const missingAlertMs: int
    /** `REIDENTIFY_TIME_SEC`: how long a candidate stays matchable. */
    const reidentifyWindowMs: int
    /** `REIDENTIFY_DISTANCE_PX`: configured, but never consulted by the matching. */
    const reidentifyDistancePx: int
    /** `VIDEO_BUFFER_LEN`: the capacity of the pre-event frame deque. */
    const bufferCap: nat

    /** The pre-event deque of (timestamp, frame) pairs. */
    var videoBuffer: seq<(int, F)>
    var trackToDisplay: map<int, nat>
    var nextDisplayId: nat
    var personState: Dict<int, PersonState>
    var maxTotalCount: nat
    var maxPoolCount: nat
    var activePoolIds: set<nat>
    var activeSafeIds: set<nat>
    var idsEnteredFromSafe: set<nat>
    var submerged: Dict<nat, Candidate>
    var missingInPoolCount: nat
    var exitedToSafeIds: set<nat>

    /** The fields the frame loop and the rescue key work on, as one value. */
    function Snapshot(): Books
      reads this
    {
      Books(trackToDisplay, nextDisplayId, personState, submerged, missingInPoolCount, idsEnteredFromSafe, exitedToSafeIds)
    }

    ghost predicate Valid()
      reads this
    {
      Snapshot().Valid() && |videoBuffer| <= bufferCap
    }

    /** The state before the first frame (main.py:363-383). */
    constructor (missingAlertMs: int, reidentifyWindowMs: int, reidentifyDistancePx: int, bufferCap: nat)
      ensures Valid()
      ensures this.missingAlertMs == missingAlertMs && this.reidentifyWindowMs == reidentifyWindowMs
      ensures this.reidentifyDistancePx == reidentifyDistancePx && this.bufferCap == bufferCap
      ensures videoBuffer == [] && trackToDisplay == map[] && nextDisplayId == 1
      ensures personState == Dict(map[], []) && submerged == Dict(map[], [])
      ensures maxTotalCount == 0 && maxPoolCount == 0 && missingInPoolCount == 0
      ensures activePoolIds == {} && activeSafeIds == {} && idsEnteredFromSafe == {} && exitedToSafeIds == {}
    {
      this.missingAlertMs := missingAlertMs;
      this.reidentifyWindowMs := reidentifyWindowMs;
      this.reidentifyDistancePx := reidentifyDistancePx;
      this.bufferCap := bufferCap;
      videoBuffer := [];
      trackToDisplay := map[];
      nextDisplayId := 1;
      personState := Dict(map[], []);
      maxTotalCount := 0;
      maxPoolCount := 0;
      activePoolIds := {};
      activeSafeIds := {};
      idsEnteredFromSafe := {};
      submerged := Dict(map[], []);
      missingInPoolCount := 0;
      exitedToSafeIds := {};
    }

    /** Write the books back into the fields. */
    method Load(b: Books)
      modifies this
      ensures Snapshot() == b
      ensures videoBuffer == old(videoBuffer) && maxTotalCount == old(maxTotalCount) && maxPoolCount == old(maxPoolCount)
      ensures activePoolIds == old(activePoolIds) && activeSafeIds == old(activeSafeIds)
    {
      trackToDisplay, nextDisplayId, personState, submerged := b.trackToDisplay, b.nextDisplayId, b.personState, b.submerged;
      missingInPoolCount, idsEnteredFromSafe, exitedToSafeIds := b.missingInPoolCount, b.idsEnteredFromSafe, b.exitedToSafeIds;
    }

    /** One frame (main.py:418, 443-690): buffer the frame, run the box loop, publish
        this frame's pool and safe ids, raise the occupancy maxima, then run the
        missing-person pass; the alerts it requests are returned in order. Display
        ids only grow across the frame and exited ids are never cleared. */
    method ProcessFrame(zones: ZoneConfig, dets: seq<Detection>, ts: int, frame: F) returns (alerts: seq<AlertRequest>)
      requires Valid()
      modifies this
      ensures Valid()
      ensures videoBuffer == BoundedAppend(old(videoBuffer), (ts, frame), bufferCap)
      ensures var out := Frame(old(Snapshot()), zones, dets, ts, old(maxTotalCount), missingAlertMs, reidentifyWindowMs);
        && Snapshot() == out.books && alerts == out.alerts
        && activePoolIds == out.scan.pool && activeSafeIds == out.scan.safe
      ensures maxTotalCount == Max(old(maxTotalCount), |activePoolIds| + |activeSafeIds|)
      ensures maxPoolCount == Max(old(maxPoolCount), |activePoolIds|)
      ensures IdsGrow(old(trackToDisplay), old(nextDisplayId), old(submerged.items.Keys), trackToDisplay, nextDisplayId)
      ensures old(exitedToSafeIds) <= exitedToSafeIds
    {
      ghost var before := Snapshot();
      FrameGrowsIds(before, zones, dets, ts, maxTotalCount, missingAlertMs, reidentifyWindowMs);
      videoBuffer := BoundedAppend(videoBuffer, (ts, frame), bufferCap);
      var scan := DetectionPass(Scan(Snapshot(), {}, {}, {}), zones, dets, ts, maxTotalCount, reidentifyWindowMs);
      activePoolIds, activeSafeIds := scan.pool, scan.safe;
      maxTotalCount := Max(maxTotalCount, |activePoolIds| + |activeSafeIds|);
      maxPoolCount := Max(maxPoolCount, |activePoolIds|);
      var b, fired := MissingPass(scan.books, zones, scan.seen, ts, missingAlertMs, reidentifyWindowMs);
      Load(b);
      alerts := fired;
    }

    /** The rescue key (main.py:745-778): clear everyone needing rescue and return
        their display ids in state order. The buffer, the occupancy figures and this
        frame's ids are untouched. */
    method Rescue() returns (ids: seq<nat>)
      requires Valid()
      modifies this
      ensures Valid()
      ensures (Snapshot(), ids) == Rescued(old(Snapshot()))
      ensures videoBuffer == old(videoBuffer) && maxTotalCount == old(maxTotalCount) && maxPoolCount == old(maxPoolCount)
      ensures activePoolIds == old(activePoolIds) && activeSafeIds == old(activeSafeIds)
    {
      var c := CollectRescues(personState, submerged, missingInPoolCount);
      var states := DeleteTracks(personState, c.tracks);
      Load(Snapshot().(personState := states, submerged := c.cands, missingInPoolCount := c.missing));
      ids := c.ids;
    }
  }
}
