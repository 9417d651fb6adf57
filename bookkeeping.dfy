/** The identity books of the frame loop (main.py:363-383) and the handling of one
    detector box (main.py:451-599): zone resolution, identity assignment and the
    booking of the sighting in its zone. The books are a value here; the `Tracker`
    class keeps them in its fields. Times are milliseconds. */
module Bookkeeping {
  import opened Common
  import opened Zones
  import opened Tiers
  import opened Identity

  /** A detector box as the core uses it: the tracker id, when the detector gave one,
      and the integer box centre. */
  datatype Detection = Detection(trackId: Option<int>, center: Point)

  /** How one detection's track id was resolved to a display id. */
  datatype Assignment =
    | NoTrack
    | Known(displayId: nat)
    | Reidentified(displayId: nat)
    | Minted(displayId: nat)
    | Skipped

  /** `track_id_to_display`, `next_display_id`, `person_state`, `submerged_persons`,
      `missing_in_pool_count`, `ids_entered_from_safe` and `exited_to_safe_ids`. */
  datatype Books = Books(
    trackToDisplay: map<int, nat>,
    nextDisplayId: nat,
    personState: Dict<int, PersonState>,
    submerged: Dict<nat, Candidate>,
    missingInPoolCount: nat,
    idsEnteredFromSafe: set<nat>,
    exitedToSafeIds: set<nat>)
  {
    /** Both dictionaries are well formed; every display id in use is below the next
        one to mint; every person state belongs to a mapped track and carries that
        track's display id; a candidate is filed under its own display id; levels stay
        within the ladder. */
    ghost predicate Valid()
    {
      && nextDisplayId >= 1
      && personState.Wf() && submerged.Wf()
      && (forall t :: t in trackToDisplay ==> 1 <= trackToDisplay[t] < nextDisplayId)
      && (forall t :: t in personState.items ==>
            && t in trackToDisplay
            && personState.items[t].displayId == trackToDisplay[t]
            && personState.items[t].alertLevel <= MaxLevel)
      && (forall d :: d in submerged.items ==>
            && 1 <= d < nextDisplayId
            && submerged.items[d].state.displayId == d
            && submerged.items[d].state.alertLevel <= MaxLevel)
    }

    /** Re-identification of a new track as candidate `d` (main.py:501-513): the track
        takes the display id and the saved state, seen here and now and no longer
        counted missing; the candidate is consumed and the missing count drops by one,
        never below 0. */
    function Restore(tid: int, d: nat, pos: Point, ts: int): (r: Books)
      requires Valid() && tid !in trackToDisplay && d in submerged.items
      ensures r.Valid()
      ensures r.trackToDisplay == trackToDisplay[tid := d] && r.nextDisplayId == nextDisplayId
      ensures r.submerged.items == submerged.items - {d}
      ensures r.missingInPoolCount == Max(0, missingInPoolCount - 1)
      ensures tid in r.personState.items
      ensures var st := r.personState.items[tid];
        st.lastSeen == ts && st.lastPosition == pos && !st.countedAsMissing
    {
      var restored := submerged.items[d].state.(lastSeen := ts, lastPosition := pos, countedAsMissing := false);
      this.(trackToDisplay := trackToDisplay[tid := d],
            personState := personState.Put(tid, restored),
            submerged := submerged.Remove({d}),
            missingInPoolCount := if missingInPoolCount > 0 then missingInPoolCount - 1 else 0)
    }

    /** A new track gets the next display id, and the counter moves on by one
        (main.py:522-541); a track first seen in the safe zone is remembered as having
        entered from it. */
    function Mint(tid: int, zone: Zone): (r: Books)
      requires Valid() && tid !in trackToDisplay
      ensures r.Valid()
      ensures r.trackToDisplay == trackToDisplay[tid := nextDisplayId] && r.nextDisplayId == nextDisplayId + 1
    {
      this.(trackToDisplay := trackToDisplay[tid := nextDisplayId],
            nextDisplayId := nextDisplayId + 1,
            idsEnteredFromSafe := if zone == Safe then idsEnteredFromSafe + {nextDisplayId} else idsEnteredFromSafe)
    }

    /** A safe-zone sighting of display id `d` (main.py:547-562): the id is marked as
        exited to safety, and a candidate filed under it is consumed, lowering the
        missing count by one, floored at 0, whether or not that person was counted.
        Person states and id bindings are not touched. */
    function BookSafe(d: nat): (r: Books)
      requires Valid()
      ensures r.Valid()
      ensures d in r.exitedToSafeIds && d !in r.submerged.items
      ensures r.submerged.items == submerged.items - {d}
      ensures r.missingInPoolCount == if d in submerged.items then Max(0, missingInPoolCount - 1) else missingInPoolCount
      ensures r.personState == personState && r.trackToDisplay == trackToDisplay && r.nextDisplayId == nextDisplayId
    {
      if d in submerged.items then
        this.(exitedToSafeIds := exitedToSafeIds + {d},
              submerged := submerged.Remove({d}),
              missingInPoolCount := if missingInPoolCount > 0 then missingInPoolCount - 1 else 0)
      else
        this.(exitedToSafeIds := exitedToSafeIds + {d})
    }

    /** A pool sighting of track `tid` (main.py:576-599): the person's state is created
        when absent, then marked seen here and now with every alert field reset. The
        missing mark is left as it was. */
    function BookPool(tid: int, pos: Point, ts: int): (r: Books)
      requires Valid() && tid in trackToDisplay
      ensures r.Valid()
      ensures tid in r.personState.items
      ensures JustSeen(r.personState.items[tid], ts) && r.personState.items[tid].lastPosition == pos
    {
      var st := if tid in personState.items then personState.items[tid] else FreshState(trackToDisplay[tid], ts, pos);
      this.(personState := personState.Put(tid, Sighted(st, ts, pos)))
    }
  }

  /** The occupancy cap: a track first seen in the pool with no candidate to match
      gets a new id only before any occupancy was recorded, while fewer people are
      visible this frame than the recorded maximum, or while the next id is still
      within that maximum. */
  predicate MayMint(maxTotal: nat, currentTotal: nat, nextId: nat)
  {
    maxTotal == 0 || currentTotal < maxTotal || nextId <= maxTotal
  }

  /** What a pool sighting leaves in a person's state. */
  ghost predicate JustSeen(st: PersonState, ts: int)
  {
    && st.lastSeen == ts && st.alertLevel == 0 && !st.missingAlerted
    && st.lastRepeatAlert == 0 && !st.acknowledged && !st.submergedLogged
  }

  /** The state update of a pool sighting. */
  function Sighted(st: PersonState, ts: int, pos: Point): (r: PersonState)
    ensures JustSeen(r, ts) && r.lastPosition == pos
    ensures r.displayId == st.displayId && r.countedAsMissing == st.countedAsMissing
  {
    st.(lastSeen := ts, lastPosition := pos, missingAlerted := false, alertLevel := 0,
        lastRepeatAlert := 0, acknowledged := false, submergedLogged := false)
  }

  /** Identity assignment for track `tid` seen in `zone` (main.py:479-543). A mapped
      track keeps its id. A new track in the pool is bound to the scan's candidate, if
      any; without one it gets the next id only under the occupancy cap and is skipped
      otherwise. A new track in the safe zone or outside always gets the next id. */
  function Assign(b: Books, zone: Zone, tid: int, pos: Point, ts: int, currentTotal: nat, maxTotal: nat, windowMs: int)
    : (r: (Books, Assignment))
    requires b.Valid()
    ensures r.0.Valid()
    ensures !r.1.NoTrack?
    ensures !r.1.Skipped? ==> tid in r.0.trackToDisplay && r.0.trackToDisplay[tid] == r.1.displayId
  {
    if tid in b.trackToDisplay then (b, Known(b.trackToDisplay[tid]))
    else if zone == Pool then
      var best := BestOf(b.submerged.keys, b.submerged.items, pos, ts, windowMs);
      if best.Some? then (b.Restore(tid, best.value, pos, ts), Reidentified(best.value))
      else if MayMint(maxTotal, currentTotal, b.nextDisplayId) then (b.Mint(tid, zone), Minted(b.nextDisplayId))
      else (b, Skipped)
    else (b.Mint(tid, zone), Minted(b.nextDisplayId))
  }

  /** The booking of a resolved track in its zone (main.py:545-599): a safe-zone
      sighting, a pool sighting, or nothing at all outside. */
  function Book(b: Books, zone: Zone, tid: int, pos: Point, ts: int): (r: Books)
    requires b.Valid() && tid in b.trackToDisplay
    ensures r.Valid()
  {
    match zone
    case Safe => b.BookSafe(b.trackToDisplay[tid])
    case Pool => b.BookPool(tid, pos, ts)
    case Outside => b
  }

  /** The state of the box loop: the books, and this frame's display ids in the pool
      and in the safe zone and its sighted track ids. */
  datatype Scan = Scan(books: Books, pool: set<nat>, safe: set<nat>, seen: set<int>)

  /** One box: a box without a track id, or skipped by the occupancy cap, changes
      nothing; otherwise its track is resolved, sighted, and booked in its zone. */
  function Step(s: Scan, zones: ZoneConfig, det: Detection, ts: int, maxTotal: nat, windowMs: int): (r: Scan)
    requires s.books.Valid()
    ensures r.books.Valid()
  {
    if det.trackId.None? then s
    else
      var tid, zone := det.trackId.value, Classify(zones, det.center);
      var (b, outcome) := Assign(s.books, zone, tid, det.center, ts, |s.pool| + |s.safe|, maxTotal, windowMs);
      if outcome.Skipped? then s
      else
        var d := outcome.displayId;
        Scan(Book(b, zone, tid, det.center, ts),
             if zone == Pool then s.pool + {d} else s.pool,
             if zone == Safe then s.safe + {d} else s.safe,
             s.seen + {tid})
  }

  /** The box loop over `dets` in order. */
  function Scanned(s: Scan, zones: ZoneConfig, dets: seq<Detection>, ts: int, maxTotal: nat, windowMs: int): (r: Scan)
    requires s.books.Valid()
    ensures r.books.Valid()
  {
    if dets == [] then s
    else Step(Scanned(s, zones, dets[..|dets| - 1], ts, maxTotal, windowMs), zones, dets[|dets| - 1], ts, maxTotal, windowMs)
  }

  /** Identity assignment (main.py:479-543). A mapped track keeps its id and nothing
      changes. A new track outside the pool zone is minted the next id. A new track in
      the pool is re-identified exactly when some candidate is eligible, and then as
      the nearest eligible candidate, the first of equally near ones, at any distance;
      otherwise it is minted the next id under the occupancy cap and skipped, with
      nothing changed, beyond it. */
  lemma AssignSpec(b: Books, zone: Zone, tid: int, pos: Point, ts: int, currentTotal: nat, maxTotal: nat, windowMs: int)
    requires b.Valid()
    ensures var (b', outcome) := Assign(b, zone, tid, pos, ts, currentTotal, maxTotal, windowMs);
      && (outcome.Known? <==> tid in b.trackToDisplay)
      && (outcome.Known? ==> b' == b && outcome.displayId == b.trackToDisplay[tid])
      && (tid !in b.trackToDisplay && zone != Pool ==> outcome == Minted(b.nextDisplayId))
      && (tid !in b.trackToDisplay && zone == Pool ==>
            (outcome.Reidentified? <==>
              exists j :: 0 <= j < |b.submerged.keys| && Eligible(b.submerged.items[b.submerged.keys[j]], ts, windowMs)))
      && (outcome.Reidentified? ==>
            IsBestCandidate(b.submerged.keys, b.submerged.items, pos, ts, windowMs, outcome.displayId))
      && (tid !in b.trackToDisplay && zone == Pool && !outcome.Reidentified? ==>
            (outcome.Minted? <==> MayMint(maxTotal, currentTotal, b.nextDisplayId)))
      && (outcome.Skipped? ==> b' == b)
  {
    if tid !in b.trackToDisplay && zone == Pool {
      BestOfNone(b.submerged.keys, b.submerged.items, pos, ts, windowMs);
      BestOfIsBest(b.submerged.keys, b.submerged.items, pos, ts, windowMs);
    }
  }

  /** Display ids only grow: no binding of `m0` is changed or dropped, the counter
      never goes back, every new binding is to a former candidate's id or to an id
      minted since `n0`, and no two tracks share an id minted since `n0`. */
  ghost predicate IdsGrow(m0: map<int, nat>, n0: nat, cands0: set<nat>, m1: map<int, nat>, n1: nat)
  {
    && n0 <= n1
    && (forall t :: t in m0 ==> t in m1 && m1[t] == m0[t])
    && (forall t :: t in m1 && t !in m0 ==> m1[t] in cands0 || n0 <= m1[t] < n1)
    && (forall t1, t2 :: t1 in m1 && t2 in m1 && t1 != t2 && n0 <= m1[t1] ==> m1[t1] != m1[t2])
  }

  /** Two growth steps make one, as long as the candidates of the middle state are
      former candidates and every id in use lies below the counter. */
  lemma IdsGrowTrans(m0: map<int, nat>, n0: nat, c0: set<nat>, m1: map<int, nat>, n1: nat, c1: set<nat>,
                     m2: map<int, nat>, n2: nat)
    requires IdsGrow(m0, n0, c0, m1, n1) && IdsGrow(m1, n1, c1, m2, n2)
    requires c1 <= c0 && (forall d :: d in c0 ==> d < n0) && (forall t :: t in m1 ==> m1[t] < n1)
    ensures IdsGrow(m0, n0, c0, m2, n2)
  {
    forall t1, t2 | t1 in m2 && t2 in m2 && t1 != t2 && n0 <= m2[t1]
      ensures m2[t1] != m2[t2]
    {
      if t1 in m1 {
        if t2 !in m1 {
          assert m2[t2] in c1 || n1 <= m2[t2];
        }
      }
    }
  }

  /** The books' growth facts across one box. */
  ghost predicate Grows(b0: Books, b1: Books)
  {
    && IdsGrow(b0.trackToDisplay, b0.nextDisplayId, b0.submerged.items.Keys, b1.trackToDisplay, b1.nextDisplayId)
    && b1.submerged.items.Keys <= b0.submerged.items.Keys
    && b0.exitedToSafeIds <= b1.exitedToSafeIds
  }

  /** Identity assignment adds at most the box's own binding, to a consumed
      candidate or to the next id, and only consumes candidates. */
  lemma AssignGrows(b: Books, zone: Zone, tid: int, pos: Point, ts: int, currentTotal: nat, maxTotal: nat, windowMs: int)
    requires b.Valid()
    ensures var r := Assign(b, zone, tid, pos, ts, currentTotal, maxTotal, windowMs).0;
      Grows(b, r) && r.exitedToSafeIds == b.exitedToSafeIds
  {
    var (r, outcome) := Assign(b, zone, tid, pos, ts, currentTotal, maxTotal, windowMs);
    if outcome.Minted? {
      assert r.trackToDisplay == b.trackToDisplay[tid := b.nextDisplayId];
      assert r.nextDisplayId == b.nextDisplayId + 1;
    } else if outcome.Reidentified? {
      assert r.trackToDisplay == b.trackToDisplay[tid := outcome.displayId];
      assert outcome.displayId in b.submerged.items;
    }
  }

  /** Booking a sighting leaves the ids alone, only consumes candidates and only adds
      exited ids. */
  lemma BookGrows(b: Books, zone: Zone, tid: int, pos: Point, ts: int)
    requires b.Valid() && tid in b.trackToDisplay
    ensures var r := Book(b, zone, tid, pos, ts);
      && r.trackToDisplay == b.trackToDisplay && r.nextDisplayId == b.nextDisplayId
      && r.submerged.items.Keys <= b.submerged.items.Keys
      && b.exitedToSafeIds <= r.exitedToSafeIds
  {
  }

  /** One box only ever adds the box's own binding, to a consumed candidate or to the
      next id; candidates are only consumed and the exited ids only grow. */
  lemma StepGrows(s: Scan, zones: ZoneConfig, det: Detection, ts: int, maxTotal: nat, windowMs: int)
    requires s.books.Valid()
    ensures Grows(s.books, Step(s, zones, det, ts, maxTotal, windowMs).books)
  {
    GrowsRefl(s.books);
    if det.trackId.Some? {
      var tid, zone := det.trackId.value, Classify(zones, det.center);
      var (b, outcome) := Assign(s.books, zone, tid, det.center, ts, |s.pool| + |s.safe|, maxTotal, windowMs);
      StepResolved(s, zones, det, ts, maxTotal, windowMs);
      if !outcome.Skipped? {
        AssignGrows(s.books, zone, tid, det.center, ts, |s.pool| + |s.safe|, maxTotal, windowMs);
        BookGrows(b, zone, tid, det.center, ts);
        GrowsBooked(s.books, b, Book(b, zone, tid, det.center, ts));
      }
    }
  }

  /** Consistent books trivially grow into themselves. */
  lemma GrowsRefl(b: Books)
    requires b.Valid()
    ensures Grows(b, b)
  {
  }

  /** Growth followed by a booking, which keeps the ids, is still growth. */
  lemma GrowsBooked(b0: Books, b1: Books, b2: Books)
    requires Grows(b0, b1)
    requires b2.trackToDisplay == b1.trackToDisplay && b2.nextDisplayId == b1.nextDisplayId
    requires b2.submerged.items.Keys <= b1.submerged.items.Keys && b1.exitedToSafeIds <= b2.exitedToSafeIds
    ensures Grows(b0, b2)
  {
  }

  /** Across the whole box loop display ids only grow, candidates are only consumed and
      the exited ids only grow. */
  lemma {:induction false} ScannedGrows(s: Scan, zones: ZoneConfig, dets: seq<Detection>, ts: int, maxTotal: nat, windowMs: int)
    requires s.books.Valid()
    ensures Grows(s.books, Scanned(s, zones, dets, ts, maxTotal, windowMs).books)
  {
    if dets != [] {
      var init := dets[..|dets| - 1];
      var mid := Scanned(s, zones, init, ts, maxTotal, windowMs);
      var last := Step(mid, zones, dets[|dets| - 1], ts, maxTotal, windowMs);
      ScannedGrows(s, zones, init, ts, maxTotal, windowMs);
      StepGrows(mid, zones, dets[|dets| - 1], ts, maxTotal, windowMs);
      var b0, b1, b2 := s.books, mid.books, last.books;
      IdsGrowTrans(b0.trackToDisplay, b0.nextDisplayId, b0.submerged.items.Keys,
                   b1.trackToDisplay, b1.nextDisplayId, b1.submerged.items.Keys,
                   b2.trackToDisplay, b2.nextDisplayId);
    }
  }

  /** Sightings touch only the states of sighted tracks: no state is dropped, and a
      state of a track not sighted is one that existed before and is unchanged. */
  ghost predicate SightedOnly(p0: map<int, PersonState>, p1: map<int, PersonState>, seen: set<int>)
  {
    && (forall t :: t in p0 ==> t in p1)
    && (forall t :: t in p1 && t !in seen ==> t in p0 && p1[t] == p0[t])
  }

  lemma AssignSightedOnly(b: Books, zone: Zone, tid: int, pos: Point, ts: int, currentTotal: nat, maxTotal: nat, windowMs: int)
    requires b.Valid()
    ensures var r := Assign(b, zone, tid, pos, ts, currentTotal, maxTotal, windowMs).0;
      SightedOnly(b.personState.items, r.personState.items, {tid})
  {
  }

  /** Re-identification does not retire the track the person was filed from: that
      track keeps its state and its binding, so two tracks carry the same display id,
      and the missing pass goes on evaluating the old one. */
  lemma ReidentifiedKeepsOldTrack(b: Books, zone: Zone, tid: int, pos: Point, ts: int, currentTotal: nat, maxTotal: nat,
                                  windowMs: int, prior: int)
    requires b.Valid() && prior in b.personState.items && prior != tid
    ensures var (r, outcome) := Assign(b, zone, tid, pos, ts, currentTotal, maxTotal, windowMs);
      outcome.Reidentified? && b.personState.items[prior].displayId == outcome.displayId ==>
        && prior in r.personState.items && r.personState.items[prior] == b.personState.items[prior]
        && r.trackToDisplay[prior] == outcome.displayId
        && tid in r.personState.items && r.personState.items[tid].displayId == outcome.displayId
  {
    AssignSightedOnly(b, zone, tid, pos, ts, currentTotal, maxTotal, windowMs);
  }

  lemma BookSightedOnly(b: Books, zone: Zone, tid: int, pos: Point, ts: int)
    requires b.Valid() && tid in b.trackToDisplay
    ensures SightedOnly(b.personState.items, Book(b, zone, tid, pos, ts).personState.items, {tid})
  {
  }

  lemma StepSightedOnly(s: Scan, zones: ZoneConfig, det: Detection, ts: int, maxTotal: nat, windowMs: int)
    requires s.books.Valid()
    ensures var r := Step(s, zones, det, ts, maxTotal, windowMs);
      s.seen <= r.seen && SightedOnly(s.books.personState.items, r.books.personState.items, r.seen)
  {
    if det.trackId.Some? {
      var tid, zone := det.trackId.value, Classify(zones, det.center);
      var (b, outcome) := Assign(s.books, zone, tid, det.center, ts, |s.pool| + |s.safe|, maxTotal, windowMs);
      StepResolved(s, zones, det, ts, maxTotal, windowMs);
      if !outcome.Skipped? {
        AssignSightedOnly(s.books, zone, tid, det.center, ts, |s.pool| + |s.safe|, maxTotal, windowMs);
        BookSightedOnly(b, zone, tid, det.center, ts);
        SightedOnlyCompose(s.books.personState.items, b.personState.items,
                           Book(b, zone, tid, det.center, ts).personState.items, {tid}, s.seen + {tid});
      }
    }
  }

  /** Two sightings of the same tracks make one, also for any larger set of tracks. */
  lemma SightedOnlyCompose(p0: map<int, PersonState>, p1: map<int, PersonState>, p2: map<int, PersonState>,
                           few: set<int>, seen: set<int>)
    requires SightedOnly(p0, p1, few) && SightedOnly(p1, p2, few) && few <= seen
    ensures SightedOnly(p0, p2, seen)
  {
  }

  /** What one box with a track id does to the scan: nothing when skipped, and
      otherwise the booking of its resolved identity, its display id counted in its
      zone and its track marked as sighted. */
  lemma StepResolved(s: Scan, zones: ZoneConfig, det: Detection, ts: int, maxTotal: nat, windowMs: int)
    requires s.books.Valid() && det.trackId.Some?
    ensures var zone, tid := Classify(zones, det.center), det.trackId.value;
      var (b, outcome) := Assign(s.books, zone, tid, det.center, ts, |s.pool| + |s.safe|, maxTotal, windowMs);
      && (outcome.Skipped? ==> Step(s, zones, det, ts, maxTotal, windowMs) == s)
      && (!outcome.Skipped? ==>
            Step(s, zones, det, ts, maxTotal, windowMs)
            == Scan(Book(b, zone, tid, det.center, ts),
                    if zone == Pool then s.pool + {outcome.displayId} else s.pool,
                    if zone == Safe then s.safe + {outcome.displayId} else s.safe,
                    s.seen + {tid}))
  {
    var zone, tid := Classify(zones, det.center), det.trackId.value;
    var a := Assign(s.books, zone, tid, det.center, ts, |s.pool| + |s.safe|, maxTotal, windowMs);
    if a.1.Skipped? {
      StepSkipped(s, zones, det, ts, maxTotal, windowMs);
    } else {
      StepBooked(s, zones, det, ts, maxTotal, windowMs);
    }
  }

  lemma StepSkipped(s: Scan, zones: ZoneConfig, det: Detection, ts: int, maxTotal: nat, windowMs: int)
    requires s.books.Valid() && det.trackId.Some?
    requires Assign(s.books, Classify(zones, det.center), det.trackId.value, det.center, ts, |s.pool| + |s.safe|, maxTotal, windowMs).1.Skipped?
    ensures Step(s, zones, det, ts, maxTotal, windowMs) == s
  {
  }

  lemma StepBooked(s: Scan, zones: ZoneConfig, det: Detection, ts: int, maxTotal: nat, windowMs: int)
    requires s.books.Valid() && det.trackId.Some?
    requires !Assign(s.books, Classify(zones, det.center), det.trackId.value, det.center, ts, |s.pool| + |s.safe|, maxTotal, windowMs).1.Skipped?
    ensures var zone, tid := Classify(zones, det.center), det.trackId.value;
      var (b, outcome) := Assign(s.books, zone, tid, det.center, ts, |s.pool| + |s.safe|, maxTotal, windowMs);
      Step(s, zones, det, ts, maxTotal, windowMs)
      == Scan(Book(b, zone, tid, det.center, ts),
              if zone == Pool then s.pool + {outcome.displayId} else s.pool,
              if zone == Safe then s.safe + {outcome.displayId} else s.safe,
              s.seen + {tid})
  {
  }

  /** Across the box loop, only the states of the tracks sighted in this frame change. */
  lemma {:induction false} ScannedSightedOnly(s: Scan, zones: ZoneConfig, dets: seq<Detection>, ts: int, maxTotal: nat, windowMs: int)
    requires s.books.Valid()
    ensures var r := Scanned(s, zones, dets, ts, maxTotal, windowMs);
      s.seen <= r.seen && SightedOnly(s.books.personState.items, r.books.personState.items, r.seen)
  {
    if dets != [] {
      var init := dets[..|dets| - 1];
      var mid := Scanned(s, zones, init, ts, maxTotal, windowMs);
      ScannedSightedOnly(s, zones, init, ts, maxTotal, windowMs);
      StepSightedOnly(mid, zones, dets[|dets| - 1], ts, maxTotal, windowMs);
    }
  }

  /** A pool sighting of a resolved track resets that person's state: seen here and
      now, alert level 0, no repeat time, not acknowledged, no logged candidate
      (main.py:588-597); the display id is counted as in the pool this frame. */
  lemma StepPoolSighting(s: Scan, zones: ZoneConfig, det: Detection, ts: int, maxTotal: nat, windowMs: int)
    requires s.books.Valid()
    requires det.trackId.Some? && Classify(zones, det.center) == Pool
    ensures var r := Step(s, zones, det, ts, maxTotal, windowMs);
      var tid := det.trackId.value;
      tid in r.books.trackToDisplay ==>
        && tid in r.seen && r.books.trackToDisplay[tid] in r.pool
        && tid in r.books.personState.items
        && JustSeen(r.books.personState.items[tid], ts)
        && r.books.personState.items[tid].lastPosition == det.center
  {
  }

  /** A safe-zone sighting of a resolved track marks its display id as exited to
      safety and consumes any candidate of it (main.py:547-558). */
  lemma StepSafeSighting(s: Scan, zones: ZoneConfig, det: Detection, ts: int, maxTotal: nat, windowMs: int)
    requires s.books.Valid()
    requires det.trackId.Some? && Classify(zones, det.center) == Safe
    ensures var r := Step(s, zones, det, ts, maxTotal, windowMs);
      var tid := det.trackId.value;
      && tid in r.books.trackToDisplay && tid in r.seen
      && var d := r.books.trackToDisplay[tid];
      && d in r.safe && d in r.books.exitedToSafeIds && d !in r.books.submerged.items
      && r.books.personState == s.books.personState
  {
  }

  /** One box (main.py:451-599), step by step: read the track id, classify the
      centre, resolve the identity, then book the sighting in its zone. */
  method HandleDetection(s: Scan, zones: ZoneConfig, det: Detection, ts: int, maxTotal: nat, windowMs: int)
    returns (r: Scan)
    requires s.books.Valid()
    ensures r == Step(s, zones, det, ts, maxTotal, windowMs)
  {
    if det.trackId.None? {
      return s;
    }
    StepResolved(s, zones, det, ts, maxTotal, windowMs);
    var tid, pos := det.trackId.value, det.center;
    var zone := Classify(zones, pos);
    var b, outcome := ResolveIdentity(s.books, zone, tid, pos, ts, |s.pool| + |s.safe|, maxTotal, windowMs);
    if outcome.Skipped? {
      return s;
    }
    var displayId := b.trackToDisplay[tid];
    var pool, safe := s.pool, s.safe;
    if zone == Safe {
      safe := safe + {displayId};
      b := b.BookSafe(displayId);
    } else if zone == Pool {
      pool := pool + {displayId};
      b := b.BookPool(tid, pos, ts);
    }
    r := Scan(b, pool, safe, s.seen + {tid});
  }

  /** Identity resolution of one box (main.py:479-543), as the source runs it: a new
      pool track runs the candidate scan before falling back to the occupancy cap. */
  method ResolveIdentity(b0: Books, zone: Zone, tid: int, pos: Point, ts: int, currentTotal: nat, maxTotal: nat, windowMs: int)
    returns (b: Books, outcome: Assignment)
    requires b0.Valid()
    ensures (b, outcome) == Assign(b0, zone, tid, pos, ts, currentTotal, maxTotal, windowMs)
  {
    if tid in b0.trackToDisplay {
      return b0, Known(b0.trackToDisplay[tid]);
    }
    if zone == Pool {
      var best := FindBestCandidate(b0.submerged.keys, b0.submerged.items, pos, ts, windowMs);
      if best.Some? {
        return b0.Restore(tid, best.value, pos, ts), Reidentified(best.value);
      } else if !MayMint(maxTotal, currentTotal, b0.nextDisplayId) {
        return b0, Skipped;
      }
    }
    return b0.Mint(tid, zone), Minted(b0.nextDisplayId);
  }

  /** The box loop of one frame, in detector order. */
  method DetectionPass(s0: Scan, zones: ZoneConfig, dets: seq<Detection>, ts: int, maxTotal: nat, windowMs: int)
    returns (s: Scan)
    requires s0.books.Valid()
    ensures s == Scanned(s0, zones, dets, ts, maxTotal, windowMs)
  {
    s := s0;
    var i := 0;
    while i < |dets|
      invariant 0 <= i <= |dets|
      invariant s == Scanned(s0, zones, dets[..i], ts, maxTotal, windowMs)
    {
      assert dets[..i + 1][..i] == dets[..i];
      s := HandleDetection(s, zones, dets[i], ts, maxTotal, windowMs);
      i := i + 1;
    }
    assert dets[..i] == dets;
  }
}
