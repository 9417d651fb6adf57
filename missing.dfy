/** The missing-person pass of one frame (main.py:628-690): every person state not
    sighted in the frame is evaluated in state order, filing a re-identification
    candidate, counting the person missing, escalating the tier alerts and repeating
    the top alert; after each evaluation the expired candidates are purged. */
module Missing {
  import opened Common
  import opened Zones
  import opened Tiers
  import opened Identity
  import opened Bookkeeping

  /** An alert the missing-person pass hands to the alert manager. */
  datatype AlertRequest =
    | TierAlert(displayId: nat, level: nat)
    | RepeatAlert(displayId: nat, secondsMissing: int)

  /** A person must be unseen this long before becoming a re-identification candidate. */
  const CandidateDelayMs: int := 1000
  /** The repeat alert is gated on a hard-coded 40 s, not on the missing threshold. */
  const RepeatAfterMs: int := 40000
  const RepeatIntervalMs: int := 10000

  /** An evaluation files a candidate for an at-risk person unseen for at least a
      second, unless one is filed under the display id or was filed since the last
      sighting. */
  predicate LogsCandidate(st: PersonState, atRisk: bool, filed: bool, ts: int)
  {
    atRisk && !filed && ts - st.lastSeen >= CandidateDelayMs && !st.submergedLogged
  }

  /** An evaluation counts an at-risk person missing once the missing threshold is
      met, unless already counted. */
  predicate CountsMissing(st: PersonState, atRisk: bool, ts: int, missingAlertMs: int)
  {
    atRisk && ts - st.lastSeen >= missingAlertMs && !st.countedAsMissing
  }

  /** An unseen person is at risk when last seen in the pool and never seen in the
      safe zone under the same display id. */
  predicate AtRisk(zones: ZoneConfig, exited: set<nat>, st: PersonState)
  {
    WasInPool(zones, st.lastPosition) && st.displayId !in exited
  }

  /** The tier alert one evaluation of an unseen at-risk person fires, if any. */
  predicate TierFires(st: PersonState, atRisk: bool, ts: int)
  {
    atRisk && !st.acknowledged && st.alertLevel < MaxLevel && ts - st.lastSeen >= Threshold(st.alertLevel + 1)
  }

  /** The repeat alert: only once level 5 was reached before this evaluation, after
      40 s, and at least 10 s after the previous alert of this person. */
  predicate RepeatFires(st: PersonState, atRisk: bool, ts: int)
  {
    && atRisk && !st.acknowledged && st.alertLevel >= MaxLevel
    && ts - st.lastSeen >= RepeatAfterMs && ts - st.lastRepeatAlert >= RepeatIntervalMs
  }

  /** The state after one evaluation of an unseen person in the missing-person pass;
      `logsCandidate` says whether the evaluation created its re-identification
      candidate. The level moves up by at most one step, to the tier whose threshold
      the missing time meets, never above 5; a person is counted missing once. */
  function Evaluated(st: PersonState, atRisk: bool, logsCandidate: bool, ts: int, missingAlertMs: int): (r: PersonState)
    ensures r.displayId == st.displayId && r.lastSeen == st.lastSeen && r.lastPosition == st.lastPosition
    ensures r.acknowledged == st.acknowledged
    ensures r.submergedLogged == (st.submergedLogged || logsCandidate)
    ensures r.countedAsMissing == (st.countedAsMissing || (atRisk && ts - st.lastSeen >= missingAlertMs))
    ensures TierFires(st, atRisk, ts) ==> r.alertLevel == st.alertLevel + 1 <= MaxLevel && r.lastRepeatAlert == ts && r.missingAlerted
    ensures !TierFires(st, atRisk, ts) ==> r.alertLevel == st.alertLevel && r.missingAlerted == st.missingAlerted
    ensures RepeatFires(st, atRisk, ts) ==> r.lastRepeatAlert == ts
    ensures !TierFires(st, atRisk, ts) && !RepeatFires(st, atRisk, ts) ==> r.lastRepeatAlert == st.lastRepeatAlert
    ensures !atRisk && !logsCandidate ==> r == st
  {
    var elapsed := ts - st.lastSeen;
    var logged := if logsCandidate then st.(submergedLogged := true) else st;
    var counted :=
      if atRisk && elapsed >= missingAlertMs && !logged.countedAsMissing
      then logged.(countedAsMissing := true) else logged;
    if !(atRisk && !counted.acknowledged) then counted
    else
      var tiered :=
        if counted.alertLevel < MaxLevel && elapsed >= Threshold(counted.alertLevel + 1)
        then counted.(alertLevel := counted.alertLevel + 1, missingAlerted := true, lastRepeatAlert := ts)
        else counted;
      if elapsed >= RepeatAfterMs && counted.alertLevel >= MaxLevel && ts - tiered.lastRepeatAlert >= RepeatIntervalMs
      then tiered.(lastRepeatAlert := ts)
      else tiered
  }

  /** The alerts one evaluation requests: at most one, since the tier ladder stops
      below level 5 and the repeat alert starts at level 5. */
  function EvaluationAlerts(st: PersonState, atRisk: bool, ts: int): (r: seq<AlertRequest>)
    ensures |r| <= 1
    ensures |r| == 1 <==> TierFires(st, atRisk, ts) || RepeatFires(st, atRisk, ts)
    ensures TierFires(st, atRisk, ts) ==> r == [TierAlert(st.displayId, st.alertLevel + 1)]
    ensures forall a :: a in r ==> a.displayId == st.displayId && atRisk && !st.acknowledged
  {
    (if TierFires(st, atRisk, ts) then [TierAlert(st.displayId, st.alertLevel + 1)] else [])
    + (if RepeatFires(st, atRisk, ts) then [RepeatAlert(st.displayId, (ts - st.lastSeen) / 1000)] else [])
  }

  /** `after` is what one evaluation of `before` produced, whether or not it created a
      re-identification candidate. */
  ghost predicate EvaluatedFrom(zones: ZoneConfig, exited: set<nat>, before: PersonState, after: PersonState, ts: int, missingAlertMs: int)
  {
    exists logs: bool :: after == Evaluated(before, AtRisk(zones, exited, before), logs, ts, missingAlertMs)
  }

  /** One evaluation of an unseen person's state (main.py:637-685), step by step as
      the loop body does it: `candidateFiled` says whether a candidate is already filed
      under the display id. It reports whether a candidate is to be logged, whether
      the person is newly counted missing, and the alerts to send. */
  method Evaluate(state: PersonState, atRisk: bool, candidateFiled: bool, ts: int, missingAlertMs: int)
    returns (next: PersonState, logs: bool, counts: bool, alerts: seq<AlertRequest>)
    ensures logs == LogsCandidate(state, atRisk, candidateFiled, ts)
    ensures counts == CountsMissing(state, atRisk, ts, missingAlertMs)
    ensures next == Evaluated(state, atRisk, logs, ts, missingAlertMs)
    ensures alerts == EvaluationAlerts(state, atRisk, ts)
  {
    var timeMissing := ts - state.lastSeen;
    next, logs, counts, alerts := state, false, false, [];
    if atRisk && !candidateFiled {
      if timeMissing >= CandidateDelayMs && !next.submergedLogged {
        logs := true;
        next := next.(submergedLogged := true);
      }
    }
    if atRisk {
      if timeMissing >= missingAlertMs && !next.countedAsMissing {
        counts := true;
        next := next.(countedAsMissing := true);
      }
    }
    if atRisk && !next.acknowledged {
      var currentLevel := next.alertLevel;
      var fired := NextTier(currentLevel, timeMissing);
      if fired.Some? {
        alerts := alerts + [TierAlert(next.displayId, fired.value.level)];
        next := next.(alertLevel := fired.value.level, missingAlerted := true, lastRepeatAlert := ts);
      }
      if timeMissing >= RepeatAfterMs && currentLevel >= MaxLevel {
        if ts - next.lastRepeatAlert >= RepeatIntervalMs {
          alerts := alerts + [RepeatAlert(next.displayId, timeMissing / 1000)];
          next := next.(lastRepeatAlert := ts);
        }
      }
    }
  }

  /** The candidates older than the re-identification window at time `ts`. Its ensures
      is the definition `PurgeCandidates` is proved against, not a derived property. */
  function ExpiredIds(cands: map<nat, Candidate>, ts: int, windowMs: int): (r: set<nat>)
    ensures forall d {:trigger d in r} :: d in r <==> d in cands && ts - cands[d].time > windowMs
  {
    set d | d in cands && ts - cands[d].time > windowMs
  }

  /** The purge loop over a snapshot of the candidate keys (main.py:687-690): every
      candidate older than the window is deleted, the rest keep their order. */
  method PurgeCandidates(cands: Dict<nat, Candidate>, ts: int, windowMs: int) returns (r: Dict<nat, Candidate>)
    requires cands.Wf()
    ensures r == cands.Remove(ExpiredIds(cands.items, ts, windowMs))
    ensures forall d :: d in r.items ==> ts - r.items[d].time <= windowMs
  {
    r := cands;
    ghost var dropped: set<nat> := {};
    var i := 0;
    while i < |cands.keys|
      invariant 0 <= i <= |cands.keys|
      invariant DroppedBefore(cands, dropped, i, ts, windowMs)
      invariant r == cands.Remove(dropped)
    {
      var d := cands.keys[i];
      PurgeStep(cands, dropped, i, ts, windowMs);
      if ts - r.items[d].time > windowMs {
        r := r.Remove({d});
        dropped := dropped + {d};
      }
      i := i + 1;
    }
    PurgeDone(cands, dropped, ts, windowMs);
  }

  /** The keys the purge loop has deleted after visiting the first `i` keys. */
  ghost predicate DroppedBefore(cands: Dict<nat, Candidate>, dropped: set<nat>, i: nat, ts: int, windowMs: int)
    requires cands.Wf() && i <= |cands.keys|
  {
    forall d :: d in dropped <==> d in cands.keys[..i] && ts - cands.items[d].time > windowMs
  }

  /** One step of the purge loop: the visited key is still present with its original
      candidate, and deleting it when expired extends the deletion by one key. */
  lemma PurgeStep(cands: Dict<nat, Candidate>, dropped: set<nat>, i: nat, ts: int, windowMs: int)
    requires cands.Wf() && i < |cands.keys| && DroppedBefore(cands, dropped, i, ts, windowMs)
    ensures var d := cands.keys[i];
      && d in cands.Remove(dropped).items && cands.Remove(dropped).items[d] == cands.items[d]
      && cands.Remove(dropped).Remove({d}) == cands.Remove(dropped + {d})
      && (ts - cands.items[d].time > windowMs ==> DroppedBefore(cands, dropped + {d}, i + 1, ts, windowMs))
      && (ts - cands.items[d].time <= windowMs ==> DroppedBefore(cands, dropped, i + 1, ts, windowMs))
  {
    var keys, d := cands.keys, cands.keys[i];
    assert keys[..i + 1] == keys[..i] + [d];
    assert d !in keys[..i];
    RemoveRemove(cands, dropped, {d});
  }

  /** After the last key the purge has deleted exactly the expired candidates. */
  lemma PurgeDone(cands: Dict<nat, Candidate>, dropped: set<nat>, ts: int, windowMs: int)
    requires cands.Wf() && DroppedBefore(cands, dropped, |cands.keys|, ts, windowMs)
    ensures dropped == ExpiredIds(cands.items, ts, windowMs)
  {
    assert cands.keys[..|cands.keys|] == cands.keys;
  }

  /** One iteration of the pass over an unseen track: the evaluated state, the filed
      candidate, the count and the purge, with the alerts it requests. */
  function Examine(b: Books, zones: ZoneConfig, tid: int, ts: int, missingAlertMs: int, windowMs: int)
    : (r: (Books, seq<AlertRequest>))
    requires b.Valid() && tid in b.personState.items
    ensures r.0.Valid()
    ensures r.0.personState.keys == b.personState.keys
    ensures r.0.trackToDisplay == b.trackToDisplay && r.0.nextDisplayId == b.nextDisplayId
    ensures r.0.exitedToSafeIds == b.exitedToSafeIds && r.0.idsEnteredFromSafe == b.idsEnteredFromSafe
  {
    var st := b.personState.items[tid];
    var atRisk := AtRisk(zones, b.exitedToSafeIds, st);
    var logs := LogsCandidate(st, atRisk, st.displayId in b.submerged.items, ts);
    (b.(personState := b.personState.Put(tid, Evaluated(st, atRisk, logs, ts, missingAlertMs)),
        submerged := Refiled(b, st, logs, ts, windowMs),
        missingInPoolCount := b.missingInPoolCount + if CountsMissing(st, atRisk, ts, missingAlertMs) then 1 else 0),
     EvaluationAlerts(st, atRisk, ts))
  }

  /** The candidates after one evaluation: `st`'s candidate filed under its display id
      when the evaluation logs one, then every candidate older than the window purged. */
  function Refiled(b: Books, st: PersonState, logs: bool, ts: int, windowMs: int): (r: Dict<nat, Candidate>)
    requires b.Valid() && 1 <= st.displayId < b.nextDisplayId && st.alertLevel <= MaxLevel
    ensures r.Wf()
    ensures forall d :: d in r.items ==>
      && 1 <= d < b.nextDisplayId && r.items[d].state.displayId == d && r.items[d].state.alertLevel <= MaxLevel
      && ts - r.items[d].time <= windowMs
    ensures logs && ts - st.lastSeen <= windowMs ==> st.displayId in r.items && r.items[st.displayId].state == st
  {
    var filed := if logs then b.submerged.Put(st.displayId, Candidate(st.lastPosition, st.lastSeen, st)) else b.submerged;
    filed.Remove(ExpiredIds(filed.items, ts, windowMs))
  }

  /** The pass over the tracks of `order`, skipping those sighted in the frame. */
  function Swept(b: Books, zones: ZoneConfig, order: seq<int>, seen: set<int>, ts: int, missingAlertMs: int, windowMs: int)
    : (r: (Books, seq<AlertRequest>))
    requires b.Valid() && forall t :: t in order ==> t in b.personState.items
    ensures r.0.Valid()
    ensures r.0.personState.keys == b.personState.keys
    ensures r.0.trackToDisplay == b.trackToDisplay && r.0.nextDisplayId == b.nextDisplayId
    ensures r.0.exitedToSafeIds == b.exitedToSafeIds && r.0.idsEnteredFromSafe == b.idsEnteredFromSafe
  {
    if order == [] then (b, [])
    else
      var init := order[..|order| - 1];
      var tid := order[|order| - 1];
      assert forall t :: t in init ==> t in order;
      var (b1, alerts) := Swept(b, zones, init, seen, ts, missingAlertMs, windowMs);
      if tid in seen then (b1, alerts)
      else
        var (b2, more) := Examine(b1, zones, tid, ts, missingAlertMs, windowMs);
        (b2, alerts + more)
  }

  /** The pass as the source runs it: over a snapshot of the state order, one unseen
      track at a time. */
  method MissingPass(b0: Books, zones: ZoneConfig, seen: set<int>, ts: int, missingAlertMs: int, windowMs: int)
    returns (b: Books, alerts: seq<AlertRequest>)
    requires b0.Valid()
    ensures (b, alerts) == Swept(b0, zones, b0.personState.keys, seen, ts, missingAlertMs, windowMs)
  {
    var order := b0.personState.keys;
    b, alerts := b0, [];
    var i := 0;
    while i < |order|
      invariant 0 <= i <= |order|
      invariant (b, alerts) == Swept(b0, zones, order[..i], seen, ts, missingAlertMs, windowMs)
    {
      SweptNext(b0, zones, order, i, seen, ts, missingAlertMs, windowMs);
      var tid := order[i];
      if tid !in seen {
        var more;
        b, more := ExamineTrack(b, zones, tid, ts, missingAlertMs, windowMs);
        alerts := alerts + more;
      }
      i := i + 1;
    }
    assert order[..i] == order;
  }

  /** The pass over one more track of the state order. */
  lemma SweptNext(b0: Books, zones: ZoneConfig, order: seq<int>, i: nat, seen: set<int>, ts: int, missingAlertMs: int, windowMs: int)
    requires b0.Valid() && order == b0.personState.keys && i < |order|
    ensures var (b, alerts) := Swept(b0, zones, order[..i], seen, ts, missingAlertMs, windowMs);
      && order[i] in b.personState.items
      && Swept(b0, zones, order[..i + 1], seen, ts, missingAlertMs, windowMs)
         == if order[i] in seen then (b, alerts)
            else (Examine(b, zones, order[i], ts, missingAlertMs, windowMs).0,
                  alerts + Examine(b, zones, order[i], ts, missingAlertMs, windowMs).1)
  {
    assert order[..i + 1][..i] == order[..i];
  }

  /** The body of the pass for one unseen track, with the purge loop inside it
      (main.py:632-690). */
  method ExamineTrack(b: Books, zones: ZoneConfig, tid: int, ts: int, missingAlertMs: int, windowMs: int)
    returns (r: Books, alerts: seq<AlertRequest>)
    requires b.Valid() && tid in b.personState.items
    ensures (r, alerts) == Examine(b, zones, tid, ts, missingAlertMs, windowMs)
  {
    var st := b.personState.items[tid];
    var atRisk := AtRisk(zones, b.exitedToSafeIds, st);
    var next, logs, counts, fired := Evaluate(st, atRisk, st.displayId in b.submerged.items, ts, missingAlertMs);
    var cands := b.submerged;
    if logs {
      cands := cands.Put(st.displayId, Candidate(st.lastPosition, st.lastSeen, st));
    }
    cands := PurgeCandidates(cands, ts, windowMs);
    r := b.(personState := b.personState.Put(tid, next), submerged := cands,
            missingInPoolCount := b.missingInPoolCount + if counts then 1 else 0);
    alerts := fired;
  }

  /** The number of tracks of `order`, not sighted, whose person went from not
      counted missing in `before` to counted in `after`. */
  function NewlyCounted(order: seq<int>, seen: set<int>, before: map<int, PersonState>, after: map<int, PersonState>): nat
    requires forall t :: t in order ==> t in before && t in after
  {
    if order == [] then 0
    else
      var t := order[|order| - 1];
      assert forall u :: u in order[..|order| - 1] ==> u in order;
      NewlyCounted(order[..|order| - 1], seen, before, after)
      + if t !in seen && !before[t].countedAsMissing && after[t].countedAsMissing then 1 else 0
  }

  lemma {:induction false} NewlyCountedFrame(order: seq<int>, seen: set<int>, before: map<int, PersonState>,
                                             after: map<int, PersonState>, after': map<int, PersonState>)
    requires forall t :: t in order ==> t in before && t in after && t in after' && after'[t] == after[t]
    ensures NewlyCounted(order, seen, before, after') == NewlyCounted(order, seen, before, after)
  {
    if order != [] {
      assert forall u :: u in order[..|order| - 1] ==> u in order;
      NewlyCountedFrame(order[..|order| - 1], seen, before, after, after');
    }
  }

  /** The prefix of a duplicate-free order is duplicate-free and misses its last key. */
  lemma DistinctInit(order: seq<int>)
    requires order != [] && Distinct(order)
    ensures Distinct(order[..|order| - 1]) && order[|order| - 1] !in order[..|order| - 1]
  {
    var init := order[..|order| - 1];
    assert forall k :: 0 <= k < |init| ==> init[k] == order[k];
  }

  /** One iteration evaluates the examined track's state and no other. */
  lemma ExamineEvaluates(b: Books, zones: ZoneConfig, tid: int, ts: int, missingAlertMs: int, windowMs: int)
    requires b.Valid() && tid in b.personState.items
    ensures var r := Examine(b, zones, tid, ts, missingAlertMs, windowMs).0;
      && tid in r.personState.items
      && r.personState.items == b.personState.items[tid := r.personState.items[tid]]
      && EvaluatedFrom(zones, b.exitedToSafeIds, b.personState.items[tid], r.personState.items[tid], ts, missingAlertMs)
  {
    var st := b.personState.items[tid];
    var atRisk := AtRisk(zones, b.exitedToSafeIds, st);
    var logs := LogsCandidate(st, atRisk, st.displayId in b.submerged.items, ts);
    assert Examine(b, zones, tid, ts, missingAlertMs, windowMs).0.personState.items[tid] == Evaluated(st, atRisk, logs, ts, missingAlertMs);
  }

  /** Over a duplicate-free order, every track not sighted in the frame is evaluated
      exactly once from the state it had before the pass; every other state is left
      as it was, and no state is added or dropped. */
  lemma {:induction false} SweptEvaluates(b: Books, zones: ZoneConfig, order: seq<int>, seen: set<int>, ts: int, missingAlertMs: int, windowMs: int)
    requires b.Valid() && (forall t :: t in order ==> t in b.personState.items) && Distinct(order)
    ensures var r := Swept(b, zones, order, seen, ts, missingAlertMs, windowMs).0;
      forall t :: t in b.personState.items ==>
        && t in r.personState.items
        && (t in order && t !in seen ==>
              EvaluatedFrom(zones, b.exitedToSafeIds, b.personState.items[t], r.personState.items[t], ts, missingAlertMs))
        && (t !in order || t in seen ==> r.personState.items[t] == b.personState.items[t])
  {
    if order != [] {
      var init := order[..|order| - 1];
      var tid := order[|order| - 1];
      DistinctInit(order);
      assert forall t :: t in init ==> t in order;
      SweptEvaluates(b, zones, init, seen, ts, missingAlertMs, windowMs);
      var b1 := Swept(b, zones, init, seen, ts, missingAlertMs, windowMs).0;
      var r := Swept(b, zones, order, seen, ts, missingAlertMs, windowMs).0;
      if tid !in seen {
        ExamineEvaluates(b1, zones, tid, ts, missingAlertMs, windowMs);
      }
      assert forall t :: t in order <==> t in init || t == tid;
      EvaluatedExtend(zones, b.exitedToSafeIds, order, init, tid, seen,
                      b.personState.items, b1.personState.items, r.personState.items, ts, missingAlertMs);
    }
  }

  /** One more track of the pass: evaluated when unseen, left alone when seen. */
  lemma EvaluatedExtend(zones: ZoneConfig, exited: set<nat>, order: seq<int>, init: seq<int>, tid: int, seen: set<int>,
                        before: map<int, PersonState>, mid: map<int, PersonState>, after: map<int, PersonState>,
                        ts: int, missingAlertMs: int)
    requires tid !in init && forall t :: t in order <==> t in init || t == tid
    requires forall t :: t in before ==>
      && t in mid
      && (t in init && t !in seen ==> EvaluatedFrom(zones, exited, before[t], mid[t], ts, missingAlertMs))
      && (t !in init || t in seen ==> mid[t] == before[t])
    requires tid in seen ==> after == mid
    requires tid !in seen ==>
      && tid in after && after == mid[tid := after[tid]]
      && tid in mid && EvaluatedFrom(zones, exited, mid[tid], after[tid], ts, missingAlertMs)
    ensures forall t :: t in before ==>
      && t in after
      && (t in order && t !in seen ==> EvaluatedFrom(zones, exited, before[t], after[t], ts, missingAlertMs))
      && (t !in order || t in seen ==> after[t] == before[t])
  {
  }

  /** One iteration raises the missing count exactly when it newly counts the person,
      and changes no other track's state. */
  lemma ExamineCounts(b: Books, zones: ZoneConfig, tid: int, ts: int, missingAlertMs: int, windowMs: int)
    requires b.Valid() && tid in b.personState.items
    ensures var r := Examine(b, zones, tid, ts, missingAlertMs, windowMs).0;
      && tid in r.personState.items
      && r.personState.items == b.personState.items[tid := r.personState.items[tid]]
      && r.missingInPoolCount == b.missingInPoolCount +
           if !b.personState.items[tid].countedAsMissing && r.personState.items[tid].countedAsMissing then 1 else 0
  {
  }

  /** The missing count grows by exactly the number of people the pass newly counts
      missing, so every person is counted at most once between sightings. */
  lemma {:induction false} SweptCountsOnce(b: Books, zones: ZoneConfig, order: seq<int>, seen: set<int>, ts: int, missingAlertMs: int, windowMs: int)
    requires b.Valid() && (forall t :: t in order ==> t in b.personState.items) && Distinct(order)
    ensures var r := Swept(b, zones, order, seen, ts, missingAlertMs, windowMs).0;
      && (forall t :: t in order ==> t in r.personState.items)
      && r.missingInPoolCount == b.missingInPoolCount + NewlyCounted(order, seen, b.personState.items, r.personState.items)
  {
    if order != [] {
      var init := order[..|order| - 1];
      var tid := order[|order| - 1];
      DistinctInit(order);
      assert forall t :: t in init ==> t in order;
      SweptCountsOnce(b, zones, init, seen, ts, missingAlertMs, windowMs);
      SweptEvaluates(b, zones, init, seen, ts, missingAlertMs, windowMs);
      var b1 := Swept(b, zones, init, seen, ts, missingAlertMs, windowMs).0;
      if tid !in seen {
        ExamineCounts(b1, zones, tid, ts, missingAlertMs, windowMs);
        var r := Examine(b1, zones, tid, ts, missingAlertMs, windowMs).0;
        NewlyCountedFrame(init, seen, b.personState.items, b1.personState.items, r.personState.items);
      } else {
        NewlyCountedFrame(init, seen, b.personState.items, b1.personState.items, b1.personState.items);
      }
    }
  }

  /** After one iteration no candidate older than the window is left. */
  lemma ExaminePurges(b: Books, zones: ZoneConfig, tid: int, ts: int, missingAlertMs: int, windowMs: int)
    requires b.Valid() && tid in b.personState.items
    ensures var r := Examine(b, zones, tid, ts, missingAlertMs, windowMs).0;
      forall d :: d in r.submerged.items ==> ts - r.submerged.items[d].time <= windowMs
  {
  }

  /** The purge runs only when some state is unseen: then no expired candidate
      survives the pass; when every state was sighted, the pass changes nothing. */
  lemma {:induction false} SweptPurges(b: Books, zones: ZoneConfig, order: seq<int>, seen: set<int>, ts: int, missingAlertMs: int, windowMs: int)
    requires b.Valid() && forall t :: t in order ==> t in b.personState.items
    ensures var r := Swept(b, zones, order, seen, ts, missingAlertMs, windowMs);
      && ((forall t :: t in order ==> t in seen) ==> r == (b, []))
      && ((exists t :: t in order && t !in seen) ==>
            forall d :: d in r.0.submerged.items ==> ts - r.0.submerged.items[d].time <= windowMs)
  {
    if order != [] {
      var init := order[..|order| - 1];
      var tid := order[|order| - 1];
      assert forall t :: t in order <==> t in init || t == tid;
      SweptPurges(b, zones, init, seen, ts, missingAlertMs, windowMs);
      if tid !in seen {
        ExaminePurges(Swept(b, zones, init, seen, ts, missingAlertMs, windowMs).0, zones, tid, ts, missingAlertMs, windowMs);
      }
    }
  }

  /** Every alert the pass requests is about an unseen person at risk who was not
      acknowledged by the rescue key. */
  lemma {:induction false} SweptAlertsAtRisk(b: Books, zones: ZoneConfig, order: seq<int>, seen: set<int>, ts: int, missingAlertMs: int, windowMs: int)
    requires b.Valid() && (forall t :: t in order ==> t in b.personState.items) && Distinct(order)
    ensures var alerts := Swept(b, zones, order, seen, ts, missingAlertMs, windowMs).1;
      forall a :: a in alerts ==>
        exists t :: && t in order && t !in seen
                    && AtRisk(zones, b.exitedToSafeIds, b.personState.items[t])
                    && !b.personState.items[t].acknowledged
                    && b.personState.items[t].displayId == a.displayId
  {
    if order != [] {
      var init := order[..|order| - 1];
      var tid := order[|order| - 1];
      DistinctInit(order);
      assert forall t :: t in init ==> t in order;
      SweptAlertsAtRisk(b, zones, init, seen, ts, missingAlertMs, windowMs);
      SweptEvaluates(b, zones, init, seen, ts, missingAlertMs, windowMs);
    }
  }
}
