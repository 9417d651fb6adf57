/** The operator's rescue key (main.py:745-778): everyone the missing-person pass
    has escalated or filed as a candidate is declared rescued, and their state,
    their candidate and their share of the missing count are cleared. */
module Rescuing {
  import opened Common
  import opened Identity
  import opened Bookkeeping

  /** Rescue applies to a person with an alert level above 0 or a filed candidate. */
  predicate NeedsRescue(st: PersonState)
  {
    st.alertLevel > 0 || st.submergedLogged
  }

  /** What the first loop of the rescue key accumulates: the reported display ids and
      the tracks to delete, in state order, and the candidates and missing count as
      they stand after the loop. */
  datatype Collection = Collection(ids: seq<nat>, tracks: seq<int>, cands: Dict<nat, Candidate>, missing: nat)

  /** The first loop of the rescue key over the tracks of `order`: each person needing
      rescue is reported and listed for deletion, their candidate deleted when filed,
      and the missing count lowered by one, never below 0, when they were counted. */
  function Collected(order: seq<int>, states: map<int, PersonState>, cands: Dict<nat, Candidate>, missing: nat): (r: Collection)
    requires cands.Wf() && forall t :: t in order ==> t in states
    ensures r.cands.Wf()
    ensures forall d :: d in r.cands.items ==> d in cands.items && r.cands.items[d] == cands.items[d]
  {
    if order == [] then Collection([], [], cands, missing)
    else
      var tid := order[|order| - 1];
      assert forall t :: t in order[..|order| - 1] ==> t in order;
      var prev := Collected(order[..|order| - 1], states, cands, missing);
      var st := states[tid];
      if !NeedsRescue(st) then prev
      else
        Collection(prev.ids + [st.displayId], prev.tracks + [tid],
                   if st.displayId in prev.cands.items then prev.cands.Remove({st.displayId}) else prev.cands,
                   if st.countedAsMissing then Max(0, prev.missing - 1) else prev.missing)
  }

  /** How many people needing rescue among the tracks of `order` had been counted
      missing. */
  function CountedAmong(order: seq<int>, states: map<int, PersonState>): (c: nat)
    requires forall t :: t in order ==> t in states
    ensures c <= |order|
  {
    if order == [] then 0
    else
      var tid := order[|order| - 1];
      assert forall t :: t in order[..|order| - 1] ==> t in order;
      CountedAmong(order[..|order| - 1], states)
      + if NeedsRescue(states[tid]) && states[tid].countedAsMissing then 1 else 0
  }

  /** The reported ids are exactly the display ids of the people needing rescue. */
  lemma {:induction false} CollectedIds(order: seq<int>, states: map<int, PersonState>, cands: Dict<nat, Candidate>, missing: nat, d: nat)
    requires cands.Wf() && forall t :: t in order ==> t in states
    ensures d in Collected(order, states, cands, missing).ids <==>
      exists t :: t in order && NeedsRescue(states[t]) && states[t].displayId == d
  {
    if order != [] {
      var init := order[..|order| - 1];
      assert forall t :: t in order <==> t in init || t == order[|order| - 1];
      CollectedIds(init, states, cands, missing, d);
    }
  }

  /** The listed tracks are exactly the tracks of the people needing rescue. */
  lemma {:induction false} CollectedTracks(order: seq<int>, states: map<int, PersonState>, cands: Dict<nat, Candidate>, missing: nat, t: int)
    requires cands.Wf() && forall u :: u in order ==> u in states
    ensures t in Collected(order, states, cands, missing).tracks <==> t in order && NeedsRescue(states[t])
  {
    if order != [] {
      var init := order[..|order| - 1];
      assert forall u :: u in order <==> u in init || u == order[|order| - 1];
      CollectedTracks(init, states, cands, missing, t);
    }
  }

  /** Exactly the candidates filed under a reported id are deleted, the others keep
      their order. */
  lemma {:induction false} CollectedCands(order: seq<int>, states: map<int, PersonState>, cands: Dict<nat, Candidate>, missing: nat)
    requires cands.Wf() && forall t :: t in order ==> t in states
    ensures var r := Collected(order, states, cands, missing); r.cands == cands.Remove(Elems(r.ids))
  {
    if order != [] {
      var init := order[..|order| - 1];
      assert forall t :: t in init ==> t in order;
      CollectedCands(init, states, cands, missing);
      var prev := Collected(init, states, cands, missing);
      var st := states[order[|order| - 1]];
      if NeedsRescue(st) {
        RemoveOneMore(cands, prev.ids, st.displayId);
      }
    }
  }

  /** Deleting one more reported id's candidate, when filed, extends the deletion. */
  lemma RemoveOneMore(cands: Dict<nat, Candidate>, ids: seq<nat>, d: nat)
    requires cands.Wf()
    ensures var prev := cands.Remove(Elems(ids));
      (if d in prev.items then prev.Remove({d}) else prev) == cands.Remove(Elems(ids + [d]))
  {
    var prev := cands.Remove(Elems(ids));
    RemoveRemove(cands, Elems(ids), {d});
    assert Elems(ids + [d]) == Elems(ids) + {d};
    if d !in prev.items {
      assert prev.Remove({d}) == prev;
    }
  }

  /** Lowering the count one by one, floored at 0 each time, lowers it by the number
      of counted people needing rescue, floored once. */
  lemma {:induction false} CollectedMissing(order: seq<int>, states: map<int, PersonState>, cands: Dict<nat, Candidate>, missing: nat)
    requires cands.Wf() && forall t :: t in order ==> t in states
    ensures Collected(order, states, cands, missing).missing == Max(0, missing - CountedAmong(order, states))
  {
    if order != [] {
      var init := order[..|order| - 1];
      assert forall t :: t in init ==> t in order;
      CollectedMissing(init, states, cands, missing);
    }
  }

  /** When nobody among `order` needs rescue the first loop collects nothing. */
  lemma {:induction false} CollectedNone(order: seq<int>, states: map<int, PersonState>, cands: Dict<nat, Candidate>, missing: nat)
    requires cands.Wf() && forall t :: t in order ==> t in states && !NeedsRescue(states[t])
    ensures Collected(order, states, cands, missing) == Collection([], [], cands, missing)
  {
    if order != [] {
      assert forall t :: t in order[..|order| - 1] ==> t in order;
      CollectedNone(order[..|order| - 1], states, cands, missing);
    }
  }

  /** The rescue key on the books: the first loop, then the deletion of the listed
      tracks' states; it returns the reported display ids. */
  function Rescued(b: Books): (r: (Books, seq<nat>))
    requires b.Valid()
    ensures r.0.Valid()
  {
    var c := Collected(b.personState.keys, b.personState.items, b.submerged, b.missingInPoolCount);
    (b.(personState := b.personState.Remove(Elems(c.tracks)), submerged := c.cands, missingInPoolCount := c.missing),
     c.ids)
  }

  /** The rescue key removes exactly the states needing rescue and keeps the others
      as they were, reports exactly their display ids, deletes exactly their
      candidates and lowers the missing count by the counted ones among them,
      floored at 0; the id bookkeeping is untouched. */
  lemma RescuedSpec(b: Books)
    requires b.Valid()
    ensures var (r, ids) := Rescued(b);
      && (forall t :: t in r.personState.items <==> t in b.personState.items && !NeedsRescue(b.personState.items[t]))
      && (forall t :: t in r.personState.items ==> r.personState.items[t] == b.personState.items[t])
      && (forall d :: d in ids <==>
            exists t :: t in b.personState.items && NeedsRescue(b.personState.items[t]) && b.personState.items[t].displayId == d)
      && r.submerged == b.submerged.Remove(Elems(ids))
      && r.missingInPoolCount == Max(0, b.missingInPoolCount - CountedAmong(b.personState.keys, b.personState.items))
      && r.trackToDisplay == b.trackToDisplay && r.nextDisplayId == b.nextDisplayId
      && r.exitedToSafeIds == b.exitedToSafeIds && r.idsEnteredFromSafe == b.idsEnteredFromSafe
  {
    var order, states := b.personState.keys, b.personState.items;
    forall d: nat ensures d in Rescued(b).1 <==> exists t :: t in states && NeedsRescue(states[t]) && states[t].displayId == d {
      CollectedIds(order, states, b.submerged, b.missingInPoolCount, d);
    }
    forall t ensures t in Collected(order, states, b.submerged, b.missingInPoolCount).tracks <==> t in states && NeedsRescue(states[t]) {
      CollectedTracks(order, states, b.submerged, b.missingInPoolCount, t);
    }
    CollectedCands(order, states, b.submerged, b.missingInPoolCount);
    CollectedMissing(order, states, b.submerged, b.missingInPoolCount);
  }

  /** When nobody needs rescue the key changes nothing and reports nobody. */
  lemma RescuedNoop(b: Books)
    requires b.Valid()
    requires forall t :: t in b.personState.items ==> !NeedsRescue(b.personState.items[t])
    ensures Rescued(b) == (b, [])
  {
    CollectedNone(b.personState.keys, b.personState.items, b.submerged, b.missingInPoolCount);
    assert Elems<int>([]) == {};
    assert b.personState.Remove({}) == b.personState;
  }

  /** Pressing the rescue key twice in a row: the second press finds nobody. */
  lemma RescuedTwice(b: Books)
    requires b.Valid()
    ensures Rescued(Rescued(b).0) == (Rescued(b).0, [])
  {
    RescuedSpec(b);
    RescuedNoop(Rescued(b).0);
  }

  /** The first loop of the rescue key, step by step in state order. */
  method CollectRescues(states: Dict<int, PersonState>, cands: Dict<nat, Candidate>, missing: nat) returns (c: Collection)
    requires states.Wf() && cands.Wf()
    ensures c == Collected(states.keys, states.items, cands, missing)
  {
    var order := states.keys;
    var ids: seq<nat>, tracks: seq<int>, left: Dict<nat, Candidate>, count: nat := [], [], cands, missing;
    var i := 0;
    while i < |order|
      invariant 0 <= i <= |order|
      invariant Collection(ids, tracks, left, count) == Collected(order[..i], states.items, cands, missing)
    {
      assert order[..i + 1][..i] == order[..i];
      var tid := order[i];
      var state := states.items[tid];
      if NeedsRescue(state) {
        var displayId := state.displayId;
        ids := ids + [displayId];
        tracks := tracks + [tid];
        if displayId in left.items {
          left := left.Remove({displayId});
        }
        if state.countedAsMissing {
          count := Max(0, count - 1);
        }
      }
      i := i + 1;
    }
    assert order[..i] == order;
    c := Collection(ids, tracks, left, count);
  }

  /** The second loop of the rescue key: delete the listed tracks' states; the others
      keep their order. */
  method DeleteTracks(states: Dict<int, PersonState>, tracks: seq<int>) returns (r: Dict<int, PersonState>)
    requires states.Wf()
    ensures r == states.Remove(Elems(tracks))
  {
    r := states;
    var j := 0;
    while j < |tracks|
      invariant 0 <= j <= |tracks|
      invariant r == states.Remove(Elems(tracks[..j]))
    {
      var tid := tracks[j];
      assert Elems(tracks[..j + 1]) == Elems(tracks[..j]) + {tid} by {
        assert tracks[..j + 1] == tracks[..j] + [tid];
      }
      RemoveRemove(states, Elems(tracks[..j]), {tid});
      r := r.Remove({tid});
      j := j + 1;
    }
    assert tracks[..j] == tracks;
  }
}
