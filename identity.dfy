/** Per-identity state and re-identification of submerged candidates
    (main.py:377-379, 487-500, 580-588, 641-648). */
module Identity {
  import opened Common

  /** One entry of `person_state`, keyed by track id. `countedAsMissing` and
      `submergedLogged` are absent from a fresh entry in the source and read as false. */
  datatype PersonState = PersonState(
    displayId: nat,
    lastSeen: int,
    lastPosition: Point,
    missingAlerted: bool,
    alertLevel: nat,
    lastRepeatAlert: int,
    acknowledged: bool,
    submergedLogged: bool,
    countedAsMissing: bool)

  /** The entry created for a track first seen in the pool. */
  function FreshState(displayId: nat, ts: int, pos: Point): (st: PersonState)
    ensures st.displayId == displayId && st.lastSeen == ts && st.lastPosition == pos
    ensures st.alertLevel == 0 && !st.acknowledged && !st.submergedLogged && !st.countedAsMissing
  {
    PersonState(displayId, ts, pos, false, 0, 0, false, false, false)
  }

  /** A snapshot of a person who vanished in the pool, kept for re-identification:
      last position, last-seen time and a copy of the state at that moment. */
  datatype Candidate = Candidate(position: Point, time: int, state: PersonState)

  /** A candidate may be matched while its age is at most the re-identification window. */
  predicate Eligible(c: Candidate, ts: int, windowMs: int)
  {
    ts - c.time <= windowMs
  }

  /** `d` is what the nearest-candidate scan picks from the candidates visited in
      `order`: it is eligible, no eligible candidate is nearer, and every eligible
      candidate visited before it is strictly farther (the first of equally near ones
      wins). There is no distance bound. */
  ghost predicate IsBestCandidate(order: seq<nat>, cands: map<nat, Candidate>, pos: Point, ts: int, windowMs: int, d: nat)
    requires forall k :: k in order ==> k in cands
  {
    exists i :: 0 <= i < |order| && order[i] == d && BestAt(order, cands, pos, ts, windowMs, i)
  }

  ghost predicate BestAt(order: seq<nat>, cands: map<nat, Candidate>, pos: Point, ts: int, windowMs: int, i: nat)
    requires forall k :: k in order ==> k in cands
    requires i < |order|
  {
    var best := cands[order[i]];
    && Eligible(best, ts, windowMs)
    && (forall j :: 0 <= j < |order| && Eligible(cands[order[j]], ts, windowMs) ==>
          SqDist(pos, best.position) <= SqDist(pos, cands[order[j]].position))
    && (forall j :: 0 <= j < i && Eligible(cands[order[j]], ts, windowMs) ==>
          SqDist(pos, best.position) < SqDist(pos, cands[order[j]].position))
  }

  /** What the scan over `order` settles on: the last visited candidate that is
      eligible and strictly nearer than everything eligible before it. */
  function BestOf(order: seq<nat>, cands: map<nat, Candidate>, pos: Point, ts: int, windowMs: int): (best: Option<nat>)
    requires forall k :: k in order ==> k in cands
    ensures best.Some? ==> best.value in order && Eligible(cands[best.value], ts, windowMs)
  {
    if order == [] then None
    else
      var k := order[|order| - 1];
      var prev := BestOf(order[..|order| - 1], cands, pos, ts, windowMs);
      if Eligible(cands[k], ts, windowMs)
         && (prev.None? || SqDist(pos, cands[k].position) < SqDist(pos, cands[prev.value].position))
      then Some(k)
      else prev
  }

  /** The scan finds a candidate exactly when one is eligible. */
  lemma {:induction false} BestOfNone(order: seq<nat>, cands: map<nat, Candidate>, pos: Point, ts: int, windowMs: int)
    requires forall k :: k in order ==> k in cands
    ensures BestOf(order, cands, pos, ts, windowMs).None? <==>
      forall j :: 0 <= j < |order| ==> !Eligible(cands[order[j]], ts, windowMs)
  {
    if order != [] {
      var n := |order| - 1;
      var init := order[..n];
      assert forall k :: k in init ==> k in order;
      BestOfNone(init, cands, pos, ts, windowMs);
      assert forall j :: 0 <= j < n ==> order[j] == init[j];
    }
  }

  /** The candidate the scan finds is the nearest eligible one, the first in order
      among equally near ones. */
  lemma {:induction false} BestOfIsBest(order: seq<nat>, cands: map<nat, Candidate>, pos: Point, ts: int, windowMs: int)
    requires forall k :: k in order ==> k in cands
    ensures var best := BestOf(order, cands, pos, ts, windowMs);
      best.Some? ==> IsBestCandidate(order, cands, pos, ts, windowMs, best.value)
  {
    if order != [] {
      var n := |order| - 1;
      var init := order[..n];
      assert forall k :: k in init ==> k in order;
      var prev := BestOf(init, cands, pos, ts, windowMs);
      var best := BestOf(order, cands, pos, ts, windowMs);
      if best.Some? {
        if prev.Some? && best == prev {
          BestOfIsBest(init, cands, pos, ts, windowMs);
          var i :| 0 <= i < |init| && init[i] == prev.value && BestAt(init, cands, pos, ts, windowMs, i);
          BestAtKept(order, cands, pos, ts, windowMs, i);
        } else {
          if prev.None? {
            BestOfNone(init, cands, pos, ts, windowMs);
          } else {
            BestOfIsBest(init, cands, pos, ts, windowMs);
          }
          BestAtLast(order, cands, pos, ts, windowMs);
        }
      }
    }
  }

  /** The best of all but the last candidate stays the best when the last one is not
      an eligible, strictly nearer one. */
  lemma BestAtKept(order: seq<nat>, cands: map<nat, Candidate>, pos: Point, ts: int, windowMs: int, i: nat)
    requires forall k :: k in order ==> k in cands
    requires i < |order| - 1
    requires forall k :: k in order[..|order| - 1] ==> k in cands
    requires BestAt(order[..|order| - 1], cands, pos, ts, windowMs, i)
    requires var last := cands[order[|order| - 1]];
      !(Eligible(last, ts, windowMs) && SqDist(pos, last.position) < SqDist(pos, cands[order[i]].position))
    ensures BestAt(order, cands, pos, ts, windowMs, i)
  {
    var init := order[..|order| - 1];
    assert forall j :: 0 <= j < |init| ==> order[j] == init[j];
  }

  /** The last candidate is the best when it is eligible and strictly nearer than
      every eligible one before it. */
  lemma BestAtLast(order: seq<nat>, cands: map<nat, Candidate>, pos: Point, ts: int, windowMs: int)
    requires forall k :: k in order ==> k in cands
    requires order != []
    requires var last := cands[order[|order| - 1]];
      && Eligible(last, ts, windowMs)
      && forall j :: 0 <= j < |order| - 1 && Eligible(cands[order[j]], ts, windowMs) ==>
           SqDist(pos, last.position) < SqDist(pos, cands[order[j]].position)
    ensures BestAt(order, cands, pos, ts, windowMs, |order| - 1)
  {
  }

  /** The re-identification scan over the submerged candidates in insertion order
      (main.py:487-500): the distance comparison is strict, so among equally near
      candidates the first one visited is kept. */
  method FindBestCandidate(order: seq<nat>, cands: map<nat, Candidate>, pos: Point, ts: int, windowMs: int)
    returns (best: Option<nat>)
    requires forall k :: k in order ==> k in cands
    ensures best == BestOf(order, cands, pos, ts, windowMs)
  {
    best := None;
    var bestDist: nat := 0;
    var i := 0;
    while i < |order|
      invariant 0 <= i <= |order|
      invariant forall k :: k in order[..i] ==> k in cands
      invariant best == BestOf(order[..i], cands, pos, ts, windowMs)
      invariant best.Some? ==> bestDist == SqDist(pos, cands[best.value].position)
    {
      assert order[..i + 1][..i] == order[..i];
      var c := cands[order[i]];
      if Eligible(c, ts, windowMs) {
        var dist := SqDist(pos, c.position);
        if best.None? || dist < bestDist {
          best, bestDist := Some(order[i]), dist;
        }
      }
      i := i + 1;
    }
    assert order[..i] == order;
  }

  /** The scan is deterministic: at most one candidate satisfies its specification. */
  lemma BestCandidateUnique(order: seq<nat>, cands: map<nat, Candidate>, pos: Point, ts: int, windowMs: int, d1: nat, d2: nat)
    requires forall k :: k in order ==> k in cands
    requires IsBestCandidate(order, cands, pos, ts, windowMs, d1)
    requires IsBestCandidate(order, cands, pos, ts, windowMs, d2)
    ensures d1 == d2
  {
    var i1 :| 0 <= i1 < |order| && order[i1] == d1 && BestAt(order, cands, pos, ts, windowMs, i1);
    var i2 :| 0 <= i2 < |order| && order[i2] == d2 && BestAt(order, cands, pos, ts, windowMs, i2);
  }
}
