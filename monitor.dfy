/** The main loop's wiring of the tracker to the alert manager (main.py:418, 628-692):
    every alert the missing-person pass requests goes to `trigger_alert` with the
    annotated frame and the pre-event deque, in the order requested, and its result
    is ignored; then the raw frame goes to `process_frame`. */
module Monitor {
  import opened Common
  import opened Zones
  import opened FrameWindow
  import opened Alerts
  import opened Bookkeeping
  import opened Missing
  import opened Tracking

  /** The notification jobs started for the accepted alerts, in order. */
  function Notices<F>(snapshot: F, admitted: seq<AlertRequest>, message: AlertRequest -> string, alertText: string): seq<Job<F>>
  {
    seq(|admitted|, i requires 0 <= i < |admitted| => SendImmediate(snapshot, Caption(Some(message(admitted[i])), alertText)))
  }

  /** The alerts whose flag is set, in order. */
  function Picked(alerts: seq<AlertRequest>, flags: seq<bool>): seq<AlertRequest>
    requires |flags| == |alerts|
  {
    if alerts == [] then []
    else Picked(alerts[..|alerts| - 1], flags[..|flags| - 1]) + if flags[|flags| - 1] then [alerts[|alerts| - 1]] else []
  }

  /** Forwarding one more alert adds its notification when it is accepted. */
  lemma {:induction false} NoticesNext<F>(snapshot: F, alerts: seq<AlertRequest>, flags: seq<bool>, ok: bool, message: AlertRequest -> string, alertText: string)
    requires |flags| < |alerts|
    ensures var i := |flags|;
      Notices(snapshot, Picked(alerts[..i + 1], flags + [ok]), message, alertText)
      == Notices(snapshot, Picked(alerts[..i], flags), message, alertText)
         + if ok then [SendImmediate(snapshot, Caption(Some(message(alerts[i])), alertText))] else []
  {
    var i := |flags|;
    var prefix, flags' := alerts[..i + 1], flags + [ok];
    var tail := if ok then [alerts[i]] else [];
    assert prefix[..i] == alerts[..i] && flags'[..i] == flags;
    assert Picked(prefix, flags') == Picked(alerts[..i], flags) + tail;
    NoticesAppend(snapshot, Picked(alerts[..i], flags), tail, message, alertText);
    assert Notices(snapshot, tail, message, alertText)
        == if ok then [SendImmediate(snapshot, Caption(Some(message(alerts[i])), alertText))] else [];
  }

  lemma {:induction false} NoticesAppend<F>(snapshot: F, a: seq<AlertRequest>, b: seq<AlertRequest>, message: AlertRequest -> string, alertText: string)
    ensures Notices(snapshot, a + b, message, alertText) == Notices(snapshot, a, message, alertText) + Notices(snapshot, b, message, alertText)
  {
  }

  /** Hand the requested alerts to `trigger_alert` in order, ignoring the results
      as the main loop does; they are returned for inspection. All are sent at the
      same clock reading `nowMs`, so the first one passes exactly when the gate was
      open, and a later one only when the first passed and neither a cooldown nor the
      recording it started shuts the gate again. The manager ends with the
      notification jobs of the accepted alerts, the caption of the last of them, and
      the recording the first of them started; when none is accepted it is unchanged. */
  method ForwardAlerts<F>(manager: AlertManager<F>, snapshot: F, buffer: seq<(int, F)>, alerts: seq<AlertRequest>,
                          nowMs: int, message: AlertRequest -> string)
    returns (accepted: seq<bool>)
    requires manager.Valid()
    modifies manager
    ensures manager.Valid()
    ensures |accepted| == |alerts|
    ensures forall i :: 0 <= i < |accepted| ==>
      accepted[i] == (old(manager.Admits(nowMs)) && (i == 0 || (manager.cooldownMs <= 0 && !manager.sendVideo)))
    ensures manager.cooldownMs > 0 ==> forall i, j :: 0 <= i < j < |accepted| ==> !(accepted[i] && accepted[j])
    ensures true !in accepted ==> manager.View() == old(manager.View())
    ensures manager.jobs == old(manager.jobs) + Notices(snapshot, Picked(alerts, accepted), message, manager.alertText)
    ensures true in accepted ==> manager.Started(Timed(buffer), nowMs,
      Caption(Some(message(alerts[if manager.cooldownMs <= 0 && !manager.sendVideo then |alerts| - 1 else 0])), manager.alertText))
  {
    ghost var entry := manager.View();
    ghost var open := manager.Admits(nowMs);
    ghost var repeats := manager.cooldownMs <= 0 && !manager.sendVideo;
    accepted := [];
    var i := 0;
    while i < |alerts|
      invariant 0 <= i <= |alerts| && |accepted| == i
      invariant Forwarding(manager, snapshot, buffer, alerts, accepted, nowMs, message, entry, open, repeats)
    {
      var ok := ForwardStep(manager, snapshot, buffer, alerts, accepted, nowMs, message, entry, open, repeats);
      accepted := accepted + [ok];
      i := i + 1;
    }
    assert alerts[..i] == alerts;
    assert true in accepted <==> i > 0 && open by {
      if i > 0 && open { assert accepted[0]; }
    }
  }

  /** What forwarding the first `|accepted|` alerts has done to a manager that was in
      state `entry`, with `open` its gate at the start and `repeats` whether the gate
      stays open behind an accepted alert. */
  ghost predicate Forwarding<F>(manager: AlertManager<F>, snapshot: F, buffer: seq<(int, F)>, alerts: seq<AlertRequest>,
                                accepted: seq<bool>, nowMs: int, message: AlertRequest -> string,
                                entry: ManagerView<F>, open: bool, repeats: bool)
    requires |accepted| <= |alerts|
    reads manager
  {
    var i := |accepted|;
    && manager.Valid()
    && repeats == (manager.cooldownMs <= 0 && !manager.sendVideo)
    && (forall k :: 0 <= k < i ==> accepted[k] == (open && (k == 0 || repeats)))
    && (i == 0 ==> manager.View() == entry && manager.Admits(nowMs) == open)
    && (i > 0 ==> manager.Admits(nowMs) == (open && repeats))
    && (i > 0 && !open ==> manager.View() == entry)
    && manager.jobs == entry.jobs + Notices(snapshot, Picked(alerts[..i], accepted), message, manager.alertText)
    && (i > 0 && open ==> manager.Started(Timed(buffer), nowMs, Caption(Some(message(alerts[if repeats then i - 1 else 0])), manager.alertText)))
  }

  /** One iteration of the forwarding loop: the next alert goes to `trigger_alert`. */
  method ForwardStep<F>(manager: AlertManager<F>, snapshot: F, buffer: seq<(int, F)>, alerts: seq<AlertRequest>,
                        accepted: seq<bool>, nowMs: int, message: AlertRequest -> string,
                        ghost entry: ManagerView<F>, ghost open: bool, ghost repeats: bool)
    returns (ok: bool)
    requires |accepted| < |alerts|
    requires Forwarding(manager, snapshot, buffer, alerts, accepted, nowMs, message, entry, open, repeats)
    modifies manager
    ensures Forwarding(manager, snapshot, buffer, alerts, accepted + [ok], nowMs, message, entry, open, repeats)
  {
    var i := |accepted|;
    ok := manager.TriggerAlert(snapshot, Timed(buffer), Some(message(alerts[i])), nowMs);
    NoticesNext(snapshot, alerts, accepted, ok, message, manager.alertText);
    assert (accepted + [ok])[..i] == accepted;
  }

  /** One frame of the main loop. `message` renders a request as its alert text; the
      alert manager's clock reading is taken as the frame's time. The tracker's new
      state does not depend on what the alert manager accepted: a tier is recorded as
      alerted even when its alert is refused. The live frame then goes to the manager:
      a recording already running takes it and may finish, handing its clip to a
      sender; a recording started by this frame's first accepted alert starts from
      the pre-event frames of the freshly appended buffer and takes the frame too. */
  method RunFrame<F>(tracker: Tracker<F>, manager: AlertManager<F>, zones: ZoneConfig, dets: seq<Detection>, ts: int,
                     frame: F, annotated: F, message: AlertRequest -> string)
    returns (alerts: seq<AlertRequest>, accepted: seq<bool>)
    requires tracker.Valid() && manager.Valid()
    modifies tracker, manager
    ensures tracker.Valid() && manager.Valid()
    ensures var out := Frame(old(tracker.Snapshot()), zones, dets, ts, old(tracker.maxTotalCount),
                             tracker.missingAlertMs, tracker.reidentifyWindowMs);
      tracker.Snapshot() == out.books && alerts == out.alerts
    ensures |accepted| == |alerts|
    ensures forall i :: 0 <= i < |accepted| ==>
      accepted[i] == (old(manager.Admits(ts)) && (i == 0 || (manager.cooldownMs <= 0 && !manager.sendVideo)))
    ensures manager.cooldownMs > 0 ==> forall i, j :: 0 <= i < j < |accepted| ==> !(accepted[i] && accepted[j])
    ensures old(manager.recording) ==>
      && true !in accepted
      && manager.recordingFrames == old(manager.recordingFrames) + [frame]
      && manager.framesRemaining == old(manager.framesRemaining) - 1
      && manager.recording == (manager.framesRemaining > 0)
      && manager.jobs == old(manager.jobs) + (if manager.recording then [] else [SendVideo(manager.recordingFrames, manager.currentCaption)])
      && manager.lastAlertTime == old(manager.lastAlertTime) && manager.currentCaption == old(manager.currentCaption)
    ensures !old(manager.recording) && true !in accepted ==> manager.View() == old(manager.View())
    ensures true in accepted ==>
      && manager.lastAlertTime == ts
      && manager.currentCaption
         == Caption(Some(message(alerts[if manager.cooldownMs <= 0 && !manager.sendVideo then |alerts| - 1 else 0])), manager.alertText)
    ensures true in accepted && !manager.sendVideo ==>
      && !manager.recording && manager.recordingFrames == [] && manager.framesRemaining == 0
      && manager.jobs == old(manager.jobs) + Notices(annotated, Picked(alerts, accepted), message, manager.alertText)
    ensures true in accepted && manager.sendVideo ==>
      var pre := PreEventFrames(Timed(tracker.videoBuffer), ts, manager.durationMs, manager.rawTarget, manager.rawMinPost);
      && manager.recordingFrames == pre + [frame]
      && manager.framesRemaining == ClipTarget(manager.rawTarget) - |pre| - 1
      && manager.recording == (manager.framesRemaining > 0)
      && manager.jobs == old(manager.jobs) + Notices(annotated, Picked(alerts, accepted), message, manager.alertText)
                         + (if manager.recording then [] else [SendVideo(manager.recordingFrames, manager.currentCaption)])
  {
    alerts := tracker.ProcessFrame(zones, dets, ts, frame);
    accepted := ForwardAlerts(manager, annotated, tracker.videoBuffer, alerts, ts, message);
    manager.ProcessFrame(frame);
  }
}
