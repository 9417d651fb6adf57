/** The alert gate and clip recorder (src/alert_manager.py:10-83, 221-265).
    Sending happens on background threads in the source; here every thread start is
    recorded as a `Job` appended to the manager's outbox. Times are milliseconds. */
module Alerts {
  import opened Common
  import opened FrameWindow

  /** Work handed to a background sender: the text-and-photo notification of an
      accepted alert, or a finished clip with its caption. */
  datatype Job<F> = SendImmediate(snapshot: F, caption: string) | SendVideo(frames: seq<F>, caption: string)

  /** `min_post_frames`: `round(fps)` given as `rawMinPost`, raised to 1, and lowered
      below the clip target whenever the target leaves room for a pre-event frame. */
  function MinPostFrames(rawTarget: int, rawMinPost: int): (m: nat)
    ensures m >= 1
    ensures ClipTarget(rawTarget) >= 2 ==> m < ClipTarget(rawTarget)
    ensures ClipTarget(rawTarget) == 1 ==> m == 1
    ensures 1 <= rawMinPost < ClipTarget(rawTarget) ==> m == rawMinPost
  {
    var total := ClipTarget(rawTarget);
    var m := if rawMinPost < 1 then 1 else rawMinPost;
    if m >= total then Max(1, total - 1) else m
  }

  /** `max_pre_frames`: the room the clip target leaves for pre-event frames, at least 1.
      When the target is at least 2, pre-event and reserved post-event frames fill the
      target exactly; when it is 1, one pre-event frame is still allowed. */
  function MaxPreFrames(rawTarget: int, rawMinPost: int): (m: nat)
    ensures m >= 1
    ensures m <= ClipTarget(rawTarget)
    ensures ClipTarget(rawTarget) >= 2 ==> m + MinPostFrames(rawTarget, rawMinPost) == ClipTarget(rawTarget)
  {
    Max(1, ClipTarget(rawTarget) - MinPostFrames(rawTarget, rawMinPost))
  }

  /** The frames an accepted video alert starts its clip with: the extracted window,
      cut to its last `MaxPreFrames` frames when longer. */
  function PreEventFrames<F>(buf: PreBuffer<F>, nowMs: int, durationMs: int, rawTarget: int, rawMinPost: int): (r: seq<F>)
    ensures var ext := Extract(buf, nowMs, durationMs, rawTarget);
      && |r| == (if |ext| <= MaxPreFrames(rawTarget, rawMinPost) then |ext| else MaxPreFrames(rawTarget, rawMinPost))
      && r == ext[|ext| - |r|..]
    ensures |r| <= MaxPreFrames(rawTarget, rawMinPost)
    ensures Size(buf) == 0 <==> r == []
  {
    var ext := Extract(buf, nowMs, durationMs, rawTarget);
    var maxPre := MaxPreFrames(rawTarget, rawMinPost);
    if |ext| > maxPre then ext[|ext| - maxPre..] else ext
  }

  /** With the main loop's chronological buffer and a clip target of at least two, the
      clip always starts from the newest buffered frame backwards: its last pre-event
      frame is the frame captured with the triggering detection pass. */
  lemma PreEventEndsWithNewest<F>(entries: seq<(int, F)>, nowMs: int, durationMs: int, rawTarget: int, rawMinPost: int)
    requires entries != [] && Chronological(entries) && ClipTarget(rawTarget) >= 2
    ensures var r := PreEventFrames(Timed(entries), nowMs, durationMs, rawTarget, rawMinPost);
      r != [] && r[|r| - 1] == entries[|entries| - 1].1
  {
    NewestFrameExtracted(entries, nowMs, durationMs, rawTarget);
    var ext := Extract(Timed(entries), nowMs, durationMs, rawTarget);
    var r := PreEventFrames(Timed(entries), nowMs, durationMs, rawTarget, rawMinPost);
    assert r[|r| - 1] == ext[|ext| - 1];
  }

  /** The caption of an accepted alert: the custom text when one is given and not
      empty, the configured alert text otherwise. */
  function Caption(customText: Option<string>, alertText: string): string
  {
    if customText.Some? && customText.value != "" then customText.value else alertText
  }

  /** What the manager's methods change: the last alert time, the recording in
      progress, the caption and the jobs started. */
  datatype ManagerView<F> = ManagerView(lastAlertTime: int, recording: bool, recordingFrames: seq<F>,
                                        framesRemaining: int, currentCaption: string, jobs: seq<Job<F>>)

  class AlertManager<F> {
    const alertText: string
    const sendMessage: bool
    const sendPhoto: bool
    const sendVideo: bool
    /** `video_duration_sec`, the length of the pre-event time window. */
    const durationMs: int
    /** `round(video_duration_sec * video_fps)`, before clamping. */
    const rawTarget: int
    /** `round(video_fps * 1.0)`, before clamping. */
    const rawMinPost: int
    const cooldownMs: int

    var lastAlertTime: int
    var recording: bool
    var recordingFrames: seq<F>
    var framesRemaining: int
    var currentCaption: string
    /** Background work started so far, in order. */
    var jobs: seq<Job<F>>

    /** While a clip is being recorded, the frames held and the frames still due add
        up to the clip target, and at least one live frame is still due whenever the
        target is at least two. */
    ghost predicate Valid()
      reads this
    {
      && (recording ==> sendVideo)
      && (recording ==> framesRemaining >= 0)
      && (recording ==> |recordingFrames| + framesRemaining == ClipTarget(rawTarget))
      && (recording && ClipTarget(rawTarget) >= 2 ==> framesRemaining >= 1)
    }

    function View(): ManagerView<F>
      reads this
    {
      ManagerView(lastAlertTime, recording, recordingFrames, framesRemaining, currentCaption, jobs)
    }

    /** The gate of `trigger_alert`: outside the cooldown after the last accepted alert
        and not recording a clip. */
    predicate Admits(nowMs: int)
      reads this
    {
      !(nowMs - lastAlertTime < cooldownMs || recording)
    }

    /** The state right after accepting an alert at `nowMs` with caption `caption`:
        the alert time and caption are set, and a recording seeded with the pre-event
        frames of `preBuffer` runs exactly when video is on, with the live frames still
        due to reach the clip target. */
    ghost predicate Started(preBuffer: PreBuffer<F>, nowMs: int, caption: string)
      reads this
    {
      && lastAlertTime == nowMs
      && currentCaption == caption
      && (!sendVideo ==> !recording && recordingFrames == [] && framesRemaining == 0)
      && (sendVideo ==>
            && recording
            && recordingFrames == PreEventFrames(preBuffer, nowMs, durationMs, rawTarget, rawMinPost)
            && framesRemaining == ClipTarget(rawTarget) - |recordingFrames|)
    }

    constructor (alertText: string, sendMessage: bool, sendPhoto: bool, sendVideo: bool,
                 durationMs: int, rawTarget: int, rawMinPost: int, cooldownMs: int)
      ensures Valid()
      ensures this.alertText == alertText && this.sendMessage == sendMessage
      ensures this.sendPhoto == sendPhoto && this.sendVideo == sendVideo
      ensures this.durationMs == durationMs && this.rawTarget == rawTarget
      ensures this.rawMinPost == rawMinPost && this.cooldownMs == cooldownMs
      ensures lastAlertTime == 0 && !recording && recordingFrames == [] && framesRemaining == 0
      ensures currentCaption == alertText && jobs == []
    {
      this.alertText := alertText;
      this.sendMessage := sendMessage;
      this.sendPhoto := sendPhoto;
      this.sendVideo := sendVideo;
      this.durationMs := durationMs;
      this.rawTarget := rawTarget;
      this.rawMinPost := rawMinPost;
      this.cooldownMs := cooldownMs;
      lastAlertTime := 0;
      recording := false;
      recordingFrames := [];
      framesRemaining := 0;
      currentCaption := alertText;
      jobs := [];
    }

    /** `process_frame`: outside a recording nothing happens. While recording, the live
        frame is appended and one fewer frame is due; when none is due any more the
        recording ends and the whole clip is handed to a sender with the caption of
        the alert that started it. At least one live frame always enters a clip, so a
        finished clip holds the target count, or one more than its pre-event frames
        when those alone already reach a target of one. */
    method ProcessFrame(frame: F)
      requires Valid()
      modifies this
      ensures Valid()
      ensures !old(recording) ==> unchanged(this)
      ensures old(recording) ==>
        && recordingFrames == old(recordingFrames) + [frame]
        && framesRemaining == old(framesRemaining) - 1
        && recording == (framesRemaining > 0)
        && jobs == old(jobs) + (if recording then [] else [SendVideo(recordingFrames, currentCaption)])
        && lastAlertTime == old(lastAlertTime) && currentCaption == old(currentCaption)
      ensures old(recording) && !recording ==>
        |recordingFrames| == Max(ClipTarget(rawTarget), |old(recordingFrames)| + 1)
    {
      if recording {
        recordingFrames := recordingFrames + [frame];
        framesRemaining := framesRemaining - 1;
        if framesRemaining <= 0 {
          recording := false;
          jobs := jobs + [SendVideo(recordingFrames, currentCaption)];
        }
      }
    }

    /** `trigger_alert`: one global gate. Inside the cooldown after the last accepted
        alert, or while a clip is recording, the alert is refused and nothing changes.
        Otherwise the alert is accepted: its time is remembered, its caption chosen, the
        text-and-photo job started, and, when video is on, a recording is started with
        the pre-event frames and the number of live frames still due to reach the clip
        target. */
    method TriggerAlert(snapshot: F, preBuffer: PreBuffer<F>, customText: Option<string>, nowMs: int)
      returns (accepted: bool)
      requires Valid()
      modifies this
      ensures Valid()
      ensures accepted <==> old(Admits(nowMs))
      ensures !accepted ==> unchanged(this)
      ensures accepted ==>
        && Started(preBuffer, nowMs, Caption(customText, alertText))
        && jobs == old(jobs) + [SendImmediate(snapshot, currentCaption)]
    {
      if !Admits(nowMs) {
        return false;
      }
      lastAlertTime := nowMs;
      var text := Caption(customText, alertText);
      currentCaption := text;
      jobs := jobs + [SendImmediate(snapshot, text)];

      if !sendVideo {
        recording := false;
        recordingFrames := [];
        framesRemaining := 0;
        return true;
      }

      recordingFrames := PreEventFrames(preBuffer, nowMs, durationMs, rawTarget, rawMinPost);
      framesRemaining := Max(0, ClipTarget(rawTarget) - |recordingFrames|);
      recording := true;
      return true;
    }
  }
}
