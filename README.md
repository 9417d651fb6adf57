# Pool drowning monitor: tracker and alert manager

This project is a Dafny model of the core of a swimming-pool safety monitor.

A person detector and a multi-object tracker hand the main loop, frame by frame, a list of
boxes. Each box has an optional tracker id and a centre point. The main loop:

- gives each track a stable *display id*;
- classifies each box into the safe zone, the pool zone or outside;
- keeps a state per person seen in the pool;
- once a person has been unseen long enough, files a *submerged candidate* so that a
  reappearing track can be re-identified as the same person;
- counts unseen people as missing;
- escalates them through five alert tiers (20 s, 25 s, … 40 s);
- repeats the alert every 10 s after 40 s.

The alerts go to an alert manager. It gates them with one global cooldown. It sends a photo
and, when video is on, records a clip made of resampled pre-event frames from a deque plus
live frames. An operator key ("rescue") clears everyone who is escalated or filed as a
candidate.

The model has two halves:

- **Pure steps.** Each step of the main loop is a function on the value `Bookkeeping.Books`,
  which holds the id map, the next id, the per-person states, the candidates, the missing
  count and the safe-zone id sets.
- **Imperative shell.** The stateful objects are classes. `Tracking.Tracker` holds the main
  loop's variables as fields and implements `ProcessFrame` and `Rescue`.
  `Alerts.AlertManager` implements `trigger_alert` and `process_frame`.

Each loop of the source is a method, and each method is proved equal to a fold or closed-form
function over the same data; the alert manager's methods state their whole new state. The properties are lemmas about those functions.

How the source's types are modelled:

- Python's insertion-ordered dictionaries are `Common.Dict`: a map plus its key order. The
  loops over `person_state` and `submerged_persons` visit entries in that order.
- Times are integer milliseconds.
- Distances are compared as integer squared distances.
- Zones are membership predicates on points.
- The detector's boxes are a `seq<Detection>` parameter.

## Model

| member | source | states |
|---|---|---|
| Common.SqDist | main.py:493 | the squared distance is zero exactly when the two points coincide, so it orders candidates as the Euclidean distance does |
| Common.Dict.Put | main.py:503 | `d[k] = v` on an insertion-ordered dict: the entry is set, a new key is appended to the order and an existing key keeps its place |
| Common.Dict.Remove | main.py:508 | `del d[k]` for the present keys of a set: those entries are gone and the other keys keep their relative order |
| Common.RemoveRemove | main.py:768-769 | deleting keys in two rounds is deleting them in one |
| Zones.InPool | main.py:472 | a point is in the pool when no pool zone is set or the pool zone contains it |
| Zones.InSafe | main.py:473 | a point is safe only when a safe zone is set and contains it |
| Zones.Classify | main.py:472-473 | a box is Safe exactly when inside the safe zone; Pool exactly when not Safe and inside the pool zone or no pool zone is set; Outside only when a pool zone exists and excludes the point |
| Zones.WasInPool | main.py:637 | an unseen person's last position counts as pool when no pool zone is set or the pool zone contains it |
| Tiers.Threshold | main.py:386-392 | the threshold of level k is the ladder's entry for level k (20 s + 5 s per level) |
| Tiers.NextTier | main.py:661-676 | the tier loop fires exactly when the level is below 5 and the missing time meets the next level's threshold, and then fires level + 1 only |
| Identity.FreshState | main.py:579-588 | a new pool person's state: the display id, seen now at this position, level 0, nothing logged, acknowledged or counted |
| Identity.Eligible | main.py:491 | a candidate may be matched while its age is at most the re-identification window |
| Identity.BestOf | main.py:487-496 | a chosen candidate is listed and within the re-identification window |
| Identity.BestOfNone | main.py:487-499 | the scan finds nothing exactly when no candidate is within the window (no distance bound applies) |
| Identity.BestOfIsBest | main.py:487-496 | the found candidate is eligible, no eligible candidate is nearer, and every eligible candidate listed before it is strictly farther (ties go to the first) |
| Identity.FindBestCandidate | main.py:487-496 | the loop with `best_dist` and `best_candidate` computes `BestOf` |
| Identity.BestCandidateUnique | main.py:487-496 | at most one candidate meets the scan's specification, so the result is determined |
| Bookkeeping.Books.Restore | main.py:499-513 | re-identification binds the track to the candidate's id, restores its state seen now and not counted, consumes the candidate and lowers the missing count by one, floored at 0 |
| Bookkeeping.Books.Mint | main.py:517-541 | a new track is bound to the next display id and the counter moves on by one |
| Bookkeeping.Books.BookSafe | main.py:547-562 | a safe-zone sighting marks the id as exited, removes its candidate and, exactly when there was one, lowers the missing count by one, floored at 0; person states and id bindings are untouched |
| Bookkeeping.Books.BookPool | main.py:576-599 | a pool sighting creates the state if absent and resets it: seen now at this position, level 0, no repeat time, not acknowledged, nothing logged |
| Bookkeeping.Sighted | main.py:590-599 | the reset of a pool sighting keeps the display id and the missing mark |
| Bookkeeping.MayMint | main.py:518-519 | a new pool track with no candidate to match gets an id when no maximum is recorded yet, fewer people are visible than the maximum, or the next id is within it |
| Bookkeeping.Assign | main.py:479-544 | a resolved track ends up bound to the reported display id |
| Bookkeeping.AssignSpec | main.py:479-543 | Known iff already mapped, with nothing changed; a new track outside the pool is minted the next id; a new pool track is re-identified iff some candidate is eligible, and then as the best candidate; otherwise it is minted iff the occupancy cap allows it; a skipped box changes nothing |
| Bookkeeping.Book | main.py:545-599 | booking a sighting keeps the books consistent |
| Bookkeeping.Step | main.py:451-599 | one box keeps the books consistent; its effects are stated by StepGrows, StepSightedOnly, StepPoolSighting and StepSafeSighting |
| Bookkeeping.Scanned | main.py:450-599 | the box loop keeps the books consistent |
| Bookkeeping.AssignGrows | main.py:479-543 | assignment adds at most the box's binding, to a consumed candidate or the next id, and only consumes candidates |
| Bookkeeping.BookGrows | main.py:545-599 | booking leaves ids alone, only consumes candidates and only adds exited ids |
| Bookkeeping.StepGrows | main.py:451-599 | one box only grows the ids, only consumes candidates and only adds exited ids |
| Bookkeeping.ScannedGrows | main.py:450-599 | the same across the whole box loop: bindings are never changed or dropped, new ones go to former candidates or fresh distinct ids |
| Bookkeeping.AssignSightedOnly | main.py:499-513 | assignment touches only the state of its own track |
| Bookkeeping.ReidentifiedKeepsOldTrack | main.py:499-513 | after re-identification the track the person was filed from keeps its state and binding, so two tracks carry the same display id |
| Bookkeeping.BookSightedOnly | main.py:576-599 | booking touches only the state of its own track |
| Bookkeeping.StepSightedOnly | main.py:451-599 | one box changes only the states of sighted tracks and drops none |
| Bookkeeping.ScannedSightedOnly | main.py:450-599 | across the box loop only the states of tracks sighted in this frame change |
| Bookkeeping.StepPoolSighting | main.py:576-599 | a resolved pool box is seen, counted in the pool and its person's state is freshly reset at its centre |
| Bookkeeping.StepSafeSighting | main.py:547-558 | a safe-zone box is always resolved, counted in the safe zone, marked exited, its candidate gone and no person state touched |
| Bookkeeping.ResolveIdentity | main.py:479-543 | the identity-resolution code (mapped id, best candidate, occupancy cap, fresh id) computes `Assign` |
| Bookkeeping.HandleDetection | main.py:451-599 | the box-handling code computes `Step` |
| Bookkeeping.DetectionPass | main.py:450-599 | the box loop computes `Scanned` over the boxes in detector order |
| Missing.AtRisk | main.py:637-638 | an unseen person is at risk when last seen in the pool and not exited to the safe zone under the same display id |
| Missing.LogsCandidate | main.py:641-642 | a candidate is filed for an at-risk person unseen for at least 1 s, with none filed under the id and none filed since the last sighting |
| Missing.CountsMissing | main.py:652-653 | an at-risk person is newly counted once the missing threshold is met and not already counted |
| Missing.TierFires | main.py:660-669 | a tier fires for an unacknowledged at-risk person below level 5 whose missing time meets the next level's threshold |
| Missing.RepeatFires | main.py:660-681 | the repeat alert fires for an unacknowledged at-risk person already at level 5, after 40 s missing and 10 s after the last alert |
| Missing.Evaluated | main.py:632-685 | the state after one evaluation: a candidate logged or a missing mark set only as decided, the level up by exactly one when a tier fires, the repeat time stamped when a tier or a repeat fires, and a state neither at risk nor logging unchanged |
| Missing.EvaluationAlerts | main.py:660-685 | at most one alert per evaluation, exactly when a tier or a repeat fires; a tier alert names level + 1; alerts only for unacknowledged people at risk |
| Missing.Evaluate | main.py:632-685 | the evaluation code decides logging and counting as specified and computes `Evaluated` and `EvaluationAlerts` |
| Missing.ExpiredIds | main.py:688-689 | the expired ids are exactly the candidates older than the window |
| Missing.PurgeCandidates | main.py:688-690 | the purge deletes exactly the expired candidates, keeps the order of the rest, and leaves only candidates within the window |
| Missing.Examine | main.py:628-690 | one iteration keeps the books consistent and leaves the ids, the key order and the safe sets unchanged |
| Missing.Refiled | main.py:641-690 | after filing and purging, every candidate is filed under its own id, within the window and consistent; a candidate filed now and still within the window is the examined state |
| Missing.ExamineTrack | main.py:632-690 | one iteration's code (evaluation, filing, count, purge) computes `Examine` |
| Missing.Swept | main.py:628-690 | the pass keeps the books consistent and leaves the ids, the key order and the safe sets unchanged |
| Missing.MissingPass | main.py:628-690 | the pass loop computes `Swept` over the state keys in insertion order |
| Missing.ExamineEvaluates | main.py:632-685 | one iteration evaluates the examined state and no other |
| Missing.SweptEvaluates | main.py:628-690 | every unsighted track is evaluated exactly once from its state before the pass; sighted ones are untouched; none is added or dropped |
| Missing.ExamineCounts | main.py:652-655 | one iteration raises the missing count exactly when it newly counts the person |
| Missing.SweptCountsOnce | main.py:628-656 | the missing count grows by exactly the number of people newly counted, so each person is counted once between sightings |
| Missing.ExaminePurges | main.py:688-690 | after an iteration no candidate older than the window is left |
| Missing.SweptPurges | main.py:628-690 | when every state was sighted the pass changes nothing; otherwise no expired candidate survives it |
| Missing.SweptAlertsAtRisk | main.py:660-685 | every requested alert is for an unseen, unacknowledged person at risk |
| FrameWindow.ClipTarget | src/alert_manager.py:96-98 | the clip target is at least one frame |
| FrameWindow.InWindowEmpty | src/alert_manager.py:108-109 | the filtered window is empty exactly when every entry is older than its start |
| FrameWindow.WholeBufferInWindow | src/alert_manager.py:107-108 | when the oldest entry is in the window, every entry of a chronological buffer is |
| FrameWindow.WindowIsSuffix | src/alert_manager.py:106-110 | in a chronological buffer the time window is the newest frames |
| FrameWindow.WindowFallback | src/alert_manager.py:106-110 | a timed buffer whose entries are all older than the window gives its newest frame alone |
| FrameWindow.InWindowSplit | src/alert_manager.py:106-108 | in a chronological buffer every entry before the window is older than its start and every entry from the window on is not |
| FrameWindow.TimedWindow | src/alert_manager.py:106-110 | the timed window of a chronological buffer is the frames from the split point on, or the newest frame alone when no entry is recent enough |
| FrameWindow.Window | src/alert_manager.py:103-113 | the window is non-empty and no longer than the buffer; an untimed buffer gives its last `target` frames (all when shorter) |
| FrameWindow.RoundHalfEven | src/alert_manager.py:119 | Python's `round` of a ratio: within one half of it |
| FrameWindow.RoundHalfEvenTies | src/alert_manager.py:119 | at an exact tie, `round` picks the even neighbour of the two |
| FrameWindow.ResampleIndex | src/alert_manager.py:118-119 | the `linspace` index is in range, the first is 0 and the last is n - 1 |
| FrameWindow.ResampleIndexIncreasing | src/alert_manager.py:118-119 | the resampling indices never go backwards |
| FrameWindow.Resample | src/alert_manager.py:117-121 | exactly `target` frames, keeping the first and, for a target of two or more, the last frame of the window |
| FrameWindow.ResampleIsSubsequence | src/alert_manager.py:117-121 | resampled frames keep the window's order |
| FrameWindow.Extract | src/alert_manager.py:92-124 | an empty buffer gives nothing; otherwise between 1 and the target frames, the window itself when it is short enough, else exactly the target frames, frame k being the window frame at `ResampleIndex(k)`, which keeps both ends |
| FrameWindow.NewestFrameExtracted | src/alert_manager.py:106-121 | with a target of two or more, the newest buffered frame is the last frame extracted |
| Alerts.MinPostFrames | src/alert_manager.py:250-254 | at least one live frame, below the target when the target is two or more, and the configured count when it fits |
| Alerts.MaxPreFrames | src/alert_manager.py:256-257 | pre-event and live frames add up to the target when the target is two or more |
| Alerts.PreEventFrames | src/alert_manager.py:256-259 | the newest extracted frames, at most the pre-event allowance, empty exactly when the buffer is |
| Alerts.PreEventEndsWithNewest | src/alert_manager.py:256-259 | the pre-event frames of a chronological buffer end with its newest frame |
| Alerts.Caption | src/alert_manager.py:229-230 | the caption is the custom text when given and not empty, the configured alert text otherwise |
| Alerts.AlertManager.Admits | src/alert_manager.py:224 | an alert passes the gate outside the cooldown after the last accepted alert and while no clip is recording |
| Alerts.AlertManager.constructor | src/alert_manager.py:14-62 | the configuration is kept; no alert time, no recording, no jobs |
| Alerts.AlertManager.ProcessFrame | src/alert_manager.py:64-90 | while recording, each live frame is appended and one fewer is due; when none is due the clip goes to a video job with its caption; outside a recording nothing changes |
| Alerts.AlertManager.TriggerAlert | src/alert_manager.py:221-265 | accepted exactly outside the cooldown and while not recording, with nothing changed otherwise; an accepted alert stamps its time, sets the caption, queues the photo job and, with video on, starts a recording seeded with the pre-event frames and the remaining count |
| Rescuing.NeedsRescue | main.py:753 | rescue applies to a person with an alert level above 0 or a filed candidate |
| Rescuing.Collected | main.py:751-766 | the candidates left are a consistent subset of the original ones |
| Rescuing.CollectedIds | main.py:751-757 | the reported ids are exactly the display ids of people needing rescue |
| Rescuing.CollectedTracks | main.py:751-757 | the listed tracks are exactly those needing rescue |
| Rescuing.CollectedCands | main.py:759-761 | exactly the candidates filed under reported ids are deleted |
| Rescuing.CollectedMissing | main.py:763-765 | lowering the count one at a time, floored at 0, is lowering it by the number of counted rescued people, floored once |
| Rescuing.CollectedNone | main.py:751-766 | with nobody needing rescue the loop collects nothing |
| Rescuing.Rescued | main.py:745-778 | the rescue key keeps the books consistent |
| Rescuing.RescuedSpec | main.py:751-769 | exactly the states needing rescue are removed and the rest are unchanged; exactly their ids are reported and their candidates deleted; the missing count drops by the counted ones, floored at 0; the id bookkeeping is untouched |
| Rescuing.RescuedNoop | main.py:751-769 | with nobody needing rescue the key changes nothing |
| Rescuing.RescuedTwice | main.py:745-778 | pressing the key twice in a row: the second press does nothing |
| Rescuing.CollectRescues | main.py:751-766 | the first loop computes `Collected` |
| Rescuing.DeleteTracks | main.py:768-769 | the deletion loop removes exactly the listed tracks |
| Tracking.BoundedAppend | main.py:418 | `deque(maxlen)` append: the newest `cap` entries survive, ending with the new one |
| Tracking.Frame | main.py:443-690 | a frame keeps the books consistent |
| Tracking.FrameGrowsIds | main.py:479-549 | across a frame display ids only grow, with fresh ids distinct, and exited ids are never cleared |
| Tracking.FrameEvaluatesUnseen | main.py:628-690 | a frame drops no state, and every state of an unsighted track is one evaluation of its former state |
| Tracking.EvaluatedLevelStep | main.py:660-676 | an evaluation raises the level by at most one, never above 5, and only when that level's threshold is met |
| Tracking.Tracker.constructor | main.py:363-383 | the empty initial state with next display id 1 |
| Tracking.Tracker.Load | main.py:443-690 | writing the books back changes no other field |
| Tracking.Tracker.ProcessFrame | main.py:418-690 | one frame: the buffer append, the books and alerts of `Frame`, this frame's pool and safe ids, the raised maxima, growing ids and exited ids |
| Tracking.Tracker.Rescue | main.py:745-778 | the books and the reported ids are those of `Rescued`; the buffer, maxima and active sets are untouched |
| Monitor.ForwardAlerts | main.py:660-685 | every alert goes to `trigger_alert` at the same clock reading, in order: the first is accepted exactly when the gate was open and a later one only when the gate stays open behind it (no cooldown, no video); the jobs gain the notifications of the accepted alerts in order, the caption is the last accepted one's, a recording starts from the pre-event frames when video is on, and with none accepted the manager is unchanged |
| Monitor.ForwardStep | main.py:672 | forwarding one more alert keeps the account of what forwarding has done so far |
| Monitor.RunFrame | main.py:418-693 | a whole frame: the tracker ends as `Frame` says, whatever the alert manager accepted; the manager takes the alerts as `ForwardAlerts` states and then the live frame: a running recording is extended and may finish with a video job, a recording started this frame starts from the pre-event frames plus the live frame, otherwise nothing changes |

## Left out

- Telegram: sending messages, photos and videos over the network is not modelled. Accepted alerts become `Job` values queued on the alert manager, and the sender threads are not modelled.
- Threads and locks: the alert manager's lock and its worker threads are not modelled. Every operation is sequential.
- Detection: the YOLO detector and the tracker are not modelled. Their boxes are the `dets` parameter.
- Drawing: OpenCV drawing, the window and key handling are not modelled, nor is interactive zone setup with the 'z' key. Zones are a parameter, and a zone is a membership predicate in place of the polygon test.
- Files and clips: file and video I/O, frame copying and clip encoding are not modelled. Frames are an opaque type parameter.
- Logging: console printing is not modelled.
- Floating point: time is integer milliseconds. Distances are compared squared and exactly. The `linspace` index is computed as an exact rational rounded half-to-even, so float rounding error is not modelled.
- Clock: the alert manager's clock reading is taken to be the frame's timestamp in `Monitor.RunFrame`.
- Alert texts: the tier, repeat and rescue message texts are a `message` parameter. `Tracking.Tracker.Rescue` returns the rescued ids instead of sending a message.
- `REIDENTIFY_DISTANCE_PX`: the setting is kept as a field, but the source never uses it, so matching has no distance bound.
- Dead store: the discard from `active_pool_ids` at main.py:566 is not modelled. The set is reassigned at main.py:615 before anyone reads it.
- Untimed buffer: the untimed (frame-only) pre-buffer form of the alert manager is modelled in `FrameWindow`, but the main loop always passes timed entries.

Points where the code differs from its prose description:

- Re-identification picks the nearest eligible candidate at any distance.
- The occupancy cap also allows minting while no maximum has been recorded yet (`max_total_count == 0`).
- The candidate purge runs only when at least one person state is unseen in the frame.
- An evaluation fires one tier at most: level + 1, even when several thresholds have passed.
- Only a pool sighting resets a person's alert level. A safe-zone sighting does not.
- A pool sighting does not clear the missing mark of a track that is already known.
- Re-identification and a safe-zone sighting lower the missing count for any consumed candidate, counted or not. A candidate is filed after 1 s unseen but counted only after the missing threshold, so a person who resurfaces between the two lowers the count while someone else may still be missing.
- With a clip target of one, a finished clip holds two frames.
- Re-identification leaves the old track's state in `person_state` under the same display id. The missing pass goes on evaluating it: it can fire tier alerts from 20 s, repeat alerts every 10 s after 40 s, and be counted missing at `MISSING_ALERT_SEC`, while the person is visible under the new track (`Bookkeeping.ReidentifiedKeepsOldTrack`, `Missing.SweptEvaluates`).
