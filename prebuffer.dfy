/** Selection of pre-event frames from the ring buffer
    (src/alert_manager.py:92-124, `_extract_frames_from_prebuffer`). Times are milliseconds. */
module FrameWindow {
  import opened Common

  /** The deque handed to the extractor: the main loop stores (timestamp, frame)
      pairs; the extractor also accepts a deque of bare frames. */
  datatype PreBuffer<F> = Timed(entries: seq<(int, F)>) | Untimed(frames: seq<F>)

  function Size<F>(buf: PreBuffer<F>): nat
  {
    match buf
    case Timed(e) => |e|
    case Untimed(fs) => |fs|
  }

  /** The frame count the extractor aims for, `round(duration * fps)` given as
      `rawTarget`, raised to 1 when it is not positive. */
  function ClipTarget(rawTarget: int): (t: nat)
    ensures t >= 1
    ensures rawTarget >= 1 ==> t == rawTarget
    ensures rawTarget < 1 ==> t == 1
  {
    if rawTarget <= 0 then 1 else rawTarget
  }

  /** The frames of a timed buffer, in buffer order. */
  function Frames<F>(entries: seq<(int, F)>): (fs: seq<F>)
    ensures |fs| == |entries|
    ensures forall i :: 0 <= i < |entries| ==> fs[i] == entries[i].1
  {
    seq(|entries|, i requires 0 <= i < |entries| => entries[i].1)
  }

  /** The frames whose timestamp is at or after `start`, in buffer order. */
  function InWindow<F>(entries: seq<(int, F)>, start: int): (w: seq<F>)
    ensures |w| <= |entries|
  {
    if entries == [] then []
    else if entries[0].0 >= start then [entries[0].1] + InWindow(entries[1..], start)
    else InWindow(entries[1..], start)
  }

  /** The window is empty exactly when every entry is older than its start. */
  lemma {:induction false} InWindowEmpty<F>(entries: seq<(int, F)>, start: int)
    ensures InWindow(entries, start) == [] <==> forall i :: 0 <= i < |entries| ==> entries[i].0 < start
  {
    if entries != [] {
      var rest := entries[1..];
      InWindowEmpty(rest, start);
      assert forall i :: 1 <= i < |entries| ==> entries[i] == rest[i - 1];
    }
  }

  /** Timestamps never go backwards along the buffer (the main loop appends the
      current frame time on every iteration). */
  ghost predicate Chronological<F>(entries: seq<(int, F)>)
  {
    forall i, j :: 0 <= i < j < |entries| ==> entries[i].0 <= entries[j].0
  }

  /** In a chronological buffer, once the first entry is in the window so is every entry. */
  lemma {:induction false} WholeBufferInWindow<F>(entries: seq<(int, F)>, start: int)
    requires Chronological(entries)
    requires entries != [] && entries[0].0 >= start
    ensures InWindow(entries, start) == Frames(entries)
  {
    if |entries| > 1 {
      assert entries[1..][0].0 == entries[1].0 >= entries[0].0;
      WholeBufferInWindow(entries[1..], start);
    }
    assert Frames(entries) == [entries[0].1] + Frames(entries[1..]);
  }

  /** In a chronological buffer the time window is a suffix of the buffer: the most
      recent frames. */
  lemma {:induction false} WindowIsSuffix<F>(entries: seq<(int, F)>, start: int)
    requires Chronological(entries)
    ensures var w := InWindow(entries, start);
      w == Frames(entries)[|entries| - |w|..]
  {
    if entries == [] {
    } else if entries[0].0 >= start {
      WholeBufferInWindow(entries, start);
    } else {
      WindowIsSuffix(entries[1..], start);
      var w := InWindow(entries, start);
      assert Frames(entries)[1..] == Frames(entries[1..]);
      assert Frames(entries)[|entries| - |w|..] == Frames(entries[1..])[|entries| - 1 - |w|..];
    }
  }

  /** In a chronological buffer the window splits the buffer in two: every entry
      before the window's first frame is older than `start`, every entry from it on
      is at or after `start`. */
  lemma {:induction false} InWindowSplit<F>(entries: seq<(int, F)>, start: int)
    requires Chronological(entries)
    ensures var k := |entries| - |InWindow(entries, start)|;
      && (forall i :: 0 <= i < k ==> entries[i].0 < start)
      && (forall i :: k <= i < |entries| ==> entries[i].0 >= start)
  {
    if entries == [] {
    } else if entries[0].0 >= start {
      WholeBufferInWindow(entries, start);
    } else {
      var rest := entries[1..];
      InWindowSplit(rest, start);
      assert forall i :: 1 <= i < |entries| ==> entries[i] == rest[i - 1];
    }
  }

  /** A timed window of a chronological buffer: the frames from the split point of
      `InWindowSplit` on, or the newest frame alone when every entry is older than
      the window. */
  lemma TimedWindow<F>(entries: seq<(int, F)>, nowMs: int, durationMs: int, target: nat)
    requires entries != [] && Chronological(entries) && target >= 1
    ensures var k := |entries| - |InWindow(entries, nowMs - durationMs)|;
      Window(Timed(entries), nowMs, durationMs, target)
      == if k < |entries| then Frames(entries)[k..] else [entries[|entries| - 1].1]
  {
    var w := InWindow(entries, nowMs - durationMs);
    if w != [] {
      WindowIsSuffix(entries, nowMs - durationMs);
    }
  }

  /** The window before resampling. A timed buffer keeps the frames within
      `durationMs` of `nowMs`, or only its newest frame when none is; an untimed
      buffer keeps its last `target` frames. */
  function Window<F>(buf: PreBuffer<F>, nowMs: int, durationMs: int, target: nat): (w: seq<F>)
    requires Size(buf) > 0 && target >= 1
    ensures 1 <= |w| <= Size(buf)
    ensures buf.Untimed? ==> |w| == (if target < Size(buf) then target else Size(buf)) && w == buf.frames[Size(buf) - |w|..]
  {
    match buf
    case Timed(entries) =>
      var w := InWindow(entries, nowMs - durationMs);
      if w == [] then [entries[|entries| - 1].1] else w
    case Untimed(frames) =>
      if target < |frames| then frames[|frames| - target..] else frames
  }

  /** When every entry of a timed buffer is older than the window, the window falls
      back to the newest frame alone. */
  lemma WindowFallback<F>(entries: seq<(int, F)>, nowMs: int, durationMs: int, target: nat)
    requires entries != [] && target >= 1
    requires forall i :: 0 <= i < |entries| ==> entries[i].0 < nowMs - durationMs
    ensures Window(Timed(entries), nowMs, durationMs, target) == [entries[|entries| - 1].1]
  {
    InWindowEmpty(entries, nowMs - durationMs);
  }

  /** Python's `round` on a non-negative ratio `p / q`: the nearest integer, ties to
      the even neighbour. Its distance to `p / q` is at most one half. */
  function RoundHalfEven(p: nat, q: nat): (r: nat)
    requires q >= 1
    ensures 2 * (q * r) >= 2 * p - q
    ensures 2 * (q * r) <= 2 * p + q
  {
    var d, m := p / q, p % q;
    assert p == q * d + m;
    assert q * (d + 1) == q * d + q;
    if 2 * m < q then d
    else if 2 * m > q then d + 1
    else if d % 2 == 0 then d
    else d + 1
  }

  /** At an exact tie (`p / q` ends in one half), `RoundHalfEven` picks the even
      neighbour, as Python's `round` does: `round(2.5)` is 2. */
  lemma {:induction false} RoundHalfEvenTies(p: nat, q: nat)
    requires q >= 1 && 2 * (p % q) == q
    ensures RoundHalfEven(p, q) % 2 == 0
    ensures RoundHalfEven(p, q) == p / q || RoundHalfEven(p, q) == p / q + 1
  {
  }

  /** A multiple of a positive `q` that stays within half of `q` of another multiple
      is that multiple. */
  lemma HalfStepPins(q: nat, x: int, m: int)
    requires q >= 1
    requires 2 * (q * x) <= 2 * (q * m) + q
    requires 2 * (q * x) >= 2 * (q * m) - q
    ensures x == m
  {
    if x > m {
      MulMonotone(q, m + 1, x);
      MulSucc(q, m);
    } else if x < m {
      MulMonotone(q, x + 1, m);
      MulSucc(q, x);
    }
  }

  lemma MulMonotone(q: nat, a: int, b: int)
    requires a <= b
    ensures q * a <= q * b
  {
    assert q * b - q * a == q * (b - a);
  }

  lemma MulSucc(q: int, a: int)
    ensures q * (a + 1) == q * a + q
  {
  }

  /** The index of the `k`-th resampled frame: `int(round(linspace(0, n - 1, target)[k]))`,
      that is `k * (n - 1) / (target - 1)` rounded, and 0 when `target` is 1. */
  function ResampleIndex(k: nat, n: nat, target: nat): (idx: nat)
    requires 1 <= target < n && k < target
    ensures idx < n
    ensures k == 0 ==> idx == 0
    ensures k == target - 1 && target >= 2 ==> idx == n - 1
  {
    if target == 1 then 0
    else
      RoundedIndexBounds(k, n, target - 1);
      RoundHalfEven(k * (n - 1), target - 1)
  }

  lemma RoundedIndexBounds(k: nat, n: nat, q: nat)
    requires 1 <= q && k <= q && q + 1 < n
    ensures var r := RoundHalfEven(k * (n - 1), q);
      r < n && (k == 0 ==> r == 0) && (k == q ==> r == n - 1)
  {
    RoundedBelow(k, n, q);
    if k == 0 {
      RoundedFirst(n, q);
    }
    if k == q {
      RoundedLast(n, q);
    }
  }

  lemma RoundedBelow(k: nat, n: nat, q: nat)
    requires 1 <= q && k <= q && q + 1 < n
    ensures RoundHalfEven(k * (n - 1), q) < n
  {
    MulMonotone(n - 1, k, q);
    assert k * (n - 1) <= (n - 1) * q;
    IndexBelow(k * (n - 1), q, n, RoundHalfEven(k * (n - 1), q));
  }

  lemma RoundedFirst(n: nat, q: nat)
    requires 1 <= q && q + 1 < n
    ensures RoundHalfEven(0 * (n - 1), q) == 0
  {
    assert 0 * (n - 1) == 0;
    HalfStepPins(q, RoundHalfEven(0, q), 0);
  }

  lemma RoundedLast(n: nat, q: nat)
    requires 1 <= q && q + 1 < n
    ensures RoundHalfEven(q * (n - 1), q) == n - 1
  {
    var p := q * (n - 1);
    var r := RoundHalfEven(p, q);
    HalfStepPins(q, r, n - 1);
  }

  lemma IndexBelow(p: nat, q: nat, n: nat, r: nat)
    requires q >= 1 && n >= 1
    requires p <= (n - 1) * q
    requires 2 * (q * r) <= 2 * p + q
    ensures r < n
  {
    if r >= n {
      MulMonotone(q, n, r);
    }
  }

  /** Resampled indices strictly increase: when the window is longer than the target
      no frame is taken twice, so the clip is never padded with a repeated frame. */
  lemma ResampleIndexIncreasing(k1: nat, k2: nat, n: nat, target: nat)
    requires k1 < k2 < target < n
    ensures ResampleIndex(k1, n, target) < ResampleIndex(k2, n, target)
  {
    var q := target - 1;
    var r1, r2 := ResampleIndex(k1, n, target), ResampleIndex(k2, n, target);
    IndexGap(k1, k2, n);
    RoundedApart(q * r1, q * r2, k1 * (n - 1), k2 * (n - 1), q);
    if r2 <= r1 {
      MulMonotone(q, r2, r1);
    }
  }

  /** Consecutive multiples of `n - 1` are at least `n - 1` apart. */
  lemma IndexGap(k1: nat, k2: nat, n: nat)
    requires k1 < k2 && n >= 1
    ensures k2 * (n - 1) - k1 * (n - 1) >= n - 1
  {
    assert k2 * (n - 1) - k1 * (n - 1) == (k2 - k1) * (n - 1);
    MulMonotone(n - 1, 1, k2 - k1);
  }

  /** Roundings of two ratios more than one step apart are strictly ordered. */
  lemma RoundedApart(qr1: int, qr2: int, p1: int, p2: int, q: int)
    requires 2 * qr1 <= 2 * p1 + q && 2 * qr2 >= 2 * p2 - q && p2 - p1 > q
    ensures qr1 < qr2
  {
  }

  /** Resampling of a window longer than the target to exactly `target` frames. */
  function Resample<F>(window: seq<F>, target: nat): (r: seq<F>)
    requires 1 <= target < |window|
    ensures |r| == target
    ensures r[0] == window[0]
    ensures target >= 2 ==> r[target - 1] == window[|window| - 1]
  {
    seq(target, k requires 0 <= k < target => window[ResampleIndex(k, |window|, target)])
  }

  /** `Resample` picks frames at strictly increasing window positions. */
  lemma ResampleIsSubsequence<F>(window: seq<F>, target: nat, k1: nat, k2: nat)
    requires 1 <= target < |window| && k1 < k2 < target
    ensures Resample(window, target)[k1] == window[ResampleIndex(k1, |window|, target)]
    ensures Resample(window, target)[k2] == window[ResampleIndex(k2, |window|, target)]
    ensures ResampleIndex(k1, |window|, target) < ResampleIndex(k2, |window|, target)
  {
    ResampleIndexIncreasing(k1, k2, |window|, target);
  }

  /** `_extract_frames_from_prebuffer`: an empty buffer gives no frames; otherwise the
      window, resampled to exactly the target when longer and left as it is (never
      padded) when not. */
  function Extract<F>(buf: PreBuffer<F>, nowMs: int, durationMs: int, rawTarget: int): (r: seq<F>)
    ensures Size(buf) == 0 ==> r == []
    ensures Size(buf) > 0 ==> 1 <= |r| <= ClipTarget(rawTarget)
    ensures Size(buf) > 0 ==>
      var w := Window(buf, nowMs, durationMs, ClipTarget(rawTarget));
      (|w| <= ClipTarget(rawTarget) ==> r == w) &&
      (|w| > ClipTarget(rawTarget) ==> |r| == ClipTarget(rawTarget) && r[0] == w[0]) &&
      (|w| > ClipTarget(rawTarget) ==>
        forall k :: 0 <= k < |r| ==> r[k] == w[ResampleIndex(k, |w|, ClipTarget(rawTarget))]) &&
      (|w| > ClipTarget(rawTarget) >= 2 ==> r[|r| - 1] == w[|w| - 1])
  {
    if Size(buf) == 0 then []
    else
      var target := ClipTarget(rawTarget);
      var w := Window(buf, nowMs, durationMs, target);
      if |w| > target then Resample(w, target) else w
  }

  /** With a chronological timed buffer and a target of at least two frames, the
      newest buffered frame is always the last extracted frame, whatever the window and
      the resampling. (With a target of one, `linspace` yields index 0 and the oldest
      frame of the window is kept instead.) */
  lemma NewestFrameExtracted<F>(entries: seq<(int, F)>, nowMs: int, durationMs: int, rawTarget: int)
    requires entries != [] && Chronological(entries) && ClipTarget(rawTarget) >= 2
    ensures var r := Extract(Timed(entries), nowMs, durationMs, rawTarget);
      r != [] && r[|r| - 1] == entries[|entries| - 1].1
  {
    var w := InWindow(entries, nowMs - durationMs);
    WindowIsSuffix(entries, nowMs - durationMs);
    if w != [] {
      assert w[|w| - 1] == Frames(entries)[|entries| - 1];
    }
  }
}
