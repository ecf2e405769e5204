/**
 Streaming one of several renditions of the same video, chosen by a bandwidth estimate.
 Each tick may move one step along the ladder, in which case it scans the new file for a
 keyframe that is not older than what has been sent; otherwise it sends the next frame.
 */
module Renditions {
  import opened Wrappers

  datatype Frame = Frame(timestamp: nat, payload: seq<int>)

  /** A rendition is its file's frames and the bitrate it was encoded at. */
  datatype Rendition = Rendition(frames: seq<Frame>, bitrate: real)

  /** The rendition being sent, the next frame to read from its file, and the last timestamp. */
  datatype Cursor = Cursor(quality: nat, next: nat, timestamp: nat)

  datatype Event = Sent(quality: nat, index: nat) | Restarted(quality: nat)

  /** Bit 0 of the first byte is clear. */
  predicate IsKeyframe(payload: seq<int>) {
    payload != [] && payload[0] % 2 == 0
  }

  /** Section 9.1 of RFC 6386: the low bit of a frame's first byte is clear in key frames. */
  lemma KeyframeBit(rest: seq<int>, high: nat, low: bool)
    ensures IsKeyframe([2 * high + if low then 1 else 0] + rest) <==> !low
  {}

  /** A stream that has reached `timestamp` can go on with this frame. */
  predicate Enters(frame: Frame, timestamp: nat) {
    frame.timestamp >= timestamp && IsKeyframe(frame.payload)
  }

  predicate Valid(files: seq<Rendition>, c: Cursor) {
    c.quality < |files| && c.next <= |files[c.quality].frames|
  }

  /** The rendition to move to, if any. */
  function NewQuality(files: seq<Rendition>, quality: nat, target: real): Option<nat>
    requires quality < |files|
  {
    if quality != 0 && target < files[quality].bitrate then Some(quality - 1)
    else if quality + 1 < |files| && target > files[quality + 1].bitrate then Some(quality + 1)
    else None
  }

  /** The first keyframe from `i` on that is not older than `timestamp`, or the number of frames. */
  function FindEntry(frames: seq<Frame>, i: nat, timestamp: nat): (k: nat)
    requires i <= |frames|
    ensures i <= k <= |frames|
    decreases |frames| - i
  {
    if i == |frames| || Enters(frames[i], timestamp) then i
    else FindEntry(frames, i + 1, timestamp)
  }

  /** Sends frame `index`, or starts the file over when there is none. */
  function Take(files: seq<Rendition>, quality: nat, index: nat): (Cursor, Event)
    requires quality < |files| && index <= |files[quality].frames|
  {
    if index < |files[quality].frames| then
      (Cursor(quality, index + 1, files[quality].frames[index].timestamp), Sent(quality, index))
    else
      (Cursor(quality, 0, 0), Restarted(quality))
  }

  function Tick(files: seq<Rendition>, c: Cursor, target: real): (Cursor, Event)
    requires Valid(files, c)
  {
    match NewQuality(files, c.quality, target)
    case Some(q) => Take(files, q, FindEntry(files[q].frames, 0, c.timestamp))
    case None => Take(files, c.quality, c.next)
  }

  const BEGIN := Cursor(0, 0, 0)

  /** Where the loop stands after these estimates, and what it has done. */
  function Play(files: seq<Rendition>, targets: seq<real>): (r: (Cursor, seq<Event>))
    requires files != []
    ensures Valid(files, r.0) && |r.1| == |targets|
  {
    if targets == [] then (BEGIN, [])
    else
      var n := |targets| - 1;
      var (c, log) := Play(files, targets[..n]);
      var (c', event) := Tick(files, c, targets[n]);
      (c', log + [event])
  }

  // ----- the loop

  method SwitchQualityLevel(files: seq<Rendition>, newQuality: nat, timestamp: nat) returns (k: nat)
    requires newQuality < |files|
    ensures k == FindEntry(files[newQuality].frames, 0, timestamp)
  {
    var frames := files[newQuality].frames;
    k := 0;
    while k < |frames|
      invariant k <= |frames|
      invariant FindEntry(frames, 0, timestamp) == FindEntry(frames, k, timestamp)
    {
      if frames[k].timestamp >= timestamp && IsKeyframe(frames[k].payload) {
        return;
      }
      k := k + 1;
    }
  }

  method StreamVideo(files: seq<Rendition>, targets: seq<real>) returns (log: seq<Event>)
    requires files != []
    ensures log == Play(files, targets).1
  {
    var quality: nat, next: nat, timestamp: nat := 0, 0, 0;
    log := [];
    for n := 0 to |targets|
      invariant (Cursor(quality, next, timestamp), log) == Play(files, targets[..n])
    {
      assert targets[..n + 1][..n] == targets[..n];
      var newQuality := NewQuality(files, quality, targets[n]);
      if newQuality.Some? {
        next := SwitchQualityLevel(files, newQuality.value, timestamp);
        quality := newQuality.value;
      }
      if next == |files[quality].frames| {
        log := log + [Restarted(quality)];
        next, timestamp := 0, 0;
        continue;
      }
      timestamp := files[quality].frames[next].timestamp;
      log := log + [Sent(quality, next)];
      next := next + 1;
    }
    assert targets[..|targets|] == targets;
  }

  // ----- decodability

  function FrameOf(files: seq<Rendition>, e: Event): Frame
    requires InFiles(files, e) && e.Sent?
  {
    files[e.quality].frames[e.index]
  }

  predicate InFiles(files: seq<Rendition>, e: Event) {
    e.quality < |files| && (e.Sent? ==> e.index < |files[e.quality].frames|)
  }

  predicate AllInFiles(files: seq<Rendition>, log: seq<Event>) {
    forall i :: 0 <= i < |log| ==> InFiles(files, log[i])
  }

  /** `next` was read right after `prev` from the same file. */
  predicate Follows(prev: Event, next: Event) {
    prev.Sent? && next.Sent? && prev.quality == next.quality && next.index == prev.index + 1
  }

  /** A receiver can start decoding here. */
  predicate Entry(files: seq<Rendition>, e: Event)
    requires InFiles(files, e)
  {
    e.Sent? && (IsKeyframe(FrameOf(files, e).payload) || e.index == 0)
  }

  /** The search stops at the first frame the stream can go on with, or at the end when there is none. */
  lemma {:induction false} FindEntryLaw(frames: seq<Frame>, i: nat, timestamp: nat)
    requires i <= |frames|
    ensures var k := FindEntry(frames, i, timestamp);
      (k < |frames| ==> Enters(frames[k], timestamp)) && forall j :: i <= j < k ==> !Enters(frames[j], timestamp)
    decreases |frames| - i
  {
    if i < |frames| && !Enters(frames[i], timestamp) {
      FindEntryLaw(frames, i + 1, timestamp);
    }
  }

  /** The cursor stands right after what the log ends with. */
  predicate Linked(files: seq<Rendition>, c: Cursor, log: seq<Event>)
    requires AllInFiles(files, log)
  {
    c == Cursor(LastQuality(log), NextIndex(log), LastTime(files, log))
  }

  /** Nothing sent yet, or the file was started over. */
  predicate AtStart(log: seq<Event>) {
    log == [] || log[|log| - 1].Restarted?
  }

  function LastQuality(log: seq<Event>): nat {
    if log == [] then 0 else log[|log| - 1].quality
  }

  function NextIndex(log: seq<Event>): nat {
    if AtStart(log) then 0 else log[|log| - 1].index + 1
  }

  function LastTime(files: seq<Rendition>, log: seq<Event>): nat
    requires AllInFiles(files, log)
  {
    if AtStart(log) then 0 else FrameOf(files, log[|log| - 1]).timestamp
  }

  /** At a switch: the new file's first frame the stream can go on with, or a restart of that file if it has none. */
  predicate Switched(files: seq<Rendition>, quality: nat, time: nat, e: Event)
    requires quality < |files| && InFiles(files, e)
  {
    var frames := files[quality].frames;
    && e.quality == quality
    && (e.Sent? ==> Enters(frames[e.index], time) && forall j :: 0 <= j < e.index ==> !Enters(frames[j], time))
    && (e.Restarted? ==> forall j :: 0 <= j < |frames| ==> !Enters(frames[j], time))
  }

  /**
   Without one: the frame after the last one sent, the first one after a restart, or a
   restart at the end of the file.
   */
  predicate WentOn(files: seq<Rendition>, log: seq<Event>, e: Event)
    requires InFiles(files, e)
  {
    && e.quality == LastQuality(log)
    && (e.Sent? ==> e.index == NextIndex(log) && (AtStart(log) || Follows(log[|log| - 1], e)))
    && (e.Restarted? ==> NextIndex(log) == |files[e.quality].frames|)
  }

  /** What a tick may do, told from the log and the estimate alone. */
  predicate Fits(files: seq<Rendition>, log: seq<Event>, target: real, e: Event)
    requires InFiles(files, e) && AllInFiles(files, log) && LastQuality(log) < |files|
  {
    var q := LastQuality(log);
    if TooFast(files, q, target) then Switched(files, q - 1, LastTime(files, log), e)
    else if RoomAbove(files, q, target) then Switched(files, q + 1, LastTime(files, log), e)
    else WentOn(files, log, e)
  }

  /** The estimate is below the rendition's bit rate, and there is a slower one. */
  predicate TooFast(files: seq<Rendition>, q: nat, target: real)
    requires q < |files|
  {
    q > 0 && target < files[q].bitrate
  }

  /** The estimate is above the next rendition's bit rate. */
  predicate RoomAbove(files: seq<Rendition>, q: nat, target: real)
    requires q < |files|
  {
    q + 1 < |files| && target > files[q + 1].bitrate
  }

  lemma TickFits(files: seq<Rendition>, c: Cursor, log: seq<Event>, target: real)
    requires Valid(files, c) && AllInFiles(files, log) && Linked(files, c, log)
    ensures var (c', e) := Tick(files, c, target);
      InFiles(files, e) && Fits(files, log, target, e) && AllInFiles(files, log + [e]) && Linked(files, c', log + [e])
  {
    var q := NewQuality(files, c.quality, target);
    if q.Some? {
      FindEntryLaw(files[q.value].frames, 0, c.timestamp);
    }
  }

  /** Event `i` of the log fits what was logged before it. */
  predicate FitsAt(files: seq<Rendition>, targets: seq<real>, log: seq<Event>, i: nat)
    requires i < |log| == |targets|
  {
    && AllInFiles(files, log[..i]) && InFiles(files, log[i]) && LastQuality(log[..i]) < |files|
    && Fits(files, log[..i], targets[i], log[i])
  }

  lemma FitsStill(files: seq<Rendition>, targets: seq<real>, log: seq<Event>, target: real, e: Event, i: nat)
    requires i < |log| == |targets| && FitsAt(files, targets, log, i)
    ensures FitsAt(files, targets + [target], log + [e], i)
  {
    assert (log + [e])[..i] == log[..i];
  }

  lemma FitsNow(files: seq<Rendition>, targets: seq<real>, log: seq<Event>, target: real, e: Event)
    requires |log| == |targets| && AllInFiles(files, log) && InFiles(files, e) && LastQuality(log) < |files|
    requires Fits(files, log, target, e)
    ensures FitsAt(files, targets + [target], log + [e], |log|)
  {
    assert (log + [e])[..|log|] == log;
  }

  lemma PlaySnoc(files: seq<Rendition>, targets: seq<real>, target: real)
    requires files != []
    ensures var (c, log) := Play(files, targets);
      var (c', e) := Tick(files, c, target);
      Play(files, targets + [target]) == (c', log + [e])
  {
    assert (targets + [target])[..|targets|] == targets;
  }

  /**
   Each tick switches when the estimate calls for it, to the first keyframe that is not
   older than the last frame sent, and otherwise goes on where the last one stopped.
   */
  lemma {:induction false} EveryFrameFits(files: seq<Rendition>, targets: seq<real>)
    requires files != []
    ensures var (c, log) := Play(files, targets);
      && AllInFiles(files, log) && Linked(files, c, log)
      && forall i :: 0 <= i < |log| ==> FitsAt(files, targets, log, i)
  {
    if targets != [] {
      var n := |targets| - 1;
      var before, target := targets[..n], targets[n];
      EveryFrameFits(files, before);
      var (c, log) := Play(files, before);
      PlaySnoc(files, before, target);
      assert targets == before + [target];
      TickFits(files, c, log, target);
      var e := Tick(files, c, target).1;
      FitsNow(files, before, log, target, e);
      forall i | 0 <= i < n ensures FitsAt(files, targets, log + [e], i) {
        FitsStill(files, before, log, target, e, i);
      }
    }
  }

  /** A run of consecutive frames of one file, from one to start decoding at up to event `i`. */
  predicate DecodableFrom(files: seq<Rendition>, log: seq<Event>, j: nat, i: nat)
    requires j <= i < |log|
  {
    && InFiles(files, log[j]) && Entry(files, log[j])
    && forall t :: j < t <= i ==> Follows(log[t - 1], log[t])
  }

  lemma FollowsUnlessEntry(files: seq<Rendition>, targets: seq<real>, log: seq<Event>, j: nat)
    requires j < |log| == |targets| && FitsAt(files, targets, log, j) && log[j].Sent? && !Entry(files, log[j])
    ensures j > 0 && Follows(log[j - 1], log[j])
  {}

  /** Every frame sent can be decoded from frames sent before it without a gap. */
  lemma {:induction false} EveryFrameDecodable(files: seq<Rendition>, targets: seq<real>, i: nat) returns (j: nat)
    requires files != [] && i < |targets| && Play(files, targets).1[i].Sent?
    ensures j <= i && DecodableFrom(files, Play(files, targets).1, j, i)
  {
    EveryFrameFits(files, targets);
    var log := Play(files, targets).1;
    j := i;
    while !Entry(files, log[j])
      invariant j <= i && log[j].Sent? && AllInFiles(files, log)
      invariant forall t :: j < t <= i ==> Follows(log[t - 1], log[t])
      decreases j
    {
      FollowsUnlessEntry(files, targets, log, j);
      j := j - 1;
    }
  }

  // ----- time

  predicate Sorted(frames: seq<Frame>) {
    forall i, j :: 0 <= i < j < |frames| ==> frames[i].timestamp <= frames[j].timestamp
  }

  lemma TimeStep(files: seq<Rendition>, targets: seq<real>, log: seq<Event>, i: nat)
    requires 0 < i < |log| == |targets| && FitsAt(files, targets, log, i) && AllInFiles(files, log)
    requires log[i - 1].Sent? && log[i].Sent? && forall q :: 0 <= q < |files| ==> Sorted(files[q].frames)
    ensures FrameOf(files, log[i - 1]).timestamp <= FrameOf(files, log[i]).timestamp
  {
    assert log[..i][|log[..i]| - 1] == log[i - 1];
  }

  /** Of two frames with no restart between them the later one is not older, across switches too. */
  lemma {:induction false} TimeNeverGoesBack(files: seq<Rendition>, targets: seq<real>, i: nat, j: nat)
    requires files != [] && (forall q :: 0 <= q < |files| ==> Sorted(files[q].frames)) && i <= j < |targets|
    requires forall t :: i <= t <= j ==> Play(files, targets).1[t].Sent?
    ensures var log := Play(files, targets).1;
      AllInFiles(files, log) && FrameOf(files, log[i]).timestamp <= FrameOf(files, log[j]).timestamp
    decreases j
  {
    EveryFrameFits(files, targets);
    if i < j {
      TimeNeverGoesBack(files, targets, i, j - 1);
      TimeStep(files, targets, Play(files, targets).1, j);
    }
  }

  // ----- the ladder under a steady estimate

  predicate Increasing(files: seq<Rendition>) {
    forall i, j :: 0 <= i < j < |files| ==> files[i].bitrate < files[j].bitrate
  }

  function Move(files: seq<Rendition>, quality: nat, target: real): (q: nat)
    requires quality < |files|
    ensures q < |files|
  {
    match NewQuality(files, quality, target)
    case Some(q) => q
    case None => quality
  }

  function Moves(files: seq<Rendition>, quality: nat, target: real, n: nat): (q: nat)
    requires quality < |files|
    ensures q < |files|
  {
    if n == 0 then quality else Move(files, Moves(files, quality, target, n - 1), target)
  }

  /** A step up is never followed by a step down, nor the reverse. */
  lemma NoOscillation(files: seq<Rendition>, quality: nat, target: real)
    requires quality < |files| && Increasing(files)
    ensures var q := Move(files, quality, target);
      && (q > quality ==> Move(files, q, target) >= q)
      && (q < quality ==> Move(files, q, target) <= q)
      && (q == quality ==> Move(files, q, target) == q)
  {}

  predicate Rests(files: seq<Rendition>, q: nat, target: real)
    requires q < |files|
  {
    (q == 0 || files[q].bitrate <= target) && (q + 1 == |files| || target <= files[q + 1].bitrate)
  }

  lemma {:induction false} MovesOneWay(files: seq<Rendition>, quality: nat, target: real, n: nat)
    requires quality < |files| && Increasing(files)
    ensures var q := Moves(files, quality, target, n);
      || Rests(files, q, target)
      || (Move(files, quality, target) > quality && q == quality + n && Move(files, q, target) == q + 1)
      || (Move(files, quality, target) < quality && q == quality - n && Move(files, q, target) == q - 1)
  {
    if n > 0 {
      MovesOneWay(files, quality, target, n - 1);
      NoOscillation(files, Moves(files, quality, target, n - 1), target);
    }
  }

  lemma MovesKeepDirection(files: seq<Rendition>, quality: nat, target: real, k: nat)
    requires quality < |files| && Increasing(files)
    ensures var q, next := Moves(files, quality, target, k), Moves(files, quality, target, k + 1);
      && (Move(files, quality, target) >= quality ==> q <= next <= q + 1)
      && (Move(files, quality, target) <= quality ==> q - 1 <= next <= q)
  {
    MovesOneWay(files, quality, target, k);
    RestsStays(files, Moves(files, quality, target, k), target);
  }

  lemma RestsStays(files: seq<Rendition>, q: nat, target: real)
    requires q < |files|
    ensures Rests(files, q, target) <==> Move(files, q, target) == q
  {}

  /** After one move fewer than there are renditions the choice rests, and stays. */
  lemma Settles(files: seq<Rendition>, quality: nat, target: real, n: nat)
    requires quality < |files| && Increasing(files) && n >= |files| - 1
    ensures Rests(files, Moves(files, quality, target, n), target)
    ensures Move(files, Moves(files, quality, target, n), target) == Moves(files, quality, target, n)
  {
    MovesOneWay(files, quality, target, n);
  }

  // ----- the same for the streaming loop

  /** The rendition being sent after these estimates. */
  function QualityAfter(files: seq<Rendition>, targets: seq<real>): (q: nat)
    requires files != []
    ensures q < |files|
  {
    Play(files, targets).0.quality
  }

  function Repeat(target: real, m: nat): (targets: seq<real>)
    ensures |targets| == m && forall i :: 0 <= i < m ==> targets[i] == target
  {
    seq(m, _ => target)
  }

  lemma QualitySnoc(files: seq<Rendition>, targets: seq<real>, target: real)
    requires files != []
    ensures QualityAfter(files, targets + [target]) == Move(files, QualityAfter(files, targets), target)
  {
    PlaySnoc(files, targets, target);
  }

  /** While the estimate stays the same, each tick moves the level once. */
  lemma {:induction false} PlayMoves(files: seq<Rendition>, before: seq<real>, target: real, m: nat)
    requires files != []
    ensures QualityAfter(files, before + Repeat(target, m)) == Moves(files, QualityAfter(files, before), target, m)
  {
    if m == 0 {
      assert before + Repeat(target, 0) == before;
    } else {
      PlayMoves(files, before, target, m - 1);
      QualitySnoc(files, before + Repeat(target, m - 1), target);
      assert before + Repeat(target, m) == before + Repeat(target, m - 1) + [target];
    }
  }

  /** While the estimate stays the same the rendition played moves in one direction only, a step at a time. */
  lemma PlayOneWay(files: seq<Rendition>, before: seq<real>, target: real, k: nat)
    requires files != [] && Increasing(files)
    ensures
      var first := QualityAfter(files, before);
      var q := QualityAfter(files, before + Repeat(target, k));
      var next := QualityAfter(files, before + Repeat(target, k + 1));
      && (Move(files, first, target) >= first ==> q <= next <= q + 1)
      && (Move(files, first, target) <= first ==> q - 1 <= next <= q)
  {
    PlayMoves(files, before, target, k);
    PlayMoves(files, before, target, k + 1);
    MovesKeepDirection(files, QualityAfter(files, before), target, k);
  }

  /** Once one estimate has lasted for one tick fewer than there are renditions, neither rule fires any more. */
  lemma PlaySettles(files: seq<Rendition>, before: seq<real>, target: real, m: nat)
    requires files != [] && Increasing(files) && m >= |files| - 1
    ensures var q := QualityAfter(files, before + Repeat(target, m));
      Rests(files, q, target) && NewQuality(files, q, target) == None
  {
    PlayMoves(files, before, target, m);
    Settles(files, QualityAfter(files, before), target, m);
  }

  /** Two resting places differ only when the estimate is exactly the higher one's bitrate. */
  lemma RestIsUnique(files: seq<Rendition>, p: nat, q: nat, target: real)
    requires p < q < |files| && Increasing(files)
    ensures Rests(files, p, target) && Rests(files, q, target) ==> q == p + 1 && target == files[q].bitrate
  {}
}
