/**
 * The playback state of the pet animator as a value: the clip registry, the
 * current clip, the FIFO queue of pending clips, the frame index, the time
 * accumulator and the time of the last tick. The functions here are the
 * specification of `setAnimation` and of one render tick (`loop`); the class
 * in module Animator updates the same state in place and is proved against
 * them.
 *
 * Timestamps and durations are whole time units (`int`).
 */
module Playback {
  import opened Options

  /** A decoded image handle, identified by the location it was decoded from. */
  datatype Frame = Frame(source: string)

  /** An AnimationSequence: the frames of a clip and whether it loops. */
  datatype Clip = Clip(frames: seq<Frame>, isLooping: bool)

  /**
   * The `path` argument of `setAnimation`, with its images already decoded:
   * no path given, a path whose images all decoded (in table order), or a path
   * where some image failed to decode (the `Promise.all` of `loadAnimation`
   * rejects and nothing is registered).
   */
  datatype Assets = NoPath | Decoded(frames: seq<Frame>) | DecodeFailed

  datatype Player = Player(
    animations: map<string, seq<Frame>>,
    current: Option<Clip>,
    queue: seq<Clip>,
    index: nat,
    accumulator: int,
    lastFrameTime: int)

  /** The state after a tick, and whether the tick requested the next one. */
  datatype Step = Step(after: Player, rescheduled: bool)

  const DefaultFrameDuration: nat := 120
  const IdleName: string := "idle"

  predicate Playable(c: Clip)
  {
    |c.frames| > 0
  }

  /**
   * The invariant of the playback state: every registered clip and every queued
   * clip has a frame, and the frame index is within the current clip.
   */
  predicate Valid(p: Player)
  {
    && (forall name :: name in p.animations ==> |p.animations[name]| > 0)
    && (forall i :: 0 <= i < |p.queue| ==> Playable(p.queue[i]))
    && (p.current.Some? ==> Playable(p.current.value) && p.index < |p.current.value.frames|)
  }

  /** Decoded asset tables are never empty. */
  predicate WellFormed(a: Assets)
  {
    a.Decoded? ==> |a.frames| > 0
  }

  /** The fields of a freshly constructed animator. */
  function Initial(): (p: Player)
    ensures Valid(p) && p.current.None? && p.queue == []
  {
    Player(map[], None, [], 0, 0, 0)
  }

  /**
   * `setAnimation`. An unregistered name is first loaded from `path`; without a
   * path (or when decoding fails) nothing changes. Otherwise the registered
   * frames either replace the current clip at once, restarting its counters,
   * or are appended to the queue.
   */
  function SetAnimation(p: Player, name: string, applyNow: bool, isLoop: Option<bool>, path: Assets): (r: Player)
    ensures Valid(p) && WellFormed(path) ==> Valid(r)
    // an unknown name with nothing to load from touches nothing
    ensures name !in p.animations && !path.Decoded? ==> r == p
    // a registered name is never reloaded; an unregistered one is loaded from the path
    ensures name in p.animations ==> r.animations == p.animations
    ensures name !in p.animations && path.Decoded? ==> r.animations == p.animations[name := path.frames]
    ensures name in r.animations && applyNow ==>
              && r.current == Some(Clip(r.animations[name], isLoop.GetOr(false)))
              && r.index == 0 && r.accumulator == 0 && r.lastFrameTime == 0
              && r.queue == p.queue
    ensures name in r.animations && !applyNow ==>
              && r.queue == p.queue + [Clip(r.animations[name], isLoop.GetOr(false))]
              && r.current == p.current && r.index == p.index
              && r.accumulator == p.accumulator && r.lastFrameTime == p.lastFrameTime
  {
    var registry :=
      if name !in p.animations && path.Decoded? then p.animations[name := path.frames]
      else p.animations;
    if name !in registry then p
    else
      var clip := Clip(registry[name], isLoop.GetOr(false));
      if applyNow then
        p.(animations := registry, current := Some(clip), index := 0, lastFrameTime := 0, accumulator := 0)
      else
        p.(animations := registry, queue := p.queue + [clip])
  }

  /**
   * The frame-advance loop: while a whole frame duration is in the accumulator,
   * step the index by one (wrapping at `n`) and take the duration off.
   */
  function Advance(index: nat, acc: int, n: nat, fd: nat): (r: (nat, int))
    requires n > 0 && fd > 0
    ensures r.1 < fd
    ensures index < n ==> r.0 < n
    decreases acc
  {
    if acc < fd then (index, acc) else Advance((index + 1) % n, acc - fd, n, fd)
  }

  /** Lines 390-397: credit the time since the last tick; the first tick after a reset credits nothing. */
  function Elapse(p: Player, now: int): (r: Player)
    ensures r.lastFrameTime == now
    ensures p.lastFrameTime == 0 ==> r.accumulator == p.accumulator
    ensures p.lastFrameTime != 0 ==> r.accumulator == p.accumulator + (now - p.lastFrameTime)
    // only the clock fields move
    ensures r.(lastFrameTime := p.lastFrameTime, accumulator := p.accumulator) == p
    ensures Valid(p) ==> Valid(r)
  {
    var base := if p.lastFrameTime == 0 then now else p.lastFrameTime;
    p.(lastFrameTime := now, accumulator := p.accumulator + (now - base))
  }

  /** A finished one-shot clip is replaced by the head of the queue, or by looping `idle`. */
  function HandOff(p: Player): (r: Player)
    requires Valid(p)
    ensures Valid(r)
  {
    if |p.queue| > 0 then
      p.(current := Some(p.queue[0]), queue := p.queue[1..], index := 0)
    else
      SetAnimation(p.(current := None), IdleName, true, Some(true), NoPath).(index := 0)
  }

  /** True when the current clip is at (or past) its last frame and does not loop. */
  predicate Finished(p: Player)
    requires p.current.Some?
    ensures Finished(p) ==> !p.current.value.isLooping
    // within a valid state "at or past the last frame" means exactly at it
    ensures Valid(p) ==> (Finished(p) <==> !p.current.value.isLooping && p.index == |p.current.value.frames| - 1)
  {
    p.index >= |p.current.value.frames| - 1 && !p.current.value.isLooping
  }

  /**
   * One render tick of a running animator at time `now`. With no current clip
   * the tick only applies looping `idle`. Otherwise a finished one-shot clip is
   * handed off, and the frame index advances by the whole frame durations in the
   * accumulator. If the hand-off leaves no clip (no `idle` registered), the loop
   * reads the frames of a missing clip as soon as a frame is due: the callback
   * throws and the next tick is never requested.
   */
  function Tick(p: Player, fd: nat, now: int): (s: Step)
    requires fd > 0 && Valid(p)
    ensures Valid(s.after)
    ensures s.after.current.Some? ==> s.after.accumulator < fd
    ensures s.after.lastFrameTime == now || s.after.lastFrameTime == 0
  {
    var q := Elapse(p, now);
    if q.current.None? then
      Step(SetAnimation(q, IdleName, true, Some(true), NoPath), true)
    else
      var h := if Finished(q) then HandOff(q) else q;
      if h.current.None? then
        Step(h, h.accumulator < fd)
      else
        var a := Advance(h.index, h.accumulator, |h.current.value.frames|, fd);
        Step(h.(index := a.0, accumulator := a.1), true)
  }
}
