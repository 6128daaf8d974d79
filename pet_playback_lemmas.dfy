/**
 * Properties of the playback specification: the closed form of the frame
 * advance, the FIFO hand-off between clips, the idle fallback, when a tick stops
 * the render loop, and the wall-clock accuracy of a looping clip.
 */
module PlaybackLemmas {
  import opened Options
  import opened Playback

  /** A positive multiple of `d` is at least `d`. */
  lemma {:induction false} MulAtLeast(e: int, d: int)
    requires e >= 1 && d > 0
    ensures e * d >= d
  {
    if e > 1 {
      MulAtLeast(e - 1, d);
      assert e * d == (e - 1) * d + d;
    }
  }

  /** Division with remainder has one answer. */
  lemma DivModUnique(a: int, d: int, q: int, r: int)
    requires d > 0 && a == q * d + r && 0 <= r < d
    ensures a / d == q && a % d == r
  {
    var q', r' := a / d, a % d;
    assert a == q' * d + r';
    var e := q - q';
    assert e * d == q * d - q' * d;
    assert e * d == r' - r;
    if e >= 1 {
      MulAtLeast(e, d);
      assert false;
    } else if e <= -1 {
      MulAtLeast(-e, d);
      assert false;
    }
  }

  /** Reducing the first summand modulo `n` does not change the sum modulo `n`. */
  lemma ModAddMod(a: nat, b: nat, n: nat)
    requires n > 0
    ensures ((a % n) + b) % n == (a + b) % n
  {
    var s := (a % n) + b;
    assert a + b == (a / n) * n + s;
    assert s == (s / n) * n + s % n;
    assert a + b == (a / n + s / n) * n + s % n;
    DivModUnique(a + b, n, a / n + s / n, s % n);
  }

  /**
   * The advance loop moves the index forward by `k = acc / fd` frames, wrapping
   * modulo the frame count, and leaves `acc % fd` in the accumulator.
   */
  lemma {:induction false} AdvanceClosedForm(index: nat, acc: int, n: nat, fd: nat)
    requires n > 0 && fd > 0 && index < n && acc >= 0
    ensures Advance(index, acc, n, fd) == ((index + acc / fd) % n, acc % fd)
    decreases acc
  {
    if acc < fd {
      DivModUnique(acc, fd, 0, acc);
      DivModUnique(index, n, 0, index);
    } else {
      var rest := acc - fd;
      AdvanceClosedForm((index + 1) % n, rest, n, fd);
      var k, r := rest / fd, rest % fd;
      assert rest == k * fd + r;
      assert (k + 1) * fd == k * fd + fd;
      DivModUnique(acc, fd, k + 1, r);
      ModAddMod(index + 1, k, n);
      assert index + acc / fd == index + 1 + k;
    }
  }

  /** A negative accumulator (a clock that went backwards) advances nothing. */
  lemma AdvanceNegative(index: nat, acc: int, n: nat, fd: nat)
    requires n > 0 && fd > 0 && acc < 0
    ensures Advance(index, acc, n, fd) == (index, acc)
  {
  }

  /**
   * The queue of a tick is either untouched, or loses exactly its head, which
   * becomes the current clip: pending clips are consumed in FIFO order.
   */
  lemma TickConsumesQueueInOrder(p: Player, fd: nat, now: int)
    requires fd > 0 && Valid(p)
    ensures var s := Tick(p, fd, now);
            || s.after.queue == p.queue
            || (|p.queue| > 0 && s.after.queue == p.queue[1..] && s.after.current == Some(p.queue[0]))
  {
  }

  /**
   * A clip that is not finished (a looping clip never is) keeps playing: the
   * queue is untouched, and the index moves on by the whole frame durations in
   * the accumulator.
   */
  lemma TickWithoutHandOff(p: Player, fd: nat, now: int)
    requires fd > 0 && Valid(p) && p.current.Some? && !Finished(p)
    requires Elapse(p, now).accumulator >= 0
    ensures var s := Tick(p, fd, now);
            var acc := Elapse(p, now).accumulator;
            && s.rescheduled
            && s.after.current == p.current && s.after.queue == p.queue
            && s.after.index == (p.index + acc / fd) % |p.current.value.frames|
            && s.after.accumulator == acc % fd
  {
    AdvanceClosedForm(p.index, Elapse(p, now).accumulator, |p.current.value.frames|, fd);
  }

  /**
   * Once a baseline is recorded, a tick credits all the time since it, however
   * long the animator was stopped in between: neither `stop` nor `start` resets
   * `lastFrameTime`, so the first tick after a restart advances the clip by the
   * whole pause.
   */
  lemma TickCreditsWholeGap(p: Player, fd: nat, now: int)
    requires fd > 0 && Valid(p) && p.current.Some? && !Finished(p)
    requires p.lastFrameTime > 0 && p.accumulator >= 0 && now >= p.lastFrameTime
    ensures var s := Tick(p, fd, now);
            var gap := now - p.lastFrameTime;
            && s.after.current == p.current && s.after.lastFrameTime == now
            && s.after.index == (p.index + (p.accumulator + gap) / fd) % |p.current.value.frames|
            && s.after.accumulator == (p.accumulator + gap) % fd
  {
    TickWithoutHandOff(p, fd, now);
  }

  /**
   * A finished one-shot clip is replaced by the head of the queue. The index
   * restarts at 0 but the accumulator is NOT reset: the time already credited
   * advances the new clip in the same tick.
   */
  lemma TickDequeuesHead(p: Player, fd: nat, now: int)
    requires fd > 0 && Valid(p) && p.current.Some? && Finished(p) && |p.queue| > 0
    requires Elapse(p, now).accumulator >= 0
    ensures var s := Tick(p, fd, now);
            var acc := Elapse(p, now).accumulator;
            && s.rescheduled
            && s.after.current == Some(p.queue[0]) && s.after.queue == p.queue[1..]
            && s.after.index == (acc / fd) % |p.queue[0].frames|
            && s.after.accumulator == acc % fd
  {
    AdvanceClosedForm(0, Elapse(p, now).accumulator, |p.queue[0].frames|, fd);
  }

  /**
   * A finished one-shot clip with nothing queued falls back to the registered
   * `idle` clip, looping; applying it resets the index, the accumulator and the
   * time baseline.
   */
  lemma TickFallsBackToIdle(p: Player, fd: nat, now: int)
    requires fd > 0 && Valid(p) && p.current.Some? && Finished(p) && p.queue == []
    requires IdleName in p.animations
    ensures var s := Tick(p, fd, now);
            && s.rescheduled
            && s.after.current == Some(Clip(p.animations[IdleName], true))
            && s.after.queue == [] && s.after.index == 0
            && s.after.accumulator == 0 && s.after.lastFrameTime == 0
  {
  }

  /**
   * The render loop dies (the callback throws before requesting the next tick)
   * exactly when a finished one-shot clip has nothing to hand off to, no `idle`
   * clip is registered, and a frame is due.
   */
  lemma TickStopsIff(p: Player, fd: nat, now: int)
    requires fd > 0 && Valid(p)
    ensures !Tick(p, fd, now).rescheduled <==>
              && p.current.Some? && Finished(p) && p.queue == []
              && IdleName !in p.animations && Elapse(p, now).accumulator >= fd
  {
  }

  /**
   * The first tick after a clip is applied only establishes the time baseline:
   * it credits no time and leaves the clip at frame 0 (unless a one-frame
   * one-shot clip is already finished).
   */
  lemma FirstTickAfterApply(p: Player, name: string, isLoop: Option<bool>, fd: nat, now: int)
    requires fd > 0 && Valid(p) && name in p.animations
    requires isLoop.GetOr(false) || |p.animations[name]| > 1
    ensures var q := SetAnimation(p, name, true, isLoop, NoPath);
            Tick(q, fd, now) == Step(q.(lastFrameTime := now), true)
  {
  }

  /**
   * The current clip plays as if started at time `t0`: its index is the number
   * of whole frame durations since `t0`, modulo the frame count, and the
   * accumulator holds the rest.
   */
  predicate Tracks(p: Player, t0: int, fd: nat)
    requires fd > 0
  {
    && p.current.Some? && |p.current.value.frames| > 0 && p.lastFrameTime >= t0
    && p.index == ((p.lastFrameTime - t0) / fd) % |p.current.value.frames|
    && p.accumulator == (p.lastFrameTime - t0) % fd
  }

  /**
   * Arithmetic of one step of the wall clock: crediting `d` more units to a
   * clip that is `t` units in moves it to where it would be `t + d` units in.
   */
  lemma ClockStep(t: int, d: int, fd: nat, n: nat)
    requires t >= 0 && d >= 0 && fd > 0 && n > 0
    ensures ((t / fd) % n + (t % fd + d) / fd) % n == ((t + d) / fd) % n
    ensures (t % fd + d) % fd == (t + d) % fd
  {
    var acc := t % fd + d;
    ModAddMod(t / fd, acc / fd, n);
    assert t == (t / fd) * fd + t % fd;
    assert acc == (acc / fd) * fd + acc % fd;
    assert t + d == (t / fd + acc / fd) * fd + acc % fd;
    DivModUnique(t + d, fd, t / fd + acc / fd, acc % fd);
  }

  /** One tick of a looping clip keeps it in step with the wall clock. */
  lemma LoopingTickTracksClock(p: Player, fd: nat, now: int, t0: int)
    requires fd > 0 && Valid(p) && p.current.Some? && p.current.value.isLooping
    requires p.lastFrameTime > 0 && now >= p.lastFrameTime && Tracks(p, t0, fd)
    ensures var s := Tick(p, fd, now);
            && s.rescheduled && s.after.current == p.current && s.after.queue == p.queue
            && s.after.lastFrameTime == now && Tracks(s.after, t0, fd)
  {
    var n := |p.current.value.frames|;
    var t := p.lastFrameTime - t0;
    var d := now - p.lastFrameTime;
    var q := Elapse(p, now);
    assert q.accumulator == t % fd + d;
    assert !Finished(q);
    AdvanceClosedForm(p.index, q.accumulator, n, fd);
    ClockStep(t, d, fd, n);
    assert now - t0 == t + d;
  }

  /** Ticks at the given times, stopping early if the render loop dies. */
  function RunTicks(p: Player, fd: nat, times: seq<int>): (r: Player)
    requires fd > 0 && Valid(p)
    ensures Valid(r)
    decreases |times|
  {
    if times == [] then p
    else
      var s := Tick(p, fd, times[0]);
      if s.rescheduled then RunTicks(s.after, fd, times[1..]) else s.after
  }

  predicate Ascending(from: int, times: seq<int>)
  {
    && (times != [] ==> from <= times[0])
    && (forall i :: 0 < i < |times| ==> times[i - 1] <= times[i])
  }

  /**
   * Over any run of ticks at non-decreasing times, a looping clip shows frame
   * `((t - t0) / frameDuration) mod n` at the time `t` of the last tick, and
   * the queue is never touched.
   */
  lemma {:induction false} LoopingClipFollowsWallClock(p: Player, fd: nat, t0: int, times: seq<int>)
    requires fd > 0 && Valid(p) && p.current.Some? && p.current.value.isLooping
    requires p.lastFrameTime > 0 && Tracks(p, t0, fd) && Ascending(p.lastFrameTime, times)
    ensures var r := RunTicks(p, fd, times);
            && r.current == p.current && r.queue == p.queue && Tracks(r, t0, fd)
            && r.lastFrameTime == (if times == [] then p.lastFrameTime else times[|times| - 1])
    decreases |times|
  {
    if times != [] {
      LoopingTickTracksClock(p, fd, times[0], t0);
      var q := Tick(p, fd, times[0]).after;
      assert Ascending(q.lastFrameTime, times[1..]) by {
        forall i | 0 < i < |times[1..]|
          ensures times[1..][i - 1] <= times[1..][i]
        {
          assert times[1..][i - 1] == times[i] && times[1..][i] == times[i + 1];
        }
      }
      LoopingClipFollowsWallClock(q, fd, t0, times[1..]);
    }
  }

  /**
   * A looping clip applied at once shows, at every later tick time `t`, frame
   * `((t - t0) / frameDuration) mod n`, where `t0` is the time of the first
   * tick after it was applied.
   */
  lemma AppliedLoopFollowsWallClock(p: Player, name: string, fd: nat, t0: int, times: seq<int>)
    requires fd > 0 && Valid(p) && name in p.animations && t0 > 0 && Ascending(t0, times)
    ensures var q := SetAnimation(p, name, true, Some(true), NoPath);
            var r := RunTicks(q, fd, [t0] + times);
            var n := |p.animations[name]|;
            && r.current == Some(Clip(p.animations[name], true))
            && r.index == (((if times == [] then t0 else times[|times| - 1]) - t0) / fd) % n
  {
    var q := SetAnimation(p, name, true, Some(true), NoPath);
    FirstTickAfterApply(p, name, Some(true), fd, t0);
    var a := Tick(q, fd, t0).after;
    assert Tracks(a, t0, fd) by {
      DivModUnique(0, fd, 0, 0);
      DivModUnique(0, |p.animations[name]|, 0, 0);
    }
    assert ([t0] + times)[1..] == times;
    LoopingClipFollowsWallClock(a, fd, t0, times);
  }

  /**
   * A tick with no current clip only applies the registered `idle` clip,
   * looping: the index, the accumulator and the time baseline restart at 0,
   * the queue is untouched and the next tick is requested.
   */
  lemma TickWithoutClipAppliesIdle(p: Player, fd: nat, now: int)
    requires fd > 0 && Valid(p) && p.current.None? && IdleName in p.animations
    ensures var s := Tick(p, fd, now);
            && s.rescheduled
            && s.after.current == Some(Clip(p.animations[IdleName], true))
            && s.after.index == 0 && s.after.accumulator == 0 && s.after.lastFrameTime == 0
            && s.after.queue == p.queue && s.after.animations == p.animations
  {
  }

  /**
   * A freshly constructed animator with a three-frame `idle` clip registered,
   * at the default frame duration: the first tick applies `idle`, the second
   * sets the time baseline, and 250 and 500 time units after that baseline the
   * clip shows frames 2 and 1.
   */
  lemma IdleScenario(f0: Frame, f1: Frame, f2: Frame)
    ensures var p := Initial().(animations := map[IdleName := [f0, f1, f2]]);
            var a := Tick(p, DefaultFrameDuration, 1000).after;
            var b := Tick(a, DefaultFrameDuration, 1250).after;
            var c := Tick(b, DefaultFrameDuration, 1500).after;
            var d := Tick(c, DefaultFrameDuration, 1750).after;
            && a.current == Some(Clip([f0, f1, f2], true)) && a.index == 0
            && b.index == 0 && c.index == 2 && d.index == 1
  {
    var p := Initial().(animations := map[IdleName := [f0, f1, f2]]);
    assert Valid(p);
    var a := Tick(p, DefaultFrameDuration, 1000).after;
    TickWithoutClipAppliesIdle(p, DefaultFrameDuration, 1000);
    assert a == SetAnimation(p, IdleName, true, Some(true), NoPath);
    AppliedLoopFollowsWallClock(p, IdleName, DefaultFrameDuration, 1250, [1500, 1750]);
    AppliedLoopFollowsWallClock(p, IdleName, DefaultFrameDuration, 1250, [1500]);
  }
}
