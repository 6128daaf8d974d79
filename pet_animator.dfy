/**
 * The pet animator object: the playback fields updated in place by
 * `setAnimation` and by each render tick, the `start`/`stop` lifecycle flags, and
 * the pointer-gesture handlers (press, long-press timer, release).
 *
 * Every method is proved against the value-level specification in module
 * Playback: after each call the object's playback fields, read as a `Player`,
 * are exactly what the corresponding function computes from the old ones.
 */
module Animator {
  import opened Options
  import opened Regions
  import opened Playback
  import PlaybackLemmas

  /** A clip request made by a gesture: the clip name and the `isLoop` argument. */
  datatype Request = Request(name: string, isLoop: Option<bool>)

  /**
   * The decision of the `mouseup` handler. A release that ends a drag plays the
   * one-shot `down` clip; otherwise the region under the pointer decides: the
   * pinch and head regions play `touchHead`, the body region one of the two
   * body clips as the coin (`Math.random() > 0.5`) says, and no region plays
   * nothing.
   */
  function ReleaseChoice(dragging: bool, region: Option<Region>, coin: bool): (r: Option<Request>)
    ensures dragging ==> r == Some(Request("down", Some(false)))
    ensures !dragging ==> (r.None? <==> region.None?)
    ensures !dragging && (region == Some(Pinch) || region == Some(Head)) ==>
              r == Some(Request("touchHead", None))
    ensures !dragging && region == Some(Body) ==>
              r == Some(Request(if coin then "touchBody1" else "touchBody2", None))
    // a release never starts a looping clip, and never the long-press clip
    ensures r.Some? ==> !r.value.isLoop.GetOr(false) && r.value.name != "rise"
  {
    if dragging then Some(Request("down", Some(false)))
    else
      match region
      case Some(Pinch) => Some(Request("touchHead", None))
      case Some(Head) => Some(Request("touchHead", None))
      case Some(Body) => Some(Request(if coin then "touchBody1" else "touchBody2", None))
      case None => None
  }

  /** The gesture that a press-and-release without a drag produces on the body region. */
  lemma TapOnBodyPlaysTouchBody(p: Point, coin: bool)
    requires HitTest(p, Bounds(Body))
    ensures var r := ReleaseChoice(false, CheckBody(p), coin);
            r.Some? && (r.value.name == "touchBody1" || r.value.name == "touchBody2")
  {
    BodyIsUnambiguous(p);
  }

  class PetAnimator {
    // the clip registry and the playback state
    var animations: map<string, seq<Frame>>
    var currentAnimation: Option<Clip>
    var animationsQueue: seq<Clip>
    var currentFrameIndex: nat
    var accumulator: int
    var lastFrameTime: int
    const frameDuration: nat

    // lifecycle: a live AbortController with its listeners, the running flag,
    // and whether an animation frame is requested
    var listening: bool
    var isRunning: bool
    var framePending: bool

    // gestures: the drag flag, the long-press timers not yet fired or cleared,
    // and whether the latest timer (the one `mousedownTimeout` holds) is among them
    var isDragAble: bool
    var armedTimers: nat
    var latestArmed: bool

    /** The playback fields as a value. */
    ghost function Snapshot(): Player
      reads this
    {
      Player(animations, currentAnimation, animationsQueue, currentFrameIndex, accumulator, lastFrameTime)
    }

    /** The lifecycle and gesture fields, which playback operations leave alone. */
    ghost function Controls(): (bool, bool, bool, bool, nat, bool)
      reads this
    {
      (listening, isRunning, framePending, isDragAble, armedTimers, latestArmed)
    }

    ghost predicate Valid()
      reads this
    {
      && Playback.Valid(Snapshot())
      && frameDuration > 0
      && (latestArmed ==> armedTimers > 0)
    }

    /** `frameDuration` defaults to 120 time units. */
    constructor (frameDuration: Option<nat>)
      requires frameDuration.Some? ==> frameDuration.value > 0
      ensures Valid()
      ensures Snapshot() == Initial()
      ensures this.frameDuration == frameDuration.GetOr(DefaultFrameDuration)
      ensures Controls() == (false, false, false, false, 0, false)
    {
      this.frameDuration := frameDuration.GetOr(DefaultFrameDuration);
      animations := map[];
      currentAnimation := None;
      animationsQueue := [];
      currentFrameIndex := 0;
      accumulator := 0;
      lastFrameTime := 0;
      listening := false;
      isRunning := false;
      framePending := false;
      isDragAble := false;
      armedTimers := 0;
      latestArmed := false;
    }

    /**
     * `loadAnimation`: registers the decoded frames under `name`, replacing an
     * earlier registration; `None` stands for a decode failure, which registers
     * nothing.
     */
    method LoadAnimation(name: string, decoded: Option<seq<Frame>>)
      requires Valid()
      requires decoded.Some? ==> |decoded.value| > 0
      modifies this
      ensures Valid()
      ensures animations == if decoded.Some? then old(animations)[name := decoded.value] else old(animations)
      ensures Snapshot().(animations := old(animations)) == old(Snapshot())
      ensures Controls() == old(Controls())
    {
      if decoded.Some? {
        animations := animations[name := decoded.value];
      }
    }

    /** `setAnimation`, proved against its specification. */
    method SetAnimation(name: string, applyNow: bool, isLoop: Option<bool>, path: Assets)
      requires Valid() && WellFormed(path)
      modifies this
      ensures Valid()
      ensures Snapshot() == Playback.SetAnimation(old(Snapshot()), name, applyNow, isLoop, path)
      ensures Controls() == old(Controls())
    {
      if name !in animations {
        if path.NoPath? {
          // unknown animation: logged, nothing else happens
          return;
        }
        LoadAnimation(name, if path.Decoded? then Some(path.frames) else None);
        if name !in animations {
          // the load rejected; so does setAnimation
          return;
        }
      }
      var temp := Clip(animations[name], isLoop.GetOr(false));
      if applyNow {
        currentAnimation := Some(temp);
        currentFrameIndex := 0;
        lastFrameTime := 0;
        accumulator := 0;
      } else {
        animationsQueue := animationsQueue + [temp];
      }
    }

    /** `start`: registers the listeners once, and starts the render loop if it is not running. */
    method Start()
      requires Valid()
      modifies this
      ensures Valid()
      ensures listening && isRunning
      ensures framePending == (old(framePending) || !old(isRunning))
      ensures Snapshot() == old(Snapshot())
      ensures (isDragAble, armedTimers) == old((isDragAble, armedTimers))
      // fresh listeners close over a fresh `mousedownTimeout`, which holds no timer yet
      ensures latestArmed == (old(latestArmed) && old(listening))
    {
      if !listening {
        listening := true;
        latestArmed := false;
      }
      if isRunning {
        return;
      }
      isRunning := true;
      framePending := true;
    }

    /** `stop`: revokes the listeners, and cancels the pending frame if the loop is running. */
    method Stop()
      modifies this
      ensures !listening && !isRunning
      ensures framePending == (old(framePending) && !old(isRunning))
      ensures Snapshot() == old(Snapshot())
      ensures (isDragAble, armedTimers, latestArmed) == old((isDragAble, armedTimers, latestArmed))
    {
      if listening {
        listening := false;
      }
      if !isRunning {
        return;
      }
      isRunning := false;
      framePending := false;
    }

    /** Lines 390-397 of the loop: set the baseline on the first tick, then credit the elapsed time. */
    method ElapseTo(now: int)
      requires Valid()
      modifies this
      ensures Valid()
      ensures Snapshot() == Elapse(old(Snapshot()), now)
      ensures Controls() == old(Controls())
    {
      if lastFrameTime == 0 {
        lastFrameTime := now;
      }
      var deltaTime := now - lastFrameTime;
      lastFrameTime := now;
      accumulator := accumulator + deltaTime;
    }

    /** Lines 409-424 of the loop: a finished one-shot clip gives way to the next queued clip, or to `idle`. */
    method HandOffIfFinished()
      requires Valid() && currentAnimation.Some?
      modifies this
      ensures Valid()
      ensures Snapshot() == if Finished(old(Snapshot())) then HandOff(old(Snapshot())) else old(Snapshot())
      ensures Controls() == old(Controls())
    {
      var clip := currentAnimation.value;
      if currentFrameIndex >= |clip.frames| - 1 {
        if !clip.isLooping {
          if |animationsQueue| > 0 {
            currentAnimation := Some(animationsQueue[0]);
            animationsQueue := animationsQueue[1..];
          } else {
            currentAnimation := None;
            SetAnimation(IdleName, true, Some(true), NoPath);
          }
          currentFrameIndex := 0;
        }
      }
    }

    /** Lines 426-430 of the loop: step one frame per whole frame duration in the accumulator. */
    method AdvanceFrames()
      requires Valid() && currentAnimation.Some?
      modifies this
      ensures Valid()
      ensures var a := Advance(old(currentFrameIndex), old(accumulator),
                               |old(currentAnimation).value.frames|, frameDuration);
              Snapshot() == old(Snapshot()).(index := a.0, accumulator := a.1)
      ensures Controls() == old(Controls())
    {
      var n := |currentAnimation.value.frames|;
      ghost var a := Advance(currentFrameIndex, accumulator, n, frameDuration);
      while accumulator >= frameDuration
        invariant currentFrameIndex < n
        invariant Advance(currentFrameIndex, accumulator, n, frameDuration) == a
        invariant Snapshot() == old(Snapshot()).(index := currentFrameIndex, accumulator := accumulator)
        invariant Controls() == old(Controls())
        decreases accumulator
      {
        currentFrameIndex := (currentFrameIndex + 1) % n;
        accumulator := accumulator - frameDuration;
      }
    }

    /**
     * One call of the `loop` callback at time `now`: nothing when stopped,
     * otherwise one tick as `Playback.Tick` specifies it; the next frame is
     * requested unless the tick threw.
     */
    method Tick(now: int)
      requires Valid()
      modifies this
      ensures Valid()
      ensures !old(isRunning) ==> Snapshot() == old(Snapshot()) && !framePending
      ensures old(isRunning) ==>
                var s := Playback.Tick(old(Snapshot()), frameDuration, now);
                Snapshot() == s.after && framePending == s.rescheduled
      ensures (listening, isRunning, isDragAble, armedTimers, latestArmed)
           == old((listening, isRunning, isDragAble, armedTimers, latestArmed))
    {
      if !isRunning {
        framePending := false;
        return;
      }
      ElapseTo(now);
      if currentAnimation.None? {
        SetAnimation(IdleName, true, Some(true), NoPath);
        framePending := true;
        return;
      }
      HandOffIfFinished();
      if currentAnimation.None? {
        // the frame loop reads `frames` of a missing clip as soon as a frame is due
        framePending := accumulator < frameDuration;
        return;
      }
      AdvanceFrames();
      framePending := true;
    }

    /**
     * The region under `pos`. The hit boxes are set by the first completed
     * load, so while nothing is registered `checkBody` throws; the handlers then
     * stop at that point, which has the effect of a press outside every region.
     */
    function RegionAt(pos: Point): (r: Option<Region>)
      reads this
      ensures animations == map[] ==> r.None?
      ensures animations != map[] ==> r == CheckBody(pos)
    {
      if animations == map[] then None else CheckBody(pos)
    }

    /**
     * The `mousedown` handler at surface offset `pos`: a press on the body arms
     * the long-press timer (overwriting the handle of any earlier timer, which
     * stays armed); any press clears the drag flag.
     */
    method MouseDown(pos: Point)
      requires Valid() && listening
      modifies this
      ensures Valid()
      ensures !isDragAble
      ensures RegionAt(pos) == Some(Body) ==> armedTimers == old(armedTimers) + 1 && latestArmed
      ensures RegionAt(pos) != Some(Body) ==>
                armedTimers == old(armedTimers) && latestArmed == old(latestArmed)
      ensures Snapshot() == old(Snapshot())
      ensures (listening, isRunning, framePending) == old((listening, isRunning, framePending))
    {
      isDragAble := false;
      if animations == map[] {
        return;
      }
      var t := CheckBody(pos);
      if t == Some(Body) {
        armedTimers := armedTimers + 1;
        latestArmed := true;
      } else {
        isDragAble := false;
      }
    }

    /**
     * A long-press timer fires (`latest` says whether it is the one
     * `mousedownTimeout` holds). It applies the looping `rise` clip, loading it
     * from `riseAssets` if needed, and then turns dragging on; if the load
     * rejects, the drag flag is left as it was.
     */
    method LongPressFires(latest: bool, riseAssets: Assets)
      requires Valid() && WellFormed(riseAssets) && !riseAssets.NoPath?
      requires armedTimers > 0
      requires latest ==> latestArmed
      requires !latest ==> armedTimers > (if latestArmed then 1 else 0)
      modifies this
      ensures Valid()
      ensures armedTimers == old(armedTimers) - 1
      ensures latestArmed == (old(latestArmed) && !latest)
      ensures Snapshot() == Playback.SetAnimation(old(Snapshot()), "rise", true, Some(true), riseAssets)
      ensures isDragAble == ("rise" in animations || old(isDragAble))
      ensures (listening, isRunning, framePending) == old((listening, isRunning, framePending))
    {
      armedTimers := armedTimers - 1;
      if latest {
        latestArmed := false;
      }
      SetAnimation("rise", true, Some(true), riseAssets);
      if "rise" in animations {
        isDragAble := true;
      }
    }

    /**
     * The `mouseup` handler at surface offset `pos`. Without a drag it clears
     * the latest long-press timer and plays the clip the released region
     * selects; after a drag it plays `down`. `assets` are the decoded frames of
     * the chosen clip's asset table, and `coin` is the random draw.
     */
    method MouseUp(pos: Point, coin: bool, assets: Assets)
      requires Valid() && listening && WellFormed(assets) && !assets.NoPath?
      modifies this
      ensures Valid()
      ensures !isDragAble
      ensures var choice := ReleaseChoice(old(isDragAble), old(RegionAt(pos)), coin);
              Snapshot() == if choice.None? then old(Snapshot())
                            else Playback.SetAnimation(old(Snapshot()), choice.value.name, true,
                                                       choice.value.isLoop, assets)
      ensures !old(isDragAble) ==>
                && !latestArmed
                && armedTimers == old(armedTimers) - (if old(latestArmed) then 1 else 0)
      ensures old(isDragAble) ==> armedTimers == old(armedTimers) && latestArmed == old(latestArmed)
      ensures (listening, isRunning, framePending) == old((listening, isRunning, framePending))
    {
      if !isDragAble {
        if latestArmed {
          // clearTimeout(mousedownTimeout)
          armedTimers := armedTimers - 1;
          latestArmed := false;
        }
        if animations == map[] {
          return;
        }
        var t := CheckBody(pos);
        var choice := ReleaseChoice(false, t, coin);
        if choice.Some? {
          SetAnimation(choice.value.name, true, choice.value.isLoop, assets);
        }
      } else {
        SetAnimation("down", true, Some(false), assets);
      }
      isDragAble := false;
    }
  }

  /**
   * `stop`, then `start`, then the next frame callback at time `now`. Neither
   * lifecycle call touches the time baseline, so the tick credits everything
   * since the last tick before the stop, the pause included, exactly as if the
   * loop had never been stopped.
   */
  method RestartAfterPause(a: PetAnimator, now: int)
    requires a.Valid() && a.currentAnimation.Some? && !Finished(a.Snapshot())
    requires a.lastFrameTime > 0 && a.accumulator >= 0 && now >= a.lastFrameTime
    modifies a
    ensures a.Valid() && a.isRunning && a.framePending
    ensures a.Snapshot() == Playback.Tick(old(a.Snapshot()), a.frameDuration, now).after
    ensures a.currentAnimation == old(a.currentAnimation)
    ensures a.currentFrameIndex
         == (old(a.currentFrameIndex) + (old(a.accumulator) + (now - old(a.lastFrameTime))) / a.frameDuration)
            % |old(a.currentAnimation).value.frames|
  {
    a.Stop();
    a.Start();
    a.Tick(now);
    PlaybackLemmas.TickCreditsWholeGap(old(a.Snapshot()), a.frameDuration, now);
  }
}
