/**
 * The tween record of Runtime/Tween.cs. The C# type is a struct, so it is a value:
 * storing it in the pool, returning it from Crisp.Create and pausing it all copy it.
 */
module Tweens {
  import opened Wrappers
  import opened Callbacks
  import opened Ease

  datatype LoopType = Restart | Yoyo | Incremental

  /** The value of `loops` that never finishes. */
  const Infinite: int := -1

  /** A custom easing function; None is an exception raised for that input. */
  type EaseFn = real -> Option<real>

  /** One pooled tween; the last three fields are the runner's internal state. */
  datatype Tween = Tween(
    id: int,
    isActive: bool,
    duration: real,
    delay: real,
    elapsed: real,
    isPaused: bool,
    easeType: EaseType,
    customEase: Option<EaseFn>,
    loops: int,
    loopType: LoopType,
    onStart: Action,
    onUpdate: Option<UpdateHook>,
    onComplete: Action,
    onStepComplete: Action,
    started: bool,
    completedLoops: int,
    playingBackwards: bool)
  {
    /** Tween.Pause: sets IsPaused and nothing else. */
    function Pause(): (r: Tween)
      ensures r.isPaused
      ensures r.(isPaused := isPaused) == this
    {
      this.(isPaused := true)
    }

    /** Tween.Play: clears IsPaused and nothing else. */
    function Play(): (r: Tween)
      ensures !r.isPaused
      ensures r.(isPaused := isPaused) == this
    {
      this.(isPaused := false)
    }
  }

  /** The zero-initialised struct an empty pool slot holds. */
  const Empty: Tween := Tween(0, false, 0.0, 0.0, 0.0, false, Linear, None, 0, Restart, [], None, [], [], false, 0, false)

  /** The record Crisp.Create builds before handing it to the pool. */
  function NewTween(duration: real, onUpdate: Option<UpdateHook>): (t: Tween)
    ensures !t.started && t.completedLoops == 0 && !t.playingBackwards
    ensures t.elapsed == 0.0 && t.delay == 0.0 && !t.isPaused
  {
    Empty.(duration := duration, onUpdate := onUpdate, easeType := Linear, loops := 1, loopType := Restart)
  }

  lemma PauseIdempotent(t: Tween)
    ensures t.Pause().Pause() == t.Pause()
  {
  }

  lemma PlayIdempotent(t: Tween)
    ensures t.Play().Play() == t.Play()
  {
  }

  /** Play after Pause yields an unpaused record that differs from the original at most in IsPaused. */
  lemma PlayAfterPause(t: Tween)
    ensures !t.Pause().Play().isPaused
    ensures t.Pause().Play() == t.Play()
    ensures !t.isPaused ==> t.Pause().Play() == t
  {
  }
}
