/**
 * What one tick of TweenRunner.OnUpdate does to a slot and to the pool, stated over
 * the specification functions `Step` and `Run` that the runner's methods are proved
 * to follow.
 */
module TickLemmas {
  import opened Wrappers
  import opened Callbacks
  import opened Ease
  import opened Tweens
  import opened Runner

  // ---------------------------------------------------------------------------
  // Which hooks a stretch of the log comes from

  /** No entry of `events` is a call of an OnStart handler. */
  predicate NoStartCall(events: seq<Event>)
  {
    forall k :: 0 <= k < |events| ==> !(events[k].Called? && events[k].hook == Start)
  }

  /** Every call `Invoke` logs is of the hook it was given. */
  lemma {:induction false} InvokeHook(id: int, hook: Hook, a: Action)
    ensures forall k :: 0 <= k < |Invoke(id, hook, a)| && Invoke(id, hook, a)[k].Called? ==> Invoke(id, hook, a)[k].hook == hook
  {
    if a != [] && !a[0].throws {
      InvokeHook(id, hook, a[1..]);
      InvokeCons(id, hook, a[0], a[1..]);
      assert a == [a[0]] + a[1..];
    }
  }

  /** Concatenating logs without start calls gives a log without start calls. */
  lemma NoStartCallAppend(a: seq<Event>, b: seq<Event>)
    requires NoStartCall(a) && NoStartCall(b)
    ensures NoStartCall(a + b)
  {
    forall k | 0 <= k < |a + b| ensures !((a + b)[k].Called? && (a + b)[k].hook == Start) {
      if k >= |a| { assert (a + b)[k] == b[k - |a|]; }
    }
  }

  /** The hooks other than OnStart never log a start call. */
  lemma InvokeNoStart(id: int, hook: Hook, a: Action)
    requires hook != Start
    ensures NoStartCall(Invoke(id, hook, a))
  {
    InvokeHook(id, hook, a);
  }

  // ---------------------------------------------------------------------------
  // One slot

  /** Inactive and paused slots are passed over untouched, with the time step unchanged. */
  lemma IdleSlotUntouched(t: Tween, dt: real, m: Mathf)
    requires !t.isActive || t.isPaused
    ensures Step(t, dt, m) == SlotStep(t, dt, [], false)
  {
  }

  /** A delay that stays positive only shrinks by the time step: nothing else changes and nothing is called. */
  lemma PendingDelayOnlyShrinks(t: Tween, dt: real, m: Mathf)
    requires t.isActive && !t.isPaused && t.delay > 0.0 && t.delay - dt > 0.0
    ensures Step(t, dt, m) == SlotStep(t.(delay := t.delay - dt), dt, [], false)
  {
  }

  /** Advancing a slot touches only the start flag, elapsed time, loop count, activity and direction. */
  lemma AdvanceFrame(t: Tween, dt: real, m: Mathf)
    ensures var u := Advance(t, dt, m).t;
      u == t.(started := u.started, elapsed := u.elapsed, completedLoops := u.completedLoops,
              isActive := u.isActive, playingBackwards := u.playingBackwards)
  {
    var moved := Moved(t, dt);
    var p := t.(started := true, elapsed := moved.0);
    var eased := Eased(p, Normalized(p.elapsed, p.duration), m);
    var startEvents := if t.started then [] else Invoke(t.id, Start, t.onStart);
    ConcludeFrame(p, moved.1, dt, startEvents + (eased.1 + Deliver(p.id, p.onUpdate, eased.0)));
  }

  /** Concluding an iteration touches only the elapsed time, loop count, activity and direction. */
  lemma ConcludeFrame(p: Tween, completed: bool, dt: real, events: seq<Event>)
    ensures var u := Conclude(p, completed, dt, events).t;
      u == p.(elapsed := u.elapsed, completedLoops := u.completedLoops,
              isActive := u.isActive, playingBackwards := u.playingBackwards)
  {
    var looped := p.(completedLoops := p.completedLoops + 1);
    if !completed {
      assert Conclude(p, completed, dt, events).t == p;
    } else if p.loops != Infinite && looped.completedLoops >= p.loops {
      assert Conclude(p, completed, dt, events).t == looped.(isActive := false);
    } else {
      assert Conclude(p, completed, dt, events).t == Rewind(looped);
      RewindFrame(looped);
    }
  }

  /** Rewinding for the next loop touches only the elapsed time and the direction. */
  lemma RewindFrame(t: Tween)
    ensures Rewind(t) == t.(elapsed := Rewind(t).elapsed, playingBackwards := Rewind(t).playingBackwards)
  {
  }

  /**
   * A delay that runs out is set to 0, and the slot advances by the overshoot, which is
   * also the time step handed to every later slot of the same tick.
   */
  lemma ExpiredDelayCarriesOvershoot(t: Tween, dt: real, m: Mathf)
    requires t.isActive && !t.isPaused && t.delay > 0.0 && t.delay - dt <= 0.0
    ensures Step(t, dt, m) == Advance(t.(delay := 0.0), dt - t.delay, m)
    ensures Step(t, dt, m).t.delay == 0.0
    ensures Step(t, dt, m).dt == dt - t.delay
  {
    AdvanceFrame(t.(delay := 0.0), dt - t.delay, m);
  }

  /** A slot with no delay pending advances by the time step it is given, which it hands on unchanged. */
  lemma ReadySlotAdvances(t: Tween, dt: real, m: Mathf)
    requires t.isActive && !t.isPaused && t.delay <= 0.0
    ensures Step(t, dt, m) == Advance(t, dt, m)
    ensures Step(t, dt, m).dt == dt
  {
  }

  /**
   * The start hook is invoked only on a slot that has not started, and a slot that
   * got past its delay is marked started, so each tween starts at most once.
   */
  lemma StartFiresOnce(t: Tween, dt: real, m: Mathf)
    ensures t.started ==> NoStartCall(Step(t, dt, m).events)
    ensures Step(t, dt, m).t.started <==>
      t.started || (t.isActive && !t.isPaused && !(t.delay > 0.0 && t.delay - dt > 0.0))
  {
    if t.started {
      StartedStepNoStart(t, dt, m);
    }
    StepMarksStarted(t, dt, m);
  }

  /** A slot that has already started logs no start call. */
  lemma StartedStepNoStart(t: Tween, dt: real, m: Mathf)
    requires t.started
    ensures NoStartCall(Step(t, dt, m).events)
  {
    if !t.isActive || t.isPaused || (t.delay > 0.0 && t.delay - dt > 0.0) {
      assert Step(t, dt, m).events == [];
    } else {
      var u := if t.delay > 0.0 then t.(delay := 0.0) else t;
      var d := if t.delay > 0.0 then -(t.delay - dt) else dt;
      assert Step(t, dt, m).events == Advance(u, d, m).events;
      AdvanceMarksStarted(u, d, m);
    }
  }

  /** A slot is started after a step exactly when it was, or it got past its delay in this step. */
  lemma StepMarksStarted(t: Tween, dt: real, m: Mathf)
    ensures Step(t, dt, m).t.started <==>
      t.started || (t.isActive && !t.isPaused && !(t.delay > 0.0 && t.delay - dt > 0.0))
  {
    if !t.isActive || t.isPaused {
      assert Step(t, dt, m).t == t;
    } else if t.delay > 0.0 && t.delay - dt > 0.0 {
      assert Step(t, dt, m).t == t.(delay := t.delay - dt);
    } else if t.delay > 0.0 {
      ExpiredDelayCarriesOvershoot(t, dt, m);
      AdvanceMarksStarted(t.(delay := 0.0), dt - t.delay, m);
    } else {
      ReadySlotAdvances(t, dt, m);
      AdvanceMarksStarted(t, dt, m);
    }
  }

  /** Advancing a slot marks it started, and a slot already started logs no start call. */
  lemma AdvanceMarksStarted(t: Tween, dt: real, m: Mathf)
    ensures Advance(t, dt, m).t.started
    ensures t.started ==> NoStartCall(Advance(t, dt, m).events)
  {
    var moved := Moved(t, dt);
    var p := t.(started := true, elapsed := moved.0);
    var eased := Eased(p, Normalized(p.elapsed, p.duration), m);
    var delivered := eased.1 + Deliver(p.id, p.onUpdate, eased.0);
    if t.started {
      assert NoStartCall(eased.1);
      assert NoStartCall(Deliver(p.id, p.onUpdate, eased.0));
      NoStartCallAppend(eased.1, Deliver(p.id, p.onUpdate, eased.0));
      assert [] + delivered == delivered;
      ConcludeNoStart(p, moved.1, dt, delivered);
    } else {
      ConcludeKeepsStarted(p, moved.1, dt, Invoke(t.id, Start, t.onStart) + delivered);
    }
  }

  /** Concluding an iteration keeps the slot started and adds no start call. */
  lemma ConcludeNoStart(p: Tween, completed: bool, dt: real, events: seq<Event>)
    requires p.started && NoStartCall(events)
    ensures Conclude(p, completed, dt, events).t.started
    ensures NoStartCall(Conclude(p, completed, dt, events).events)
  {
    if completed {
      InvokeNoStart(p.id, StepComplete, p.onStepComplete);
      InvokeNoStart(p.id, Complete, p.onComplete);
      NoStartCallAppend(events, Invoke(p.id, StepComplete, p.onStepComplete));
      NoStartCallAppend(events + Invoke(p.id, StepComplete, p.onStepComplete), Invoke(p.id, Complete, p.onComplete));
    }
  }

  /** Concluding an iteration keeps a started slot started. */
  lemma ConcludeKeepsStarted(p: Tween, completed: bool, dt: real, events: seq<Event>)
    requires p.started
    ensures Conclude(p, completed, dt, events).t.started
  {
  }

  /** A slot that has not started and got past its delay calls its start handlers before anything else. */
  lemma StartComesFirst(t: Tween, dt: real, m: Mathf)
    requires t.isActive && !t.isPaused && !t.started && !(t.delay > 0.0 && t.delay - dt > 0.0)
    ensures Invoke(t.id, Start, t.onStart) <= Step(t, dt, m).events
  {
  }

  /** Elapsed over duration, or 1 for a duration that is not positive; within [0, 1] for an elapsed time within [0, duration]. */
  lemma NormalizedInUnit(elapsed: real, duration: real)
    ensures duration <= 0.0 ==> Normalized(elapsed, duration) == 1.0
    ensures duration > 0.0 && 0.0 <= elapsed <= duration ==> 0.0 <= Normalized(elapsed, duration) <= 1.0
  {
    if duration > 0.0 && 0.0 <= elapsed <= duration {
      assert elapsed / duration <= duration / duration;
    }
  }

  /**
   * With a time step that is not negative, a slot whose elapsed time lies within
   * [0, duration] keeps it there, and the time step it hands on is not negative either.
   */
  lemma ElapsedStaysInRange(t: Tween, dt: real, m: Mathf)
    requires dt >= 0.0 && 0.0 <= t.elapsed <= t.duration
    ensures 0.0 <= Step(t, dt, m).t.elapsed <= Step(t, dt, m).t.duration
    ensures Step(t, dt, m).t.duration == t.duration
    ensures Step(t, dt, m).dt >= 0.0
  {
    if !t.isActive || t.isPaused {
      IdleSlotUntouched(t, dt, m);
    } else if t.delay > 0.0 && t.delay - dt > 0.0 {
      assert Step(t, dt, m) == SlotStep(t.(delay := t.delay - dt), dt, [], false);
    } else if t.delay > 0.0 {
      ExpiredDelayCarriesOvershoot(t, dt, m);
      AdvanceInRange(t.(delay := 0.0), dt - t.delay, m);
    } else {
      ReadySlotAdvances(t, dt, m);
      AdvanceInRange(t, dt, m);
    }
  }

  /** Advancing by a time step that is not negative keeps the elapsed time within [0, duration]. */
  lemma AdvanceInRange(t: Tween, dt: real, m: Mathf)
    requires dt >= 0.0 && 0.0 <= t.elapsed <= t.duration
    ensures 0.0 <= Advance(t, dt, m).t.elapsed <= Advance(t, dt, m).t.duration
    ensures Advance(t, dt, m).t.duration == t.duration
    ensures Advance(t, dt, m).dt == dt
  {
    AdvanceFrame(t, dt, m);
  }

  /** The log entries a slot without a pending delay writes before its update hook is called. */
  function StartEntries(t: Tween): seq<Event>
  {
    if t.started then [] else Invoke(t.id, Start, t.onStart)
  }

  /** The log of a slot without a pending delay begins with its start entries, then the easing report and the update. */
  lemma ReadyLogPrefix(t: Tween, dt: real, m: Mathf)
    requires t.isActive && !t.isPaused && t.delay <= 0.0
    ensures var p := t.(started := true, elapsed := Moved(t, dt).0);
      var eased := Eased(p, Normalized(p.elapsed, p.duration), m);
      StartEntries(t) + (eased.1 + Deliver(p.id, p.onUpdate, eased.0)) <= Step(t, dt, m).events
  {
    ReadySlotAdvances(t, dt, m);
    var moved := Moved(t, dt);
    var p := t.(started := true, elapsed := moved.0);
    var eased := Eased(p, Normalized(p.elapsed, p.duration), m);
    var events := StartEntries(t) + (eased.1 + Deliver(p.id, p.onUpdate, eased.0));
    ConcludePrefix(p, moved.1, dt, events);
  }

  /** The loop and finish logic only appends to the log. */
  lemma ConcludePrefix(p: Tween, completed: bool, dt: real, events: seq<Event>)
    ensures events <= Conclude(p, completed, dt, events).events
  {
    if completed {
      var stepEvents := events + Invoke(p.id, StepComplete, p.onStepComplete);
      assert events <= stepEvents;
      assert stepEvents <= stepEvents + Invoke(p.id, Complete, p.onComplete);
    }
  }

  /**
   * The update hook of a slot with a built-in curve receives, right after any start
   * entries, the curve's value at the normalised, clamped elapsed time.
   */
  lemma UpdateGetsEasedTime(t: Tween, dt: real, m: Mathf, h: Handler)
    requires t.isActive && !t.isPaused && t.delay <= 0.0
    requires t.easeType != Custom && t.onUpdate == Some(Direct(h))
    ensures var e := Moved(t, dt).0;
      var events := Step(t, dt, m).events;
      |StartEntries(t)| < |events| &&
      events[|StartEntries(t)|] == Delivered(t.id, h.tag, Evaluate(Normalized(e, t.duration), t.easeType, m))
  {
    ReadyLogPrefix(t, dt, m);
  }

  /**
   * A custom easing function is used when the ease type is Custom: right after any start
   * entries, the update hook gets its value, or, if it raises, the error is reported and
   * the hook gets the normalised time itself.
   */
  lemma UpdateGetsCustomEase(t: Tween, dt: real, m: Mathf, h: Handler, f: EaseFn)
    requires t.isActive && !t.isPaused && t.delay <= 0.0
    requires t.easeType == Custom && t.customEase == Some(f) && t.onUpdate == Some(Direct(h))
    ensures var n := Normalized(Moved(t, dt).0, t.duration);
      var events := Step(t, dt, m).events;
      var k := |StartEntries(t)|;
      match f(n)
      case Some(v) => k < |events| && events[k] == Delivered(t.id, h.tag, v)
      case None => k + 2 <= |events| && events[k..k + 2] == [Error(Threw(t.id, Easing)), Delivered(t.id, h.tag, n)]
  {
    ReadyLogPrefix(t, dt, m);
  }

  /** A Custom ease type with no function set falls to the identity curve. */
  lemma CustomWithoutFunctionIsLinear(t: Tween, dt: real, m: Mathf, h: Handler)
    requires t.isActive && !t.isPaused && t.delay <= 0.0
    requires t.easeType == Custom && t.customEase == None && t.onUpdate == Some(Direct(h))
    ensures var events := Step(t, dt, m).events;
      |StartEntries(t)| < |events| &&
      events[|StartEntries(t)|] == Delivered(t.id, h.tag, Normalized(Moved(t, dt).0, t.duration))
  {
    ReadyLogPrefix(t, dt, m);
  }

  // ---------------------------------------------------------------------------
  // Iterations, loops and finishing

  /** Each advance counts a loop exactly when the iteration reached its boundary. */
  lemma LoopCountedOnce(t: Tween, dt: real, m: Mathf)
    ensures Advance(t, dt, m).t.completedLoops == t.completedLoops + (if Moved(t, dt).1 then 1 else 0)
  {
  }

  /** A slot finishes iff it completed an iteration, its loops are bounded, and the new loop count reached them. */
  lemma FinishesIff(t: Tween, dt: real, m: Mathf)
    ensures Advance(t, dt, m).finished <==> Moved(t, dt).1 && t.loops != Infinite && t.completedLoops + 1 >= t.loops
  {
  }

  /** The sentinel -1 never finishes: the slot stays live however long it runs. */
  lemma InfiniteNeverFinishes(t: Tween, dt: real, m: Mathf)
    requires t.loops == Infinite
    ensures !Step(t, dt, m).finished
    ensures Step(t, dt, m).t.isActive == t.isActive
  {
  }

  /** With a loop count that is not negative, Loops 0 behaves exactly like Loops 1. */
  lemma ZeroLoopsLikeOne(t: Tween, dt: real, m: Mathf)
    requires t.completedLoops >= 0
    ensures Step(t.(loops := 0), dt, m).finished == Step(t.(loops := 1), dt, m).finished
    ensures Step(t.(loops := 0), dt, m).events == Step(t.(loops := 1), dt, m).events
    ensures Step(t.(loops := 0), dt, m).t == Step(t.(loops := 1), dt, m).t.(loops := 0)
  {
    var t0, t1 := t.(loops := 0), t.(loops := 1);
    if t.isActive && !t.isPaused && !(t.delay > 0.0 && t.delay - dt > 0.0) {
      var u0 := if t.delay > 0.0 then t0.(delay := 0.0) else t0;
      var u1 := if t.delay > 0.0 then t1.(delay := 0.0) else t1;
      var d := if t.delay > 0.0 then -(t.delay - dt) else dt;
      assert u0 == u1.(loops := 0);
      AdvanceZeroLoops(u1, d, m);
    }
  }

  /** Advancing with Loops 0 and with Loops 1 differ only in the Loops field. */
  lemma AdvanceZeroLoops(t: Tween, dt: real, m: Mathf)
    requires t.completedLoops >= 0 && t.loops == 1
    ensures var a0, a1 := Advance(t.(loops := 0), dt, m), Advance(t, dt, m);
      a0.finished == a1.finished && a0.events == a1.events && a0.dt == a1.dt && a0.t == a1.t.(loops := 0)
  {
    var t0 := t.(loops := 0);
    var moved := Moved(t, dt);
    assert Moved(t0, dt) == moved;
    var p := t.(started := true, elapsed := moved.0);
    var p0 := t0.(started := true, elapsed := moved.0);
    assert p0 == p.(loops := 0);
    assert Eased(p0, Normalized(p0.elapsed, p0.duration), m) == Eased(p, Normalized(p.elapsed, p.duration), m);
  }

  /**
   * A finishing slot was live and is now inactive; its log ends with the step-complete
   * handlers followed by the complete handlers.
   */
  lemma FinishCallsComplete(t: Tween, dt: real, m: Mathf)
    requires Step(t, dt, m).finished
    ensures t.isActive && !Step(t, dt, m).t.isActive
    ensures var events := Step(t, dt, m).events;
      var tail := Invoke(t.id, StepComplete, t.onStepComplete) + Invoke(t.id, Complete, t.onComplete);
      |tail| <= |events| && events[|events| - |tail|..] == tail
  {
    var st := Step(t, dt, m);
    var u := if t.delay > 0.0 then t.(delay := 0.0) else t;
    var d := if t.delay > 0.0 then -(t.delay - dt) else dt;
    var moved := Moved(u, d);
    var p := u.(started := true, elapsed := moved.0);
    var eased := Eased(p, Normalized(p.elapsed, p.duration), m);
    var startEvents := if u.started then [] else Invoke(u.id, Start, u.onStart);
    var delivered := startEvents + (eased.1 + Deliver(p.id, p.onUpdate, eased.0));
    var tail := Invoke(t.id, StepComplete, t.onStepComplete) + Invoke(t.id, Complete, t.onComplete);
    assert st.events == delivered + tail;
  }

  /**
   * An iteration that completed without finishing applies the loop policy: Restart and
   * Incremental go back to 0, discarding the time beyond the boundary; Yoyo stays at the
   * boundary and turns round.
   */
  lemma LoopPolicy(t: Tween, dt: real, m: Mathf)
    requires Moved(t, dt).1 && !Advance(t, dt, m).finished
    ensures var u := Advance(t, dt, m).t;
      && u.isActive == t.isActive
      && (t.loopType != Yoyo ==> u.elapsed == 0.0 && u.playingBackwards == t.playingBackwards)
      && (t.loopType == Yoyo ==> u.elapsed == (if t.playingBackwards then 0.0 else t.duration)
                                 && u.playingBackwards == !t.playingBackwards)
  {
  }

  /** An iteration that did not reach its boundary keeps integrating in the same direction. */
  lemma MidIteration(t: Tween, dt: real, m: Mathf)
    requires !Moved(t, dt).1
    ensures var u := Advance(t, dt, m).t;
      && u.elapsed == (if t.playingBackwards then t.elapsed - dt else t.elapsed + dt)
      && u.playingBackwards == t.playingBackwards && !Advance(t, dt, m).finished
  {
  }

  // ---------------------------------------------------------------------------
  // A whole tick

  /** The scan keeps the number of slots. */
  lemma {:induction false} RunKeepsLength(s: seq<Tween>, i: nat, dt: real, m: Mathf)
    ensures |Run(s, i, dt, m).slots| == |s|
    decreases |s| - i
  {
    if i < |s| {
      var st := Step(s[i], dt, m);
      RunKeepsLength(s[i := st.t], i + 1, st.dt, m);
    }
  }

  /** The scan leaves every inactive or paused slot as it was, and the slots before i too. */
  lemma {:induction false} RunKeepsIdle(s: seq<Tween>, i: nat, dt: real, m: Mathf)
    ensures |Run(s, i, dt, m).slots| == |s|
    ensures forall j :: 0 <= j < |s| && (j < i || !s[j].isActive || s[j].isPaused) ==> Run(s, i, dt, m).slots[j] == s[j]
    decreases |s| - i
  {
    if i < |s| {
      var st := Step(s[i], dt, m);
      RunKeepsIdle(s[i := st.t], i + 1, st.dt, m);
    }
  }

  /** A tick with a time step that is not negative keeps every slot's elapsed time within [0, duration]. */
  lemma {:induction false} RunKeepsElapsedInRange(s: seq<Tween>, i: nat, dt: real, m: Mathf)
    requires dt >= 0.0
    requires forall j :: 0 <= j < |s| ==> 0.0 <= s[j].elapsed <= s[j].duration
    ensures |Run(s, i, dt, m).slots| == |s|
    ensures forall j :: 0 <= j < |s| ==> 0.0 <= Run(s, i, dt, m).slots[j].elapsed <= Run(s, i, dt, m).slots[j].duration
    decreases |s| - i
  {
    if i < |s| {
      var st := Step(s[i], dt, m);
      ElapsedStaysInRange(s[i], dt, m);
      RunKeepsElapsedInRange(s[i := st.t], i + 1, st.dt, m);
    }
  }

  /**
   * When only slot k can do anything from slot i on, the scan is that slot's step: its
   * new record, its index if it finished, and its log entries.
   */
  lemma {:induction false} RunSingle(s: seq<Tween>, i: nat, k: nat, dt: real, m: Mathf)
    requires i <= k < |s|
    requires forall j :: i <= j < |s| && j != k ==> !s[j].isActive
    ensures var st := Step(s[k], dt, m);
      Run(s, i, dt, m) == TickOutcome(s[k := st.t], if st.finished then [k] else [], st.events)
    decreases |s| - i
  {
    var st := Step(s[k], dt, m);
    var outcome := TickOutcome(s[k := st.t], if st.finished then [k] else [], st.events);
    if i < k {
      IdleSlotUntouched(s[i], dt, m);
      assert s[i := s[i]] == s;
      RunSingle(s, i + 1, k, dt, m);
      var rest := Run(s, i + 1, dt, m);
      assert rest == outcome;
      assert Run(s, i, dt, m) == TickOutcome(rest.slots, [] + rest.freed, [] + rest.events);
      assert [] + rest.freed == rest.freed && [] + rest.events == rest.events;
    } else {
      RunIdle(s[k := st.t], k + 1, st.dt, m);
      var rest := Run(s[k := st.t], k + 1, st.dt, m);
      assert rest == TickOutcome(s[k := st.t], [], []);
      var freed: seq<nat> := if st.finished then [k] else [];
      assert freed + [] == freed && st.events + [] == st.events;
    }
  }

  /** A scan over inactive slots only changes nothing. */
  lemma {:induction false} RunIdle(s: seq<Tween>, i: nat, dt: real, m: Mathf)
    requires forall j :: i <= j < |s| ==> !s[j].isActive
    ensures Run(s, i, dt, m) == TickOutcome(s, [], [])
    decreases |s| - i
  {
    if i < |s| {
      assert s[i := s[i]] == s;
      RunIdle(s, i + 1, dt, m);
    }
  }

  /** OnUpdate with no live tween returns at once. */
  lemma EmptyTickIsIdentity(s: seq<Tween>, dt: real, m: Mathf)
    ensures Tick(s, 0, dt, m) == TickOutcome(s, [], [])
  {
  }

  // ---------------------------------------------------------------------------
  // Concrete ticks

  /** A live, started, linear record of duration 1 at elapsed `e` playing forwards. */
  function LinearAt(id: int, e: real, h: Handler): Tween
  {
    NewTween(1.0, Some(Direct(h))).(id := id, isActive := true, started := true, elapsed := e)
  }

  /** A linear tween of duration 1 ticked by 0.5 twice reports 0.5, then 1 and finishes. */
  lemma LinearInTwoHalves(m: Mathf, h: Handler)
    requires !h.throws
    ensures var t := NewTween(1.0, Some(Direct(h))).(id := 1, isActive := true);
      var first := Step(t, 0.5, m);
      var second := Step(first.t, 0.5, m);
      && first.events == [Delivered(1, h.tag, 0.5)] && !first.finished && first.t.elapsed == 0.5
      && second.events == [Delivered(1, h.tag, 1.0)] && second.finished && !second.t.isActive
  {
    var t := NewTween(1.0, Some(Direct(h))).(id := 1, isActive := true);
    assert Step(t, 0.5, m).t == LinearAt(1, 0.5, h);
  }

  /** A delay of 0.5 ticked by 0.4 shows no progress; a further 0.2 brings the tween 0.1 into its duration. */
  lemma DelayThenProgress(m: Mathf, h: Handler)
    requires !h.throws
    ensures var t := NewTween(1.0, Some(Direct(h))).(id := 1, isActive := true, delay := 0.5);
      var first := Step(t, 0.4, m);
      var second := Step(first.t, 0.2, m);
      && first.events == [] && first.t.elapsed == 0.0 && first.t.delay == 0.5 - 0.4
      && second.t.delay == 0.0 && second.t.elapsed == 0.6 - 0.5
      && second.events == [Delivered(1, h.tag, 0.6 - 0.5)]
  {
  }

  /** Crisp.Delay(0.5, h) ticked by 0.5 reaches its end, runs h as its OnComplete and frees its slot. */
  lemma DelayOfHalfCompletes(m: Mathf, h: Handler)
    requires !h.throws
    ensures var t := NewTween(0.5, None).(id := 1, isActive := true, onComplete := [h]);
      var st := Step(t, 0.5, m);
      st.events == [Called(1, Complete, h.tag)] && st.finished && !st.t.isActive
  {
    var t := NewTween(0.5, None).(id := 1, isActive := true, onComplete := [h]);
    assert Moved(t, 0.5) == (0.5, true);
    assert Invoke(1, Complete, [h]) == [Called(1, Complete, h.tag)];
  }

  /** Crisp.Value(0, 100, 1, h) ticked by 0.5 delivers 50 to h. */
  lemma ValueAtHalf(m: Mathf, h: Handler)
    requires !h.throws
    ensures var t := NewTween(1.0, Some(Lerp(0.0, 100.0, Some(h)))).(id := 1, isActive := true);
      var st := Step(t, 0.5, m);
      st.events == [Delivered(1, h.tag, 50.0)] && !st.finished
  {
    var t := NewTween(1.0, Some(Lerp(0.0, 100.0, Some(h)))).(id := 1, isActive := true);
    assert Moved(t, 0.5) == (0.5, false);
    assert LerpUnclamped(0.0, 100.0, 0.5) == 50.0;
  }

  /**
   * An expired delay changes the time step of the rest of the tick: a tween after a
   * slot whose delay of 0.5 ran out in a tick of 1 advances by 0.5, not by 1.
   */
  lemma OvershootReachesLaterSlots(m: Mathf, h: Handler)
    requires !h.throws
    ensures var delayed := NewTween(2.0, None).(id := 1, isActive := true, delay := 0.5);
      var other := NewTween(2.0, Some(Direct(h))).(id := 2, isActive := true, started := true);
      var r := Run([delayed, other], 0, 1.0, m);
      && |r.slots| == 2 && r.slots[1].elapsed == 0.5
      && r.events == [Delivered(2, h.tag, 0.25)]
  {
    var delayed := NewTween(2.0, None).(id := 1, isActive := true, delay := 0.5);
    var other := NewTween(2.0, Some(Direct(h))).(id := 2, isActive := true, started := true);
    var s := [delayed, other];
    var st0 := Step(delayed, 1.0, m);
    assert st0.dt == 0.5 && st0.events == [] && !st0.finished;
    var s1 := s[0 := st0.t];
    var st1 := Step(other, 0.5, m);
    assert st1.t.elapsed == 0.5 && st1.events == [Delivered(2, h.tag, 0.25)] && !st1.finished;
    RunUnfold(s, 0, 1.0, m);
    RunUnfold(s1, 1, 0.5, m);
    assert s1[1 := st1.t][1] == st1.t;
  }

  /** A Yoyo tween with two loops plays forwards, turns round at the end, plays back and finishes at 0. */
  lemma YoyoTwoLoops(m: Mathf, h: Handler)
    requires !h.throws
    ensures var t := LinearAt(1, 0.0, h).(loops := 2, loopType := Yoyo);
      var first := Step(t, 1.0, m);
      var second := Step(first.t, 0.5, m);
      var third := Step(second.t, 0.5, m);
      && !first.finished && first.t.playingBackwards && first.t.elapsed == 1.0 && first.t.completedLoops == 1
      && second.events == [Delivered(1, h.tag, 0.5)] && !second.finished
      && third.finished && third.t.elapsed == 0.0 && third.t.completedLoops == 2
      && third.events == [Delivered(1, h.tag, 0.0)]
  {
  }
}
