/**
 * The play-mode scenarios of the package's tests, run against the facade and the
 * runner: each builds a fresh facade, creates tweens, ticks the runner directly (the
 * run loop is not modelled) and states what the hooks observed.
 */
module Scenarios {
  import opened Wrappers
  import opened Callbacks
  import opened Ease
  import opened Tweens
  import opened Runner
  import opened TickLemmas
  import opened Facade

  /** The log entries a tick of `dt` adds when slot k is the only live slot. */
  lemma TickOfSingle(s: seq<Tween>, count: int, k: nat, dt: real, m: Mathf)
    requires count != 0 && k < |s|
    requires forall j :: 0 <= j < |s| && j != k ==> !s[j].isActive
    ensures var st := Step(s[k], dt, m);
      Tick(s, count, dt, m) == TickOutcome(s[k := st.t], if st.finished then [k] else [], st.events)
  {
    RunSingle(s, 0, k, dt, m);
  }

  /** A facade whose runner holds one live tween, with ID 1, in slot 0, every other slot empty. */
  method CreateFirst(duration: real, onUpdate: Option<UpdateHook>) returns (c: Crisp, t: Tween)
    ensures c.Valid() && fresh(c.Repr) && c.runner != null
    ensures t == NewTween(duration, onUpdate).(id := 1, isActive := true)
    ensures c.runner.tweens[0] == t && c.runner.count == 1 && c.runner.trace == []
    ensures forall j :: 1 <= j < c.runner.capacity ==> c.runner.tweens[j] == Empty
    ensures c.runner.free == Countdown(DefaultCapacity, 1) && c.runner.idCounter == 2
  {
    c := new Crisp();
    c.Init();
    ghost var before := c.runner.tweens[..];
    assert Countdown(DefaultCapacity, 0) == Countdown(DefaultCapacity, 1) + [0];
    t := c.Create(duration, onUpdate);
    FirstSlot(before, c.runner.tweens[..], t);
  }

  /** A facade whose runner holds one delay tween with ID 1 and the given OnComplete, in slot 0, every other slot empty. */
  method DelayFirst(duration: real, onComplete: Action) returns (c: Crisp, t: Tween)
    ensures c.Valid() && fresh(c.Repr) && c.runner != null
    ensures t == NewTween(duration, None).(id := 1, isActive := true)
    ensures c.runner.tweens[0] == t.(onComplete := onComplete) && c.runner.count == 1 && c.runner.trace == []
    ensures forall j :: 1 <= j < c.runner.capacity ==> c.runner.tweens[j] == Empty
  {
    c := new Crisp();
    c.Init();
    ghost var before := c.runner.tweens[..];
    assert Countdown(DefaultCapacity, 0) == Countdown(DefaultCapacity, 1) + [0];
    t := c.Delay(duration, onComplete);
    FirstSlot(before, c.runner.tweens[..], t.(onComplete := onComplete));
  }

  /** A facade whose runner holds one value tween with ID 1, in slot 0, every other slot empty. */
  method ValueFirst(from: real, to: real, duration: real, onUpdate: Option<Handler>) returns (c: Crisp, t: Tween)
    ensures c.Valid() && fresh(c.Repr) && c.runner != null
    ensures t == NewTween(duration, Some(Lerp(from, to, onUpdate))).(id := 1, isActive := true)
    ensures c.runner.tweens[0] == t && c.runner.count == 1 && c.runner.trace == []
    ensures forall j :: 1 <= j < c.runner.capacity ==> c.runner.tweens[j] == Empty
  {
    c := new Crisp();
    c.Init();
    ghost var before := c.runner.tweens[..];
    assert Countdown(DefaultCapacity, 0) == Countdown(DefaultCapacity, 1) + [0];
    t := c.Value(from, to, duration, onUpdate);
    FirstSlot(before, c.runner.tweens[..], t);
  }

  /** The only slot a first creation fills is slot 0. */
  lemma FirstSlot(before: seq<Tween>, after: seq<Tween>, t: Tween)
    requires |before| > 0 && after == before[0 := t]
    requires forall j :: 0 <= j < |before| ==> before[j] == Empty
    ensures after[0] == t && forall j :: 1 <= j < |after| ==> after[j] == Empty
  {
  }

  /** Every slot of the runner is free. */
  predicate AllIdle(s: seq<Tween>)
  {
    forall j :: 0 <= j < |s| ==> !s[j].isActive
  }

  /** A tick of a runner with no live slot changes nothing and calls nothing. */
  lemma IdleTick(s: seq<Tween>, count: int, dt: real, m: Mathf)
    requires AllIdle(s)
    ensures Tick(s, count, dt, m) == TickOutcome(s, [], [])
  {
    if count != 0 {
      RunIdle(s, 0, dt, m);
    }
  }

  /** Tween_MovesObject: a linear tween of duration 1 reports 0.5 after a tick of 0.5 and 1 after another. */
  method MovesObject(m: Mathf, h: Handler) returns (first: seq<Event>, second: seq<Event>)
    requires !h.throws
    ensures first == [Delivered(1, h.tag, 0.5)]
    ensures second == [Delivered(1, h.tag, 1.0)]
  {
    var c, t := CreateFirst(1.0, Some(Direct(h)));
    var r := c.runner;
    LinearInTwoHalves(m, h);
    TickOfSingle(r.tweens[..], r.count, 0, 0.5, m);
    r.OnUpdate(0.5, m);
    first := r.trace;
    TickOfSingle(r.tweens[..], r.count, 0, 0.5, m);
    r.OnUpdate(0.5, m);
    second := r.trace[|first|..];
  }

  /**
   * Tween_Delay_Waits: with a delay of 0.5, a tick of 0.4 leaves the tween where it
   * started and a further tick of 0.2 brings it 0.1 into its duration of 1.
   */
  method DelayWaits(m: Mathf, h: Handler) returns (first: seq<Event>, second: seq<Event>)
    requires !h.throws
    ensures first == []
    ensures second == [Delivered(1, h.tag, 0.6 - 0.5)]
  {
    var c, t := CreateFirst(1.0, Some(Direct(h)));
    var r := c.runner;
    ConfiguredLive(r.tweens[..], r.free, r.count, r.idCounter, 1, 0, DelayTo(0.5));
    c.SetDelay(t.id, 0.5);
    assert r.tweens[0] == t.(delay := 0.5);
    DelayThenProgress(m, h);
    TickOfSingle(r.tweens[..], r.count, 0, 0.4, m);
    r.OnUpdate(0.4, m);
    first := r.trace;
    TickOfSingle(r.tweens[..], r.count, 0, 0.2, m);
    r.OnUpdate(0.2, m);
    second := r.trace[|first|..];
  }

  /**
   * Tween_Cancel_StopsTween: a tween killed after reporting 0.5 reports nothing on the
   * next tick, and its slot is free again.
   */
  method CancelStopsTween(m: Mathf, h: Handler) returns (first: seq<Event>, second: seq<Event>)
    requires !h.throws
    ensures first == [Delivered(1, h.tag, 0.5)]
    ensures second == []
  {
    var c, t := CreateFirst(1.0, Some(Direct(h)));
    var r := c.runner;
    LinearInTwoHalves(m, h);
    TickOfSingle(r.tweens[..], r.count, 0, 0.5, m);
    r.OnUpdate(0.5, m);
    first := r.trace;
    r.SlotOfUnique(1, 0);
    c.Kill(t.id);
    assert AllIdle(r.tweens[..]);
    IdleTick(r.tweens[..], r.count, 0.5, m);
    r.OnUpdate(0.5, m);
    second := r.trace[|first|..];
  }

  /** Crisp_Value_TweensCorrectly: a value tween from 0 to 100 over 1 reports 50 after a tick of 0.5. */
  method ValueTweens(m: Mathf, h: Handler) returns (events: seq<Event>)
    requires !h.throws
    ensures events == [Delivered(1, h.tag, 50.0)]
  {
    var c, t := ValueFirst(0.0, 100.0, 1.0, Some(h));
    var r := c.runner;
    ValueAtHalf(m, h);
    TickOfSingle(r.tweens[..], r.count, 0, 0.5, m);
    r.OnUpdate(0.5, m);
    events := r.trace;
  }

  /**
   * Crisp_Delay_Waits: a delay of 0.5 runs its OnComplete in the tick that reaches 0.5,
   * and then its slot is free.
   */
  method DelayCompletes(m: Mathf, h: Handler) returns (events: seq<Event>)
    requires !h.throws
    ensures events == [Called(1, Complete, h.tag)]
  {
    var c, t := DelayFirst(0.5, [h]);
    var r := c.runner;
    DelayOfHalfCompletes(m, h);
    TickOfSingle(r.tweens[..], r.count, 0, 0.5, m);
    r.OnUpdate(0.5, m);
    events := r.trace;
  }

  /** A setter called with the ID of a killed tween changes no slot and reports the stale ID once. */
  method StaleSetterReports(e: EaseType) returns (events: seq<Event>)
    ensures events == [Error(NotFound(1))]
  {
    var c, t := CreateFirst(1.0, None);
    var r := c.runner;
    r.SlotOfUnique(1, 0);
    c.Kill(t.id);
    c.SetEase(t.id, e);
    events := r.trace;
  }

  /** Consecutive creations get IDs 1 and 2, in slots 0 and 1: the free stack hands out the lowest index first. */
  method IdsIncrease() returns (first: Tween, second: Tween)
    ensures first.id == 1 && second.id == 2
  {
    var c, t := CreateFirst(1.0, None);
    first := t;
    assert Countdown(DefaultCapacity, 1) == Countdown(DefaultCapacity, 2) + [1];
    second := c.Create(2.0, None);
    assert c.runner.tweens[1] == second && c.runner.tweens[0] == first;
  }

  /**
   * The record Create returns is a copy: pausing it leaves the pooled slot running, so
   * the next tick still advances the tween.
   */
  method PausedCopyKeepsRunning(m: Mathf, h: Handler) returns (copy: Tween, events: seq<Event>)
    requires !h.throws
    ensures copy.isPaused
    ensures events == [Delivered(1, h.tag, 0.5)]
  {
    var c, t := CreateFirst(1.0, Some(Direct(h)));
    copy := t.Pause();
    var r := c.runner;
    assert !r.tweens[0].isPaused;
    LinearInTwoHalves(m, h);
    TickOfSingle(r.tweens[..], r.count, 0, 0.5, m);
    r.OnUpdate(0.5, m);
    events := r.trace;
  }

  /** Initialising again keeps the runner, so a live tween survives and goes on ticking. */
  method ReinitKeepsTweens(m: Mathf, h: Handler) returns (events: seq<Event>)
    requires !h.throws
    ensures events == [Delivered(1, h.tag, 0.5)]
  {
    var c, t := CreateFirst(1.0, Some(Direct(h)));
    c.Init();
    var r := c.runner;
    LinearInTwoHalves(m, h);
    TickOfSingle(r.tweens[..], r.count, 0, 0.5, m);
    r.OnUpdate(0.5, m);
    events := r.trace;
  }
}
