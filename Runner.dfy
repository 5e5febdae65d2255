/**
 * The tween scheduler of Runtime/TweenRunner.cs: a growable pool of tween slots, a
 * stack of free slot indices, a live count and an ID counter, and the per-tick
 * processor that advances every live, unpaused slot.
 *
 * The tick is specified by the functions `Step` (one slot) and `Run` (the slot scan,
 * carrying the time step from slot to slot as the source does); the class methods
 * are proved to do exactly what those functions say.
 */
module Runner {
  import opened Wrappers
  import opened Callbacks
  import opened Ease
  import opened Tweens

  // ---------------------------------------------------------------------------
  // Free-index stacks (the top is the last element)

  predicate NoDup(s: seq<nat>)
  {
    forall a, b :: 0 <= a < b < |s| ==> s[a] != s[b]
  }

  /** The indices hi-1, hi-2, ..., lo pushed in that order, so lo ends on top. */
  function Countdown(hi: int, lo: int): (r: seq<nat>)
    requires 0 <= lo
    ensures |r| == if hi <= lo then 0 else hi - lo
    ensures forall k :: 0 <= k < |r| ==> r[k] == hi - 1 - k
    decreases hi - lo
  {
    if hi <= lo then [] else Countdown(hi, lo + 1) + [lo]
  }

  lemma CountdownFacts(hi: int, lo: int)
    requires 0 <= lo
    ensures NoDup(Countdown(hi, lo))
    ensures forall x :: x in Countdown(hi, lo) <==> lo <= x < hi
  {
    var r := Countdown(hi, lo);
    forall x | lo <= x < hi ensures x in r {
      assert r[hi - 1 - x] == x;
    }
  }

  lemma PopFacts(s: seq<nat>)
    requires |s| > 0 && NoDup(s)
    ensures NoDup(s[..|s| - 1])
    ensures forall x :: x in s[..|s| - 1] <==> x in s && x != s[|s| - 1]
  {
    var p := s[..|s| - 1];
    forall x | x in s && x != s[|s| - 1] ensures x in p {
      var k :| 0 <= k < |s| && s[k] == x;
      assert p[k] == x;
    }
  }

  // ---------------------------------------------------------------------------
  // The pool invariant, on values

  /** Some live slot of `s` carries `id`. */
  ghost predicate LiveIn(s: seq<Tween>, id: int)
  {
    exists i :: 0 <= i < |s| && s[i].isActive && s[i].id == id
  }

  /**
   * The free stack holds exactly the inactive indices, each once, its size and the live
   * count add up to the capacity, and every live slot carries an ID below the counter
   * that no other live slot carries.
   */
  ghost predicate PoolValid(s: seq<Tween>, free: seq<nat>, count: int, idCounter: int)
  {
    && (forall k :: 0 <= k < |free| ==> free[k] < |s|)
    && NoDup(free)
    && (forall i :: 0 <= i < |s| ==> (!s[i].isActive <==> i in free))
    && |free| + count == |s|
    && idCounter >= 1
    && (forall i :: 0 <= i < |s| && s[i].isActive ==> 1 <= s[i].id < idCounter)
    && (forall i, j :: 0 <= i < |s| && 0 <= j < |s| && s[i].isActive && s[j].isActive && s[i].id == s[j].id ==> i == j)
  }

  /** A fresh pool: every slot empty, every index free with 0 on top. */
  lemma InitialPoolValid(c: nat)
    ensures PoolValid(seq(c, _ => Empty), Countdown(c, 0), 0, 1)
  {
    CountdownFacts(c, 0);
  }

  /** Growing appends empty slots and pushes their indices, lowest on top. */
  lemma GrowPoolValid(s: seq<Tween>, free: seq<nat>, count: int, idCounter: int)
    requires PoolValid(s, free, count, idCounter)
    ensures PoolValid(s + seq(|s|, _ => Empty), free + Countdown(2 * |s|, |s|), count, idCounter)
  {
    var s' := s + seq(|s|, _ => Empty);
    var free' := free + Countdown(2 * |s|, |s|);
    GrowStack(free, |s|);
    forall i | 0 <= i < |s'|
      ensures !s'[i].isActive <==> i in free'
      ensures s'[i].isActive ==> i < |s| && s'[i].id == s[i].id && s[i].isActive
    {
      GrowSlot(s, free, count, idCounter, i);
    }
    ExtendPoolValid(s, free, s', free', count, idCounter);
  }

  /** A pool whose live slots are live slots of a valid pool, at the same index with the same ID, is valid once its stack matches its inactive slots. */
  lemma ExtendPoolValid(s: seq<Tween>, free: seq<nat>, s': seq<Tween>, free': seq<nat>, count: int, idCounter: int)
    requires PoolValid(s, free, count, idCounter)
    requires (forall k :: 0 <= k < |free'| ==> free'[k] < |s'|) && NoDup(free') && |free'| + count == |s'|
    requires forall i :: 0 <= i < |s'| ==> (!s'[i].isActive <==> i in free')
    requires forall i :: 0 <= i < |s'| && s'[i].isActive ==> i < |s| && s'[i].id == s[i].id && s[i].isActive
    ensures PoolValid(s', free', count, idCounter)
  {
  }

  /** Slot i of the grown pool: an old slot keeps its record and its freeness, a new one is empty and free. */
  lemma GrowSlot(s: seq<Tween>, free: seq<nat>, count: int, idCounter: int, i: nat)
    requires PoolValid(s, free, count, idCounter) && i < 2 * |s|
    ensures var s', free' := s + seq(|s|, _ => Empty), free + Countdown(2 * |s|, |s|);
      && (!s'[i].isActive <==> i in free')
      && (s'[i].isActive ==> i < |s| && s'[i].id == s[i].id && s[i].isActive)
  {
    var s', free' := s + seq(|s|, _ => Empty), free + Countdown(2 * |s|, |s|);
    CountdownFacts(2 * |s|, |s|);
    if i < |s| {
      assert s'[i] == s[i];
      assert i !in Countdown(2 * |s|, |s|);
    } else {
      assert s'[i] == Empty;
      assert i in Countdown(2 * |s|, |s|);
    }
  }

  /** Pushing the indices 2n-1 down to n on a stack of indices below n. */
  lemma GrowStack(free: seq<nat>, n: nat)
    requires NoDup(free) && forall k :: 0 <= k < |free| ==> free[k] < n
    ensures var free' := free + Countdown(2 * n, n);
      && |free'| == |free| + n
      && NoDup(free')
      && (forall k :: 0 <= k < |free'| ==> free'[k] < 2 * n)
      && (forall x :: x in free' <==> x in free || n <= x < 2 * n)
  {
    var added := Countdown(2 * n, n);
    var free' := free + added;
    CountdownFacts(2 * n, n);
    forall k | 0 <= k < |free'| ensures free'[k] < 2 * n {
      if k >= |free| { assert free'[k] == added[k - |free|]; }
    }
    forall a, b | 0 <= a < b < |free'| ensures free'[a] != free'[b] {
      if b >= |free| && a < |free| {
        assert free'[a] < n && free'[b] == added[b - |free|];
      } else if a >= |free| {
        assert free'[a] == added[a - |free|] && free'[b] == added[b - |free|];
      }
    }
  }

  /** Popping the top index and storing a live tween under the counter keeps the invariant. */
  lemma OccupyPoolValid(s: seq<Tween>, free: seq<nat>, count: int, idCounter: int, t: Tween)
    requires PoolValid(s, free, count, idCounter) && |free| > 0
    ensures var index := free[|free| - 1];
      PoolValid(s[index := t.(id := idCounter, isActive := true)], free[..|free| - 1], count + 1, idCounter + 1)
  {
    PopFacts(free);
  }

  /** Deactivating a live slot and pushing its index keeps the invariant. */
  lemma ReleasePoolValid(s: seq<Tween>, free: seq<nat>, count: int, idCounter: int, i: nat, t: Tween)
    requires PoolValid(s, free, count, idCounter) && i < |s| && s[i].isActive && !t.isActive
    ensures PoolValid(s[i := t], free + [i], count - 1, idCounter)
  {
  }

  /** Rewriting a slot without touching its ID or activity keeps the invariant. */
  lemma RewritePoolValid(s: seq<Tween>, free: seq<nat>, count: int, idCounter: int, i: nat, t: Tween)
    requires PoolValid(s, free, count, idCounter) && i < |s| && t.id == s[i].id && t.isActive == s[i].isActive
    ensures PoolValid(s[i := t], free, count, idCounter)
  {
  }

  // ---------------------------------------------------------------------------
  // One slot of a tick

  /** What processing one slot produced: its new record, the time step left for the next slots, the log entries, and whether it finished. */
  datatype SlotStep = SlotStep(t: Tween, dt: real, events: seq<Event>, finished: bool)

  /** The elapsed time after integrating `dt` in the current direction. */
  function Integrate(elapsed: real, dt: real, backwards: bool): real
  {
    if backwards then elapsed - dt else elapsed + dt
  }

  /** Clamps at the boundary the current direction runs towards and says whether the iteration completed there. */
  function ClampAtBoundary(e: real, duration: real, backwards: bool): (real, bool)
  {
    if !backwards && e >= duration then (duration, true)
    else if backwards && e <= 0.0 then (0.0, true)
    else (e, false)
  }

  /** Elapsed over duration, or 1 for a duration that is not positive. */
  function Normalized(elapsed: real, duration: real): real
  {
    if duration > 0.0 then elapsed / duration else 1.0
  }

  /** The eased time of `n`, and the log entry if a custom easing function raised (the update then gets `n`). */
  function Eased(t: Tween, n: real, m: Mathf): (real, seq<Event>)
  {
    if t.easeType == Custom && t.customEase.Some? then
      match t.customEase.value(n)
      case Some(v) => (v, [])
      case None => (n, [Error(Threw(t.id, Easing))])
    else (Evaluate(n, t.easeType, m), [])
  }

  /** The loop policy applied when an iteration completed and the tween goes on. */
  function Rewind(t: Tween): Tween
  {
    match t.loopType
    case Restart => t.(elapsed := 0.0)
    case Yoyo => t.(playingBackwards := !t.playingBackwards)
    // treated as Restart
    case Incremental => t.(elapsed := 0.0)
  }

  /** Elapsed time and completion after integrating `dt` in the current direction and clamping. */
  function Moved(t: Tween, dt: real): (real, bool)
  {
    ClampAtBoundary(Integrate(t.elapsed, dt, t.playingBackwards), t.duration, t.playingBackwards)
  }

  /**
   * The end of a slot's processing once the update was delivered: on a completed
   * iteration, the step-complete hook and the loop count, then either the finish
   * (complete hook, slot released) or the loop policy.
   */
  function Conclude(p: Tween, completed: bool, dt: real, events: seq<Event>): SlotStep
  {
    if !completed then SlotStep(p, dt, events, false)
    else
      var looped := p.(completedLoops := p.completedLoops + 1);
      var stepEvents := events + Invoke(p.id, StepComplete, p.onStepComplete);
      if p.loops != Infinite && looped.completedLoops >= p.loops then
        SlotStep(looped.(isActive := false), dt, stepEvents + Invoke(p.id, Complete, p.onComplete), true)
      else
        SlotStep(Rewind(looped), dt, stepEvents, false)
  }

  /** A slot whose delay is over: start, integrate, clamp, ease, update, and the loop and finish logic. */
  function Advance(t: Tween, dt: real, m: Mathf): SlotStep
  {
    var startEvents := if t.started then [] else Invoke(t.id, Start, t.onStart);
    var moved := Moved(t, dt);
    var p := t.(started := true, elapsed := moved.0);
    var eased := Eased(p, Normalized(p.elapsed, p.duration), m);
    Conclude(p, moved.1, dt, startEvents + (eased.1 + Deliver(p.id, p.onUpdate, eased.0)))
  }

  /**
   * One iteration of the slot scan with the current time step `dt`: inactive and paused
   * slots are skipped; a pending delay absorbs the step; a delay that runs out hands its
   * overshoot on as the new time step, for this slot and every later one.
   */
  function Step(t: Tween, dt: real, m: Mathf): SlotStep
  {
    if !t.isActive || t.isPaused then SlotStep(t, dt, [], false)
    else if t.delay > 0.0 && t.delay - dt > 0.0 then SlotStep(t.(delay := t.delay - dt), dt, [], false)
    else if t.delay > 0.0 then Advance(t.(delay := 0.0), -(t.delay - dt), m)
    else Advance(t, dt, m)
  }

  /** A step keeps the slot's ID; only a live slot can finish, and a slot stays live exactly when it does not. */
  lemma StepKeeps(t: Tween, dt: real, m: Mathf)
    ensures var st := Step(t, dt, m);
      && st.t.id == t.id
      && (st.finished ==> t.isActive)
      && (st.t.isActive <==> t.isActive && !st.finished)
  {
  }

  /**
   * One slot of the scan: inactive and paused slots are skipped, a pending delay
   * absorbs the time step, and a delay that runs out hands its overshoot on.
   */
  method StepSlot(tween: Tween, deltaTime: real, m: Mathf) returns (t: Tween, dt: real, events: seq<Event>, finished: bool)
    ensures SlotStep(t, dt, events, finished) == Step(tween, deltaTime, m)
  {
    t, dt, events, finished := tween, deltaTime, [], false;
    if !t.isActive { return; }
    if t.isPaused { return; }
    if t.delay > 0.0 {
      t := t.(delay := t.delay - dt);
      if t.delay > 0.0 { return; }
      // the delay ran out: its overshoot becomes the time step
      dt := -t.delay;
      t := t.(delay := 0.0);
    }
    t, events, finished := AdvanceSlot(t, dt, m);
  }

  /**
   * The processing of a live slot whose delay is over, statement by statement as the
   * scan body does it, with the log entries collected in order.
   */
  method AdvanceSlot(tween: Tween, dt: real, m: Mathf) returns (t: Tween, events: seq<Event>, finished: bool)
    ensures SlotStep(t, dt, events, finished) == Advance(tween, dt, m)
  {
    var completedIteration;
    t, events, completedIteration := StartAndMove(tween, dt);
    var updateEvents := EaseAndDeliver(t, m);
    events := events + updateEvents;
    t, events, finished := CompleteIteration(t, completedIteration, dt, events);
  }

  /** The start hook on the first processed tick, then the integration of `dt` and the clamp at the boundary. */
  method StartAndMove(tween: Tween, dt: real) returns (t: Tween, events: seq<Event>, completedIteration: bool)
    ensures t == tween.(started := true, elapsed := Moved(tween, dt).0)
    ensures completedIteration == Moved(tween, dt).1
    ensures events == if tween.started then [] else Invoke(tween.id, Start, tween.onStart)
  {
    t := tween;
    events := [];
    if !t.started {
      t := t.(started := true);
      events := Invoke(t.id, Start, t.onStart);
    }
    if t.playingBackwards {
      t := t.(elapsed := t.elapsed - dt);
    } else {
      t := t.(elapsed := t.elapsed + dt);
    }
    completedIteration := false;
    if !t.playingBackwards && t.elapsed >= t.duration {
      t := t.(elapsed := t.duration);
      completedIteration := true;
    } else if t.playingBackwards && t.elapsed <= 0.0 {
      t := t.(elapsed := 0.0);
      completedIteration := true;
    }
  }

  /** The normalized and eased time of the slot, and the guarded update callback with it. */
  method EaseAndDeliver(t: Tween, m: Mathf) returns (events: seq<Event>)
    ensures var eased := Eased(t, Normalized(t.elapsed, t.duration), m);
      events == eased.1 + Deliver(t.id, t.onUpdate, eased.0)
  {
    events := [];
    var normalizedTime := if t.duration > 0.0 then t.elapsed / t.duration else 1.0;
    var easedTime := normalizedTime;
    if t.easeType == Custom && t.customEase.Some? {
      var r := t.customEase.value(normalizedTime);
      if r.Some? {
        easedTime := r.value;
      } else {
        events := [Error(Threw(t.id, Easing))];
      }
    } else {
      easedTime := Evaluate(normalizedTime, t.easeType, m);
    }
    events := events + Deliver(t.id, t.onUpdate, easedTime);
  }

  /** The step-complete hook and loop count of a completed iteration, then the finish or the loop policy. */
  method CompleteIteration(p: Tween, completedIteration: bool, dt: real, events0: seq<Event>)
    returns (t: Tween, events: seq<Event>, finished: bool)
    ensures SlotStep(t, dt, events, finished) == Conclude(p, completedIteration, dt, events0)
  {
    t, events, finished := p, events0, false;
    if completedIteration {
      events := events + Invoke(t.id, StepComplete, t.onStepComplete);
      t := t.(completedLoops := t.completedLoops + 1);
      if t.loops != Infinite && t.completedLoops >= t.loops {
        finished := true;
      } else {
        match t.loopType
        case Restart => t := t.(elapsed := 0.0);
        case Yoyo => t := t.(playingBackwards := !t.playingBackwards);
        case Incremental => t := t.(elapsed := 0.0);
      }
    }
    if finished {
      events := events + Invoke(t.id, Complete, t.onComplete);
      t := t.(isActive := false);
    }
  }

  // ---------------------------------------------------------------------------
  // A whole tick

  /** The new slots, the indices pushed on the free stack in push order, and the log entries of a tick. */
  datatype TickOutcome = TickOutcome(slots: seq<Tween>, freed: seq<nat>, events: seq<Event>)

  /** The scan over slots i.., starting with time step dt. */
  function Run(s: seq<Tween>, i: nat, dt: real, m: Mathf): TickOutcome
    decreases |s| - i
  {
    if i >= |s| then TickOutcome(s, [], [])
    else
      var st := Step(s[i], dt, m);
      var rest := Run(s[i := st.t], i + 1, st.dt, m);
      TickOutcome(rest.slots, (if st.finished then [i] else []) + rest.freed, st.events + rest.events)
  }

  /** The scan from slot i is the step of slot i followed by the scan from slot i + 1. */
  lemma RunUnfold(s: seq<Tween>, i: nat, dt: real, m: Mathf)
    requires i < |s|
    ensures var st := Step(s[i], dt, m);
      var rest := Run(s[i := st.t], i + 1, st.dt, m);
      && Run(s, i, dt, m).slots == rest.slots
      && Run(s, i, dt, m).freed == (if st.finished then [i] else []) + rest.freed
      && Run(s, i, dt, m).events == st.events + rest.events
  {
  }

  /**
   * Partway through a tick: the outcome of the whole scan is the state reached so far
   * followed by the outcome of the remaining scan.
   */
  ghost predicate ScanInvariant(whole: TickOutcome, free0: seq<nat>, trace0: seq<Event>, count0: int,
                          rest: TickOutcome, free: seq<nat>, trace: seq<Event>, count: int)
  {
    && whole.slots == rest.slots
    && free0 + whole.freed == free + rest.freed
    && trace0 + whole.events == trace + rest.events
    && count0 - |whole.freed| == count - |rest.freed|
  }

  /** Processing slot i as Step says moves the split point of the scan on by one slot. */
  lemma ScanStepped(whole: TickOutcome, free0: seq<nat>, trace0: seq<Event>, count0: int,
                    s: seq<Tween>, i: nat, dt: real, m: Mathf, free: seq<nat>, trace: seq<Event>, count: int)
    requires i < |s|
    requires ScanInvariant(whole, free0, trace0, count0, Run(s, i, dt, m), free, trace, count)
    ensures var st := Step(s[i], dt, m);
      var fin := if st.finished then [i] else [];
      ScanInvariant(whole, free0, trace0, count0, Run(s[i := st.t], i + 1, st.dt, m),
                    free + fin, trace + st.events, count - |fin|)
  {
    var st := Step(s[i], dt, m);
    var fin := if st.finished then [i] else [];
    var rest := Run(s[i := st.t], i + 1, st.dt, m);
    RunUnfold(s, i, dt, m);
    assert free + (fin + rest.freed) == (free + fin) + rest.freed;
    assert trace + (st.events + rest.events) == (trace + st.events) + rest.events;
  }

  /** OnUpdate(deltaTime): nothing at all when no tween is live, otherwise the scan of every slot. */
  function Tick(s: seq<Tween>, count: int, dt: real, m: Mathf): TickOutcome
  {
    if count == 0 then TickOutcome(s, [], []) else Run(s, 0, dt, m)
  }

  // ---------------------------------------------------------------------------
  // The pool

  /** The slots Add stores into: the current ones, followed by as many empty ones when no index is free. */
  function Grown(s: seq<Tween>, free: seq<nat>): (r: seq<Tween>)
    ensures |r| == if |free| == 0 then 2 * |s| else |s|
  {
    if |free| == 0 then s + seq(|s|, _ => Empty) else s
  }

  /** Pushes hi-1, hi-2, ..., lo onto the stack, in that order. */
  method PushDown(stack: seq<nat>, hi: int, lo: nat) returns (r: seq<nat>)
    requires lo <= hi
    ensures r == stack + Countdown(hi, lo)
  {
    r := stack;
    var i := hi - 1;
    while i >= lo
      invariant lo - 1 <= i < hi
      invariant r == stack + Countdown(hi, i + 1)
    {
      r := r + [i];
      i := i - 1;
    }
  }

  /** Array.Copy of every slot of `src` into the front of the larger `dst`; the rest of `dst` is kept. */
  method CopySlots(src: array<Tween>, dst: array<Tween>)
    requires src != dst && src.Length <= dst.Length
    modifies dst
    ensures forall j :: 0 <= j < src.Length ==> dst[j] == src[j]
    ensures forall j :: src.Length <= j < dst.Length ==> dst[j] == old(dst[j])
  {
    for i := 0 to src.Length
      invariant forall j :: 0 <= j < i ==> dst[j] == src[j]
      invariant forall j :: i <= j < dst.Length ==> dst[j] == old(dst[j])
    {
      dst[i] := src[i];
    }
  }

  class TweenRunner {
    var tweens: array<Tween>
    var count: int
    var capacity: int
    var free: seq<nat>
    var idCounter: int
    /** Everything the hooks and the OnError sink observe, in order. */
    var trace: seq<Event>
    ghost var Repr: set<object>

    /** The pool invariant over the current slots. */
    ghost predicate Valid()
      reads this, Repr
    {
      && Repr == {this, tweens}
      && tweens.Length == capacity && capacity > 0
      && PoolValid(tweens[..], free, count, idCounter)
    }

    /** Some live slot carries `id`. */
    ghost predicate Live(id: int)
      reads this, tweens
    {
      LiveIn(tweens[..], id)
    }

    /** The slot that carries the live `id`. */
    ghost function SlotOf(id: int): (i: nat)
      reads this, Repr
      requires Valid() && Live(id)
      ensures i < capacity && tweens[i].isActive && tweens[i].id == id
    {
      var i :| 0 <= i < tweens.Length && tweens[..][i].isActive && tweens[..][i].id == id; i
    }

    /** IDs are unique among live slots, so the live slot carrying `id` is SlotOf(id). */
    lemma SlotOfUnique(id: int, j: nat)
      requires Valid() && j < capacity && tweens[j].isActive && tweens[j].id == id
      ensures Live(id) && SlotOf(id) == j
    {
      assert tweens[..][j].isActive && tweens[..][j].id == id;
    }

    constructor (initialCapacity: int := 64)
      requires initialCapacity > 0
      ensures Valid() && fresh(Repr)
      ensures capacity == initialCapacity && count == 0 && idCounter == 1 && trace == []
      ensures free == Countdown(initialCapacity, 0)
      ensures forall i :: 0 <= i < capacity ==> tweens[i] == Empty
    {
      capacity := initialCapacity;
      tweens := new Tween[initialCapacity](_ => Empty);
      count := 0;
      idCounter := 1;
      trace := [];
      var stack := PushDown([], initialCapacity, 0);
      free := stack;
      Repr := {this, tweens};
      new;
      InitialPoolValid(initialCapacity);
      assert tweens[..] == seq(initialCapacity, _ => Empty);
    }

    /** Doubles the capacity, keeps every slot at its index, and pushes the new indices so that the lowest is on top. */
    method Expand()
      requires Valid()
      modifies Repr
      ensures Valid() && fresh(tweens) && Repr == {this, tweens}
      ensures capacity == 2 * old(capacity)
      ensures tweens[..] == old(tweens[..]) + seq(old(capacity), _ => Empty)
      ensures free == old(free) + Countdown(capacity, old(capacity))
      ensures count == old(count) && idCounter == old(idCounter) && trace == old(trace)
    {
      var newCapacity := capacity * 2;
      var newTweens := new Tween[newCapacity](_ => Empty);
      CopySlots(tweens, newTweens);
      var stack := PushDown(free, newCapacity, capacity);
      assert newTweens[..] == tweens[..] + seq(capacity, _ => Empty);
      GrowPoolValid(tweens[..], free, count, idCounter);
      tweens := newTweens;
      Repr := {this, tweens};
      free := stack;
      capacity := newCapacity;
    }

    /** Stores `tween` as live in the slot on top of the free stack, growing first when none is free, under the next ID. */
    method Add(tween: Tween) returns (id: int)
      requires Valid()
      modifies Repr
      ensures Valid() && fresh(Repr - old(Repr))
      ensures Live(id)
      ensures id == old(idCounter) && idCounter == old(idCounter) + 1
      ensures count == old(count) + 1 && trace == old(trace)
      ensures var grown := |old(free)| == 0;
              var index := if grown then old(capacity) else old(free)[|old(free)| - 1];
              && capacity == (if grown then 2 * old(capacity) else old(capacity))
              && free == (if grown then Countdown(capacity, old(capacity) + 1) else old(free)[..|old(free)| - 1])
              && tweens[..] == Grown(old(tweens[..]), old(free))[index := tween.(id := id, isActive := true)]
    {
      if |free| == 0 {
        Expand();
        assert free == Countdown(capacity, old(capacity) + 1) + [old(capacity)];
      }
      id := Occupy(tween);
    }

    /** Pops the top free index and stores `tween` there, live, under the next ID. */
    method Occupy(tween: Tween) returns (id: int)
      requires Valid() && |free| > 0
      modifies Repr
      ensures Valid() && Repr == old(Repr) && capacity == old(capacity)
      ensures Live(id)
      ensures id == old(idCounter) && idCounter == old(idCounter) + 1
      ensures count == old(count) + 1 && trace == old(trace)
      ensures free == old(free)[..|old(free)| - 1]
      ensures tweens[..] == old(tweens[..])[old(free)[|old(free)| - 1] := tween.(id := id, isActive := true)]
    {
      var index := free[|free| - 1];
      OccupyPoolValid(tweens[..], free, count, idCounter, tween);
      ghost var slots := tweens[..][index := tween.(id := idCounter, isActive := true)];
      free := free[..|free| - 1];
      id := idCounter;
      idCounter := idCounter + 1;
      tweens[index] := tween.(id := id, isActive := true);
      count := count + 1;
      assert tweens[..] == slots;
      assert slots[index].isActive && slots[index].id == id;
    }

    /** The slot scan shared by Kill, GetTween, IsActive and ChainOnComplete: the index of the live slot carrying `id`, if any. */
    method GetTween(id: int) returns (r: Option<nat>)
      requires Valid()
      ensures r.Some? <==> Live(id)
      ensures r.Some? ==> r.value < capacity && tweens[r.value].isActive && tweens[r.value].id == id
      ensures r.Some? ==> r.value == SlotOf(id)
    {
      for i := 0 to capacity
        invariant forall j :: 0 <= j < i ==> !(tweens[j].isActive && tweens[j].id == id)
      {
        if tweens[i].isActive && tweens[i].id == id {
          return Some(i);
        }
      }
      return None;
    }

    method IsActive(id: int) returns (b: bool)
      requires Valid()
      ensures b == Live(id)
    {
      var r := GetTween(id);
      b := r.Some?;
    }

    /** Deactivates the live slot carrying `id` and pushes its index; a stale or unknown ID changes nothing. */
    method Kill(id: int)
      requires Valid()
      modifies Repr
      ensures Valid() && Repr == old(Repr)
      ensures !Live(id)
      ensures capacity == old(capacity) && idCounter == old(idCounter) && trace == old(trace)
      ensures old(Live(id)) ==>
        var i := old(SlotOf(id));
        && tweens[..] == old(tweens[..])[i := old(tweens[i]).(isActive := false)]
        && free == old(free) + [i]
        && count == old(count) - 1
      ensures !old(Live(id)) ==> tweens[..] == old(tweens[..]) && free == old(free) && count == old(count)
    {
      var r := GetTween(id);
      if r.Some? {
        var i := r.value;
        ReleasePoolValid(tweens[..], free, count, idCounter, i, tweens[i].(isActive := false));
        tweens[i] := tweens[i].(isActive := false);
        free := free + [i];
        count := count - 1;
      }
    }

    /** Makes the completion of the live `id` run its previous OnComplete and then `callback`; a no-op for an unknown ID. */
    method ChainOnComplete(id: int, callback: Action)
      requires Valid()
      modifies Repr
      ensures Valid() && Repr == old(Repr) && tweens == old(tweens)
      ensures free == old(free) && count == old(count) && capacity == old(capacity)
      ensures idCounter == old(idCounter) && trace == old(trace)
      ensures old(Live(id)) ==>
        var i := old(SlotOf(id));
        tweens[..] == old(tweens[..])[i := old(tweens[i]).(onComplete := old(tweens[i].onComplete) + callback)]
      ensures !old(Live(id)) ==> tweens[..] == old(tweens[..])
    {
      var r := GetTween(id);
      if r.Some? {
        var i := r.value;
        RewritePoolValid(tweens[..], free, count, idCounter, i, tweens[i].(onComplete := tweens[i].onComplete + callback));
        tweens[i] := tweens[i].(onComplete := tweens[i].onComplete + callback);
      }
    }

    /** The body of the slot scan for slot i with the current time step; returns the time step for the next slot. */
    method ProcessSlot(i: nat, deltaTime: real, m: Mathf) returns (dt: real)
      requires Valid() && i < capacity
      modifies Repr
      ensures Valid() && Repr == old(Repr)
      ensures capacity == old(capacity) && idCounter == old(idCounter)
      ensures var st := Step(old(tweens[i]), deltaTime, m);
        && tweens[..] == old(tweens[..])[i := st.t]
        && dt == st.dt
        && trace == old(trace) + st.events
        && free == old(free) + (if st.finished then [i] else [])
        && count == old(count) - (if st.finished then 1 else 0)
    {
      var t, events, finished;
      t, dt, events, finished := StepSlot(tweens[i], deltaTime, m);
      StepKeeps(tweens[i], deltaTime, m);
      trace := trace + events;
      if finished {
        ReleasePoolValid(tweens[..], free, count, idCounter, i, t);
        free := free + [i];
        count := count - 1;
      } else {
        RewritePoolValid(tweens[..], free, count, idCounter, i, t);
      }
      tweens[i] := t;
    }

    /** One tick of `deltaTime`, as Tick specifies it. */
    method OnUpdate(deltaTime: real, m: Mathf)
      requires Valid()
      modifies Repr
      ensures Valid() && Repr == old(Repr)
      ensures capacity == old(capacity) && idCounter == old(idCounter)
      ensures var r := Tick(old(tweens[..]), old(count), deltaTime, m);
        && tweens[..] == r.slots
        && free == old(free) + r.freed
        && trace == old(trace) + r.events
        && count == old(count) - |r.freed|
    {
      if count == 0 { return; }
      ghost var whole := Run(tweens[..], 0, deltaTime, m);
      ghost var free0, trace0, count0 := free, trace, count;
      var dt := deltaTime;
      for i := 0 to capacity
        invariant Valid() && Repr == old(Repr)
        invariant capacity == old(capacity) && idCounter == old(idCounter)
        invariant ScanInvariant(whole, free0, trace0, count0, Run(tweens[..], i, dt, m), free, trace, count)
      {
        ScanStepped(whole, free0, trace0, count0, tweens[..], i, dt, m, free, trace, count);
        dt := ProcessSlot(i, dt, m);
      }
    }
  }
}
