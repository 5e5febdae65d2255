/**
 * The static facade of Runtime/Crisp.cs. Its one piece of state, the lazily created
 * runner, is the field of an object; the methods are Crisp's static methods.
 *
 * A setter reaches the pooled slot through the reference GetTween returns, so it is an
 * in-place write of the runner's array. A stale ID makes GetTween throw; the catch
 * hands the exception to OnError, which is the Error entry appended to the runner's log.
 */
module Facade {
  import opened Wrappers
  import opened Callbacks
  import opened Ease
  import opened Tweens
  import opened Runner

  // ---------------------------------------------------------------------------
  // Configuring a record

  /** What one setter writes into the pooled record. */
  datatype Setting =
    | EaseTo(easeType: EaseType)
    | CustomEaseTo(f: Option<EaseFn>)
    | LoopsTo(loops: int, loopType: LoopType)
    | OnCompleteTo(onComplete: Action)
    | OnStepCompleteTo(onStepComplete: Action)
    | OnStartTo(onStart: Action)
    | DelayTo(delay: real)

  /** The group of fields a setting writes; settings of different groups touch disjoint fields. */
  datatype FieldGroup = EaseFields | LoopFields | CompleteField | StepCompleteField | StartField | DelayField

  function Group(s: Setting): FieldGroup
  {
    match s
    case EaseTo(_) => EaseFields
    case CustomEaseTo(_) => EaseFields
    case LoopsTo(_, _) => LoopFields
    case OnCompleteTo(_) => CompleteField
    case OnStepCompleteTo(_) => StepCompleteField
    case OnStartTo(_) => StartField
    case DelayTo(_) => DelayField
  }

  /**
   * The write a setter performs on the record. No setter touches the identity, the
   * activity, the duration, the update hook, the pause flag or the progress of the
   * tween, so configuring a running tween never disturbs where it is.
   */
  function Apply(t: Tween, s: Setting): (r: Tween)
    ensures r.id == t.id && r.isActive == t.isActive && r.isPaused == t.isPaused
    ensures r.duration == t.duration && r.onUpdate == t.onUpdate
    ensures r.elapsed == t.elapsed && r.started == t.started
    ensures r.completedLoops == t.completedLoops && r.playingBackwards == t.playingBackwards
  {
    match s
    case EaseTo(e) => t.(easeType := e)
    case CustomEaseTo(f) => t.(easeType := Custom, customEase := f)
    case LoopsTo(n, l) => t.(loops := n, loopType := l)
    case OnCompleteTo(a) => t.(onComplete := a)
    case OnStepCompleteTo(a) => t.(onStepComplete := a)
    case OnStartTo(a) => t.(onStart := a)
    case DelayTo(d) => t.(delay := d)
  }

  /**
   * Setting the same group twice keeps only the last write, except that a built-in ease
   * set after a custom one leaves the custom function stored (unused unless the ease
   * type is set back to Custom).
   */
  lemma LastWriteWins(t: Tween, a: Setting, b: Setting)
    requires Group(a) == Group(b) && !(a.CustomEaseTo? && b.EaseTo?)
    ensures Apply(Apply(t, a), b) == Apply(t, b)
  {
  }

  /** Settings of different groups commute. */
  lemma SettingsCommute(t: Tween, a: Setting, b: Setting)
    requires Group(a) != Group(b)
    ensures Apply(Apply(t, a), b) == Apply(Apply(t, b), a)
  {
    match a
    case EaseTo(_) =>
    case CustomEaseTo(_) =>
    case LoopsTo(_, _) =>
    case OnCompleteTo(_) =>
    case OnStepCompleteTo(_) =>
    case OnStartTo(_) =>
    case DelayTo(_) =>
  }

  /** A custom ease set after a built-in one replaces it. */
  lemma CustomAfterBuiltIn(t: Tween, e: EaseType, f: Option<EaseFn>)
    ensures Apply(Apply(t, EaseTo(e)), CustomEaseTo(f)) == Apply(t, CustomEaseTo(f))
  {
  }

  /**
   * A null custom ease clears the stored function: the ease type is Custom, and the
   * update then receives the normalised time itself, with nothing reported.
   */
  lemma NullCustomEaseIsIdentity(t: Tween, n: real, m: Mathf)
    ensures Apply(t, CustomEaseTo(None)).customEase == None
    ensures Eased(Apply(t, CustomEaseTo(None)), n, m) == (n, [])
  {
  }

  /** Every setting is idempotent. */
  lemma ApplyIdempotent(t: Tween, s: Setting)
    ensures Apply(Apply(t, s), s) == Apply(t, s)
  {
  }

  /** The slots after configuring `id`: the live slot carrying it gets the write, every other slot stays as it was. */
  function Configured(slots: seq<Tween>, id: int, s: Setting): (r: seq<Tween>)
    ensures |r| == |slots|
  {
    seq(|slots|, j requires 0 <= j < |slots| =>
      if slots[j].isActive && slots[j].id == id then Apply(slots[j], s) else slots[j])
  }

  /** In a valid pool, configuring a live ID rewrites its one slot and keeps the invariant. */
  lemma ConfiguredLive(slots: seq<Tween>, free: seq<nat>, count: int, idCounter: int, id: int, i: nat, s: Setting)
    requires PoolValid(slots, free, count, idCounter)
    requires i < |slots| && slots[i].isActive && slots[i].id == id
    ensures Configured(slots, id, s) == slots[i := Apply(slots[i], s)]
    ensures PoolValid(Configured(slots, id, s), free, count, idCounter)
  {
    RewritePoolValid(slots, free, count, idCounter, i, Apply(slots[i], s));
  }

  /** Configuring an ID that no live slot carries changes no slot. */
  lemma ConfiguredStale(slots: seq<Tween>, id: int, s: Setting)
    requires !LiveIn(slots, id)
    ensures Configured(slots, id, s) == slots
  {
  }

  /** A second write to the same slot replaces the first. */
  lemma UpdateTwice(s: seq<Tween>, i: nat, a: Tween, b: Tween)
    requires i < |s|
    ensures s[i := a][i := b] == s[i := b]
  {
  }

  // ---------------------------------------------------------------------------
  // The facade

  /** The capacity Crisp creates its runner with. */
  const DefaultCapacity: int := 64

  class Crisp {
    var runner: TweenRunner?
    ghost var Repr: set<object>

    ghost predicate Valid()
      reads this, Repr
    {
      && this in Repr
      && (runner == null ==> Repr == {this})
      && (runner != null ==>
            && runner in Repr && runner.Repr <= Repr && this !in runner.Repr
            && runner.Valid() && Repr == {this} + runner.Repr)
    }

    /** The pool's slots, or those the lazily created runner starts with. */
    ghost function Slots(): seq<Tween>
      requires Valid()
      reads this, Repr
    {
      if runner == null then seq(DefaultCapacity, _ => Empty) else runner.tweens[..]
    }

    /** The free stack, or the one the lazily created runner starts with. */
    ghost function FreeStack(): seq<nat>
      requires Valid()
      reads this, Repr
    {
      if runner == null then Countdown(DefaultCapacity, 0) else runner.free
    }

    /** The ID the next tween gets. */
    ghost function NextId(): int
      requires Valid()
      reads this, Repr
    {
      if runner == null then 1 else runner.idCounter
    }

    ghost function LiveCount(): int
      requires Valid()
      reads this, Repr
    {
      if runner == null then 0 else runner.count
    }

    ghost function Log(): seq<Event>
      requires Valid()
      reads this, Repr
    {
      if runner == null then [] else runner.trace
    }

    /**
     * Since the previous state, `t` was stored live under the next ID in the slot on top
     * of the free stack (after the pool doubled, if no slot was free), and nothing else
     * changed but the stack, the counter and the live count.
     */
    twostate predicate Added(t: Tween)
      requires old(Valid()) && Valid() && runner != null
      reads this, Repr
    {
      var before, freeBefore := old(Slots()), old(FreeStack());
      var grown := |freeBefore| == 0;
      var index := if grown then |before| else freeBefore[|freeBefore| - 1];
      && t.id == old(NextId()) && runner.idCounter == t.id + 1
      && t.isActive && runner.Live(t.id)
      && runner.tweens[..] == Grown(before, freeBefore)[index := t]
      && runner.free == (if grown then Countdown(2 * |before|, |before| + 1) else freeBefore[..|freeBefore| - 1])
      && runner.count == old(LiveCount()) + 1 && runner.trace == old(Log())
    }

    /**
     * Since the previous state the facade kept its runner, and the runner kept its slot
     * array, its free stack, its live count, its capacity and its ID counter.
     */
    twostate predicate PoolKept()
      requires old(Valid()) && Valid()
      reads this, Repr
    {
      && runner == old(runner)
      && (runner != null ==>
        && runner.tweens == old(runner.tweens) && runner.free == old(runner.free) && runner.count == old(runner.count)
        && runner.capacity == old(runner.capacity) && runner.idCounter == old(runner.idCounter))
    }

    /** The facade before anything initialised it. */
    constructor ()
      ensures Valid() && fresh(Repr) && runner == null
    {
      runner := null;
      Repr := {this};
    }

    /** Crisp.Init: creates the runner unless there is one, so re-initialising keeps every live tween. */
    method Init()
      requires Valid()
      modifies this
      ensures Valid() && runner != null && fresh(Repr - old(Repr))
      ensures old(runner) != null ==> runner == old(runner) && Repr == old(Repr)
      ensures old(runner) == null ==>
        && fresh(runner) && runner.capacity == DefaultCapacity && runner.count == 0
        && runner.idCounter == 1 && runner.trace == [] && runner.free == Countdown(DefaultCapacity, 0)
        && (forall i :: 0 <= i < DefaultCapacity ==> runner.tweens[i] == Empty)
    {
      if runner == null {
        runner := new TweenRunner(DefaultCapacity);
        Repr := {this} + runner.Repr;
      }
    }

    /**
     * The lazy creation at the start of Crisp.Create: a missing runner is created with
     * the state the ghost view already assumed for it, so the view does not change.
     */
    method EnsureRunner()
      requires Valid()
      modifies this
      ensures Valid() && runner != null && fresh(Repr - old(Repr))
      ensures old(runner) != null ==> runner == old(runner) && Repr == old(Repr)
      ensures Slots() == old(Slots()) && FreeStack() == old(FreeStack())
      ensures NextId() == old(NextId()) && LiveCount() == old(LiveCount()) && Log() == old(Log())
    {
      if runner == null {
        // Debug.LogWarning is not modelled
        runner := new TweenRunner(DefaultCapacity);
        Repr := {this} + runner.Repr;
        assert runner.tweens[..] == seq(DefaultCapacity, _ => Empty);
      }
    }

    /**
     * Crisp.Create: a new live slot holding the defaults (Linear, one loop, Restart) with
     * the given duration and update hook, under the runner's next ID; the caller gets a
     * copy of that slot.
     */
    method Create(duration: real, onUpdate: Option<UpdateHook>) returns (t: Tween)
      requires Valid()
      modifies Repr
      ensures Valid() && runner != null && fresh(Repr - old(Repr))
      ensures old(runner) != null ==> runner == old(runner)
      ensures t == NewTween(duration, onUpdate).(id := t.id, isActive := true)
      ensures Added(t)
    {
      EnsureRunner();
      t := Place(NewTween(duration, onUpdate));
    }

    /** The Add and GetTween of Crisp.Create, once there is a runner. */
    method Place(tween: Tween) returns (t: Tween)
      requires Valid() && runner != null
      modifies Repr
      ensures Valid() && runner == old(runner) && fresh(Repr - old(Repr))
      ensures t == tween.(id := t.id, isActive := true)
      ensures Added(t)
    {
      ghost var before, freeBefore := runner.tweens[..], runner.free;
      ghost var index := if |freeBefore| == 0 then |before| else freeBefore[|freeBefore| - 1];
      var id := runner.Add(tween);
      ghost var slots := runner.tweens[..];
      assert slots == Grown(before, freeBefore)[index := tween.(id := id, isActive := true)];
      runner.SlotOfUnique(id, index);
      var r := runner.GetTween(id);
      t := runner.tweens[r.value];
      assert slots == Grown(before, freeBefore)[index := t];
      Repr := {this} + runner.Repr;
    }

    /**
     * Crisp.Delay: a tween of the given duration with no update hook, whose OnComplete
     * is the given action when that is not null. The copy returned is taken before the
     * action is set, so its own OnComplete is null.
     */
    method Delay(duration: real, onComplete: Action) returns (t: Tween)
      requires Valid()
      modifies Repr
      ensures Valid() && runner != null && fresh(Repr - old(Repr))
      ensures old(runner) != null ==> runner == old(runner)
      ensures t == NewTween(duration, None).(id := t.id, isActive := true)
      ensures Added(t.(onComplete := onComplete))
    {
      ghost var before, freeBefore := Slots(), FreeStack();
      ghost var i := if |freeBefore| == 0 then |before| else freeBefore[|freeBefore| - 1];
      t := Create(duration, None);
      ghost var slots, grown := runner.tweens[..], Grown(before, freeBefore);
      assert slots == grown[i := t];
      if onComplete != [] {
        assert slots[i] == t;
        assert Apply(t, OnCompleteTo(onComplete)) == t.(onComplete := onComplete);
        ConfiguredLive(slots, runner.free, runner.count, runner.idCounter, t.id, i, OnCompleteTo(onComplete));
        ghost var configured := Configured(slots, t.id, OnCompleteTo(onComplete));
        assert configured == slots[i := t.(onComplete := onComplete)];
        runner.SlotOfUnique(t.id, i);
        SetOnComplete(t.id, onComplete);
        assert runner.tweens[..] == configured;
        UpdateTwice(grown, i, t, t.(onComplete := onComplete));
      } else {
        assert t.(onComplete := onComplete) == t;
      }
    }

    /** Crisp.Value: a tween whose update hook passes LerpUnclamped(from, to, eased time) on to `onUpdate`. */
    method Value(from: real, to: real, duration: real, onUpdate: Option<Handler>) returns (t: Tween)
      requires Valid()
      modifies Repr
      ensures Valid() && runner != null && fresh(Repr - old(Repr))
      ensures old(runner) != null ==> runner == old(runner)
      ensures t == NewTween(duration, Some(Lerp(from, to, onUpdate))).(id := t.id, isActive := true)
      ensures Added(t)
    {
      t := Create(duration, Some(Lerp(from, to, onUpdate)));
    }

    /** Crisp.Kill: forwards to the runner; with no runner it does nothing. */
    method Kill(id: int)
      requires Valid()
      modifies Repr
      ensures Valid() && runner == old(runner) && Repr == old(Repr)
      ensures runner != null ==> !runner.Live(id)
      ensures runner != null ==>
        runner.trace == old(runner.trace) && runner.capacity == old(runner.capacity) && runner.idCounter == old(runner.idCounter)
      ensures runner != null && old(runner.Live(id)) ==>
        var i := old(runner.SlotOf(id));
        && runner.tweens[..] == old(runner.tweens[..])[i := old(runner.tweens[i]).(isActive := false)]
        && runner.free == old(runner.free) + [i] && runner.count == old(runner.count) - 1
      ensures runner != null && !old(runner.Live(id)) ==>
        runner.tweens[..] == old(runner.tweens[..]) && runner.free == old(runner.free) && runner.count == old(runner.count)
    {
      if runner != null {
        runner.Kill(id);
      }
    }

    /** Crisp.ReportError: the fault reaches the OnError sink. */
    method ReportError(f: Fault)
      requires Valid() && runner != null
      modifies runner
      ensures Valid() && runner == old(runner)
      ensures runner.trace == old(runner.trace) + [Error(f)]
      ensures runner.tweens == old(runner.tweens) && runner.free == old(runner.free) && runner.count == old(runner.count)
      ensures runner.capacity == old(runner.capacity) && runner.idCounter == old(runner.idCounter) && runner.Repr == old(runner.Repr)
    {
      runner.trace := runner.trace + [Error(f)];
    }

    /**
     * The body shared by the setters: with no runner nothing happens; a live ID gets the
     * write in its slot and nothing else changes; a stale or unknown ID changes no slot
     * and reports exactly one error.
     */
    method Configure(id: int, s: Setting)
      requires Valid()
      modifies Repr
      ensures Valid() && Repr == old(Repr) && PoolKept()
      ensures runner != null ==>
        && runner.tweens[..] == Configured(old(runner.tweens[..]), id, s)
        && runner.trace == old(runner.trace) + (if old(runner.Live(id)) then [] else [Error(NotFound(id))])
    {
      if runner == null { return; }
      var r := runner.GetTween(id);
      if r.None? {
        ConfiguredStale(runner.tweens[..], id, s);
        ReportError(NotFound(id));
        return;
      }
      var i := r.value;
      ConfiguredLive(runner.tweens[..], runner.free, runner.count, runner.idCounter, id, i, s);
      runner.tweens[i] := Apply(runner.tweens[i], s);
    }

    method SetEase(id: int, easeType: EaseType)
      requires Valid()
      modifies Repr
      ensures Valid() && Repr == old(Repr) && PoolKept()
      ensures runner != null ==>
        && runner.tweens[..] == Configured(old(runner.tweens[..]), id, EaseTo(easeType))
        && runner.trace == old(runner.trace) + (if old(runner.Live(id)) then [] else [Error(NotFound(id))])
    {
      Configure(id, EaseTo(easeType));
    }

    /** Crisp.SetCustomEase: the ease type becomes Custom and the function, possibly null, is stored. */
    method SetCustomEase(id: int, f: Option<EaseFn>)
      requires Valid()
      modifies Repr
      ensures Valid() && Repr == old(Repr) && PoolKept()
      ensures runner != null ==>
        && runner.tweens[..] == Configured(old(runner.tweens[..]), id, CustomEaseTo(f))
        && runner.trace == old(runner.trace) + (if old(runner.Live(id)) then [] else [Error(NotFound(id))])
    {
      Configure(id, CustomEaseTo(f));
    }

    method SetLoops(id: int, loops: int, loopType: LoopType)
      requires Valid()
      modifies Repr
      ensures Valid() && Repr == old(Repr) && PoolKept()
      ensures runner != null ==>
        && runner.tweens[..] == Configured(old(runner.tweens[..]), id, LoopsTo(loops, loopType))
        && runner.trace == old(runner.trace) + (if old(runner.Live(id)) then [] else [Error(NotFound(id))])
    {
      Configure(id, LoopsTo(loops, loopType));
    }

    method SetOnComplete(id: int, onComplete: Action)
      requires Valid()
      modifies Repr
      ensures Valid() && Repr == old(Repr) && PoolKept()
      ensures runner != null ==>
        && runner.tweens[..] == Configured(old(runner.tweens[..]), id, OnCompleteTo(onComplete))
        && runner.trace == old(runner.trace) + (if old(runner.Live(id)) then [] else [Error(NotFound(id))])
    {
      Configure(id, OnCompleteTo(onComplete));
    }

    method SetOnStepComplete(id: int, onStepComplete: Action)
      requires Valid()
      modifies Repr
      ensures Valid() && Repr == old(Repr) && PoolKept()
      ensures runner != null ==>
        && runner.tweens[..] == Configured(old(runner.tweens[..]), id, OnStepCompleteTo(onStepComplete))
        && runner.trace == old(runner.trace) + (if old(runner.Live(id)) then [] else [Error(NotFound(id))])
    {
      Configure(id, OnStepCompleteTo(onStepComplete));
    }

    method SetOnStart(id: int, onStart: Action)
      requires Valid()
      modifies Repr
      ensures Valid() && Repr == old(Repr) && PoolKept()
      ensures runner != null ==>
        && runner.tweens[..] == Configured(old(runner.tweens[..]), id, OnStartTo(onStart))
        && runner.trace == old(runner.trace) + (if old(runner.Live(id)) then [] else [Error(NotFound(id))])
    {
      Configure(id, OnStartTo(onStart));
    }

    method SetDelay(id: int, delay: real)
      requires Valid()
      modifies Repr
      ensures Valid() && Repr == old(Repr) && PoolKept()
      ensures runner != null ==>
        && runner.tweens[..] == Configured(old(runner.tweens[..]), id, DelayTo(delay))
        && runner.trace == old(runner.trace) + (if old(runner.Live(id)) then [] else [Error(NotFound(id))])
    {
      Configure(id, DelayTo(delay));
    }

    /** Crisp.ChainOnComplete: forwards to the runner; with no runner it does nothing. */
    method ChainOnComplete(id: int, callback: Action)
      requires Valid()
      modifies Repr
      ensures Valid() && Repr == old(Repr) && PoolKept()
      ensures runner != null ==> runner.trace == old(runner.trace)
      ensures runner != null && old(runner.Live(id)) ==>
        var i := old(runner.SlotOf(id));
        runner.tweens[..] == old(runner.tweens[..])[i := old(runner.tweens[i]).(onComplete := old(runner.tweens[i].onComplete) + callback)]
      ensures runner != null && !old(runner.Live(id)) ==> runner.tweens[..] == old(runner.tweens[..])
    {
      if runner != null {
        runner.ChainOnComplete(id, callback);
      }
    }
  }
}
