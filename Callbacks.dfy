/**
 * The delegates a tween carries (System.Action, Action<float>) and what invoking one
 * inside the runner's try/catch observes: each handler that runs leaves an event in
 * the log, and an exception becomes one Error entry for the OnError sink.
 */
module Callbacks {
  import opened Wrappers

  /** One delegate registered by a caller; `throws` says whether invoking it raises. */
  datatype Handler = Handler(tag: nat, throws: bool)

  /**
   * An Action as the handlers it runs, in order. The empty sequence is null; the
   * closure that chains a second action after a first is their concatenation.
   */
  type Action = seq<Handler>

  /**
   * An Action<float> update callback: either the caller's handler itself, or the
   * lambda Crisp.Value wraps around one, which passes `LerpUnclamped(from, to, v)` on
   * and dereferences a possibly null handler.
   */
  datatype UpdateHook = Direct(handler: Handler) | Lerp(from: real, to: real, target: Option<Handler>)

  /** The callback or function a fault was raised in. */
  datatype Hook = Start | Update | StepComplete | Complete | Easing

  /** What reaches the OnError sink: an exception caught around a hook, or a stale ID. */
  datatype Fault = Threw(id: int, hook: Hook) | NotFound(id: int)

  /** One entry of the log: a handler ran, an update value was delivered, a fault was reported. */
  datatype Event = Called(id: int, hook: Hook, tag: nat) | Delivered(id: int, tag: nat, value: real) | Error(fault: Fault)

  /** Mathf.LerpUnclamped. */
  function LerpUnclamped(a: real, b: real, t: real): real
  {
    a + (b - a) * t
  }

  /** Some handler of the action raises. */
  predicate Throws(a: Action)
  {
    exists k :: 0 <= k < |a| && a[k].throws
  }

  /**
   * The runner's guarded call of an Action hook of the tween `id`: the handlers run in
   * order until one raises; that exception is caught and reported once, and the
   * handlers after it do not run. A null action does nothing.
   */
  function Invoke(id: int, hook: Hook, a: Action): (r: seq<Event>)
  {
    if a == [] then []
    else if a[0].throws then [Called(id, hook, a[0].tag), Error(Threw(id, hook))]
    else [Called(id, hook, a[0].tag)] + Invoke(id, hook, a[1..])
  }

  /**
   * The runner's guarded call of the update hook with the eased time `v`: the value
   * the caller's handler receives, then a report if it raises.
   */
  function Deliver(id: int, hook: Option<UpdateHook>, v: real): (r: seq<Event>)
  {
    match hook
    case None => []
    case Some(Direct(h)) => [Delivered(id, h.tag, v)] + (if h.throws then [Error(Threw(id, Update))] else [])
    // invoking the null handler inside Value's lambda raises
    case Some(Lerp(_, _, None)) => [Error(Threw(id, Update))]
    case Some(Lerp(a, b, Some(h))) =>
      [Delivered(id, h.tag, LerpUnclamped(a, b, v))] + (if h.throws then [Error(Threw(id, Update))] else [])
  }

  /**
   * A chained action runs the original handlers first and the added ones after them,
   * unless the original raises, in which case the added ones are skipped.
   */
  lemma {:induction false} InvokeChained(id: int, hook: Hook, a: Action, b: Action)
    ensures Invoke(id, hook, a + b) == if Throws(a) then Invoke(id, hook, a) else Invoke(id, hook, a) + Invoke(id, hook, b)
  {
    if a == [] {
      assert a + b == b;
    } else {
      assert (a + b)[0] == a[0] && (a + b)[1..] == a[1..] + b;
      if !a[0].throws {
        ThrowsTail(a);
        InvokeChained(id, hook, a[1..], b);
      }
    }
  }

  /** A handler that does not raise runs, and then the rest of the action. */
  lemma InvokeCons(id: int, hook: Hook, h: Handler, rest: Action)
    requires !h.throws
    ensures Invoke(id, hook, [h] + rest) == [Called(id, hook, h.tag)] + Invoke(id, hook, rest)
  {
    assert ([h] + rest)[1..] == rest;
  }

  /**
   * An action that raises ends in exactly one report, after the calls of the handlers
   * up to the one that raised; one that does not raise runs every handler in order.
   */
  lemma {:induction false} InvokeReports(id: int, hook: Hook, a: Action)
    ensures var r := Invoke(id, hook, a);
      Throws(a) <==> (|r| > 0 && r[|r| - 1] == Error(Threw(id, hook)))
    ensures var r := Invoke(id, hook, a);
      Throws(a) ==> |r| >= 2 && forall k :: 0 <= k < |r| - 1 ==> r[k].Called? && r[k].hook == hook
    ensures var r := Invoke(id, hook, a);
      !Throws(a) ==> |r| == |a| && forall k :: 0 <= k < |a| ==> r[k] == Called(id, hook, a[k].tag)
  {
    if a != [] && !a[0].throws {
      ThrowsTail(a);
      InvokeReports(id, hook, a[1..]);
      var rest := Invoke(id, hook, a[1..]);
      assert Invoke(id, hook, a) == [Called(id, hook, a[0].tag)] + rest;
      forall k | 1 <= k < |rest| + 1
        ensures Invoke(id, hook, a)[k] == rest[k - 1]
      {
      }
    }
  }

  /** When the first handler does not raise, the action raises iff the rest does. */
  lemma ThrowsTail(a: Action)
    requires a != [] && !a[0].throws
    ensures Throws(a) <==> Throws(a[1..])
  {
    if Throws(a) {
      var k :| 0 <= k < |a| && a[k].throws;
      assert a[1..][k - 1].throws;
    }
    if Throws(a[1..]) {
      var k :| 0 <= k < |a[1..]| && a[1..][k].throws;
      assert a[k + 1].throws;
    }
  }
}
