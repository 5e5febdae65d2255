# crisp tween scheduler, modelled in Dafny

The model covers the core of the crisp tweening package:

- **The tween runner** (`Runtime/TweenRunner.cs`). A growable pool of `Tween` slots, a stack of free slot indices, a live count and an ID counter starting at 1. Its per-tick update, `OnUpdate`, walks every slot and does the following for each live, unpaused one:
  - consumes the delay;
  - fires OnStart once;
  - integrates elapsed time forwards or backwards and clamps it at the iteration boundary;
  - eases the normalised time and delivers it to OnUpdate;
  - counts loops;
  - applies the Restart/Yoyo/Incremental policy;
  - on finish, calls OnComplete and recycles the slot.
- **The tween record** (`Runtime/Tween.cs`). A C# struct, so it is a Dafny `datatype` (a value). `Tweens.Tween` has one field per struct field of `Runtime/Tween.cs:8-26`, the internal `_started`, `_completedLoops` and `_playingBackwards` included. `Tweens.Empty` is the default struct, which fills every unused array slot. `Pause`/`Play` produce the updated copy.
- **The static facade** (`Runtime/Crisp.cs`), as the class `Facade.Crisp`. Its only field is the lazily created runner. `Create`, `Delay` and `Value` add tweens. `Kill` and the setters reach a pooled slot by ID. A stale ID is reported to the error sink.
- **The easing table** (`Runtime/Ease.cs`), as a pure function over `real`.

Files:

| file | module | what it holds |
|---|---|---|
| `Wrappers.dfy` | `Wrappers` | `Option` |
| `Ease.dfy` | `Ease` | `EaseType`, `Evaluate`, and the lemmas about the curves |
| `Callbacks.dfy` | `Callbacks` | delegates, the event log, and how a guarded call behaves |
| `Tweens.dfy` | `Tweens` | the `Tween` record, `Pause`/`Play`, and the record `Create` builds |
| `Runner.dfy` | `Runner` | the pool invariant on values; `Step`/`Run`/`Tick`, the functions that specify a tick; the class `TweenRunner`, whose methods are proved against them |
| `TickLemmas.dfy` | `TickLemmas` | properties of `Step` and `Run`, plus concrete ticks |
| `Facade.dfy` | `Facade` | what a setter writes, and the class `Crisp` |
| `Scenarios.dfy` | `Scenarios` | the package's play-mode tests, as methods that drive the facade and the runner |

How the model represents the source:

- **Callbacks.** A callback is a sequence of `Handler`s (`[]` is null). `ChainOnComplete`'s closure is concatenation. Each handler carries a fixed `throws` flag. Invoking a hook appends `Called`/`Delivered` entries to the runner's `trace`. An exception caught around a hook appends one `Error` entry and never stops the scan. A custom easing function returns `None` where the C# one would throw.
- **The tick** is specified by two datatype-level functions:
  - `Step`: one slot, returning the slot's new record, the time step handed on to later slots, the log entries, and whether it finished;
  - `Run`: the scan over all slots.
- **Delay overshoot.** The source overwrites the method parameter `deltaTime` with the overshoot of an expired delay (`Runtime/TweenRunner.cs:148`). The model follows the code: the overwritten time step carries across every later slot of the same tick. `TickLemmas.OvershootReachesLaterSlots` shows a later slot advancing by the overshoot, not by the frame's time step.
- **Stale setter IDs.** `TweenRunner.GetTween` throws for an unknown ID. This is modelled as `None`, and the setter's catch becomes an `Error(NotFound(id))` entry.

## Model

| member | source | states |
|---|---|---|
| Callbacks.Invoke | Runtime/TweenRunner.cs:155-156 | defines the guarded call of an Action hook (the same guard wraps OnStepComplete and OnComplete): the handlers run in order until one raises, that raise is reported once and ends the call, and a null action logs nothing |
| Callbacks.Deliver | Runtime/TweenRunner.cs:193-194 | defines the guarded call of the update hook: the handler receives the eased time, or for a value tween LerpUnclamped(from, to, eased time); a raise, including the call of a null handler inside the value lambda, is reported |
| Callbacks.InvokeChained | Runtime/TweenRunner.cs:99-113 | a chained OnComplete runs the previous handlers and then the added ones, except that when the previous action raises, the added ones are skipped |
| Callbacks.InvokeReports | Runtime/TweenRunner.cs:155-156 | a guarded hook that raises logs calls of that hook's handlers followed by exactly one Error entry, at the end; one that does not raise runs every handler in order |
| Ease.Evaluate | Runtime/Ease.cs:44-81 | defines each curve as the switch computes it, with whole powers for Mathf.Pow and the rest of Mathf as a parameter; Elastic, Bounce and Custom reach the default and return t |
| Ease.LinearIsIdentity | Runtime/Ease.cs:48 | Linear returns its input |
| Ease.QuadAtHalf | Tests/Editor/CrispTests.cs:16-26 | InQuad(0.5) = 0.25 and OutQuad(0.5) = 0.75 |
| Ease.PolynomialBoundaries | Runtime/Ease.cs:52-63 | every In, Out and InOut polynomial curve (Quad to Quint) maps 0 to 0 and 1 to 1 |
| Ease.OutReflectsIn | Runtime/Ease.cs:52-63 | Out*(t) = 1 - In*(1 - t) for Quad, Cubic, Quart and Quint, for every t |
| Ease.InOutMidpoint | Runtime/Ease.cs:54-63 | each InOut polynomial returns 0.5 at t = 0.5, where it switches branch |
| Ease.InOutHalves | Runtime/Ease.cs:54-63 | below 0.5 each InOut polynomial is Pow(2t, n)/2; from 0.5 on it is 1 - Pow(2 - 2t, n)/2 |
| Ease.InOutSymmetric | Runtime/Ease.cs:54-63 | each InOut polynomial is point-symmetric about (0.5, 0.5): the value at 1 - t is 1 minus the value at t, for every t |
| Ease.ExpoBoundaries | Runtime/Ease.cs:64-67 | the guards give InExpo(0) = 0, OutExpo(1) = 1, InOutExpo(0) = 0 and InOutExpo(1) = 1 for any math library |
| Ease.BackBoundaries | Runtime/Ease.cs:72-78 | InBack, OutBack and InOutBack map 0 to 0 and 1 to 1 with the constants 2.70158, 1.70158 and 1.70158 * 1.525 |
| Ease.UnimplementedIsIdentity | Runtime/Ease.cs:79-80 | Elastic, Bounce and Custom fall to the default branch and return t |
| Ease.BoundaryStable | Runtime/Ease.cs:44-81 | given a math library exact at the points it is called on at 0 and 1, every curve maps 0 to 0 and 1 to 1 |
| Tweens.Tween.Pause | Runtime/Tween.cs:33-36 | the result is paused and differs from the record in no other field |
| Tweens.Tween.Play | Runtime/Tween.cs:38-41 | the result is unpaused and differs from the record in no other field |
| Tweens.PauseIdempotent | Runtime/Tween.cs:33-36 | pausing twice is pausing once |
| Tweens.PlayIdempotent | Runtime/Tween.cs:38-41 | playing twice is playing once |
| Tweens.PlayAfterPause | Runtime/Tween.cs:33-41 | Play after Pause is unpaused and equals Play alone; on an unpaused record it gives back the record |
| Tweens.NewTween | Runtime/Crisp.cs:31-38 | the record Create builds has not started, has no completed loops, runs forwards from elapsed 0, has no delay and is not paused |
| Runner.PoolValid | Runtime/TweenRunner.cs:10-30 | defines the invariant of the pool fields: the free stack holds exactly the inactive indices, once each; its size plus the live count is the capacity; the counter is at least 1, and every live slot carries a distinct ID below it |
| Runner.Countdown | Runtime/TweenRunner.cs:26-29 | pushing hi-1 down to lo gives a stack of length hi - lo whose k-th entry is hi-1-k, so lo is on top |
| Runner.CountdownFacts | Runtime/TweenRunner.cs:26-29 | that stack has no duplicates and holds exactly the indices lo..hi-1 |
| Runner.PopFacts | Runtime/TweenRunner.cs:51 | popping a duplicate-free stack removes exactly its top index |
| Runner.InitialPoolValid | Runtime/TweenRunner.cs:17-30 | a fresh pool of empty slots, with every index free and 0 on top, satisfies the pool invariant (free stack = exactly the inactive indices, each once; free + count = capacity; live IDs unique and below the counter) |
| Runner.GrowPoolValid | Runtime/TweenRunner.cs:115-128 | doubling the slots with empty ones and pushing the new indices keeps the pool invariant |
| Runner.GrowStack | Runtime/TweenRunner.cs:122-125 | pushing n..2n-1 onto a stack of indices below n keeps it duplicate-free and adds exactly those indices |
| Runner.GrowSlot | Runtime/TweenRunner.cs:115-128 | in the doubled pool a slot is free exactly when its index is on the extended stack, and a live slot is an old live slot with the same ID |
| Runner.ExtendPoolValid | Runtime/TweenRunner.cs:115-128 | a pool whose stack holds exactly its inactive indices, once each, whose free and live counts add up to its size, and whose live slots are old live slots with their IDs, keeps the pool invariant with the same count and counter |
| Runner.OccupyPoolValid | Runtime/TweenRunner.cs:51-55 | popping the top index and storing a live record under the counter, with the count and counter each up by one, keeps the pool invariant |
| Runner.ReleasePoolValid | Runtime/TweenRunner.cs:67-69 | deactivating a live slot, pushing its index and decrementing the count keeps the pool invariant |
| Runner.RewritePoolValid | Runtime/TweenRunner.cs:140 | rewriting a slot without touching its ID or activity keeps the pool invariant |
| Runner.Normalized | Runtime/TweenRunner.cs:182 | defines the normalised time: elapsed over duration, or 1 when the duration is not positive |
| Runner.Moved | Runtime/TweenRunner.cs:159-180 | defines the integration of the time step in the current direction and the clamp at the boundary that direction runs towards, which completes the iteration |
| Runner.Eased | Runtime/TweenRunner.cs:182-191 | defines the eased time: the custom function when the ease is Custom and a function is stored, otherwise Evaluate; a raising custom function is reported and the normalised time is kept |
| Runner.Rewind | Runtime/TweenRunner.cs:209-224 | defines the loop policy: Restart and Incremental reset elapsed to 0, Yoyo flips the direction |
| Runner.Conclude | Runtime/TweenRunner.cs:196-236 | defines the end of a processed slot: on a completed iteration OnStepComplete and the loop count, then either OnComplete and deactivation, or the loop policy |
| Runner.Advance | Runtime/TweenRunner.cs:152-236 | defines the processing of a slot whose delay is over: OnStart once, Moved, Eased, Deliver, then Conclude |
| Runner.Step | Runtime/TweenRunner.cs:137-236 | defines one iteration of the slot scan: inactive and paused slots are skipped, a pending delay absorbs the step, and an expired delay hands its overshoot on as the new time step before Advance |
| Runner.Run | Runtime/TweenRunner.cs:134-237 | defines the scan from slot i: that slot's Step, then the scan of the rest with the time step it hands on, collecting the freed indices and the log |
| Runner.Tick | Runtime/TweenRunner.cs:130-238 | defines OnUpdate: nothing when no tween is live, otherwise Run from slot 0 |
| Runner.StepKeeps | Runtime/TweenRunner.cs:137-236 | processing a slot keeps its ID; only a live slot finishes; a slot stays live exactly when it was live and did not finish |
| Runner.StepSlot | Runtime/TweenRunner.cs:137-150 | the skip and delay logic of one slot, statement by statement, computes exactly Step |
| Runner.AdvanceSlot | Runtime/TweenRunner.cs:152-236 | the processing of a slot whose delay is over, statement by statement, computes exactly Advance |
| Runner.StartAndMove | Runtime/TweenRunner.cs:152-181 | the start and integration statements compute exactly Moved, with OnStart invoked only on a slot that has not started |
| Runner.EaseAndDeliver | Runtime/TweenRunner.cs:182-194 | the normalising, easing and update statements compute exactly Eased of the normalised time, followed by Deliver of its value |
| Runner.CompleteIteration | Runtime/TweenRunner.cs:196-236 | the loop and finish statements compute exactly Conclude |
| Runner.RunUnfold | Runtime/TweenRunner.cs:134-237 | the scan from slot i is slot i's step followed by the scan from i + 1, with slot i's time step handed on |
| Runner.ScanStepped | Runtime/TweenRunner.cs:134-237 | processing one slot moves the split point between the state reached so far and the rest of the scan on by one |
| Runner.Grown | Runtime/TweenRunner.cs:46-49 | Add stores into a pool of twice the size when no index is free, otherwise into the same pool |
| Runner.PushDown | Runtime/TweenRunner.cs:122-125 | the push loop leaves the stack followed by hi-1 down to lo |
| Runner.CopySlots | Runtime/TweenRunner.cs:118-119 | Array.Copy puts every old slot at the same index of the new array and leaves the rest of it as it was |
| Runner.TweenRunner.SlotOf | Runtime/TweenRunner.cs:75-85 | the slot of a live ID is within capacity, live and carries that ID |
| Runner.TweenRunner.SlotOfUnique | Runtime/TweenRunner.cs:79-81 | a live slot carrying an ID is that ID's slot, since live IDs are unique |
| Runner.TweenRunner.constructor | Runtime/TweenRunner.cs:17-30 | a pool of the given capacity with every slot empty, count 0, counter 1, and the free stack holding every index once with 0 on top |
| Runner.TweenRunner.Expand | Runtime/TweenRunner.cs:115-128 | capacity doubles, every old slot stays at its index, new slots are empty, and the new indices are pushed so the lowest is on top; count and counter unchanged |
| Runner.TweenRunner.Add | Runtime/TweenRunner.cs:44-57 | the record is stored live under the counter's value in the slot on top of the free stack, after doubling when none is free; the counter and count each grow by one; the new top is the next free index; the pool invariant holds |
| Runner.TweenRunner.Occupy | Runtime/TweenRunner.cs:51-56 | the pop, ID assignment and store of Add once an index is free |
| Runner.TweenRunner.GetTween | Runtime/TweenRunner.cs:75-85 | finds an index exactly when a live slot carries the ID, and then it is that slot |
| Runner.TweenRunner.IsActive | Runtime/TweenRunner.cs:87-97 | true exactly when a live slot carries the ID |
| Runner.TweenRunner.Kill | Runtime/TweenRunner.cs:59-73 | a live ID's slot is deactivated, its index pushed and the count decremented, and no live slot carries the ID afterwards; an unknown or dead ID changes nothing |
| Runner.TweenRunner.ChainOnComplete | Runtime/TweenRunner.cs:99-113 | a live ID's OnComplete becomes the old one followed by the callback, and nothing else changes; an unknown ID changes nothing |
| Runner.TweenRunner.ProcessSlot | Runtime/TweenRunner.cs:136-236 | one slot is processed as Step says: the slot, the time step, the log, and on finish the free stack and count |
| Runner.TweenRunner.OnUpdate | Runtime/TweenRunner.cs:130-238 | a tick returns at once when no tween is live, otherwise leaves the pool, free stack, count and log exactly as Run says, keeping the pool invariant |
| TickLemmas.InvokeNoStart | Runtime/TweenRunner.cs:196-236 | hooks other than OnStart never log a start call |
| TickLemmas.IdleSlotUntouched | Runtime/TweenRunner.cs:137-138 | an inactive or paused slot is not changed, keeps the time step and logs nothing |
| TickLemmas.PendingDelayOnlyShrinks | Runtime/TweenRunner.cs:142-145 | a delay that stays positive is reduced by the time step and nothing else changes |
| TickLemmas.AdvanceFrame | Runtime/TweenRunner.cs:152-225 | processing changes only the started flag, the elapsed time, the loop count, the activity and the direction |
| TickLemmas.ConcludeFrame | Runtime/TweenRunner.cs:196-225 | the loop and finish logic changes only the elapsed time, the loop count, the activity and the direction |
| TickLemmas.RewindFrame | Runtime/TweenRunner.cs:207-224 | rewinding for the next loop changes only the elapsed time and the direction |
| TickLemmas.ExpiredDelayCarriesOvershoot | Runtime/TweenRunner.cs:146-150 | a delay that runs out becomes 0, and the overshoot is both integrated and handed on as the time step |
| TickLemmas.ReadySlotAdvances | Runtime/TweenRunner.cs:142-157 | a live, unpaused slot without delay advances by the whole time step and hands it on unchanged |
| TickLemmas.StartFiresOnce | Runtime/TweenRunner.cs:152-157 | a started tween never logs OnStart again; a slot is started afterwards exactly when it was started before or its delay is over this tick |
| TickLemmas.StartedStepNoStart | Runtime/TweenRunner.cs:152-157 | a slot that has started logs no OnStart call, whatever the tick does |
| TickLemmas.StepMarksStarted | Runtime/TweenRunner.cs:137-157 | a slot is started after a tick exactly when it was before, or it was live, unpaused and its delay is over this tick |
| TickLemmas.AdvanceMarksStarted | Runtime/TweenRunner.cs:152-236 | a slot whose delay is over ends the tick started, and logs no OnStart call if it had started before |
| TickLemmas.ConcludeNoStart | Runtime/TweenRunner.cs:196-236 | the loop and finish logic keeps a started slot started and adds no OnStart call to the log |
| TickLemmas.ConcludeKeepsStarted | Runtime/TweenRunner.cs:196-225 | the loop and finish logic keeps a started slot started |
| TickLemmas.StartComesFirst | Runtime/TweenRunner.cs:152-157 | on its first processed tick, the log of a slot begins with its OnStart |
| TickLemmas.NormalizedInUnit | Runtime/TweenRunner.cs:182 | the normalised time is 1 for a non-positive duration and lies in [0, 1] when elapsed is within the duration |
| TickLemmas.ElapsedStaysInRange | Runtime/TweenRunner.cs:159-181 | with a non-negative time step, elapsed stays within [0, duration] and the handed-on step stays non-negative |
| TickLemmas.AdvanceInRange | Runtime/TweenRunner.cs:159-181 | advancing by a non-negative time step keeps elapsed within [0, duration], keeps the duration and hands the step on unchanged |
| TickLemmas.ReadyLogPrefix | Runtime/TweenRunner.cs:142-194 | for a live, unpaused slot without delay, the tick's log begins with the start entries (none once started), then the easing report and the update delivery |
| TickLemmas.ConcludePrefix | Runtime/TweenRunner.cs:196-236 | the loop and finish logic only appends to the log built so far |
| TickLemmas.UpdateGetsEasedTime | Runtime/TweenRunner.cs:152-194 | for any live, unpaused slot without delay, the entry right after the start entries delivers Evaluate of the normalised, clamped elapsed time to the update hook |
| TickLemmas.UpdateGetsCustomEase | Runtime/TweenRunner.cs:152-191 | for any live, unpaused slot without delay, right after the start entries a custom ease's value is delivered; when it raises, the error is logged and then the normalised time is delivered |
| TickLemmas.CustomWithoutFunctionIsLinear | Runtime/TweenRunner.cs:152-189 | for any live, unpaused slot without delay, Custom without a function delivers the normalised time right after the start entries |
| TickLemmas.LoopCountedOnce | Runtime/TweenRunner.cs:196-201 | the loop count grows by one exactly when the iteration completed |
| TickLemmas.FinishesIff | Runtime/TweenRunner.cs:203-206 | a slot finishes exactly when the iteration completed, loops is not -1 and the incremented count reaches loops |
| TickLemmas.InfiniteNeverFinishes | Runtime/TweenRunner.cs:203 | with loops = -1 a slot never finishes and keeps its activity |
| TickLemmas.ZeroLoopsLikeOne | Runtime/TweenRunner.cs:203-206 | loops = 0 behaves exactly like loops = 1 |
| TickLemmas.AdvanceZeroLoops | Runtime/TweenRunner.cs:201-206 | the same, for a slot whose delay is over |
| TickLemmas.FinishCallsComplete | Runtime/TweenRunner.cs:228-236 | a finishing slot was live, is inactive afterwards, and its log ends with OnStepComplete followed by OnComplete |
| TickLemmas.LoopPolicy | Runtime/TweenRunner.cs:207-224 | a completed iteration that does not finish resets elapsed to 0 under Restart and Incremental; under Yoyo it keeps the boundary and flips the direction |
| TickLemmas.MidIteration | Runtime/TweenRunner.cs:159-181 | an iteration that does not complete moves elapsed by the time step in the current direction without finishing |
| TickLemmas.RunKeepsLength | Runtime/TweenRunner.cs:134 | a tick keeps the number of slots |
| TickLemmas.RunKeepsIdle | Runtime/TweenRunner.cs:137-138 | a tick leaves every inactive and every paused slot as it was |
| TickLemmas.RunKeepsElapsedInRange | Runtime/TweenRunner.cs:159-181 | a tick with a non-negative step keeps every slot's elapsed time within its duration |
| TickLemmas.RunSingle | Runtime/TweenRunner.cs:134-237 | with a single live slot, a tick is that slot's step |
| TickLemmas.RunIdle | Runtime/TweenRunner.cs:137 | with no live slot, the scan changes nothing |
| TickLemmas.EmptyTickIsIdentity | Runtime/TweenRunner.cs:132 | a tick with live count 0 changes nothing |
| TickLemmas.LinearInTwoHalves | Tests/Runtime/CrispPlayModeTests.cs:31-48 | a fresh linear tween of duration 1, ticked by 0.5 twice, reports 0.5 and then 1, and then it has finished |
| TickLemmas.DelayThenProgress | Tests/Runtime/CrispPlayModeTests.cs:85-104 | a delay of 0.5 ticked by 0.4 shows no progress; a further 0.2 gives elapsed 0.1 and reports 0.1 |
| TickLemmas.DelayOfHalfCompletes | Tests/Runtime/CrispPlayModeTests.cs:124-137 | a delay tween of 0.5 ticked by 0.5 runs its OnComplete and finishes |
| TickLemmas.ValueAtHalf | Tests/Runtime/CrispPlayModeTests.cs:166-176 | a value tween from 0 to 100 over 1, ticked by 0.5, reports 50 and does not finish |
| TickLemmas.OvershootReachesLaterSlots | Runtime/TweenRunner.cs:142-149 | after a slot whose delay of 0.5 expires in a tick of 1, a later slot advances by 0.5 |
| TickLemmas.YoyoTwoLoops | Runtime/TweenRunner.cs:207-217 | a two-loop Yoyo plays forwards, turns at the end, plays backwards reporting decreasing values, and finishes at 0 |
| Facade.Apply | Runtime/Crisp.cs:75-132 | no setter touches ID, activity, pause flag, duration, update hook or progress |
| Facade.LastWriteWins | Runtime/Crisp.cs:75-132 | two writes of the same field group keep the last, except a built-in ease after a custom one, which keeps the stored function |
| Facade.SettingsCommute | Runtime/Crisp.cs:75-132 | setters of different field groups commute |
| Facade.CustomAfterBuiltIn | Runtime/Crisp.cs:82-92 | SetCustomEase after SetEase is SetCustomEase alone, for a function or null |
| Facade.NullCustomEaseIsIdentity | Runtime/TweenRunner.cs:185-189 | SetCustomEase with null clears the stored function, so the update then receives the normalised time and nothing is reported |
| Facade.ApplyIdempotent | Runtime/Crisp.cs:75-132 | every setter is idempotent |
| Facade.Configured | Runtime/Crisp.cs:75-132 | configuring keeps the number of slots |
| Facade.ConfiguredLive | Runtime/Crisp.cs:75-80 | for a live ID only its slot gets the write, and the pool invariant holds |
| Facade.ConfiguredStale | Runtime/Crisp.cs:75-80 | for an ID no live slot carries, no slot changes |
| Facade.Crisp.constructor | Runtime/Crisp.cs:11 | the facade starts without a runner |
| Facade.Crisp.Init | Runtime/Crisp.cs:13-20 | creates a runner of capacity 64 when there is none, otherwise keeps the runner and every tween in it |
| Facade.Crisp.EnsureRunner | Runtime/Crisp.cs:24-29 | without a runner, a fresh empty runner of capacity 64 is made; an existing runner is kept; no slot, stack, counter or log changes |
| Facade.Crisp.Create | Runtime/Crisp.cs:22-43 | creates a runner if needed; stores the defaults (Linear, one loop, Restart) with the given duration and update hook as a new live slot under the next ID, as Add places it; returns a copy of that slot |
| Facade.Crisp.Place | Runtime/Crisp.cs:40-42 | the record is stored live under the next ID as Add places it, and the copy returned is the pooled slot |
| Facade.Crisp.Delay | Runtime/Crisp.cs:45-52 | Create with no update hook, then OnComplete set in the pooled slot when the action is not null; the returned copy is taken before that |
| Facade.Crisp.Value | Runtime/Crisp.cs:54-61 | Create whose update hook delivers LerpUnclamped(from, to, eased time) to the caller's handler |
| Facade.Crisp.Kill | Runtime/Crisp.cs:63-66 | without a runner, nothing; otherwise the runner's Kill |
| Facade.Crisp.ReportError | Runtime/Crisp.cs:68-73 | the fault is appended to the error sink and nothing else changes |
| Facade.Crisp.Configure | Runtime/Crisp.cs:75-80 | without a runner, nothing; a live ID's slot gets the write; a stale ID changes no slot and reports one NotFound error; the pool bookkeeping is unchanged |
| Facade.Crisp.SetEase | Runtime/Crisp.cs:75-80 | Configure with the ease type |
| Facade.Crisp.SetCustomEase | Runtime/Crisp.cs:82-92 | Configure with ease type Custom and the function, which may be null and then clears the stored one |
| Facade.Crisp.SetLoops | Runtime/Crisp.cs:94-104 | Configure with loops and loop type |
| Facade.Crisp.SetOnComplete | Runtime/Crisp.cs:106-111 | Configure with OnComplete |
| Facade.Crisp.SetOnStepComplete | Runtime/Crisp.cs:113-118 | Configure with OnStepComplete |
| Facade.Crisp.SetOnStart | Runtime/Crisp.cs:120-125 | Configure with OnStart |
| Facade.Crisp.SetDelay | Runtime/Crisp.cs:127-132 | Configure with the delay |
| Facade.Crisp.ChainOnComplete | Runtime/Crisp.cs:134-138 | without a runner, nothing; otherwise the runner's ChainOnComplete: only a live ID's OnComplete changes, and the free stack, count, counter, capacity and log stay as they were |
| Scenarios.TickOfSingle | Runtime/TweenRunner.cs:134-237 | a tick of a pool with one live slot is that slot's step |
| Scenarios.IdleTick | Runtime/TweenRunner.cs:132-138 | a tick of a pool with no live slot changes nothing and logs nothing |
| Scenarios.CreateFirst | Runtime/Crisp.cs:22-43 | the first tween gets ID 1 and slot 0; every other slot stays empty, and 1 is the next free index |
| Scenarios.DelayFirst | Runtime/Crisp.cs:45-52 | the first delay tween gets ID 1 and slot 0 with the given OnComplete; every other slot stays empty |
| Scenarios.ValueFirst | Runtime/Crisp.cs:54-61 | the first value tween gets ID 1 and slot 0; every other slot stays empty |
| Scenarios.MovesObject | Tests/Runtime/CrispPlayModeTests.cs:31-48 | a linear tween of duration 1 reports 0.5 after a tick of 0.5 and 1 after another |
| Scenarios.DelayWaits | Tests/Runtime/CrispPlayModeTests.cs:85-104 | with delay 0.5, a tick of 0.4 reports nothing and a further 0.2 reports 0.1 |
| Scenarios.CancelStopsTween | Tests/Runtime/CrispPlayModeTests.cs:106-122 | a tween killed after reporting 0.5 reports nothing on the next tick |
| Scenarios.ValueTweens | Tests/Runtime/CrispPlayModeTests.cs:166-176 | Value(0, 100, 1) reports 50 after a tick of 0.5 |
| Scenarios.DelayCompletes | Tests/Runtime/CrispPlayModeTests.cs:124-137 | Delay(0.5, h) runs h as OnComplete in the tick that reaches 0.5 |
| Scenarios.StaleSetterReports | Runtime/Crisp.cs:75-80 | a setter on a killed tween's ID reports exactly one NotFound error |
| Scenarios.IdsIncrease | Runtime/TweenRunner.cs:44-57 | consecutive creations get IDs 1 and 2 |
| Scenarios.PausedCopyKeepsRunning | Runtime/Crisp.cs:42 | pausing the copy Create returns leaves the pooled slot running |
| Scenarios.ReinitKeepsTweens | Runtime/Crisp.cs:13-20 | after a second Init, a live tween goes on ticking |

## Left out

- `TweenRunner.SetRunLoop` and the `IRunLoop` subscription (Runtime/TweenRunner.cs:32-42), and the `IRunLoop` argument of `Crisp.Init`: this is host wiring, and the tick is the direct call `OnUpdate(deltaTime, m)`.
- `Crisp.ToAwaitable` and `Crisp.ToTask`: these are async/await helpers with cancellation.
- Runtime/TweenExtensions.cs is not part of this model: the Transform, Image and CanvasGroup shortcuts. The scenarios use a `Create` with a plain update handler where the tests use `transform.Move`.
- `Debug.LogWarning` in `Create`: logging is not modelled.
- `Tween.Kill` (Runtime/Tween.cs:28-31) only forwards the record's ID to `Crisp.Kill`, which is `Facade.Crisp.Kill`.
- Floating point: time is `real`, so float rounding is not modelled.
- Transcendental easing: Sine, Circ, and the non-boundary Expo values come from the `Mathf` parameter and are not interpreted. Only their boundary behaviour is stated, under `BoundaryStable`'s assumption.
- Handlers: whether a handler raises is a fixed `throws` flag. A handler has no other effect.
- Re-entrant callbacks: callbacks that call `Kill`, `Add` or a setter during a tick are not modelled.
- Exception objects: only "one error recorded" is kept. The OnError event's own subscribers are not modelled, and the error sink is the runner's `trace`.
- Runner.TweenRunner.Add: does not model the 32-bit wrap-around of `_idCounter++`, because IDs are unbounded integers here.
- Runner.TweenRunner.Expand: does not model an overflow of `_capacity * 2`.
- Runner.TweenRunner.constructor: requires a positive capacity. With capacity 0, Expand keeps the capacity at 0 and the following Pop throws. The only caller passes 64.
- `ref` access: `GetTween` returns an index instead of a `ref`, and the setters write through that index. A caller holding a `ref` across other calls is not modelled.
