# react-tea-cup tasks and topics, in Dafny

This project models the effect core of react-tea-cup, an Elm-style
architecture for React. It also models the small state machines of four sample
programs.

- **Tasks** (`tasks.dfy`, module `TaskWithError`). A fallible task is the
  tree of wrapper objects that `map`, `mapError`, `andThen` and the parallel
  join build (`TEMapped`, `TEMappedErr`, `TEThen`, `TParallel`). Its meaning,
  `Deliveries`, is the sequence of `Result`s that `execute` hands to its
  callback. `attempt` pairs a task with `toMsg` (`TECmd`). `Dispatched` is
  the sequence of messages that executing the command hands to `dispatch`.
- **Parallel join** (`join.dfy`, module `Join`). `TParallel.execute` keeps
  three slots `ra`, `rb` and `error`, and `TParallelWithoutError.execute`
  keeps two. Completions of t1 and t2 update the slots in whatever order they
  arrive.
  - `Step` describes one completion and `Run` folds steps over any trace.
  - The classes `Join.Parallel` and `Join.ParallelWithoutError` hold the
    slots as fields. Their event methods `OnT1`, `OnT2` and `OnT2Value` each
    return the callback invocation they trigger, if any.
  - Each method is proved equal to `Step`. A ghost history ties every object
    to `Run`, so the trace theorems also hold of the objects.
- **Topic** (`topic.dfy`, module `PubSub`). The class `Topic` holds a mutable
  observer list. Observers are objects compared by reference, like the
  source's closures. Calling an observer is recorded as a `Delivery`.
  - `SendTask.Execute` returns everything an execution does, in order.
  - `ListenSub` registers an observer on init and removes it on release.
- **Samples**: `child.dfy`, `parent.dfy`, `context_dispatch.dfy` and
  `topics_sample.dfy` hold the pure `init`/`update`/`subscriptions`
  functions. `teacup.dfy` gives them an opaque `Cmd` and `Sub`.

The model follows the code as written:
- After an error, a later `Ok` from a fallible side is dropped. It does not
  fill its slot (`TParallel.ts:29`). Only an infallible t2 still fills `rb`
  (`TParallel.ts:48-50`).
- t1 is launched before t2 (`TParallel.ts:46-54`). When both are synchronous,
  t1's error wins.

## Model

| member | source | states |
|---|---|---|
| Join.Done | core/src/TeaCup/Tasks/TParallel.ts:20-25 | `done()`: fires `Ok(f(ra, rb))` when no error was seen and both slots are filled, and nothing otherwise. `Join.Parallel.CheckDone` is proved equal to it. |
| Join.Step | core/src/TeaCup/Tasks/TParallel.ts:27-54 | One completion through `handle` or t2's infallible callback. A recorded error stays, and fallible completions after it change nothing and fire nothing. Each side writes only its own slot. An `Ok` fires only from two filled slots with no error and is `f(ra, rb)`. An `Err` fires only as the first error, and it is recorded. |
| Join.Run | core/src/TeaCup/Tasks/TParallel.ts:15-55 | The slots and the callback invocations after any order of completions. There is at most one invocation per completion. |
| Join.FirstErrorWins | core/src/TeaCup/Tasks/TParallel.ts:27-44 | For every order of completions: the `error` slot holds the earliest `Err` of the trace. Exactly one `Err` reaches the callback if any side failed, and none otherwise. That `Err` is the last invocation of the callback. |
| Join.SlotsComeFromTheirSide | core/src/TeaCup/Tasks/TParallel.ts:46-54 | `ra` only ever holds an `Ok` payload of t1. `rb` only ever holds a value that t2 completed with. |
| Join.OkCombinesBothSides | core/src/TeaCup/Tasks/TParallel.ts:20-25 | Every `Ok` delivered is `f(a, b)`, with `a` an `Ok` payload from t1 and `b` a value from t2. No `Err` was delivered before it. |
| Join.ExactlyOneDelivery | core/src/TeaCup/Tasks/TParallel.ts:15-55 | When each fallible side completes once, in either order, the callback fires exactly once. It gets the error seen first, or else `Ok(f(a, b))`. |
| Join.ExactlyOneDeliveryInfallibleT2 | core/src/TeaCup/Tasks/TParallel.ts:47-51 | With an infallible t2 that completes once, in either order, there is exactly one invocation. It is t1's error, or else `Ok(f(a, b))`. |
| Join.Parallel.constructor | core/src/TeaCup/Tasks/TParallel.ts:16-18 | The join starts with all three slots empty and nothing delivered. |
| Join.Parallel.CheckDone | core/src/TeaCup/Tasks/TParallel.ts:20-25 | `done()` fires exactly when there is no error and both slots are filled. It fires with `Ok(f(ra, rb))`. |
| Join.Parallel.OnT1 | core/src/TeaCup/Tasks/TParallel.ts:28-43 | The new slots and the invocation are `Step` of the old slots. After an error, nothing changes and nothing fires. A first `Err` is delivered at once and recorded. The history keeps `error` equal to the first `Err` and at most one `Err` delivered. |
| Join.Parallel.OnT2 | core/src/TeaCup/Tasks/TParallel.ts:52-54 | The same as `OnT1`, for a fallible t2 that fills `rb`. |
| Join.Parallel.OnT2Value | core/src/TeaCup/Tasks/TParallel.ts:47-51 | An infallible t2 always fills `rb` and never touches `ra` or `error`. It can only trigger an `Ok`, and only when no error was seen. |
| Join.PairStep | core/src/TeaCup/Tasks/TParallel.ts:72-84 | One completion of the infallible join. It fills the completing side's slot and leaves the other alone. It fires exactly when both slots are filled, with `f(ra, rb)`. |
| Join.PairRun | core/src/TeaCup/Tasks/TParallel.ts:68-88 | The slots and the invocations after any order of completions. There is at most one invocation per completion. |
| Join.PairSlotsComeFromTheirSide | core/src/TeaCup/Tasks/TParallel.ts:79-87 | In the infallible join, `ra` holds a value of t1 and `rb` a value of t2. A slot stays empty until its side completes. |
| Join.PairRunNeedsBoth | core/src/TeaCup/Tasks/TParallel.ts:72-77 | Every value the callback receives is `f(a, b)`, with `a` from t1 and `b` from t2. If either side never completes, the callback never fires. |
| Join.PairExactlyOnce | core/src/TeaCup/Tasks/TParallel.ts:68-88 | If t1 and t2 each complete exactly once, in whichever order, the callback fires exactly once, with `f(a, b)`. |
| Join.ParallelWithoutError.constructor | core/src/TeaCup/Tasks/TParallel.ts:69-70 | Both slots start empty and nothing is delivered. |
| Join.ParallelWithoutError.CheckDone | core/src/TeaCup/Tasks/TParallel.ts:72-77 | `done()` fires exactly when both slots are filled. It fires with `f(ra, rb)`. |
| Join.ParallelWithoutError.OnT1 | core/src/TeaCup/Tasks/TParallel.ts:86 | Fills `ra` and leaves `rb` alone. The new state and the invocation are `PairStep`. |
| Join.ParallelWithoutError.OnT2 | core/src/TeaCup/Tasks/TParallel.ts:87 | Fills `rb` and leaves `ra` alone. The new state and the invocation are `PairStep`. |
| TaskWithError.Deliveries | core/src/TeaCup/Tasks/TaskWithError.ts:97-143 | The meaning of `execute`: the results handed to the callback, in order. `TEMapped` maps each one and `TEMappedErr` maps each error. `TEThen` continues per result, and `TParallel` runs the join over t1's results followed by t2's. The contract is stated by the lemmas below. |
| TaskWithError.Continue | core/src/TeaCup/Tasks/TaskWithError.ts:131-143 | `TEThen`'s callback per inner result: `Ok(v)` runs `next(v)` and forwards its results, and `Err(e)` is forwarded unchanged. The contract is stated by `ContinueAppend` and `ContinueOnErrors`. |
| TaskWithError.FuelSuffices | core/src/TeaCup/Tasks/TaskWithError.ts:97-143 | Once a task delivers exactly once within a fuel bound, more fuel gives the same deliveries. So the step-indexed meaning has stabilised. |
| TaskWithError.MapAll | core/src/TeaCup/Tasks/TaskWithError.ts:97-101 | One result out per result in, in order, each one `r.map(f)`. |
| TaskWithError.MapErrAll | core/src/TeaCup/Tasks/TaskWithError.ts:114-118 | One result out per result in, in order, each one `r.mapError(g)`. |
| TaskWithError.MapForwardsEachDelivery | core/src/TeaCup/Tasks/TaskWithError.ts:41-43 | `map(f)` delivers once per inner delivery and keeps each tag. It transforms `Ok` payloads by `f` and passes each `Err` through unchanged. |
| TaskWithError.MapErrorForwardsEachDelivery | core/src/TeaCup/Tasks/TaskWithError.ts:49-51 | `mapError(g)` delivers once per inner delivery and keeps each tag. It transforms `Err` payloads by `g` and passes each `Ok` through unchanged. |
| TaskWithError.MapComposes | core/src/TeaCup/Tasks/TaskWithError.ts:97-101 | Mapping by `f` and then by `g` delivers the same as mapping once by `g ∘ f`. |
| TaskWithError.MapErrorComposes | core/src/TeaCup/Tasks/TaskWithError.ts:114-118 | Mapping the error by `f` and then by `g` delivers the same as mapping it once by `g ∘ f`. |
| TaskWithError.ContinueAppend | core/src/TeaCup/Tasks/TaskWithError.ts:131-143 | `TEThen`'s callback handles the inner results one after another. The output for a concatenation is the concatenation of the outputs. |
| TaskWithError.ContinueOnErrors | core/src/TeaCup/Tasks/TaskWithError.ts:138-140 | Inner errors reach the callback unchanged, and the continuation is not run for them. |
| TaskWithError.AndThenShortCircuits | core/src/TeaCup/Tasks/TaskWithError.ts:57-59 | A task that only delivers errors delivers exactly the same errors after `andThen(f)`, whatever `f` is. |
| TaskWithError.AndThenOnFail | core/src/TeaCup/Tasks/TaskWithError.ts:138-140 | `fail(e).andThen(f)` delivers `Err(e)` and nothing else. |
| TaskWithError.AndThenForwards | core/src/TeaCup/Tasks/TaskWithError.ts:134-137 | When the inner task delivers `Ok(v)` once, `andThen(f)` delivers exactly what `f(v)` delivers. |
| TaskWithError.AndThenLeftIdentity | core/src/TeaCup/Tasks/TaskWithError.ts:134-137 | Left identity for a fallible leaf that delivers `Ok(v)` once (`Succeed(v)`): `andThen(f)` on it delivers exactly what `f(v)` delivers, with one continuation level of fuel used up. |
| TaskWithError.AndThenLeftIdentityStable | core/src/TeaCup/Tasks/TaskWithError.ts:134-137 | Left identity at a single fuel level: when `f(v)` delivers exactly once, `andThen(f)` on `Succeed(v)` delivers what `f(v)` delivers at the same fuel. |
| TaskWithError.ParallelDeliversOnce | core/src/TeaCup/Tasks/TParallel.ts:46-54 | When two synchronous tasks each deliver once, their join delivers exactly one result: t1's error if t1 failed, else t2's error if t2 failed, else `Ok(f(a, b))`. |
| TaskWithError.ParallelBothFail | core/src/TeaCup/Tasks/TParallel.ts:29-35 | If both sides fail, only t1's error reaches the callback, because t1 is launched first. |
| TaskWithError.ExactlyOnce | core/src/TeaCup/Tasks/TaskWithError.ts:97-143 | Leaves that deliver exactly once, combined by `map`, `mapError`, `andThen` and the join, give a task that delivers exactly once. |
| TaskWithError.Attempt | core/src/TeaCup/Tasks/TaskWithError.ts:65-67 | `attempt(toMsg)` pairs the task with `toMsg` as a command. The contract is stated by `AttemptDispatchesEachResult`. |
| TaskWithError.Dispatched | core/src/TeaCup/Tasks/TaskWithError.ts:80-84 | `TECmd.execute`: the messages handed to `dispatch`, one `toMsg(r)` per delivered result. The contract is stated by `AttemptDispatchesEachResult`. |
| TaskWithError.ToMessages | core/src/TeaCup/Tasks/TaskWithError.ts:80-84 | One message per result, in order, each one `toMsg(r)`. |
| TaskWithError.AttemptDispatchesEachResult | core/src/TeaCup/Tasks/TaskWithError.ts:65-67 | Executing `attempt(toMsg)` dispatches `toMsg(r)` once for each result `r`, in order. A task that delivers once dispatches exactly one message. |
| PubSub.Broadcast | src/TeaCup/Topic.ts:12-14 | `send(t)` makes one call per registered observer, in list order, each with `t`. |
| PubSub.SendReachesEachRegistration | src/TeaCup/Topic.ts:12-14 | A send reaches each observer once per registration, with the value sent. An unregistered observer receives nothing. |
| PubSub.Without | src/TeaCup/Topic.ts:28-30 | The filtered list drops every occurrence of `o` and keeps the count of every other observer. |
| PubSub.WithoutAppend | src/TeaCup/Topic.ts:28-30 | Filtering works piecewise on a split list, so the remaining observers keep their relative order. |
| PubSub.WithoutAbsent | src/TeaCup/Topic.ts:28-30 | Removing an observer that is not registered leaves the list unchanged. |
| PubSub.Topic.constructor | src/TeaCup/Topic.ts:10 | A new topic has no observers. |
| PubSub.Topic.Send | src/TeaCup/Topic.ts:12-14 | The loop over the observers makes exactly the calls of `Broadcast`, in order. With no observers it makes none. |
| PubSub.Topic.AddObserver | src/TeaCup/Topic.ts:24-26 | Appends `o` after the existing observers, which keep their order. |
| PubSub.Topic.RemoveObserver | src/TeaCup/Topic.ts:28-30 | The new list is the old one with every `o` filtered out. |
| PubSub.Topic.SendTaskOf | src/TeaCup/Topic.ts:16-18 | `sendTask(t)` is a new task bound to this topic and `t`. |
| PubSub.Topic.Listen | src/TeaCup/Topic.ts:20-22 | `listen(toMsg)` is a new, not yet registered subscription on this topic. |
| PubSub.SendTask.constructor | src/TeaCup/Topic.ts:38-42 | Records the topic and the value. |
| PubSub.SendTask.Execute | src/TeaCup/Topic.ts:44-47 | First comes one call per observer with `obj`, in order. Then the callback is called exactly once, with `Ok(obj)`. |
| PubSub.ListenSub.constructor | src/TeaCup/Topic.ts:55-61 | A new subscription has no recorded observer. |
| PubSub.ListenSub.DispatchedBy | src/TeaCup/Topic.ts:65-67 | The body of a closure the subscription registered: `toMsg(t)` for each call addressed to it. Its contract is stated by `InitThenSend` and `ReleaseThenSend`. |
| PubSub.ListenSub.Dispatched | src/TeaCup/Topic.ts:65-67 | What the currently recorded observer dispatches, and nothing while none is recorded. Its contract is stated by `InitThenSend` and `ReleaseThenSend`. |
| PubSub.ListenSub.OnInit | src/TeaCup/Topic.ts:63-70 | Registers exactly one new observer, at the end of the list, and records it. It occurs exactly once in the list. |
| PubSub.ListenSub.OnRelease | src/TeaCup/Topic.ts:72-78 | Removes the recorded observer and forgets it. Without a recorded observer nothing changes, so a second release is a no-op. |
| PubSub.InitThenSend | src/TeaCup/Topic.ts:63-70 | After init, a send makes the subscription dispatch `toMsg(t)` exactly once. |
| PubSub.ReleaseThenSend | src/TeaCup/Topic.ts:72-78 | After release, a send no longer reaches the closure the subscription had registered, so that closure dispatches nothing (`DispatchedBy`). That `Dispatched` is empty follows from `OnRelease` clearing the recorded observer. |
| TeaCup.MapCmd | samples/src/Samples/ContextDispatch/Parent.tsx:47 | `cmd.map(f)` keeps the kind of command and passes its messages through `f`. |
| Child.Init | samples/src/Samples/ContextDispatch/Child.tsx:39-41 | `value = 0`, no command. |
| Child.Update | samples/src/Samples/ContextDispatch/Child.tsx:43-64 | `inc` adds 1, `dec` subtracts 1 and `reset` sets 0. No branch returns a command. |
| Child.IncDecInverse | samples/src/Samples/ContextDispatch/Child.tsx:45-56 | `dec` after `inc` restores the model, and so does `inc` after `dec`. |
| Child.ResetIdempotent | samples/src/Samples/ContextDispatch/Child.tsx:57-62 | `reset` returns the initial model from any state, so resetting twice equals resetting once. |
| Parent.LiftChildMsg | samples/src/Samples/ContextDispatch/Parent.tsx:122-127 | Wraps the child message as `child-msg`. |
| Parent.Init | samples/src/Samples/ContextDispatch/Parent.tsx:40-50 | `value = "foo"` next to the child's initial model. The lifted child command is none. |
| Parent.Update | samples/src/Samples/ContextDispatch/Parent.tsx:52-73 | `child-msg` replaces the child model with `Child.update`'s and keeps `value`. `parent-clicked` appends "X" and keeps the child. No command. |
| Parent.ClicksAppend | samples/src/Samples/ContextDispatch/Parent.tsx:66-71 | `n` clicks append exactly `n` copies of "X" and leave the child model alone. |
| ContextDispatch.Init | samples/src/Samples/ContextDispatch.tsx:21-23 | An empty item list, no command. |
| ContextDispatch.Drop | samples/src/Samples/ContextDispatch.tsx:94 | The index filter removes exactly the item at `index` and keeps the rest in order. An out-of-range index leaves the list unchanged. |
| ContextDispatch.MapAt | samples/src/Samples/ContextDispatch.tsx:106-115 | The indexed map keeps the length and changes only the item at `index`. |
| ContextDispatch.Update | samples/src/Samples/ContextDispatch.tsx:89-134 | `add` appends `{0, 0}`. `delete i` removes item `i` only. `inc i` adds 1 to the value and the click count of item `i`. `dec i` subtracts 1 from the value and adds 1 to the click count. Other items and the length are unchanged, and there is never a command. |
| ContextDispatch.AddThenDeleteLast | samples/src/Samples/ContextDispatch.tsx:91-102 | Deleting the item just added restores the model. |
| ContextDispatch.IncThenDec | samples/src/Samples/ContextDispatch.tsx:103-132 | `dec i` after `inc i` restores the item's value and counts two clicks. |
| ContextDispatch.Subscriptions | samples/src/Samples/ContextDispatch.tsx:136-138 | No subscription. |
| TopicsSample.Init | samples/src/Samples/Topics.tsx:38-40 | Model 0, no command. |
| TopicsSample.Update | samples/src/Samples/Topics.tsx:52-67 | `send` keeps the model and broadcasts 3, with completion mapped to `sent`. `sent` changes nothing. `received t` adds `t`. |
| TopicsSample.Subscriptions | samples/src/Samples/Topics.tsx:70-72 | Always listens on the topic and turns each `t` into `received t`. |
| TopicsSample.SendRoundTrip | samples/src/Samples/Topics.tsx:54-65 | The broadcast of 3 comes back through the subscription as `received 3`, then completion gives `sent`, and the counter ends 3 higher. The lemma applies the two messages in that order. That the broadcast comes before the completion is proved by `PubSub.SendTask.Execute`. |

## Left out

- TaskWithError.Deliveries: the meaning is step-indexed. A `fuel` bounds how deeply `andThen` continuations can nest, and a continuation entered with no fuel left delivers nothing. The source can chain continuations without bound, and Dafny cannot prove that recursion through a task-returning function terminates.
- TaskWithError.Map: `map` and `mapError` keep the payload type (`R -> R`, `E -> E`). `andThen`'s continuation must return a task of the same result type (`R -> Task<E, R>`, where the source allows any `R2`). The join combines two tasks of the same result type. Dafny has no existential types to hide the intermediate types of a generic chain.
- TaskWithError.Deliveries: every leaf task is taken to deliver synchronously. So in the `Parallel` case all of t1's completions come before t2's. Other interleavings are covered by the trace theorems of `Join`, which hold for every order.
- The `Parallel` case of `TaskWithError.Task` covers only a fallible t2. The infallible t2 case is modelled by `Join.Parallel.OnT2Value`.
- Leaf tasks (`TSuccess`, `TError`, `TPromise`, `TLambda`) are not part of this model. A leaf is described only by the results it delivers. `Fail(e)` is a fallible leaf that delivers `Err(e)` once, standing for `Task.fail(e)`. `Succeed(v)` is a fallible leaf that delivers `Ok(v)` once. It has no factory in the source: `Task.succeed` returns a `TaskWithoutError`, whose `andThen` throws (`core/src/TeaCup/Tasks/TaskWithoutError.ts:48-54`).
- `TaskWithoutError.map`, `andThen` and `andThenWithError` are stubs that throw. An infallible task appears only as the value its completion carries.
- Task.ts: the static factories wrap classes that are not part of this model. `fromPromise` wraps JavaScript promises. The commented-out `TParallel` is dead code.
- Asynchrony is not modelled: callbacks, timers and the event loop become explicit completion events fed to the join and the topic.
- Join.Step: a step is atomic. The source calls the final callback with the `Err` before it records the error (`core/src/TeaCup/Tasks/TParallel.ts:32-33`). So a completion triggered from inside that callback would still see no error, and could deliver a second `Err`. The model applies both at once and does not capture that re-entrancy.
- A join side that completes more than once goes outside the source's contract. The model takes the source as written: another `Ok` fires the callback again once both slots are filled.
- PubSub.Topic.Send: observers are opaque objects whose calls are recorded, not run. So an observer that adds or removes observers while `send` is iterating is not modelled.
- `ListenSub`'s `dispatch` and the `Sub` base class's `onInit`/`onRelease` are not part of this model. `Dispatched` gives the messages the observer hands to `dispatch`.
- `onInit` called twice without a release registers a second observer and forgets the first. The model keeps this behaviour and adds no precondition against it. The first closure stays in the list and, in the source, still dispatches whenever it is called. `PubSub.ListenSub.Dispatched` counts only the recorded observer, so it leaves out those messages. `PubSub.ListenSub.DispatchedBy` gives them for any registered closure.
- `Cmd` and `Sub` are opaque apart from the shapes the samples build: no command or subscription, one topic send, one topic listen. `Tuple.mapBoth` is read as applying its two functions componentwise.
- JavaScript `number` is modelled as `int`. A fractional or non-finite index (which matches no item) and floating-point rounding are not modelled.
- `Result` and `Maybe` are not part of this model. They are redefined minimally in `results.dfy`.
- Views, React components, `useContext`, button handlers, `src/TeaCup/Context.tsx` and the two sample test files are left out, because they are rendering and test harness code.
