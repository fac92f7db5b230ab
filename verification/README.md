# redux-middleman, modelled in Dafny

`ReduxMiddleman` is a Redux middleware that also acts as a Node event
emitter. Users register callbacks for action types with `on`. When an
action of a registered type passes through the middleware, every callback
for that type is invoked with `{action, currentState, dispatch}`. Only
after all of them have run is the action handed to `next`. Callbacks may
call `dispatch`, which re-enters the middleware. So every action a
callback dispatches before it returns reaches the store before the action
that triggered it.

The model has five modules:

- `Registry` (registry.dfy) models `registeredActions`. It is a
  `map<string, seq<L>>` from action type to callback list, where the
  listener identity `L` stands for JavaScript `===` on function references.
  - `AddListener` is the internal `newListener` handler.
  - `RemoveListener` is the internal `removeListener` handler.
  - `Valid` is the no-duplicates invariant.
  - `Registered` is the middleware gate: an entry exists and is non-empty.
- `Middleware` (middleware.dfy) models the function built by
  `createMiddleware`. The Redux store is seen only at its boundary:
  - `Env.reduce` is the reducer behind `next`.
  - `World` is the store's state plus the list of actions `next` has received.
  - `Env.react` is a callback's behaviour: the actions it dispatches before
    returning, given the action and snapshot it receives.

  `Handle`, `Emit` and `DispatchAll` are mutually recursive. They return a
  `Handling` tree: the snapshot read (if any), each callback invoked, and
  the handling of each action that callback dispatched. `Forwarded` is the
  post-order list of actions a handling passes to `next`. `Conforms` states
  the middleware's rules for a handling that starts in a given world,
  without running anything. The state is read exactly when the type has
  callbacks, and it is the state of that world. The registered callbacks
  run in order on the same action and snapshot. Each nested handling
  follows the same rules, starting from the world in which everything
  already passed to `next` has been applied. So a nested dispatch reads
  the state afresh, as `getState` is called on every re-entry.
- `Ordering` (ordering.dfy) proves the "nested dispatches precede their
  trigger" promise, for any depth of nesting.
- `Completion` (completion.dfy) says when a dispatch completes.
  `WithinDepth` bounds how many handlings of registered types any chain of
  nested dispatches passes through, whatever state each reads. A dispatch
  within that bound completes with that much fuel.
- `Invocation` (invocation.dfy) covers the gate, the shared snapshot,
  exactly-once invocation, and removal.
- `PlainObject` (plain_object.dfy) models JavaScript's lookup on the plain
  object literal that holds the registry (see Findings).

`Wrappers` (wrappers.dfy) holds the `Option` type.

Two facts about the registry that a reader might not expect:

- Re-registering a listener that is already present moves it to the end of
  its list. Its earlier position is not kept.
- Removing the last listener of a type leaves an empty list under that
  type. The key is never deleted.

## Model

| member | source | states |
|---|---|---|
| Registry.Without | src/index.ts:60-62 | The filtered list no longer contains the listener. Every other listener keeps its exact multiplicity. The list is unchanged when the listener was absent. |
| Registry.WithoutConcat | src/index.ts:60-62 | Filtering distributes over concatenation, so the surviving listeners keep their relative order. |
| Registry.WithoutSplit | src/index.ts:60-62 | Removing a listener that sits between two stretches free of it yields exactly the two stretches joined. |
| Registry.WithoutNoDuplicates | src/index.ts:60-62 | Filtering a duplicate-free list yields a duplicate-free list. |
| Registry.RemoveListener | src/index.ts:58-64 | No entry is created or deleted, and every other type's list is untouched. The type's list becomes the old list with every occurrence of the listener filtered out. |
| Registry.RemoveFromEmptyIsNoOp | src/index.ts:59 | When the type has no entry or an empty list, removal leaves the whole registry unchanged. |
| Registry.RemoveIdempotent | src/index.ts:58-64 | Removing the same listener twice is the same as removing it once. |
| Registry.RemovePreservesValid | src/index.ts:58-64 | Removal preserves the invariant that no type's list holds a listener twice. |
| Registry.AddListener | src/index.ts:66-79 | The type gains an entry and every other type is untouched. In all three branches the new list is the old list (empty if missing) with the listener filtered out and then appended once. |
| Registry.AddToMissingType | src/index.ts:67-68 | For a type with no entry, registration yields exactly `[l]` for that type and changes nothing else. |
| Registry.AddFreshAppends | src/index.ts:76-77 | A listener not yet in the list is appended at the end, and the existing entries and their order are unchanged. |
| Registry.AddPresentMovesToEnd | src/index.ts:69-75 | Re-registering a listener found at some position leaves the listeners before and after it in order, with the listener moved to the end. |
| Registry.AddLeavesOneAtEnd | src/index.ts:66-79 | After any registration the listener is last in its type's list and occurs there exactly once. |
| Registry.AddIdempotent | src/index.ts:69-75 | Registering the same listener twice gives the same registry as registering it once. |
| Registry.RemoveAfterAdd | src/index.ts:58-79 | Registering and then removing a listener leaves its type's list equal to the original list without that listener. |
| Registry.AddPreservesValid | src/index.ts:66-79 | Registration preserves the no-duplicates invariant. |
| Registry.NoDuplicatesCount | src/index.ts:69-75 | A listener in a duplicate-free list occurs in it exactly once. |
| Middleware.Handle | src/index.ts:89-102 | An unregistered type always completes, whatever the fuel. A completed run is a conforming handling of the same action from the entry world. So the snapshot, when read, is the state on entry, and every nested handling reads the state current at its own entry. The store ends as if `next` had received exactly the handling's forwarded actions, in order. |
| Middleware.Emit | src/index.ts:99-100 | Callbacks are invoked in the order given. Each gets the same action and snapshot. Each callback's dispatches are handled conformingly, starting from the world left by the earlier callbacks' forwards. The store receives the callbacks' forwarded actions in invocation order. |
| Middleware.DispatchAll | src/index.ts:90-91 | Successive dispatches are handled in the order made. Each is handled conformingly, starting from the world left by the earlier dispatches' forwards. The store receives their forwarded actions one dispatch after the other. |
| Middleware.ReplayReceived | src/index.ts:101 | Passing a list of actions to `next` one after the other appends exactly that list, in order, to what the store has received. |
| Middleware.HandleFuelMonotone | src/index.ts:89-102 | A run that completes with some nesting bound gives the same result with one more unit of bound. The bound only cuts runs off; it never changes them. |
| Middleware.HandleFuelMonotoneAny | src/index.ts:89-102 | A run that completes with some nesting bound gives the same result with any larger bound. |
| Ordering.ChildBeforeParent | src/index.ts:100-101 | Everything a directly dispatched action forwards is one contiguous stretch. It lies strictly before the trigger's own forward. |
| Ordering.NestedBeforeTrigger | src/index.ts:30-32 | The same holds for a handling nested at any depth below the trigger. |
| Ordering.NestedReachesNextFirst | src/index.ts:98-101 | Through the middleware, `next` receives the handled action last. Every action nested below it at any depth is received earlier in the same run. |
| Ordering.DispatchedReachesNextFirst | src/index.ts:30-32 | Take the j-th action the i-th registered callback dispatches, given the action and the entry snapshot. It reaches `next` strictly before the action that triggered it. |
| Invocation.UnregisteredGoesStraightToNext | src/index.ts:92-97 | A type with no entry or an empty list is forwarded unchanged, whatever the fuel. No state is read, no callback is invoked, and `next` receives only that action. |
| Invocation.CallbacksShareOneSnapshot | src/index.ts:98-100 | For a type with callbacks, the state is read once, on entry. Every registered callback, in registration order, receives the original action and that same snapshot. |
| Invocation.InvokedOncePerDispatch | src/index.ts:92-100 | With a duplicate-free registry, one dispatch invokes a listener exactly once if it is registered for the action's type, and never otherwise. |
| Invocation.InvokedOncePerMatchingDispatch | test/redux-middleman.ts:46-56 | Over a sequence of dispatches, a registered listener's direct invocations equal the number of dispatches of a matching type. |
| Ordering.ConformsAlongPath | src/index.ts:89-102 | Every handling nested at any depth inside a conforming handling is one contiguous stretch of its forwards. It conforms too, starting from the world in which everything forwarded before that stretch has been applied. |
| Ordering.NestedReadsCurrentState | src/index.ts:98 | In a completed run, a handling nested at any depth that reads the state reads the store after exactly the actions `next` received in this run before that handling's own forwards. |
| Completion.HandleCompletes | src/index.ts:89-102 | A dispatch whose chains of nested registered handlings are at most `fuel` deep completes. |
| Completion.DispatchAllCompletes | src/index.ts:90-91 | Successive dispatches complete when each one's nesting depth is within the fuel. |
| Completion.EmitCompletes | src/index.ts:99-100 | An emit completes when every action its callbacks dispatch, given this action and snapshot, has its nesting depth within the fuel. |
| Completion.HandleShallowCompletes | src/index.ts:92-101 | With at least one unit of fuel, a dispatch whose callbacks dispatch only unregistered types, or nothing, completes. |
| Completion.WithinDepthMonotone | src/index.ts:89-102 | A depth bound that suffices stays sufficient for any larger bound. |
| Completion.QuietCallbacksNeedOneUnit | src/index.ts:92-101 | A dispatch of a registered type whose callbacks dispatch nothing completes exactly when there is at least one unit of fuel. |
| Invocation.InvokedOncePerCompletedDispatch | src/index.ts:92-100 | With a duplicate-free registry, a dispatch within the depth bound completes. It invokes a listener exactly once if the listener is registered for the action's type, and never otherwise. |
| Invocation.InvokedOncePerMatchingCompletedDispatch | test/redux-middleman.ts:46-56 | Successive dispatches within the depth bound all complete. A listener's direct invocations equal the number of dispatches of a type it is registered for. |
| Invocation.ThreeDispatchesThreeCalls | test/redux-middleman.ts:46-56 | A callback that dispatches nothing is registered on a fresh registry. Three dispatches of its type then complete and call it three times. |
| Invocation.RemovedListenerNotInvoked | src/index.ts:58-64 | After a listener is removed for a type, no handling of that type, at any nesting depth, invokes it. |
| PlainObject.Read | src/index.ts:44 | A type with its own entry reads that entry. A list is read only from an own entry. |
| PlainObject.GateOpensAsWritten | src/index.ts:92-95 | On an own entry, the gate as written opens exactly when the list is non-empty. It opens with no registration only on an inherited `Object.prototype` method. |
| PlainObject.AddListenerAsWritten | src/index.ts:66-79 | Registration as written throws exactly for a type with no own entry whose name an object inherits. Otherwise it stores what `Registry.AddListener` computes. |

## Left out

- Node's `EventEmitter` internals: emission order beyond "the registered list in order", the copy of the listener array taken by `emit`, `once` wrappers, when `newListener` fires, and removal of a single emitter entry. The model identifies the emitter's listener list for a type with `registeredActions` for that type.
- The internal `newListener` and `removeListener` handlers themselves are not tracked, because they are installed before tracking starts. Action types named `newListener` or `removeListener` are not modelled specially.
- Redux: `createStore`, `applyMiddleware` and the composition of other middlewares. `dispatch` is modelled as re-entering this middleware, as if it were the only middleware. `next` is modelled as applying the reducer and recording the action. Return values of `next` and `dispatch` are ignored.
- Callback effects other than dispatching are not modelled: registering or removing listeners while an emit is running, reading the store through a closure, throwing an exception. A callback's dispatches depend only on the callback data it receives.
- Dispatches a callback makes after it returns (from a promise continuation or a timer) are not modelled. `emit` does not await callbacks, so such an action reaches `next` after its trigger.
- Completion.HandleCompletes: the depth bound is required for every state a callback might receive. A chain whose depth depends on the state actually read is not bounded by it. For such a chain the model only says that a completed run is correct, not that the run completes. The completion lemmas also restrict the state type to values that hold no heap references (`S(!new)`). Redux states are plain data, so this loses nothing.
- Middleware.Handle: nested dispatches are bounded by a fuel parameter. Re-entry is synchronous recursion, so an unbounded chain of nested dispatches overflows the JavaScript call stack and a `RangeError` escapes from the outermost `store.dispatch`. `None` stands both for that case and for a finite chain deeper than the bound. `Completion.HandleCompletes` shows the converse for a bound that holds whatever states the nested handlings read.
- Registering one callback for an array of types, registering an array of callbacks, `once` with arrays, `off(type)` without a listener, and `removeAll`. These appear in test/redux-middleman.ts but the class in src/index.ts does not define them.
- An asynchronous scheduler, postponed top-level actions and a suspension counter. No such code exists in src/index.ts.
- The constructor (src/index.ts:42-47) only starts from an empty registry. That is `map[]`, which is trivially `Registry.Valid`.

## Findings

| source | as written | input that shows it | evidently intended | confidence | as-written member | corrected member |
|---|---|---|---|---|---|---|
| src/index.ts:67-69 | `registeredActions` is a plain object literal. For a type with no own entry whose name `Object.prototype` provides, the lookup yields an inherited member. That member is truthy, so the handler calls `.includes` on it, which is not a function. `on` throws a TypeError and nothing is registered. | `on("constructor", l)` on a fresh instance | store `[l]` for the new type, as for any other name | high, not executed | PlainObject.AddListenerAsWritten, exhibited by PlainObject.ConstructorRegistrationThrows | Registry.AddListener, with Registry.AddToMissingType |
| src/index.ts:92-98 | The gate reads the inherited `Object` constructor for type `"constructor"`. Its `length` is 1, so the gate passes with no callback registered. The state is read and the action is emitted to no listener. | dispatching an action of type `"constructor"` with nothing registered | forward straight to `next` without reading the state | high, not executed | PlainObject.GateOpensAsWritten, exhibited by PlainObject.ConstructorOpensGate | Middleware.Handle, with Invocation.UnregisteredGoesStraightToNext |
