/**
 * The middleware built by `createMiddleware` (src/index.ts:87-104).
 *
 * For an action whose type has no callbacks the middleware hands the action
 * straight to `next`. Otherwise it reads the state once, emits the action
 * type with `{action, currentState, dispatch}` to every registered callback
 * in order, and only then hands the action to `next`. A callback may call
 * `dispatch`, which re-enters the middleware, so every action a callback
 * dispatches before it returns reaches `next` before the action that
 * triggered it (src/index.ts:30-32). `emit` does not wait for a callback,
 * so dispatches made after it returns are outside this model.
 *
 * The Redux store is seen only through its boundary: `Env.reduce` is the
 * reducer behind `next`, and `World` is the store's state together with the
 * list of actions `next` has received. A callback's behaviour is
 * `Env.react`: the actions it dispatches before returning, in order, given
 * the callback data it receives.
 */
module Middleware {
  import opened Wrappers
  import opened Registry

  /** A Redux action: its `type` discriminator and an opaque payload. */
  datatype Action<P> = Action(actionType: string, payload: P)

  /** The store behind `next`: its current state and every action `next` has received so far. */
  datatype World<P, S> = World(state: S, received: seq<Action<P>>)

  /**
   * The collaborators the middleware cannot see: the reducer applied by
   * `next`, and for each callback the actions it dispatches before
   * returning when handed an action and a state snapshot.
   */
  datatype Env<!L, !P, !S> = Env(reduce: (S, Action<P>) -> S, react: (L, Action<P>, S) -> seq<Action<P>>)

  /**
   * One callback invocation: the listener, the callback data it received
   * (`action` and `currentState`), and the handling of each action it
   * dispatched, in the order it dispatched them.
   */
  datatype Call<L, P, S> = Call(listener: L, action: Action<P>, currentState: S, dispatched: seq<Handling<L, P, S>>)

  /**
   * One pass of an action through the middleware: the state snapshot it
   * read (`None` when `getState` was not called) and the callbacks it invoked.
   */
  datatype Handling<L, P, S> = Handling(action: Action<P>, snapshot: Option<S>, calls: seq<Call<L, P, S>>)

  /** `next(a)`: the store applies the reducer and records the action. */
  function Next<L, P, S>(env: Env<L, P, S>, w: World<P, S>, a: Action<P>): World<P, S>
  {
    World(env.reduce(w.state, a), w.received + [a])
  }

  /** The store after `next` has received `acts`, one after the other. */
  function Replay<L, P, S>(env: Env<L, P, S>, w: World<P, S>, acts: seq<Action<P>>): World<P, S>
    decreases |acts|
  {
    if acts == [] then w else Replay(env, Next(env, w, acts[0]), acts[1..])
  }

  lemma {:induction false} ReplayConcat<L, P, S>(env: Env<L, P, S>, w: World<P, S>, x: seq<Action<P>>, y: seq<Action<P>>)
    ensures Replay(env, w, x + y) == Replay(env, Replay(env, w, x), y)
    decreases |x|
  {
    if x == [] {
      assert x + y == y;
    } else {
      assert (x + y)[0] == x[0];
      assert (x + y)[1..] == x[1..] + y;
      ReplayConcat(env, Next(env, w, x[0]), x[1..], y);
    }
  }

  /** Replaying appends exactly the replayed actions to the store's record, in order. */
  lemma {:induction false} ReplayReceived<L, P, S>(env: Env<L, P, S>, w: World<P, S>, acts: seq<Action<P>>)
    ensures Replay(env, w, acts).received == w.received + acts
    decreases |acts|
  {
    if acts != [] {
      ReplayReceived(env, Next(env, w, acts[0]), acts[1..]);
      assert w.received + [acts[0]] + acts[1..] == w.received + acts;
    }
  }

  /** The listeners of a sequence of calls, in invocation order. */
  function Callees<L, P, S>(cs: seq<Call<L, P, S>>): (r: seq<L>)
    ensures |r| == |cs| && forall i :: 0 <= i < |cs| ==> r[i] == cs[i].listener
  {
    if cs == [] then [] else [cs[0].listener] + Callees(cs[1..])
  }

  /** The actions of a sequence of handlings, in order. */
  function Actions<L, P, S>(hs: seq<Handling<L, P, S>>): (r: seq<Action<P>>)
    ensures |r| == |hs| && forall j :: 0 <= j < |hs| ==> r[j] == hs[j].action
  {
    if hs == [] then [] else [hs[0].action] + Actions(hs[1..])
  }

  /**
   * The actions a handling passes to `next`, in order: whatever the
   * callbacks' dispatches forwarded, then the action itself.
   */
  function Forwarded<L, P, S>(h: Handling<L, P, S>): seq<Action<P>>
    decreases h, 2
  {
    ForwardedCalls(h.calls) + [h.action]
  }

  function ForwardedCalls<L, P, S>(cs: seq<Call<L, P, S>>): seq<Action<P>>
    decreases cs, 1
  {
    if cs == [] then [] else ForwardedAll(cs[0].dispatched) + ForwardedCalls(cs[1..])
  }

  function ForwardedAll<L, P, S>(hs: seq<Handling<L, P, S>>): seq<Action<P>>
    decreases hs, 0
  {
    if hs == [] then [] else Forwarded(hs[0]) + ForwardedAll(hs[1..])
  }

  /**
   * A handling that follows the rules of the middleware, stated without
   * running it, for a handling that starts with the store in world `w`:
   * the state is read exactly when the type has callbacks, and then it is
   * the state of `w`; the registered callbacks are invoked in registration
   * order, each receives the handled action and that one snapshot; and each
   * dispatched action was handled by the same rules, starting from the
   * store as it is once everything forwarded before it has reached `next`.
   */
  ghost predicate Conforms<L, P, S>(env: Env<L, P, S>, store: Store<L>, w: World<P, S>, h: Handling<L, P, S>)
    decreases h, 1
  {
    && (h.snapshot.Some? <==> Registered(store, h.action.actionType))
    && (h.snapshot.Some? ==> h.snapshot.value == w.state)
    && Callees(h.calls) == Listeners(store, h.action.actionType)
    && (h.snapshot.Some? ==>
          forall i :: 0 <= i < |h.calls| ==>
            CallConforms(env, store, h.action, h.snapshot.value, Replay(env, w, ForwardedCalls(h.calls[..i])), h.calls[i]))
  }

  /** One callback invocation that follows the rules, starting with the store in world `w`. */
  ghost predicate CallConforms<L, P, S>(env: Env<L, P, S>, store: Store<L>, a: Action<P>, snapshot: S, w: World<P, S>, c: Call<L, P, S>)
    decreases c, 0
  {
    && c.action == a
    && c.currentState == snapshot
    && Actions(c.dispatched) == env.react(c.listener, a, snapshot)
    && forall j :: 0 <= j < |c.dispatched| ==>
         Conforms(env, store, Replay(env, w, ForwardedAll(c.dispatched[..j])), c.dispatched[j])
  }

  /** The world before the `i`-th of `[c] + rest` is the world before the `(i-1)`-th of `rest`, once `c` has run. */
  lemma CallsPrefixWorld<L, P, S>(env: Env<L, P, S>, w: World<P, S>, c: Call<L, P, S>, rest: seq<Call<L, P, S>>, i: nat)
    requires 1 <= i <= |rest|
    ensures Replay(env, w, ForwardedCalls(([c] + rest)[..i]))
         == Replay(env, Replay(env, w, ForwardedAll(c.dispatched)), ForwardedCalls(rest[..i - 1]))
  {
    var t := [c] + rest[..i - 1];
    assert ([c] + rest)[..i] == t;
    assert t[0] == c && t[1..] == rest[..i - 1];
    ReplayConcat(env, w, ForwardedAll(c.dispatched), ForwardedCalls(rest[..i - 1]));
  }

  /** The world before the `j`-th of `[h] + rest` is the world before the `(j-1)`-th of `rest`, once `h` has run. */
  lemma HandlingsPrefixWorld<L, P, S>(env: Env<L, P, S>, w: World<P, S>, h: Handling<L, P, S>, rest: seq<Handling<L, P, S>>, j: nat)
    requires 1 <= j <= |rest|
    ensures Replay(env, w, ForwardedAll(([h] + rest)[..j]))
         == Replay(env, Replay(env, w, Forwarded(h)), ForwardedAll(rest[..j - 1]))
  {
    var t := [h] + rest[..j - 1];
    assert ([h] + rest)[..j] == t;
    assert t[0] == h && t[1..] == rest[..j - 1];
    ReplayConcat(env, w, Forwarded(h), ForwardedAll(rest[..j - 1]));
  }

  /**
   * The middleware applied to `a` with the store in world `w`
   * (src/index.ts:91-102). `fuel` bounds how deeply dispatches from
   * callbacks may nest; `None` means the chain of nested dispatches went
   * deeper than that bound.
   */
  function Handle<L(==), P, S>(env: Env<L, P, S>, store: Store<L>, fuel: nat, w: World<P, S>, a: Action<P>)
    : (r: Option<(Handling<L, P, S>, World<P, S>)>)
    ensures !Registered(store, a.actionType) ==> r.Some?
    ensures r.Some? ==> r.value.0.action == a && Conforms(env, store, w, r.value.0)
    ensures r.Some? ==> r.value.1 == Replay(env, w, Forwarded(r.value.0))
    decreases fuel, 0, 0
  {
    if !Registered(store, a.actionType) then
      Some((Handling(a, None, []), Next(env, w, a)))
    else if fuel == 0 then
      None
    else
      match Emit(env, store, fuel - 1, a, w.state, store[a.actionType], w)
      case None => None
      case Some((calls, w')) =>
        ReplayConcat(env, w, ForwardedCalls(calls), [a]);
        Some((Handling(a, Some(w.state), calls), Next(env, w', a)))
  }

  /**
   * `this.emit(action.type, callbackData)`: the callbacks `cbs` run in
   * order, each with the same action and snapshot, and each one's
   * dispatches are handled, with the store as the earlier callbacks'
   * dispatches left it, before the next callback runs.
   */
  function Emit<L(==), P, S>(env: Env<L, P, S>, store: Store<L>, fuel: nat, a: Action<P>, snapshot: S, cbs: seq<L>, w: World<P, S>)
    : (r: Option<(seq<Call<L, P, S>>, World<P, S>)>)
    ensures r.Some? ==> Callees(r.value.0) == cbs
    ensures r.Some? ==> forall i :: 0 <= i < |r.value.0| ==>
      CallConforms(env, store, a, snapshot, Replay(env, w, ForwardedCalls(r.value.0[..i])), r.value.0[i])
    ensures r.Some? ==> r.value.1 == Replay(env, w, ForwardedCalls(r.value.0))
    decreases fuel, 2, |cbs|
  {
    if cbs == [] then
      Some(([], w))
    else
      match DispatchAll(env, store, fuel, env.react(cbs[0], a, snapshot), w)
      case None => None
      case Some((hs, w1)) =>
        match Emit(env, store, fuel, a, snapshot, cbs[1..], w1)
        case None => None
        case Some((rest, w2)) =>
          var c := Call(cbs[0], a, snapshot, hs);
          var calls := [c] + rest;
          assert calls[0] == c && calls[1..] == rest;
          ReplayConcat(env, w, ForwardedAll(hs), ForwardedCalls(rest));
          assert forall i :: 0 <= i < |calls| ==>
            CallConforms(env, store, a, snapshot, Replay(env, w, ForwardedCalls(calls[..i])), calls[i]) by {
            forall i | 0 <= i < |calls|
              ensures CallConforms(env, store, a, snapshot, Replay(env, w, ForwardedCalls(calls[..i])), calls[i])
            {
              if i == 0 {
                assert calls[..0] == [];
                assert ForwardedAll(hs[..0]) == [] by { assert hs[..0] == []; }
                assert CallConforms(env, store, a, snapshot, w, c);
              } else {
                CallsPrefixWorld(env, w, c, rest, i);
                assert calls[i] == rest[i - 1];
              }
            }
          }
          Some((calls, w2))
  }

  /**
   * The actions `ds` dispatched one after the other, each through the
   * whole middleware, each starting with the store as the earlier ones left it.
   */
  function DispatchAll<L(==), P, S>(env: Env<L, P, S>, store: Store<L>, fuel: nat, ds: seq<Action<P>>, w: World<P, S>)
    : (r: Option<(seq<Handling<L, P, S>>, World<P, S>)>)
    ensures r.Some? ==> Actions(r.value.0) == ds
    ensures r.Some? ==> forall j :: 0 <= j < |r.value.0| ==>
      Conforms(env, store, Replay(env, w, ForwardedAll(r.value.0[..j])), r.value.0[j])
    ensures r.Some? ==> r.value.1 == Replay(env, w, ForwardedAll(r.value.0))
    decreases fuel, 1, |ds|
  {
    if ds == [] then
      Some(([], w))
    else
      match Handle(env, store, fuel, w, ds[0])
      case None => None
      case Some((h, w1)) =>
        match DispatchAll(env, store, fuel, ds[1..], w1)
        case None => None
        case Some((rest, w2)) =>
          var hs := [h] + rest;
          assert hs[0] == h && hs[1..] == rest;
          ReplayConcat(env, w, Forwarded(h), ForwardedAll(rest));
          assert forall j :: 0 <= j < |hs| ==>
            Conforms(env, store, Replay(env, w, ForwardedAll(hs[..j])), hs[j]) by {
            forall j | 0 <= j < |hs|
              ensures Conforms(env, store, Replay(env, w, ForwardedAll(hs[..j])), hs[j])
            {
              if j == 0 {
                assert hs[..0] == [];
              } else {
                HandlingsPrefixWorld(env, w, h, rest, j);
                assert hs[j] == rest[j - 1];
              }
            }
          }
          Some((hs, w2))
  }

  /**
   * The handling reached from `h` by following `p`: each step `(i, j)`
   * goes to the `j`-th action dispatched by the `i`-th callback.
   */
  function Descend<L, P, S>(h: Handling<L, P, S>, p: seq<(nat, nat)>): Option<Handling<L, P, S>>
    decreases |p|
  {
    if p == [] then Some(h)
    else
      var (i, j) := p[0];
      if i < |h.calls| && j < |h.calls[i].dispatched| then Descend(h.calls[i].dispatched[j], p[1..]) else None
  }

  /** More fuel never changes a run that already completed: the bound only cuts off runs, it does not alter them. */
  lemma {:induction false} HandleFuelMonotone<L, P, S>(env: Env<L, P, S>, store: Store<L>, fuel: nat, w: World<P, S>, a: Action<P>)
    requires Handle(env, store, fuel, w, a).Some?
    ensures Handle(env, store, fuel + 1, w, a) == Handle(env, store, fuel, w, a)
    decreases fuel, 0, 0
  {
    if Registered(store, a.actionType) {
      var cbs := store[a.actionType];
      HandleRegisteredSucceeded(env, store, fuel, w, a);
      EmitFuelMonotone(env, store, fuel - 1, a, w.state, cbs, w);
      HandleRegistered(env, store, fuel, w, a);
      HandleRegistered(env, store, fuel + 1, w, a);
    }
  }

  /** Any larger bound leaves a completed run unchanged. */
  lemma {:induction false} HandleFuelMonotoneAny<L, P, S>(env: Env<L, P, S>, store: Store<L>, fuel: nat, fuel': nat,
                                                         w: World<P, S>, a: Action<P>)
    requires fuel <= fuel' && Handle(env, store, fuel, w, a).Some?
    ensures Handle(env, store, fuel', w, a) == Handle(env, store, fuel, w, a)
    decreases fuel' - fuel
  {
    if fuel < fuel' {
      HandleFuelMonotone(env, store, fuel, w, a);
      HandleFuelMonotoneAny(env, store, fuel + 1, fuel', w, a);
    }
  }

  /** A completed run of a registered type had fuel left and a completed emit. */
  lemma HandleRegisteredSucceeded<L, P, S>(env: Env<L, P, S>, store: Store<L>, fuel: nat, w: World<P, S>, a: Action<P>)
    requires Registered(store, a.actionType) && Handle(env, store, fuel, w, a).Some?
    ensures fuel > 0 && Emit(env, store, fuel - 1, a, w.state, store[a.actionType], w).Some?
  {
  }

  /** A registered type's run is its emit's run followed by `next(a)`. */
  lemma HandleRegistered<L, P, S>(env: Env<L, P, S>, store: Store<L>, fuel: nat, w: World<P, S>, a: Action<P>)
    requires Registered(store, a.actionType) && fuel > 0
    requires Emit(env, store, fuel - 1, a, w.state, store[a.actionType], w).Some?
    ensures var (calls, w') := Emit(env, store, fuel - 1, a, w.state, store[a.actionType], w).value;
      Handle(env, store, fuel, w, a) == Some((Handling(a, Some(w.state), calls), Next(env, w', a)))
  {
  }

  lemma {:induction false} EmitFuelMonotone<L, P, S>(env: Env<L, P, S>, store: Store<L>, fuel: nat, a: Action<P>, snapshot: S, cbs: seq<L>, w: World<P, S>)
    requires Emit(env, store, fuel, a, snapshot, cbs, w).Some?
    ensures Emit(env, store, fuel + 1, a, snapshot, cbs, w) == Emit(env, store, fuel, a, snapshot, cbs, w)
    decreases fuel, 2, |cbs|
  {
    if cbs != [] {
      var ds := env.react(cbs[0], a, snapshot);
      DispatchAllFuelMonotone(env, store, fuel, ds, w);
      var w1 := DispatchAll(env, store, fuel, ds, w).value.1;
      EmitFuelMonotone(env, store, fuel, a, snapshot, cbs[1..], w1);
    }
  }

  lemma {:induction false} DispatchAllFuelMonotone<L, P, S>(env: Env<L, P, S>, store: Store<L>, fuel: nat, ds: seq<Action<P>>, w: World<P, S>)
    requires DispatchAll(env, store, fuel, ds, w).Some?
    ensures DispatchAll(env, store, fuel + 1, ds, w) == DispatchAll(env, store, fuel, ds, w)
    decreases fuel, 1, |ds|
  {
    if ds != [] {
      HandleFuelMonotone(env, store, fuel, w, ds[0]);
      var w1 := Handle(env, store, fuel, w, ds[0]).value.1;
      DispatchAllFuelMonotone(env, store, fuel, ds[1..], w1);
    }
  }
}
