/**
 * When a dispatch completes (src/index.ts:89-102). Re-entry is synchronous
 * recursion, so a dispatch finishes exactly when every chain of nested
 * dispatches of registered types is finite. The model's `fuel` bounds that
 * chain; here a bound on the nesting depth that holds for every snapshot a
 * callback might receive guarantees that the run completes with that much fuel.
 */
module Completion {
  import opened Wrappers
  import opened Registry
  import opened Middleware

  /**
   * Every chain of nested dispatches starting with `a` passes through at
   * most `n` handlings of a registered type, whatever state each of them reads.
   */
  ghost predicate WithinDepth<L, P, S(!new)>(env: Env<L, P, S>, store: Store<L>, n: nat, a: Action<P>)
    decreases n
  {
    || !Registered(store, a.actionType)
    || (n >= 1 && forall l, s, b :: l in Listeners(store, a.actionType) && b in env.react(l, a, s) ==>
                                    WithinDepth(env, store, n - 1, b))
  }

  /** A dispatch whose nesting depth stays within the fuel completes. */
  lemma {:induction false} HandleCompletes<L, P, S(!new)>(env: Env<L, P, S>, store: Store<L>, fuel: nat, w: World<P, S>, a: Action<P>)
    requires WithinDepth(env, store, fuel, a)
    ensures Handle(env, store, fuel, w, a).Some?
    decreases fuel, 0, 0
  {
    if Registered(store, a.actionType) {
      var cbs := store[a.actionType];
      assert cbs == Listeners(store, a.actionType);
      EmitCompletes(env, store, fuel - 1, a, w.state, cbs, w);
    }
  }

  /** Successive dispatches complete when each one's nesting depth stays within the fuel. */
  lemma {:induction false} DispatchAllCompletes<L, P, S(!new)>(env: Env<L, P, S>, store: Store<L>, fuel: nat,
                                                            ds: seq<Action<P>>, w: World<P, S>)
    requires forall b :: b in ds ==> WithinDepth(env, store, fuel, b)
    ensures DispatchAll(env, store, fuel, ds, w).Some?
    decreases fuel, 1, |ds|
  {
    if ds != [] {
      assert ds[0] in ds;
      HandleCompletes(env, store, fuel, w, ds[0]);
      var (_, w1) := Handle(env, store, fuel, w, ds[0]).value;
      assert forall b :: b in ds[1..] ==> b in ds;
      DispatchAllCompletes(env, store, fuel, ds[1..], w1);
    }
  }

  /**
   * An emit completes when every action its callbacks dispatch, given this
   * action and snapshot, has its nesting depth within the fuel.
   */
  lemma {:induction false} EmitCompletes<L, P, S(!new)>(env: Env<L, P, S>, store: Store<L>, fuel: nat, a: Action<P>,
                                                     snapshot: S, cbs: seq<L>, w: World<P, S>)
    requires forall l, b :: l in cbs && b in env.react(l, a, snapshot) ==> WithinDepth(env, store, fuel, b)
    ensures Emit(env, store, fuel, a, snapshot, cbs, w).Some?
    decreases fuel, 2, |cbs|
  {
    if cbs != [] {
      assert cbs[0] in cbs;
      DispatchAllCompletes(env, store, fuel, env.react(cbs[0], a, snapshot), w);
      var (_, w1) := DispatchAll(env, store, fuel, env.react(cbs[0], a, snapshot), w).value;
      assert forall l :: l in cbs[1..] ==> l in cbs;
      EmitCompletes(env, store, fuel, a, snapshot, cbs[1..], w1);
    }
  }

  /**
   * A dispatch whose callbacks dispatch only actions of unregistered types
   * (or nothing at all) completes with one unit of fuel.
   */
  lemma HandleShallowCompletes<L, P, S(!new)>(env: Env<L, P, S>, store: Store<L>, fuel: nat, w: World<P, S>, a: Action<P>)
    requires fuel >= 1
    requires forall l, s, b :: l in Listeners(store, a.actionType) && b in env.react(l, a, s) ==>
                               !Registered(store, b.actionType)
    ensures Handle(env, store, fuel, w, a).Some?
  {
    assert WithinDepth(env, store, fuel, a) by {
      forall l, s, b | l in Listeners(store, a.actionType) && b in env.react(l, a, s)
        ensures WithinDepth(env, store, fuel - 1, b)
      {
      }
    }
    HandleCompletes(env, store, fuel, w, a);
  }

  /** More fuel than a depth bound needs is still enough. */
  lemma {:induction false} WithinDepthMonotone<L, P, S(!new)>(env: Env<L, P, S>, store: Store<L>, n: nat, m: nat, a: Action<P>)
    requires n <= m && WithinDepth(env, store, n, a)
    ensures WithinDepth(env, store, m, a)
    decreases n
  {
    if Registered(store, a.actionType) {
      forall l, s, b | l in Listeners(store, a.actionType) && b in env.react(l, a, s)
        ensures WithinDepth(env, store, m - 1, b)
      {
        WithinDepthMonotone(env, store, n - 1, m - 1, b);
      }
    }
  }

  /**
   * The converse for a single level: a dispatch of a registered type whose
   * callbacks dispatch nothing completes exactly when there is fuel for one
   * handling.
   */
  lemma QuietCallbacksNeedOneUnit<L, P, S(!new)>(env: Env<L, P, S>, store: Store<L>, fuel: nat, w: World<P, S>, a: Action<P>)
    requires Registered(store, a.actionType)
    requires forall l, s :: l in Listeners(store, a.actionType) ==> env.react(l, a, s) == []
    ensures Handle(env, store, fuel, w, a).Some? <==> fuel >= 1
  {
    if fuel >= 1 {
      HandleShallowCompletes(env, store, fuel, w, a);
    }
  }
}
