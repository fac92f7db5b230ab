/**
 * Which callbacks one dispatch invokes (src/index.ts:92-100, with the
 * registry of src/index.ts:58-79): exactly the listeners registered for the
 * action's type, each once, and never one that was removed for that type.
 */
module Invocation {
  import opened Wrappers
  import opened Registry
  import opened Middleware
  import opened Ordering
  import opened Completion

  /**
   * The gate (src/index.ts:92-97): an action whose type has no entry or an
   * empty list is forwarded unchanged, whatever the fuel, without reading
   * the state or invoking any callback.
   */
  lemma UnregisteredGoesStraightToNext<L, P, S>(env: Env<L, P, S>, store: Store<L>, fuel: nat, w: World<P, S>, a: Action<P>)
    requires Listeners(store, a.actionType) == []
    ensures Handle(env, store, fuel, w, a).Some?
    ensures var (h, w') := Handle(env, store, fuel, w, a).value;
      h.snapshot == None && h.calls == [] && w'.received == w.received + [a] && w'.state == env.reduce(w.state, a)
  {
    var (h, w') := Handle(env, store, fuel, w, a).value;
    ReplayReceived(env, w, Forwarded(h));
    assert Callees(h.calls) == [];
    assert Forwarded(h) == [a];
  }

  /**
   * When the type has callbacks (src/index.ts:98-100), the state is read
   * once, on entry, and every callback, in registration order, receives the
   * original action and that same snapshot.
   */
  lemma CallbacksShareOneSnapshot<L, P, S>(env: Env<L, P, S>, store: Store<L>, fuel: nat, w: World<P, S>, a: Action<P>,
                                          h: Handling<L, P, S>, w': World<P, S>)
    requires Handle(env, store, fuel, w, a) == Some((h, w'))
    requires Registered(store, a.actionType)
    ensures h.snapshot == Some(w.state)
    ensures |h.calls| == |store[a.actionType]|
    ensures forall i :: 0 <= i < |h.calls| ==>
      h.calls[i].listener == store[a.actionType][i] && h.calls[i].action == a && h.calls[i].currentState == w.state
  {
    forall i | 0 <= i < |h.calls|
      ensures h.calls[i].listener == store[a.actionType][i] && h.calls[i].action == a && h.calls[i].currentState == w.state
    {
      assert CallConforms(env, store, a, w.state, Replay(env, w, ForwardedCalls(h.calls[..i])), h.calls[i]);
    }
  }

  /**
   * With the registry free of duplicates, one dispatch invokes a listener
   * exactly once if it is registered for the action's type and not at all
   * otherwise.
   */
  lemma InvokedOncePerDispatch<L, P, S>(env: Env<L, P, S>, store: Store<L>, fuel: nat, w: World<P, S>, a: Action<P>,
                                       h: Handling<L, P, S>, w': World<P, S>, l: L)
    requires Valid(store)
    requires Handle(env, store, fuel, w, a) == Some((h, w'))
    ensures Count(Callees(h.calls), l) == if l in Listeners(store, a.actionType) then 1 else 0
  {
    var cbs := Listeners(store, a.actionType);
    if l in cbs {
      NoDuplicatesCount(cbs, l);
    }
  }

  /**
   * After `l` is removed for type `evt`, no handling of an `evt` action,
   * at any depth of nesting, invokes `l`.
   */
  lemma RemovedListenerNotInvoked<L, P, S>(env: Env<L, P, S>, store: Store<L>, evt: string, l: L,
                                          fuel: nat, w: World<P, S>, a: Action<P>, h: Handling<L, P, S>, w': World<P, S>,
                                          p: seq<(nat, nat)>, u: Handling<L, P, S>)
    requires Handle(env, RemoveListener(store, evt, l), fuel, w, a) == Some((h, w'))
    requires Descend(h, p) == Some(u) && u.action.actionType == evt
    ensures l !in Callees(u.calls)
  {
    var removed := RemoveListener(store, evt, l);
    ConformsAlongPath(env, removed, w, h, p, u);
    var k: nat :| OccursAt(Forwarded(u), Forwarded(h), k) && Conforms(env, removed, Replay(env, w, Forwarded(h)[..k]), u);
  }

  /** How often the handlings' own callbacks (not those of nested dispatches) invoke `l`. */
  function DirectInvocations<L(==), P, S>(hs: seq<Handling<L, P, S>>, l: L): nat
  {
    if hs == [] then 0 else Count(Callees(hs[0].calls), l) + DirectInvocations(hs[1..], l)
  }

  /** How many of the actions `ds` have a type for which `l` is registered. */
  function MatchingDispatches<L(==), P>(store: Store<L>, ds: seq<Action<P>>, l: L): nat
  {
    if ds == [] then 0
    else (if l in Listeners(store, ds[0].actionType) then 1 else 0) + MatchingDispatches(store, ds[1..], l)
  }

  /**
   * Dispatching a sequence of actions one after the other invokes a
   * registered listener once per matching dispatch: three dispatches of
   * a registered type make three invocations.
   */
  lemma {:induction false} InvokedOncePerMatchingDispatch<L, P, S>(env: Env<L, P, S>, store: Store<L>, fuel: nat,
                                                                  ds: seq<Action<P>>, w: World<P, S>,
                                                                  hs: seq<Handling<L, P, S>>, w': World<P, S>, l: L)
    requires Valid(store)
    requires DispatchAll(env, store, fuel, ds, w) == Some((hs, w'))
    ensures DirectInvocations(hs, l) == MatchingDispatches(store, ds, l)
    decreases |ds|
  {
    if ds != [] {
      var (h, w1) := Handle(env, store, fuel, w, ds[0]).value;
      var (rest, w2) := DispatchAll(env, store, fuel, ds[1..], w1).value;
      assert hs == [h] + rest;
      assert hs[0] == h && hs[1..] == rest;
      InvokedOncePerDispatch(env, store, fuel, w, ds[0], h, w1, l);
      InvokedOncePerMatchingDispatch(env, store, fuel, ds[1..], w1, rest, w2, l);
    }
  }

  /**
   * A dispatch whose nesting depth stays within the fuel completes, and
   * invokes a listener exactly once if it is registered for the action's
   * type and not at all otherwise.
   */
  lemma InvokedOncePerCompletedDispatch<L, P, S(!new)>(env: Env<L, P, S>, store: Store<L>, fuel: nat, w: World<P, S>,
                                                      a: Action<P>, l: L)
    requires Valid(store) && WithinDepth(env, store, fuel, a)
    ensures Handle(env, store, fuel, w, a).Some?
    ensures Count(Callees(Handle(env, store, fuel, w, a).value.0.calls), l)
            == if l in Listeners(store, a.actionType) then 1 else 0
  {
    HandleCompletes(env, store, fuel, w, a);
    var (h, w') := Handle(env, store, fuel, w, a).value;
    InvokedOncePerDispatch(env, store, fuel, w, a, h, w', l);
  }

  /**
   * Successive dispatches whose nesting depths stay within the fuel all
   * complete, and a listener's direct invocations equal the number of
   * dispatches of a type it is registered for.
   */
  lemma InvokedOncePerMatchingCompletedDispatch<L, P, S(!new)>(env: Env<L, P, S>, store: Store<L>, fuel: nat,
                                                              ds: seq<Action<P>>, w: World<P, S>, l: L)
    requires Valid(store)
    requires forall b :: b in ds ==> WithinDepth(env, store, fuel, b)
    ensures DispatchAll(env, store, fuel, ds, w).Some?
    ensures DirectInvocations(DispatchAll(env, store, fuel, ds, w).value.0, l) == MatchingDispatches(store, ds, l)
  {
    DispatchAllCompletes(env, store, fuel, ds, w);
    var (hs, w') := DispatchAll(env, store, fuel, ds, w).value;
    InvokedOncePerMatchingDispatch(env, store, fuel, ds, w, hs, w', l);
  }

  /**
   * A callback that dispatches nothing, registered for `t` on a fresh
   * registry, is called three times by three dispatches of a `t` action.
   */
  lemma ThreeDispatchesThreeCalls<L, P, S(!new)>(env: Env<L, P, S>, t: string, l: L, payload: P, fuel: nat, w: World<P, S>)
    requires fuel >= 1
    requires forall b, s :: env.react(l, b, s) == []
    ensures var store := AddListener(map[], t, l);
            var a := Action(t, payload);
            && DispatchAll(env, store, fuel, [a, a, a], w).Some?
            && DirectInvocations(DispatchAll(env, store, fuel, [a, a, a], w).value.0, l) == 3
  {
    var store := AddListener(map[], t, l);
    var a := Action(t, payload);
    var ds := [a, a, a];
    SingleQuietListener(env, t, l, fuel, a);
    assert forall b :: b in ds ==> b == a;
    InvokedOncePerMatchingCompletedDispatch(env, store, fuel, ds, w, l);
    ThreeMatching(store, a, l);
  }

  /** A fresh registry holding one quiet callback for `t` is valid, and a `t` action nests one level deep. */
  lemma SingleQuietListener<L, P, S(!new)>(env: Env<L, P, S>, t: string, l: L, fuel: nat, a: Action<P>)
    requires fuel >= 1 && a.actionType == t
    requires forall b, s :: env.react(l, b, s) == []
    ensures Valid(AddListener(map[], t, l)) && WithinDepth(env, AddListener(map[], t, l), fuel, a)
  {
    var store := AddListener(map[], t, l);
    AddToMissingType(map[], t, l);
    assert store == map[t := [l]];
    assert NoDuplicates([l]);
    assert Listeners(store, t) == [l];
    assert WithinDepth(env, store, fuel, a);
  }

  /** Three dispatches of a type `l` is registered for are three matching dispatches. */
  lemma ThreeMatching<L, P>(store: Store<L>, a: Action<P>, l: L)
    requires l in Listeners(store, a.actionType)
    ensures MatchingDispatches(store, [a, a, a], l) == 3
  {
    assert [a][1..] == [];
    assert MatchingDispatches(store, [a], l) == 1;
    assert [a, a][1..] == [a];
    assert MatchingDispatches(store, [a, a], l) == 2;
    assert [a, a, a][1..] == [a, a];
  }
}
