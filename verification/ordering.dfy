/**
 * The ordering promise of the middleware (src/index.ts:30-32, 98-101):
 * any action a callback dispatches before it returns reaches `next`
 * before the action whose callbacks dispatched it, and so does everything
 * nested below it.
 */
module Ordering {
  import opened Wrappers
  import opened Registry
  import opened Middleware

  /** `x` appears in `y` as a contiguous stretch starting at index `k`. */
  ghost predicate OccursAt<T>(x: seq<T>, y: seq<T>, k: nat)
  {
    k + |x| <= |y| && y[k..k + |x|] == x
  }

  lemma OccursTrans<T>(x: seq<T>, y: seq<T>, z: seq<T>, k1: nat, k2: nat)
    requires OccursAt(x, y, k1) && OccursAt(y, z, k2)
    ensures OccursAt(x, z, k2 + k1)
  {
    forall i | 0 <= i < |x|
      ensures z[k2 + k1 + i] == x[i]
    {
      assert y[k1 + i] == y[k1..k1 + |x|][i];
      assert z[k2 + (k1 + i)] == z[k2..k2 + |y|][k1 + i];
    }
  }

  lemma OccursPrefix<T>(x: seq<T>, y: seq<T>)
    ensures OccursAt(x, x + y, 0)
  {
    assert (x + y)[..|x|] == x;
  }

  lemma OccursSuffix<T>(x: seq<T>, y: seq<T>)
    ensures OccursAt(y, x + y, |x|)
  {
    assert (x + y)[|x|..|x| + |y|] == y;
  }

  /** What the `j`-th handling forwards is a stretch of what the whole sequence forwards. */
  lemma {:induction false} HandlingInSequence<L, P, S>(hs: seq<Handling<L, P, S>>, j: nat)
    requires j < |hs|
    ensures exists k: nat :: OccursAt(Forwarded(hs[j]), ForwardedAll(hs), k)
    decreases j
  {
    if j == 0 {
      OccursPrefix(Forwarded(hs[0]), ForwardedAll(hs[1..]));
      assert OccursAt(Forwarded(hs[j]), ForwardedAll(hs), 0);
    } else {
      HandlingInSequence(hs[1..], j - 1);
      var k: nat :| OccursAt(Forwarded(hs[1..][j - 1]), ForwardedAll(hs[1..]), k);
      OccursSuffix(Forwarded(hs[0]), ForwardedAll(hs[1..]));
      OccursTrans(Forwarded(hs[j]), ForwardedAll(hs[1..]), ForwardedAll(hs), k, |Forwarded(hs[0])|);
    }
  }

  /** What the `i`-th callback's dispatches forward is a stretch of what all the callbacks forward. */
  lemma {:induction false} CallInSequence<L, P, S>(cs: seq<Call<L, P, S>>, i: nat)
    requires i < |cs|
    ensures exists k: nat :: OccursAt(ForwardedAll(cs[i].dispatched), ForwardedCalls(cs), k)
    decreases i
  {
    if i == 0 {
      OccursPrefix(ForwardedAll(cs[0].dispatched), ForwardedCalls(cs[1..]));
      assert OccursAt(ForwardedAll(cs[i].dispatched), ForwardedCalls(cs), 0);
    } else {
      CallInSequence(cs[1..], i - 1);
      var k: nat :| OccursAt(ForwardedAll(cs[1..][i - 1].dispatched), ForwardedCalls(cs[1..]), k);
      OccursSuffix(ForwardedAll(cs[0].dispatched), ForwardedCalls(cs[1..]));
      OccursTrans(ForwardedAll(cs[i].dispatched), ForwardedCalls(cs[1..]), ForwardedCalls(cs), k, |ForwardedAll(cs[0].dispatched)|);
    }
  }

  /** A directly dispatched action's forwards all come strictly before its trigger's own forward. */
  lemma ChildBeforeParent<L, P, S>(h: Handling<L, P, S>, i: nat, j: nat)
    requires i < |h.calls| && j < |h.calls[i].dispatched|
    ensures exists k: nat :: OccursAt(Forwarded(h.calls[i].dispatched[j]), Forwarded(h), k)
                     && k + |Forwarded(h.calls[i].dispatched[j])| < |Forwarded(h)|
  {
    var child := h.calls[i].dispatched[j];
    HandlingInSequence(h.calls[i].dispatched, j);
    var k1: nat :| OccursAt(Forwarded(child), ForwardedAll(h.calls[i].dispatched), k1);
    CallInSequence(h.calls, i);
    var k2: nat :| OccursAt(ForwardedAll(h.calls[i].dispatched), ForwardedCalls(h.calls), k2);
    OccursTrans(Forwarded(child), ForwardedAll(h.calls[i].dispatched), ForwardedCalls(h.calls), k1, k2);
    OccursPrefix(ForwardedCalls(h.calls), [h.action]);
    OccursTrans(Forwarded(child), ForwardedCalls(h.calls), Forwarded(h), k2 + k1, 0);
  }

  /**
   * Every handling nested anywhere below `h` forwards all its actions in
   * one stretch that ends strictly before `h`'s own action is forwarded.
   */
  lemma {:induction false} NestedBeforeTrigger<L, P, S>(h: Handling<L, P, S>, p: seq<(nat, nat)>, u: Handling<L, P, S>)
    requires p != [] && Descend(h, p) == Some(u)
    ensures exists k: nat :: OccursAt(Forwarded(u), Forwarded(h), k) && k + |Forwarded(u)| < |Forwarded(h)|
    decreases |p|
  {
    var (i, j) := p[0];
    var child := h.calls[i].dispatched[j];
    ChildBeforeParent(h, i, j);
    var k2: nat :| OccursAt(Forwarded(child), Forwarded(h), k2) && k2 + |Forwarded(child)| < |Forwarded(h)|;
    if p[1..] == [] {
      assert u == child;
    } else {
      NestedBeforeTrigger(child, p[1..], u);
      var k1: nat :| OccursAt(Forwarded(u), Forwarded(child), k1) && k1 + |Forwarded(u)| < |Forwarded(child)|;
      OccursTrans(Forwarded(u), Forwarded(child), Forwarded(h), k1, k2);
    }
  }

  /**
   * Through the middleware: `next` receives the handled action last, and
   * every action nested below it (dispatched by a callback, or by a
   * callback of such an action, and so on) before it.
   */
  lemma NestedReachesNextFirst<L, P, S>(
    env: Env<L, P, S>, store: Store<L>, fuel: nat, w: World<P, S>, a: Action<P>,
    h: Handling<L, P, S>, w': World<P, S>, p: seq<(nat, nat)>, u: Handling<L, P, S>)
    requires Handle(env, store, fuel, w, a) == Some((h, w'))
    requires p != [] && Descend(h, p) == Some(u)
    ensures |w'.received| > |w.received| && w'.received[|w'.received| - 1] == a
    ensures exists k: nat :: |w.received| <= k < |w'.received| - 1 && w'.received[k] == u.action
  {
    var fh, fu := Forwarded(h), Forwarded(u);
    assert w' == Replay(env, w, fh);
    ReplayReceived(env, w, fh);
    NestedBeforeTrigger(h, p, u);
    var k: nat :| OccursAt(fu, fh, k) && k + |fu| < |fh|;
    StretchLast(fu, fh, k);
    assert w'.received == w.received + fh;
    assert w'.received[|w.received| + k + |fu| - 1] == fh[k + |fu| - 1];
  }

  /** The last element of a stretch sits at the stretch's end. */
  lemma StretchLast<T>(x: seq<T>, y: seq<T>, k: nat)
    requires |x| > 0 && OccursAt(x, y, k)
    ensures y[k + |x| - 1] == x[|x| - 1]
  {
    assert y[k..k + |x|][|x| - 1] == y[k + |x| - 1];
  }

  /**
   * The promise in the words of the source: when `a`'s type has callbacks,
   * the `j`-th action dispatched by the `i`-th callback (given `a` and the
   * state read on entry) reaches `next` before `a` does.
   */
  lemma DispatchedReachesNextFirst<L, P, S>(
    env: Env<L, P, S>, store: Store<L>, fuel: nat, w: World<P, S>, a: Action<P>,
    h: Handling<L, P, S>, w': World<P, S>, i: nat, j: nat)
    requires Handle(env, store, fuel, w, a) == Some((h, w'))
    requires i < |Listeners(store, a.actionType)|
    requires j < |env.react(Listeners(store, a.actionType)[i], a, w.state)|
    ensures w'.received[|w'.received| - 1] == a
    ensures exists k: nat :: |w.received| <= k < |w'.received| - 1
                     && w'.received[k] == env.react(Listeners(store, a.actionType)[i], a, w.state)[j]
  {
    assert CallConforms(env, store, a, w.state, Replay(env, w, ForwardedCalls(h.calls[..i])), h.calls[i]);
    var u := h.calls[i].dispatched[j];
    assert Descend(u, []) == Some(u);
    assert Descend(h, [(i, j)]) == Some(u);
    NestedReachesNextFirst(env, store, fuel, w, a, h, w', [(i, j)], u);
  }

  lemma {:induction false} ForwardedAllConcat<L, P, S>(x: seq<Handling<L, P, S>>, y: seq<Handling<L, P, S>>)
    ensures ForwardedAll(x + y) == ForwardedAll(x) + ForwardedAll(y)
    decreases |x|
  {
    if x == [] {
      assert x + y == y;
    } else {
      assert (x + y)[0] == x[0] && (x + y)[1..] == x[1..] + y;
      ForwardedAllConcat(x[1..], y);
    }
  }

  lemma {:induction false} ForwardedCallsConcat<L, P, S>(x: seq<Call<L, P, S>>, y: seq<Call<L, P, S>>)
    ensures ForwardedCalls(x + y) == ForwardedCalls(x) + ForwardedCalls(y)
    decreases |x|
  {
    if x == [] {
      assert x + y == y;
    } else {
      assert (x + y)[0] == x[0] && (x + y)[1..] == x[1..] + y;
      ForwardedCallsConcat(x[1..], y);
    }
  }

  /** What a sequence of handlings forwards, cut around its `j`-th handling. */
  lemma ForwardedAllAt<L, P, S>(d: seq<Handling<L, P, S>>, j: nat)
    requires j < |d|
    ensures ForwardedAll(d) == ForwardedAll(d[..j]) + Forwarded(d[j]) + ForwardedAll(d[j + 1..])
  {
    assert d == d[..j] + d[j..];
    ForwardedAllConcat(d[..j], d[j..]);
    assert d[j..][0] == d[j] && d[j..][1..] == d[j + 1..];
  }

  /** What a sequence of callbacks forwards, cut around its `i`-th callback. */
  lemma ForwardedCallsAt<L, P, S>(cs: seq<Call<L, P, S>>, i: nat)
    requires i < |cs|
    ensures ForwardedCalls(cs) == ForwardedCalls(cs[..i]) + ForwardedAll(cs[i].dispatched) + ForwardedCalls(cs[i + 1..])
  {
    assert cs == cs[..i] + cs[i..];
    ForwardedCallsConcat(cs[..i], cs[i..]);
    assert cs[i..][0] == cs[i] && cs[i..][1..] == cs[i + 1..];
  }

  /**
   * What a handling forwards, cut around the `j`-th action dispatched by
   * its `i`-th callback: first what the earlier callbacks and the earlier
   * dispatches forwarded, then that dispatch's own forwards, then the rest.
   */
  lemma ChildStretch<L, P, S>(h: Handling<L, P, S>, i: nat, j: nat)
    requires i < |h.calls| && j < |h.calls[i].dispatched|
    ensures Forwarded(h)
      == (ForwardedCalls(h.calls[..i]) + ForwardedAll(h.calls[i].dispatched[..j]))
         + Forwarded(h.calls[i].dispatched[j])
         + (ForwardedAll(h.calls[i].dispatched[j + 1..]) + ForwardedCalls(h.calls[i + 1..]) + [h.action])
  {
    var cs, d := h.calls, h.calls[i].dispatched;
    var a, b, c := ForwardedCalls(cs[..i]), ForwardedAll(d[..j]), Forwarded(d[j]);
    var e, f := ForwardedAll(d[j + 1..]), ForwardedCalls(cs[i + 1..]);
    ForwardedCallsAt(cs, i);
    ForwardedAllAt(d, j);
    Regroup(a, b, c, e, f, [h.action]);
  }

  lemma Regroup<T>(a: seq<T>, b: seq<T>, c: seq<T>, e: seq<T>, f: seq<T>, g: seq<T>)
    ensures a + (b + c + e) + f + g == (a + b) + c + (e + f + g)
  {
  }

  /** A stretch of `y` stays a stretch once `y` is surrounded, and what precedes it grows by `pre`. */
  lemma Surround<T>(x: seq<T>, pre: seq<T>, y: seq<T>, post: seq<T>, k: nat)
    requires OccursAt(x, y, k)
    ensures OccursAt(x, pre + y + post, |pre| + k)
    ensures (pre + y + post)[..|pre| + k] == pre + y[..k]
  {
    var z := pre + y + post;
    assert z[|pre|..|pre| + |y|] == y;
    OccursTrans(x, y, z, k, |pre|);
    assert z[..|pre| + k] == pre + y[..k];
  }

  /**
   * The `j`-th action dispatched by the `i`-th callback of a conforming
   * handling was handled conformingly, starting from the world in which
   * the forwards of the earlier callbacks and earlier dispatches have
   * reached `next`.
   */
  lemma ChildConforms<L, P, S>(env: Env<L, P, S>, store: Store<L>, w: World<P, S>, h: Handling<L, P, S>, i: nat, j: nat)
    requires Conforms(env, store, w, h)
    requires i < |h.calls| && j < |h.calls[i].dispatched|
    ensures Conforms(env, store,
                     Replay(env, w, ForwardedCalls(h.calls[..i]) + ForwardedAll(h.calls[i].dispatched[..j])),
                     h.calls[i].dispatched[j])
  {
    var c := h.calls[i];
    assert Callees(h.calls)[i] == c.listener;
    assert h.snapshot.Some?;
    var wc := Replay(env, w, ForwardedCalls(h.calls[..i]));
    assert CallConforms(env, store, h.action, h.snapshot.value, wc, c);
    ReplayConcat(env, w, ForwardedCalls(h.calls[..i]), ForwardedAll(c.dispatched[..j]));
  }

  /**
   * Every handling nested in a conforming one conforms too, starting from
   * the world in which everything forwarded before its own stretch has
   * reached `next`: a nested dispatch reads the store as it is at that moment.
   */
  lemma {:induction false} ConformsAlongPath<L, P, S>(env: Env<L, P, S>, store: Store<L>, w: World<P, S>,
                                                     h: Handling<L, P, S>, p: seq<(nat, nat)>, u: Handling<L, P, S>)
    requires Conforms(env, store, w, h) && Descend(h, p) == Some(u)
    ensures exists k: nat :: OccursAt(Forwarded(u), Forwarded(h), k)
                          && Conforms(env, store, Replay(env, w, Forwarded(h)[..k]), u)
    decreases |p|
  {
    if p == [] {
      assert Forwarded(h)[..0] == [];
      assert OccursAt(Forwarded(h), Forwarded(h), 0);
    } else {
      var (i, j) := p[0];
      var child := h.calls[i].dispatched[j];
      var pre := ForwardedCalls(h.calls[..i]) + ForwardedAll(h.calls[i].dispatched[..j]);
      var post := ForwardedAll(h.calls[i].dispatched[j + 1..]) + ForwardedCalls(h.calls[i + 1..]) + [h.action];
      ChildConforms(env, store, w, h, i, j);
      var wch := Replay(env, w, pre);
      ConformsAlongPath(env, store, wch, child, p[1..], u);
      var k1: nat :| OccursAt(Forwarded(u), Forwarded(child), k1)
                  && Conforms(env, store, Replay(env, wch, Forwarded(child)[..k1]), u);
      ChildStretch(h, i, j);
      Surround(Forwarded(u), pre, Forwarded(child), post, k1);
      ReplayConcat(env, w, pre, Forwarded(child)[..k1]);
      assert OccursAt(Forwarded(u), Forwarded(h), |pre| + k1);
    }
  }

  /**
   * Every re-entry calls `getState` afresh (src/index.ts:98): a handling
   * nested at any depth that reads the state reads the store as it is once
   * everything `next` received before that handling's own forwards has
   * been applied.
   */
  lemma NestedReadsCurrentState<L, P, S>(
    env: Env<L, P, S>, store: Store<L>, fuel: nat, w: World<P, S>, a: Action<P>,
    h: Handling<L, P, S>, w': World<P, S>, p: seq<(nat, nat)>, u: Handling<L, P, S>)
    requires Handle(env, store, fuel, w, a) == Some((h, w'))
    requires Descend(h, p) == Some(u) && u.snapshot.Some?
    ensures exists k: nat :: |w.received| <= k && OccursAt(Forwarded(u), w'.received, k)
                          && u.snapshot.value == Replay(env, w, w'.received[|w.received|..k]).state
  {
    var fh := Forwarded(h);
    ReplayReceived(env, w, fh);
    ConformsAlongPath(env, store, w, h, p, u);
    var k0: nat :| OccursAt(Forwarded(u), fh, k0) && Conforms(env, store, Replay(env, w, fh[..k0]), u);
    Surround(Forwarded(u), w.received, fh, [], k0);
    assert w.received + fh + [] == w'.received;
    var k := |w.received| + k0;
    assert w'.received[|w.received|..k] == fh[..k0];
  }
}
