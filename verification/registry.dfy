/**
 * The listener registry of `ReduxMiddleman` (src/index.ts:40, 55-81):
 * a map from action type to the ordered list of callbacks registered for it.
 * Two internal event-emitter handlers keep it in step with the emitter:
 * `RemoveListener` models the `removeListener` handler and `AddListener`
 * the `newListener` handler. Listener identity (JavaScript `===` on
 * function references) is modelled by equality on the type parameter `L`.
 */
module Registry {

  /** `registeredActions`: action type to callback list. */
  type Store<L> = map<string, seq<L>>

  /** The callbacks registered for `evt`; a missing entry reads as none. */
  function Listeners<L>(store: Store<L>, evt: string): seq<L>
  {
    if evt in store then store[evt] else []
  }

  /** The middleware gate: the type has an entry and that entry is non-empty. */
  predicate Registered<L>(store: Store<L>, evt: string)
  {
    evt in store && |store[evt]| > 0
  }

  /** No listener occurs twice in `s`. */
  predicate NoDuplicates<L(==)>(s: seq<L>)
  {
    forall i, j :: 0 <= i < j < |s| ==> s[i] != s[j]
  }

  /** The registry invariant: no type's list holds the same listener twice. */
  predicate Valid<L(==)>(store: Store<L>)
  {
    forall evt :: evt in store ==> NoDuplicates(store[evt])
  }

  /** How many times `l` occurs in `s`. */
  function Count<L(==)>(s: seq<L>, l: L): nat
  {
    multiset(s)[l]
  }

  /**
   * `s.filter((x) => x !== l)`: every occurrence of `l` is dropped and the
   * other elements keep their order.
   */
  function Without<L(==)>(s: seq<L>, l: L): (r: seq<L>)
    ensures l !in r
    ensures multiset(r) == multiset(s)[l := 0]
    ensures l !in s ==> r == s
  {
    if s == [] then []
    else if s[0] == l then
      assert s == [l] + s[1..];
      Without(s[1..], l)
    else
      assert s == [s[0]] + s[1..];
      [s[0]] + Without(s[1..], l)
  }

  /** Filtering distributes over concatenation, so the survivors keep their relative order. */
  lemma {:induction false} WithoutConcat<L>(a: seq<L>, b: seq<L>, l: L)
    ensures Without(a + b, l) == Without(a, l) + Without(b, l)
    decreases |a|
  {
    if a == [] {
      assert a + b == b;
    } else {
      assert (a + b)[0] == a[0];
      assert (a + b)[1..] == a[1..] + b;
      WithoutConcat(a[1..], b, l);
    }
  }

  /** Filtering a one-element list of `l` leaves nothing. */
  lemma WithoutSingle<L>(l: L)
    ensures Without([l], l) == []
  {
    assert [l][1..] == [];
  }

  /** Taking out a listener that sits between two stretches free of it closes the gap. */
  lemma WithoutSplit<L>(a: seq<L>, b: seq<L>, l: L)
    requires l !in a && l !in b
    ensures Without(a + [l] + b, l) == a + b
  {
    assert a + [l] + b == a + ([l] + b);
    WithoutConcat(a, [l] + b, l);
    WithoutConcat([l], b, l);
    WithoutSingle(l);
    assert Without([l] + b, l) == b;
  }

  lemma NoDuplicatesCons<L>(x: L, s: seq<L>)
    ensures NoDuplicates([x] + s) <==> x !in s && NoDuplicates(s)
  {
    var t := [x] + s;
    if x !in s && NoDuplicates(s) {
      forall i, j | 0 <= i < j < |t|
        ensures t[i] != t[j]
      {
        assert t[j] == s[j - 1];
        if i > 0 {
          assert t[i] == s[i - 1];
        }
      }
    }
    if NoDuplicates(t) {
      forall k | 0 <= k < |s|
        ensures s[k] != x
      {
        assert t[0] == x && t[k + 1] == s[k];
      }
      forall i, j | 0 <= i < j < |s|
        ensures s[i] != s[j]
      {
        assert t[i + 1] == s[i] && t[j + 1] == s[j];
      }
    }
  }

  lemma NoDuplicatesSnoc<L>(s: seq<L>, x: L)
    requires NoDuplicates(s) && x !in s
    ensures NoDuplicates(s + [x])
  {
    var t := s + [x];
    forall i, j | 0 <= i < j < |t|
      ensures t[i] != t[j]
    {
      assert t[i] == s[i];
      if j < |s| {
        assert t[j] == s[j];
      }
    }
  }

  /** Filtering cannot create a duplicate. */
  lemma {:induction false} WithoutNoDuplicates<L>(s: seq<L>, l: L)
    requires NoDuplicates(s)
    ensures NoDuplicates(Without(s, l))
    decreases |s|
  {
    if s != [] {
      assert s == [s[0]] + s[1..];
      NoDuplicatesCons(s[0], s[1..]);
      WithoutNoDuplicates(s[1..], l);
      if s[0] != l {
        var rest := Without(s[1..], l);
        assert multiset(rest)[s[0]] == 0;
        assert s[0] !in rest;
        NoDuplicatesCons(s[0], rest);
      }
    }
  }

  /** A list free of duplicates holds each of its members exactly once. */
  lemma NoDuplicatesCount<L>(s: seq<L>, l: L)
    requires NoDuplicates(s) && l in s
    ensures Count(s, l) == 1
  {
    var i :| 0 <= i < |s| && s[i] == l;
    assert s == s[..i] + [l] + s[i + 1..];
    assert l !in s[..i] by {
      forall k | 0 <= k < i ensures s[..i][k] != l {
        assert s[..i][k] == s[k];
      }
    }
    assert l !in s[i + 1..] by {
      forall k | i + 1 <= k < |s| ensures s[k] != l {
        assert s[i] == l;
      }
    }
    assert multiset(s) == multiset(s[..i]) + multiset{l} + multiset(s[i + 1..]);
  }

  /**
   * The `removeListener` handler (src/index.ts:58-64): when `evt` has a
   * non-empty list, every occurrence of `l` is filtered out of it. The entry
   * itself is never deleted, and no entry is created.
   */
  function RemoveListener<L(==)>(store: Store<L>, evt: string, l: L): (r: Store<L>)
    ensures r.Keys == store.Keys
    ensures forall k :: k in store && k != evt ==> r[k] == store[k]
    ensures Listeners(r, evt) == Without(Listeners(store, evt), l)
  {
    if evt in store && |store[evt]| > 0 then
      store[evt := Without(store[evt], l)]
    else
      store
  }

  /**
   * The `newListener` handler (src/index.ts:66-79). A type without an entry
   * gets `[l]`; a listener already present is removed through the emitter
   * (which runs the `removeListener` handler, dropping every occurrence)
   * and pushed again; any other listener is pushed.
   */
  function AddListener<L(==)>(store: Store<L>, evt: string, l: L): (r: Store<L>)
    ensures r.Keys == store.Keys + {evt}
    ensures forall k :: k in store && k != evt ==> r[k] == store[k]
    ensures Listeners(r, evt) == Without(Listeners(store, evt), l) + [l]
  {
    if evt !in store then
      store[evt := [l]]
    else if l in store[evt] then
      var removed := RemoveListener(store, evt, l);
      removed[evt := removed[evt] + [l]]
    else
      store[evt := store[evt] + [l]]
  }

  /** Registering for a type with no entry yields exactly `[l]` there (src/index.ts:67-68). */
  lemma AddToMissingType<L>(store: Store<L>, evt: string, l: L)
    requires evt !in store
    ensures AddListener(store, evt, l) == store[evt := [l]]
  {
  }

  /** A new, distinct listener goes to the end; the earlier entries keep their order (src/index.ts:76-77). */
  lemma AddFreshAppends<L>(store: Store<L>, evt: string, l: L)
    requires l !in Listeners(store, evt)
    ensures Listeners(AddListener(store, evt, l), evt) == Listeners(store, evt) + [l]
  {
  }

  /**
   * Re-registering leaves exactly one occurrence of `l`, at the end, and
   * every other listener keeps its count and its order (src/index.ts:69-75).
   */
  lemma AddPresentMovesToEnd<L>(store: Store<L>, evt: string, l: L, before: seq<L>, after: seq<L>)
    requires Listeners(store, evt) == before + [l] + after
    requires l !in before && l !in after
    ensures Listeners(AddListener(store, evt, l), evt) == before + after + [l]
  {
    WithoutSplit(before, after, l);
  }

  /** After any registration, `l` is the last listener of `evt` and occurs there exactly once. */
  lemma AddLeavesOneAtEnd<L>(store: Store<L>, evt: string, l: L)
    ensures var s := Listeners(AddListener(store, evt, l), evt);
      |s| > 0 && s[|s| - 1] == l && Count(s, l) == 1
  {
    var w := Without(Listeners(store, evt), l);
    assert multiset(w + [l]) == multiset(w) + multiset{l};
  }

  /** Registering the same listener twice is the same as registering it once. */
  lemma AddIdempotent<L>(store: Store<L>, evt: string, l: L)
    ensures AddListener(AddListener(store, evt, l), evt, l) == AddListener(store, evt, l)
  {
    var once := AddListener(store, evt, l);
    var twice := AddListener(once, evt, l);
    var w := Without(Listeners(store, evt), l);
    assert Listeners(once, evt) == w + [l];
    WithoutConcat(w, [l], l);
    WithoutSingle(l);
    assert Without(w, l) == w;
    assert Listeners(twice, evt) == Listeners(once, evt);
    assert twice.Keys == once.Keys;
    assert forall k :: k in twice ==> twice[k] == once[k];
  }

  /** Removal is a no-op when the type has no entry or an empty list (src/index.ts:59). */
  lemma RemoveFromEmptyIsNoOp<L>(store: Store<L>, evt: string, l: L)
    requires Listeners(store, evt) == []
    ensures RemoveListener(store, evt, l) == store
  {
  }

  /** Removing twice is the same as removing once. */
  lemma RemoveIdempotent<L>(store: Store<L>, evt: string, l: L)
    ensures RemoveListener(RemoveListener(store, evt, l), evt, l) == RemoveListener(store, evt, l)
  {
  }

  /** Removal undoes a registration: afterwards the list is the original one without `l`. */
  lemma RemoveAfterAdd<L>(store: Store<L>, evt: string, l: L)
    ensures Listeners(RemoveListener(AddListener(store, evt, l), evt, l), evt)
         == Without(Listeners(store, evt), l)
  {
    var w := Without(Listeners(store, evt), l);
    WithoutConcat(w, [l], l);
    WithoutSingle(l);
  }

  /** Registration preserves the no-duplicates invariant (src/index.ts:66-79). */
  lemma AddPreservesValid<L>(store: Store<L>, evt: string, l: L)
    requires Valid(store)
    ensures Valid(AddListener(store, evt, l))
  {
    var r := AddListener(store, evt, l);
    var prior := Listeners(store, evt);
    WithoutNoDuplicates(prior, l);
    NoDuplicatesSnoc(Without(prior, l), l);
    assert r[evt] == Listeners(r, evt);
  }

  /** Removal preserves the no-duplicates invariant (src/index.ts:58-64). */
  lemma RemovePreservesValid<L>(store: Store<L>, evt: string, l: L)
    requires Valid(store)
    ensures Valid(RemoveListener(store, evt, l))
  {
    if evt in store {
      WithoutNoDuplicates(store[evt], l);
    }
  }
}
