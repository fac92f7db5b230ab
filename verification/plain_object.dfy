/**
 * `registeredActions` is a plain JavaScript object literal (src/index.ts:44),
 * so reading `registeredActions[evt]` for a type with no entry of its own
 * falls through to the members every object inherits from
 * `Object.prototype`. This module models that lookup as written, to show
 * where it departs from the dictionary the rest of the model (and the
 * author's comments at src/index.ts:18-25) assumes.
 */
module PlainObject {
  import opened Registry

  /** What reading `registeredActions[evt]` yields. */
  datatype Slot<L> =
    | Missing                          // `undefined`
    | OwnList(items: seq<L>)           // an array stored by the handlers
    | InheritedFunction(arity: nat)    // a method of `Object.prototype`; `arity` is its `length`
    | InheritedObject                  // `__proto__`: `Object.prototype` itself, which has no `length`

  /** The members a plain object inherits, with the `length` of each method. */
  function Inherited<L>(name: string): Slot<L>
  {
    if name == "constructor" then InheritedFunction(1)
    else if name in {"hasOwnProperty", "isPrototypeOf", "propertyIsEnumerable", "__lookupGetter__", "__lookupSetter__"} then InheritedFunction(1)
    else if name in {"__defineGetter__", "__defineSetter__"} then InheritedFunction(2)
    else if name in {"toString", "toLocaleString", "valueOf"} then InheritedFunction(0)
    else if name == "__proto__" then InheritedObject
    else Missing
  }

  /** `registeredActions[evt]` as JavaScript evaluates it. */
  function Read<L>(store: Store<L>, evt: string): (r: Slot<L>)
    ensures evt in store ==> r == OwnList(store[evt])
    ensures r.OwnList? ==> evt in store
  {
    if evt in store then OwnList(store[evt]) else Inherited(evt)
  }

  /**
   * The gate as written (src/index.ts:92-95): the middleware goes on to
   * read the state and emit unless the slot is falsy or its `length` is.
   * Every array, even an empty one, and every function is truthy.
   */
  function GateOpensAsWritten<L>(store: Store<L>, evt: string): (r: bool)
    ensures evt in store ==> (r <==> Registered(store, evt))
    ensures r && !Registered(store, evt) ==> evt !in store && Inherited<L>(evt).InheritedFunction?
  {
    match Read(store, evt)
    case Missing => false
    case OwnList(items) => |items| > 0
    case InheritedFunction(arity) => arity > 0
    case InheritedObject => false
  }

  /** The outcome of `on(evt, l)` once the `newListener` handler has run. */
  datatype Outcome<L> = Stored(store: Store<L>) | ThrowsTypeError

  /**
   * The `newListener` handler as written (src/index.ts:66-79): a truthy
   * slot that is not an array has no `includes` method, so the call at
   * src/index.ts:69 throws and the registration fails.
   */
  function AddListenerAsWritten<L(==)>(store: Store<L>, evt: string, l: L): (r: Outcome<L>)
    ensures r.ThrowsTypeError? <==> evt !in store && !Inherited<L>(evt).Missing?
    ensures r.Stored? ==> r.store == AddListener(store, evt, l)
  {
    match Read(store, evt)
    case Missing => Stored(store[evt := [l]])
    case OwnList(items) => Stored(AddListener(store, evt, l))
    case InheritedFunction(_) => ThrowsTypeError
    case InheritedObject => ThrowsTypeError
  }

  /** Registering the first callback for actions of type "constructor" throws instead of storing `[l]`. */
  lemma ConstructorRegistrationThrows<L>(store: Store<L>, l: L)
    requires "constructor" !in store
    ensures AddListenerAsWritten(store, "constructor", l) == ThrowsTypeError
    ensures Listeners(AddListener(store, "constructor", l), "constructor") == [l]
  {
  }

  /**
   * An action of type "constructor" opens the gate with no callback
   * registered, so the state is read and an emit reaches no listener.
   */
  lemma ConstructorOpensGate<L>(store: Store<L>)
    requires "constructor" !in store
    ensures GateOpensAsWritten(store, "constructor") && !Registered(store, "constructor")
  {
  }
}
