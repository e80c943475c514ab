/** Where better-set.js as written departs from what its documentation
    promises: every, any, none and areAllIn loop over the BetterSet itself,
    which is not iterable; areAllIn's callback drops the result of `has`; and
    the static pushTo calls a method that does not exist. Each is modelled as
    written next to the input that exposes it. BetterSets models the corrected
    behaviour (BetterSet.Every, Any, None, AreAllIn and StaticPushTo). */
module Defects {

  /** The errors a JavaScript engine raises in these paths. */
  datatype TypeError = NotIterable | NotAFunction(name: string)

  /** How a call ends: with a value, or by throwing. */
  datatype Completion<R> = Normal(value: R) | Threw(error: TypeError)

  /** What a callback returns, as far as `every` and `any` look at it. */
  datatype JsValue = Undefined | Bool(b: bool)

  /** JavaScript truthiness of a callback's result. */
  predicate Truthy(v: JsValue) {
    v == Bool(true)
  }

  /** A boolean predicate as a JavaScript callback. */
  function Lift<T>(pred: T -> bool): T -> JsValue {
    x => Bool(pred(x))
  }

  /** The target of a `for (let value of target)` loop: the values its
      [Symbol.iterator] method yields, or no such method at all. */
  datatype ForOfTarget<T> = Iterable(values: seq<T>) | NoIterator

  /** A BetterSet as the target of `for ... of`: the class keeps its values in
      `_set` and declares no [Symbol.iterator] of its own. The stored values
      `elems` are deliberately unused: the loop fails on the missing iterator
      before it could reach them. */
  function BetterSetTarget<T>(elems: seq<T>): (target: ForOfTarget<T>)
    ensures target.NoIterator?
  {
    NoIterator
  }

  /** The body of every's loop: false at the first value whose result is falsy. */
  function AllTruthy<T>(vs: seq<T>, callback: T -> JsValue): (b: bool)
    ensures b <==> forall i :: 0 <= i < |vs| ==> Truthy(callback(vs[i]))
  {
    if vs == [] then true
    else if !Truthy(callback(vs[0])) then false
    else AllTruthy(vs[1..], callback)
  }

  /** The body of any's loop: true at the first value whose result is truthy. */
  function SomeTruthy<T>(vs: seq<T>, callback: T -> JsValue): (b: bool)
    ensures b <==> exists i :: 0 <= i < |vs| && Truthy(callback(vs[i]))
  {
    if vs == [] then false
    else if Truthy(callback(vs[0])) then true
    else SomeTruthy(vs[1..], callback)
  }

  /** `every`: runs for-of over the target and tests each value. */
  function EveryLoop<T>(target: ForOfTarget<T>, callback: T -> JsValue): (r: Completion<bool>)
    ensures target.NoIterator? <==> r == Threw(NotIterable)
    ensures target.Iterable? <==> r.Normal?
    ensures target.Iterable? ==>
              (r == Normal(true) <==> forall i :: 0 <= i < |target.values| ==> Truthy(callback(target.values[i])))
  {
    match target
    case NoIterator => Threw(NotIterable)
    case Iterable(vs) => Normal(AllTruthy(vs, callback))
  }

  /** `any`: runs for-of over the target and tests each value. */
  function AnyLoop<T>(target: ForOfTarget<T>, callback: T -> JsValue): (r: Completion<bool>)
    ensures target.NoIterator? <==> r == Threw(NotIterable)
    ensures target.Iterable? <==> r.Normal?
    ensures target.Iterable? ==>
              (r == Normal(true) <==> exists i :: 0 <= i < |target.values| && Truthy(callback(target.values[i])))
  {
    match target
    case NoIterator => Threw(NotIterable)
    case Iterable(vs) => Normal(SomeTruthy(vs, callback))
  }

  /** As written, every and any (and none and areAllIn, which call every) throw
      on every BetterSet, the empty one included, before the predicate runs. */
  lemma EveryAndAnyThrowAsWritten<T>(elems: seq<T>, pred: T -> bool)
    ensures EveryLoop(BetterSetTarget(elems), Lift(pred)) == Threw(NotIterable)
    ensures AnyLoop(BetterSetTarget(elems), Lift(pred)) == Threw(NotIterable)
  {
  }

  /** Looping over the stored values instead gives the documented answers. */
  lemma EveryAndAnyOverStoredValues<T>(elems: seq<T>, pred: T -> bool)
    ensures EveryLoop(Iterable(elems), Lift(pred)) == Normal(forall x :: x in elems ==> pred(x))
    ensures AnyLoop(Iterable(elems), Lift(pred)) == Normal(exists x :: x in elems && pred(x))
  {
  }

  /** The callback areAllIn hands to every: it evaluates `set.has(value)` and
      returns nothing, so every sees undefined. */
  function DroppedHas<T(==,!new)>(other: seq<T>): (callback: T -> JsValue)
    ensures forall x :: !Truthy(callback(x))
  {
    x => Undefined
  }

  /** The callback that returns the membership test. */
  function ReturnedHas<T(==,!new)>(other: seq<T>): (callback: T -> JsValue)
    ensures forall x :: Truthy(callback(x)) <==> x in other
  {
    x => Bool(x in other)
  }

  /** Even over a repaired every, areAllIn as written holds for the empty set only. */
  lemma AreAllInDropsResult<T(!new)>(elems: seq<T>, other: seq<T>)
    ensures EveryLoop(Iterable(elems), DroppedHas(other)) == Normal(elems == [])
  {
  }

  /** The input that shows it: {1} lies within {1}, yet areAllIn answers false
      where the callback that returns `has` answers true. */
  lemma AreAllInCounterexample()
    ensures EveryLoop(Iterable([1]), DroppedHas([1])) == Normal(false)
    ensures EveryLoop(Iterable([1]), ReturnedHas([1])) == Normal(true)
  {
  }

  /** With the result returned, areAllIn is the subset test its documentation describes. */
  lemma AreAllInReturningHas<T(!new)>(elems: seq<T>, other: seq<T>)
    ensures EveryLoop(Iterable(elems), ReturnedHas(other)) == Normal(forall x :: x in elems ==> x in other)
  {
  }

  /** The methods the class declares, which every BetterSet has. */
  const BetterSetMethods: set<string> :=
    {"constructor", "add", "addAll", "clear", "delete", "entries", "forEach", "getSize", "has",
     "values", "keys", "difference", "intersection", "union", "pushTo", "map",
     "filter", "reject", "deleteAll", "keepAll", "every", "none", "any",
     "areAllIn", "fromArray", "toArray"}

  /** The methods every object inherits from Object.prototype; the class
      extends nothing, so its prototype chain ends there. */
  const ObjectPrototypeMethods: set<string> :=
    {"toString", "toLocaleString", "valueOf", "hasOwnProperty",
     "isPrototypeOf", "propertyIsEnumerable"}

  /** The class declares `pushTo`; `pushInto` is found neither on
      BetterSet.prototype nor on Object.prototype. */
  lemma PushIntoUndeclared()
    ensures "pushTo" in BetterSetMethods
    ensures "pushInto" !in BetterSetMethods && "pushInto" !in ObjectPrototypeMethods
  {
  }

  /** `set[name](array)` on a set holding `elems`, for the two names involved in
      static pushTo: `pushTo` appends the values and returns the array;
      `pushInto` is found neither on BetterSet.prototype nor on
      Object.prototype, so it looks up undefined and calling it throws. */
  function CallWithArray<T>(name: string, arr: seq<T>, elems: seq<T>): (r: Completion<seq<T>>)
    requires name == "pushTo" || name == "pushInto"
    ensures r.Threw? <==> name !in BetterSetMethods + ObjectPrototypeMethods
    ensures r.Normal? ==> |r.value| == |arr| + |elems| && r.value[..|arr|] == arr && r.value[|arr|..] == elems
  {
    if name in BetterSetMethods then Normal(arr + elems) else Threw(NotAFunction(name))
  }

  /** Static pushTo as written: it calls `set.pushInto(array)`, a name no object
      in the prototype chain provides, so the call throws and the array is untouched. */
  function StaticPushToAsWritten<T>(arr: seq<T>, elems: seq<T>): (r: Completion<seq<T>>)
    ensures r == Threw(NotAFunction("pushInto"))
  {
    CallWithArray("pushInto", arr, elems)
  }

  /** The input that shows it: pushing the set {1} into an empty array throws,
      where calling the instance pushTo gives [1]. */
  lemma StaticPushToCounterexample()
    ensures StaticPushToAsWritten([], [1]) == Threw(NotAFunction("pushInto"))
    ensures CallWithArray("pushTo", [], [1]) == Normal([1])
  {
  }
}
