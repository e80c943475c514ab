# BetterSet in Dafny

A model of `BetterSet` from better-set (src/better-set.js). `BetterSet` is a JavaScript class that wraps a native `Set` held in the field `_set`. It is an insertion-ordered collection of distinct values with:

- chainable mutators: `add`, `addAll`, `clear`, `difference`, `intersection`, `union`, `deleteAll`, `keepAll`, `fromArray`;
- `delete`, which reports whether a value was removed;
- queries: `has`, `getSize`, `every`, `any`, `none`, `areAllIn`;
- combinators that build a new set or array: `filter`, `reject`, `map`, `toArray`, `pushTo`;
- static operations that build a new set: `intersection`, `union`, `fromArray`.

Files:

- `SeqSpec.dfy` (module `SeqSpec`) describes a native Set by its list of entries in insertion order. It defines what `add` (`Insert`), a run of adds (`InsertAll`, `Dedup`), `delete` (`Remove`) and a filtering traversal (`Filtered`) do to that list. Its lemmas prove the properties the class relies on: no duplicates, membership, kept order, first-occurrence order, the partition made by filter and reject, and that size equals the number of distinct members.
- `BetterSet.dfy` (module `BetterSets`) is the class. `BetterSet<T>` keeps `_set` as the field `elems: seq<T>`, and `Valid()` says it holds no duplicates. The mutators and the combinators that build a set are proved against the functions of `SeqSpec`; `Map`, `Every`, `Any`, `AreAllIn`, `PushTo` and `ToArray` state their results directly over the entries. Its loops follow the source's `forEach` and `for` traversals. The static operations that do their own work are module-level methods: `IntersectionOf`, `UnionOf`, `NewFromArray` and `StaticPushTo`. `JsArray` is the caller's array that `pushTo` grows in place.
- `Defects.dfy` (module `Defects`) models three defects as the source writes them, with inputs that expose each one (see "## Findings").

Behaviour of the code that its names or comments do not make plain:

- `deleteAll` deletes the values that pass the predicate, while its doc comment (src/better-set.js:294) says it deletes those that fail. The model follows the code. `keepAll` is `deleteAll` of the negated predicate, so it keeps the values that pass.
- The instance `fromArray` clears and refills the receiver and returns it. The static `fromArray` builds a new set.
- The static `intersection` copies `set1` only when `set1.size < set2.size`. On equal sizes it copies `set2`, so the result takes `set2`'s order.
- `areAllIn`'s callback drops the result of `has`. Since `every` tests `!predicate(value)`, once `every` loops over the stored values, the answer is false for every non-empty receiver (see "## Findings").

Element equality is Dafny's `==` on a type `T(==)`. Callbacks and predicates are total Dafny functions (`T -> bool`, `T -> U`).

The traversals that delete are modelled over the list of entries as it was on entry. This matches the source because each step deletes at most the value being visited:

- `difference` visits `other` and deletes the visited value from the receiver;
- `intersection` and `deleteAll` visit the receiver and delete the visited value;
- the contracts of `Intersection` and `Difference` also hold when `other` is the receiver itself: the set then keeps all its values, or loses them all.

## Model

| member | source | states |
|---|---|---|
| `SeqSpec.NoDupCardinality` | src/better-set.js:104-106 | a Set whose entries are distinct has exactly as many members as entries, so `size` is the number of distinct values |
| `SeqSpec.NoDupTail` | src/better-set.js:9 | the entries after the first are still distinct and do not contain the first |
| `SeqSpec.Insert` | src/better-set.js:25-28 | `Set.prototype.add`: the value is present afterwards, and the entry list grows by at most one entry |
| `SeqSpec.InsertNoDup` | src/better-set.js:25-28 | adding a value never creates a duplicate |
| `SeqSpec.InsertIdempotent` | src/better-set.js:25-28 | adding the same value twice gives the same entries as adding it once |
| `SeqSpec.InsertAll` | src/better-set.js:39-45 | addAll's loop of adds leaves at least as many entries as before and at most one more per value of the list |
| `SeqSpec.InsertAllMembers` | src/better-set.js:39-45 | after adding a list, a value is present iff it was present before or occurs in the list |
| `SeqSpec.InsertAllNoDup` | src/better-set.js:39-45 | adding a list keeps the entries distinct |
| `SeqSpec.InsertAllPrefix` | src/better-set.js:39-45 | values already present keep their positions: the old entries are a prefix of the new ones |
| `SeqSpec.InsertAllConcat` | src/better-set.js:39-45 | adding `xs` and then `ys` equals adding `xs + ys` |
| `SeqSpec.InsertAllCons` | src/better-set.js:39-45 | adding a list equals adding its first value and then the rest, in the list's order |
| `SeqSpec.InsertAllAppendsMissing` | src/better-set.js:194-199 | adding a duplicate-free list appends exactly its absent values, in the list's order, after the old entries |
| `SeqSpec.FirstIndex` | src/better-set.js:416-424 | the position it returns holds the value, and the value does not occur before it |
| `SeqSpec.FirstIndexPrefix` | src/better-set.js:416-424 | appending to a list does not move the first occurrence of a value already in it |
| `SeqSpec.Dedup` | src/better-set.js:9 | `new Set(values)` has no more entries than the list has values |
| `SeqSpec.DedupFirstOccurrence` | src/better-set.js:2-14 | a Set built from a list holds each of its values once, no other value, ordered by first occurrence in the list |
| `SeqSpec.DedupOfNoDup` | src/better-set.js:5-9 | a Set built from another Set's entries has the same entries in the same order |
| `SeqSpec.Filtered` | src/better-set.js:258-268 | the filtered list is no longer than the input and holds exactly the input values that pass the predicate |
| `SeqSpec.FilterConcat` | src/better-set.js:258-268 | filtering a concatenation is concatenating the filtered parts |
| `SeqSpec.FilterIdentity` | src/better-set.js:258-268 | filtering by a predicate every entry passes leaves the list unchanged |
| `SeqSpec.FilterSnoc` | src/better-set.js:261-265 | one step of filter's traversal appends the visited value exactly when it passes, and that value is not yet in the result |
| `SeqSpec.FilterExt` | src/better-set.js:324-328 | two predicates that agree on every value filter every list alike; so keepAll, which deletes with the negated predicate, keeps the values that pass |
| `SeqSpec.FilterNoDup` | src/better-set.js:258-268 | filtering distinct entries gives distinct entries |
| `SeqSpec.FilterIsSubsequence` | src/better-set.js:258-268 | the filtered list keeps the input's relative order: it is a subsequence of the input |
| `SeqSpec.FilterPartition` | src/better-set.js:283-287 | filter and reject by the same predicate split the entries: their sizes add up to the size, and each value lands in exactly one |
| `SeqSpec.NoDupAt` | src/better-set.js:9 | in a Set's entries, the value at any position occurs neither before nor after it |
| `SeqSpec.Remove` | src/better-set.js:68-70 | `Set.prototype.delete`: the value is absent afterwards and no entry is added |
| `SeqSpec.RemoveAt` | src/better-set.js:68-70 | deleting a present value removes only its entry; the others keep their order |
| `SeqSpec.RemoveAbsent` | src/better-set.js:68-70 | deleting an absent value changes nothing |
| `SeqSpec.FilterInPlaceStep` | src/better-set.js:168-175 | one step of a traversal that deletes the visited value when it fails the test: entries before the step are filtered, entries after are untouched |
| `SeqSpec.DifferenceStep` | src/better-set.js:151-157 | deleting the next value of `other` from what survived the earlier ones equals filtering out all of them |
| `BetterSets.JsArray.Push` | src/better-set.js:216 | `push` appends one value to the array |
| `BetterSets.BetterSet.constructor` | src/better-set.js:2-14 | building from an iterable gives its distinct values in first-occurrence order, with no duplicates |
| `BetterSets.BetterSet.Copy` | src/better-set.js:2-14 | building from another BetterSet gives a new object with the same entries in the same order |
| `BetterSets.BetterSet.Add` | src/better-set.js:25-28 | returns the receiver; the value is present afterwards; the size grows by one iff it was absent; a present value stays in place |
| `BetterSets.BetterSet.AddAll` | src/better-set.js:39-45 | returns the receiver and equals adding each value in order; a value is present afterwards iff it was present before or is in the list; old entries keep their positions |
| `BetterSets.BetterSet.Clear` | src/better-set.js:53-56 | returns the receiver, now empty |
| `BetterSets.BetterSet.Delete` | src/better-set.js:68-70 | returns true iff the value was present; afterwards it is absent and the other entries keep their order |
| `BetterSets.BetterSet.GetSize` | src/better-set.js:104-106 | the size is the number of entries and the number of distinct members |
| `BetterSets.BetterSet.Has` | src/better-set.js:116-118 | true iff the value is a member |
| `BetterSets.BetterSet.Difference` | src/better-set.js:151-157 | returns the receiver after removing exactly the values of `other`; the rest keep their order; `other` is unchanged unless it is the receiver |
| `BetterSets.BetterSet.Intersection` | src/better-set.js:168-175 | returns the receiver after keeping exactly the values also in `other`, in their order; `other` is unchanged unless it is the receiver |
| `BetterSets.BetterSet.Union` | src/better-set.js:194-199 | returns the receiver with the values of `other` that were absent appended in `other`'s order |
| `BetterSets.BetterSet.PushTo` | src/better-set.js:214-219 | returns the same array with every value appended in insertion order after its earlier contents |
| `BetterSets.BetterSet.Map` | src/better-set.js:235-243 | an array as long as the set, holding the callback's result for each value in insertion order, duplicates kept |
| `BetterSets.BetterSet.Filter` | src/better-set.js:258-268 | a new set with exactly the values that pass the predicate, in insertion order; the receiver is unchanged |
| `BetterSets.BetterSet.Reject` | src/better-set.js:283-287 | a new set with exactly the values that fail the predicate, in insertion order |
| `BetterSets.BetterSet.DeleteAll` | src/better-set.js:301-309 | returns the receiver after deleting exactly the values that pass the predicate; the rest keep their order |
| `BetterSets.BetterSet.KeepAll` | src/better-set.js:324-328 | returns the receiver after keeping exactly the values that pass the predicate, in their order |
| `BetterSets.BetterSet.Every` | src/better-set.js:334-350 | true iff every value passes the predicate, as its doc comment describes |
| `BetterSets.BetterSet.None` | src/better-set.js:356-368 | true iff no value passes the predicate |
| `BetterSets.BetterSet.Any` | src/better-set.js:374-390 | true iff some value passes the predicate |
| `BetterSets.BetterSet.AreAllIn` | src/better-set.js:396-410 | true iff every member of the receiver is a member of `other`, as its doc comment describes |
| `BetterSets.BetterSet.FromArray` | src/better-set.js:416-424 | returns the receiver, whose entries are replaced by the distinct values of the array in first-occurrence order |
| `BetterSets.BetterSet.ToArray` | src/better-set.js:436-444 | a new array holding the values in insertion order |
| `BetterSets.IntersectionOf` | src/better-set.js:177-183 | a new set holding exactly the common values, in `set1`'s order if `set1` is strictly smaller, otherwise in `set2`'s order |
| `BetterSets.UnionOf` | src/better-set.js:201-203 | a new set holding `set1`'s values in order, then `set2`'s values missing from `set1` in `set2`'s order |
| `BetterSets.NewFromArray` | src/better-set.js:426-428 | a new set holding the distinct values of the array in first-occurrence order |
| `BetterSets.StaticPushTo` | src/better-set.js:221-223 | the corrected static pushTo: appends the set's values to the array and returns it |
| `BetterSets.FromArrayToArray` | src/better-set.js:416-444 | `fromArray` then `toArray` gives each distinct value of the array exactly once, ordered by first occurrence |
| `BetterSets.AddAllThenDelete` | src/better-set.js:39-70 | adding 1, 2, 3 and deleting 2 leaves 1 and 3 in that order |
| `BetterSets.UnionOfOverlapping` | src/better-set.js:201-203 | the union of {1, 2} and {2, 3} lists 1, 2, 3 |
| `Defects.AllTruthy` | src/better-set.js:342-350 | every's loop answers true iff the callback's result is truthy for every value |
| `Defects.SomeTruthy` | src/better-set.js:382-390 | any's loop answers true iff the callback's result is truthy for some value |
| `Defects.BetterSetTarget` | src/better-set.js:343 | a BetterSet as the target of `for ... of` has no iterator: the class declares no `[Symbol.iterator]` and extends nothing |
| `Defects.EveryLoop` | src/better-set.js:342-350 | every's `for ... of` loop throws exactly when its target has no iterator; otherwise it answers true iff every callback result is truthy |
| `Defects.AnyLoop` | src/better-set.js:382-390 | any's `for ... of` loop throws exactly when its target has no iterator; otherwise it answers true iff some callback result is truthy |
| `Defects.EveryAndAnyThrowAsWritten` | src/better-set.js:342-390 | as written, `every` and `any` loop over the BetterSet itself, which is not iterable, so they throw for every set, the empty one included |
| `Defects.EveryAndAnyOverStoredValues` | src/better-set.js:334-390 | looping over the stored values instead gives the documented all-pass and some-pass answers |
| `Defects.DroppedHas` | src/better-set.js:407-409 | areAllIn's callback as written returns nothing, so its result is falsy for every value |
| `Defects.ReturnedHas` | src/better-set.js:396-410 | the callback that returns `set.has(value)` is truthy exactly for the other set's members |
| `Defects.AreAllInDropsResult` | src/better-set.js:406-410 | even with a working `every`, `areAllIn` as written answers true only for the empty set |
| `Defects.AreAllInCounterexample` | src/better-set.js:406-410 | {1} lies within {1}: `areAllIn` as written answers false where the callback returning `has` answers true |
| `Defects.AreAllInReturningHas` | src/better-set.js:396-410 | with the membership result returned, `areAllIn` is the subset test its doc comment describes |
| `Defects.PushIntoUndeclared` | src/better-set.js:214-223 | the class declares `pushTo`; `pushInto` is found neither among the methods the class declares nor among those every object inherits from Object.prototype |
| `Defects.CallWithArray` | src/better-set.js:214-223 | of the two names static `pushTo` involves, calling `pushInto` throws because neither BetterSet.prototype nor Object.prototype provides it; calling `pushTo` gives the array followed by the set's values, in order |
| `Defects.StaticPushToAsWritten` | src/better-set.js:221-223 | static `pushTo` as written throws a TypeError for `pushInto` whatever the array and the set |
| `Defects.StaticPushToCounterexample` | src/better-set.js:221-223 | static `pushTo` of {1} into an empty array throws for `pushInto`, where calling `pushTo` gives [1] |

## Left out

- Element equality: JavaScript Sets compare by SameValueZero (NaN equals itself, objects by reference). The model compares elements with Dafny's `==`.
- `entries`, `values` and `keys` return lazy native iterators. They are not modelled. They yield the entries in insertion order, the same sequence `ToArray` returns; `entries` yields each as a pair `[v, v]`.
- `forEach` and its `thisArg` receiver binding are not modelled as a separate operation. Each traversal is a loop inside the method that uses it.
- The `size` accessor set up with `Object.defineProperty` is not modelled. `GetSize` stands for it.
- The static methods that only delegate to the instance method are not modelled separately: `map`, `filter`, `reject`, `deleteAll`, `keepAll`, `every`, `none`, `any`, `areAllIn` and `toArray`.
- Runtime faults from a non-callable predicate or a non-iterable argument are not modelled. Callbacks are total, side-effect-free Dafny functions, and iterables are finite sequences. So a callback that mutates the set during a traversal, or one that throws partway, is outside the model.
- Arrays that `toArray` and `map` create are returned as sequence values, since nothing else refers to them. The array given to `pushTo` is a `JsArray` object, so its in-place growth and its identity are kept.
- Predicate results are booleans in the class model. JavaScript truthiness appears only in `Defects`, where `areAllIn`'s callback returns undefined.
- Static `pushTo` as written cannot run at all. `BetterSets.StaticPushTo` models it as the delegation its name promises.

## Findings

| source | as written | input that shows it | evidently intended | confidence | as-written member | corrected member |
|---|---|---|---|---|---|---|
| src/better-set.js:342-390 | `every` and `any` run `for (let value of this)`, but BetterSet declares no `[Symbol.iterator]`, so both throw a TypeError. `none` and `areAllIn` call `every` and throw too | any set, for example the empty set with any predicate | loop over the stored values and give the all-pass and some-pass answers of the doc comments | high, not executed | `Defects.EveryAndAnyThrowAsWritten` | `BetterSets.BetterSet.Every` |
| src/better-set.js:406-410 | `areAllIn`'s callback evaluates `set.has(value)` and returns nothing, so `every` sees undefined | with `every` looping over the stored values, `areAllIn` of {1} against {1} gives false | answer whether every member is also in the other set | high, not executed | `Defects.AreAllInCounterexample` | `BetterSets.BetterSet.AreAllIn` |
| src/better-set.js:221-223 | static `pushTo` calls `set.pushInto(array)`, a method BetterSet does not have, so it throws a TypeError | any set, for example {1} with an empty array | delegate to the instance `pushTo` and return the array | high, not executed | `Defects.StaticPushToCounterexample` | `BetterSets.StaticPushTo` |
