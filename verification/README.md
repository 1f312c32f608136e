# Rendered array and mutable context — a Dafny model

This project models two pieces of a React page.

**The rendered array** (`RenderedArray.tsx`) is a JavaScript array of records.
Beside it sits a hidden array of view nodes, one `<Component {...item} key={keyFN(item)} />` per record.
Two mechanisms keep the two arrays in step:

- A Proxy handler mirrors element writes and deletes: any property name with a digit in it.
- Prototype methods that a registry installs per base-array class mirror `push`, `unshift`, `pop`, `shift`, `reverse`, `splice` and `sort`.

Every mirrored mutation sets a "changed" flag. `render()` hands out a new generation of the node-array wrapper only when that flag is set.

**The mutable context** (`createMutableContext.tsx`) is a React context whose provider memoises the first value object it receives. On every render the provider merges the new value into that object with `Object.assign`, so consumers always see one object carrying the latest fields.

The model is functional:

- A container is an immutable record. It holds two `seq`s of slots (a slot is a hole or a value), the extra named properties of each array, the flag, the generation, the key function, the class's method table, whether the Proxy wraps it, and the opaque `count`.
- Each operation is a pure function returning the new container and how the call completed: `Returned(v)` or `Threw(exc)`.
- The key function and the sort callback may throw, so they return such an outcome too.
- The built-in array behaviour the code relies on is modelled in `NativeArray`, on slots:
  - index assignment growing the array with holes;
  - `delete` leaving a hole;
  - argument clamping for `splice`;
  - stable sorting with holes last.
- The canonical array-index test that decides whether a name is an element is modelled in `PropertyKeys`.

Modules:

- `JsValues`: completions, slots, optional values.
- `PropertyKeys`: the handler's digit test and array-index names.
- `NativeArray`: `Array.prototype` behaviour.
- `Sorting`: the engine's sort.
- `Registry`: `registerCustomArray` and the registration done when the module loads.
- `RenderedArray`: the container, the handler, the wrappers, `render()`, method dispatch, sequences of operations.
- `Corrected`: the three wrappers fixed.
- `Discrepancies`: concrete inputs that show each finding.
- `MutableContext`: the context provider.

Behaviour of the code that a reader might not expect, and that the model keeps:

- **The flag on a throw.** Each wrapper sets the flag in a `finally` block (`RenderedArray.tsx` lines 66-68, 82-84 and 98-100), so the flag is set even when the key function or the sort callback throws (`Push`, `Unshift`, `Sort`).
- **The key function at construction.** `RenderedArray(...)` (lines 162-176) stores the key function without calling or checking it. Construction fails only when no class is registered for the base: `customArrayClasses.get(Base)` is then `undefined`, and `new undefined()` throws TypeError (`Create`).
- **Partial pushes.** The `push` loop (lines 58-63) adds one item at a time, so the items added before the key function throws stay added (`Push`).
- **Sort, splice and unshift.** These three wrappers leave the node array out of step with the items for some inputs; see Findings.

## Model

Paths are relative to the repository root.

| member | source | states |
|---|---|---|
| PropertyKeys.ArrayIndex | src/pages/uremont/reviews/kai3341-sample/RenderedArray.tsx:21-25 | a name is an element index exactly when it is a canonical decimal (digits only, no leading zero) below 2^32-1; every index name contains a digit, so the set trap mirrors every element write |
| PropertyKeys.DecimalIsIndex | src/pages/uremont/reviews/kai3341-sample/RenderedArray.tsx:24-25 | `records[i] = v` with a number `i` below 2^32-1 reaches the trap as a name that denotes index `i` |
| PropertyKeys.IndexIsDecimal | src/pages/uremont/reviews/kai3341-sample/RenderedArray.tsx:24-25 | every index name is the canonical spelling of its index, so names and indices correspond one to one |
| PropertyKeys.LengthHasNoDigit | src/pages/uremont/reviews/kai3341-sample/RenderedArray.tsx:21-25 | `length` contains no digit, so writes to it are never mirrored |
| NativeArray.WriteAt | src/pages/uremont/reviews/kai3341-sample/RenderedArray.tsx:30-34 | writing index `i` stores the value there, keeps every other slot, and past the end grows the array to `i + 1` with holes in between |
| NativeArray.DeleteAt | src/pages/uremont/reviews/kai3341-sample/RenderedArray.tsx:41-44 | deleting index `i` leaves a hole at `i`, every other slot and the length unchanged |
| NativeArray.SpliceStartCases | src/pages/uremont/reviews/kai3341-sample/RenderedArray.tsx:79-81 | `splice` starts at 0 without arguments, at a start inside the array as given, at a negative start counted back from the end (0 if that passes the front), and at the end for a start past it |
| NativeArray.SpliceCountCases | src/pages/uremont/reviews/kai3341-sample/RenderedArray.tsx:79-81 | `splice` removes nothing without arguments or with a count of zero or less, the whole tail with a start alone, the count itself when it fits, and what is left after the start when it does not |
| NativeArray.SpliceRestores | src/pages/uremont/reviews/kai3341-sample/RenderedArray.tsx:79-81 | `splice` loses nothing: the inserted values sit at the start in the new array, and putting the removed slots back between the prefix and the rest rebuilds the original array |
| NativeArray.SpliceInRange | src/pages/uremont/reviews/kai3341-sample/RenderedArray.tsx:79-81 | arguments within the array remove exactly `count` slots from `start`, or everything from `start` when no count is given |
| NativeArray.SpliceBoundsIgnoreInserted | src/pages/uremont/reviews/kai3341-sample/RenderedArray.tsx:79-81 | where `splice` starts and how much it removes depend only on the numeric arguments and the length, so both arrays, if equally long, lose the same stretch |
| Sorting.Insert | src/pages/uremont/reviews/kai3341-sample/RenderedArray.tsx:95-97 | one insertion step permutes: the result is the old sequence plus the new element, one longer |
| Sorting.SortValues | src/pages/uremont/reviews/kai3341-sample/RenderedArray.tsx:95-97 | a sort that completes returns a permutation of its input |
| Sorting.SortValuesSorts | src/pages/uremont/reviews/kai3341-sample/RenderedArray.tsx:95-97 | with a total, antisymmetric comparator the sort completes and the result is in comparator order |
| Sorting.SortSlotsOrders | src/pages/uremont/reviews/kai3341-sample/RenderedArray.tsx:95-97 | sorting slots puts every hole after every value and the values in comparator order |
| Sorting.AllEqualKeepsOrder | src/pages/uremont/reviews/kai3341-sample/RenderedArray.tsx:95 | a comparator that calls everything equal leaves the order as it was |
| Sorting.SortIsStable | src/pages/uremont/reviews/kai3341-sample/RenderedArray.tsx:95-97 | the sort is stable: with a consistent comparator, sorting is dropping the position tags from the sort of the elements tagged with their positions, and in that tagged result any two elements the comparator calls equal keep their original order |
| Sorting.LiftKeepsConsistent | src/pages/uremont/reviews/kai3341-sample/RenderedArray.tsx:95-97 | with holes after every value, the slot order the array sort applies is consistent whenever the comparator is, so stability holds for arrays with holes |
| Sorting.SortCommutes | src/pages/uremont/reviews/kai3341-sample/RenderedArray.tsx:95-97 | sorting then projecting equals projecting then sorting when the two comparators agree through the projection; a throw happens in both or neither |
| Registry.BuildTable | src/pages/uremont/reviews/kai3341-sample/RenderedArray.tsx:135-142 | the loop succeeds exactly when every entry that lists a method names a known creator, and throws TypeError otherwise; each listed method gets the creator of the last entry that lists it; unlisted methods keep their entry |
| Registry.Register | src/pages/uremont/reviews/kai3341-sample/RenderedArray.tsx:111-146 | registration stores the built table under the base and leaves other bases alone; when the loop throws, nothing is stored |
| Registry.RegisterLastWins | src/pages/uremont/reviews/kai3341-sample/RenderedArray.tsx:145 | registering a base again replaces its class, whatever the earlier registration held |
| Registry.DefaultRegistration | src/pages/uremont/reviews/kai3341-sample/RenderedArray.tsx:148-152 | the registration done at load succeeds; it registers `Array` alone, with push and unshift wrapped by pushLike, pop, shift, reverse and splice by spliceLike, and sort by sortLike |
| RenderedArray.Create | src/pages/uremont/reviews/kai3341-sample/RenderedArray.tsx:162-176 | construction throws TypeError exactly when the base is unregistered; otherwise both arrays are empty, the flag is clear, and the class's wrappers, the key function, `wrap` and `count` are recorded |
| RenderedArray.CreateFromInitialRegistry | src/pages/uremont/reviews/kai3341-sample/RenderedArray.tsx:169-170 | after loading, a container on `Array` gets the default wrappers, and one on any other base fails to construct |
| RenderedArray.SetProperty | src/pages/uremont/reviews/kai3341-sample/RenderedArray.tsx:24-36 | on a wrapped container, a name with a digit first writes the node rendered from the value into the node array and sets the flag, then every name is written on the items. An index write replaces exactly that slot in both arrays, growing them with holes. A throwing key function changes nothing. Writing an item to `length` throws RangeError. Alignment is preserved |
| RenderedArray.SetLengthNumber | src/pages/uremont/reviews/kai3341-sample/RenderedArray.tsx:25-34 | assigning a number to `length` resizes the items alone, leaving the node array and the flag as they were; a length outside 0 .. 2^32-1 throws RangeError |
| RenderedArray.LengthWriteDesyncs | src/pages/uremont/reviews/kai3341-sample/RenderedArray.tsx:25-34 | shortening `length` through the handler leaves the two arrays of different lengths |
| RenderedArray.DeleteProperty | src/pages/uremont/reviews/kai3341-sample/RenderedArray.tsx:37-46 | deleting an index on a wrapped container leaves a hole at that index in both arrays, both lengths unchanged, and sets the flag; deleting `length` throws TypeError; alignment is preserved |
| RenderedArray.KeyedPrefix | src/pages/uremont/reviews/kai3341-sample/RenderedArray.tsx:58-63 | how far the loop gets: every item before it has a key and, if it stops early, the key function throws on the item it stops at |
| RenderedArray.AddEach | src/pages/uremont/reviews/kai3341-sample/RenderedArray.tsx:57-64 | the loop throws exactly the key function's exception for the first item it cannot key, and completes when all items have keys |
| RenderedArray.AddEachBack | src/pages/uremont/reviews/kai3341-sample/RenderedArray.tsx:58-63 | adding at the back one item at a time appends the keyed items to the items and their rendered nodes to the node array, in call order |
| RenderedArray.AddEachFront | src/pages/uremont/reviews/kai3341-sample/RenderedArray.tsx:58-63 | adding at the front one item at a time prepends the keyed items, and their nodes, in reverse call order |
| RenderedArray.Push | src/pages/uremont/reviews/kai3341-sample/RenderedArray.tsx:52-68 | `push(x1..xn)` appends the items and the nodes rendered from them in order and returns the new length; if the key function throws at `xk`, the items before `xk` stay added and its exception propagates; the flag ends set either way |
| RenderedArray.Unshift | src/pages/uremont/reviews/kai3341-sample/RenderedArray.tsx:52-68 | `unshift(x1..xk)` leaves both arrays starting `xk..x1` before the old contents and returns the new length; throws are handled as for push |
| RenderedArray.PushKeepsAligned | src/pages/uremont/reviews/kai3341-sample/RenderedArray.tsx:58-63 | after a push every node still renders the item at its position |
| RenderedArray.UnshiftKeepsAligned | src/pages/uremont/reviews/kai3341-sample/RenderedArray.tsx:58-63 | after an unshift every node still renders the item at its position |
| RenderedArray.Pop | src/pages/uremont/reviews/kai3341-sample/RenderedArray.tsx:74-84 | `pop()` drops the last slot of each array and returns the item's; an empty container returns undefined; the flag ends set; alignment is preserved |
| RenderedArray.Shift | src/pages/uremont/reviews/kai3341-sample/RenderedArray.tsx:74-84 | `shift()` drops the first slot of each array and returns the item's; the flag ends set; alignment is preserved |
| RenderedArray.Reverse | src/pages/uremont/reviews/kai3341-sample/RenderedArray.tsx:74-84 | `reverse()` reverses both arrays slot for slot; the flag ends set; alignment is preserved |
| RenderedArray.Splice | src/pages/uremont/reviews/kai3341-sample/RenderedArray.tsx:74-84 | `splice(...)` applies the same arguments to both arrays and returns the removed item slots; the node array receives the inserted values unrendered |
| RenderedArray.SpliceKeepsAligned | src/pages/uremont/reviews/kai3341-sample/RenderedArray.tsx:79-81 | a splice that inserts nothing keeps every node beside its item |
| RenderedArray.Sort | src/pages/uremont/reviews/kai3341-sample/RenderedArray.tsx:90-100 | `sort(cb)` permutes each array without changing its length. The nodes are sorted first; if that throws, neither array changes and the exception propagates. If the nodes' sort completes and the items' sort throws, the nodes stay sorted, the items are untouched and that exception propagates. If both complete, the call returns with the items as the callback sorts them. The flag ends set either way |
| RenderedArray.SortOrdersItems | src/pages/uremont/reviews/kai3341-sample/RenderedArray.tsx:95-97 | when the node sort completes and the callback on items is total (never throws on two items) and antisymmetric (when it returns 0 or more for `(a, b)`, it returns 0 or less for `(b, a)`), the call returns with the holes last and the values in callback order |
| RenderedArray.Render | src/pages/uremont/reviews/kai3341-sample/RenderedArray.tsx:122-132 | `render()` on a clean container returns the generation it returned last and changes nothing; on a dirty one it returns a newer generation, stores it and clears the flag |
| RenderedArray.RenderTwiceSameGeneration | src/pages/uremont/reviews/kai3341-sample/RenderedArray.tsx:122-132 | rendering twice with no mutation in between returns the same generation |
| RenderedArray.Mirrored | src/pages/uremont/reviews/kai3341-sample/RenderedArray.tsx:135-142 | a method the class lists runs its wrapper, which always sets the flag |
| RenderedArray.Unmirrored | src/pages/uremont/reviews/kai3341-sample/RenderedArray.tsx:135-142 | a method the class does not list is the base's own: it changes the items only and leaves the flag alone |
| RenderedArray.Invoke | src/pages/uremont/reviews/kai3341-sample/RenderedArray.tsx:135-142 | calling a method on the container mirrors it exactly when the class's table lists it |
| RenderedArray.DefaultCallsMirrored | src/pages/uremont/reviews/kai3341-sample/RenderedArray.tsx:148-152 | on a container built on `Array` after loading, every one of the seven methods is mirrored and sets the flag |
| RenderedArray.DefaultTableWraps | src/pages/uremont/reviews/kai3341-sample/RenderedArray.tsx:149-151 | the default table wraps each method with the creator its group names |
| RenderedArray.UnlistedPushDesyncs | src/pages/uremont/reviews/kai3341-sample/RenderedArray.tsx:135-145 | re-registering `Array` without `push` makes a push grow the items alone, with the flag clear |
| RenderedArray.StepKeepsLengths | src/pages/uremont/reviews/kai3341-sample/RenderedArray.tsx:24-100 | one item write or delete through the handler, wrapped method call or render keeps a wrapped container's arrays equally long |
| RenderedArray.RunKeepsLengths | src/pages/uremont/reviews/kai3341-sample/RenderedArray.tsx:24-100 | any sequence of such operations keeps a wrapped container's arrays equally long |
| RenderedArray.StepKeepsAligned | src/pages/uremont/reviews/kai3341-sample/RenderedArray.tsx:24-84 | one operation other than sort or an inserting splice keeps every node beside the item it renders |
| RenderedArray.RunKeepsAligned | src/pages/uremont/reviews/kai3341-sample/RenderedArray.tsx:24-84 | any sequence of such operations keeps a wrapped container aligned |
| RenderedArray.MutationThenRenderIsNew | src/pages/uremont/reviews/kai3341-sample/RenderedArray.tsx:122-132 | after any wrapped method call the flag is set, and the next render hands out a newer generation |
| RenderedArray.IndexWriteThenRenderIsNew | src/pages/uremont/reviews/kai3341-sample/RenderedArray.tsx:25-31 | after an index write whose key is computed the flag is set, and the next render hands out a newer generation |
| Corrected.SortPaired | src/pages/uremont/reviews/kai3341-sample/RenderedArray.tsx:95 | sort with the callback given both nodes' props: it permutes both arrays, and when it completes the items are as the callback sorts them |
| Corrected.SortPairedKeepsAligned | src/pages/uremont/reviews/kai3341-sample/RenderedArray.tsx:95-97 | on an aligned container the corrected sort throws exactly when the items' sort does, and otherwise leaves every node beside its item |
| Corrected.SpliceRendered | src/pages/uremont/reviews/kai3341-sample/RenderedArray.tsx:79 | splice that renders the inserted values: items and result as the written splice, nodes rendered from the inserted items; a throwing key function changes neither array |
| Corrected.SpliceRenderedKeepsAligned | src/pages/uremont/reviews/kai3341-sample/RenderedArray.tsx:79-81 | the corrected splice keeps every node beside its item, insertions included |
| Corrected.UnshiftBatch | src/pages/uremont/reviews/kai3341-sample/RenderedArray.tsx:58-63 | unshift that keeps argument order: the items end as native `unshift` leaves them, with matching nodes in front |
| Corrected.UnshiftBatchKeepsAligned | src/pages/uremont/reviews/kai3341-sample/RenderedArray.tsx:58-63 | the corrected unshift keeps every node beside its item |
| Corrected.UnshiftIsBatchOfReversed | src/pages/uremont/reviews/kai3341-sample/RenderedArray.tsx:58-63 | when every key is computed, the written unshift equals the corrected one applied to the arguments reversed |
| Corrected.StepCorrectedKeepsAligned | src/pages/uremont/reviews/kai3341-sample/RenderedArray.tsx:24-100 | with the corrected wrappers every single operation, sort and inserting splice included, keeps a wrapped container aligned |
| Corrected.RunCorrectedKeepsAligned | src/pages/uremont/reviews/kai3341-sample/RenderedArray.tsx:24-100 | with the corrected wrappers every sequence of operations keeps a wrapped container aligned |
| Discrepancies.SortThrowsOnFieldCallback | src/pages/uremont/reviews/kai3341-sample/RenderedArray.tsx:95-100 | sorting records `[{id: 2}, {id: 1}]` with `(a, b) => a.id - b.id` throws TypeError from the node sort, which passes `undefined` as `b`; both arrays stay unsorted and the flag is set |
| Discrepancies.SortSplitsOrders | src/pages/uremont/reviews/kai3341-sample/RenderedArray.tsx:95-97 | sorting the same records with `(a, b) => a?.id - b?.id` leaves the items `[{id: 1}, {id: 2}]` but the nodes in their old order, so the first node renders the wrong item |
| Discrepancies.SortPairedKeepsOrdersTogether | src/pages/uremont/reviews/kai3341-sample/RenderedArray.tsx:95-97 | with the corrected sort, both callbacks sort those records ascending and every node stays beside its item |
| Discrepancies.SpliceInsertsRaw | src/pages/uremont/reviews/kai3341-sample/RenderedArray.tsx:79-81 | on any container, `splice(0, 0, x)` puts `x` in front of the items and the bare value `x` at the head of the node array, so no container stays aligned |
| Discrepancies.SpliceRenderedInsertsNode | src/pages/uremont/reviews/kai3341-sample/RenderedArray.tsx:79-81 | the corrected `splice(0, 0, x)` puts `x` in front of the items and the node rendered from `x` in front of the nodes, keeping an aligned container aligned |
| Discrepancies.UnshiftReverses | src/pages/uremont/reviews/kai3341-sample/RenderedArray.tsx:58-63 | `unshift({id: 1}, {id: 2})` on an empty container leaves `[{id: 2}, {id: 1}]`, where native `unshift` and the corrected wrapper leave `[{id: 1}, {id: 2}]` |
| MutableContext.Assign | src/pages/uremont/reviews/kai3341-sample/createMutableContext.tsx:7 | `Object.assign` keeps the target's identity and its fields the source lacks, and takes every field the source has |
| MutableContext.RenderProvider | src/pages/uremont/reviews/kai3341-sample/createMutableContext.tsx:4-9 | each render hands on the memoised object, which is the first render's value object; every field of the current value overwrites it, fields the value omits keep their earlier values, and on the first render the merge changes nothing |
| MutableContext.RenderAllFrom | src/pages/uremont/reviews/kai3341-sample/createMutableContext.tsx:6-8 | once mounted, every later render hands on the memoised object, holding its fields merged with all values since |
| MutableContext.MergedCons | src/pages/uremont/reviews/kai3341-sample/createMutableContext.tsx:7 | merging a run of values equals merging the first value's fields with the merge of the rest |
| MutableContext.StableAndMerged | src/pages/uremont/reviews/kai3341-sample/createMutableContext.tsx:6-8 | while mounted, the provider hands on the first value object on every render, holding the left-to-right merge of all values so far |
| MutableContext.MergedField | src/pages/uremont/reviews/kai3341-sample/createMutableContext.tsx:7 | a field of the merged object is present exactly when some value provided it, and holds what the last such value provided |
| MutableContext.CreateMutableContext | src/pages/uremont/reviews/kai3341-sample/createMutableContext.tsx:11-17 | the context keeps the given default value and only its `Provider` changes, to the merging provider |
| MutableContext.Provide | src/pages/uremont/reviews/kai3341-sample/createMutableContext.tsx:13-16 | the merging provider renders the original provider with the memoised object, where a plain provider passes the value itself |
| MutableContext.LatestCallbackSameObject | src/pages/uremont/reviews/kai3341-sample/createMutableContext.tsx:6-8 | providing `{cb: f1}` then `{cb: f2}` keeps one object, and reading `cb` afterwards gives `f2` |

## Findings

| source | as written | input that shows it | evidently intended | confidence | as-written member | corrected member |
|---|---|---|---|---|---|---|
| src/pages/uremont/reviews/kai3341-sample/RenderedArray.tsx:95 | the node array is sorted with `(rendered) => callback(rendered.props)`, so the callback sees `undefined` as its second argument | records `[{id: 2}, {id: 1}]` keyed by `id`. With `(a, b) => a.id - b.id` the node sort throws TypeError reading `undefined.id`: neither array is sorted, and the flag is set. With `(a, b) => a?.id - b?.id` the items become `[{id: 1}, {id: 2}]` and the nodes stay as they were | compare `callback(a.props, b.props)` so each node moves with its item | high; not executed | Discrepancies.SortSplitsOrders | Corrected.SortPairedKeepsAligned |
| src/pages/uremont/reviews/kai3341-sample/RenderedArray.tsx:79 | `splice` hands the node array the same argument list, so inserted items land there unrendered | `[{id: 1}]` with `splice(0, 0, {id: 5})`: node 0 is the record `{id: 5}` itself | render each inserted item before inserting it into the node array | high; not executed | Discrepancies.SpliceInsertsRaw | Corrected.SpliceRenderedKeepsAligned |
| src/pages/uremont/reviews/kai3341-sample/RenderedArray.tsx:58-63 | `unshift` is wrapped by the one-at-a-time pushLike loop, which reverses a batch | empty container with `unshift({id: 1}, {id: 2})`: `[{id: 2}, {id: 1}]` | the native order `[{id: 1}, {id: 2}]` | medium; not executed | Discrepancies.UnshiftReverses | Corrected.UnshiftBatch |

`Corrected.RunCorrected` runs sequences of operations with all three corrections. `Corrected.RunCorrectedKeepsAligned` proves that alignment then holds after any sequence of operations.

## Left out

- The React side is not modelled. Nodes are abstract `(item, key)` pairs: `Component` is never called by the container, and JSX prop copying and reconciliation are not modelled.
- `toggle` from `@wrap-mutant/react` is modelled as "a newer generation number", and `count` as an opaque value passed through.
- `bindCallables` is modelled by having methods act on the raw arrays, so they never re-enter the handler.
- Symbol-keyed properties are not modelled. The handler ignores them, and they hold the container's internals.
- RenderedArray.SetProperty: items are modelled as objects. `T extends {}` also admits numbers and strings; for such a `T`, writing an item to `length` converts it to a number and resizes the array, where the model throws RangeError.
- Discrepancies: the concrete inputs are records. With numbers as items, `<Component {...2} />` has props `{}`, so a callback sees no item at all; that case is not modelled.
- RenderedArray.PropsOf: a value that `splice` inserts into the node array unrendered is taken to have no `props` field, so the node comparator passes it to the callback as `undefined`. A record with its own `props` field would be passed that field instead.
- Property names are strings of characters. `Object.prototype` members are not modelled as creator names; the lookup at `RenderedArray.tsx` line 138 finds them. Two of them do not throw where the model throws TypeError (`Registry.BuildTable`):
  - `toString` called with `this` undefined returns the string `"[object Undefined]"`, which is installed as the method;
  - `constructor` is `Object`, and `Object(Base, value)` returns `Base` itself, which is installed as the method.
  Every other such name throws TypeError at line 140, as the model does: the methods need an object as `this`, and `__proto__` is not callable.
- Expando properties that shadow methods are not modelled.
- A base other than `Array` is assumed to behave as `Array` does, both for its own methods and for its node array (`new Base()`).
- Array methods outside the seven default ones (`fill`, `copyWithin`, …) are not modelled. The model only records that a method absent from the class's table is not mirrored (`Unmirrored`).
- The engine's sort algorithm is implementation-defined. The model uses a stable insertion sort, so the exact sequence of callback calls is one admissible order, not the only one.
- `records.sort()` without a callback is not modelled, though it type-checks. With two or more node values, the node sort calls `undefined` and throws TypeError; the items are untouched and the flag is set.
- Callback results are the number the engine uses, with `NaN` already read as 0.
- Fractional, infinite and non-numeric `splice` arguments are not modelled. Neither is the RangeError of pushing past length 2^32-1: lengths are unbounded here.
- RenderedArray.Invoke: requires that a listed method is wrapped by the creator the default registration uses for it. A table that wraps, say, `pop` with pushLike is not modelled.
- MutableContext.RenderProvider: the first value object is mutated in place, so any other holder of that object sees the merged fields too. The model tracks the provider's copy only.
- React's change detection and consumer subscriptions are not modelled. `Read` returns the nearest provider's object.
