# react-binding: path resolution and binding composition

This project models the core of react-binding, a two-way data-binding library for React, and proves properties of the model in Dafny. The core is the engine that resolves path expressions against nested JSON-like data and composes binding nodes over that data. The library's other parts are only wrappers around this engine:

- observable stores (Mobx, Freezer);
- React glue (`setState`, prototype extraction).

## What is modelled

- **Values** (`js_value.dfy`, module `JsValue`). A JavaScript value is `Undef | Null | Bool | Num | Str | Obj | Arr`.
  - An array keeps its elements and, separately, any non-index properties written onto it.
  - The model covers:
    - property reads and writes, with the non-strict semantics of the compiled code;
    - `ToString` of a value used as a key, and truthiness;
    - the JSON clone used by the later revision's `move`.
  - An evaluation answers `Ok(value)` or `Throw(TypeError | RangeError | OutOfFuel)`.
- **Lodash path helpers** (`utils_lodash.dfy`, `LodashPath`): `isIndex`, `stringToPath` and `isKey`.
  - `stringToPath` is modelled by a hand-written scanner that takes, at each position, the first alternative of the regular expression that matches.
  - `isObject` is the predicate `JsValue.IsObject`. Functions are not values in this model, so it is "an object or an array".
- **Generic path utilities** (`utils.dfy`, `PathUtils`):
  - `castPath`;
  - `followRef` and `baseGet`, which follow `{$type: "ref", value: path}` references before every hop;
  - `baseSet` with its optional customizer.
- **The dotted-path object adapters** (`object_provider.dfy`, `ObjectProvider`). One model covers three variants, chosen by a `Dialect`:
  - `Plain`: `src/PlainObjectProvider.ts`, used by the provider-based nodes;
  - `Embedded`: the `PathObjectBinder` built into `src/DataBinding.ts`;
  - `Mixin`: the `PathObjectBinder` of `src/BindToMixin.ts`, which creates only the last intermediate.
- **Array operations** (`array_ops.dfy`, `JsArray`): `splice` with its clamping rules, `indexOf`, and the bindings' own truthy-guarded `splice` and `move`.
- **Converters** (`converter.dfy`, `Converters`): user converters and `CurryConverter`.
  - The user's `format` and `parse` functions are named by numbers.
  - Their behaviour is a parameter `impl`, so every statement holds for all converter functions.
- **Change notification** (`notify.dfy`, `Notifiers`). A binding's `notifyChange` slot is one of:
  - empty;
  - a user callback;
  - a state-key setter;
  - something not callable.

  Calling it records an `Event`; `component.setState(patch)` becomes the event `SetState(patch)`.
- **Where a source object lives** (`store.dfy`, `Store`). The component's `state` is one world value. A store-anchored node's source object is either:
  - the value at a key path inside the world (`InWorld`), or
  - a captured value the world does not contain (`Captured`), such as the output of a converter.
- **Three revisions of the binding nodes.** Each operation takes the world and returns a `Step`: the world after it, the events it produced, and its answer.
  - `Bindings` (`data_binding.dfy`): the provider-based revision that survives only as `dist/lib/DataBinding.js`. It adds the `parent`/`root` chain, `ArrayParentBinding.getItems`, and the JSON-cloning `move`.
  - `EmbeddedBindings` (`embedded_binding.dfy`): `src/DataBinding.ts`.
  - `MixinBindings` (`mixin_binding.dfy`): the older nodes and binding methods of `src/BindToMixin.ts`.
- **Binders.**
  - `Binders` (`binder.dfy`) models `src/Binder.ts`: `BinderCore` dispatch, converter currying, and `bindToState`/`bindArrayToState`.
  - `src/Binder.ts` calls the node constructors with the provider-based signature `(sourceObject, provider, path, notifyChange, valueConverter)`, so `Binders` builds `Bindings` nodes.
  - `EmbeddedBinder` (`embedded_binder.dfy`) models the `Binder` class of `src/DataBinding.ts`.

### Modelling decisions

- **Object identity.** JavaScript compares objects by identity, in `===` and in `indexOf`. The model compares them by value.
- **Item nodes.** An item binding shares its element object. The model says where that element sits in the world instead.
- **Reference following** is bounded by a `fuel` argument. A reference cycle makes the JavaScript overflow its stack, and the model answers `Throw(OutOfFuel)` instead. `PathUtils.BaseGetFuel` proves that more fuel never changes an answer that did not run out.
- **Numbers** are integers.
- **`castPath` of `null` or `undefined`.** `isKey` accepts both, so `castPath` answers the one-element path `[value]`. The empty-string fallback in `src/utils.ts:10` is never reached for them. The model follows the code.
- **A test the mixin would fail, by reading (not executed).** `test/DataBinding.ts:96-114` sets and then reads `Person.Contact.Email` on an empty object.
  - The plain and embedded adapters create both intermediates, and the write is read back.
  - The mixin's walk creates only the last intermediate and finds the first one missing, so the write is lost and the read answers undefined.
  - The evidence is `MixinBindings.DeepPathOverEmptyIsLost`, with `ObjectProvider.DeepPathOverEmpty` comparing the three adapters.
- **Findings are modelled twice.** Where the code evidently misbehaves (see "## Findings"), both readings are kept under separate names.
  - The node-level `move`s and the mixin's state binders follow the code under the source's names. Their `…Corrected` variants follow the evident intent.
  - The binder core (`Binders.BindTo`, `Binders.BindArrayTo`) follows the evident intent under the source's names. Its `…AsWritten` variants follow the code.

## Model

| member | source | states |
|---|---|---|
| JsValue.CanonicalRoundTrip | src/utils-lodash.ts:15 | a string matching the canonical unsigned-integer pattern is the decimal spelling of the number it denotes |
| JsValue.CanonicalInjective | src/utils-lodash.ts:15 | distinct canonical numerals denote distinct numbers, so an index segment names one element |
| JsValue.PropPut | src/PlainObjectProvider.ts:29 | a property written to an object is read back, and the object stays an object |
| JsValue.PropPutOther | src/PlainObjectProvider.ts:29 | writing one property leaves every other property as it was |
| JsValue.LookupUpdateDiverge | src/PlainObjectProvider.ts:25-30 | replacing the value at one key path leaves every diverging key path reading as before |
| JsValue.JsonClone | dist/lib/DataBinding.js:137 | `JSON.parse(JSON.stringify(v))` keeps arrays as arrays of the same length, without their non-index properties |
| JsValue.JsonCloneOfPlainData | dist/lib/DataBinding.js:137 | the JSON clone of plain data (no undefined anywhere) is that data |
| LodashPath.IsIndexMeaning | src/utils-lodash.ts:12-22 | `isIndex` holds iff the bound is non-zero and the value spells, as a number or as its decimal numeral, a natural number below the bound (default `MAX_SAFE_INTEGER`) |
| LodashPath.IsIndexNumberOrString | src/utils-lodash.ts:17-22 | a number and its decimal string are indices alike |
| LodashPath.IsIndexRejects | src/utils-lodash.ts:15-21 | a zero bound rejects everything, and `"01"` is never an index |
| LodashPath.IsIndexOfKey | src/utils-lodash.ts:12-22 | under the default bound, a string segment is an index iff it is an array-index key below 2^53 - 1 |
| LodashPath.StringToPath | src/utils-lodash.ts:42-51 | a path starting with `.` reads `""` as its first segment |
| LodashPath.StringToPathRender | src/utils-lodash.ts:29-51 | a path written from names, bracketed numerals and quoted keys reads back as exactly their segments |
| LodashPath.ScanIndex | src/utils-lodash.ts:30 | a bracketed numeral reads as its digit string, not as a number |
| LodashPath.ScanQuoted | src/utils-lodash.ts:30-33 | a quoted bracket group reads as its contents with the backslash escapes removed |
| LodashPath.UnescapeEscape | src/utils-lodash.ts:33 | the escape removal undoes escaping of backslashes and the quote |
| LodashPath.DottedPath | src/utils-lodash.ts:42-51 | `"A.B.C"` reads as `["A","B","C"]` |
| LodashPath.IndexedPath | src/utils-lodash.ts:42-51 | `"A.B[0].C"` reads as `["A","B","0","C"]` |
| LodashPath.EmptyNames | src/utils-lodash.ts:42-51 | leading, trailing and doubled dots read as empty segments |
| LodashPath.KeyWithoutDelimiters | src/utils-lodash.ts:65-76 | a string with neither `.` nor `[` is one key |
| LodashPath.DottedIsKeyOnlyIfOwned | src/utils-lodash.ts:65-76 | a string containing a dot is a key iff the given object has it as a key |
| LodashPath.IsKeyOfNonStrings | src/utils-lodash.ts:65-76 | arrays are never keys; numbers, booleans, null and undefined always are |
| PathUtils.CastWrittenPath | src/utils.ts:6-11 | a dotted path string casts to the keys of the steps it was written from |
| PathUtils.CastPlainName | src/utils.ts:6-11 | a name without `.` or `[` casts to itself alone |
| PathUtils.FollowRefMeaning | src/utils.ts:12-15 | undefined and non-references pass unchanged, null throws, and a reference resolves to `baseGet` of its `value` against the root |
| PathUtils.BaseGetEmpty | src/utils.ts:16-25 | the empty path reads as undefined, even at the root |
| PathUtils.BaseGetRefFree | src/utils.ts:16-25 | without references, `baseGet` of a non-empty path is the plain nested lookup |
| PathUtils.NullishStops | src/utils.ts:20-24 | a null reached before the path is used up reads as undefined, and a null at the end is the answer |
| PathUtils.RefsOnTheWay | src/utils.ts:20-22 | a reference met on the way is resolved against the root, while a reference that is the final value is returned as it is |
| PathUtils.BaseGetFuel | src/utils.ts:12-25 | more fuel never changes an answer that did not run out of fuel |
| PathUtils.Intermediate | src/utils.ts:39-47 | without a customizer the intermediate is an object, and an existing object intermediate is kept |
| PathUtils.BaseSet | src/utils.ts:26-29 | a non-object target is returned untouched, and an object target stays an object |
| PathUtils.BaseSetReads | src/utils.ts:26-53 | after `baseSet` along a non-empty path, the nested lookup of the path reads the value, and the call returns it |
| PathUtils.BaseSetFrame | src/utils.ts:26-53 | every key path that parts from the written one reads as before |
| PathUtils.BaseSetCreates | src/utils.ts:39-47 | a missing or primitive intermediate becomes `[]` exactly when the next segment is an index, else `{}`, and an existing object is kept |
| PathUtils.BaseSetCustomizerWins | src/utils.ts:39-47 | a customizer answer other than undefined replaces the existing value, and a primitive answer swallows the rest of the write |
| PathUtils.SetAlongPrimitive | src/utils.ts:36-51 | writing through a primitive changes nothing and returns undefined |
| PathUtils.BaseSetBuilds | src/utils.ts:26-53 | writing `a[0].b` into `{}` builds `{a: [{b: 1}]}` |
| ObjectProvider.JoinSplit | src/PlainObjectProvider.ts:44-69 | joining the parts of a path with dots gives the path back |
| ObjectProvider.SplitJoin | src/PlainObjectProvider.ts:44-69 | splitting dot-free parts joined with dots gives the parts back |
| ObjectProvider.LastDot | src/PlainObjectProvider.ts:34 | the last-dot position holds a dot with no dot after it, and its absence means there is no dot |
| ObjectProvider.GetPropertyMeaning | src/PlainObjectProvider.ts:38-41 | the property is dot-free, and the path is the parent path, a dot and the property, or the property alone |
| ObjectProvider.GetParent | src/PlainObjectProvider.ts:32-36 | without a path only the plain adapter resolves a parent (the source); the others throw |
| ObjectProvider.NoDotParentIsSource | src/PlainObjectProvider.ts:34-35 | a path without a dot has the source itself as parent |
| ObjectProvider.GetValue | src/PlainObjectProvider.ts:17-23 | a located read value is what the source holds at that place |
| ObjectProvider.GetWithoutPath | src/PlainObjectProvider.ts:17-36 | without a path the plain adapter reads the source itself, and the embedded and mixin binders throw |
| ObjectProvider.StringToRefShape | src/PlainObjectProvider.ts:43-71 | a walk ending at a key path ends at the consumed parts, with an object at every level above |
| ObjectProvider.StringToRefStable | src/PlainObjectProvider.ts:43-71 | where every consumed part already leads to a value, the walk changes nothing |
| ObjectProvider.FreshWalk | src/PlainObjectProvider.ts:63-70 | from `{}` the creating walk builds the nest of the parts it consumes |
| ObjectProvider.ReadCreates | src/PlainObjectProvider.ts:63-70 | reading `A.B.C` from `{}` answers undefined but leaves `{A: {B: {}}}` behind |
| ObjectProvider.SetThenGet | src/PlainObjectProvider.ts:17-30 | `setValue` then `getValue` at the same path reads the value written whenever the parent resolves to an object |
| ObjectProvider.SetValueFrame | src/PlainObjectProvider.ts:25-30 | `setValue` changes only the final property of the resolved parent |
| ObjectProvider.ReadIsStable | src/PlainObjectProvider.ts:17-23 | a second read finds what the first created and answers the same |
| ObjectProvider.BracketsAreNames | src/PlainObjectProvider.ts:44 | brackets are ordinary characters to the dotted adapters |
| ObjectProvider.StringToRefOfNonObject | src/PlainObjectProvider.ts:63-64 | a walk from a value that is not an object changes nothing |
| ObjectProvider.ProviderKeepsNonObjects | src/PlainObjectProvider.ts:17-30 | reads and writes through a non-object source leave it as it was |
| ObjectProvider.DetachedChangesNothing | src/PlainObjectProvider.ts:63-70 | a walk that ends on an object created over a primitive left the source unchanged |
| ObjectProvider.CreatingNeverMisses | src/PlainObjectProvider.ts:63-70 | the creating walk never ends at a missing parent |
| ObjectProvider.MixinReadCreatesLast | src/BindToMixin.ts:70-81 | the mixin's walk creates nothing when an earlier intermediate is missing, and creates only the last one once the others exist |
| ObjectProvider.MissingChangesNothing | src/BindToMixin.ts:70-81 | a missing parent in the mixin's walk leaves the source untouched |
| ObjectProvider.DeepPathOverEmpty | src/BindToMixin.ts:49-81 | on `{}` with a three-part path, the mixin loses the write and reads undefined, while the other adapters read back the value written |
| Store.Get | dist/lib/DataBinding.js:37-40 | a read through an anchor in the world answers what the world holds where it points, and a read through a captured value changes nothing |
| Store.Set | dist/lib/DataBinding.js:52 | a write through a captured source leaves the world unchanged |
| Store.SetThenGetInWorld | dist/lib/DataBinding.js:36-57 | a write through an anchor in the world is read back through it |
| Store.SetFrame | dist/lib/DataBinding.js:52 | a write through one anchor leaves every diverging world path untouched |
| Store.GetFrame | dist/lib/DataBinding.js:37-40 | so does a read |
| Store.GetIsStable | dist/lib/DataBinding.js:37-40 | reading twice answers as reading once |
| Store.RemoveInPlace | dist/lib/DataBinding.js:114-124 | cutting an element out of an array in the world leaves it one shorter, lacking exactly one copy |
| Store.ItemAnchor | dist/lib/DataBinding.js:90-101 | an item lives in the world exactly when its array does |
| Store.ItemAnchorHolds | dist/lib/DataBinding.js:90-101 | the item's anchor holds its element |
| JsArray.StartIndex | dist/lib/DataBinding.js:129 | `splice` counts a negative start back from the end and clamps it to the array |
| JsArray.DeleteCount | dist/lib/DataBinding.js:129 | `splice` clamps the delete count to what lies after the start |
| JsArray.SplicePlaces | dist/lib/DataBinding.js:129 | `splice` removes the clamped run from the clamped start; the elements before the start keep their places, the inserted ones follow in order, and the elements after the run follow them shifted by the difference in length |
| JsArray.SpliceConserves | dist/lib/DataBinding.js:129 | what remains plus what was removed is what was there plus what was inserted |
| JsArray.SpliceUndo | dist/lib/DataBinding.js:129 | splicing the removed run back restores the array |
| JsArray.SpliceIfTruthy | src/DataBinding.ts:185-189 | the bound `splice` removes the same run whatever its extra argument; a truthy argument lands at the clamped start, one element longer than the rest, while a falsy one is not inserted and the array only loses the run |
| JsArray.FalsyIsNotInserted | src/DataBinding.ts:185-191 | a falsy element handed to the bound `splice` is not inserted |
| JsArray.IndexOf | dist/lib/DataBinding.js:118 | `indexOf` answers the first position of the item, or -1 iff it is absent |
| JsArray.RemoveFirst | dist/lib/DataBinding.js:114-124 | removal drops exactly the first occurrence, and does nothing iff the item is absent |
| JsArray.RemoveItem | src/DataBinding.ts:176-184 | removal from an array is `RemoveFirst`; of the other values only a string searched without a hit survives |
| JsArray.MoveItemPlaces | src/DataBinding.ts:192-194 | the corrected move is a permutation that puts the moved element at the clamped target and keeps the others in order |
| JsArray.MoveInPlace | src/DataBinding.ts:192-194 | moving an element onto its own position: the corrected move changes nothing; the move as written changes nothing for a truthy element and deletes a falsy one |
| JsArray.MoveAlwaysInserting | dist/lib/DataBinding.js:138 | the native `splice` move on the clone is the corrected move, and past the end it inserts undefined |
| JsArray.MoveAsWrittenLosesFalsy | dist/lib/DataBinding.js:246-257 | the bound move agrees with the corrected one iff the moved element is truthy, and otherwise loses it |
| JsArray.MoveZeroLost | src/DataBinding.ts:185-194 | moving `0` to the back of `[0, 1]` loses it as written, and gives `[1, 0]` as intended |
| JsArray.MoveRotates | src/DataBinding.ts:192-194 | two successive moves rotate three items |
| JsArray.MoveAsWrittenRotates | src/DataBinding.ts:192-194 | the bound move rotates truthy items the same way |
| Converters.Convert | dist/lib/DataBinding.js:354-371 | a conversion succeeds iff the (inner) converter has the function, and a doubly curried converter overflows the stack |
| Converters.CurryOrPass | src/Binder.ts:8 | an undefined parameter passes the converter unchanged, and a defined one curries it, which throws without a converter |
| Converters.CurryAppendsParameter | dist/lib/DataBinding.js:359-369 | the curried converter calls the user's function with the parameter appended, where the bare one passes undefined |
| Converters.CurryUndefinedIsBare | dist/lib/DataBinding.js:359-369 | currying an undefined parameter changes nothing |
| Converters.CurriedRoundTrip | src/DataBinding.ts:336-358 | when the user's functions are inverse for the parameter, the curried converter parses back what it formats |
| Converters.DoubleCurryOverflows | dist/lib/DataBinding.js:359-369 | a curried converter curried again cannot be called |
| Notifiers.Invoke | src/Binder.ts:47-54 | an empty slot records nothing, a non-function throws, and a setter records one event |
| Notifiers.StateKeySetterPublishes | src/Binder.ts:47-54 | the setter submits `{[key]: value}`, or the current `state[key]` when called without a value |
| Notifiers.LiteralKeySetterMisses | src/BindToMixin.ts:186-188 | the mixin's setter as written never puts its own key into the patch |
| Notifiers.LiteralKeySetterExample | src/BindToMixin.ts:186-188 | for `"data"` it submits `{key: state.data}` where `{data: state.data}` was meant |
| Bindings.Root | dist/lib/DataBinding.js:22-28 | the root has no parent and is store-anchored |
| Bindings.RootFollowsParent | dist/lib/DataBinding.js:22-35 | a node with a parent has that parent's root, a node without one is its own root, and the root is idempotent |
| Bindings.WithNotify | dist/lib/DataBinding.js:301-310 | setting `notifyChange` on a child writes the parent's slot, and nothing else changes |
| Bindings.ChildPathParts | dist/lib/DataBinding.js:321-330 | a child addresses its parent's parts followed by its own, for value and array children alike |
| Bindings.ChildWithoutRelativePath | dist/lib/DataBinding.js:192-203 | without a relative path an array child addresses its parent's path, and a value child an empty name under it |
| Bindings.NestedPathsCompose | dist/lib/DataBinding.js:321-330 | binding `b` below a binding of `a` addresses what binding `a.b` does |
| Bindings.Value | dist/lib/DataBinding.js:36-41 | reading notifies nobody; the answer is the formatted value the world holds where the read located it; without a converter a read that resolves always succeeds and answers the raw value, and a failing converter makes the read fail |
| Bindings.SetNodeValue | dist/lib/DataBinding.js:42-57 | a write notifies at most once and, when it notifies nobody through a set slot, stores nothing |
| Bindings.SetterSkipsUnchanged | dist/lib/DataBinding.js:43-48 | an unchanged value is neither stored nor announced |
| Bindings.SetterNotifiesOnce | dist/lib/DataBinding.js:42-57 | a changed value is stored, then announced by exactly one argumentless `notifyChange` |
| Bindings.PathlessRootPublishes | dist/lib/DataBinding.js:49-51 | a pathless root stores nothing and hands the value to `notifyChange` |
| Bindings.RootRewritesUndefined | dist/lib/DataBinding.js:43-56 | a root rewrites undefined over undefined and notifies, while a child skips it |
| Bindings.SetThenValue | dist/lib/DataBinding.js:36-57 | without a converter, the value written is the value read back when the parent resolves to an object |
| Bindings.ReadItems | dist/lib/DataBinding.js:204-209 | a parent-relative array node with a converter answers the formatted array, outside the world; otherwise the array is read raw; the read fails only when the raw read or the converter fails |
| Bindings.Items | dist/lib/DataBinding.js:90-101 | no items for an undefined array, one per element of an array, and a TypeError for anything else |
| Bindings.ItemsBelongToArray | dist/lib/DataBinding.js:215-218 | every item has the array node as parent and its root, and reads its element |
| Bindings.ReadOrCreate | dist/lib/DataBinding.js:102-113 | an existing array is the array read, and a missing one is created first |
| Bindings.AddAppends | dist/lib/DataBinding.js:102-113 | `add` appends exactly the item (or `{}`) in the world and notifies once |
| Bindings.AddCreatesArray | dist/lib/DataBinding.js:102-113 | `add()` on `{data: {}}` creates `Hobbies` holding one `{}` and publishes it |
| Bindings.Remove | dist/lib/DataBinding.js:114-124 | removing an absent item, or from an undefined array, changes nothing and notifies nobody |
| Bindings.RemoveDeletesOne | dist/lib/DataBinding.js:235-245 | removing a present item deletes exactly one occurrence in the world and notifies once |
| Bindings.SpliceItems | dist/lib/DataBinding.js:246-252 | `splice` works in place, answers the removed elements and notifies nobody |
| Bindings.MoveRootItems | dist/lib/DataBinding.js:132-140 | the store-anchored `move` notifies nobody |
| Bindings.MoveRootMovesPlainData | dist/lib/DataBinding.js:132-140 | on plain data the stored copy is the moved array |
| Bindings.MoveChildItems | dist/lib/DataBinding.js:246-257 | the parent-relative `move` as written notifies at most once and needs an array |
| Bindings.MoveChildLosesFalsy | dist/lib/DataBinding.js:246-257 | the `move` as written keeps the array a permutation when the moved element is truthy, and loses exactly that element when it is falsy; it notifies once |
| Bindings.MoveChildItemsCorrected | dist/lib/DataBinding.js:253-257 | the corrected parent-relative `move` notifies at most once and needs an array |
| Bindings.MoveChildPermutes | dist/lib/DataBinding.js:253-257 | the corrected parent-relative `move` permutes the array in place and notifies once |
| EmbeddedBindings.WithNotify | src/DataBinding.ts:273-279 | setting `notifyChange` on a child writes the parent's slot |
| EmbeddedBindings.ChildPathParts | src/DataBinding.ts:288-291 | a child's path is its relative path under a pathless parent, and otherwise the parent's parts followed by its own |
| EmbeddedBindings.UndefinedRelativePath | src/DataBinding.ts:220-223 | an undefined relative path joins as an empty property name |
| EmbeddedBindings.Value | src/DataBinding.ts:294-298 | a root without a path answers its formatted source object and leaves the world alone; a child whose path is undefined cannot be read; otherwise the answer is the formatted value the world holds where the binder located it |
| EmbeddedBindings.ValueWithoutPath | src/DataBinding.ts:123-127 | a pathless root answers its source object, formatted, and a pathless child throws |
| EmbeddedBindings.SetNodeValue | src/DataBinding.ts:129-144 | a write notifies at most once |
| EmbeddedBindings.SetterSkipsEqual | src/DataBinding.ts:129-136 | an equal value is neither stored nor announced |
| EmbeddedBindings.SetterNotifiesOnce | src/DataBinding.ts:300-311 | a different value is stored, then announced by exactly one argumentless call |
| EmbeddedBindings.PathlessSetterHandsOver | src/DataBinding.ts:138-143 | without a path the parsed value goes to `notifyChange` as its argument and nothing is stored |
| EmbeddedBindings.SetThenValue | src/DataBinding.ts:123-144 | without a converter, the value written is read back when the parent resolves to an object |
| EmbeddedBindings.Items | src/DataBinding.ts:225-233 | items exist iff the array is undefined or an array |
| EmbeddedBindings.ItemsFollowElements | src/DataBinding.ts:156-163 | no items for an undefined array, else one per element in order, each reading its element |
| EmbeddedBindings.ReadOrCreate | src/DataBinding.ts:165-169 | an existing array is the array read, and a missing one is stored as `[]` first |
| EmbeddedBindings.Add | src/DataBinding.ts:165-174 | a successful `add` worked on an array and notified at most once |
| EmbeddedBindings.AddAppends | src/DataBinding.ts:235-245 | `add` appends exactly the item (or `{}`) in the world and notifies once |
| EmbeddedBindings.AddWithoutPathThrows | src/DataBinding.ts:59-64 | a pathless array node cannot create its missing array |
| EmbeddedBindings.Remove | src/DataBinding.ts:176-184 | removing an absent item, or from an undefined array, changes nothing |
| EmbeddedBindings.RemoveDeletesOne | src/DataBinding.ts:247-255 | removing a present item deletes exactly one occurrence and notifies once |
| EmbeddedBindings.SpliceItems | src/DataBinding.ts:185-191 | `splice` works in place, answers the removed elements and notifies nobody |
| EmbeddedBindings.MoveItems | src/DataBinding.ts:185-194 | `move` as written notifies nobody and needs an array |
| EmbeddedBindings.MoveItemsLosesFalsy | src/DataBinding.ts:185-194 | `move` as written places a truthy element as intended, and deletes a falsy one, leaving the others in order |
| EmbeddedBindings.MoveItemsCorrected | src/DataBinding.ts:192-194 | the corrected `move` notifies nobody and needs an array |
| EmbeddedBindings.MoveItemsPermutes | src/DataBinding.ts:192-194 | the corrected `move` places the element from `x` at `y` and keeps every element |
| EmbeddedBinder.BindToState | src/DataBinding.ts:438-446 | a state binding exists iff the state is not nullish and the converter can be curried, and it reads `state[key]` through the key's setter |
| EmbeddedBinder.BindArrayToState | src/DataBinding.ts:505-512 | the same for an array node, without a converter |
| EmbeddedBinder.BindTo | src/DataBinding.ts:488-490 | `bindTo` always builds a child sharing its parent's source and `notifyChange` |
| EmbeddedBinder.BindArrayTo | src/DataBinding.ts:528-530 | `bindArrayTo` builds an array child addressing what `bindTo` would |
| EmbeddedBinder.StateBindingPublishesKey | src/DataBinding.ts:398-405 | a write through a state binding publishes the key's new value or nothing |
| EmbeddedBinder.BindToBelowState | src/DataBinding.ts:488-490 | binding `b` below a state binding reads and writes as a state binding of the joined path |
| MixinBindings.PersonPaths | src/BindToMixin.ts:158-161 | the person bindings of the tests address `Person`, `Person.FirstName` and `Person.Contact.Email` |
| MixinBindings.ChildPathParts | src/BindToMixin.ts:158-161 | a child addresses its parent's parts followed by its own |
| MixinBindings.Value | src/BindToMixin.ts:95-97 | a pathless root answers its source object without touching the world; a child without a path throws; otherwise the read succeeds iff the binder's does, and a located answer is what the world holds at that location |
| MixinBindings.SetNodeValue | src/BindToMixin.ts:98-107 | a pathless root ignores writes, and every write notifies at most once |
| MixinBindings.SetterNotifiesOnChange | src/BindToMixin.ts:98-107 | an equal value is neither stored nor announced, and a different one is stored and announced once |
| MixinBindings.SetThenValue | src/BindToMixin.ts:95-107 | the value written is read back when the parent resolves to an object |
| MixinBindings.DeepPathOverEmptyIsLost | src/BindToMixin.ts:70-81 | a three-part path over an empty object loses the write, notifies nobody and reads undefined |
| MixinBindings.ReadArray | src/BindToMixin.ts:62-65 | a pathless array node throws, because the binder needs a path |
| MixinBindings.Items | src/BindToMixin.ts:118-124 | items exist iff the array is undefined or an array |
| MixinBindings.ItemsFollowElements | src/BindToMixin.ts:118-124 | no items for an undefined array, else one per element in order, each reading its element |
| MixinBindings.Add | src/BindToMixin.ts:126-133 | `add` on a missing array does nothing and notifies nobody |
| MixinBindings.AddAppends | src/BindToMixin.ts:126-133 | `add` on an array appends exactly the item (or `{}`) and notifies once |
| MixinBindings.Remove | src/BindToMixin.ts:135-143 | removing an absent item, or from a missing array, changes nothing |
| MixinBindings.RemoveDeletesOne | src/BindToMixin.ts:135-143 | removing a present item deletes exactly one occurrence and notifies once |
| MixinBindings.BindToState | src/BindToMixin.ts:219-226 | a state binding exists iff the state is not nullish; it reads `state[key]` and notifies through the mixin's setter, which publishes under the literal name `key` |
| MixinBindings.BindArrayToState | src/BindToMixin.ts:283-290 | the same for an array node, with the same literal-name setter |
| MixinBindings.BindToStateCorrected | src/BindToMixin.ts:219-226 | the corrected state binding reads `state[key]` and notifies through the setter that publishes under the key |
| MixinBindings.BindArrayToStateCorrected | src/BindToMixin.ts:283-290 | the same corrected setter for an array node |
| MixinBindings.BindTo | src/BindToMixin.ts:266-268 | `bindTo` builds a child sharing its parent's source and `notifyChange` |
| MixinBindings.BindToStateMisses | src/BindToMixin.ts:186-188 | a changed value set through a state binding as written is announced by one `setState` whose patch holds only `key`, never the binding's own key |
| MixinBindings.BindToStatePublishes | src/BindToMixin.ts:219-226 | through the corrected state binding, a changed value is published under its key by one `setState` |
| Binders.BindToAsWritten | src/Binder.ts:7-10 | as written, a data parent gets a node with no converter whose `notifyChange` slot holds the converter object |
| Binders.BindArrayToAsWritten | src/Binder.ts:13-16 | the same slip in `bindArrayTo` |
| Binders.BindToAsWrittenSkipsFormat | src/Binder.ts:9 | as written, a binding over data shows the raw value, never formatted |
| Binders.BindToAsWrittenSetThrows | src/Binder.ts:9 | as written, storing a changed value then calls the converter object and throws |
| Binders.BindToAsWrittenExample | src/Binder.ts:9 | `bindTo(person, "age", converter)` then setting 2 throws |
| Binders.BindTo | src/Binder.ts:7-10 | corrected: a child of a value binding shares its source and `notifyChange`, and data gets a new root without `notifyChange`; the converter is curried iff there is a parameter |
| Binders.BindArrayTo | src/Binder.ts:13-16 | corrected: the same dispatch for array nodes |
| Binders.BindToFormats | src/Binder.ts:9 | the corrected binding over data shows the stored value through the curried converter |
| Binders.BindToSetStores | src/Binder.ts:9 | the corrected binding over data parses, stores and notifies nobody |
| Binders.BindToExample | src/Binder.ts:9 | the same `bindTo(person, "age", converter)` stores 2 quietly |
| Binders.BindToState | src/Binder.ts:87-96 | a state binding exists iff the state is not nullish and the converter can be curried, and it is a root reading `state[key]` through the key's setter |
| Binders.BindArrayToState | src/Binder.ts:155-163 | the same for an array node, without a converter |
| Binders.StateBindingPublishesKey | src/Binder.ts:47-54 | a write through a state binding publishes the key's new value or nothing |
| Binders.BindToBelowState | src/Binder.ts:138-140 | binding `b` below a state binding of `a` reads as a state binding of `a.b`, and writes alike except where only the root rewrites undefined |

## Left out

- I/O and React: `component.setState` is recorded as an event and never performed. `extractPrototype`, the `requestChange` closures (they only call the `value` setter) and the `subscribe` methods are not modelled.
- The Mobx and freezer-js providers and binders wrap observable stores whose semantics are outside this code.
- The concrete converters of the tests rely on dates and regular expressions. Converter functions are an abstract parameter instead.
- Floating-point numbers, symbols, functions as values, prototype properties, array holes and the `length` property are not modelled. Numbers are integers.
- Store.Set: a write through a captured anchor is dropped, since the captured value lies outside the world. The item nodes of a parent-relative array with a converter are captured, because the formatted array is not in the world. In the code, `setValue` mutates the formatted object, so the same item binding then reads the new value, and the change reaches the component state wherever the converter's output shares objects with it. The model's item reads back its old value instead. `add`, `remove` and `splice` on such a formatted array (`ReplaceAt` with no location) are dropped alike, where the code pushes into or splices the formatted array.
- JsValue.Prop: a string has no index properties here, so `baseGet({a: "xyz"}, ["a", "0"])` reads undefined where the code reads `"x"`, and a provider parent that is a string reads alike. Only a reference's `value` is read by character (`PathUtils.RefPath`). Strings are leaves of the data the bindings hold.
- The 2^32 - 1 bound on array indices is not modelled. Every canonical numeral is an array index.
- Object identity and aliasing are replaced by value equality. Two equal objects in different places are indistinguishable to `indexOf` and `===` here.
- Exceptions: a throw discards the whole step. A real exception would keep the changes made before it, for example intermediates created by a read that then throws in a converter.
- PathUtils.BaseGet: results are stated only when the fuel suffices. A reference cycle answers `OutOfFuel` instead of overflowing the stack.
- Binders.BindTo requires a well-formed parent. An array binding handed to `bindTo` fails the `instanceof` test and becomes plain data; this is not modelled.
- EmbeddedBinder.BindTo takes only binding nodes as parents, as the `Binder` class of the same file assumes.
- MixinBindings.BindTo takes only binding nodes as parents.

## Findings

| source | as written | input that shows it | evidently intended | confidence | as-written member | corrected member |
|---|---|---|---|---|---|---|
| src/BindToMixin.ts:186-188 | `setState({key: component.state[key]})` uses the literal property name `key` | `createStateKeySetter(this, "data")` called with state `{data: d}` submits `{key: d}` | `{[key]: component.state[key]}` | high (not executed) | Notifiers.LiteralKeySetterMisses | Notifiers.StateKeySetterPublishes |
| src/DataBinding.ts:185-194 | `move` calls the binding's own `splice`, which inserts the taken element only when it is truthy | `move(0, 1)` on `[0, 1]` gives `[1]` | the element is moved, giving `[1, 0]` | high (not executed) | JsArray.MoveAsWrittenLosesFalsy | JsArray.MoveItemPlaces |
| src/Binder.ts:9 | over plain data, `new PathObjectBinding(parent, provider, path, converter)` puts the converter in the `notifyChange` slot | `bindTo({age: 1}, "age", converter).value = 2` throws a TypeError after storing | the converter as the fifth argument | high (not executed) | Binders.BindToAsWrittenSetThrows | Binders.BindToSetStores |
