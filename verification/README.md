# Mock record store

This project models the in-memory mock database of `mock-database.js`, which the
API's test suite uses in place of Mongoose. It has three parts:

- **`Database`** holds one model entry per model name. Each entry keeps a base
  `records` map, built once by `addModel` and never written afterwards. It also
  keeps two overlays, `updated` and `removed`. The callbacks bound into every
  record fill the overlays, and `reset` empties them.
- **`Record`** is a record value with two callbacks bound to its model entry.
  `save()` deletes `undefined` properties and then calls the update callback.
  `remove()` calls the remove callback. `clone(retain)` deep-copies the record
  and drops the callbacks unless `retain` holds.
- **`deepClone`** and **`deepFreeze`** are the recursive helpers over arrays and
  objects.

The model has two modules:

- `JsValues` (`values.dfy`) models JavaScript values as a datatype `Value`. It
  holds `deepClone` and `Record.removeUndefined`, and the string a value
  becomes when it is used as a property key (`KeyOf`, `Decimal`). Both
  transforms mishandle `null` as written (see "## Findings"). Each comes in
  two versions: `DeepCloneAsWritten` and `RemoveUndefinedAsWritten` are the
  code as written, and `DeepClone` and `RemoveUndefined` are the corrected
  versions. The rest of the model, and so the whole store, is built on the
  corrected versions.
- `MockDatabase` (`mock_database.dfy`) holds the following:
  - the `Record` datatype; its `owner` stands for both bound callbacks, which
    close over the same model entry;
  - the `ModelEntry` class (the `dbModel` object); its methods `UpdateRecord`
    and `RemoveRecord` are the bodies of the callbacks made by
    `getRecordUpdateFn` and `getRemoveFn`;
  - the `Database` class;
  - two pure functions: `Resolve` is the layered lookup and `Visible` is the
    merged view that enumeration returns.

A record's id is its own `id` property, converted to a property key, exactly as
the source uses `record.id`. When the property is absent the id is
`"undefined"`. Thrown errors become the `Err` variant of `Result`. Lookup
promises become `Promise` values, already settled as `Resolved` or `Rejected`.

Nothing writes a model's `records` after `AddModel`: `Save`, `Remove`, `Reset`
and the callbacks modify only the `updated` and `removed` fields. This is how
the model captures the protection that `deepFreeze` gives in the source.

As written, `addModel` with a name that is already registered silently
replaces the old entry (mock-database.js:67); it does not fail. Records made
for the old entry keep their callbacks into it.

## Model

| member | source | states |
|---|---|---|
| `JsValues.DeepClone` | mock-database.js:223-238 | copying arrays element-wise and objects key-wise gives back a value equal to the input at every depth |
| `JsValues.DeepCloneAsWritten` | mock-database.js:228-235 | the copy as written, where `null` takes the object branch; on values without `null` it equals the input |
| `JsValues.DeepCloneAsWrittenTurnsNullIntoObject` | mock-database.js:228-235 | as written, `{note: null}` is copied to `{note: {}}`, while the corrected copy keeps `null` |
| `JsValues.DeepCloneAsWrittenChangesNull` | mock-database.js:228-235 | as written, the copy equals its input exactly when the input holds no `null` |
| `JsValues.RemoveUndefined` | mock-database.js:165-175 | on an object, exactly the properties that were not `undefined` are kept; arrays keep their length; scalars are unchanged |
| `JsValues.RemoveUndefinedStrips` | mock-database.js:165-175 | afterwards, no object at any depth has a property holding `undefined` |
| `JsValues.RemoveUndefinedKeepsDefined` | mock-database.js:165-175 | a value with no `undefined` property anywhere is left exactly as it was |
| `JsValues.RemoveUndefinedIdempotent` | mock-database.js:165-175 | stripping a second time changes nothing |
| `JsValues.RemoveUndefinedElem` | mock-database.js:165-175 | an array element is stripped in place: element `i` of the result is element `i` stripped, an `undefined` element stays `undefined`, and an element without `undefined` properties is kept as it was |
| `JsValues.RemoveUndefinedAt` | mock-database.js:169-172 | a property disappears exactly when it held `undefined`; a kept property holds its stripped original, or the original itself when that has no `undefined` inside |
| `JsValues.RemoveUndefinedAsWritten` | mock-database.js:165-175 | the search as written, where a `null` property throws; on values without `null` it agrees with `RemoveUndefined` |
| `JsValues.RemoveUndefinedAsWrittenThrowsOnNull` | mock-database.js:165-175 | as written, stripping `{note: null}` throws, while the corrected search returns it unchanged |
| `JsValues.RemoveUndefinedAsWrittenThrowsExactlyOnNull` | mock-database.js:165-175 | as written, the search throws exactly when the value holds a `null` somewhere |
| `JsValues.DecimalInjective` | mock-database.js:61 | different item positions print as different decimal strings |
| `JsValues.Decimal` | mock-database.js:61 | the printed index is non-empty, has two or more digits exactly from 10 on, and ends in the digit of `idx % 10` |
| `JsValues.KeyOfNumInjective` | mock-database.js:64 | two numeric ids file records under the same key exactly when they are equal; a non-negative numeric id and its decimal string file under the same key |
| `JsValues.SignedSign` | mock-database.js:64 | a printed integer starts with `-` exactly when it is negative, followed by the digits of its magnitude |
| `JsValues.SignedDecimalInjective` | mock-database.js:64 | different integers, negative ones included, print differently |
| `JsValues.KeyOfRemoveUndefined` | mock-database.js:165-175 | stripping `undefined` properties from an id value never changes the key it gives |
| `MockDatabase.Record.Clone` | mock-database.js:198-206 | the clone has the same properties; it keeps the callbacks exactly when asked to and when there are callbacks to keep |
| `MockDatabase.SaveKeepsId` | mock-database.js:180-183 | the stripped record that `save()` hands to the update callback has the same id as the record before the strip, even when that id was `undefined` |
| `MockDatabase.Record.Save` | mock-database.js:180-183 | the saved record is this record with `undefined` properties removed, filed under the same id; without callbacks the call fails; with callbacks the update callback's outcome and overlay change follow |
| `MockDatabase.Record.Remove` | mock-database.js:188-190 | without callbacks the call fails; otherwise the record is entered in its model's `removed` overlay under its id |
| `MockDatabase.ModelEntry.constructor` | mock-database.js:57 | a new model entry has empty base records and empty overlays |
| `MockDatabase.ModelEntry.UpdateRecord` | mock-database.js:27-34 | refuses a record whose id is already removed and changes nothing; otherwise sets `updated[id]` to the record and changes nothing else |
| `MockDatabase.ModelEntry.RemoveRecord` | mock-database.js:41-45 | sets `removed[id]` to the record, whatever was there before |
| `MockDatabase.MockIdInjective` | mock-database.js:61 | two positions in one model never share a mock id |
| `MockDatabase.MockId` | mock-database.js:61 | the template literal's length is the name's length plus the index's digits plus the nine fixed characters |
| `MockDatabase.MockIdParts` | mock-database.js:61 | the id reads `MOCK_`, the model name, `_`, the index in decimal, then `_ID` |
| `MockDatabase.MockIdFresh` | mock-database.js:58-65 | the id of item `n` is none of the ids of items `0..n-1` |
| `MockDatabase.MockIdsCount` | mock-database.js:58-65 | the first `n` items get `n` distinct ids |
| `MockDatabase.Stamp` | mock-database.js:59-63 | a base record has the item's properties plus `id`; the item's own values win; without its own `id` the record's id is `MOCK_<name>_<idx>_ID`; its callbacks belong to its model |
| `MockDatabase.RegisteredStep` | mock-database.js:58-65 | when the last item carries no `id` of its own, registering it adds its record under its mock id |
| `MockDatabase.RegisteredSize` | mock-database.js:58-65 | the `records` map the registration loop builds never holds more records than there are items |
| `MockDatabase.RegisteredUnderOwnId` | mock-database.js:58-65 | in the `records` map the registration loop builds, every record sits under its own id and is bound to its model entry |
| `MockDatabase.StampId` | mock-database.js:59-64 | the base record of an item is filed under the item's own `id` as a property key, or under its mock id when it has none |
| `MockDatabase.RegisteredLast` | mock-database.js:58-65 | registering one more item files its base record under its key, replacing any earlier record there |
| `MockDatabase.RegisteredIds` | mock-database.js:58-65 | the base records are keyed by exactly the keys of the items, whether an item carries its own `id` or gets a mock id |
| `MockDatabase.RegisteredLastWins` | mock-database.js:58-65 | the record under an item's key is that item's base record whenever no later item has the same key: of items sharing a key, the last one wins |
| `MockDatabase.RegisteredKeys` | mock-database.js:56-68 | when no item carries its own id, the base records are keyed by exactly the mock ids of the items: one record per item |
| `MockDatabase.RegisteredContents` | mock-database.js:56-68 | when no item carries its own `id`, the base record under `MOCK_<name>_<i>_ID` is item `i` with that id added, bound to its model |
| `MockDatabase.Visible` | mock-database.js:113-118 | the merged view holds exactly the base and updated ids minus the removed ones, with the updated version preferred |
| `MockDatabase.Resolve` | mock-database.js:89-98 | a removed id is rejected as removed, whatever the other layers hold; a lookup succeeds exactly for the ids in the merged view and yields that record's clone; a rejected id that is not removed is rejected as not found; without `retain` no callbacks survive |
| `MockDatabase.SaveThenLookup` | mock-database.js:92-93 | after a successful update, a lookup of that id yields the saved record, and a lookup of any other id is unaffected |
| `MockDatabase.RemoveThenLookup` | mock-database.js:89-90 | after a removal, that id is rejected as removed, and a lookup of any other id is unaffected |
| `MockDatabase.ResolveAfterReset` | mock-database.js:132-141 | with both overlays empty, a lookup yields the base record, or rejects as not found |
| `MockDatabase.RegisteredAfterReset` | mock-database.js:56-68 | when no item carries its own `id`, after registration and a reset, looking up `MOCK_<name>_<i>_ID` yields item `i` with its id |
| `MockDatabase.VisibleAfterWrites` | mock-database.js:113-118 | after a removal, enumeration lists the same ids minus the removed one; after a save, it lists the saved version |
| `MockDatabase.Database.constructor` | mock-database.js:17-20 | a new database has no models |
| `MockDatabase.Database.AddModel` | mock-database.js:56-68 | installs a fresh entry under the name and leaves the other names alone; its base records are the registered items; its overlays are empty |
| `MockDatabase.Database.GetRecord` | mock-database.js:83-99 | throws exactly for an unregistered model; otherwise a removed id is rejected as removed, any other rejected id is rejected as not found, and a lookup resolves exactly for the ids in the merged view, to that record's clone |
| `MockDatabase.Database.GetAllRecords` | mock-database.js:107-126 | throws for an unregistered model; otherwise returns exactly the base and updated ids minus the removed ones, each with the updated version's properties preferred, and none with callbacks |
| `MockDatabase.Database.Reset` | mock-database.js:132-141 | every model's overlays become empty and its base records stay as they were; afterwards every lookup yields the registered record, or rejects as not found |

## Findings

| source | as written | input that shows it | evidently intended | confidence | as-written member | corrected member |
|---|---|---|---|---|---|---|
| mock-database.js:228-235 | `deepClone` tests `typeof object === 'object'`, which holds for `null`, and copying the properties of `null` gives `{}` | an item `{note: null}` is registered and then looked up: the record comes back as `{note: {}}` | `null` is copied as `null`, like any other scalar; `deepFreeze` (mock-database.js:215-216) must then skip `null` too, or `addModel` throws on such an item | high, not executed | `JsValues.DeepCloneAsWrittenTurnsNullIntoObject` | `JsValues.DeepClone` |
| mock-database.js:165-175 | `removeUndefined` recurses into a `null` property, because `typeof null` is 'object', and `Object.getOwnPropertyNames(null)` throws a TypeError | `save()` of a record holding `{note: null}` throws instead of saving | `null` properties are kept, like any other defined value | high, not executed | `JsValues.RemoveUndefinedAsWrittenThrowsOnNull` | `JsValues.RemoveUndefined` |

## Left out

- The `mongoose.connect` stub in the constructor is not modelled; it only intercepts a foreign library.
- The `sinon.restore()` call in `reset` is not modelled, for the same reason.
- The `findOne` stub in `reset`, which routes `findOne({_id})` to the lookup with callbacks retained, is not modelled. Its effect is `GetRecord(name, id, true)`.
- The `mongoose` model reference kept in each entry is not modelled.
- The `recordType` parameter of `addModel` is left out; the model covers the default `Record` class only.
- `deepFreeze` has no counterpart for values. Its purpose is modelled by the frames: no method after `AddModel` may write `records`.
- `deepFreeze` has the same `null` quirk as the two findings: its filter `typeof object[prop] === 'object'` (mock-database.js:215) lets `null` through, and the recursive call then lists the properties of `null` and throws. As written, this cannot happen, because `deepClone` has already turned every `null` into `{}`. The corrected store keeps `null` in base records, so it also assumes that `deepFreeze` skips `null`; correcting `deepClone` alone would make `addModel` throw on `{note: null}`.
- The prototype copying in `clone` has no counterpart.
- Promises are settled synchronously; the asynchrony is not modelled.
- `save()` stores the handle itself in `updated`, so a later mutation of that handle that is never saved still shows through that overlay. The model stores the value at the time of the save. `remove()` aliases `removed` in the same way.
- `MockDatabase.Stamp`, `MockDatabase.Record.Clone`, `MockDatabase.Record.Save`, `MockDatabase.Resolve`, `MockDatabase.Database.AddModel`, `MockDatabase.Database.GetRecord` and `MockDatabase.Database.GetAllRecords`: on values holding `null`, these model the corrected store, not the source as written. As written, an item `{note: null}` is stored and handed back as `{note: {}}`, and `save()` of a record holding `null` throws a TypeError. The model keeps the `null` and saves normally. The as-written behaviour is stated separately by `DeepCloneAsWritten` and `RemoveUndefinedAsWritten`, and the store is not rebuilt on them.
- Array holes are not distinguished from `undefined` elements. `delete` of an array element at mock-database.js:170 leaves a hole, and JavaScript can tell a hole from an `undefined` element (`i in arr`, `Object.getOwnPropertyNames`). The model's `Undef` stands for both, and `RemoveUndefined` leaves an `undefined` element where the source leaves a hole.
- `removeUndefined` deletes in place. The model returns a new value and the stripped record as `saved`.
- When the as-written search throws, the source has already deleted some properties. That partial deletion is not modelled.
- Payload properties named `updateRecordFn` or `removeRecordFn` would shadow the callbacks in the source, and properties named `save`, `remove` or `clone` would shadow `Record`'s methods after the `Object.assign` at mock-database.js:59-63. The model keeps the callbacks and methods apart from the properties.
- Numbers are integers; floating point is not modelled. JavaScript prints integers from 10^21 upward in exponent form (`String(1e21)` is `"1e+21"`), so for such numeric ids `KeyOf` gives the full decimal digits where the source gives the exponent form.
- Cyclic values are not modelled.
- Error message texts are not modelled, only which error occurs.
- The truthiness test on `removed[id]`, `updated[id]` and `records[id]` is modelled as key membership. So is the `in` test of the update callback. Keys inherited from `Object.prototype` are not modelled.
- `MockDatabase.Database.GetAllRecords`: returns a map from id to exported record instead of an array, so the array's order is not stated.
