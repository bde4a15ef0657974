# common-rest-mongo access-control core, in Dafny

This project models the part of the generic REST/Mongo CRUD library that decides what goes
into the store and what comes back out:

- the per-field access policy of a resource (`RestKeyConfig`, `RestConfig`): flags with
  defaults, readability, and the primary key;
- the allow-list build of the document to save (`convertSaveData`), in create mode and in
  update mode, with auto-increment fields drawn from a persistent counter;
- the readable projection of stored documents (`_.pickBy` with `isReadable`);
- the single-document update merge (`Object.assign`);
- the id extraction of batch delete and the operations of batch update;
- the registry of configured resources (`ResourceFactory`) and its sequence generator
  (`getAutoValue`);
- the error classes with their status codes, and what a handler's `catch` block does with
  them;
- the demo configuration for the `asset` resource, with scenario lemmas about it.

Modules, one per file:

| file | module | models |
|---|---|---|
| results.dfy | `Results` | `Option` and `Result` |
| values.dfy | `Values` | JSON-like JavaScript values and plain-object documents |
| errors.dfy | `Errors` | `RestError` and its subclasses, the catch-block response |
| rest_config.dfy | `RestConfig` | `RestKeyConfig`, `RestConfig`, `isReadable`, `primaryKey` |
| resource_factory.dfy | `ResourceFactory` | the registry, the counter store, `getAutoValue` |
| rest_api.dfy | `RestApi` | `convertSaveData`, projection, merge, batch plans, route handlers |
| sample_config.dfy | `SampleConfig` | the `asset` configuration and scenarios over it |

Storage is outside the model:
- A handler takes the answer of `findOne` as a function parameter. It returns the document
  it would save, or the plan it would hand to the store (`deleteMany` ids, `bulkWrite`
  operations).
- The counter collection is a value, `CounterStore`, threaded through every create. Its
  `online` flag says whether the store answers. When the store does not answer, a counter
  draw fails with `StoreFailure`, a rejection that is not a `RestError` and so goes to
  `next(error)`.

Some behaviour of the code is modelled exactly as written, even where a reader might expect
otherwise:
- In update mode an auto-increment field is governed by its `writable` flag alone: a
  writable auto-increment field takes the caller's value (`UpdateWritesWritableAutoIncrement`).
- Create and update answer with the saved document as is, without the readable projection.
  Only get and list project.
- Batch delete reads the primary key of each body item with `_.property`. A bare id (a
  number, or a string when the key is neither `length` nor an index) yields `undefined`
  and is dropped. Strings are sequences of Unicode scalar values, so a string's `length` and
  index keys count code points rather than JavaScript's UTF-16 code units (see
  `Values.Property` under "Left out").
- `convertSaveData` asks `userData.hasOwnProperty(key)`. A body with an own property
  `hasOwnProperty` shadows the method, so the walk throws a `TypeError` at the first
  writable field it reaches, after any earlier counter draws. The error is not a
  `RestError` and goes to `next`. Update mode can therefore fail too.
- Create draws the counters of the auto-increment fields declared before a missing
  required field. Those values are consumed even though the create then fails
  (`CreateFailure`, `SampleConfig.CreateWithoutName`).
- `primaryKey` is `_.findKey(...) || '__id'`. A flagged field whose name is the empty string
  therefore also yields `__id`.
- The counter record id is `resName + "_" + key`. It is injective within one resource but
  not across resources (`CounterKeyCollision`).

## Model

| member | source | states |
|---|---|---|
| `Values.Property` | demo/src/rest/RestApi.ts:162 | `_.property(pk)` gives an object item's own property; a string's or array's `length`, or its element at a canonical index key; `undefined` for a missing key and for numbers, booleans and `null` |
| `Values.ArrayIndexRoundTrip` | demo/src/rest/RestApi.ts:162 | the key `String(n)` names exactly the index `n` |
| `Values.PropertyAtIndex` | demo/src/rest/RestApi.ts:162 | `_.property(String(n))` reads the element at `n` of a string or array item, and `undefined` past its end |
| `Errors.ErrorCode` | demo/src/rest/errors.ts:9-36 | 500 exactly for `ServerError`, 404 exactly for `NotFoundError`, 400 exactly for the schema and missing-parameter errors |
| `Errors.Respond` | demo/src/rest/RestApi.ts:106-114 | a `RestError` is answered with the status code its class carries and its message; a store rejection or a `TypeError` is passed to `next` |
| `Errors.SchemaNotConfigured` | demo/src/rest/ResourceFactory.ts:55 | the lookup error is a `SchemaConfigError` carrying the resource name, code 400 |
| `Errors.MissingParameter` | demo/src/rest/RestApi.ts:72 | the create error is a `MissingParameterError` carrying the field name, code 400 |
| `Errors.NotFound` | demo/src/rest/RestApi.ts:137 | the missing-document error is a `NotFoundError`, code 404 |
| `RestConfig.KeyConfig` | lib/rest/RestConfig.ts:34-40 | each flag takes the given value when one is given, else its default (required false, writable true, readable true, primaryKey false, autoIncrement false) |
| `RestConfig.BuildPolicy` | lib/rest/RestConfig.ts:13-20 | one entry per configured field, same name, same order, flags given over defaults |
| `RestConfig.BuildPolicyNames` | lib/rest/RestConfig.ts:13-20 | the built policy declares exactly the configured names in order, and distinct names stay distinct |
| `RestConfig.Find` | lib/rest/RestConfig.ts:26 | the lookup fails exactly for an undeclared name; a found entry is a declared field with that name |
| `RestConfig.FindDeclared` | lib/rest/RestConfig.ts:26 | with distinct names, looking up a declared field yields that field's own flags |
| `RestConfig.IsReadable` | lib/rest/RestConfig.ts:22-27 | an undeclared name is readable; a name is unreadable only when a declared field with that name has `readable` false |
| `RestConfig.IsReadableExactly` | lib/rest/RestConfig.ts:22-27 | readability holds if and only if every declared field of that name has `readable` true |
| `RestConfig.IsReadableAsWritten` | lib/rest/RestConfig.ts:26 | the plain-object lookup agrees with `IsReadable` on declared names and hides undeclared names that `Object.prototype` provides |
| `RestConfig.IsReadableAsWrittenHidesInherited` | lib/rest/RestConfig.ts:26 | the two readings disagree exactly on undeclared inherited names, e.g. `constructor` under an empty policy |
| `RestConfig.FindPrimary` | lib/rest/RestConfig.ts:29 | `_.findKey` finds nothing exactly when no field is flagged, and otherwise yields a declared name |
| `RestConfig.PrimaryKey` | lib/rest/RestConfig.ts:28-30 | the primary key is `__id` or a non-empty declared name, and `__id` when no field is flagged |
| `RestConfig.PrimaryKeyIsFirstFlagged` | lib/rest/RestConfig.ts:28-30 | the primary key is the first flagged field in declaration order, or `__id` when that field's name is empty |
| `ResourceFactory.BuildRegistry` | demo/src/rest/ResourceFactory.ts:18-29 | the registry has one storage handle and one policy for each configured resource, and for no other name |
| `ResourceFactory.RestConfigOf` | demo/src/rest/ResourceFactory.ts:50-57 | succeeds exactly for a registered name with its policy, otherwise a `SchemaConfigError` naming it |
| `ResourceFactory.ResourceModelOf` | demo/src/rest/ResourceFactory.ts:60-67 | succeeds exactly for a registered name with its handle, otherwise a `SchemaConfigError` naming it |
| `ResourceFactory.RegistryLookup` | demo/src/rest/ResourceFactory.ts:18-67 | a configured name resolves to the policy built from its own `rest` section; any other name fails with the schema error |
| `ResourceFactory.CounterKey` | demo/src/rest/ResourceFactory.ts:35 | the counter id is the resource name, an underscore, then the field name |
| `ResourceFactory.CounterKeyInjectiveWithinResource` | demo/src/rest/ResourceFactory.ts:35 | two fields of one resource never share a counter record |
| `ResourceFactory.CounterKeyCollision` | demo/src/rest/ResourceFactory.ts:35 | field `c` of resource `a_b` and field `b_c` of resource `a` share a counter record |
| `ResourceFactory.GetAutoValue` | demo/src/rest/ResourceFactory.ts:32-47 | a draw succeeds exactly when the store answers; it yields the stored counter's new value, one more than before; a failure leaves the counters unchanged |
| `ResourceFactory.GetAutoValueAdvances` | demo/src/rest/ResourceFactory.ts:35-41 | a draw upserts its own counter, increments it by one, and leaves every other counter as it was |
| `ResourceFactory.FirstAutoValueIsOne` | demo/src/rest/ResourceFactory.ts:35-41 | a counter that does not exist yet is created by the upserted `$inc` with `seq` 1, so its first value is 1 |
| `ResourceFactory.DrawAutoValues` | demo/src/rest/ResourceFactory.ts:32-47 | n draws in a row give start+1, …, start+n, and the counter ends at start+n with the others untouched |
| `RestApi.ConvertFields` | demo/src/rest/RestApi.ts:64-75 | the walk keeps the store's availability; in update mode it never touches the counters and fails only on a body that shadows `hasOwnProperty` |
| `RestApi.ConvertSaveData` | demo/src/rest/RestApi.ts:62-77 | update mode leaves the counters alone and succeeds unless the body shadows `hasOwnProperty`; any failure is a create or such a body |
| `RestApi.ConvertFieldsAllowList` | demo/src/rest/RestApi.ts:64-75 | the walk only adds declared fields, and fails only on a store error, on a shadowed `hasOwnProperty`, or on a declared field's missing parameter |
| `RestApi.ConvertSaveDataAllowList` | demo/src/rest/RestApi.ts:62-77 | only declared fields are ever copied into the document to save; failures are a store error, the `TypeError` of a shadowed `hasOwnProperty`, or a declared field's missing parameter |
| `RestApi.UpdateFieldsRestrict` | demo/src/rest/RestApi.ts:64-75 | in update mode the walk overlays the accumulated document with the input cut down to the writable fields, or throws the `TypeError` when the body shadows `hasOwnProperty` and a writable field remains |
| `RestApi.UpdateModeRestricts` | demo/src/rest/RestApi.ts:62-77 | update mode yields exactly the input restricted to the declared writable fields, or the `TypeError` for a body shadowing `hasOwnProperty` when some field is writable; the counters are unchanged |
| `RestApi.CreateFieldsSucceedIff` | demo/src/rest/RestApi.ts:64-75 | the create walk succeeds exactly when no field stops it |
| `RestApi.CreateFieldsCounters` | demo/src/rest/RestApi.ts:66-67 | a successful create walk advances exactly the counters of the auto-increment fields, each by one |
| `RestApi.CreateFieldsKeys` | demo/src/rest/RestApi.ts:64-75 | a successful create walk adds every auto-increment field and every create-writable field the input has, and nothing else |
| `RestApi.CreateFieldsCopies` | demo/src/rest/RestApi.ts:68-70 | create-writable fields the input has are copied verbatim |
| `RestApi.CreateFieldsAutoValue` | demo/src/rest/RestApi.ts:66-67 | an auto-increment field takes its counter's next value whatever the input holds |
| `RestApi.CreateFieldsFailure` | demo/src/rest/RestApi.ts:64-75 | a failed create walk stops at the first field that stops it, with that field's error |
| `RestApi.CreateFieldsFailureCounters` | demo/src/rest/RestApi.ts:66-73 | a walk that stops at field i has advanced exactly the counters of the auto-increment fields declared before i |
| `RestApi.CreateSucceedsIff` | demo/src/rest/RestApi.ts:62-77 | create succeeds if and only if the body does not shadow `hasOwnProperty` where a writable non-auto field exists, every required, writable, non-auto-increment field is present and, if any field is auto-increment, the store answers |
| `RestApi.CreateResult` | demo/src/rest/RestApi.ts:62-77 | a successful create has exactly the auto-increment fields, each with its counter's new stored value, plus the create-writable input fields copied verbatim, and advances exactly those counters |
| `RestApi.CreateFailure` | demo/src/rest/RestApi.ts:62-77 | a failed create reports the first stopping field: a missing required writable non-auto field by name, the `TypeError` of a shadowed `hasOwnProperty` at a writable non-auto field, or a store error on an auto-increment field; earlier counters have advanced |
| `RestApi.NonWritableNeverCopied` | demo/src/rest/RestApi.ts:64-75 | a non-writable field (other than an auto-increment field in create mode) never reaches the document to save |
| `RestApi.UpdateWritesWritableAutoIncrement` | demo/src/rest/RestApi.ts:66-70 | in update mode a writable auto-increment field takes the caller's value, unless the body shadows `hasOwnProperty`, which throws |
| `RestApi.CreateAdvancesCounter` | demo/src/rest/RestApi.ts:66-67 | one successful create puts the counter's next value in the field and moves that counter by exactly one |
| `RestApi.Project` | demo/src/rest/RestApi.ts:199-201 | the response keeps a subset of the stored fields with their values, and always keeps undeclared fields |
| `RestApi.ProjectIdempotent` | demo/src/rest/RestApi.ts:199-201 | projecting a projection changes nothing |
| `RestApi.ProjectExactlyReadable` | demo/src/rest/RestApi.ts:230-234 | a field declared unreadable never appears; every stored field appears exactly when it is readable |
| `RestApi.ProjectAsWritten` | demo/src/rest/RestApi.ts:199-201 | the library's projection keeps a subset of the intended one's fields, with the stored values |
| `RestApi.ProjectAsWrittenLosesInherited` | demo/src/rest/RestApi.ts:199-201 | a stored field is kept by the intended projection and lost by the library's exactly when it is undeclared and named like an `Object.prototype` member |
| `RestApi.ProjectAsWrittenDropsConstructor` | demo/src/rest/RestApi.ts:199-201 | a stored field `constructor` under an empty policy is dropped by the library's projection and kept by the intended one |
| `RestApi.Assign` | demo/src/rest/RestApi.ts:307 | source keys overwrite, other target keys stay, nothing else appears |
| `RestApi.Items` | demo/src/rest/RestApi.ts:161 | a single body becomes the one-item list of itself, an array is taken as it is |
| `RestApi.PrimaryKeyValues` | demo/src/rest/RestApi.ts:162 | the collected ids are no more than the items, and none is `undefined` |
| `RestApi.PrimaryKeyValuesAppend` | demo/src/rest/RestApi.ts:162 | the ids of a concatenation are the ids of each part in order, so each item contributes at its own position |
| `RestApi.PrimaryKeyValuesOne` | demo/src/rest/RestApi.ts:162 | one item contributes its primary-key value once when it is defined and nothing otherwise |
| `RestApi.PrimaryKeyValuesExactly` | demo/src/rest/RestApi.ts:162 | a value is collected if and only if it is defined and is some item's primary-key property |
| `RestApi.UpdateOp` | demo/src/rest/RestApi.ts:260-265 | an item's operation filters on the primary key and the item's own value for it and writes the item's writable fields, or is the `TypeError` of a shadowed `hasOwnProperty` when a field is writable |
| `RestApi.UpdateOpsFails` | demo/src/rest/RestApi.ts:260-266 | the batch's operations fail exactly when the policy has a writable field and some item shadows `hasOwnProperty` |
| `RestApi.UpdateOps` | demo/src/rest/RestApi.ts:260-266 | one operation per item, in order, each the item's own `updateOne`; a failure is a `TypeError` |
| `RestApi.Resolve` | demo/src/rest/RestApi.ts:89-90 | a handler proceeds exactly for a registered resource with its policy, else the schema error |
| `RestApi.GetOne` | demo/src/rest/RestApi.ts:188-205 | an unregistered resource is the schema error; a found document is answered projected; a miss is a `NotFoundError` for that resource and id |
| `RestApi.GetOneAsWritten` | demo/src/rest/RestApi.ts:197-201 | the library's answer to get drops, from `GetOne`'s, exactly the undeclared prototype-named fields and keeps every other value |
| `RestApi.List` | demo/src/rest/RestApi.ts:223-235 | an unregistered resource is the schema error; otherwise every stored document is answered, in order, each projected |
| `RestApi.CreateAll` | demo/src/rest/RestApi.ts:91-95 | a successful batch builds one document per item |
| `RestApi.CreateAllDocuments` | demo/src/rest/RestApi.ts:91-95 | each document of a successful batch is what `convertSaveData` builds from its item with the counter store the earlier items left, and the batch ends with the store all items leave |
| `RestApi.CreateAllSucceedsIff` | demo/src/rest/RestApi.ts:91-95 | a batch succeeds if and only if no field stops the conversion of any item |
| `RestApi.CreateAllFailure` | demo/src/rest/RestApi.ts:91-95 | a failed batch reports the error of its first failing item, every earlier item having converted, with the counter store that item's failed conversion leaves, earlier draws included |
| `RestApi.Create` | demo/src/rest/RestApi.ts:85-105 | an unregistered resource fails with the schema error and leaves the counters alone; a single body yields the document `convertSaveData` builds from it, an array the documents of the batch, with the counter store after them; a failure is that of the build |
| `RestApi.UpdateOneById` | demo/src/rest/RestApi.ts:297-314 | an unregistered resource is the schema error; a miss is a `NotFoundError`; a found document gets exactly the caller's writable fields assigned over it, unless the body shadows `hasOwnProperty` and a field is writable, which is the `TypeError` |
| `RestApi.UpdateMerge` | demo/src/rest/RestApi.ts:304-307 | the updated document is the matched one with exactly the caller's writable fields overwritten and every other field unchanged |
| `RestApi.DeleteOneById` | demo/src/rest/RestApi.ts:123-138 | an unregistered resource is the schema error; the removed document is the one `findOne` matched on the primary key; a `NotFoundError` only when `findOne` found nothing |
| `RestApi.DeleteMultiple` | demo/src/rest/RestApi.ts:156-171 | an unregistered resource is the schema error; nothing is deleted exactly when no item has a primary-key value; otherwise `deleteMany` on the primary key with exactly the collected primary-key values, in item order |
| `RestApi.UpdateMultiple` | demo/src/rest/RestApi.ts:248-266 | an unregistered resource is the schema error; nothing is written exactly for an empty array; otherwise one `updateOne` per item filtering on its primary-key value and writing its writable fields, or the `TypeError` exactly when an item shadows `hasOwnProperty` and a field is writable |
| `RestApi.CreateAllNumbersConsecutively` | demo/src/rest/RestApi.ts:91-94 | a batch of admissible creates numbers an auto-increment field start+1, …, start+n in item order and leaves its counter at start+n |
| `SampleConfig.AssetBuilt` | demo/src/config/sampleConfig.ts:9-15 | the `asset` flags build the written-out policy |
| `SampleConfig.AssetRegistered` | demo/src/config/sampleConfig.ts:2-17 | the registry resolves `asset` to that policy |
| `SampleConfig.AssetPrimaryKey` | demo/src/config/sampleConfig.ts:10 | the primary key of `asset` is `id` |
| `SampleConfig.AssetAutoIncrement` | demo/src/config/sampleConfig.ts:10 | `id` is the only auto-increment field |
| `SampleConfig.AssetWritable` | demo/src/config/sampleConfig.ts:10-14 | `name`, `_id` and `address` are the writable fields |
| `SampleConfig.AssetReadable` | demo/src/config/sampleConfig.ts:12-14 | a name is readable if and only if it is not `_id`, `__v` or `address` |
| `SampleConfig.AssetProjection` | demo/src/config/sampleConfig.ts:12-14 | a stored asset is answered without `_id`, `__v` and `address` |
| `SampleConfig.CreateZeus` | demo/src/config/sampleConfig.ts:10-13 | creating `{name, id, __v}` yields the next counter value as `id` and the name, and drops the caller's `id` and `__v` |
| `SampleConfig.FreshStoreNumbersFromOne` | demo/src/config/sampleConfig.ts:10 | on a fresh counter store a two-item batch is numbered 1 and 2 |
| `SampleConfig.CreateWithoutName` | demo/src/config/sampleConfig.ts:10-11 | a create without `name` fails with the missing-parameter error for `name`, after `asset_id` has already moved |
| `SampleConfig.UpdateKeepsIdAndVersion` | demo/src/config/sampleConfig.ts:10-13 | an update keeps exactly the caller's `name`, `_id` and `address`, never `id` or `__v`; a body shadowing `hasOwnProperty` throws |
| `SampleConfig.LookupErrors` | demo/src/config/sampleConfig.ts:2-3 | a missing asset id answers 404; an unknown resource answers the 400 schema error |

## Left out

- Express routing, response writing, logging and the `next()` calls: a handler returns
  what it would answer, or the `Failure` its `catch` block sees.
- Mongoose: schema casting, validation and `unique` indexes of the `db` section,
  `insertMany`, `save`, `remove`, `find`, `deleteMany`, `bulkWrite`. `findOne` is a function
  parameter, and the stored list is an input of `List`.
- Failures of document-store calls other than the counter draw are not modelled. Neither
  are the `modifiedCount` and `deleted` counts, nor the `ServerError('Failed on updating')`
  thrown when `bulkWrite` reports write errors, because they depend on the store's answer.
- `RestApi.CreateAll`: the library's code converts the items of a batch concurrently under
  `Promise.all`. The model converts them one after the other, stopping at the first
  failure. The interleaving of counter draws across items, the draws of items after a
  failed one, and which of several failing items' errors `Promise.all` reports are
  therefore not modelled (`CreateAllFailure` reports the first item's).
- `RestApi.Create`, `RestApi.UpdateOneById`: the contracts speak of the document handed
  to the store (`ConvertSaveData`'s build, or the matched document with the update
  assigned), not of the stored copy the store hands back after casting and defaults.
- `RestApi.GetOne`, `RestApi.List`: they project with the corrected `IsReadable`, not with
  the plain-object lookup of `lib/rest/RestConfig.ts:26`. The library's answer differs
  only on undeclared fields named like `Object.prototype` members, which it drops
  (`RestApi.GetOneAsWritten`, `RestApi.ProjectAsWrittenLosesInherited`).
- `RestApi.ConvertSaveData`: batch items are objects. A `null` item makes
  `userData.hasOwnProperty` throw a `TypeError`. A number, boolean, string or array item
  is converted through its wrapper object, whose own properties (a string's indices and
  `length`) the model does not represent. A single body is always an object or an array,
  since the JSON body parser accepts nothing else at the top level.
- `Values.Property`: inherited members are left out. A key such as `constructor` or
  `toString` reads a function from any non-null item's prototype, which is not a JSON
  value. So is lodash's deep-path reading of a key containing `.` or `[`: the model reads
  such a key as a single property name. Strings count Unicode scalar values, not UTF-16
  code units: for a string item with a character outside the Basic Multilingual Plane the
  model's `length` is smaller than JavaScript's, and index keys that fall on a surrogate
  half read a different element or `undefined`.
- The counter store's failure is a flag (`online`) rather than a store that can fail on
  any individual call. The `!res` rejection and the `No counter created` branch are left
  out: with `upsert` and `new` the store always returns a record, and the counter is always
  created in the constructor.
- The `!this.configs` branch of `isReadable` is left out: the field is initialised to `{}`
  and never cleared.
- JavaScript object key order: `for…in` visits integer-like keys first. Policies are
  modelled in declaration order.
- Flag values other than booleans, and explicit `undefined` flags in the raw
  configuration, are left out. A flag is either given a boolean or not given.
- Numbers are unbounded integers. Counters do not wrap or lose precision as IEEE doubles
  eventually would.
- Own properties with the value `undefined` in a request body are left out: JSON bodies
  cannot carry them.
- `ResourceFactory.RestConfigOf`, `ResourceFactory.ResourceModelOf`: the registry lookups
  are modelled as map membership. The library's code indexes plain objects, so a resource
  named like an `Object.prototype` member resolves to the inherited member. A handler then
  fails with a `TypeError` instead of the schema error. The exceptions are batch delete
  and batch update of an empty array, which answer `{deleted: 0}` and `{updated: 0}`.
- `server.ts` (the Express application set-up) is not part of this model.

## Findings

| source | as written | input that shows it | evidently intended | confidence | as-written member | corrected member |
|---|---|---|---|---|---|---|
| lib/rest/RestConfig.ts:26 | `this.configs[key]` looks the key up on a plain object. An undeclared name that `Object.prototype` provides (`constructor`, `toString`, `__proto__`, …) finds the inherited member, whose `readable` is `undefined`, so the field is hidden | a stored document `{constructor: "Zeus"}` under a policy that does not declare `constructor`: get and list answer `{}` | only a declared field with `readable: false` is hidden; every undeclared field is shown | high, not executed | `RestConfig.IsReadableAsWritten`, `RestApi.ProjectAsWrittenLosesInherited`, `RestApi.ProjectAsWrittenDropsConstructor` | `RestConfig.IsReadable`, `RestApi.ProjectExactlyReadable` |
