# In-memory data layer of a departments-and-people API

This project models the storage core of a small GraphQL API that serves
departments and people. The API keeps its records in `InMemoryDataLayer<T>`,
a generic store over one array of records. `insert` appends to the array.
`getItems`, `getItemByField`, `getItemListByField` and `getItemByRegex` are
read-only linear scans. `updateByField` shallow-merges a partial record into
the first record whose field equals a value, in place. The departments store
and the people store are the same class with `T` fixed to the two record
shapes. The model also covers `indexArray`, the array-to-dictionary reduce
that the test helpers use.

Modules, one per concern:

- `Wrappers` (`wrappers.dfy`): `Option`, standing for the source's `T | null`.
- `Records` (`records.dfy`): a record is a map from field names to JavaScript
  primitives. `Absent` stands for `undefined`, so a missing optional
  `managerId` reads as `Absent`, and two `Absent`s are equal, as under `===`.
  `Merge` is the object spread `{...item, ...patch}`. A regular expression is
  represented only by its match test `string -> bool`.
- `Entities` (`entities.dfy`): the `Department` and `Person` shapes and their
  update inputs. Each has a typed view and a record encoding. The lemmas
  show that a shallow merge keeps a record's shape and agrees with the typed
  update.
- `MemoryDataLayers` (`memory_data_layers.dfy`): `findIndex` and `filter` as
  recursive functions with their characterising contracts. It holds the class
  `InMemoryDataLayer`, whose `data: seq<Record>` field is reassigned by
  `Insert` and `UpdateByField` and read by the scan functions. Two client
  methods replay the store's own tests.
- `UtilFns` (`util_fns.dfy`): `indexArray` as a loop over the array that
  updates a map. The loop is proved equal to a fold function, `Indexed`, and
  the lemmas about `Indexed` give the keys, the last-write-wins rule and the
  key count.

## Model

| member | source | states |
|---|---|---|
| `Records.Merge` | src/memoryDataLayers.ts:57 | the merged record has the union of the keys; a field the patch has takes the patch's value, every other field keeps the old one |
| `MemoryDataLayers.IndexWhere` | src/memoryDataLayers.ts:61-63 | `findIndex`: -1 exactly when no element satisfies the predicate, otherwise an index whose element satisfies it and before which none does |
| `MemoryDataLayers.FilterWhere` | src/memoryDataLayers.ts:31-35 | `filter`: every kept element satisfies the predicate, every satisfying element is kept as often as it occurs, and the result is an order-preserving subsequence |
| `MemoryDataLayers.InMemoryDataLayer.constructor` | src/memoryDataLayers.ts:13 | a new store holds no records |
| `MemoryDataLayers.InMemoryDataLayer.Insert` | src/memoryDataLayers.ts:15-17 | the stored sequence becomes the old one followed by the items; old records keep their positions |
| `MemoryDataLayers.InMemoryDataLayer.GetItemIndexByField` | src/memoryDataLayers.ts:61-63 | -1 exactly when no record's field equals the value, otherwise the least index of a record whose field equals it |
| `MemoryDataLayers.InMemoryDataLayer.GetItemByField` | src/memoryDataLayers.ts:23-29 | null exactly when no record matches; otherwise a stored record that matches and no record before it matches |
| `MemoryDataLayers.InMemoryDataLayer.GetItemListByField` | src/memoryDataLayers.ts:31-35 | exactly the matching records, with their multiplicities, in stored order; empty exactly when none matches |
| `MemoryDataLayers.InMemoryDataLayer.GetItemByRegex` | src/memoryDataLayers.ts:37-46 | null exactly when no record holds a string in the field that the pattern matches; otherwise such a record, with no such record before it; non-string and missing values never match |
| `MemoryDataLayers.InMemoryDataLayer.UpdateByField` | src/memoryDataLayers.ts:48-59 | null and no change exactly when no record matches; otherwise only the first matching index changes, to the merge of the old record with the patch, the length is kept, and the stored merged record is returned |
| `MemoryDataLayers.LookupAfterUpdate` | src/memoryDataLayers.ts:53-63 | after replacing the first match by its merge with a patch that leaves the looked-up field unchanged, the first match of that field and value is still at the same index |
| `MemoryDataLayers.InsertedItemsAreListed` | src/__test__/memoryDataLayers.test.ts:16-30 | after `insert`, `getItems` lists the old records as a prefix and every inserted record |
| `MemoryDataLayers.UpdateThenGetByField` | src/__test__/memoryDataLayers.test.ts:55-61 | after `updateByField` on an unpatched key, `getItemByField` with the same key returns the very record the update returned, and that record carries every patched value |
| `Entities.DepartmentToRecord` | src/types.ts:3-9 | a department's record has the department shape and its `id` and `name` as strings |
| `Entities.DepartmentFromRecord` | src/types.ts:3-9 | a record reads as a department exactly when it has the department shape, and then with the record's `id` and `name` |
| `Entities.PersonToRecord` | src/types.ts:11-17 | a person's record has the person shape and every field of the person; an unset `managerId` reads as `undefined` |
| `Entities.PersonFromRecord` | src/types.ts:11-17 | a record reads as a person exactly when it has the person shape, and then with every field of the record; an unset `managerId` reads as none |
| `Entities.DepartmentRoundTrip` | src/types.ts:7-9 | reading back a department's record gives the department |
| `Entities.DepartmentRecordRoundTrip` | src/types.ts:7-9 | a department-shaped record is the record of the department it reads as |
| `Entities.PersonRoundTrip` | src/types.ts:11-17 | reading back a person's record gives the person |
| `Entities.PersonRecordRoundTrip` | src/types.ts:11-17 | a person-shaped record agrees field by field with the record of the person it reads as |
| `Entities.DepartmentPatchToRecord` | src/types.ts:29-31 | a department update input becomes a `Partial<Department>` that sets only `name`, and sets it exactly when the input gives it, to the given value |
| `Entities.SetIfGiven` | src/types.ts:33-39 | one optional input field added to a patch: the patch gets that field exactly when the input gives it, to the given value, keeps every field it already had, and stays all-strings |
| `Entities.PersonPatchToRecord` | src/types.ts:33-39 | a person update input becomes a `Partial<Person>` that never sets `id` and sets each field exactly when the input gives it |
| `Entities.MergeKeepsDepartment` | src/memoryDataLayers.ts:66-68 | merging a `Partial<Department>` into a department record gives a department record |
| `Entities.MergeKeepsPerson` | src/memoryDataLayers.ts:70-72 | merging a `Partial<Person>` into a person record gives a person record |
| `Entities.DepartmentMergeIsPatch` | src/types.ts:29-31 | the shallow merge of a department update input reads as the department with the given fields replaced |
| `Entities.PersonMergeIsPatch` | src/types.ts:33-39 | the shallow merge of a person update input reads as the person with the given fields replaced |
| `UtilFns.IndexedKeys` | src/utilFns.ts:65-71 | the dictionary's keys are exactly the indexer's keys of the elements; empty input gives the empty dictionary |
| `UtilFns.IndexedSize` | src/utilFns.ts:65-71 | the dictionary never has more keys than the array has elements |
| `UtilFns.IndexedLastWins` | src/utilFns.ts:65-70 | under the key of the last element that has it lies that element's value (last write wins) |
| `UtilFns.IndexedDistinctKeys` | src/utilFns.ts:65-71 | when no two elements share a key, the dictionary has as many keys as the array has elements |
| `UtilFns.IndexedFindsElement` | src/testUtils.ts:3-19 | without a reducer, when only equal elements share a key, each element's key holds that element |
| `UtilFns.IndexArrayWith` | src/utilFns.ts:52-74 | with a reducer: the result is the fold of the callback over the whole array, its keys are the elements' keys, it has at most one key per element, and each key holds the reducer's value for the last element with that key |
| `UtilFns.IndexArray` | src/utilFns.ts:52-74 | without a reducer: the result is the fold storing each element itself, its keys are the elements' keys (none for the empty array), it has at most one key per element, each key holds the last element with that key, each key holds its element when only equal elements share a key, and the key count is the array length when keys are distinct |

## Left out

- `getItems` has no contract of its own. It returns the `data` field and
  reads nothing else. `InsertedItemsAreListed` states what the tests expect
  of it.
- Aliasing: `getItems` returns the live array, and a later `updateByField`
  writes into that same array, so the caller sees the change. The model
  returns a sequence value, which stays as it was. Records are values too:
  `insert` stores the caller's objects, and `getItemByField`,
  `getItemByRegex` and `updateByField` return the stored object itself, so
  a caller who mutates one changes the store. The model does not capture
  that sharing.
- JavaScript regular expressions: `getItemByRegex` takes an abstract match
  test. The case-insensitive, unanchored pattern the tests build from a name
  is not modelled.
- Values: fields hold `undefined`, strings, integers or booleans. Floating
  point (and `NaN !== NaN`) and object-valued fields compared by reference
  are not modelled.
- `Entities.IsPersonPatch`: a `Partial<Person>` may hold `undefined` only in
  `managerId`. TypeScript's `Partial` would also type-check `undefined` in a
  required field, and the spread would then erase that field.
- The two subclasses are not separate classes, since the model has no
  inheritance. They are the same store holding records of one shape.
  `MergeKeepsDepartment` and `MergeKeepsPerson` state the type guarantee
  that their updates keep that shape.
- The default indexer of `indexArray` (src/utilFns.ts:7-18) is not
  modelled. It delegates to lodash `get` and `toString`, so the caller
  always supplies the indexer. The indexer's `path` argument is part of the
  indexer function.
- Because the indexer is always a function, the error thrown at
  src/utilFns.ts:59-63 cannot happen, and the model has no error path.
  A missing array argument is the empty sequence.
- A key `__proto__` is stored as an ordinary key. In a JavaScript object
  literal, assigning to it would change the prototype instead.
- Asynchrony (`OrPromise`, `async`): every operation is synchronous.
- The relationship resolvers and the mutation integrity guards are not part
  of this model. Department-name uniqueness and the department and manager
  existence checks belong to them. The resolvers in src/endpoints.ts call
  data-layer methods that `DataLayer` does not declare, and there is no
  implementation of the guards to model.
- Database setup, seed-file loading, the GraphQL schema, Joi validation and
  environment variables are I/O and wiring. Loading seed data is two
  `Insert` calls.
