# An in-memory typed table store, modelled in Dafny

The store keeps named collections (`Model`) of records in memory. Each
collection has an ordered set of declared fields. Each field has a type
(`ID`, `STRING`, `NUMBER`, `BOOLEAN` or `REF`), a default value and a
coercion rule. A record is a plain data object, wrapped in a `Row` that
gives accessors for the declared fields. A collection keeps its records
in an array. It assigns ids as "the last entry's id plus one", coerces
values when a record is created, and saves by replacing the first entry
with the same id or appending. It offers `get`, `where`, `query`,
`update`, `updateWhere`, `updateAll`, `delete`, `deleteWhere` and
`clear`, plus a JSON document of schema and data that `fromJSON` turns
back into a collection. A `Query` is a view over an array of entries,
with `first`, `all`, `count`, `where`, `order`, `limit` and `at`.

The modules follow the program:

- `Outcomes` holds `Option`, `Result` and the errors the code throws.
  Every throw is an `Err`.
- `Values` holds JavaScript values as the store sees them: truthiness,
  `Number(...)`, `x + 1`, and `<`.
- `Types` covers field types (types.js).
- `Records` covers what happens to one record's data map without the
  heap:
  - reading a key;
  - the id rule and field loop of `_createObject`;
  - `Row.toJSON`.
- `Lists` holds the sequence operations: `filter` as a selection by
  marks, `findIndex`, the replace-or-append step of `save`, the
  one-after-the-other edits of the batch updates, and `Array.at`.
- `Sorting` holds the sort behind `order`.
- `Json` holds the `toJSON`/`fromJSON` document as functions.
- `Store` holds the objects, which are classes because the code updates
  them in place:
  - `Obj` is a record's data object;
  - `List` is a JavaScript array;
  - `Row`, `Query` and `Model` are the program's own classes.

  Arrays and data objects are shared by reference, as in the program:
  - `query()` hands out the collection's own array, and `order` sorts it
    in place, which changes what `nextId` sees next.
  - A row returned by `create` is the stored one.
  - `Row.save` stores the row's bare data object, not the row
    (`ObjItem`). Such an entry has no `toJSON`, so a later `Model.toJSON`
    throws (`NotARow`).

Some behaviour of the code is kept as written:

- A schema need not declare `id`. Without it, `row.id` is `undefined`
  for every row, and the model follows that (`IdOf`, `IdAttribute`).
- `nextId` reads the last entry, not the largest id. Once the array has
  been reordered, the next id can already be in use, and `create` then
  overwrites that record (`NextIdCollides` shows ids 2, 1 giving 2).
- `get`, `save` and `delete` match ids with `==`, and NaN equals
  nothing, not even itself (`SelfEqual`). An entry whose id is NaN is
  never found. `save` appends it again every time (`Saved`), and `delete`
  and `deleteWhere` never remove it (`Findable`).
- A batch update saves each record right after editing it. `save` finds
  the record at its own position or earlier, so nothing still to be
  visited moves (`Untouched`). The array grows only when an edited id is
  NaN. An edit that changes ids can still put a record over an earlier
  one with the same id. The array stays exactly as it was under
  `EditsInPlace`: no shared data object, distinct ids, none NaN, and an
  edit that keeps ids.
- `fromJSON` prepares every record while the new collection is still
  empty, so every record without a truthy id gets id 1.

## Model

| member | source | states |
|---|---|---|
| Values.Truthy | types.js:43 | falsy exactly for undefined, null, NaN, 0, "" and false; `Boolean(v)` and `!row.id` read it |
| Values.SelfEqual | model.js:111 | `x == x` holds for every value except NaN, so a NaN id is never found by `get`, `save` or `delete` |
| Values.StrLess | query.js:59 | string `<` is irreflexive and puts a proper prefix before the longer string |
| Values.Less | query.js:59 | two strings compare as strings, NaN and undefined are never less or greater, and numeric-like keys compare as numbers |
| Values.ToNumber | types.js:42 | `Number(v)`: numbers unchanged, booleans 1/0, null 0, undefined, NaN and functions NaN; the result is always a number or NaN |
| Values.ToNumberIdempotent | types.js:42 | converting twice is converting once |
| Values.PlusOne | model.js:246 | `id + 1`: a string concatenates "1", a number becomes the next integer, undefined and NaN give NaN |
| Values.KeyClass | query.js:59 | keys split into strings, numeric-like keys (null, booleans, numbers) and others; class 0 exactly for strings, 1 exactly for numeric-like keys |
| Values.StrLessAsymmetric | query.js:59 | string `<` never holds both ways |
| Values.StrLessTotal | query.js:59 | two different strings are ordered one way or the other |
| Values.StrLessTransitive | query.js:59 | string `<` is transitive |
| Values.LessAsymmetric | query.js:59 | the comparator's `<` never holds both ways |
| Values.LessNegativelyTransitive | query.js:59 | within one key class, "not less than" is transitive, so `<` is a strict weak order there |
| Types.BuiltinDefault | types.js:40-45 | each built-in's registered default is falsy and defined (0, "", 0, false, null) |
| Types.FromJson | types.js:59-61 | `types.fromJSON(n)` finds the built-in registered under `n`, and finds none for a name that is not one of the five type names (the object's other keys are left out) |
| Types.Default | types.js:13 | a field's `default()` is the value given to `field`, or its type's default |
| Types.Target | types.js:46-54 | a REF field resolves against its first bound argument when that is a collection |
| Types.MakeField | types.js:9 | `field(d, ...args)` keeps its arguments and uses the built-in default exactly when `d` is omitted |
| Types.Coerce | types.js:10-12 | ID and STRING give the value itself; NUMBER gives a number or NaN and keeps a number; BOOLEAN gives a boolean that is true exactly for a truthy value; REF gives null for null, otherwise a lookup carrying the id and the target; the only failure is a non-null REF value with no target collection |
| Types.CoerceSettles | types.js:40-43 | for every type but REF, coercing never fails and coercing a coerced value changes nothing |
| Types.Describe | types.js:14-21 | `toJSON` gives the type's name, its default, and each argument with a collection replaced by its name; it throws exactly when an argument is null |
| Types.DescribeArg | types.js:15-19 | a bound argument is described by the collection's name when it is an object, throws exactly when it is `null`, and is otherwise kept as it is |
| Types.ResolveArg | model.js:277 | `args[arg]` is the collection the caller registered under a string name, and `undefined` for a name the map lacks or any non-string argument (see "## Left out") |
| Types.Rebuild | model.js:275-279 | rebuilding a description throws exactly for a name that is not one of the five type names, and otherwise keeps the name and a defined default, and resolves each described argument with `ResolveArg` (a name the caller's map lacks gives `undefined`) |
| Types.DescribeRebuild | types.js:14-21 | describing then rebuilding a field gives the same field, when its default is defined and every bound argument is a collection the caller maps back by name |
| Records.Read | row.js:36-38 | `data[key]` is `undefined` for a key the map lacks |
| Records.IdAttribute | row.js:28-33 | `row.id` reads the data map when `id` is declared and is `undefined` otherwise |
| Records.CoerceFields | model.js:94-101 | the field loop: each declared key present is coerced and each absent one gets its default, stopping at the first coercion that fails |
| Records.Prepare | model.js:89-102 | `_createObject` as a value: the id rule, then the field loop |
| Records.Plain | row.js:55 | a lookup exports as its id (its `toJSON`), every other value as itself |
| Records.CoerceFieldsKeepsUndeclared | model.js:94-101 | the field loop never adds, removes or changes an undeclared key, whether or not it fails |
| Records.CoerceFieldsFails | model.js:94-101 | the field loop fails exactly when a present declared value fails to coerce, and then only with a missing REF target |
| Records.CoerceFieldsSettles | model.js:94-101 | after a successful loop every declared field holds the coercion of its input value, or its default when the input lacked it |
| Records.PrepareId | model.js:90-93 | with `id` declared as an ID field, a truthy id is kept and a missing or falsy one (0 included) becomes the next id |
| Records.NextIdOf | model.js:244-247 | `nextId` is 1 for an empty collection and otherwise the last entry's numeric id plus one |
| Records.NextIdFresh | model.js:244-247 | when all ids are numbers and the last is the largest, the next id is larger than every id, so it is new |
| Records.NextIdCollides | model.js:244-247 | ids 2, 1 (the last is not the largest) give next id 2, which is in use |
| Records.Export | row.js:52-58 | `toJSON` succeeds exactly when no value is null or undefined; it keeps every own key and exports lookups as their ids |
| Records.ExportedValueRecoerces | row.js:55 | a coerced value's export coerces back to the same value (a REF's id gives the same lookup) |
| Records.ExportPrepare | model.js:283-287 | exporting a record that round-trips and preparing the export again gives the record back, whatever id would be assigned |
| Sorting.SortBy | query.js:59 | the sort rearranges the entries without adding or losing any (same multiset) |
| Sorting.InsertSorted | query.js:59 | inserting into a sorted sequence of one key class keeps it sorted |
| Sorting.SortBySorted | query.js:59 | sorting keys of one class leaves no key less than one before it |
| Sorting.SortByOrders | query.js:59 | when the keys are all strings or all numeric-like, the sorted keys are in order |
| Lists.Select | query.js:55 | `filter` keeps as many elements as there are set marks |
| Lists.SelectIsOrderedSubsequence | query.js:55 | `filter` keeps exactly the marked elements, at increasing positions, in their original order |
| Lists.SelectAll | model.js:122 | a filter every element passes keeps everything |
| Lists.SelectFrom | model.js:122 | a filter brings in no element its input did not hold |
| Lists.EditAtSpec | model.js:172-175 | editing one after the other at increasing positions edits each visited element once, from its original value, and leaves the rest |
| Lists.EditAtKept | model.js:172-175 | visiting the positions of the selected records edits exactly the selected records once each |
| Lists.EditAtAll | model.js:184-187 | visiting every position edits every record once |
| Lists.EditAtUnvisited | model.js:172-175 | at increasing positions, the next position to visit still holds its original data map |
| Lists.FirstIndex | model.js:140 | `findIndex` is -1 exactly when the id is absent, and otherwise the first position holding it |
| Lists.FirstMatch | model.js:111 | `where(id matches).first()` is empty exactly when the id is absent, and otherwise is the entry at `findIndex` |
| Lists.UpsertShape | model.js:139-146 | `save` grows the array by one exactly when the id was absent, places the entry at the first position with its id or at the end, and leaves every other position alone |
| Lists.UpsertFrom | model.js:139-146 | `save` brings in no element except the saved one and never shortens the array |
| Lists.UpsertIds | model.js:139-146 | after `save` the ids are the old ids, plus the saved id at the end when it was new |
| Lists.UpsertKeepsDistinct | model.js:139-146 | `save` keeps ids distinct |
| Lists.UpsertIdempotent | model.js:139-146 | saving the same entry twice is saving it once |
| Lists.UpsertInPlace | model.js:139-146 | with distinct ids, saving an entry back at its own position changes nothing |
| Lists.UpsertInPlaceFirst | model.js:139-146 | saving the first entry with a given id back at its position changes nothing, distinct ids or not |
| Lists.UpsertPresent | model.js:144 | a save whose id is present replaces that position only and keeps the length |
| Lists.Upsert | model.js:139-146 | `save`: the entry replaces the one at `findIndex`, or is appended when `findIndex` is -1 |
| Lists.Saved | model.js:139-146 | `save` where the id may be NaN: NaN matches nothing, so the entry is appended |
| Lists.SavedIds | model.js:139-146 | after `save` the ids are the old ids, plus the saved id at the end when it was new or NaN |
| Lists.SavedFrom | model.js:139-146 | `save` brings in no element except the saved one and never shortens the array, NaN or not |
| Lists.SavedWithin | model.js:140 | saving an entry whose id is at position `at` keeps the length (or adds one for NaN) and leaves every later position alone |
| Lists.DeleteRemoves | model.js:195-201 | after a delete no entry has the id; with distinct ids and the id present, exactly one entry goes |
| Lists.DeleteAfterDeletes | model.js:209-213 | deleting one more id after a series of deletes is a single filter by all the ids |
| Lists.DeleteAbsent | model.js:195-201 | deleting an absent id keeps everything |
| Lists.Position | query.js:66-68 | `Array.at(i)` reads position `i` for `0 <= i < len`, `len + i` for `-len <= i < 0`, and nothing otherwise |
| Json.Collect | model.js:262 | the `map` of `toJSON` over the entries succeeds exactly when every export does, keeps their order, and otherwise stops at the first error |
| Json.DescribeSchema | model.js:255-258 | the `fields` part holds each field's description under its name, in the key order of the `fields` object, and fails exactly when a description throws |
| Json.Dump | model.js:253-264 | `toJSON` succeeds exactly when every field describes and every entry exports; it keeps the name and has one record per entry |
| Json.RebuildSchema | model.js:274-281 | the `reduce` rebuilds every field in order and fails exactly when some type name is not one of the five type names |
| Json.LoadRows | model.js:283-287 | the `map` over the records prepares each one with next id 1, and fails exactly when one fails |
| Json.LoadRowsSnoc | model.js:283-287 | loading one more record appends its prepared map, or stops at its error |
| Json.LoadRowsStops | model.js:283-287 | after the first error, later records do not matter |
| Json.Load | model.js:273-289 | `fromJSON` keeps the name, the field count and the record count |
| Json.DescribeRebuildSchema | model.js:274-281 | a portable schema survives `toJSON` followed by the `reduce` of `fromJSON`, field by field, in order |
| Json.LoadExported | model.js:283-287 | loading the exports of round-tripping records gives the records back |
| Json.DumpLoad | model.js:273-289 | `fromJSON(toJSON(m))` gives back the name, the schema (types, defaults and bound collections) and every record, when the schema is portable and every record round-trips |
| Json.LoadAssignsOne | model.js:283-287 | records loaded without a truthy id all get id 1 |
| Store.IdOf | model.js:111 | `e.id`: a row answers through its accessor, a bare data object with its own key |
| Store.IdsOfSelect | model.js:122 | the ids of the entries a filter keeps are the ids that filter keeps |
| Store.Findable | model.js:198 | the ids `delete` can find are exactly those that are not NaN |
| Store.FindableNext | model.js:210-212 | the findable ids grow by the next id, unless it is NaN |
| Store.NothingLeftPasses | model.js:209-213 | after `deleteWhere(p)`, every remaining entry that passes `p` has a NaN id |
| Store.IdsOfSaved | model.js:139-146 | saving changes no data map, so the ids after a save are the ids saved the same way |
| Store.SavedUntouched | model.js:172-175 | saving the entry found at a position not yet visited adds an entry only when its id is NaN, and moves nothing at later positions |
| Store.EditOne | model.js:173 | with no shared data object, editing one entry's object changes that entry's data map only |
| Store.EditStep | model.js:172-175 | one visit of a batch update that keeps ids keeps the array's ids and takes the next edit step |
| Store.Exports | model.js:262 | a row exports its data map, and a bare data object stored by `Row.save` throws |
| Store.KeysOfKeyMap | query.js:59 | read through the snapshot, a rearrangement of the entries shows the keys the entries have |
| Store.SortByKeys | query.js:59 | sorting by the snapshot leaves the keys in order when they are uniform |
| Store.CallLookup | types.js:48-50 | calling a REF lookup finds the target's first entry with the id at call time, or nothing when the id is NaN or the target has no entry with it |
| Store.Row.constructor | row.js:25-34 | a row wraps its collection and the caller's own data object |
| Store.Row.Get | row.js:36-38 | `get(key)` is the data map's value, or `undefined` for a missing key |
| Store.Row.Set | row.js:40-42 | after `set(key, v)`, `get(key)` is `v` and no other key changes |
| Store.Row.Attribute | row.js:28-30 | a declared field's accessor reads what `get` reads; an undeclared one is `undefined` |
| Store.Row.SetAttribute | row.js:28-33 | a declared field's setter writes the data map as `set` does; an undeclared one leaves it alone |
| Store.Row.Save | row.js:44-46 | `save()` saves the data object (not the row) into the collection by its id, as `Model.save` does (appending when the id is NaN) |
| Store.Row.ToJson | row.js:52-58 | `toJSON` succeeds exactly when no value is null or undefined, keeps every key and exports lookups as ids |
| Store.Query.constructor | query.js:37-40 | a query holds its collection and the array it is given, not a copy |
| Store.Query.First | query.js:42-44 | `first()` is nothing exactly for an empty view, and otherwise the first entry |
| Store.Query.All | query.js:46-48 | `all()` is the view's own array |
| Store.Query.Count | query.js:50-52 | `count()` is the number of entries |
| Store.Query.Where | query.js:54-56 | `where(p)` is a new view over a new array of exactly the passing entries, in order; the receiver is untouched |
| Store.Query.Order | query.js:58-60 | `order(f)` sorts the receiver's own array in place as a permutation, in order when the keys are uniform, and returns a view over that same array |
| Store.Query.Limit | query.js:62-64 | `limit(n)` is a new view over a new array of the first `min(n, count)` entries |
| Store.Query.At | query.js:66-68 | `at(i)` is the entry at `i` or at `count + i`, and nothing exactly when `i` is out of range |
| Store.Model.constructor | model.js:58-62 | a new collection has its name, its fields and a new empty array |
| Store.Model.Count | model.js:227-229 | `count` is the array's length |
| Store.Model.Get | model.js:110-112 | `get(id)` finds nothing exactly when the id is NaN or no entry has it, and otherwise the first entry whose id it is |
| Store.Model.Exists | model.js:236-238 | `exists(id)` holds exactly when the id is not NaN and some entry has it |
| Store.Model.NextId | model.js:244-247 | `nextId()` is 1 for an empty collection, otherwise the last entry's id plus one |
| Store.Model.Where | model.js:121-124 | `where(p)` is a new view over a new array of exactly the passing entries, in order |
| Store.Model.Query | model.js:131-133 | `query()` is a view over the collection's own array |
| Store.Model.Save | model.js:139-146 | `save(e)` replaces the first entry with `e`'s id or appends `e`, and always appends when that id is NaN; the ids change only by the new id, `get` then finds `e` unless its id is NaN, and no data map changes |
| Store.Model.CreateObject | model.js:89-102 | `_createObject` leaves the data map (and the error that stopped the loop) that the id rule and field loop describe |
| Store.Model.Create | model.js:77-82 | `create` prepares the caller's object in place; on an error nothing is saved, otherwise the new row is saved by its id as `save` does |
| Store.Model.EditAndSave | model.js:172-175 | one visit runs the edit on the entry's data object, which every entry of any array holding that object sees, then saves the entry by its new id; ids are unchanged when the edit keeps the id |
| Store.Model.Update | model.js:155-162 | `update` returns what `get` found; when nothing is found nothing changes; otherwise that record is edited and saved by its new id, and an edit that keeps the ids leaves the array as it was |
| Store.Model.EditAndSaveNext | model.js:172-175 | one visit brings in no entry but the visited one and never shortens the array; it moves nothing at positions still to visit and keeps the count when the edited id is not NaN; with no shared data object the data maps take the next edit step; in place, the array stays put |
| Store.Model.EditEach | model.js:172-175 | the `forEach` over the selected records brings in no other entry and keeps the count when no edited id is NaN; with no shared data object it leaves exactly the data maps of editing each selected record once; in place, the array stays put |
| Store.Model.UpdateWhere | model.js:171-176 | `updateWhere` adds no new entry and never shortens the array; with no shared data object exactly the selected records are edited, once each, and the count stays the same when no edited id is NaN; under `EditsInPlace` the array is unchanged |
| Store.Model.UpdateAll | model.js:183-188 | `updateAll` adds no new entry and never shortens the array; with no shared data object every record is edited once, and the count stays the same when no edited id is NaN; under `EditsInPlace` the array is unchanged |
| Store.Model.UpdateAllNext | model.js:184-187 | one pass of the loop keeps what the loop keeps (`UpdatedUpTo`), one position further |
| Store.Model.Replace | model.js:198 | `this.data = ...` installs a new array holding the kept entries; their ids are unchanged |
| Store.Model.Delete | model.js:195-201 | `delete(id)` returns what `get` found; when nothing is found the array is the same one; for an id that is not NaN the array keeps exactly the entries with a different id, in order; a NaN id deletes nothing |
| Store.Model.DeleteWhere | model.js:209-213 | `deleteWhere(p)` leaves exactly the entries whose id is not the id (other than NaN) of a passing entry, in order; the collection keeps its own array when no passing entry has an id other than NaN, and otherwise holds a new one |
| Store.Model.DeleteNext | model.js:196-199 | one `delete` of the loop removes the next id from the array left by the earlier ones, unless it is NaN; it finds an entry exactly when the id is not NaN and still present, and only then installs a new array |
| Lists.NothingDeletedYet | model.js:210-211 | before any id has been deleted, every id the loop will delete is still among the ids |
| Store.Model.Clear | model.js:218-220 | `clear()` leaves a new empty array and count 0 |
| Store.Model.ToJson | model.js:253-264 | `toJSON` succeeds exactly when every field describes and every entry is a row whose export succeeds; it keeps the name, the descriptions in order and one export per entry |
| Store.Model.LoadOne | model.js:284-285 | one record becomes a new row of the new collection around a new data object, prepared with next id 1 |
| Store.Model.LoadNext | model.js:283-287 | one more record extends the loaded rows, or stops the load with its error |
| Store.Model.LoadEntries | model.js:283-287 | the `map` gives one new row per record, each with its own data object, whose data maps are what `LoadRows` describes; the first error stops it |
| Store.Model.FromJson | model.js:273-289 | `fromJSON` fails exactly when `Load` fails, with the same error, and otherwise builds a new collection whose name, fields and data maps are `Load`'s, with unshared data objects |

## Left out

- The Express server, the seeding script and the example scripts are not part of this model. The core makes no I/O.
- Values.ToNumber: strings are parsed only when they are empty or an optionally signed decimal integer literal; every other string gives NaN. Floating-point numbers, exponents, hexadecimal and surrounding whitespace are not modelled, because the model's numbers are integers.
- Values.PlusOne: `id + 1` on a REF lookup (a function, which would concatenate its source text) is left unspecified.
- Values.Less: a comparison involving a REF lookup is taken as false; JavaScript would compare the function's source text.
- Store.Query.Order: sortedness is proved only when the keys are all strings or all null/boolean/number values. For mixed keys the comparator is not a consistent order, and the engine's result is unspecified. The order of equal keys is the one an insertion sort gives; the engine may choose another.
- Store.Query.Limit: `n` is a natural number; a negative or fractional `n` passed to `slice` is not modelled.
- Store.Query.At: the index is an integer; a fractional index is not modelled.
- Ids are compared with structural equality, except that NaN equals nothing (`SelfEqual`). JavaScript's loose `==` between different kinds of value (for example `1 == "1"`) in `get`, `save` and `delete` is not modelled. Two lookups are equal here when they carry the same id and target, where JavaScript compares function identity.
- Values.StrLess: strings are sequences of Unicode scalar values, so `<` is code-point order. JavaScript compares UTF-16 code units. The two orders disagree only between a character above U+FFFF and one in U+E000..U+FFFF.
- Values.PlusOne: numbers are unbounded integers, not doubles. Above 2^53 the code's `id + 1` can equal `id`; the model always gives the next integer.
- Types.FromJson: `types[json]` also answers for the object's other keys (`fromJSON` and inherited names such as `toString`, `constructor` or `valueOf`), giving a function that is not a field builder. The model finds only the five type names and treats every other name as unknown.
- Types.Rebuild: for the same reason, a description naming one of the object's other keys is rejected as unknown here, where the code would go on with a function that is not a field builder.
- Json.RebuildSchema: the same holds for every field the `reduce` rebuilds.
- A data map is a map, so its key order (which `toJSON` follows) is not modelled.
- Json.DescribeSchema: a schema is a sequence taken to be in the key order JavaScript gives the `fields` object (`for...in`, `Object.keys`). That order is not the declaration order: integer-like names such as `"2"` and `"10"` come first in ascending numeric order, then the other names in insertion order. The model does not compute this order from the declaration. The same sequence orders the field loop of `create` (model.js:94-101), so it also decides which failing coercion is reported first and which fields the caller's object already holds when `create` throws.
- Types.ResolveArg: a described argument that is not a string (a number such as `5`, or `true`) resolves to `undefined` here. The code's `args[5]` converts it to the key `"5"` and finds a collection the caller registered under that name. A string naming an inherited property of the caller's object (`toString`, `constructor`) resolves to that property in the code and to `undefined` here.
- Store.Row.Attribute: a declared field whose name is one of the row's own members is treated like any other key. In the code (row.js:28-33) the accessor defined on the row replaces or shadows that member. A field named `data` makes `this.data` read itself without end, so every `create` throws a RangeError when it reads `row.id` (model.js:90). A field named `model` makes `save()` call `save` on the data map's `model` value. Fields named `get`, `set`, `save` or `toJSON` shadow those methods with the data map's value, so calling them calls that value (for `toJSON`, in `Model.toJSON` at model.js:262). Store.Row.SetAttribute shares this gap.
- Store.Row.constructor: its ensures that the row's `data` is the caller's own data object holds in the code only when no declared field is named `data`. For such a field, row.js:28-33 turns the row's `data` into an accessor that reads `this.data["data"]` through itself, so reading `data` never returns.
- Property descriptors, `util.inspect.custom`, function `name`, `toString` and `Symbol.iterator` are not modelled. The accessors are `Row.Attribute`/`Row.SetAttribute`, and iteration is the sequence itself.
- Store.Row.SetAttribute: an assignment to an undeclared attribute creates a property on the wrapper object, which the model does not track; the data map is unchanged, as in the code.
- The `Type.prototype.toJSON` and `toString` methods are unreachable, because the constructor returns the `field` function, so they are not modelled.
- Types.Coerce: a REF field whose first argument is not a collection has no target here, so coercing a non-null id fails with `MissingTarget` for any primitive argument. The code fails only for `undefined` or `null`, when it reads `.name`. For any other primitive it builds a lookup that fails only when called.
- Callbacks (`where` filters and update edits) are pure functions of a record's data map. A callback that reads other records, calls the collection or throws is not modelled.
- Store.Model.UpdateWhere: the resulting data maps are stated only when no data object is shared. An entry stored twice has its object edited twice, and the result then depends on the edit. The same condition, with no edited id NaN, is needed for the unchanged count. The array itself is stated unchanged only under `EditsInPlace`, because an edit that changes ids can put a record over an earlier one.
- Store.Model.UpdateAll: stated under the same conditions as `UpdateWhere`, for the same reasons.
- Store.Model.Update: that the array is unchanged is stated for the case where the stored ids are the same after the edit.
- Store.Model.DeleteWhere: the ids of the passing entries are read once, before the deletes. Deleting changes no data map, so this is the same as reading each id at its turn.
- Store.Model.EditEach: the `forEach` of `updateWhere` is written as recursion over the position rather than a loop.
- Store.Model.FromJson: the data objects of the document are copied into new `Obj`s rather than shared with the caller's document.
- Store.Model.NextId: `nextId` reads the last entry as the code does; the fact that this can collide is stated by `Records.NextIdCollides`, not corrected.
