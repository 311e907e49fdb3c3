# fez-framework data layer, modelled in Dafny

This project models the data-access layer of the fez-framework PHP framework.
Its parts are:

- the identity map `Model::$factory`, with `factory`, `factoryCleanup` and `factoryReset`;
- the lazily loaded, dirty-tracked record `DbModel`, with `load`, `__get`, `__set`, `__unset`, `reset`, `commit`, `setData` and `__toString`;
- the relation accessors of `DbModel::__call`;
- `DbModel::search`;
- the lazy result list `ModelList`;
- the Redis wrapper's `lSlice` and push batching;
- the SQL text the `Db` wrapper builds;
- the bulk row buffer `DbBulk`;
- the router;
- the controller's asset queue.

The database and Redis are replaced by values. A table is a map from id to row. The record cache is a map from key to row. The search cache is a map from key to a list of strings. Operations that write to either return the writes as values (`CacheOp`, `StoreWrite`, `Request`) instead of performing them. PHP values are the datatype `Php.Value`: null, bool, int, string, an object seen through its id, an ordered array, or a resource. PHP arrays are association lists with distinct keys (`Assoc`). Integer array keys are written as their decimal text.

Modules, one per source file or concern:

| module | file | models |
|---|---|---|
| `Php` | php.dfy | PHP 7 built-ins the layer relies on: `(int)`/`(string)` casts, `empty`, loose `==`, `explode`/`implode`/`trim`/`strtolower`, `array_slice`, `vsprintf` with `%d`, `%s`, `%%` |
| `Assoc` | assoc.dfy | PHP ordered arrays: `$a[$k]`, `$a[$k] = $v`, `unset($a[$k])` |
| `Eviction` | eviction.dfy | what `factoryCleanup` and `factoryReset` leave, as functions of the entries and their `isModified()` flags |
| `Relations` | relations.dfy | per-class metadata, the `get<Word>[Count]` name match and the where-clause merge of `DbModel::__call` |
| `Records` | records.dfy | a `DbModel` instance's fields as a value, and each operation as a step function with its cache and store effects |
| `Models` | models.dfy | the `DbModel` instance as a class (`Entity`), the registry as a class (`Registry`), each method proved against the step functions |
| `ModelLists` | modellist.dfy | `ModelList`: construction, the iterator, `__invoke`, `__call` transforms, `__toString` |
| `Search` | search.dfy | `DbModel::search`, and the instance list of a one-to-many accessor |
| `Cache` | cache.dfy | `Cache::lSlice` over Redis `LRANGE`, and push batching in `Cache::__call` |
| `Db` | db.dfy | `formatToken`, `filterToken`, `escape`, `query`'s substitution, and the `delete`/`insert`/`replace`/`select`/`update` statements |
| `Bulk` | dbbulk.dfy | `DbBulk`: `add`, `remove`, `commit` |
| `Router` | router.dfy | `getRoute`, `map`, `urlFor` |
| `Controllers` | controller.dfy | `enqueue`, `outputEnqueued`, `__toString` |

The operations follow the source as written. That includes the behaviour listed under "## Findings", and these further quirks:

- `__unset` tests the field name against the baseline's *values* (`Records.UnsetChecksValues`).
- `factory` replaces a stored instance that is modified.
- `factory` and `commit` run `factoryCleanup` before they insert, so a class can end up with 100 entries.
- `ModelList` builds its elements with `new`, bypassing the identity map.

For each finding, the corrected definition stands beside the as-written one, with the intended property proved about it.

## Model

| member | source | states |
|---|---|---|
| Php.ParseInt | core/dbmodel.php:59-62 | (definition) the `(int)` cast of a text: leading white space, an optional sign, then the longest run of digits, 0 when there is none; its properties are stated by the four `ParseInt` lemmas below |
| Php.ParseIntRoundTrip | core/dbmodel.php:376-378 | `(int)` of the text `(string)` gives an integer is that integer again, for every integer: an id printed by `__toString` reads back as the id |
| Php.ParseIntPrefix | core/dbmodel.php:97-99 | the `(int)` cast stops at the first character that is not a digit, so `"<n>,<rest>"` reads as n |
| Php.ParseIntUnsigned | core/dbmodel.php:62 | `(int)` of a text that starts with a digit is the value of its leading run of digits |
| Php.ParseIntNegative | core/dbmodel.php:62 | a leading minus sign negates the value of the digits after it |
| Php.StringOf | models/db.php:89 | (definition) the `(string)` cast and string interpolation: null and false give "", true "1", an integer its decimal text, an array "Array", a resource "Resource id #<n>", an entity its id ("" before it has one) |
| Php.Empty | models/db.php:175-177 | (definition) `empty()`: null, false, 0, "", "0" and the empty array |
| Php.LooseEqualsString | core/dbmodel.php:366 | (definition) PHP 7's loose `==` of a text with each kind of value: numeric texts compare as numbers, booleans by truthiness |
| Php.InArrayLoose | core/dbmodel.php:366 | (definition) `in_array` with its default loose comparison: some value is loosely equal to the text |
| Php.Join | core/modellist.php:135 | (definition) `implode`: the parts with the separator between consecutive ones; inverted by `Split` as `Php.SplitJoin` states |
| Php.ToLower | core/controller.php:106 | `strtolower` keeps the length and lowers each character on its own |
| Php.Split | core/routerabstract.php:8 | `explode` with a one-character delimiter gives at least one part; `SplitNoDelimiter`, `SplitConcat` and `SplitJoin` state the rest |
| Php.SplitNoDelimiter | core/routerabstract.php:8 | `explode` on text without the delimiter gives that text as the only part |
| Php.SplitConcat | core/routerabstract.php:8 | `explode` cuts at the first delimiter and explodes the rest |
| Php.SplitJoin | core/modellist.php:134-136 | `explode` undoes `implode` when no part holds the delimiter |
| Php.Trim | core/routerabstract.php:13 | (definition) `trim` of one character: `TrimRight` of `TrimLeft`, whose contracts state what is cut |
| Php.TrimLeft | core/routerabstract.php:8 | the result is a suffix of the input that does not start with the trimmed character, and everything cut off is that character |
| Php.TrimRight | core/routerabstract.php:8 | the result is a prefix of the input that does not end with the trimmed character, and everything cut off is that character |
| Php.ArraySlice | core/dbmodel.php:117 | (definition) `array_slice` as PHP 7 computes it; `ArraySliceIsRun` states every case |
| Php.ArraySliceIsRun | core/dbmodel.php:117 | `array_slice` returns the run from the (rebased) offset: to the end for a null length, `length` elements or up to the end for a non-negative length, up to `length` before the end for a negative one, and nothing for an offset past the end |
| Php.Fmt | models/db.php:252-257 | (definition) `vsprintf`: a `%` followed by any character but `%` takes the next argument, `%%` prints `%`, other characters are copied; too few arguments or a final lone `%` fail (None); `FmtExact` states when it succeeds |
| Php.Convert | models/db.php:256 | (definition) what one conversion prints: `%d` the integer value of its argument, `%s` the argument; the other conversions are not modelled |
| Php.Conversions | models/db.php:256 | (definition) the number of arguments a format takes: one per `%` that is not part of `%%` |
| Php.Terminated | models/db.php:256 | (definition) no conversion is cut off by the end of the format |
| Php.TerminatedWithoutFinalPercent | models/db.php:256 | a format that does not end in `%` has no conversion cut off at its end |
| Php.FmtLiteral | models/db.php:256 | `vsprintf` prints text without `%` as it is, and consumes no argument |
| Php.FmtExact | models/db.php:256 | `vsprintf` succeeds exactly when no conversion is cut off by the end of the format and it has at least as many arguments as the format takes; otherwise it returns false (None) |
| Php.FmtAppend | models/db.php:256 | formatting a concatenation formats each part with its own arguments and concatenates the results |
| Php.ConversionsAppend | models/db.php:256 | the arguments a concatenation takes are those of each part in turn, counting every `%` not part of `%%`, when the first part does not end in `%` |
| Assoc.Keys | core/modellist.php:135 | `array_keys`: one key per pair, in the array's order |
| Assoc.Values | models/db.php:78 | `array_values`: one value per pair, in the array's order |
| Assoc.Get | core/model.php:120-122 | a lookup succeeds exactly for the array's keys, and gives that key's value |
| Assoc.Put | core/model.php:126-128 | after `$a[$k] = $v`, k gives v and every other key its old value; an existing key keeps its place and a new key goes last |
| Assoc.Delete | core/model.php:129-131 | after `unset($a[$k])`, k is gone and every other key gives its old value |
| Assoc.PutDistinct | core/model.php:126-128 | assigning a key keeps an array free of repeated keys |
| Assoc.DeleteAt | core/model.php:65 | unsetting the key at position i removes exactly that pair, and the others keep their order |
| Assoc.DeleteAbsent | core/model.php:129-131 | unsetting a key that is not there changes nothing |
| Assoc.DeleteDistinct | core/model.php:129-131 | unsetting a key keeps an array free of repeated keys |
| Eviction.KeepDirty | core/model.php:79-91 | (definition) what `factoryReset` leaves: the modified entries in order; `KeepDirtySize`, `KeepDirtyExact` and `ResetWalk` state it |
| Eviction.Cleanup | core/model.php:59-70 | (definition) what `factoryCleanup` leaves: nothing changes at 99 entries or fewer, otherwise the excess of unmodified entries is evicted oldest first; `CleanupSize`, `CleanupBudget` and `CleanupWalk` state it |
| Eviction.EvictShape | core/model.php:63-68 | before the point where the walk stops, every unmodified entry is gone and the modified ones stay in order; after it, every entry stays |
| Eviction.EvictKeepsModified | core/model.php:64-65 | eviction never removes a modified entry |
| Eviction.EvictCount | core/model.php:63-68 | eviction with a budget removes as many entries as the smaller of the budget and the number of unmodified entries |
| Eviction.KeepDirtySize | core/model.php:82-90 | the reset leaves as many entries as are modified |
| Eviction.CleanupSize | core/model.php:62-68 | cleanup changes nothing at or under 99 entries; above that it leaves the larger of 99 and the number of modified entries |
| Eviction.ResetIsUnboundedEviction | core/model.php:79-91 | the reset is the cleanup walk with no budget limit |
| Eviction.KeepDirtyAllDirty | core/model.php:82-90 | a reset with every entry modified changes nothing |
| Eviction.KeepDirtyExact | core/model.php:82-90 | the reset keeps every modified entry, and only as many entries as are modified |
| Eviction.WalkNext | core/model.php:63-65 | one step of the foreach unsets entry i exactly when it is unmodified |
| Eviction.WalkIsKeepDirty | core/model.php:63-65 | after visiting i entries, the walk holds the modified entries among them followed by the entries not yet visited, and no key repeats |
| Eviction.WalkSize | core/model.php:63-65 | after visiting i entries, the walk has removed one entry per unmodified entry visited |
| Eviction.ResetWalk | core/model.php:82-90 | the walk over every entry keeps exactly the modified entries |
| Eviction.CleanupWalk | core/model.php:63-68 | a walk above the limit that stops at the end, or as soon as at most 99 entries remain, leaves what the cleanup specification leaves |
| Eviction.CleanupBudget | core/model.php:67 | where the walk stops, it has removed exactly the number of entries above 99, or fewer at the end of the list |
| Relations.MatchAccessor | core/dbmodel.php:242 | (definition) `preg_match('/^get([A-Z][a-z]*)(Count)?$/')`, with `$` also matching before one final newline; `MatchAccessorSound` and `MatchAccessorComplete` state it both ways |
| Relations.MatchAccessorSound | core/dbmodel.php:242 | a name matches only if it is `get`, a capitalised word and an optional `Count`, and the match gives back that word and whether `Count` was present |
| Relations.MatchAccessorComplete | core/dbmodel.php:242 | every name of the form `get<Word>` or `get<Word>Count` matches, with that word |
| Relations.ArrayMerge | core/dbmodel.php:262 | (definition) `array_merge` for string keys: the second array's pairs written into the first in order; the `Merge` lemmas state its result |
| Relations.MergeKeepsOrder | core/dbmodel.php:262 | `array_merge` keeps the first array's keys at the front, in their order |
| Relations.MergeKeepsOthers | core/dbmodel.php:262 | a key that the second array lacks keeps the first array's value |
| Relations.MergeTakesTheirs | core/dbmodel.php:262 | the second array's value wins on every key it has |
| Relations.MergeFront | core/dbmodel.php:262 | merging a where array behind `[key => id]` puts key first, and each key gets the where array's value if it has one, else the id |
| Relations.MergeWhere | core/dbmodel.php:256-267 | a null predicate becomes `[key => id]`; an array gets key merged in front, and the caller's own value for key wins; a text predicate gets `` `key` = id AND `` put before it |
| Relations.PrefixedText | core/dbmodel.php:259 | the text predicate starts with the back-quoted key and ends with the caller's text |
| Relations.PlanRelationCall | core/dbmodel.php:242-286 | only a matching name whose lower-cased word is a one-to-many relation is answered, and every such name with at most three arguments (at most one for Count) is; a Count name plans a count query and any other name a list query; the plan reads the target class's table with the merged where, and a list query also uses the target's primary key and the order and limit arguments |
| Records.Constructed | core/dbmodel.php:56-68 | a row becomes loaded data, with the id read from its primary-key column; a scalar becomes an unloaded id; null makes a new record; the fields start equal to the baseline |
| Records.LoadStep | core/dbmodel.php:189-221 | nothing happens (Skipped) exactly for a loaded or new record; otherwise the cache is read first: a cached key is a hit whatever the table holds, and the table is read only on a miss; a cache hit or a store row becomes both data and baseline and marks the record loaded; a fetched row is the table's row under the id, and it is written back to the cache under the same key with a 7200-second expiry; a missing row ends the process with the state unchanged |
| Records.LoadIdempotent | core/dbmodel.php:190 | a second `load()` does nothing |
| Records.LoadThenCacheHit | core/dbmodel.php:197-219 | after a fetch from the store and its cache writes, the next instance of that id hits the cache and gets the same row |
| Records.SetStep | core/dbmodel.php:343-352 | a read-only record is untouched; otherwise the record is loaded first, and the process dies exactly when load finds no row |
| Records.SetStepFields | core/dbmodel.php:346-350 | after `__set` the field holds the value and every other field is unchanged; an array value nulls that field's baseline, other baselines stay |
| Records.SetMarksModified | core/dbmodel.php:165-167 | writing an array, or a value different from the field's baseline, makes the record modified |
| Records.UnsetStep | core/dbmodel.php:361-369 | a read-only record is untouched; otherwise the field is removed, and put back as null when its name occurs among the baseline's values; a well-formed record stays well-formed |
| Records.UnsetDistinct | core/dbmodel.php:364-367 | the data `unset` leaves, with or without the null put back, has no repeated keys |
| Records.UnsetChecksValues | core/dbmodel.php:366-367 | the name is compared with the baseline's values, not its keys: unsetting `title` from a record whose baseline holds `title => "x"` removes the field altogether, although `title` is a baseline key |
| Records.SetAllStep | core/model.php:110-114 | (definition) `setData`: `__set` for each pair in order, nothing on a read-only record; the `SetAll` lemmas state its outcome and fields |
| Records.SetAllOutcome | core/model.php:110-114 | `setData` does nothing on a read-only record or with no values; otherwise it dies exactly when load finds no row |
| Records.SetAllSnoc | core/model.php:112-113 | `setData` with one more value is the next `__set` applied to the state before it |
| Records.SetAllDiedStays | core/dbmodel.php:210 | once the process dies at some field, the later fields change nothing |
| Records.SetAllNext | core/model.php:110-114 | one turn of the loop: `__set` of the next pair extends the prefix's outcome, and a death there is the outcome of the whole call |
| Records.SetAllFields | core/model.php:110-114 | after `setData` on a writable record, each field written holds its value and every other field holds what load left there |
| Records.SetAllLast | core/model.php:112-113 | the last value of `setData` is written on top of the writes before it |
| Records.ResetStep | core/dbmodel.php:175-177 | after `reset()` the record is not modified, the baseline, id and flags are unchanged, and a well-formed record stays well-formed |
| Records.FieldValue | core/dbmodel.php:325 | a field that exists gives its value; a missing field gives null |
| Records.Payload | core/dbmodel.php:128-133 | (definition) the array commit writes: all fields of a new record, the baseline's columns of an existing one; `PayloadOfExisting` states the latter |
| Records.UpdatePayload | core/dbmodel.php:133-134 | the update payload has exactly the baseline's columns, each with the field's current value or null when the field is gone |
| Records.UpdatePayloadKeys | core/dbmodel.php:133-134 | with no column listed twice, the payload keeps the baseline's column order |
| Records.UpdatePayloadSnoc | core/dbmodel.php:133-134 | one more turn of the payload loop assigns the next baseline column |
| Records.CommitStep | core/dbmodel.php:126-158 | an empty payload returns false and changes nothing; otherwise the baseline is synchronised, a new record is inserted and takes the new id as its primary key, an existing one is updated by its id, and the record is written to the cache under `object:<class>:<id>` |
| Records.CommitStepFields | core/dbmodel.php:145-146 | inserting a new record changes no field but the primary key |
| Records.PayloadOfExisting | core/dbmodel.php:130-135 | an existing record's payload has exactly the baseline's keys; a removed field is written as null; an unchanged field as its baseline value |
| Records.DirtyPayload | core/dbmodel.php:122 | the payload the doc comment describes: exactly the changed fields, each with its current value (null once removed) |
| Records.SetThenDirtyPayload | core/dbmodel.php:122 | after `__set(name, value)` on a loaded record, the described payload is unchanged at every other field and holds `name` exactly when the value differs from the baseline (an array always does) |
| Records.DirtyAfterSet | core/dbmodel.php:122 | a write of a value under one name changes the described payload only there, where it is present exactly when the value differs from the baseline or is an array |
| Records.SetSendsUntouchedColumn | core/dbmodel.php:133-134 | as written, after `__set` of one field, commit still sends every other baseline column at its baseline value, where the described payload has none |
| Records.SetArrayJoinsPayload | core/dbmodel.php:349-350 | writing an array into an existing record puts that column into the next payload with the array |
| Records.SecondCommitInsertsAgain | core/dbmodel.php:144-150 | as written, committing the same new record twice issues two inserts |
| Records.CommitStepIntended | core/dbmodel.php:126-158 | the intended commit: the same payload and write, a record that is no longer new afterwards, and a cache write under the key load reads |
| Records.CommitIntendedThenUpdates | core/dbmodel.php:144-151 | with the intended commit, a second commit after an insert is an update |
| Records.CacheKeysDiffer | core/dbmodel.php:194 | the key load reads and the key commit writes are never equal |
| Records.CommitLeavesStaleCache | core/dbmodel.php:154 | as written, after a commit, another instance with the same id still loads the old cached row |
| Records.CommitIntendedRefreshesCache | core/dbmodel.php:154 | with the intended commit, another instance with the same id loads the committed data |
| Models.Entity.IsModified | core/dbmodel.php:165-167 | (definition) `isModified()`: the data differs from the baseline |
| Models.Entity.constructor | core/dbmodel.php:56-68 | the new instance's fields are those `Records.Constructed` describes, with no related instances; it is well-formed unless it is given an array with repeated keys |
| Models.Entity.Load | core/dbmodel.php:189-221 | the fields and cache writes after `load()` are those of `Records.LoadStep`; a well-formed instance stays well-formed when the cache and table rows have no repeated keys |
| Models.Entity.Set | core/dbmodel.php:343-352 | the fields after `__set` are those of `Records.SetStep`, and well-formedness is kept as for `Load` |
| Models.Entity.Unset | core/dbmodel.php:361-369 | the fields after `unset` are those of `Records.UnsetStep`, and well-formedness is kept as for `Load` |
| Models.Entity.Reset | core/dbmodel.php:175-177 | the data returns to the baseline, the record is no longer modified, and a well-formed instance stays well-formed |
| Models.Entity.Get | core/dbmodel.php:312-327 | load runs first; a plain name gives the field's value or null; a one-to-one relation gives the memoised instance, or a new instance built from the key column's value, which is memoised |
| Models.Entity.IsSet | core/dbmodel.php:329-332 | load runs first; the answer is whether the field exists and is not null |
| Models.Entity.SetData | core/model.php:110-114 | the fields after the loop are those of `Records.SetAllStep`, which applies `__set` to each pair in order |
| Models.Entity.CommitPayload | core/dbmodel.php:128-135 | the loop builds the payload `Records.CommitStep` writes |
| Models.Entity.Commit | core/dbmodel.php:126-158 | the fields, write and cache effect are those of `Records.CommitStep`; an insert files the instance under its new id after a cleanup, and otherwise the registry is unchanged; a well-formed instance stays well-formed |
| Models.Entity.CommitInsert | core/dbmodel.php:144-149 | the record takes the new id as its id and primary key, becomes its own baseline, and is filed in the registry after a cleanup |
| Models.Entity.CommitUpdate | core/dbmodel.php:150-155 | an update of the payload by the record's id, a cache write, and a synchronised baseline |
| Models.Entity.ToString | core/dbmodel.php:376-378 | a record without an id prints as ""; otherwise the text reads back as the id |
| Models.Registry.constructor | core/model.php:10 | the registry starts empty |
| Models.Registry.FactoryCleanup | core/model.php:59-70 | the class's entries become `Eviction.Cleanup` of them: nothing changes at or under 99, and above it unmodified entries are dropped oldest first until 99 remain; other classes are untouched |
| Models.Registry.FactoryReset | core/model.php:79-91 | the class keeps exactly its modified entries, in order; `$force` has no effect on the registry; other classes are untouched |
| Models.Registry.Factory | core/model.php:32-52 | an array gives a new, unregistered instance; a stored unmodified instance under the id is returned and nothing changes; otherwise a new instance is filed under the id after a cleanup and returned |
| Models.Registry.Enter | core/model.php:49-50 | the class's entries become the cleanup of the old ones with the instance then put under its key |
| Models.FactoryTwice | core/model.php:43-47 | asking twice for the same id, with nothing modified in between, hands out the same instance |
| ModelLists.DedupSpec | core/modellist.php:39-42 | construction keeps each id once, holds exactly the ids given, and orders them by first occurrence |
| ModelLists.DedupNoDup | core/modellist.php:41 | a list of ids without repeats is kept as it is |
| ModelLists.KeyValue | core/modellist.php:95-97 | a key read back by `array_keys` prints as the key it came from |
| ModelLists.KeysRoundTrip | core/modellist.php:97-101 | reading a list's keys back and filling them in again gives the same ids |
| ModelLists.FilterValues | core/modellist.php:97 | `array_filter` keeps exactly the values that pass the test |
| ModelLists.FilterValuesExact | core/modellist.php:97 | `array_filter` keeps the accepted values in their order (a subsequence of the input), each as often as it occurs, and nothing else |
| ModelLists.MapValues | core/modellist.php:95 | `array_map` applies the function to each value, in order |
| ModelLists.ApplySpec | core/modellist.php:93-104 | `count` is the number of ids; a filter keeps ids of the list and exactly those that pass, in the list's order; a map maps every id; a slice is `array_slice` of the ids |
| ModelLists.FilterSpec | core/modellist.php:97 | what a filter keeps prints as ids of the list, every id that passes is kept, and the kept ids keep the list's order |
| ModelLists.FilterOrder | core/modellist.php:97 | on ids without repeats, the filtered values come in the order of their ids in the list |
| ModelLists.FilterAllKeepsIds | core/modellist.php:97-101 | filtering with a test that accepts everything gives a list over the same ids |
| ModelLists.FilterAllIsIdentity | core/modellist.php:97 | a filter that accepts everything returns its input |
| ModelLists.ModelList.constructor | core/modellist.php:39-42 | the list holds the de-duplicated ids, every slot unresolved, both positions at 0 |
| ModelLists.ModelList.Current | core/modellist.php:48-57 | past the end gives false (`current()` of an exhausted array), modelled as None; otherwise the slot under the pointer is built on first read and returned unchanged on later reads |
| ModelLists.ModelList.Key | core/modellist.php:59-61 | the key is the position, not the id |
| ModelLists.ModelList.Next | core/modellist.php:63-67 | both positions move on by exactly one; the new current element is reused when its slot is filled, and otherwise is a fresh instance of the list's class built from the id under the cursor |
| ModelLists.ModelList.Rewind | core/modellist.php:69-72 | both positions return to 0 |
| ModelLists.ModelList.IsValid | core/modellist.php:74-76 | the list is valid exactly while the position is below the count |
| ModelLists.ModelList.Invoke | core/modellist.php:113-126 | null exactly when `array_slice` at the offset is empty; otherwise the element at that offset, built on first access and memoised |
| ModelLists.ModelList.Call | core/modellist.php:93-104 | a scalar result is returned as it is; an array result becomes a new list of the same class over those ids |
| ModelLists.ModelList.ToString | core/modellist.php:134-136 | (definition) `__toString()`: the ids joined by commas; `ToStringSplits` states that it splits back |
| ModelLists.ToStringSplits | core/modellist.php:134-136 | the comma-joined ids split back into the ids when no id holds a comma |
| Search.SearchKey | core/dbmodel.php:91 | (definition) the cache key of a search: the lower-case class name, `:search:`, then the texts standing for the serialised where and order, each in brackets |
| Search.ParseLimit | core/dbmodel.php:93-100 | as written, an empty limit clause reads as offset 0 and no limit, and any other clause as offset 0 and limit 0 |
| Search.ParseLimitPair | core/dbmodel.php:97-99 | the intended reading of `"<offset>,<limit>"` gives that offset and limit |
| Search.ParseLimitSingle | core/dbmodel.php:97-99 | the intended reading of a lone non-zero limit gives offset 0 and that limit |
| Search.LimitClauseIgnored | core/dbmodel.php:97-99 | `"0,10"` reads as limit 0 as written, and as limit 10 as intended |
| Search.PushedData | core/dbmodel.php:110-114 | `lPush` is given the ids' texts, or a single empty value when there are none |
| Search.Searched | core/dbmodel.php:93-117 | a cache hit leaves the cache as it is; a failed query returns null and leaves the cache as it is |
| Search.DoSearch | core/dbmodel.php:85-118 | the list and the cache after a search are those of `Search.Searched`; the list is null exactly when the query failed |
| Search.EmptyLimitReadsAll | core/dbmodel.php:93-95 | with an empty limit clause, a search returns the whole cached list, or every id the query gave |
| Search.LimitedSearchIsEmpty | core/dbmodel.php:96-100 | as written, any non-empty limit clause gives an empty result |
| Search.MissPushes | core/dbmodel.php:107-115 | a cache miss stores under the key the list `lPush` builds from the ids |
| Search.HitReadsList | core/dbmodel.php:103-105 | a cache hit with no limit reads the whole stored list |
| Search.CachedInReverse | core/dbmodel.php:114 | a miss stores the ids last first, so the next search reads them in reverse |
| Search.CachedOrderFlips | core/dbmodel.php:114 | as written, ids 1 and 2 from the store come back from the cache as 2 and 1 |
| Search.EmptyResultCachesBlank | core/dbmodel.php:114 | as written, a search without results caches one empty string, and the next search returns the id "" |
| Search.IntendedCacheAgrees | core/dbmodel.php:103-117 | with the intended search, a cached search returns the ids the store gave, in the same order and under the same limit, and an empty result is not cached |
| Search.RelationList | core/dbmodel.php:290-296 | one instance per returned key, through `factory`, and a list over their ids |
| Cache.LRange | models/cache.php:81-85 | `LRANGE` never gives more elements than the list holds; `LRangeRun` states the exact run |
| Cache.LRangeRun | models/cache.php:83 | `LRANGE` with non-negative indices reads the inclusive run between them, cut at the end of the list |
| Cache.LSlice | models/cache.php:86-87 | a zero length gives an empty list |
| Cache.LSliceToEnd | models/cache.php:80-81 | a null length reads from the (rebased) start through the end |
| Cache.LSlicePositive | models/cache.php:82-83 | a positive length reads `[start, start + length - 1]`, so at most that many elements |
| Cache.LSliceNegativeReachesEnd | models/cache.php:84-85 | a negative length reads through the end of the list |
| Cache.LSliceIsArraySlice | models/cache.php:73-88 | with a null, zero or positive length and a start not before the list, `lSlice` is `array_slice` |
| Cache.LSliceNegativeLengthOverreads | models/cache.php:84-85 | as written, `lSlice([a,b,c,d,e], 0, -1)` returns five elements where `array_slice` returns four |
| Cache.LSliceFarStartRebasedTwice | models/cache.php:77-78 | as written, `lSlice([a,b,c,d,e], -7, null)` reads from index 3 where `array_slice` reads from 0 |
| Cache.LSliceIntended | models/cache.php:73-88 | the intended `lSlice` is `array_slice` for every start and length |
| Cache.PushValues | models/cache.php:55-58 | an empty value pushes one empty value; an array pushes one value per element; any other value pushes itself |
| Cache.Push | models/cache.php:58 | `LPUSHX`/`RPUSHX` on a missing key change nothing; other keys are untouched |
| Cache.LPushReverses | models/cache.php:58 | `lPush` onto a missing key stores the values last first |
| Db.FormatToken | models/db.php:295-310 | (definition) `formatToken`: `%d` for booleans and integers, a quoted `%s` for strings and objects, `NULL` (or `IS NULL`) for null, nothing for arrays and resources; `TokenFmt` states what each prints |
| Db.FilterToken | models/db.php:283-285 | (definition) `filterToken` as written: every value but arrays and resources; `FilterTokenPassesNull` states the gap |
| Db.Params | models/db.php:78 | the values an array's filter passes, in order, never more than the array holds |
| Db.FilterTokenIntendedIsPlaceholder | models/db.php:274-285 | the filter as documented holds exactly when the value's token consumes one argument |
| Db.FilterTokenPassesNull | models/db.php:283-285 | as written, the filter passes null, whose token consumes no argument |
| Db.Escape | models/db.php:323-339 | escaping gives null exactly for arrays, resources and null |
| Db.EscapeAll | models/db.php:255 | each parameter is escaped on its own, in order |
| Db.TokenFmt | models/db.php:295-310 | each type's token, given its own escaped argument, prints its literal: the decimal value, the quoted text, or NULL |
| Db.BoolAsInt | models/db.php:326 | a boolean prints as the integer 1 or 0 |
| Db.JoinFmt | models/db.php:84 | joined templates, each given exactly its own arguments in turn, print the joined outputs, and each template's placeholders take their own arguments |
| Db.AlignedAppend | models/db.php:110 | two texts whose placeholders line up with their own arguments still line up when concatenated |
| Db.WhereText | models/db.php:80-84 | the loop builds the conditions joined by " AND ", in the array's order |
| Db.ArgsAreIntendedParams | models/db.php:78 | the arguments the placeholders consume are the escaped values the documented filter keeps |
| Db.WhereAligned | models/db.php:162-169 | with the documented filter, each condition's placeholder takes its own entry's escaped value, and the conditions print as the rendered comparisons |
| Db.WhereNullShiftsParams | models/db.php:163-169 | as written, `['a' => null, 'b' => 5]` renders as `` `a` IS NULL AND `b` = 0 `` |
| Db.Execute | models/db.php:252-259 | with no parameters the query is sent as it is; with parameters it is sent exactly when no conversion is cut off by the end of the query and the query takes no more arguments than it is given (otherwise `vsprintf` returns false), and when the placeholders line up with the escaped parameters the sent text is the text they print |
| Db.Delete | models/db.php:76-95 | `DELETE FROM` the table `WHERE` the conditions (or the text), then the limit when it is not empty; the parameters are the filtered predicate values |
| Db.Insert | models/db.php:108-113 | the parameters are the filtered values in the data's order |
| Db.Replace | models/db.php:136-141 | the parameters are the filtered values in the data's order |
| Db.InsertColumnsMatchTokens | models/db.php:110 | the column list and the VALUES tokens are in the same order, one per field |
| Db.Select | models/db.php:157-190 | `SELECT` what `FROM` the table, then WHERE, ORDER BY and LIMIT in that order, each only when not empty; parameters only for an array predicate |
| Db.Update | models/db.php:202-225 | the SET list in the data's order, then the predicate; the parameters are the data's values followed by the predicate's |
| Db.ParamsWithoutNulls | models/db.php:283-285 | on data without nulls, the filter as written passes the same values as the documented one |
| Db.InsertAligned | models/db.php:110-111 | with the documented filter, each VALUES token takes its own field's escaped value |
| Db.UpdateSetAligned | models/db.php:203-204 | with the documented filter, each SET assignment takes its own field's escaped value |
| Db.InsertRenders | models/db.php:108-113 | on data without nulls, `insert` sends `INSERT [DELAYED ]INTO` the table, the columns in order, and VALUES with each field's literal in its own place |
| Db.ReplaceRenders | models/db.php:136-141 | on data without nulls, `replace` sends `REPLACE INTO` the table with each field's literal in its own place |
| Db.DeleteRenders | models/db.php:76-96 | on an array predicate without nulls, `delete` sends the conditions with each value's literal in its own comparison, then the limit |
| Db.SelectRenders | models/db.php:157-179 | on an array predicate without nulls, `select` sends the WHERE conditions with each value's literal in place, followed by ORDER BY and LIMIT |
| Db.UpdateRenders | models/db.php:202-225 | on data and an array predicate without nulls, `update` sends each assignment and each condition with its own value's literal |
| Db.UpdateTextTakesArguments | models/db.php:202-225 | a text predicate holding a `%` that is not part of `%%` takes one of the data's parameters, so `update` with a non-empty data array and such a predicate sends nothing (`vsprintf` runs out of arguments) |
| Db.LikePatternTakesArgument | models/db.php:219-222 | `update('t', ['a' => 1], "code LIKE 'A%b'")` sends nothing: `%b` takes an argument that is not there |
| Db.ConversionsGrow | models/db.php:256 | appending text never lowers the number of arguments a format takes |
| Db.InsertNullShiftsValues | models/db.php:110-111 | as written, inserting `['a' => null, 'b' => 5]` writes `VALUES (NULL,0)` |
| Bulk.Splice | models/dbbulk.php:25 | (definition) `array_splice($data, $index, 1)`; the three `Splice` lemmas state its cases |
| Bulk.RowText | models/dbbulk.php:34 | (definition) one row's text: its tokens joined by `,` and formatted with every value's escape, false printing as nothing; `RowAligned`, `RowTextWithoutNulls` and `RowNullShiftsValues` state it |
| Bulk.SpliceRemovesOne | models/dbbulk.php:24-26 | removing an index inside the buffer deletes exactly that row, and later rows shift down one place in order |
| Bulk.SpliceFromEnd | models/dbbulk.php:25 | a negative index removes the row that many places from the end |
| Bulk.SplicePastEnd | models/dbbulk.php:25 | an index past the end leaves the buffer as it is |
| Bulk.RowAligned | models/dbbulk.php:34 | as intended, each value of a row appears in its own column |
| Bulk.RowTextWithoutNulls | models/dbbulk.php:34 | a row whose every value has a placeholder is written as intended |
| Bulk.RowNullShiftsValues | models/dbbulk.php:34 | as written, the row `[null, 5]` is written `NULL,0` |
| Bulk.RowNullIntended | models/dbbulk.php:34 | as intended, the row `[null, 5]` is written `NULL,5` |
| Bulk.DbBulk.constructor | models/dbbulk.php:12-17 | the buffer starts empty, holding the operation, table and fields |
| Bulk.DbBulk.Add | models/dbbulk.php:19-22 | the row is appended, and its index (count - 1) is returned |
| Bulk.DbBulk.Remove | models/dbbulk.php:24-26 | the buffer becomes the `array_splice` of one row at the index |
| Bulk.DbBulk.Commit | models/dbbulk.php:28-42 | an empty buffer gives nothing; otherwise the statement over one text per row, in buffer order, and an empty buffer |
| Router.Segments | core/routerabstract.php:8 | (definition) the URI before `?`, trimmed of `/`, exploded on `/`; `SplitParts` states that no segment holds `/` |
| Router.AssignPairs | core/routerabstract.php:18-24 | (definition) the remaining segments read as key/value pairs, a lone last key getting null; `AssignUntouched`, `AssignLast` and `AssignDistinct` state it |
| Router.Prefix | core/routerabstract.php:8 | the URI up to its first `?`, which it does not contain |
| Router.PrefixDropsQuery | core/routerabstract.php:8 | everything from the first `?` is dropped |
| Router.SplitParts | core/routerabstract.php:8 | no segment holds a `/` |
| Router.ControllerAndAction | core/routerabstract.php:10-11 | the controller and action are the first two segments unless those are missing or falsy, and never hold a `/` |
| Router.PathShapes | core/routerabstract.php:13 | the path is `/controller/action`, `/controller`, `/action` or `/`, for each combination of missing parts |
| Router.EmptyUriIsRoot | core/routerabstract.php:8-13 | a URI with no segments maps to the path `/` and leaves no pairs |
| Router.GetRoute | core/routerabstract.php:6-28 | the route is the lookup of the path built from the first two segments, and the parameters are extended with the rest, read as pairs |
| Router.AssignUntouched | core/routerabstract.php:18-24 | a key that never stands at a key position keeps its old value |
| Router.AssignLast | core/routerabstract.php:18-24 | a repeated key keeps the value of its last pair, and a lone last key gets null |
| Router.AssignDistinct | core/routerabstract.php:22-23 | assigning pairs keeps the parameters free of repeated keys |
| Router.Map | core/routerabstract.php:30-37 | a set path gives its route; any other path gives `['error', '_404']` |
| Router.FirstMatch | core/routerabstract.php:40 | the index of the first route loosely equal to `[controller, action]`, or the table's length |
| Router.UrlFor | core/routerabstract.php:39-42 | null exactly when no route matches; otherwise the path of the first matching route |
| Router.UrlForThenMap | core/routerabstract.php:30-42 | the path `urlFor` gives maps back to a matching route |
| Router.MapThenUrlFor | core/routerabstract.php:30-42 | when a set path maps to a matching route, `urlFor` finds a path |
| Controllers.SortByPriority | core/controller.php:85-86 | sorting keeps the queue's length |
| Controllers.SortByPrioritySpec | core/controller.php:85-86 | the sorted queue is in non-decreasing priority and is a permutation of the queue |
| Controllers.SortKeepsLinks | core/controller.php:85-86 | sorting keeps each link once, and exactly the enqueued links |
| Controllers.StylesheetTag | core/controller.php:89 | a stylesheet link becomes a `<link` tag |
| Controllers.ScriptTag | core/controller.php:92 | a script link becomes a `<script` tag |
| Controllers.StylesheetsFirst | core/controller.php:88-92 | every stylesheet tag is output before every script tag |
| Controllers.TagsByPriority | core/controller.php:85-92 | within a type, the tags are those of the queue sorted into non-decreasing priority, one per entry |
| Controllers.OutputPositions | core/controller.php:88-92 | the output is the sorted stylesheets' tags followed by the sorted scripts' tags |
| Controllers.Controller.constructor | core/controller.php:20 | both queues start empty |
| Controllers.Controller.Enqueue | core/controller.php:74-76 | the link's priority is set, and a link enqueued again keeps one place with the new priority; other links are unchanged |
| Controllers.Controller.OutputEnqueued | core/controller.php:84-93 | both queues are sorted in place, and the output is the tags of the sorted stylesheets, then of the sorted scripts |
| Controllers.EchoStylesheets | core/controller.php:88-89 | one stylesheet tag per queued link, in queue order |
| Controllers.EchoScripts | core/controller.php:91-92 | one script tag per queued link, in queue order |
| Controllers.NothingEnqueued | core/controller.php:84-93 | before anything is enqueued, nothing is output |
| Controllers.RemoveAll | core/controller.php:106 | `str_replace` with an empty replacement never makes the text longer |
| Controllers.RemoveAllAbsent | core/controller.php:106 | text without the pattern's first character is left as it is |
| Controllers.Controller.ToString | core/controller.php:105-107 | (definition) `__toString()`: the class name without `Controller`, in lower case; `ToStringOfConventionalName` states it for conventional names |
| Controllers.ConventionalName | core/controller.php:106 | removing `Controller` from `<Name>Controller` gives the name, when `Controller` does not occur in the name |
| Controllers.ToStringOfConventionalName | core/controller.php:105-107 | a controller of class `<Name>Controller`, where `Controller` does not occur in the name, prints as the name in lower case |
| Controllers.CartControllerName | core/controller.php:105-107 | the controller `CartController` prints as `cart` |

## Left out

- I/O and connections are not modelled. This covers the mysqli connection and `Db::factory`, the Redis connection and `Cache::factory`, running a query, `Db::exec` (a shell command), and the forwarding `__call`/`__get`/`__set` of `Db` and `Cache`. The store and the cache are parameters, and writes are returned as values.
- `mysqli::escape_string` is a foreign call. It is the uninterpreted parameter `esc`. The id the database gives an insert is the parameter `insertId`.
- Redis expiry is not modelled. The expiries (900, 7200 and 1 seconds) are constants only, and a cached entry never expires in the model.
- `serialize`/`unserialize` are not modelled. A cached record is stored as its row. The search key takes the serialised predicate and order as texts.
- `die()` in `load` is not modelled as ending the process. It is the outcome `NotFound`, or `died`, with the state left unchanged.
- The stray `break` at core/dbmodel.php:273 stands outside any loop or switch, which PHP 7 refuses at compile time. The model takes it as absent, so a Count call goes on to its query.
- `Db::select` with `$primary` (re-keying fetched rows) is not modelled. Neither is turning a Count call's result into an integer or fetching a list call's rows. These read query results; `Search.RelationList` starts from the returned keys.
- Floating-point values are not part of `Php.Value`.
- PHP's dynamic dispatch (`new $class`, `extract`, `call_user_func_array` with arbitrary names) is not modelled. Relations are explicit `Schema` entries, and `ModelList::__call` is a fixed set of transforms: count, filter, map, slice.
- The plain `Model` class is not modelled. That covers its constructor, the always-false `isModified` (core/model.php:99-101) and its `__get`/`__isset`/`__set`/`__unset`. Every registered class in the model is a `DbModel`, which overrides them.
- `getRoute` reads the URI from `$_SERVER` and writes the pairs to both `$_GET` and `$_REQUEST`. In the model the URI is a parameter and the pairs are returned once.
- `Controller::init` and `Controller::redirect` are not modelled. They are dynamic dispatch, headers and `die`.
- `asort` is modelled as a stable sort. PHP does not promise an order between equal priorities.
- `DbBulk::commit` builds its statement but never sends it. The model returns the text.
- `Search.RelationList`: does not state which instance each key resolves to, only that there is one per key and that the list is over their ids.
- `Search.Searched`: its own contract states only the cache effects. The returned ids are stated by `Search.EmptyLimitReadsAll`, `Search.LimitedSearchIsEmpty` and `Search.HitReadsList`.
- `Cache.Push`: states the stored keys and that other keys are untouched. The stored list for `lPush` is stated by `Cache.LPushReverses`.
- `Controllers.RemoveAll`: states only a length bound. Its result on conventional names is stated by `Controllers.ConventionalName`.
- `Php.Fmt`: every `%` followed by a character other than `%` takes one argument, as in PHP, but only `%d` and `%s` print their argument; the other conversion letters print nothing in the model. Flags, width, precision and `n$` argument numbers are not modelled: the character after `%` is taken as the conversion.
- `Records.CommitStepIntended`: the cache holds rows, so the corrected commit stores the row itself; it stands for writing `serialize($this->data)`, which load unserialises. `Records.CommitIntendedRefreshesCache` rests on the same reading. As written, the raw array is passed to the cache and would be stored as the text "Array".
- `Php.ParseInt`: is unbounded. PHP's `(int)` saturates at `PHP_INT_MAX` (and `PHP_INT_MIN`) on longer digit runs, which the model does not capture.
- `Relations.ArrayMerge`: keeps every key as it is. PHP's `array_merge` renumbers integer keys, so a where array with integer keys is not modelled faithfully.
- `Cache.PushValues`: requires that the value is not an object. PHP's `(array)$obj` would push the object's properties, which `Php.Value` does not carry.
- The other files of the framework are not part of this model: views, bootstrap, autoloading, date/time, CSV, command-line helpers, HTTP requests and the job queue.

## Findings

| source | as written | input that shows it | evidently intended | confidence | as-written member | corrected member |
|---|---|---|---|---|---|---|
| core/dbmodel.php:97-99 | limit and offset are popped from the undefined `$limitCause`, so both read as 0 | limit clause `"0,10"` gives limit 0 and an empty result | pop them from the exploded `$limitClause` | not executed | Search.LimitClauseIgnored | Search.ParseLimitPair |
| core/dbmodel.php:114 | `lPush` stores the ids last first | a search giving ids 1, 2, then the same search from the cache gives 2, 1 | keep the store's order (`rPush`) | not executed | Search.CachedOrderFlips | Search.IntendedCacheAgrees |
| core/dbmodel.php:114 | an empty result pushes a single empty value | a search with no rows, then the same search returns a list holding the id "" | cache nothing for an empty result | not executed | Search.EmptyResultCachesBlank | Search.IntendedCacheAgrees |
| models/cache.php:84-85 | a negative length reads up to index size + start | `lSlice([a,b,c,d,e], 0, -1)` gives five elements | stop `length` elements before the end, as `array_slice` does | not executed | Cache.LSliceNegativeLengthOverreads | Cache.LSliceIntended |
| models/cache.php:77-78 | a start further back than the list is rebased, then rebased again by LRANGE | `lSlice([a,b,c,d,e], -7, null)` gives `[d,e]` | clamp the start at 0, giving the whole list | not executed | Cache.LSliceFarStartRebasedTwice | Cache.LSliceIntended |
| models/db.php:283-285 | `filterToken` passes null, whose token `IS NULL` has no placeholder | where `['a' => null, 'b' => 5]` renders as `` `b` = 0 `` | leave null out of the parameters, as the doc comment says | not executed | Db.WhereNullShiftsParams | Db.WhereAligned |
| models/db.php:110-111 | `filterToken` passes null to `insert`, whose token `NULL` has no placeholder | `insert('t', ['a' => null, 'b' => 5])` writes `VALUES (NULL,0)` | leave null out of the parameters, as the doc comment says | not executed | Db.InsertNullShiftsValues | Db.InsertAligned |
| models/dbbulk.php:34 | a null's escaped value is passed although `NULL` has no placeholder | the row `[null, 5]` is written `NULL,0` | pass only the values that have a placeholder | not executed | Bulk.RowNullShiftsValues | Bulk.RowNullIntended |
| core/dbmodel.php:144-150 | `$new` stays true after an insert | committing a new record twice issues two inserts | clear `$new` after the insert | not executed | Records.SecondCommitInsertsAgain | Records.CommitIntendedThenUpdates |
| core/dbmodel.php:154 | commit writes `object:<Class>:<id>` but load reads `<class>:data:<id>` | after a commit of a changed record, another instance with the same id loads the old cached row | write `serialize($this->data)` under the key load reads, since load unserialises what it finds (core/dbmodel.php:199); as written phpredis would also store the array as the text "Array" | not executed | Records.CommitLeavesStaleCache | Records.CommitIntendedRefreshesCache |
| core/dbmodel.php:133-134 | every baseline column is sent, though the doc comment at line 122 says only modified fields are updated | after `set('a', 2)` on a record loaded as `['a' => 1, 'b' => 5]`, the update also sends `b = 5` | send only the changed fields | not executed | Records.SetSendsUntouchedColumn | Records.SetThenDirtyPayload |
