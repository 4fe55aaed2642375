# A Dafny model of the in-memory cursor, the filter rewrite and the slow-query rule of `database`

The `database` package gives one document-store interface over two backends: a pass-through
to a MongoDB server and an in-process store built on lokijs. Almost all of it delegates to
those libraries. This project models the three pieces of logic the package implements itself,
and proves what they promise:

- **The in-memory result cursor** (`LokiCursor`). It holds documents in order. `sort`
  returns a new cursor sorted by an ordered list of keys. `skip` and `limit` return new
  cursors over slices. `next` removes the first document from the cursor's own data.
  Documents are maps from field names to numbers or strings, and a missing name is an
  `undefined` field. Modules `CursorOrder` (the comparator), `CursorSort` (the stable sort)
  and `LokiCursor` (the cursor class).
- **The filter rewrite of the in-memory collection** (`transformQuery`). Before a filter
  goes to lokijs, every top-level value with a truthy `exec` member is replaced in place by
  `{$regex: value}`. A null or undefined top-level value throws. Module `LokiQuery`:
  `QueryObject` is the filter object, with its key order and entries. `LokiDatabaseCollection`
  holds the lokijs `find`/`findOne` lookups as parameters. `PendingFind` is the `{toArray}`
  object that `findDocuments` returns.
- **The slow-query rule of the debugging Mongo collection** (`isHighThreshold` and its use in
  `findDocuments`). If the explained plan examined more than ten documents per document
  returned, the trigger callback gets the execution stats. Module `MongoDebug`. JavaScript
  division is modelled by its three outcomes: a finite quotient, taken as an exact real (see
  "Left out" for rounding), `Infinity` for `n / 0` and `NaN` for `0 / 0`.

The comparator is a recursive function over the key list. `toSorted` is a stable insertion
sort over a value sequence. The cursor is a class with a `seq` field, and `Next` modifies it.
`transformQuery` is a method whose loop rewrites the filter object's map in place. It is
proved against `RewriteKeys`, a recursive function that gives the result of the loop.

## Model

| member | source | states |
|---|---|---|
| CursorOrder.Sign | lib/loki/LokiCursor.mjs:22-24 | a key's direction multiplies its column result by 1 or -1 |
| CursorOrder.Text | lib/loki/LokiCursor.mjs:15 | `toString()`: a string is its own text; an integer's text is a leading `-` exactly when it is negative, then digits (their value is stated by TextOfInteger) |
| CursorOrder.NatToStringValue | lib/loki/LokiCursor.mjs:15 | the digits written for a non-negative integer read back, in decimal, as that integer |
| CursorOrder.TextOfInteger | lib/loki/LokiCursor.mjs:15 | the digits of an integer's text stand for its absolute value, and two different integers never get the same text |
| CursorOrder.SortColumn | lib/loki/LokiCursor.mjs:13-18 | two documents that both lack the field, or hold the same value there, tie; its order is stated by ColumnAntisymmetric, ColumnTransitive, ColumnMissing and ColumnTie |
| CursorOrder.Compare | lib/loki/LokiCursor.mjs:20-26 | the comparator handed to `toSorted`; its properties are stated by CompareReflexive, CompareAntisymmetric, CompareTransitive, CompareAppend and CompareZeroIffAllTie |
| CursorOrder.CompareReflexive | lib/loki/LokiCursor.mjs:20-26 | every document ties with itself on any keys |
| CursorOrder.StrCompare | lib/loki/LokiCursor.mjs:15 | the string comparison returns -1, 0 or 1 |
| CursorOrder.StrCompareAntisymmetric | lib/loki/LokiCursor.mjs:15 | swapping the two strings negates the comparison |
| CursorOrder.StrCompareZero | lib/loki/LokiCursor.mjs:15 | two strings compare as 0 exactly when they are equal |
| CursorOrder.StrCompareTransitive | lib/loki/LokiCursor.mjs:15 | the string order is transitive |
| CursorOrder.ColumnAntisymmetric | lib/loki/LokiCursor.mjs:13-18 | `sortColumn(name, b, a) == -sortColumn(name, a, b)` for any two documents |
| CursorOrder.ColumnTransitive | lib/loki/LokiCursor.mjs:13-18 | one column's order is transitive when numbers and strings are not mixed |
| CursorOrder.ColumnMissing | lib/loki/LokiCursor.mjs:16-17 | two missing fields tie; a missing field is greater than a present one |
| CursorOrder.ColumnTie | lib/loki/LokiCursor.mjs:14-17 | for a key that does not mix numbers and strings, a column ties exactly when both fields are missing or both hold the same value |
| CursorOrder.SignedColumnTransitive | lib/loki/LokiCursor.mjs:22-24 | the column order times the key's direction is still transitive, for a key that does not mix numbers and strings |
| CursorOrder.CompareAntisymmetric | lib/loki/LokiCursor.mjs:20-26 | the multi-key comparator is antisymmetric |
| CursorOrder.CompareTransitive | lib/loki/LokiCursor.mjs:20-26 | the multi-key comparator is transitive for documents that do not mix kinds under a key |
| CursorOrder.CompareTie | lib/loki/LokiCursor.mjs:20-26 | tying on all keys is transitive, for documents that do not mix numbers and strings under a key |
| CursorOrder.ConformsComparable | lib/loki/LokiCursor.mjs:14-15 | documents that follow one kind per key never meet a number and a string under one key |
| CursorOrder.ConformingTransitive | lib/loki/LokiCursor.mjs:20-26 | the comparator is transitive over documents that follow one kind per key |
| CursorOrder.ConformingTie | lib/loki/LokiCursor.mjs:20-26 | tying on all keys is an equivalence over such documents: reflexive, symmetric and transitive |
| CursorOrder.CompareAppend | lib/loki/LokiCursor.mjs:21-25 | keys are consulted in order: with keys `k ++ m`, the comparator gives `k`'s result unless `k` ties, and otherwise `m`'s |
| CursorOrder.CompareZeroIffAllTie | lib/loki/LokiCursor.mjs:21-26 | the comparator returns 0 (the loop falls through) exactly when every key's column ties |
| CursorOrder.MixedColumnNotTransitive | lib/loki/LokiCursor.mjs:14-15 | under a key that mixes kinds, `2` ties with `"2"` while `2` sorts before `10` and `10` before `"2"`, so the comparator is not transitive there |
| CursorOrder.DescendingReverses | lib/loki/LokiCursor.mjs:22-24 | direction -1 gives the reverse of direction 1 |
| CursorSort.Insert | lib/loki/LokiCursor.mjs:20 | one insertion step of the stable sort adds exactly the inserted document |
| CursorSort.SortBy | lib/loki/LokiCursor.mjs:20-26 | the sorted data is a permutation of the cursor's data |
| CursorSort.SortByLength | lib/loki/LokiCursor.mjs:20 | sorting keeps the number of documents |
| CursorSort.InsertSorted | lib/loki/LokiCursor.mjs:20-26 | inserting into an ordered sequence keeps it ordered, when the documents follow one kind per key (no key mixes numbers and strings) |
| CursorSort.SortBySorted | lib/loki/LokiCursor.mjs:20-26 | every document of the sorted data compares at most 0 against every later one |
| CursorSort.InsertTies | lib/loki/LokiCursor.mjs:20-26 | inserting a document keeps the order of the documents it ties with, when the documents follow one kind per key |
| CursorSort.SortByStable | lib/loki/LokiCursor.mjs:20-26 | documents that tie on every key keep their original relative order |
| CursorSort.SortedByPrefixKeys | lib/loki/LokiCursor.mjs:21-25 | data sorted by `k ++ m` is sorted by `k`, and `m` orders only documents that tie on `k` |
| CursorSort.NumericAscending | lib/loki/LokiCursor.mjs:14 | with one numeric key and direction 1, values are non-decreasing |
| CursorSort.NumericDescending | lib/loki/LokiCursor.mjs:14 | with one numeric key and direction -1, values are non-increasing |
| CursorSort.MissingLastAscending | lib/loki/LokiCursor.mjs:16-17 | with direction 1, no document that has the field follows one that lacks it |
| CursorSort.MissingFirstDescending | lib/loki/LokiCursor.mjs:16-17 | with direction -1, no document that lacks the field follows one that has it |
| LokiCursor.Slice | lib/loki/LokiCursor.mjs:34-40 | `slice` never gives more documents than the data holds, nor a document it does not hold (multiset inclusion) |
| LokiCursor.Limited | lib/loki/LokiCursor.mjs:34-36 | for every count, negative ones included, `limit` keeps a prefix of the data |
| LokiCursor.Skipped | lib/loki/LokiCursor.mjs:38-40 | for every count, negative ones included, `skip` keeps a suffix of the data |
| LokiCursor.LimitedIsPrefix | lib/loki/LokiCursor.mjs:34-36 | for `k >= 0`, `limit(k)` keeps the first `min(k, n)` documents |
| LokiCursor.SkippedIsSuffix | lib/loki/LokiCursor.mjs:38-40 | for `k >= 0`, `skip(k)` keeps the documents from index `k` on, or none when `k > n` |
| LokiCursor.NegativeCounts | lib/loki/LokiCursor.mjs:34-40 | `limit(-m)` drops the last `m` documents and `skip(-m)` keeps the last `m` |
| LokiCursor.LimitedThenSkipped | lib/loki/LokiCursor.mjs:34-40 | for any count `k`, the data of `limit(k)` and of `skip(k)`, concatenated, are the whole data |
| LokiCursor.LimitedTwice | lib/loki/LokiCursor.mjs:34-36 | chained limits keep the smaller count |
| LokiCursor.SkippedTwice | lib/loki/LokiCursor.mjs:38-40 | chained skips add their counts |
| LokiCursor.Cursor.constructor | lib/loki/LokiCursor.mjs:5-7 | the cursor holds the given documents |
| LokiCursor.Cursor.ToArray | lib/loki/LokiCursor.mjs:9 | returns the documents not yet taken by `next` |
| LokiCursor.Cursor.Sort | lib/loki/LokiCursor.mjs:11-27 | a fresh cursor over the sorted data, a permutation of the old data; the receiver is unchanged |
| LokiCursor.Cursor.Next | lib/loki/LokiCursor.mjs:30-32 | returns and removes the head; on empty data returns nothing and the data stays empty; the returned document followed by the remaining data gives back the old data |
| LokiCursor.Cursor.Limit | lib/loki/LokiCursor.mjs:34-36 | a fresh cursor over `slice(0, count)`; the receiver is unchanged |
| LokiCursor.Cursor.Skip | lib/loki/LokiCursor.mjs:38-40 | a fresh cursor over `slice(count)`; the receiver is unchanged |
| LokiQuery.HasExec | lib/loki/LokiDatabaseCollection.mjs:23 | whether `query[key].exec` is truthy; ExecFieldIsWrapped, NestedRegexUnchanged and Wrap state what follows from it |
| LokiQuery.RewriteKeys | lib/loki/LokiDatabaseCollection.mjs:22-28 | the loop's result; it only ever throws at one of the filter's keys whose value is null or undefined; RewriteKeysSpec gives its exact outcome |
| LokiQuery.Wrap | lib/loki/LokiDatabaseCollection.mjs:23-27 | a value with `exec` becomes `{$regex: value}`; any other value is kept; the result never has `exec` |
| LokiQuery.FirstNullish | lib/loki/LokiDatabaseCollection.mjs:22-23 | the position of the first key whose value is null or undefined (where `.exec` throws), or the key count |
| LokiQuery.RewriteKeysPreservesKeys | lib/loki/LokiDatabaseCollection.mjs:22-28 | the rewrite never adds or removes a key, even when it throws |
| LokiQuery.RewriteKeysSpec | lib/loki/LokiDatabaseCollection.mjs:21-30 | keys before the first nullish value are wrapped; that key and later ones keep their values; the rewrite fails exactly at that key |
| LokiQuery.RewriteSucceedsIff | lib/loki/LokiDatabaseCollection.mjs:23 | the rewrite throws exactly when some top-level value is null or undefined |
| LokiQuery.RewriteOk | lib/loki/LokiDatabaseCollection.mjs:22-28 | after a successful rewrite the keys are the same; each key with `exec` holds `{$regex: <old value>}` and every other key keeps its value |
| LokiQuery.RewriteIdempotent | lib/loki/LokiDatabaseCollection.mjs:21-30 | a second rewrite gives exactly the first one's outcome: after a success it succeeds and changes nothing; after a TypeError it throws at the same key and leaves the partly rewritten filter as it was |
| LokiQuery.RewriteTopLevelOnly | lib/loki/LokiDatabaseCollection.mjs:22 | a top-level value without `exec` is kept whole, whatever regular expressions it contains |
| LokiQuery.NestedRegexUnchanged | lib/loki/LokiDatabaseCollection.mjs:22 | `{$or: [{name: /^H/}]}` passes through unchanged |
| LokiQuery.ExecFieldIsWrapped | lib/loki/LokiDatabaseCollection.mjs:23 | a plain sub-document with a truthy `exec` field is wrapped as well |
| LokiQuery.QueryObject.constructor | lib/loki/LokiDatabaseCollection.mjs:21 | a filter object with its keys in order |
| LokiQuery.LokiDatabaseCollection.constructor | lib/loki/LokiDatabaseCollection.mjs:4-7 | the collection holds the lokijs lookups |
| LokiQuery.LokiDatabaseCollection.TransformQuery | lib/loki/LokiDatabaseCollection.mjs:21-30 | rewrites the filter object in place to what `RewriteKeys` gives and returns the same object, or the TypeError for the first null or undefined key, with the earlier keys already rewritten |
| LokiQuery.LokiDatabaseCollection.FindDocument | lib/loki/LokiDatabaseCollection.mjs:38-40 | rewrites the filter at once and returns `findOne` of the rewritten filter, or the TypeError |
| LokiQuery.LokiDatabaseCollection.FindDocuments | lib/loki/LokiDatabaseCollection.mjs:32-36 | returns a pending result for this collection and the filter, which it does not modify |
| LokiQuery.PendingFind.constructor | lib/loki/LokiDatabaseCollection.mjs:33-35 | the `{toArray}` object captures the collection and the filter |
| LokiQuery.PendingFind.ToArray | lib/loki/LokiDatabaseCollection.mjs:34 | the rewrite happens only now; returns `find` of the rewritten filter, or the TypeError |
| MongoDebug.GreaterThan | lib/mongo/MongoDatabaseDebugCollection.mjs:27 | `q > 10`: `Infinity` is greater, `NaN` is not; used by HighThresholdOnCounts and NothingReturned |
| MongoDebug.IsHighThreshold | lib/mongo/MongoDatabaseDebugCollection.mjs:26-28 | a query that examined nothing is never high; one that examined something and returned nothing always is; HighThresholdOnCounts gives the full criterion |
| MongoDebug.Divide | lib/mongo/MongoDatabaseDebugCollection.mjs:27 | JavaScript division of counts: the exact quotient when dividing by a positive count, `Infinity` for `n / 0` with `n > 0`, `NaN` for `0 / 0` |
| MongoDebug.HighThresholdOnCounts | lib/mongo/MongoDatabaseDebugCollection.mjs:26-28 | high exactly when `examined > 10 * returned` for `returned > 0`, and when `examined > 0` for `returned = 0` |
| MongoDebug.RatioTenIsNotHigh | lib/mongo/MongoDatabaseDebugCollection.mjs:27 | a ratio of exactly 10 is not high (strict comparison) |
| MongoDebug.NothingReturned | lib/mongo/MongoDatabaseDebugCollection.mjs:27 | with nothing returned: `Infinity` is high, and `NaN` (nothing examined either) is not |
| MongoDebug.HighThresholdMonotonic | lib/mongo/MongoDatabaseDebugCollection.mjs:27 | with `returned` fixed, examining more documents never turns a high query into a normal one |
| MongoDebug.FiftyExaminedOneReturned | test/test-mongo-database.test.mjs:39-47 | 50 examined for 1 returned fires the trigger |
| MongoDebug.FindDocuments | lib/mongo/MongoDatabaseDebugCollection.mjs:12-17 | the trigger is called at most once, exactly when `isHighThreshold` holds and with the explained stats; the result is the driver's cursor for the query |

## Left out

- The Mongo pass-through (lib/mongo/MongoDatabaseCollection.mjs, lib/mongo/MongoDatabaseConnection.mjs), the `explain` call and the debugging collection's `findDocument`. These are one-line driver calls plus network I/O. In `MongoDebug.FindDocuments` the driver's `explain` and `find` are parameters.
- The lokijs plumbing: `LokiDatabaseConnection` (load/save/close I/O, get-or-create of a collection) and the `createIndex`, `createDocument(s)` and `dropCollection` delegations. lokijs's `find`/`findOne`, including how it evaluates `$regex`, are code outside this repository. They appear as parameters.
- The query, update, projection, aggregation, `$nearSphere` and batch-iteration engine from the tests. None of it is in the source: `LokiDatabaseCollection` inherits the empty methods of lib/DatabaseCollection.mjs. The stubs in lib/DatabaseCollection.mjs and lib/DatabaseConnection.mjs, `getCollectionName`, sample/set-up.mjs and index.mjs are left out too.
- `localeCompare`'s locale collation. The model compares strings by code point, a total order.
- Cursor field numbers are integers (`Value.Num` holds an `int`). Non-integer numbers, `NaN` and `Infinity` are left out. With such values the source behaves differently: `Infinity - Infinity` and any difference with `NaN` is `NaN`, which is `!== 0`, so the comparator returns `NaN` without looking at later keys, and `toSorted` treats `NaN` as a tie. Two such documents then tie even where a later key would separate them, which CompareAppend and SortedByPrefixKeys do not describe.
- `null` field values in a cursor: `null.toString()` throws, and `Value` has no null.
- Sort direction values other than 1 and -1. `Direction` has exactly those two values.
- `Number.prototype.toString` for integers of 10^21 or more, which JavaScript writes in exponent form. This only matters when a key mixes numbers and strings.
- The order `Object.keys` gives integer-like names: sort keys and filter keys are given as a sequence in iteration order.
- Floating point: counts are exact integers, and the threshold quotient is an exact real. For `returned` above about 10^15 the double quotient can round to exactly 10, and the model does not capture that.
- Aliasing: `toArray()` returns the cursor's own array, and lokijs may keep the filter object. The model has the contents, not the shared references.
- The trigger callback's own effects. `MongoDebug.FindDocuments` returns the list of arguments it was called with.
- CursorSort.SortBySorted: requires that no sort key holds a number in one document and a string in another (`AllConform`). For such mixed columns the source's comparator is not transitive (MixedColumnNotTransitive), so no order is promised.
- CursorSort.SortByStable: requires the same one-kind-per-key condition as SortBySorted.
- CursorSort.MissingLastAscending: requires the same one-kind-per-key condition as SortBySorted.
- CursorSort.MissingFirstDescending: requires the same one-kind-per-key condition as SortBySorted.
- `toSorted` is modelled by one particular stable sort, insertion: each document, from the last to the first, is inserted into the already sorted rest, before the first document it does not compare greater than. The properties proved of it are the ones the cursor relies on: permutation, order and stability.
