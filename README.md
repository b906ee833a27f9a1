# Inovision record store, modelled in Dafny

This project models the in-memory record store `MemStorage` of the Inovision
career-guidance server, and the request handling that picks which store query
answers a request.

The store keeps five tables:

- users
- quiz results
- colleges
- timelines
- saved items (bookmarks)

Each table is a JavaScript `Map` from record id to record. The model
represents it as a sequence of `(key, value)` entries in insertion order, with
unique keys. That is what `Array.from(map.values())` walks, and what `find`
searches.

Modules:

| module | file | contents |
|---|---|---|
| `Base` | `base.dfy` | `Option`, JSON values, JavaScript truthiness (`x \|\| default`) |
| `Text` | `text.dfy` | ASCII `toLowerCase` and `includes` |
| `Seqs` | `seqs.dfy` | `filter`, `find`, `findIndex` over sequences |
| `Tables` | `tables.dfy` | the `Map` operations `get`, `set`, `delete`, `values` |
| `Schema` | `schema.dfy` | the records, the insert payloads, and the `{ ...user, ...updates }` merge |
| `Colleges` | `colleges.dfy` | the stream category index and the five college queries, with their properties |
| `Timelines` | `timelines.dfy` | the active-timeline list, sorted by deadline, and the by-type list |
| `Storage` | `storage.dfy` | class `MemStorage` with its five tables, its mutators, and the user, quiz-result and saved-item queries |
| `Routes` | `routes.dfy` | which query `/api/colleges`, `/api/colleges/:id`, `/api/timelines` and `DELETE /api/saved-items` run, and their status |

The five college queries share one datatype, `CollegeQuery`, and one
per-college test, `Admits`. So their properties are stated between queries
over the same table.

Behaviour of the code worth knowing:

- **Malformed streams.** A college whose `streams` is not a list is dropped by
  `getCollegesByStream`. `getCollegesFiltered` skips its stream filter and keeps
  the college. So the standalone and combined stream queries agree only for
  a non-empty stream on a table where every college has a stream list
  (`Colleges.StreamQueriesAgree`, `Colleges.MalformedStreamsDiverge`).
- **"all" in the timelines route.** Only the colleges route turns `'all'` into
  "no filter". `GET /api/timelines?type=all` lists the timelines whose type is
  literally `all` (`Routes.TimelineTypeAllIsLiteral`).
- **The "Commerce" category.** None of the eight Commerce streams overlaps the
  word "Commerce" itself. A college whose only stream is `Commerce` is still
  selected by stream `Commerce`, through the direct-match branch alone
  (`Colleges.CommerceOnlyByDirectMatch`). So for Commerce, selection is not
  the same as having a stream that overlaps a category stream.
  - For the other four categories, the category name is contained in one of
    its own streams, so selection is exactly overlap
    (`Colleges.CategoryQueryIsOverlap`).
  - In general, a category name selects a college iff the name is one of its
    streams or some category stream overlaps one of them
    (`Colleges.CategoryQuery`).
- **Empty type.** `getCollegesByType("")` returns only the active colleges
  whose type is empty. The combined filter treats `""` as no filter
  (`Colleges.EmptyKindDiverges`).
- **Order of scans.** Scans return rows in table (insertion) order
  (`Colleges.QueryInTableOrder`, `Timelines.TimelinesByKindInTableOrder`).

## Model

| member | source | states |
|---|---|---|
| Base.JsonOr | server/storage.ts:427-428 | `j \|\| fallback` on an optional JSON value: the value itself when it is present and truthy, the fallback otherwise |
| Base.StringOrNull | server/storage.ts:323 | `s \|\| null`: present exactly when `s` is a non-empty string, and then equal to it |
| Text.Lower | server/storage.ts:336 | ASCII `toLowerCase` keeps the length and lowercases each character |
| Text.Contains | server/storage.ts:336 | `includes` is true iff the needle occurs at some position of the haystack |
| Text.ContainsEmpty | server/storage.ts:336 | every location includes the empty string |
| Seqs.Filter | server/storage.ts:331 | `filter` keeps exactly the elements the test accepts, and never lengthens the sequence |
| Seqs.FilterAppend | server/storage.ts:331 | filtering a concatenation is the concatenation of the filtered parts, so kept rows stay in order |
| Seqs.FilterMultiset | server/storage.ts:331 | `filter` keeps every copy of an accepted element and no copy of a rejected one |
| Seqs.FirstIndex | server/storage.ts:479-481 | `find` stops at the first accepting position, and finds none iff no element is accepted |
| Seqs.Find | server/storage.ts:284 | the element `find` returns is in the sequence, is accepted, and no earlier element is |
| Tables.Values | server/storage.ts:331 | `Array.from(map.values())` lists every value in entry order |
| Tables.Get | server/storage.ts:279-281 | `getUser` / `map.get` is absent iff the key is not in the map; otherwise it is the value of an entry under that key |
| Tables.Put | server/storage.ts:299 | `map.set(k, v)`: the keys afterwards are the keys before plus `k`, and the table grows by one entry iff `k` was new (exact results: PutFresh, PutPresent, PutThenGet) |
| Tables.GetAt | server/storage.ts:418 | with unique keys, `get` of an entry's key yields that entry's value |
| Tables.PutFresh | server/storage.ts:299 | `set` under a new key appends exactly one entry at the end |
| Tables.PutPresent | server/storage.ts:308 | `set` under a present key replaces the value in place and keeps every other entry where it was |
| Tables.PutKeepsUnique | server/storage.ts:308 | `set` keeps keys unique |
| Tables.PutThenGet | server/storage.ts:308 | after `set(k, v)`, `get(k)` is `v` and every other key reads as before |
| Tables.Delete | server/storage.ts:484 | `map.delete(k)` keeps exactly the entries under other keys, so `k` is no longer a key and a present `k` shortens the table (exact result: DeleteAt, DeleteAbsent) |
| Tables.DeleteAt | server/storage.ts:484 | with unique keys, `delete` of an entry's key removes exactly that entry and keeps the rest in order |
| Tables.DeleteAbsent | server/storage.ts:484 | `delete` of an absent key changes nothing |
| Schema.MergeUser | server/storage.ts:307 | `{ ...user, ...updates }`: an empty patch changes nothing; each of `id`, `username`, `email`, `password`, `profile` and `createdAt` takes the patch value when present and keeps the stored value when absent |
| Colleges.CategoryMappingShape | server/storage.ts:16-46 | `STREAM_CATEGORY_MAPPING` has exactly the keys Engineering, Medical, Commerce, Arts and Science, with 20, 12, 8, 11 and 11 streams |
| Colleges.Overlaps | server/storage.ts:353-356 | the pair test "either includes the other, ignoring case": for equal lengths it is equality ignoring case; otherwise only the longer can include the shorter |
| Colleges.AnyOverlap | server/storage.ts:353-356 | the inner `some` is true iff some college stream overlaps the category stream |
| Colleges.CategoryMatch | server/storage.ts:352-356 | the outer `some` is true iff some pair of category stream and college stream overlap |
| Colleges.StreamMatches | server/storage.ts:346-360 | a stream named verbatim always matches; a name that is no category matches iff named verbatim; a category name matches iff named verbatim or some category stream overlaps some college stream |
| Colleges.FilteredAdmits | server/storage.ts:375-414 | the combined filter admits only active colleges, whose location includes a truthy location filter and whose type equals a truthy type filter; with no truthy filter it admits exactly the active colleges (the full iff: FilteredIsConjunction) |
| Colleges.Admits | server/storage.ts:330-415 | every college query admits only active colleges, and the stream query only colleges with a stream list |
| Colleges.Query | server/storage.ts:330-415 | each college query returns exactly the colleges of the table its test admits |
| Colleges.QueryInTableOrder | server/storage.ts:330-332 | results follow table order: a split table answers with the first part's results followed by the second's |
| Colleges.QueryKeepsEveryCopy | server/storage.ts:330-332 | every admitted row comes back as often as the table holds it, a rejected row never |
| Colleges.FilteredIsConjunction | server/storage.ts:375-414 | the combined filter admits iff the college is active and passes each standalone filter whose value is truthy (the stream one only for a stream list) |
| Colleges.FilteredWithoutFiltersIsAll | server/storage.ts:370-415 | with no truthy filter value, `getCollegesFiltered` returns the same sequence as `getColleges` |
| Colleges.LocationQueriesAgree | server/storage.ts:334-338 | `getCollegesByLocation(l)` equals the combined filter with only `location: l`, for every `l` |
| Colleges.KindQueriesAgree | server/storage.ts:364-368 | `getCollegesByType(k)` equals the combined filter with only `type: k`, for every non-empty `k` |
| Colleges.EmptyKindDiverges | server/storage.ts:366 | an active college with a non-empty type is rejected by `getCollegesByType("")` and kept by the combined filter |
| Colleges.StreamQueriesAgree | server/storage.ts:340-362 | for a non-empty stream on a table whose colleges all have stream lists, `getCollegesByStream` equals the combined filter with only that stream |
| Colleges.MalformedStreamsDiverge | server/storage.ts:342 | an active college with malformed streams is dropped by `getCollegesByStream` and kept by the combined filter |
| Colleges.DirectStreamMatch | server/storage.ts:347 | a stream named verbatim in an active college's list selects it in both stream queries |
| Colleges.UnknownStreamExcluded | server/storage.ts:360 | a name that is neither in the college's list nor a category never selects it |
| Colleges.CategoryQuery | server/storage.ts:350-357 | for a category name, an active listed college is selected iff the name is one of its streams or some category stream overlaps some college stream |
| Colleges.CategoryNameOverlapsOwnStream | server/storage.ts:16-46 | Engineering, Medical, Arts and Science each contain a stream that includes the category's own name |
| Colleges.EngineeringInOwnStream | server/storage.ts:17-19 | "Civil Engineering", an Engineering stream, overlaps the name "Engineering" |
| Colleges.MedicalInOwnStream | server/storage.ts:26-28 | "Medical Laboratory Technology", a Medical stream, overlaps the name "Medical" |
| Colleges.ArtsInOwnStream | server/storage.ts:36-37 | "Fine Arts", an Arts stream, overlaps the name "Arts" |
| Colleges.ScienceInOwnStream | server/storage.ts:41-43 | "Environmental Science", a Science stream, overlaps the name "Science" |
| Colleges.CategoryQueryIsOverlap | server/storage.ts:350-357 | for those four categories, an active listed college is selected iff some category stream and some college stream overlap |
| Colleges.ShortCommerceStreamsMissName | server/storage.ts:32 | "B.Com" and "BBA" do not overlap "Commerce" |
| Colleges.CompanySecretaryMissesName | server/storage.ts:32 | "Company Secretary" does not overlap "Commerce" |
| Colleges.StreamsWithoutMMissName | server/storage.ts:32-33 | "Chartered Accountancy" and "Banking & Finance" do not overlap "Commerce" |
| Colleges.StreamsWithoutRMissName | server/storage.ts:33-34 | "Cost & Management Accountancy" and "Economics" do not overlap "Commerce" |
| Colleges.BusinessManagementMissesName | server/storage.ts:34 | "Business Management" does not overlap "Commerce" |
| Colleges.CommerceStreamMissesName | server/storage.ts:31-34 | no one of the eight Commerce streams overlaps the word "Commerce" |
| Colleges.CommerceOnlyByDirectMatch | server/storage.ts:340-362 | a college whose only stream is "Commerce" is selected by stream "Commerce", though no Commerce stream overlaps it |
| Timelines.InsertByDeadline | server/storage.ts:438 | inserting one timeline lengthens the list by one (order and contents: InsertSorted, InsertPermutes, InsertKeepsTies) |
| Timelines.SortByDeadline | server/storage.ts:438 | the sort keeps the length (order, contents and stability: SortSorted, SortPermutes, SortIsStable) |
| Timelines.InsertSorted | server/storage.ts:438 | inserting into a list sorted by deadline keeps it sorted |
| Timelines.InsertPermutes | server/storage.ts:438 | inserting adds exactly the inserted timeline and loses none |
| Timelines.SortSorted | server/storage.ts:438 | the sort returns its input ascending by deadline |
| Timelines.SortPermutes | server/storage.ts:438 | the sort returns a permutation of its input |
| Timelines.InsertKeepsTies | server/storage.ts:438 | an inserted timeline goes ahead of the timelines due at the same instant |
| Timelines.SortIsStable | server/storage.ts:438 | the timelines due at any one instant come out in their input order |
| Timelines.SortedTiesDetermine | server/storage.ts:438 | two sorted sequences with the same timelines, in the same order, at every instant are equal |
| Timelines.TimelineAdmits | server/storage.ts:437-443 | both timeline queries admit only active timelines; the by-type one exactly the active timelines of that type |
| Timelines.QueryTimelines | server/storage.ts:435-445 | both timeline queries return exactly the table's admitted timelines |
| Timelines.ActiveTimelinesSpec | server/storage.ts:435-439 | `getActiveTimelines` is the active timelines, each as often as stored, ascending by deadline, ties in table order |
| Timelines.ActiveTimelinesIsTheStableSort | server/storage.ts:435-439 | any stable sort by deadline of the active timelines equals `getActiveTimelines` |
| Timelines.TimelinesByKindInTableOrder | server/storage.ts:441-445 | `getTimelinesByType` is unsorted: it follows table order |
| Storage.UserByUsername | server/storage.ts:283-285 | the user found is the first stored user, in table order, with that username; none is found iff no stored user has it |
| Storage.UserByEmail | server/storage.ts:287-289 | the user found is the first stored user, in table order, with that email; none is found iff no stored user has it |
| Storage.QuizResultsByUser | server/storage.ts:313-315 | exactly the stored results whose owner is that user id |
| Storage.SavedItemsByUser | server/storage.ts:461-463 | exactly the stored items whose owner is that user id |
| Storage.FirstMatch | server/storage.ts:478-481 | the entry `deleteSavedItem` finds matches the triple and no earlier entry does; there is none iff no entry matches |
| Storage.RemoveFirstMatch | server/storage.ts:483-487 | with no match the table is unchanged; otherwise the first match is gone, the table is shorter, and no entry is new (exact result: RemoveFirstMatchSpec) |
| Storage.RemoveFirstMatchSpec | server/storage.ts:483-487 | deleting removes exactly the first matching entry and keeps the rest in order; with no match the table is unchanged |
| Storage.RemoveOneMatch | server/storage.ts:477-488 | deleting lowers the number of matching entries by exactly one; with no match there are none |
| Storage.SavedItemDuplicatesCoexist | server/storage.ts:465-475 | saving never checks for duplicates: a matching new item adds one more match |
| Storage.SaveThenDelete | server/storage.ts:465-488 | saving an item and then deleting its triple succeeds and leaves as many matches as before the save |
| Storage.SaveThenDeleteRemovesEarlier | server/storage.ts:477-488 | with an equal item saved before, the delete removes the earlier one and the new item stays |
| Storage.NullOwnerNeverListed | server/storage.ts:313-315 | a quiz result or saved item stored with a null owner is listed for no user id |
| Storage.QuizResultsAfterAppend | server/storage.ts:313-327 | a newly created quiz result is listed last for its owner and for no one else |
| Storage.SavedItemsAfterAppend | server/storage.ts:461-475 | a newly created saved item is listed last for its owner and for no one else |
| Storage.MemStorage.constructor | server/storage.ts:91-100 | the store starts with five empty tables and its invariant holds |
| Storage.MemStorage.CreateUser | server/storage.ts:291-301 | appends exactly one user under the fresh id, with a falsy profile stored as null; other tables unchanged |
| Storage.MemStorage.UpdateUser | server/storage.ts:303-310 | returns absent and changes nothing iff no user has that key; otherwise replaces that entry in place with the merged user and returns it |
| Storage.MemStorage.CreateQuizResult | server/storage.ts:317-327 | appends exactly one result under the fresh id, with a falsy owner stored as null; other tables unchanged |
| Storage.MemStorage.CreateCollege | server/storage.ts:421-432 | appends exactly one active college under the fresh id, with falsy facilities `[]` and cutoffs `{}`; other tables unchanged |
| Storage.MemStorage.CreateTimeline | server/storage.ts:447-458 | appends exactly one active timeline under the fresh id, with falsy streams `[]` and description null; other tables unchanged |
| Storage.MemStorage.CreateSavedItem | server/storage.ts:465-475 | appends exactly one item under the fresh id with no duplicate check, a falsy owner stored as null; other tables unchanged |
| Storage.MemStorage.DeleteSavedItem | server/storage.ts:477-488 | returns true iff some item matches all three fields; then exactly the first match is removed, otherwise nothing changes; other tables unchanged |
| Routes.Status | server/routes.ts:55-58 | 200 for a found answer, 404 for not found |
| Routes.DropAll | server/routes.ts:38-39 | a stream or type value is passed on iff it is truthy and not `'all'` |
| Routes.ChooseCollegeQuery | server/routes.ts:31-43 | the plain active list iff no parameter is truthy; otherwise the combined filter, with location verbatim and `'all'` dropped for stream and type |
| Routes.AllMeansUnfiltered | server/routes.ts:34-43 | stream and/or type `'all'` with no location yields the same colleges as no parameters |
| Routes.NamedParametersFilter | server/routes.ts:34-40 | with some parameter present, a college is listed iff active and passing each present filter, `'all'` excepted for stream and type |
| Routes.CollegesResponse | server/routes.ts:29-45 | `GET /api/colleges` lists exactly the stored active colleges that pass each truthy parameter, location verbatim, stream and type unless `all` |
| Routes.LocationAllIsLiteral | server/routes.ts:37 | `location=all` is not normalised: it keeps colleges whose location contains "all" |
| Routes.CollegeById | server/routes.ts:54-58 | not found iff no college is filed under the id; otherwise the college filed under it |
| Routes.CollegeByIdHasId | server/routes.ts:54-58 | in a store that files colleges by id, the college returned has the requested id |
| Routes.ChooseTimelineQuery | server/routes.ts:67-74 | the by-type query iff `type` is truthy, with that type taken literally; otherwise the sorted active list |
| Routes.TimelineTypeAllIsLiteral | server/routes.ts:70-71 | `type=all` lists the active timelines whose type is literally "all" |
| Routes.TimelinesResponse | server/routes.ts:65-76 | `GET /api/timelines` lists exactly the stored active timelines, of the given type when `type` is truthy, and ascending by deadline when it is not |
| Routes.DeleteSavedItemResponse | server/routes.ts:106-111 | `{ success: true }` iff an item was deleted, not found otherwise |
| Routes.DeleteStatus | server/routes.ts:103-111 | the delete answers 200 iff some saved item matches all three fields |

## Left out

- Storage.MemStorage.constructor: starts from empty tables. The sample colleges and timelines that the real constructor loads (server/storage.ts:102-276) are data, not behaviour.
- Fresh ids and clock readings: `randomUUID()` and `new Date()` become arguments of the `create*` methods. Each method requires an id not already in its table, and takes an integer instant `now`.
- Text.Lower: lowercases ASCII letters only. Full Unicode case mapping is not modelled.
- Storage.MemStorage.UpdateUser: a patch field is either present or absent. A field explicitly set to `undefined`, which the JavaScript spread would copy over the stored value, is not modelled.
- Storage.MemStorage.UpdateUser: a patch that carries `id` stores a user whose `id` differs from its key. This is modelled as the code does it, which is why the store invariant does not require users to be filed under their own id.
- Storage.MemStorage.DeleteSavedItem: the three fields are strings, as the method's signature declares. A request body with a missing or null field (which would then compare against stored nulls with `===`) is not modelled.
- Routes.ChooseCollegeQuery: query parameters are single optional strings. Repeated parameters, which Express delivers as arrays, are not modelled.
- Timelines.SortByDeadline: deadlines are integer instants. Invalid dates, whose comparisons yield `NaN`, are not modelled.
- Schema.Streams: a stream list holds strings. A JSON array with non-string members is not modelled.
- JSON numbers are integers. Floating point is not modelled.
- Express wiring, JSON serialisation, the try/catch mapping of failures to status 500, and request validation are I/O or foreign library code, and are not modelled. This covers the zod/drizzle insert schemas of shared/schema.ts, which the model reads only for field types and nullability.
- `async`/`Promise`: every store operation completes synchronously on in-memory data, so there is no concurrency to model.
- Lookups in the category mapping are modelled as a finite map with exactly its five keys. A lookup of a key inherited from the JavaScript object prototype, such as `toString`, is not modelled.
