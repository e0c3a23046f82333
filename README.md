# structr core, modelled in Dafny

This project models six pieces of the structr graph application platform and
proves properties of each:

- **Paged materialisation** (`Factory`, factory.dfy). A factory turns a cursor
  of raw store records into a `Result` of entities. It drops the records the
  security context hides, pages by page number and page size, and can anchor a
  page at the entity carrying a given uuid (the `offsetId`).
- **The Bolt unit of work** (`Bolt`, session_transaction.dfy). `SessionTransaction`
  records the entity wrappers modified under it. On `close()` it either marks
  them stale (rollback) or clears their caches and invalidates the query cache
  (commit). It turns transient driver failures into retry requests.
- **The property key** (`Properties`, property.dfy; `Search`, search.dfy).
  `Property<T>` covers:
  - the builder flags and the flags they imply;
  - hash code, equality, ordering and the synchronization key;
  - the index-update rule;
  - the grammar of HTTP search parameters (`[A TO B]`, `[]`, `;`-separated
    OR groups, and the ban on mixing `,` with `;`), written as the sequence of
    clauses handed to the query builder.
- **`complement(list, ...)`** (`Complement`, complement.dfy). This is list
  subtraction that keeps the first list's order and duplicates.
- **`to_csv(nodes, columns, ...)`** (`ToCsv`, to_csv.dfy). It covers argument
  handling and defaults, field escaping, column and record assembly, and the
  header row.
- **The UI helpers in helper.js** (`HelperText`, helper_text.dfy; `HelperState`,
  helper_state.dfy). These are:
  - the string helpers;
  - `without`/`isIn` and `nvl`;
  - the logger's subscription and ignore lists;
  - the `LSWrapper` key/value store;
  - the `AsyncObjectCache` callback state machine.

The shared modules are `Wrappers` (Option and Outcome) and `Text`:

- `Text` provides `StringUtils.replace` and `String.replaceAll` on literal
  patterns, character stripping, Java's 32-bit wrap-around, `String.hashCode`
  and `String.compareTo`.
- `Java int` arithmetic is unbounded; 32-bit wrap-around is written out for
  the negative-page slice only (see Findings and Left out).

### Form of the model

Loops and mutable objects become classes and methods:

- each setter of `FactoryProfile` and the paging loops of `Factory`;
- `SessionTransaction`'s fields and its `close` loop;
- `Property`'s builder methods and the query recorder;
- the CSV writer's row loops;
- `_Logger`, `LSWrapper` and `AsyncObjectCache`.

Each method is proved against a specification function, and the properties
the code promises are proved as lemmas about those functions. Expression code
(`hashCode`, `removeQuotes`, the escapers, `nvl`, ...) becomes functions and
lemmas.

### Where the code and its documentation disagree (the model follows the code)

- **offsetId page start.** With an `offsetId` and a positive page, the page
  starts with the `offsetId` entity itself, not after it
  (`Factory.OffsetIdPageStartsAtAnchor`).
- **Search-parameter status codes.** `[]` on a key that is not indexed when
  empty fails with status 400. Mixing `,` with `;` fails with 422.
- **`complement` and duplicates.** The usage text of `complement` says the
  result contains no duplicates. The code keeps the first list's duplicates
  (`Complement.ComplementKeepsDuplicates`).
- **`unique(boolean)`.** `unique()` makes a key require synchronization.
  `unique(true)` does not (`Properties.UniqueFlagScenario`).

## Model

| member | source | states |
|---|---|---|
| Factory.Clamp | structr-core/src/main/java/org/structr/core/graph/Factory.java:326-329 | a clamped index never exceeds the list size |
| Factory.FindUuid | structr-core/src/main/java/org/structr/core/graph/Factory.java:240-255 | the scan for the offsetId finds the FIRST visible entity with that uuid, or reports that none has it |
| Factory.VisibleAppend | structr-core/src/main/java/org/structr/core/graph/Factory.java:145-162 | the visible entities of a concatenated cursor are those of each part, in order |
| Factory.VisibleIsFilter | structr-core/src/main/java/org/structr/core/graph/Factory.java:145-162 | the visible entities are exactly the non-null instantiations of the cursor, at strictly increasing cursor positions, none skipped |
| Factory.IndicesMatch | structr-core/src/main/java/org/structr/core/graph/Factory.java:151-157 | the k-th visible entity is the instantiation of the record at the k-th visible position |
| Factory.IndicesIncrease | structr-core/src/main/java/org/structr/core/graph/Factory.java:151-157 | visible entities keep cursor order |
| Factory.IndicesComplete | structr-core/src/main/java/org/structr/core/graph/Factory.java:151-157 | a record position is kept if and only if its instantiation is non-null |
| Factory.VisibleLength | structr-core/src/main/java/org/structr/core/graph/Factory.java:145-162 | there are never more visible entities than records |
| Factory.WindowIsSlice | structr-core/src/main/java/org/structr/core/graph/Factory.java:364-376 | counting past `offset` and stopping after `pageSize` selects the slice `[offset, offset+pageSize)`, clamped to the list |
| Factory.WindowAt | structr-core/src/main/java/org/structr/core/graph/Factory.java:364-376 | a page holds at most `pageSize` items, item k is the list's item `offset+k`, and it is full unless the list runs out |
| Factory.WindowGrow | structr-core/src/main/java/org/structr/core/graph/Factory.java:364-376 | an item whose position is inside the window is appended to the page |
| Factory.WindowSame | structr-core/src/main/java/org/structr/core/graph/Factory.java:364-376 | an item whose position is outside the window leaves the page as it was |
| Factory.WindowOfPrefix | structr-core/src/main/java/org/structr/core/graph/Factory.java:281-283 | once the page is full, later items change nothing (the early return) |
| Factory.ScanEnd | structr-core/src/main/java/org/structr/core/graph/Factory.java:228-259 | where the first loop stops: the collected entities are the visible prefix up to and including the anchor, or all of them if there is no anchor |
| Factory.WindowFull | structr-core/src/main/java/org/structr/core/graph/Factory.java:301-303 | the third loop may stop as soon as the page is full |
| Factory.OffsetIdNotFound | structr-core/src/main/java/org/structr/core/graph/Factory.java:261-264 | an offsetId that no visible entity carries fails with `IdNotFound(offsetId)` once anything was visible |
| Factory.OffsetIdForwardPage | structr-core/src/main/java/org/structr/core/graph/Factory.java:209-311 | with page > 0 the page starts at the anchor itself, holds the visible entities that follow it, at most `min(rawSize, pageSize)` of them, and counts the raw size |
| Factory.OffsetIdBeforeStart | structr-core/src/main/java/org/structr/core/graph/Factory.java:266-272 | an offset before the start yields exactly the visible entities strictly before the anchor |
| Factory.PositivePageIsKthPage | structr-core/src/main/java/org/structr/core/graph/Factory.java:340-344 | page p of size n is the visible entities `(p-1)*n ..`, at most n of them and exactly n while enough remain; the count is every visible entity |
| Factory.UnpagedIsAllVisible | structr-core/src/main/java/org/structr/core/graph/Factory.java:342 | with the `Integer.MAX_VALUE` sentinel the offset is 0 and every visible entity is returned once, in order |
| Factory.NegativePageIsTailSlice | structr-core/src/main/java/org/structr/core/graph/Factory.java:321-338 | a negative page is the raw slice `[max(0,N+page*size), min(N, from+size))`, nulls kept, count N |
| Factory.FindUuidFirst | structr-core/src/main/java/org/structr/core/graph/Factory.java:240-250 | the first index whose uuid matches is what the scan reports |
| Factory.ResultWithoutOffsetIdInt32 | structr-core/src/main/java/org/structr/core/graph/Factory.java:321-338 | the negative-page path with Java's 32-bit `int` arithmetic, as written (see Findings) |
| Factory.NegativePageOverflow | structr-core/src/main/java/org/structr/core/graph/Factory.java:326-331 | page -2 with the default page size overflows to `subList(5, -2147483644)` and fails, where the intended result is all three records |
| Factory.UnpagedNegativePageIsAll | structr-core/src/main/java/org/structr/core/graph/Factory.java:321-338 | without 32-bit overflow, any negative page with the default page size returns every record |
| Factory.VisibleAll | structr-core/src/main/java/org/structr/core/graph/Factory.java:145-162 | when nothing is hidden the visible entities are the records themselves |
| Factory.SecondPageOfThree | structr-core/src/main/java/org/structr/core/graph/Factory.java:340-384 | seven entities, page 2 of size 3: entities 4 to 6, count 7 |
| Factory.OffsetIdPageStartsAtAnchor | structr-core/src/main/java/org/structr/core/graph/Factory.java:250-311 | anchored at "C", page 1 of size 2 is ["C", "D"] with count 7 |
| Factory.OffsetIdPreviousPage | structr-core/src/main/java/org/structr/core/graph/Factory.java:250-311 | anchored at "D", page -1 of size 2 is ["B", "C"] |
| Factory.FactoryProfile.constructor | structr-core/src/main/java/org/structr/core/graph/Factory.java:391-404 | the defaults: deleted and hidden included, not public only, no offsetId, page 1, `Integer.MAX_VALUE` page size |
| Factory.FactoryProfile.WithVisibility | structr-core/src/main/java/org/structr/core/graph/Factory.java:406-412 | the two visibility flags as given, paging at its defaults |
| Factory.FactoryProfile.WithPaging | structr-core/src/main/java/org/structr/core/graph/Factory.java:414-424 | every setting as given |
| Factory.FactoryProfile.SetIncludeDeletedAndHidden | structr-core/src/main/java/org/structr/core/graph/Factory.java:489-493 | that one setting changes, the others stay |
| Factory.FactoryProfile.SetOffsetId | structr-core/src/main/java/org/structr/core/graph/Factory.java:498-502 | that one setting changes, the others stay |
| Factory.FactoryProfile.SetPublicOnly | structr-core/src/main/java/org/structr/core/graph/Factory.java:507-511 | that one setting changes, the others stay |
| Factory.FactoryProfile.SetPageSize | structr-core/src/main/java/org/structr/core/graph/Factory.java:516-520 | that one setting changes, the others stay |
| Factory.FactoryProfile.SetPage | structr-core/src/main/java/org/structr/core/graph/Factory.java:525-529 | that one setting changes, the others stay |
| Factory.Factory.constructor | structr-core/src/main/java/org/structr/core/graph/Factory.java:61-64 | a fresh profile with the defaults |
| Factory.Factory.WithVisibility | structr-core/src/main/java/org/structr/core/graph/Factory.java:66-69 | a fresh profile with the given visibility flags |
| Factory.Factory.WithPaging | structr-core/src/main/java/org/structr/core/graph/Factory.java:71-78 | a fresh default profile, then page size, page and offsetId set |
| Factory.Factory.WithProfile | structr-core/src/main/java/org/structr/core/graph/Factory.java:80-82 | a fresh profile with all six settings as given |
| Factory.Factory.SetPage | structr-core/src/main/java/org/structr/core/graph/Factory.java:183-185 | delegates to the profile: only the page changes |
| Factory.Factory.SetPageSize | structr-core/src/main/java/org/structr/core/graph/Factory.java:187-189 | delegates to the profile: only the page size changes |
| Factory.Factory.BulkInstantiate | structr-core/src/main/java/org/structr/core/graph/Factory.java:145-162 | the visible entities in cursor order, none for a null cursor |
| Factory.Factory.InstantiateAll | structr-core/src/main/java/org/structr/core/graph/Factory.java:100-105 | all visible entities, with their number as the count |
| Factory.Factory.Read | structr-core/src/main/java/org/structr/core/graph/Factory.java:196-207 | draining the cursor yields its records unchanged |
| Factory.Factory.Page | structr-core/src/main/java/org/structr/core/graph/Factory.java:348-385 | the visible entities at positions offset+1 .. offset+pageSize, counted against every visible entity |
| Factory.Factory.ResultWithoutOffsetId | structr-core/src/main/java/org/structr/core/graph/Factory.java:315-346 | the negative-page slice, or the page computed from `(page-1)*pageSize` (0 for the sentinel) |
| Factory.Factory.ScanToOffset | structr-core/src/main/java/org/structr/core/graph/Factory.java:228-259 | the first loop: stops at the first visible anchor, reports its visible index and the offset `i` or `i + page*pageSize` |
| Factory.Factory.TakeCollected | structr-core/src/main/java/org/structr/core/graph/Factory.java:274-289 | the second loop: the window of the collected entities, and whether the page filled among them |
| Factory.Factory.ContinueFrom | structr-core/src/main/java/org/structr/core/graph/Factory.java:293-309 | the third loop: the window over the collected entities plus the visible rest of the cursor |
| Factory.Factory.ResultWithOffsetId | structr-core/src/main/java/org/structr/core/graph/Factory.java:209-313 | equals the anchored-page specification, including `IdNotFound` and the before-the-anchor case |
| Factory.Factory.Instantiate | structr-core/src/main/java/org/structr/core/graph/Factory.java:118-135 | the empty result for a null cursor; the offsetId path exactly when an offsetId is set |
| Bolt.TranslateStatementFailure | structr-neo4j-bolt-driver/src/main/java/org/structr/bolt/SessionTransaction.java:337-351 | transient gives Retry, no-such-record gives NotFound, anything else passes through, each if and only if |
| Bolt.TranslateIteratorFailure | structr-neo4j-bolt-driver/src/main/java/org/structr/bolt/SessionTransaction.java:409-419 | the record iterator turns only transient failures into Retry and passes the rest through |
| Bolt.RetryOnlyForTransient | structr-neo4j-bolt-driver/src/main/java/org/structr/bolt/SessionTransaction.java:148-153 | statements and the iterator translate alike exactly when the failure is not no-such-record |
| Bolt.StatementResult | structr-neo4j-bolt-driver/src/main/java/org/structr/bolt/SessionTransaction.java:321-335 | a statement succeeds exactly when the driver does, with the driver's value; otherwise its failure is translated |
| Bolt.CloseResult | structr-neo4j-bolt-driver/src/main/java/org/structr/bolt/SessionTransaction.java:111-127 | `close` succeeds exactly when both driver closes in the `try` (`tx.close()`, then `session.close()`) do; it gives Retry exactly when the first failing one fails transiently and the `finally` close does not fail; any other failure of the first failing close is raised as is; a failure of the `finally` close of a session left open replaces the result and is raised uncaught |
| Bolt.SessionTransaction.constructor | structr-neo4j-bolt-driver/src/main/java/org/structr/bolt/SessionTransaction.java:60-65 | an open transaction on an open session, nothing modified, not closed, not successful |
| Bolt.SessionTransaction.Failure | structr-neo4j-bolt-driver/src/main/java/org/structr/bolt/SessionTransaction.java:67-70 | marks the driver transaction failed and leaves `success` as it was |
| Bolt.SessionTransaction.Success | structr-neo4j-bolt-driver/src/main/java/org/structr/bolt/SessionTransaction.java:72-79 | marks the driver transaction successful and sets `success` |
| Bolt.SessionTransaction.Modified | structr-neo4j-bolt-driver/src/main/java/org/structr/bolt/SessionTransaction.java:377-383 | invalidates the query cache on every call; the wrapper joins the set, once however often it is added |
| Bolt.SessionTransaction.IsClosed | structr-neo4j-bolt-driver/src/main/java/org/structr/bolt/SessionTransaction.java:130-132 | true exactly when the transaction is marked closed |
| Bolt.SessionTransaction.SetClosed | structr-neo4j-bolt-driver/src/main/java/org/structr/bolt/SessionTransaction.java:134-136 | only the closed flag changes |
| Bolt.SessionTransaction.NotifyEach | structr-neo4j-bolt-driver/src/main/java/org/structr/bolt/SessionTransaction.java:88-90 | one call per wrapper of the set, whatever the set's order |
| Bolt.SessionTransaction.Close | structr-neo4j-bolt-driver/src/main/java/org/structr/bolt/SessionTransaction.java:82-128 | without success every modified wrapper is made stale and nothing else; with success the query cache is invalidated once if and only if something was modified, and every modified wrapper's caches are cleared; marked closed and the driver transaction closed on every path; the result is `CloseResult` of the three driver closes, and the session stays open exactly when it was left open by the `try` and the `finally` close fails too |
| Bolt.SessionTransaction.CloseDriver | structr-neo4j-bolt-driver/src/main/java/org/structr/bolt/SessionTransaction.java:111-127 | the `try`/`finally` of `close()`: its result is `CloseResult` of the three driver closes, the driver transaction ends closed, the session stays open exactly when the `try` left it open and the `finally` close fails, and no other field changes |
| Bolt.SessionTransaction.Statement | structr-neo4j-bolt-driver/src/main/java/org/structr/bolt/SessionTransaction.java:156-170 | the translated result; closed becomes true exactly on a transient failure |
| Bolt.SessionTransaction.NextRecord | structr-neo4j-bolt-driver/src/main/java/org/structr/bolt/SessionTransaction.java:409-419 | the record, or Retry with the transaction marked closed on a transient failure |
| Bolt.CommittedScenario | structr-neo4j-bolt-driver/src/main/java/org/structr/bolt/SessionTransaction.java:72-128 | three modifications of two wrappers, success, close: each wrapper's caches cleared once, none stale, four query-cache invalidations |
| Bolt.RolledBackScenario | structr-neo4j-bolt-driver/src/main/java/org/structr/bolt/SessionTransaction.java:67-128 | modification, failure, a transient `tx.close()`: the wrapper made stale, Retry, session freed by the `finally` block |
| Bolt.SessionCloseFailsScenario | structr-neo4j-bolt-driver/src/main/java/org/structr/bolt/SessionTransaction.java:111-127 | a transient failure of `session.close()` after `tx.close()` gives Retry and the `finally` block frees the session; when the `finally` close fails as well, its exception is raised and the session stays open |
| Properties.Query.constructor | structr-core/src/main/java/org/structr/core/property/Property.java:589-670 | a query builder that has received no clauses |
| Properties.Query.Add | structr-core/src/main/java/org/structr/core/property/Property.java:589-670 | a clause is recorded after those before it |
| Properties.NameHashOfNamedKey | structr-core/src/main/java/org/structr/core/property/Property.java:333-350 | a key with a name has a 32-bit hash code that does not depend on its object identity |
| Properties.NameHashOneName | structr-core/src/main/java/org/structr/core/property/Property.java:340-346 | a key with only a database name hashes like one with only the same JSON name |
| Properties.NameHashCollision | structr-core/src/main/java/org/structr/core/property/Property.java:336-338 | different database names ("Aa", "BB") can give equal hash codes, so `equals` holds between different keys |
| Properties.CompareNames | structr-core/src/main/java/org/structr/core/property/Property.java:566-568 | comparing fails (null pointer) exactly when a database name is missing, and gives 0 exactly for equal names |
| Properties.CompareNamesAntisymmetric | structr-core/src/main/java/org/structr/core/property/Property.java:566-568 | `a.compareTo(b) == -b.compareTo(a)` |
| Properties.CompareNamesTransitive | structr-core/src/main/java/org/structr/core/property/Property.java:566-568 | the ordering by database name is transitive |
| Properties.OrderIgnoresJsonName | structr-core/src/main/java/org/structr/core/property/Property.java:332-361 | two keys with database name "id" compare equal yet are not `equals`, because the JSON names differ |
| Properties.WrapStep | structr-core/src/main/java/org/structr/core/property/Property.java:337 | successive integers stay distinct after 32-bit wrap-around |
| Properties.SyncKeyDetermines | structr-core/src/main/java/org/structr/core/property/Property.java:221-229 | the synchronization key determines the declaring class's simple name (or "GraphObject") and the database name, when the class name has no dot |
| Properties.SyncKeyNullName | structr-core/src/main/java/org/structr/core/property/Property.java:225-228 | a missing database name reads as "null" in the key |
| Properties.DeleteIsStrip | structr-core/src/main/java/org/structr/core/property/Property.java:578-584 | deleting one quote character, guarded by `contains`, is stripping it |
| Properties.RemoveQuotesIsStrip | structr-core/src/main/java/org/structr/core/property/Property.java:575-587 | `removeQuotes` is the input with every `"` and `'` removed |
| Properties.RemoveQuotesProperties | structr-core/src/main/java/org/structr/core/property/Property.java:575-587 | no quote remains, every other character is kept, and removing twice is removing once |
| Properties.OrStepsCollect | structr-core/src/main/java/org/structr/core/property/Property.java:652-657 | after the first n turns of the group loop the query holds one `or` per converted piece, in order; if a conversion raised, it is that of the next piece |
| Properties.OrGroupSpec | structr-core/src/main/java/org/structr/core/property/Property.java:652-660 | a group always opens; it closes after one `or` per piece exactly when every piece converts; otherwise it stays open after the `or`s of the pieces before the first one whose conversion raised, and that exception is raised |
| Properties.OrGroupDepth | structr-core/src/main/java/org/structr/core/property/Property.java:652-660 | a closed group leaves the nesting depth unchanged; a group stopped by a conversion leaves it one deeper |
| Properties.GroupDepthAppend | structr-core/src/main/java/org/structr/core/property/Property.java:652-660 | the group nesting of a clause sequence adds up over concatenation |
| Properties.GroupDepthOfOrs | structr-core/src/main/java/org/structr/core/property/Property.java:654-657 | `or` clauses open and close no group |
| Properties.CollectStep | structr-core/src/main/java/org/structr/core/property/Property.java:527-530 | processing one more request value appends what it handed to the query; the loop stops if it raised |
| Properties.CollectAfterError | structr-core/src/main/java/org/structr/core/property/Property.java:527-530 | nothing after the first failing request value is processed |
| Properties.Index.constructor | structr-core/src/main/java/org/structr/core/property/Property.java:441-443 | an empty index |
| Properties.Index.Remove | structr-core/src/main/java/org/structr/core/property/Property.java:447 | the entry for (element, database name) is gone, the others stay |
| Properties.Index.Add | structr-core/src/main/java/org/structr/core/property/Property.java:450 | the entry for (element, database name) now holds the value, the others stay |
| Properties.IndexUpdateEntry | structr-core/src/main/java/org/structr/core/property/Property.java:445-451 | after indexing, the key has an entry exactly when the value is non-null or the key is indexed when empty, and it holds that value; other entries are untouched |
| Properties.IndexUpdateIdempotent | structr-core/src/main/java/org/structr/core/property/Property.java:445-451 | indexing the same value twice is indexing it once |
| Properties.IndexUpdateAddRaises | structr-core/src/main/java/org/structr/core/property/Property.java:445-457 | when the add raises, the old entry has still been removed |
| Properties.Property.constructor | structr-core/src/main/java/org/structr/core/property/Property.java:86-94 | the JSON name, database name and default value as given, every flag off |
| Properties.Property.Named | structr-core/src/main/java/org/structr/core/property/Property.java:82-84 | both names are the given name |
| Properties.Property.Unvalidated | structr-core/src/main/java/org/structr/core/property/Property.java:106-109 | that flag set, nothing else changed, the key itself returned |
| Properties.Property.ReadOnly | structr-core/src/main/java/org/structr/core/property/Property.java:116-119 | that flag set, nothing else changed, the key itself returned |
| Properties.Property.SystemInternal | structr-core/src/main/java/org/structr/core/property/Property.java:126-129 | that flag set, nothing else changed, the key itself returned |
| Properties.Property.WriteOnce | structr-core/src/main/java/org/structr/core/property/Property.java:136-139 | that flag set, nothing else changed, the key itself returned |
| Properties.Property.Unique | structr-core/src/main/java/org/structr/core/property/Property.java:149-153 | unique and requires synchronization, nothing else changed |
| Properties.Property.Compound | structr-core/src/main/java/org/structr/core/property/Property.java:163-167 | compound and requires synchronization, nothing else changed |
| Properties.Property.NotNull | structr-core/src/main/java/org/structr/core/property/Property.java:176-179 | not-null set, synchronization untouched |
| Properties.Property.Indexed | structr-core/src/main/java/org/structr/core/property/Property.java:181-187 | indexed set, nothing else changed |
| Properties.Property.PassivelyIndexed | structr-core/src/main/java/org/structr/core/property/Property.java:189-196 | both passively indexed and indexed |
| Properties.Property.IndexedWhenEmpty | structr-core/src/main/java/org/structr/core/property/Property.java:198-205 | indexed when empty, passively indexed and indexed |
| Properties.Property.Cmis | structr-core/src/main/java/org/structr/core/property/Property.java:207-213 | the CMIS flag set, nothing else changed |
| Properties.Property.Dynamic | structr-core/src/main/java/org/structr/core/property/Property.java:304-308 | the dynamic flag set, nothing else changed |
| Properties.Property.SetUnique | structr-core/src/main/java/org/structr/core/property/Property.java:292-296 | unique as given, synchronization NOT set |
| Properties.Property.SetNotNull | structr-core/src/main/java/org/structr/core/property/Property.java:298-302 | not-null as given, nothing else changed |
| Properties.Property.SetDefaultValue | structr-core/src/main/java/org/structr/core/property/Property.java:270-274 | the default value as given, nothing else changed |
| Properties.Property.SetFormat | structr-core/src/main/java/org/structr/core/property/Property.java:286-290 | the format as given, nothing else changed |
| Properties.Property.SetReadFunction | structr-core/src/main/java/org/structr/core/property/Property.java:315-319 | the read function as given, nothing else changed |
| Properties.Property.SetWriteFunction | structr-core/src/main/java/org/structr/core/property/Property.java:326-330 | the write function as given, nothing else changed |
| Properties.Property.SetDbName | structr-core/src/main/java/org/structr/core/property/Property.java:260-263 | the database name as given, nothing else changed |
| Properties.Property.SetJsonName | structr-core/src/main/java/org/structr/core/property/Property.java:265-268 | the JSON name as given, nothing else changed |
| Properties.Property.SetDeclaringClass | structr-core/src/main/java/org/structr/core/property/Property.java:231-234 | the declaring class as given, nothing else changed |
| Properties.Property.CompareTo | structr-core/src/main/java/org/structr/core/property/Property.java:565-568 | keys compare by database name only: 0 exactly for equal names, a null pointer failure for a missing one |
| Properties.Property.SearchRange | structr-core/src/main/java/org/structr/core/property/Property.java:591-615 | `[lo TO hi]` is split with the first group extending to the last ` TO `; both bounds are converted, the start first; with both converted it yields exactly one range clause, and if a conversion raises, that exception is raised and the query gets nothing |
| Properties.Property.SearchNotBlank | structr-core/src/main/java/org/structr/core/property/Property.java:621-634 | `[]` yields a not-blank clause if and only if the key is indexed when empty; otherwise it fails with 400 and the query gets nothing |
| Properties.Property.SearchNotBlankIndexed | structr-core/src/main/java/org/structr/core/property/Property.java:198-205 | on a key kept valid by the builders, one that accepts `[]` is also indexed and passively indexed |
| Properties.Property.SearchInvalidRange | structr-core/src/main/java/org/structr/core/property/Property.java:636-639 | any other bracketed value fails with 422 "Invalid range pattern." and the query gets nothing |
| Properties.Property.SearchMixed | structr-core/src/main/java/org/structr/core/property/Property.java:643-645 | an unbracketed value with both `,` and `;` fails with 422 and the query gets nothing |
| Properties.Property.SearchOrGroup | structr-core/src/main/java/org/structr/core/property/Property.java:647-660 | a `;` value without `,` opens a group and emits one `or` per `[;]+` piece, in order and free of `;`; the group closes exactly when every piece converts; otherwise the first conversion exception is raised with `and()` and the earlier `or`s left in the query; the pieces are the value without its `;` |
| Properties.Property.SearchNoSplit | structr-core/src/main/java/org/structr/core/property/Property.java:662-665 | when the key does not allow multi-value splitting, a `;` value is one `or` clause with the whole converted value, or the converter's exception with nothing added |
| Properties.Property.SearchPlain | structr-core/src/main/java/org/structr/core/property/Property.java:667-670 | any other value yields one `and` clause with the converted value, or the converter's exception with nothing added |
| Properties.Property.SearchBalanced | structr-core/src/main/java/org/structr/core/property/Property.java:589-671 | every accepted value opens as many groups as it closes; a refused one adds nothing unless it is an `or` group stopped by a conversion, which is left one group deep; a key without converter never leaves a group open |
| Properties.Property.ConverterRaisesMidGroup | structr-core/src/main/java/org/structr/core/property/Property.java:652-660 | with a converter that accepts "a" and raises on "b", `a;b;c` leaves `and()` and the `or` for "a" in the query and raises the exception for "b" |
| Properties.Property.AddOrGroup | structr-core/src/main/java/org/structr/core/property/Property.java:652-660 | the query receives `and()`, one `or` per piece converted first, and `parent()`, after what it had; a conversion that raises ends the group there and is returned |
| Properties.Property.AddOrs | structr-core/src/main/java/org/structr/core/property/Property.java:654-657 | the loop of a group: one `or` per piece, with the piece converted first, until a conversion raises, whose exception is returned |
| Properties.Property.DetermineSearchType | structr-core/src/main/java/org/structr/core/property/Property.java:589-671 | the query receives exactly the clauses specified for the value, including the partial group a failing conversion leaves, and the specified exception is returned |
| Properties.Property.Outcomes | structr-core/src/main/java/org/structr/core/property/Property.java:527-530 | one outcome per request value, in order |
| Properties.Property.OutcomesPrefix | structr-core/src/main/java/org/structr/core/property/Property.java:527-530 | the outcomes of a prefix of the values are a prefix of the outcomes |
| Properties.Property.ExtractAccepted | structr-core/src/main/java/org/structr/core/property/Property.java:522-532 | when every value parses, the query receives all their clauses in order |
| Properties.Property.ExtractStops | structr-core/src/main/java/org/structr/core/property/Property.java:522-532 | at the first failing value the query keeps the earlier values' clauses and whatever the failing value handed over before raising, and that value's exception is raised |
| Properties.Property.ExtractSearchableAttribute | structr-core/src/main/java/org/structr/core/property/Property.java:522-532 | no parameter changes nothing; otherwise each value in order, stopping at the first error |
| Properties.Property.ExtractEach | structr-core/src/main/java/org/structr/core/property/Property.java:527-530 | the loop over the values: their clauses, and the first error |
| Properties.Property.ExtractOne | structr-core/src/main/java/org/structr/core/property/Property.java:529 | one value's clauses, partial ones included, are added, and its exception returned if it raised |
| Properties.Property.IndexValue | structr-core/src/main/java/org/structr/core/property/Property.java:433-483 | a node goes to the node index, a relationship to the relationship index, by the index-update rule; nothing else is touched |
| Properties.EqualsReflexiveSymmetric | structr-core/src/main/java/org/structr/core/property/Property.java:352-361 | `equals` is reflexive and symmetric and rejects null |
| Properties.EqualsTransitive | structr-core/src/main/java/org/structr/core/property/Property.java:352-361 | `equals` is transitive |
| Properties.IndexableCases | structr-core/src/main/java/org/structr/core/property/Property.java:485-514 | never indexable for null or without a value type; always for dates, enums and arrays; adding index types keeps it indexable |
| Properties.UniqueFlagScenario | structr-core/src/main/java/org/structr/core/property/Property.java:149-153 | `unique(true)` leaves synchronization off where `unique()` turns it on |
| Properties.IndexNullScenario | structr-core/src/main/java/org/structr/core/property/Property.java:449-451 | a null value is stored for a key indexed when empty and not otherwise |
| Search.RangeMatchSound | structr-core/src/main/java/org/structr/core/property/Property.java:594-600 | a match splits the parameter into `[lo TO hi]` with both groups non-empty and free of line terminators |
| Search.RangeMatchComplete | structr-core/src/main/java/org/structr/core/property/Property.java:594-600 | every such split matches, the first group at least as long (greedy) |
| Search.RangeMatchGreedy | structr-core/src/main/java/org/structr/core/property/Property.java:58 | `[a TO b TO c]` splits as ("a TO b", "c") |
| Search.RangeMatchRejectsLineBreak | structr-core/src/main/java/org/structr/core/property/Property.java:58 | `.` does not match a line break, so such a value is no range |
| Search.SplitSemicolonsProperties | structr-core/src/main/java/org/structr/core/property/Property.java:654 | no piece contains `;`, only the first may be empty, and the pieces together are the value without its `;` |
| Search.SplitRunsJoin | structr-core/src/main/java/org/structr/core/property/Property.java:654 | the value is cut exactly at its runs of `;`: one whole non-empty run between neighbouring pieces, and pieces plus runs rebuild the value |
| Search.SplitSemicolonsCuts | structr-core/src/main/java/org/structr/core/property/Property.java:654 | `split("[;]+")` keeps the leading pieces of that cut and drops only empty trailing ones |
| Search.SplitSemicolonsLeading | structr-core/src/main/java/org/structr/core/property/Property.java:654 | `;a;;b;` splits into "", "a", "b" |
| Search.SplitSemicolonsOnly | structr-core/src/main/java/org/structr/core/property/Property.java:654 | `;;` splits into no pieces |
| Complement.Apply | structr-core/src/main/java/org/structr/core/function/ComplementFunction.java:41-76 | the loop computes the complement as specified |
| Complement.KeepThenRemove | structr-core/src/main/java/org/structr/core/function/ComplementFunction.java:50-66 | one more `removeAll` drops exactly the newly blocked elements |
| Complement.BlockedSnoc | structr-core/src/main/java/org/structr/core/function/ComplementFunction.java:54-63 | an element is blocked after one more argument if and only if it was already blocked or that argument removes it |
| Complement.RemoveAllAppend | structr-core/src/main/java/org/structr/core/function/ComplementFunction.java:56 | `removeAll` works element by element over a concatenation |
| Complement.KeepNothingBlocked | structr-core/src/main/java/org/structr/core/function/ComplementFunction.java:48 | with no later arguments the result is the copy of the first list |
| Complement.RemoveEachIsKeep | structr-core/src/main/java/org/structr/core/function/ComplementFunction.java:50-66 | removing argument by argument is filtering once by "not in any later argument" |
| Complement.KeepCount | structr-core/src/main/java/org/structr/core/function/ComplementFunction.java:48-66 | an unblocked element keeps all its occurrences, a blocked one has none |
| Complement.KeepShorter | structr-core/src/main/java/org/structr/core/function/ComplementFunction.java:48-66 | the result is no longer than the first list and holds only its elements |
| Complement.ComplementErrors | structr-core/src/main/java/org/structr/core/function/ComplementFunction.java:46-72 | a non-list first argument gives the error text; a list result exactly when the first argument is a list |
| Complement.ComplementContents | structr-core/src/main/java/org/structr/core/function/ComplementFunction.java:44-66 | the result's occurrences: all of an unblocked element, none of a blocked one; membership both ways; length bound |
| Complement.ComplementIgnoresNull | structr-core/src/main/java/org/structr/core/function/ComplementFunction.java:58 | a later null argument removes nothing |
| Complement.RemoveAllNothing | structr-core/src/main/java/org/structr/core/function/ComplementFunction.java:56 | removing an empty list changes nothing |
| Complement.ComplementKeepsDuplicates | structr-core/src/main/java/org/structr/core/function/ComplementFunction.java:33-66 | duplicates of the first list survive, and a non-list argument removes every equal occurrence |
| ToCsv.EscapeForCsv | structr-modules/structr-csv-module/src/main/java/org/structr/csv/ToCsvFunction.java:290-330 | every field is wrapped in the quote character and holds no raw carriage return |
| ToCsv.QuoteStrings | structr-modules/structr-csv-module/src/main/java/org/structr/csv/ToCsvFunction.java:300-306 | one backslash-quoted entry per element of a `String[]`, quotes inside it escaped with three backslashes; a null element is rendered as `null` |
| ToCsv.UnbackslashInverse | structr-modules/structr-csv-module/src/main/java/org/structr/csv/ToCsvFunction.java:325 | backslash-escaping the quote character can be undone |
| ToCsv.FieldRoundTrip | structr-modules/structr-csv-module/src/main/java/org/structr/csv/ToCsvFunction.java:290-330 | a plain value without carriage returns reads back from its field |
| ToCsv.EscapeNullAndQuote | structr-modules/structr-csv-module/src/main/java/org/structr/csv/ToCsvFunction.java:294-329 | null is two quote characters; a quote character gets a backslash |
| ToCsv.EscapeCrLf | structr-modules/structr-csv-module/src/main/java/org/structr/csv/ToCsvFunction.java:329 | `\r\n` becomes the two characters `\n` |
| ToCsv.EscapeLoneCr | structr-modules/structr-csv-module/src/main/java/org/structr/csv/ToCsvFunction.java:329 | a lone `\r` becomes the two characters `\n` |
| ToCsv.EscapeAll | structr-modules/structr-csv-module/src/main/java/org/structr/csv/ToCsvFunction.java:241-268 | one field per value |
| ToCsv.EscapeAllAt | structr-modules/structr-csv-module/src/main/java/org/structr/csv/ToCsvFunction.java:241-268 | field k is the escaped value k |
| ToCsv.AppendColumnString | structr-modules/structr-csv-module/src/main/java/org/structr/csv/ToCsvFunction.java:281-288 | the delimiter before every column but the first, then the escaped value; always returns false |
| ToCsv.WriteColumns | structr-modules/structr-csv-module/src/main/java/org/structr/csv/ToCsvFunction.java:241-268 | the column loop builds the delimited line of escaped fields |
| ToCsv.SplitOn | structr-modules/structr-csv-module/src/main/java/org/structr/csv/ToCsvFunction.java:281-288 | splitting at the delimiter gives at least one piece |
| ToCsv.SplitOnAppend | structr-modules/structr-csv-module/src/main/java/org/structr/csv/ToCsvFunction.java:281-288 | a piece without the delimiter followed by it splits off |
| ToCsv.LineCons | structr-modules/structr-csv-module/src/main/java/org/structr/csv/ToCsvFunction.java:281-288 | a line of fields is its first field, the delimiter and the line of the rest |
| ToCsv.LineSplits | structr-modules/structr-csv-module/src/main/java/org/structr/csv/ToCsvFunction.java:281-288 | fields without the delimiter are read back from their line |
| ToCsv.DbNames | structr-modules/structr-csv-module/src/main/java/org/structr/csv/ToCsvFunction.java:195-196 | one header name per view column |
| ToCsv.ValuesOf | structr-modules/structr-csv-module/src/main/java/org/structr/csv/ToCsvFunction.java:241-244 | one value per view column |
| ToCsv.LookupAll | structr-modules/structr-csv-module/src/main/java/org/structr/csv/ToCsvFunction.java:265-268 | one value per column name |
| ToCsv.LookupAllAt | structr-modules/structr-csv-module/src/main/java/org/structr/csv/ToCsvFunction.java:265-268 | column k is the map's value for name k, null when the key is missing |
| ToCsv.Labels | structr-modules/structr-csv-module/src/main/java/org/structr/csv/ToCsvFunction.java:213-224 | one header label per name |
| ToCsv.LabelsAt | structr-modules/structr-csv-module/src/main/java/org/structr/csv/ToCsvFunction.java:213-224 | label k is name k, localized when asked |
| ToCsv.RecordRows | structr-modules/structr-csv-module/src/main/java/org/structr/csv/ToCsvFunction.java:231-277 | one row per record |
| ToCsv.Bodies | structr-modules/structr-csv-module/src/main/java/org/structr/csv/ToCsvFunction.java:273-276 | one body per row |
| ToCsv.BodyAt | structr-modules/structr-csv-module/src/main/java/org/structr/csv/ToCsvFunction.java:273-276 | body k is row k with its line breaks replaced |
| ToCsv.RowsStep | structr-modules/structr-csv-module/src/main/java/org/structr/csv/ToCsvFunction.java:231-277 | one more record appends its body and the record separator |
| ToCsv.WriteHeader | structr-modules/structr-csv-module/src/main/java/org/structr/csv/ToCsvFunction.java:184-228 | the header loop builds the specified header row |
| ToCsv.WriteRecord | structr-modules/structr-csv-module/src/main/java/org/structr/csv/ToCsvFunction.java:233-271 | the row loop builds the specified row for each record kind |
| ToCsv.WriteCsv | structr-modules/structr-csv-module/src/main/java/org/structr/csv/ToCsvFunction.java:168-279 | the writer's output is the specified header and rows |
| ToCsv.BodyHasNoBreaks | structr-modules/structr-csv-module/src/main/java/org/structr/csv/ToCsvFunction.java:273-274 | a record body has no raw `\n` or `\r`, and every other character survives |
| ToCsv.TerminatedCons | structr-modules/structr-csv-module/src/main/java/org/structr/csv/ToCsvFunction.java:276 | each line is followed by the separator |
| ToCsv.TerminatedSplits | structr-modules/structr-csv-module/src/main/java/org/structr/csv/ToCsvFunction.java:276 | lines without breaks, each followed by `\n`, read back as those lines |
| ToCsv.OneLinePerRecord | structr-modules/structr-csv-module/src/main/java/org/structr/csv/ToCsvFunction.java:231-277 | with the default separator every record is exactly one line of output |
| ToCsv.MapRecordColumns | structr-modules/structr-csv-module/src/main/java/org/structr/csv/ToCsvFunction.java:261-269 | a map record has one column per name, the map's value or an empty quoted field |
| ToCsv.HeaderReadsBack | structr-modules/structr-csv-module/src/main/java/org/structr/csv/ToCsvFunction.java:211-227 | the header row of a name list reads back as the names in order |
| ToCsv.Words | structr-modules/structr-csv-module/src/main/java/org/structr/csv/ToCsvFunction.java:95-97 | a property list is usable exactly when every entry is a string, and then gives those strings |
| ToCsv.Decide | structr-modules/structr-csv-module/src/main/java/org/structr/csv/ToCsvFunction.java:59-111 | a job with a view header always has a record to read the view from |
| ToCsv.Apply | structr-modules/structr-csv-module/src/main/java/org/structr/csv/ToCsvFunction.java:55-137 | the reply is the specified one: a usage or error text, "", the CSV text, or the cast failure that escapes |
| ToCsv.ReadSettingsFails | structr-modules/structr-csv-module/src/main/java/org/structr/csv/ToCsvFunction.java:83-89 | the optional arguments fail to cast exactly when one of them has the wrong type |
| ToCsv.ApplyRejects | structr-modules/structr-csv-module/src/main/java/org/structr/csv/ToCsvFunction.java:59-81 | the wrong number of arguments gives the usage text, a non-list first argument its error, an empty node list "" |
| ToCsv.ApplyDefaults | structr-modules/structr-csv-module/src/main/java/org/structr/csv/ToCsvFunction.java:66-111 | with two arguments: delimiter `;`, quote `"`, separator `\n`, header on, no localization |
| ToCsv.WordsOf | structr-modules/structr-csv-module/src/main/java/org/structr/csv/ToCsvFunction.java:95-97 | one string entry per name |
| ToCsv.ApplyOverrides | structr-modules/structr-csv-module/src/main/java/org/structr/csv/ToCsvFunction.java:83-90 | every positional argument overrides its default |
| ToCsv.ApplyColumnsArgument | structr-modules/structr-csv-module/src/main/java/org/structr/csv/ToCsvFunction.java:91-121 | a second argument of another kind is an error; an empty list gives ""; a list with a non-string gives "" |
| HelperText.LastIndexOf | structr-ui/src/main/resources/structr/js/helper.js:24 | the last occurrence of the separator, or -1 |
| HelperText.OccursChar | structr-ui/src/main/resources/structr/js/helper.js:24 | a one-character separator occurs exactly where that character stands |
| HelperText.LastPartSpec | structr-ui/src/main/resources/structr/js/helper.js:19-27 | the whole id if the separator is absent, else the suffix after its last occurrence, which holds no separator |
| HelperText.LastPartDefaults | structr-ui/src/main/resources/structr/js/helper.js:20-26 | a missing or empty separator means `_`; a missing or empty id gives '' |
| HelperText.LastPartLongSeparator | structr-ui/src/main/resources/structr/js/helper.js:24 | the cut is one character past the separator's start: `lastPart("a--b", "--")` is "-b" |
| HelperText.Without | structr-ui/src/main/resources/structr/js/helper.js:36-53 | the same array when the value is not in it, else a new array of every other element |
| HelperText.FilterAppend | structr-ui/src/main/resources/structr/js/helper.js:42-46 | filtering works element by element over a concatenation |
| HelperText.FilterSpec | structr-ui/src/main/resources/structr/js/helper.js:42-46 | the value is gone, every other element keeps all its occurrences, an absent value changes nothing |
| HelperText.EscapeAttrChar | structr-ui/src/main/resources/structr/js/helper.js:55-66 | escaping one character is its entity |
| HelperText.EscapeTagChar | structr-ui/src/main/resources/structr/js/helper.js:68-72 | `<` and `>` become their entities at the tag stage |
| HelperText.EscapeQuoteChar | structr-ui/src/main/resources/structr/js/helper.js:62-63 | quotes become their entities at the quote stage |
| HelperText.EscapeSpaceChar | structr-ui/src/main/resources/structr/js/helper.js:65 | a space becomes `&nbsp;` only in the whitespace stage |
| HelperText.EscapeAttrAppend | structr-ui/src/main/resources/structr/js/helper.js:55-72 | the escapers work character by character over a concatenation |
| HelperText.EscapeIsEncode | structr-ui/src/main/resources/structr/js/helper.js:55-72 | the chained replaces equal encoding each character once |
| HelperText.EscapeAttrClean | structr-ui/src/main/resources/structr/js/helper.js:55-66 | the attribute escape has no raw `<`, `>`, `"`, `'`, nor a space when whitespace is escaped |
| HelperText.EncodeAllClean | structr-ui/src/main/resources/structr/js/helper.js:55-72 | the encodings contain no raw `<` or `>`, no quotes in attribute mode, and no space when whitespace is escaped |
| HelperText.DecodeStep | structr-ui/src/main/resources/structr/js/helper.js:74-84 | decoding an encoded character gives that character back |
| HelperText.DecodeEncode | structr-ui/src/main/resources/structr/js/helper.js:55-84 | decoding undoes encoding |
| HelperText.UnescapeTagsOnce | structr-ui/src/main/resources/structr/js/helper.js:74-84 | the corrected `unescapeTags`: a single left-to-right pass; a string stays a string |
| HelperText.EscapeRoundTrip | structr-ui/src/main/resources/structr/js/helper.js:55-84 | the corrected unescape inverts `escapeTags` and `escapeForHtmlAttributes` |
| HelperText.EscapeEntityText | structr-ui/src/main/resources/structr/js/helper.js:68-72 | `escapeTags("&lt;")` is "&amp;lt;" |
| HelperText.UnescapeTagsDecodesTwice | structr-ui/src/main/resources/structr/js/helper.js:74-84 | as written, `unescapeTags(escapeTags("&lt;"))` is "<", not "&lt;" |
| HelperText.Lpad | structr-ui/src/main/resources/structr/js/helper.js:107-114 | the loop prepends the pad until the length is reached |
| HelperText.Repeat | structr-ui/src/main/resources/structr/js/helper.js:110-111 | k copies have k times the length |
| HelperText.LpadSpec | structr-ui/src/main/resources/structr/js/helper.js:107-114 | copies of the pad, then the string: at least `length` long, shorter than `length` plus one pad, and the string itself when already long enough |
| HelperText.NvlSpec | structr-ui/src/main/resources/structr/js/helper.js:189-203 | truthy values pass; undefined, null and '' give the default; false gives 'false', 0 gives '0' |
| HelperText.PluralizeSpec | structr-ui/src/main/resources/structr/js/helper.js:369-371 | the result ends in `s`; a trailing `y` becomes `ies`; a name already ending in `s` is returned unchanged; any other name, the empty one included, gets exactly one `s` appended |
| HelperText.IsUUIDSpec | structr-ui/src/main/resources/structr/js/helper.js:172-175 | true exactly for 32 hex digits |
| HelperText.Shorten | structr-ui/src/main/resources/structr/js/helper.js:177-179 | a prefix of at most eight characters |
| HelperText.TypeFromResourceSignatureSpec | structr-ui/src/main/resources/structr/js/helper.js:294-298 | the text before the first `/`, or the whole signature |
| HelperText.Lower | structr-ui/src/main/resources/structr/js/helper.js:213 | lower-casing leaves no ASCII upper-case letter |
| HelperText.Upper | structr-ui/src/main/resources/structr/js/helper.js:207 | upper-casing leaves no ASCII lower-case letter |
| HelperText.ToUnderscoreSpec | structr-ui/src/main/resources/structr/js/helper.js:211-215 | no upper-case letter remains, and apart from underscores the result is the input lower-cased |
| HelperText.UnderscoreHeadSpec | structr-ui/src/main/resources/structr/js/helper.js:212-214 | the same for the replacement of one character |
| HelperText.LowerAllAppend | structr-ui/src/main/resources/structr/js/helper.js:213 | lower-casing works character by character |
| HelperText.ToCamel | structr-ui/src/main/resources/structr/js/helper.js:205-209 | the first character is kept unless it is a dash before a lower-case letter, which is then upper-cased |
| HelperText.ToCamelSpec | structr-ui/src/main/resources/structr/js/helper.js:205-209 | no dash before a lower-case letter remains, text without one is unchanged, and it is idempotent |
| HelperText.ToCamelFixed | structr-ui/src/main/resources/structr/js/helper.js:205-209 | text without a dash before a lower-case letter is unchanged |
| HelperState.IndexOf | structr-ui/src/main/resources/structr/js/helper.js:622 | -1 exactly when absent, else the first position of the value |
| HelperState.AddedSpec | structr-ui/src/main/resources/structr/js/helper.js:621-625 | the value is in the list afterwards, added once only if absent; no duplicates are created; adding twice is adding once |
| HelperState.RemoveFirstSpec | structr-ui/src/main/resources/structr/js/helper.js:627-632 | exactly one occurrence is removed, nothing when absent, other members are kept; without duplicates the value is gone |
| HelperState.RemoveUndoesAdd | structr-ui/src/main/resources/structr/js/helper.js:621-632 | unsubscribing undoes subscribing to a new type |
| HelperState.Prefix | structr-ui/src/main/resources/structr/js/helper.js:653 | `type.split('.')[0]`: the longest dot-free prefix |
| HelperState.Shown | structr-ui/src/main/resources/structr/js/helper.js:651-658 | an undefined type is shown; otherwise it is shown exactly when it is not ignored and it or its prefix is subscribed |
| HelperState.PrefixOfDotted | structr-ui/src/main/resources/structr/js/helper.js:653 | the prefix of `p.rest` is `p` |
| HelperState.ShownAfterChanges | structr-ui/src/main/resources/structr/js/helper.js:621-658 | subscribing shows a type and its dotted subtypes; ignoring hides it |
| HelperState.ShownAfterRemovals | structr-ui/src/main/resources/structr/js/helper.js:627-658 | unsubscribing hides a dot-free type; unignoring shows it exactly when it or its prefix is subscribed |
| HelperState.Logger.constructor | structr-ui/src/main/resources/structr/js/helper.js:549-551 | no subscriptions; "WS.STATUS" and "WS.PING" ignored |
| HelperState.Logger.Subscribe | structr-ui/src/main/resources/structr/js/helper.js:621-625 | pushes the type if absent, leaving the ignore list alone; a duplicate-free list stays duplicate-free |
| HelperState.Logger.Unsubscribe | structr-ui/src/main/resources/structr/js/helper.js:627-632 | splices out the first occurrence, leaving the ignore list alone; in a duplicate-free list the type is then gone |
| HelperState.Logger.Ignore | structr-ui/src/main/resources/structr/js/helper.js:634-638 | pushes the type if absent, leaving the subscriptions alone; a duplicate-free list stays duplicate-free |
| HelperState.Logger.Unignore | structr-ui/src/main/resources/structr/js/helper.js:640-645 | splices out the first occurrence, leaving the subscriptions alone; in a duplicate-free list the type is then gone |
| HelperState.Lookup | structr-ui/src/main/resources/structr/js/helper.js:428-430 | a value exactly for a stored key, null otherwise |
| HelperState.LookupAfterChanges | structr-ui/src/main/resources/structr/js/helper.js:424-438 | reading after set, remove and clear: the set value, absent, absent; other keys untouched |
| HelperState.LocalStore.constructor | structr-ui/src/main/resources/structr/js/helper.js:418 | an empty store |
| HelperState.LocalStore.IsLoaded | structr-ui/src/main/resources/structr/js/helper.js:420-422 | loaded exactly when some key is stored |
| HelperState.LocalStore.SetItem | structr-ui/src/main/resources/structr/js/helper.js:424-426 | the key holds the value; the store is loaded |
| HelperState.LocalStore.RemoveItem | structr-ui/src/main/resources/structr/js/helper.js:432-434 | the key is gone; reading it gives null |
| HelperState.LocalStore.Clear | structr-ui/src/main/resources/structr/js/helper.js:436-438 | nothing stored; not loaded |
| HelperState.RunsCount | structr-ui/src/main/resources/structr/js/helper.js:904-923 | each registered function callback runs once with the value per registration; non-functions never run |
| HelperState.FetchOnce | structr-ui/src/main/resources/structr/js/helper.js:855-861 | fetching a new id keeps the "each id fetched once since the last clear" invariant |
| HelperState.AsyncObjectCache.constructor | structr-ui/src/main/resources/structr/js/helper.js:840-842 | an empty cache, nothing fetched or run |
| HelperState.AsyncObjectCache.RegisterCallbackForId | structr-ui/src/main/resources/structr/js/helper.js:853-873 | a new id is fetched with the callback queued; a pending id queues it; a present value runs it at once |
| HelperState.AsyncObjectCache.AddObject | structr-ui/src/main/resources/structr/js/helper.js:881-898 | an unknown id is stored; a pending id gets the value and runs its queued callbacks; a present value is left alone |
| HelperState.AsyncObjectCache.RunRegisteredCallbacks | structr-ui/src/main/resources/structr/js/helper.js:904-915 | every queued function callback runs with the value, in order, then the queue is emptied |
| HelperState.AsyncObjectCache.Clear | structr-ui/src/main/resources/structr/js/helper.js:900-902 | an empty cache; the next registration of any id fetches again |
| HelperState.RunsOfTwo | structr-ui/src/main/resources/structr/js/helper.js:908-910 | two function callbacks run in order |
| HelperState.CacheQueued | structr-ui/src/main/resources/structr/js/helper.js:853-915 | two registrations before the value arrives: one fetch, then both callbacks run by `addObject` |
| HelperState.CacheStored | structr-ui/src/main/resources/structr/js/helper.js:853-898 | a stored value runs a later callback immediately without fetching; a second `addObject` is ignored |
| HelperState.CacheCleared | structr-ui/src/main/resources/structr/js/helper.js:853-902 | after `clear` the same id is fetched again |
| HelperState.DefaultIgnores | structr-ui/src/main/resources/structr/js/helper.js:551-653 | with "WS" subscribed: "WS.STATUS" is hidden by default, "WS.EVENT" shown, and "WS.STATUS" shown once unignored |
| HelperState.LoggerRun | structr-ui/src/main/resources/structr/js/helper.js:549-658 | a logger run: the default ignore hides a subscribed status type, other types and undefined are shown, unignoring shows it |
| Text.Wrap32 | structr-core/src/main/java/org/structr/core/property/Property.java:337 | the 32-bit wrap-around of an integer, equal to it modulo 2^32 and unchanged when it fits |
| Text.JavaCompareZero | structr-core/src/main/java/org/structr/core/property/Property.java:567 | `String.compareTo` is 0 exactly for equal strings |
| Text.StripTwice | structr-core/src/main/java/org/structr/core/property/Property.java:578-584 | stripping two character sets in turn is stripping their union |
| Text.ReplaceCharAppend | structr-modules/structr-csv-module/src/main/java/org/structr/csv/ToCsvFunction.java:325 | `StringUtils.replace` of a character works piece by piece |

## Left out

- Factory: type resolution (`SchemaHelper`) and the security check inside `instantiate` are outside the model. They are the function `instantiate: S -> Option<T>`, which returns `None` for a record the context may not see. `instantiateWithType`, `instantiateDummy`, `adapt` and `apply` are left out for the same reason.
- Factory: `RESULT_COUNT_ACCURATE_LIMIT` is not used by the paging code, so the model has no cap.
- Factory: the two boolean flags of `Result` are always `true, false` on these paths and are not modelled. The `Result` class itself is not part of this model.
- Factory.Factory.Read: the source calls `it.iterator()` on every step. The model drains one cursor, which is what a `ResourceIterable` that hands out its single cursor does.
- Factory: Java `int` arithmetic is unbounded in the specification functions and in `Factory.Factory.Page`, `Factory.Factory.ResultWithoutOffsetId` and `Factory.Factory.ResultWithOffsetId`. Several sites wrap at 32 bits in Java when a value leaves the `int` range, and the model does not capture that: `i + (page * pageSize)` at Factory.java:253, `size + (page * pageSize)` and `fromIndex + pageSize` at Factory.java:326-329, and `(page - 1) * pageSize` at Factory.java:342. For example, page 3 with page size 2^30 gives the offset -2^31 in Java, so `page()` returns the first page, where the model's offset 2^31 gives an empty page. The `ResultWithoutOffsetId` negative-page path is the one worked example with the wrap written out (`Factory.ResultWithoutOffsetIdInt32`, Findings).
- Bolt: the Neo4j driver, sessions, record mappers and `BoltDatabaseService` are outside the model. Each driver call is a `DriverOutcome` parameter, and the calls made on wrappers and the database service are recorded in fields.
- Bolt.SessionTransaction.Statement: the result of each statement method is already converted to its type by the driver outcome. This conversion covers `getObject`'s null for an empty result, `getStrings`' list and the `QueryResult` wrappers.
- Bolt.SessionTransaction.Close: a `session.close()` that fails is taken to leave the session open, so `session.isOpen()` in the `finally` block is true and the session is closed once more. What the driver reports after a failed close is not modelled. The driver transaction counts as closed once `tx.close()` was called, whether or not it failed.
- Bolt: `logQuery`'s `System.out` output is I/O and not modelled.
- Bolt: the iteration order of the modified set is unspecified in Java. The model records the calls as a multiset.
- Properties: the real `Index`/`NodeService`, the `PropertyConverter`, the `Query` builder and `AbstractCypherIndex.INDEXABLE` are outside the model. They are modelled as a map, an optional function from strings to a string or a `FrameworkError`, a recorder of clauses and a set of class names.
- Properties: `index(obj)` reads `obj.getProperty(this)` from an entity outside the model. `IndexValue` takes that value as a parameter.
- Properties: a subclass's overrides (`valueType`, `inputConverter`, `multiValueSplitAllowed`) and `Object.hashCode` are the `Hooks` parameter. `fixDatabaseProperty`, `getSearchAttribute`, `registrationCallback`, `getDataType`, `getProcessingOrderPosition` and `getRelatedNodesReverse` are abstract or constant and not modelled.
- Properties: logging of an unusable range or a failed index update is I/O. Characters are assumed to be single UTF-16 units for `hashCode` and `compareTo`.
- Properties.SyncKeyDetermines: it needs the declaring class's simple name to be dot-free, which Java class names guarantee.
- ToCsv: `DatePropertyParser` formatting of dates is outside the model. A date arrives already formatted as text.
- ToCsv: `LocalizeFunction.getLocalization` is the parameter `localize`. Its exception path (the label stays unlocalized) is folded into that function.
- ToCsv: `StructrApp`'s property-key lookup for a graph object and its `getProperty` are modelled as the object's map from names to values.
- ToCsv: `Writer.flush` and logging are I/O.
- ToCsv: the JavaScript context only selects which usage text is returned.
- ToCsv: a `ClassCastException` from a mistyped optional argument escapes `apply`. It is the `CastFailure` reply. The `IllegalArgumentException` catch, which returns the usage text, guards calls outside the model and is not modelled.
- ToCsv.Words: a `null` entry in the list of property names cannot be represented. In Java the `(String)` cast of `null` succeeds and the key lookup goes on with it; the model's entries are graph objects, maps, strings or other objects, and a non-string entry is treated as a failed cast.
- ToCsv.EscapeForCsv: a `null` element of a `Collection` value cannot be represented. In Java its `obj.toString()` throws a `NullPointerException`, and the `catch (Throwable)` of `apply` turns the whole `to_csv` call into the reply `""`. (A `null` element of a `String[]` is modelled: it is written as `null` between the backslash-quotes.)
- ToCsv: `ArrayList.toString()` of a string array or collection is modelled by its format `[a, b]`.
- HelperText/HelperState: the DOM, jQuery and animation helpers, `_Console`, `initLogger`, the logging functions, `urlParam`, `getDateTimePickerFormat`, `sortArray`, `formatValue`, `getAsJSON` and `setAsJSON` are browser plumbing and not modelled.
- HelperText/HelperState: the `String.prototype` polyfills (`endsWith`, `startsWith`, `contains`) are the standard ones. `capitalize`, `splitAndTitleize`, `extractVal`, `cleanText`, `expandNewline`, `getElementDisplayName`, `isBlank` and `getAllLogTypes` are not part of this model.
- HelperText: JavaScript values are a small datatype (undefined, null, booleans, integers, strings). Objects, arrays and functions are not values of the model. NaN and floating point are not modelled. `isIn` is modelled as the boolean its callers test.
- HelperText.Without: `isIn` and `without` are modelled for a string value and a list of strings only. The JavaScript versions take any value, compare with `===`, and return the list unchanged for a falsy value such as `0` or `''`; values of other types are not modelled.
- HelperText.Lpad: with an empty pad and a string shorter than `length`, the loop of `lpad` never ends. The model requires a non-empty pad or a string already long enough, and does not model that non-terminating call.
- HelperText.ToCamel / HelperText.ToUnderscore: `toUpperCase`/`toLowerCase` are modelled for ASCII letters only.
- HelperState.LocalStore: storing `undefined` is not modelled; reading it back would give null.
- HelperState.AsyncObjectCache: the callbacks and `fetchFunction` are recorded calls. A synchronous `fetchFunction` re-entering `addObject` from inside `registerCallbackForId` is not modelled.
- HelperState.Logger: `initLogger` may append duplicates to `subscriptions`. The list operations are proved to keep a duplicate-free list duplicate-free and hold for any list.

## Findings

| source | as written | input that shows it | evidently intended | confidence | as-written member | corrected member |
|---|---|---|---|---|---|---|
| structr-core/src/main/java/org/structr/core/graph/Factory.java:326-331 | `page * pageSize` and `fromIndex + pageSize` are 32-bit `int` products and sums | page -2 with the default page size `Integer.MAX_VALUE` over 3 records: `-2 * MAX` wraps to 2, so `subList(5, -2147483644)` throws | a negative page without paging returns every record, nulls kept, count N | not executed | Factory.NegativePageOverflow | Factory.UnpagedNegativePageIsAll |
| structr-ui/src/main/resources/structr/js/helper.js:74-84 | `unescapeTags` replaces `&nbsp;`, then `&amp;`, then `&lt;`, `&gt;`, `&quot;` and `&#39;`, each over the whole string, so the text that decoding `&amp;` produces is decoded again | `unescapeTags(escapeTags("&lt;"))` is "<": "&amp;lt;" becomes "&lt;" and then "<" | unescaping inverts `escapeTags` and `escapeForHtmlAttributes`: a single pass that decodes each entity once | not executed | HelperText.UnescapeTagsDecodesTwice | HelperText.EscapeRoundTrip |
