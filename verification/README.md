# PL/Lua verification model

A Dafny model of the parts of pllua (Lua as a PostgreSQL procedural language) whose state is not obvious
from reading one function, with proofs about every input, run or reachable state. `dafny verify
dfyconfig.toml` checks everything.

| files | what they model |
|---|---|
| `plain_records`, `record_laws`, `observations`, `lazy_rows`, `row_store` | SQL rows and arrays as Lua sees them. Rows are flat tuples, taken apart into column datums that borrow the row's bytes and exploded from the ultimate parent down on the first write. Proved to behave as an eager nest of mutable records with copy-on-assign, which are told in turn by what a program sees of them. |
| `trigger_rule`, `trigger` | `trigger.row`, its cached entry, and the tuple that a row trigger hands back, on top of the row store. |
| `jsonb_values`, `jsonb_tosql`, `jsonb_map`, `jsonb_round_trip` | jsonb to Lua and back: two explicit-stack loops, each proved equal to a short recursive definition, and the round trip. |
| `subxact_meaning`, `subxact` | `pcall`, `xpcall` and `lpcall` on nested subtransactions with the pending-error flag and the active-error register: an interpreter proved against a recursive meaning. |
| `odometer`, `array_flatten`, `array_rebuild` | Nested tables to multi-dimensional arrays and back. |
| `graph_copy` | The memoised deep copy of shared and cyclic tables. |
| `function_cache` | Validation of compiled functions while compiling runs user code. |
| `type_cache`, `type_runs` | Type information cached through row columns and revalidated on demand, and what holds over whole runs of changes and lookups. |
| `local_time`, `calendar_carry` | The UTC offset of a local time, and the carry between time fields. |
| `context_scan` | The segmented stack scan behind error context lines. |

Code that changes state is modelled by classes and loops; each method's contract ties its new state to a
specification function or states the property outright, and lemmas prove the laws of the specification.
Code that cannot be seen (tuple forming, the executor, the system catalogs, the jsonb iterator, the
time zone tables) enters as a parameter or as the value it is specified to give.

Three findings are stated as theorems with exact conditions:

- `README.md:194-202` of the repository says that xpcall's error function runs outside the failed
  subtransaction. In the code this holds exactly when no PostgreSQL error is pending
  (`Subxact.Session.XPCall`): with one pending, the abort at `src/error.c:873` is itself refused, and
  the error function runs while the failed subtransaction is still innermost,
  and nothing it does is left (`SubxactMeaning.DocumentedOrderFails` gives the program). The model follows the code.
- A cached row type is kept exactly when it is intact, which is more than its tree being what it was: if
  a column's type changes, is looked up and changes back, the row type gets a new object
  (`TypeCache.ChangedBack`).
- With an explicit flag, a local time that clocks show once is resolved to its instant except at the very
  second at which the rule changes, clocks not being set forward, just when they would have come to it,
  and the flag is not the new rule's (`LocalTime.Resolved`). `LocalTime.StaleExample` gives the input:
  with the flag of before, the code returns the offset of before.

## Model

| member | source | states |
|---|---|---|
| RowStore.Run | src/datum.c:1042-1451 | over every program of new rows, column reads, column assignments (plain values, handles taken earlier, nil as the column's type takes it), array element reads and writes, whole-row copies and displays, through any handle, the lazy store shows exactly what plain records show |
| Observations.SetShows | src/datum.c:1607-1665 | an assignment replaces one column of what the row shows, by what the source showed before; it is refused without effect exactly if the column is not displayed or dropped or the source cannot be stored |
| Observations.GetShows | src/datum.c:1414-1451 | reading a column agrees with what the row shows: the scalar's number, nil for a null, a handle that shows the nested value; nothing else changes |
| Observations.SetElemShows | src/datum.c:2044-2110 | an element write changes exactly that element of what the array shows, and is refused for a row |
| Observations.CopyShows | src/datum.c:4656-4789 | a copy shows what its source shows, and no other handle shows anything different |
| Observations.ColumnIsLive | src/datum.c:1414-1451 | what is written through a handle got from a column shows in the row, in that column |
| Observations.CopyIsApart | src/datum.c:4656-4789 | what is written through a copy shows through no handle there was before |
| Observations.AssignedIsApart | src/datum.c:1607-1665 | what is written through the handle that was assigned does not show in the column, unless it is on the row itself or below it |
| Observations.AssignmentSeen | src/datum.c:1607-1665 | in every run, a row displayed after a handle was assigned to a column is the row displayed before with the column replaced by what the handle displayed |
| RowStore.Store.Deform | src/datum.c:1042-1206 | a row's columns are made on first use and cached; each is a copy of the tuple's value that points into the row's storage unless it had to be converted; the invariant is kept and no record changes |
| RowStore.Store.BuildColumns | src/datum.c:1101-1200 | one datum per column that is neither null nor dropped, in column order, and those that own storage own distinct fresh storage |
| RowStore.Store.SaveDatum | src/datum.c:871-937 | a borrowing datum gets storage of its own with the same value, and nothing else changes |
| RowStore.Store.ExplodeInner | src/datum.c:1261-1344 | the row ends exploded and no record changes; only the row and what has been handed out below it are touched, and although its tuple is freed whatever still borrows has a live owner |
| RowStore.Store.ExplodeColumns | src/datum.c:1213-1252 | before a row gives up its tuple every column that is itself a row has been exploded, while the row stays as it is; the source's assertion that none has been modified is proved where it stands |
| RowStore.Store.Explode | src/datum.c:1360-1411 | climbs to the ultimate parent and explodes from there: afterwards the row is exploded, every handle stands for the same record, and no record has changed |
| RowStore.Store.RowIndex | src/datum.c:1414-1451 | reading a column gives what the record's cell holds: an error for a missing or unknown column, nil, a scalar, or the one handle for a nested row or array |
| RowStore.Store.RowNewIndex | src/datum.c:1607-1665 | assigning to a column changes the record's cell to a copy of the value and nothing else; dropped and unknown columns are refused |
| RowStore.Store.ArrayNewIndex | src/datum.c:2044-2110 | an element write explodes the parents and changes that element of that array only |
| RowStore.Store.Implode | src/datum.c:4656-4789 | the flat value formed from a row, exploded or not, is its record's whole value |
| LazyRows.DeformKeeps | src/datum.c:1042-1206 | taking a row apart keeps the invariant that ties datums, storage and records |
| LazyRows.DetachKeeps | src/datum.c:1261-1344 | giving up a row's tuple, once every column is exploded or has its own copy, keeps it |
| LazyRows.StoreKeeps | src/datum.c:1607-1665 | replacing a column of an exploded row keeps it |
| LazyRows.ElemKeeps | src/datum.c:2069-2110 | changing an array element keeps it |
| LazyRows.BorrowedLive | src/datum.c:1144-1160 | in every reachable state whoever points into storage it does not own reaches, along its references, the unexploded row that owns it, and that storage is live |
| LazyRows.NoneExplodedBelow | src/datum.c:1233-1246 | no unexploded row has an exploded or modified descendant, not even while rows further out are being exploded; the assertion in the code relies on this |
| LazyRows.ViewIsValue | src/datum.c:1360-1411 | the tuple of an unexploded row is its record's whole value, however many of its columns have been handed out |
| LazyRows.ChainExploded | src/datum.c:1385-1411 | once the ultimate parent is exploded, so is every row that reached it |
| RecordLaws.ReachableForest | src/datum.c:1607-1665 | in every reachable state no record is shared between two columns or contains itself: assignment copies |
| RecordLaws.ShowsInAncestors | src/datum.c:1213-1344 | when one record changes, each record that has it below changes exactly at that place |
| RecordLaws.NowhereElse | src/datum.c:1213-1344 | and every other record reads as before |
| RecordLaws.StoreShows | src/datum.c:1607-1665 | storing a value in a column changes that record alone, and there exactly that column |
| TriggerResult.RunTrigger | src/trigger.c:267-513 | over every history of reads, replacements and field or element writes, and every return value: an explicit nil suppresses, a returned row is handed back as it would be displayed, and with no value it is what reading and displaying trigger.row would show, nothing if it was lastly set to nil, the fired tuple if it was never touched |
| TriggerRule.AssignedRow | src/trigger.c:329-370 | what is assigned to trigger.row is what it then shows, as it was at the time; what is not a row is refused, and no other handle shows anything different |
| TriggerRule.OneRow | src/trigger.c:267-327 | handles got by reading trigger.row twice are on one record |
| TriggerResult.Trigger.ReturnResult | src/trigger.c:399-513 | an explicit nil suppresses, and the short cuts that hand back the original tuple agree with the rule, so they are only taken when it equals the contents |
| TriggerResult.Trigger.Index | src/trigger.c:267-327 | trigger.row is one and the same handle every time, made from the fired tuple on first use |
| TriggerResult.Trigger.NewIndex | src/trigger.c:329-370 | assigning trigger.row replaces it by a copy, or by nil |
| JsonbToSql.ToSql | src/jsonb.c:310-564 | the depth-counted loop builds exactly the document of the recursive definition, and fails exactly when something in the value cannot be serialised; the null value, nil, booleans, numbers, strings and datums are written as what they are |
| JsonbToSql.PushKeys | src/jsonb.c:37-154 | the bounds gathered over the keys decide between array and object as defined; an array's keys come out ascending, each once, an object's all |
| JsonbToSql.Decision | src/jsonb.c:127-134 | the test on counts and bounds is equivalent to the definition over the keys themselves |
| JsonbToSql.InferredArrayBound | src/jsonb.c:127-134 | an array that was only inferred to be one has at most array_frac elements for each key of its table |
| JsonbToSql.TwoEntries | src/jsonb.c:127-134 | an untagged table with two integer keys is an array exactly if the lower is between 1 and array_thresh and the upper at most twice array_frac; it then has a null at every other place |
| JsonbToSql.DecimalReads | src/jsonb.c:487-500 | the text of an integer key is a numeral without leading zeros that reads as the integer |
| JsonbToSql.NextKey | src/jsonb.c:465-508 | moving to the next key keeps the container in step with the keys: its text for an object, its place for an array |
| JsonbToSql.FillGap | src/jsonb.c:476-483 | exactly the positions without an entry are filled with nulls before the next array key |
| JsonbToSql.DoneIsJson | src/jsonb.c:441-462 | when a key list is used up, what has been built is what the table stands for |
| JsonbMap.Map | src/jsonb.c:568-865 | for every token stream of a document the stack machine leaves the Lua value of the recursive definition; an empty root gives a plain empty table, a null the null value, a number a datum or what the number conversion gives |
| JsonbMap.Step | src/jsonb.c:690-846 | each token keeps the Lua stack in step with the containers being read |
| JsonbMap.EndContainer | src/jsonb.c:808-843 | a finished container goes into the one around it at its key or next index, told apart by what lies on the stack |
| JsonbRoundTrip.RoundTrip | src/jsonb.c:310-865 | with a unique null and numeric numbers the round trip is the identity exactly on documents that are not the empty container a plain empty table is not taken for |
| JsonbRoundTrip.RoundTripWithoutNull | src/jsonb.c:310-865 | with no null value it gives exactly the document without trailing nulls of arrays and null members of objects at every depth |
| JsonbRoundTrip.ThereAndBack | src/jsonb.c:310-865 | the two loops one after the other, for every document and token stream |
| JsonbRoundTrip.PortableComesBack | src/jsonb.c:310-865 | the other way round, with numbers converted: every tagged table of booleans, numbers, strings, null values and such tables can be serialised, and its document is mapped back to it, gaps in arrays included if nothing stands for null |
| JsonbRoundTrip.ForthAndBack | src/jsonb.c:310-865 | the two loops one after the other in this order, for every such value and token stream of its document |
| JsonbRoundTrip.EveryDocumentYields | src/jsonb.c:690-846 | every document has a token stream of the kind the mapping is proved for |
| SubxactMeaning.ExactlySurvivors | src/error.c:941-1074 | for every program the surviving writes are exactly, and in order, the writes that happened and were not inside an aborted subtransaction |
| SubxactMeaning.SurvivingWrites | src/error.c:941-1074 | replaying what happened on a stack of pending writes, with each abort dropping the top level and each commit joining it to the next, leaves exactly the writes of the meaning |
| SubxactMeaning.BrokenNeverNormal | src/error.c:782-789 | no program carries on normally in a failed subtransaction |
| SubxactMeaning.RefusedIsInert | src/pllua.h:120-134 | where entering PostgreSQL is refused nothing is written and no subtransaction touched |
| SubxactMeaning.InSequence | src/error.c:941-1074 | a program's second part runs, in the state that the first leaves, exactly if the first ends normally |
| Subxact.Session.XPCall | src/error.c:829-915 | when the body fails with no PostgreSQL error pending, the failed subtransaction is aborted first, once, the error function's writes land in the caller's own level, and a PostgreSQL error goes out if and only if the error function left one; with one pending, the error function runs before the abort, leaves no write and nothing goes out; a body that succeeds is committed |
| SubxactMeaning.DocumentedOrderFails | src/error.c:866-880 | an xpcall whose body fails with a PostgreSQL error runs its error function first and loses its write |
| Subxact.RunFunction | src/error.c:941-1074 | for every program the outcome is the meaning's, normal, a Lua error or a PostgreSQL error, and what survives are the writes not inside an aborted subtransaction, none if the function fails |
| Subxact.Session.Exec | src/error.c:941-1074 | over every program the pending flag is set exactly when the innermost level has failed, and exactly then an error is active; outer levels never are failed |
| Subxact.Session.PCallGuts | src/error.c:941-1074 | afterwards subtransaction stack, resource owner and memory context are those at entry, and the outcome is the meaning's |
| Subxact.Session.LpCall | src/error.c:676-703 | if the body ends with a PostgreSQL error, or one is pending that a Lua error has taken the place of, the call ends with a PostgreSQL error and the failure code never runs; any other error is caught, the failure code runs and the body's writes stay |
| Subxact.Session.PCallThen | src/error.c:941-1074 | a pcall commits a body that ends normally and is done; otherwise the body is aborted whatever the error, only the failure code's writes are left, and the call ends as that code does |
| Subxact.Session.ExecNested | src/pllua.h:120-134 | a function called through SQL with any error ends with a pending PostgreSQL error in the caller's level |
| Subxact.Session.SetContext | src/pllua.h:120-134 | the checked switch is refused exactly from Lua to PostgreSQL with an error pending |
| Subxact.Session.PgWrite | src/pllua.h:120-149 | a write only ever happens in PostgreSQL context with no level failed: this is what it requires, and every statement of every program that reaches it is proved to meet it |
| Subxact.Session.SubxactAbort | src/error.c:801-818 | restores what the subtransaction had saved and clears the flag, or changes nothing when refused |
| Subxact.Session.Intercept | src/error.c:829-915 | the wrapper of xpcall's error function: abort first or, when that is refused, straight to the function |
| Subxact.Session.LeaveWith | src/error.c:164-175 | an error that leaves for PostgreSQL clears the flag and comes back as a pending PostgreSQL error |
| Odometer.MultiIndexOfRank | src/datum.c:4552-4602 | every index within range has its own place in row-major order |
| Odometer.EveryRank | src/datum.c:4552-4602 | and every place below the product of the dimensions has an index |
| Odometer.NextRank | src/datum.c:4595-4599 | the odometer step goes to the next place, and runs off exactly at the last element |
| ArrayFlatten.CountElements | src/datum.c:4535-4550 | the size check gives the exact product, within INT_MAX, and refuses exactly the arrays of several dimensions over the limit |
| ArrayFlatten.FromTable | src/datum.c:4521-4602 | the element with a given index is the conversion of what indexing the tables with it, counted from 1, finds (nil below a missing subtable); it fails exactly when the array is too large, a value on the way cannot be indexed or an element is refused |
| ArrayFlatten.Flatten | src/datum.c:4552-4602 | some dimension stays open until the last element, so the extra loop test at 4575 is redundant |
| ArrayFlatten.Advance | src/datum.c:4595-4599 | carrying closes exactly the dimensions that are complete |
| ArrayRebuild.Map | src/datum.c:2275-2351 | the function is called once per element in row-major order, with the element (or what null becomes) and its index plus the lower bounds, and what it returned is found in the result at those indexes |
| ArrayRebuild.NextIndex | src/datum.c:2337-2347 | complete tables go into the one below and the open tables match the odometer, until the whole is left |
| ArrayRebuild.RoundTripExactly | src/datum.c:2275-2351 | flattening the nested tables of an array without nulls gives it back if and only if all lower bounds are 1 |
| ArrayRebuild.ThereAndBack | src/datum.c:4552-4602 | with lower bounds of 1 the two loops one after the other are the identity, nulls included |
| GraphCopy.Copy | src/trusted.c:613-630 | for every finite table graph, cyclic or shared, exactly the reachable tables get copies, each its own new table; a path that leads to a table leads to its copy, one that leads to anything else leads to the same thing |
| GraphCopy.Copier.CopyInner | src/trusted.c:395-432 | a table in the memo gives its copy; otherwise one new table is entered before its entries are copied; the memo stays one-to-one and apart from the originals |
| GraphCopy.SamePaths | src/trusted.c:395-432 | complete copies make an isomorphism along every path |
| GraphCopy.ReachedByPath | src/trusted.c:395-432 | the tables copied are those that paths lead to |
| FunctionCache.Cache.ValidateAndPush | src/compile.c:427-641 | the activation's function is a compile of the version that the catalog has then, held by the activation and with types resolved from it, whatever compile-time code redefined or called; turns after the second need a change of the catalog entry |
| FunctionCache.Cache.Intern | src/compile.c:226-250 | a live entry is never overwritten |
| FunctionCache.Cache.Recompile | src/compile.c:532-624 | afterwards the table has an entry and, if the catalog entry was not changed meanwhile, one of the catalog's version |
| FunctionCache.Activation.Set | src/objects.c:497-520 | the new function is held and types must be resolved again |
| FunctionCache.KeptTrans | src/compile.c:487-641 | across any run of compile-time code, entries of functions that were not edited stay as current as they were |
| TypeCache.Cache.Lookup | src/datum.c:2989-3086 | the answer's whole column-type tree is the catalog's; it is the old object exactly when that is intact, otherwise the old one is marked modified or obsolete; a dropped type leaves the cache |
| TypeCache.Cache.TypeinfoEq | src/datum.c:2927-2987 | equal flat parts and the same column objects, told by the loop over columns |
| TypeCache.Cache.SameIfIntact | src/datum.c:2927-2987 | the comparison with a newly made object succeeds exactly if the cached one is intact |
| TypeCache.Cache.NewTypeInfo | src/datum.c:2782-2849 | a new object agrees with the catalog and is made of its columns' current objects |
| TypeCache.IntactFresh | src/datum.c:2989-3086 | an intact object's tree is the catalog's |
| TypeCache.IntactElsewhere | src/datum.c:3091-3120 | changes outside an object's tree leave it intact |
| TypeCache.ReplaceKeeps | src/datum.c:3062-3086 | replacing an object that is not intact makes no older object intact or otherwise |
| TypeCache.Cache.Invalidate | src/datum.c:3091-3120 | a change flags every entry and keeps the cache sound |
| TypeRuns.Run | src/datum.c:2989-3120 | over any run of changes and lookups, from any state of the cache: every answer shows the catalog of its time; an object that a later answer for the type replaced is never answered again; and an answer, or an object that was intact at the start, is given again as long as no change touches its tree |
| TypeRuns.HoldingStep | src/datum.c:2989-3120 | no step that leaves an intact object's tree untouched, whatever else it changes or looks up, makes it any less the cached object |
| TypeCache.ChangedBack | src/datum.c:2966-2984 | a column type that changes, is looked up and changes back makes its row type a new object with the same tree |
| LocalTime.DetermineTimezoneOffset | src/time.c:129-262 | any instant is found again from its local time and flag; a time shown once is taken for its instant whatever the flag, unless the flag is stale; without a flag a repeated time takes the later instant; a skipped time goes by the rule of its flag, without one by the rule before the change |
| LocalTime.ShowsIsCandidate | src/time.c:165-190 | the boundary found from a day before accounts for all instants that show a local time |
| LocalTime.ChosenResolves | src/time.c:190-256 | the choice between the two sides of that boundary is right for the zone, with the exact exception for a stale flag and what is returned then |
| LocalTime.StaleExample | src/time.c:205-256 | a zone and a time with a stale flag: the clocks are an hour ahead until they are set back, and the offset of before is returned for a time shown only after |
| LocalTime.SkippedExample | src/time.c:219-256 | a time that clocks skip is read by the rule of its flag, and without one by the rule before the change |
| LocalTime.RepeatedExample | src/time.c:219-256 | a time shown twice is the later instant without a flag, and otherwise the one whose flag it is |
| CalendarCarry.Tm.Normalize | src/time.c:636-650 | counts of seconds and of months are kept, every field ends in range (24:00:00 and xx:59:60 allowed), and what is in range is left alone, so that normalising again changes nothing |
| CalendarCarry.FloorDiv | src/time.c:38-43 | truncating division corrected to floor: the remainder is never negative |
| CalendarCarry.CalcOverflow | src/time.c:45-52 | what stays is within the modulus and nothing is lost to the carry |
| ContextScan.Interp.Context | src/elog.c:152-237 | over one error's callbacks, one for each entry point on the stack, each reports the innermost Lua line of its own segment, and errdepth is 0 again at the end |
| ContextScan.Interp.CallbackLocation | src/elog.c:152-205 | one scan covers one segment, to its barrier even after the line is found; it reports the line of the first level in it that has one, 0 if none has, and remembers where the next begins; on a private stack it leaves errdepth alone |
| ContextScan.OneReportPerEntry | src/elog.c:165-196 | there is one segment for each entry point, and one more if the stack does not end with one |

## Left out

- Garbage collection, finalisers, weak tables, memory exhaustion and stack limits: objects live as long as they are wanted.
- Tuple forming, encoding checks, detoasting and expanded arrays: tuples are sequences of values, and whether a nested value has to be converted is left open in both directions.
- Type modifiers, object-identifier columns, domain checks and casts of assigned values: a column takes the value it is given.
- Datums are entries of one store object instead of separate objects, because nested handles refer to each other across rows; identity and aliasing of handles are kept by their numbers.
- RowStore.Run: columns have no types in the model, so a program's nil is written as `PlainRecords.NilFor` gives it for the column's type: `SrcNil` for a scalar, and otherwise the value that the constructor builds (src/datum.c:4440-4519, 4690-4704).
- RowStore.Store.RowNewIndex: for the same reason its nil argument is nil for a column of a scalar type; for a row or array column the argument is the value the constructor builds.
- Range datums, row-to-row casts and the hstore transform.
- Map functions, `discard` and `norecurse` of the jsonb mapping; keys that are tables or userdata; values with `__pairs` or `__tostring`.
- Lua floats and integers beyond 64 bits: numbers are integers, and converting numeric to a Lua number is a parameter.
- JsonbToSql.ToSql: integer-like string keys in arrays, array keys below 1 or beyond INT_MAX, and object keys with equal texts are outside its precondition, because the gap loop and duplicate handling have no meaning there; array_frac times the number of keys does not wrap.
- Subxact.Session.PCallGuts: failures of beginning or releasing a subtransaction, and the debug assertion at src/error.c:849, are not modelled.
- Subxact.Session.Intercept: to-be-closed variables directly in an xpcall's body or error function are excluded, because their close methods would run between the error function and the end of the call; they are allowed everywhere else.
- Subxact.Session.Exec: the same exclusion, for every xpcall in the program.
- Subxact.RunFunction: the same exclusion, for every xpcall in the program.
- Recursive errors inside error handling and error objects' fields.
- ArrayFlatten.FromTable: metamethods of indexed values, and allocation failure for one very long dimension.
- GraphCopy.Copy: metatables are not copied by the code and not modelled; proxy modes and the shallow copy are left out.
- FunctionCache.Cache.ValidateAndPush: row and transaction identifiers are version numbers that may come back after a rollback but are not reused for different text; errors while resolving types and the check for set-returning contexts are left out.
- TypeCache.Cache.Lookup: the catalog does not change during a lookup, an invalidation arriving then being lost when the flag is cleared; array, range and domain links are outside the tree, and partial flagging by relation is left out.
- LocalTime.DetermineTimezoneOffset: the tests for 64-bit overflow never succeed on unbounded integers and are left out; the day number is taken as given.
- CalendarCarry.Tm.Normalize: fields are unbounded integers, so C integer overflow is not modelled.
- ContextScan.Interp.Context: the outermost level is an entry point, as it is on the main stack; a set-returning call in the middle of the chain scans its private stack, which one call of CallbackLocation models but the chain does not.
- Interpreter setup, sandbox lists, paths, SPI, settings, the numeric operator table and printing: plumbing without hard properties.
