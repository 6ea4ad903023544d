# Agenda storage adapters, modelled in Dafny

Agenda is a job scheduler for Node.js. It keeps its jobs in a table of `Job`
records: name, type, priority, payload, schedule (`nextRunAt`), failure data,
lock timestamp (`lockedAt`) and a `disabled` flag. Workers poll that table,
*claim* a due job by stamping `lockedAt`, run it, and *unlock* it. This
repository provides two storage back ends for that table:

- `lib/dynamodb.js` runs on DynamoDB through the vogels mapper. It has a Joi
  schema, three global secondary indexes (name, name+type, name+priority), and
  a never-locked job holds the sentinel `lockedAt = new Date(1)`.
- `lib/sequelize.js` runs on SQL through Sequelize. Its table definition sets
  nullability, types and defaults, and an unlocked job has `lockedAt` NULL.

The project models each adapter as a class that holds its table as a
`map<string, Row>` from primary key to record. Each operation is a method
that changes that map; timestamps are integers (milliseconds). A
specification function or predicate gives what each operation does to the
table. Lemmas state what the scheduler relies on:
- a claimed job is not claimed again before its lock expires;
- an unlocked job becomes claimable again;
- the SQL on-the-fly lock is a compare-and-swap (the DynamoDB one is not; see Findings);
- the index translation returns exactly the matching items;
- the purge filter deletes exactly the jobs with undefined names;
- find-or-create updates the job it finds instead of inserting another.

Files:

- `js_values.dfy` (module `JsValues`): JavaScript values and truthiness, records, the `insertOnly` merge loop, and the result types.
- `dynamo_query.dfy` (module `DynamoQuery`): `cleanData`, `getQueryFromObject`, the `purge` filter expression, and the per-item batch aggregation.
- `dynamo_store.dfy` (module `DynamoDb`): the item schema and defaults, the claim protocol as functions of the table, and `class DynamoDbAdapter`.
- `sequelize_store.dfy` (module `Sequelize`): the column definitions, the claim protocol as functions of the table, and `class SequelizeAdapter`.

Where the code does something a caller might not expect, the model follows the code:

- The DynamoDB claim orders candidates by `priority` alone (the name+priority index), not by `nextRunAt` first.
- The SQL claim's expired-lock branch does not look at `nextRunAt` (`Sequelize.ExpiredLockIgnoresNextRunAt`).
- There is no up-front rejection of malformed predicates. A where-object naming a non-column fails in the database (`UnknownColumn`).
- DynamoDB `saveByID` is an upsert: it never reports a missing job. SQL `saveByID` reports one as a null result.
- DynamoDB `saveUnique` inserts `props` alone and, on a hit, updates with `insertOnly`. It also adds the `#title < 'Expanding'` filter. Each pass of its loop replaces the filter expression, so only the last query property's equality filters.
- A DynamoDB update removes an attribute whose new value is `null` (from `undefined`) or `""`, which is how a job field is cleared.
- A DynamoDB predicate with no truthy `_id` or `name` becomes a full scan that drops every other property.
- SQL `purge` and `cancel` report a count of destroyed rows, not per-item arrays.

## Model

| member | source | states |
|---|---|---|
| `JsValues.AssignAll` | lib/sequelize.js:230-235 | the merged object has every key of `props` and of `insertOnly`; `insertOnly` wins on shared keys; every other key keeps its `props` value |
| `DynamoQuery.CleanData` | lib/dynamodb.js:80-89 | the key set is unchanged; no value is `undefined` afterwards; every `undefined` became `null`; every other value is untouched |
| `DynamoQuery.CleanedIdempotent` | lib/dynamodb.js:80-89 | cleaning an already cleaned object changes nothing |
| `DynamoQuery.GetQueryFromObject` | lib/dynamodb.js:91-125 | the access path follows the truthiness precedence `_id`, name+priority, name+type, name, then scan; the caller's object loses exactly the consumed keys; a scan has no filters; otherwise every remaining key is one equality filter |
| `DynamoQuery.GetQueryAsWritten` | lib/dynamodb.js:99-110 | the code as written fails exactly on the two composite-index branches; the other branches choose the same access path as the corrected translation |
| `DynamoQuery.EqaulsTypoRejectsCompositeQuery` | lib/dynamodb.js:102 | `{name: "report", priority: 5}` selects the name+priority index, and the code as written throws on it |
| `DynamoQuery.TranslationSound` | lib/dynamodb.js:96-124 | unless it scans, the chosen index and residual filters return exactly the items equal to the object on every property; the index choice changes only the cost |
| `DynamoQuery.ScanIgnoresProperties` | lib/dynamodb.js:115-117 | with no truthy `_id` or `name` the query is a scan that returns every item, whatever the other properties say |
| `DynamoQuery.Decimal` | lib/dynamodb.js:151 | the decimal spelling of `i` in `:name${i}` is never empty and has at least two digits from 10 on |
| `DynamoQuery.DecimalInjective` | lib/dynamodb.js:151 | different indexes are spelt differently |
| `DynamoQuery.PlaceholderInjective` | lib/dynamodb.js:152 | the placeholders `:name${i}` of different clauses are different keys of `values` |
| `DynamoQuery.BuildPurgeFilter` | lib/dynamodb.js:143-153 | `n` names give `n` clauses `#name <> :name{i}` joined by `' AND '` (the empty string for none), and `values` maps exactly `:name{i}` to the `i`-th name |
| `DynamoQuery.FilterTextJoinsClauses` | lib/dynamodb.js:143-153 | the built filter text is clause `#name <> :name{i}` for each `i` below `n`, in order, joined by `' AND '` from the front, so `FilterAdmits` evaluates the clauses of that text |
| `DynamoQuery.JoinAndSnoc` | lib/dynamodb.js:146-150 | appending one clause to a non-empty join adds exactly one `' AND '` separator before it, which is what the loop does at each `i > 0` |
| `DynamoQuery.PurgeFilterMeaning` | lib/dynamodb.js:143-157 | the built expression admits an item if and only if its name is none of the defined names |
| `DynamoQuery.Aggregate` | lib/dynamodb.js:166-176 | `objects` has one entry per result, in order; `errors` holds exactly the truthy first components, in order |
| `DynamoQuery.ErrorsAreTruthy` | lib/dynamodb.js:199-210 | there are no more errors than items; each reported error is truthy and is the error of some item |
| `DynamoQuery.ErrorsEmptyIff` | lib/dynamodb.js:301-312 | the error list is empty if and only if no item failed |
| `DynamoDb.InsertedFields` | lib/dynamodb.js:272-287 | an inserted item has every given property (`undefined` stored as `null`), the schema default of every defaulted property it lacked, and its key |
| `DynamoDb.PatchedFields` | lib/dynamodb.js:214-229 | `saveByID` changes only item `id`, creating it if absent; a patch property that is `undefined`, `null` or `""` is removed from the item, every other patch property is written; the item's attributes are exactly its old ones, the patch's and `_id`, less the removed ones; every other property of the item and every other item is unchanged |
| `DynamoDb.TwoStepClaimRace` | lib/dynamodb.js:319-326 | two workers reading a table with one candidate both choose that job; after the first write it is no longer a candidate, yet the second write lands too, and each worker gets back the same job, locked at its own time |
| `DynamoDb.ConditionalClaimExclusive` | lib/dynamodb.js:319-326 | with the write conditional on the `lockedAt` both workers read, the first succeeds and the second is refused |
| `DynamoDb.SentinelPassesLockTest` | lib/dynamodb.js:24 | a job with the default or the unlocked `lockedAt = Date(1)` passes the claim's lock test for every deadline from 1 on |
| `DynamoDb.UnlockEnablesLockOnTheFly` | lib/dynamodb.js:289-299 | after an unlock, `lockOnTheFly` finds a still-due, enabled job whose `nextRunAt` matches the snapshot |
| `DynamoDb.ClaimedJobNotCandidate` | lib/dynamodb.js:315-331 | a job claimed at a time later than the lock deadline is not a candidate of the same claim query |
| `DynamoDb.LockOnTheFlyExclusive` | lib/dynamodb.js:334-355 | once `lockOnTheFly` has locked the job, a second attempt from the same snapshot whose query runs afterwards misses |
| `DynamoDb.OnTheFlyRace` | lib/dynamodb.js:339-346 | two attempts from the same snapshot whose queries both ran before either update: after the first update a query would miss, yet the second update lands too, and both workers get back the same job, each locked at its own time |
| `DynamoDb.ConditionalOnTheFlyExclusive` | lib/dynamodb.js:339-346 | with the update conditional on `lockedAt` still being the sentinel, of two attempts from the same snapshot the first succeeds and the second is refused |
| `DynamoDb.UniqueLookupIgnoresEarlierProperties` | lib/dynamodb.js:253-259 | changing an item on a query property before the last one (other than `name` and `title`) never changes whether the `saveUnique` lookup finds it: only the last property's equality reaches the query |
| `DynamoDb.UntitledJobsNeverMatchUnique` | lib/dynamodb.js:253-259 | with a non-empty query, a job without a `title` never passes the stray title filter, so `saveUnique` inserts |
| `DynamoDb.DynamoDbAdapter.constructor` | lib/dynamodb.js:34-45 | a new adapter has an empty, well-keyed table |
| `DynamoDb.DynamoDbAdapter.Insert` | lib/dynamodb.js:272-287 | cleans, applies the defaults and checks the schema, which refuses an attribute it does not declare and a declared one of the wrong type; an accepted item is stored under its given or a fresh key and `{id, nextRunAt}` is reported; a refused one changes nothing |
| `DynamoDb.DynamoDbAdapter.SaveById` | lib/dynamodb.js:214-229 | the table becomes the patched table and `{id, nextRunAt}` of the written item is reported |
| `DynamoDb.DynamoDbAdapter.SaveSingle` | lib/dynamodb.js:231-247 | a failed or empty name+type lookup inserts `props` overlaid with `insertOnly`; a hit patches that job with `props` and reports it |
| `DynamoDb.DynamoDbAdapter.SaveUnique` | lib/dynamodb.js:249-270 | the lookup finds jobs of `name` that, once the query has a property, pass the title filter and equal the query's last property; a failed or empty lookup inserts `props` alone; a hit patches the job with `insertOnly` |
| `DynamoDb.DynamoDbAdapter.Cancel` | lib/dynamodb.js:181-212 | runs the corrected translation (see Findings): removes exactly the items the translated query returns, which are the matching items unless the translation scans (then all) |
| `DynamoDb.DynamoDbAdapter.Purge` | lib/dynamodb.js:141-179 | an empty list of defined names throws and destroys nothing; otherwise keeps exactly the jobs whose name is a defined name, and the filter text is `FilterText` of the number of names |
| `DynamoDb.DynamoDbAdapter.UnlockJobs` | lib/dynamodb.js:289-313 | every listed id gets `lockedAt = Date(1)` (an absent id gets a new item); nothing else changes |
| `DynamoDb.DynamoDbAdapter.NextCandidate` | lib/dynamodb.js:319-323 | returns a candidate of least priority, or none exactly when no job is a candidate |
| `DynamoDb.DynamoDbAdapter.FindAndLockNextJob` | lib/dynamodb.js:315-332 | returns none (changing nothing) exactly when no job is a candidate; otherwise locks the least-priority candidate at `now` and returns it |
| `DynamoDb.DynamoDbAdapter.LockOnTheFly` | lib/dynamodb.js:334-355 | a snapshot without a `nextRunAt` date throws; a job still unlocked, still at the snapshot's `nextRunAt` and enabled is locked and returned; otherwise none, and nothing changes |
| `Sequelize.LockedAtFits` | lib/sequelize.js:70-74 | setting `lockedAt` to a timestamp or NULL keeps a row within the table definition |
| `Sequelize.NewRowFields` | lib/sequelize.js:284-295 | a created row has every given column value and the default of every column not given, and no other key |
| `Sequelize.DefaultFits` | lib/sequelize.js:6-79 | every column default except those of `name` and `type` (which have none and refuse NULL) fits its column |
| `Sequelize.NewRowFits` | lib/sequelize.js:6-79 | a job with a fitting `name` and `type` whose other given columns fit is accepted by the table |
| `Sequelize.InsertRoundTrip` | lib/sequelize.js:284-295 | after an insert, looking up the reported id finds a row with every column value the caller gave, and every other row unchanged |
| `Sequelize.SaveSingleFindsInserted` | lib/sequelize.js:227-254 | once `saveSingle` has inserted a job with its name and type, the next `saveSingle` of that pair finds a row and updates instead of inserting a second one |
| `Sequelize.AssignProps` | lib/sequelize.js:193-195 | every column other than `_id` present in `props` takes its value (`undefined` as NULL); `_id` and every other column keep their value |
| `Sequelize.NextJobTies` | lib/sequelize.js:329-333 | two rows that may both head the claim order tie on `nextRunAt` and `priority` |
| `Sequelize.ClaimedJobNotEligible` | lib/sequelize.js:323-328 | a row claimed at a time later than the lock deadline fails the claim's WHERE |
| `Sequelize.SecondClaimFindsNothing` | lib/sequelize.js:315-337 | with one eligible row, after it is claimed no row is eligible for the same claim |
| `Sequelize.UnlockedDueJobEligible` | lib/sequelize.js:297-328 | a due, enabled row whose lock was reset to NULL is eligible again |
| `Sequelize.ExpiredLockIgnoresNextRunAt` | lib/sequelize.js:326 | an enabled row with an expired lock is eligible whether its `nextRunAt` is NULL or in the future |
| `Sequelize.LockMatchingIsLock` | lib/sequelize.js:364-374 | because the WHERE names the primary key, the update changes the one row under the snapshot's `_id` if it still matches, and nothing otherwise |
| `Sequelize.LockOnTheFlyExclusive` | lib/sequelize.js:364-374 | after `lockOnTheFly` succeeded, a second attempt from the same snapshot affects no row |
| `Sequelize.StaleSnapshotMisses` | lib/sequelize.js:367-372 | if the row has since been locked or its `nextRunAt` changed, `lockOnTheFly` with the old snapshot affects no row |
| `Sequelize.SequelizeAdapter.constructor` | lib/sequelize.js:85-94 | a new adapter has an empty table and a dialect-dependent NULL order |
| `Sequelize.SequelizeAdapter.Insert` | lib/sequelize.js:284-295 | a row that violates the table definition, or whose key is taken, changes nothing and reports the error; otherwise it is stored and `{id, nextRunAt}` is reported |
| `Sequelize.SequelizeAdapter.SaveById` | lib/sequelize.js:184-225 | a missing id gives a null result and no change; empty `props` gives the row's `{id, nextRunAt}` and no write; otherwise the assigned row is saved if it fits, else the error is reported and nothing changes |
| `Sequelize.SequelizeAdapter.SaveSingle` | lib/sequelize.js:227-254 | a failed or empty (name, type) lookup inserts `props` overlaid with `insertOnly`; a hit applies `saveByID` with `props` to a matching row |
| `Sequelize.SequelizeAdapter.SaveUnique` | lib/sequelize.js:256-282 | the lookup uses the query with `name` added; a failed lookup (including one naming a non-column) or an empty one inserts `props` overlaid with `insertOnly`; a hit applies `saveByID` with `props` |
| `Sequelize.SequelizeAdapter.Purge` | lib/sequelize.js:156-170 | deletes exactly the rows whose name is not defined, leaves every other row unchanged, and reports how many were deleted |
| `Sequelize.SequelizeAdapter.Cancel` | lib/sequelize.js:172-182 | deletes exactly the rows matching the where-object and reports the count; a non-column property fails and changes nothing |
| `Sequelize.SequelizeAdapter.UnlockJobs` | lib/sequelize.js:297-313 | sets `lockedAt` to NULL on exactly the rows whose id is listed, no other field or row changes, and reports the number of listed ids that have a row |
| `Sequelize.SequelizeAdapter.NextEligible` | lib/sequelize.js:323-334 | returns an eligible row first in (`nextRunAt`, `priority`) order, or none exactly when no row is eligible |
| `Sequelize.SequelizeAdapter.FindAndLockNextJob` | lib/sequelize.js:315-357 | no eligible row gives null and no change; otherwise exactly the first eligible row gets `lockedAt = now`, and that row is returned |
| `Sequelize.SequelizeAdapter.LockOnTheFly` | lib/sequelize.js:359-388 | the update locks exactly the rows that still match the snapshot, which is the snapshot's own row or none; success returns the snapshot with `lockedAt = now`, a miss returns null and changes nothing |

## Left out

- Connection setup, table creation and `jobs` are configuration and I/O: `connection`, `database`, `db_init`, `getCollection`'s `sync`/`createTables`, the `ready` event, AWS credentials and `console.log`.
- Concurrency between workers: each operation is one atomic step on the table. The clock is the parameter `now`, and the UUID generator is `freshId`.
- A failure of the backend call itself (network, throttling) is not modelled, except for the lookups of `saveSingle`/`saveUnique`. Their failure branch inserts, and the parameter `lookupFails` selects it.
- Library internals are reduced to their observable effect on the table:
  - the vogels query and scan execution;
  - the Joi validation, modelled as a check that every attribute is declared and of its declared kind (the Joi string rule that refuses `""` is not modelled, and neither is the validation vogels applies to an update);
  - Sequelize SQL generation;
  - the JSON/JSONB dialect choice;
  - UUID format checks (any string is a valid `_id`).
- `STRING(256)` length and unsigned `INTEGER` ranges are treated as enforced. SQLite does not enforce the length, and PostgreSQL has no unsigned integers.
- Timestamps are integers. The ISO-8601 strings the DynamoDB adapter compares are taken to order like the instants they spell.
- The payload fields (`data`, `repeatInterval`, `repeatAt`, failure data) are carried as opaque values.
- DynamoDB batch aggregation: `resolve(err, acc)` passes only one value, so `result[0]` and `result[1]` index into that value. The model proves the aggregation loop over (error, result) pairs. It does not claim how `purge`, `cancel` or `_unlockJobs` compose with it end to end.
- Concrete scenarios on a literal table (two claims of one job, a purge, `saveSingle` twice) are not modelled. `Sequelize.SecondClaimFindsNothing`, `Sequelize.SequelizeAdapter.Purge` and `Sequelize.SaveSingleFindsInserted` state them for every table instead.
- `Sequelize.SequelizeAdapter.FindAndLockNextJob`: the re-read after the update looks up the row by name and the same `lockedAt`. If another row of the same name was locked in the same millisecond it could return that row; the model returns the locked row.
- `Sequelize.SequelizeAdapter.SaveById`: a `_id` among the properties is not written. The model keeps the primary key of the row found rather than saving a changed key.
- `Sequelize.SequelizeAdapter.Purge`: with an empty list of defined names the model deletes every row. The SQL Sequelize generates for `NOT IN ()` may delete none.
- `DynamoDb.DynamoDbAdapter.Cancel`: runs the corrected translation `DynamoQuery.GetQueryFromObject`. As written, a predicate with `name` and `priority`, or `name` and `type`, throws a TypeError at lib/dynamodb.js:102/108 and destroys nothing (`DynamoQuery.GetQueryAsWritten`).
- `Sequelize.SequelizeAdapter.FindAndLockNextJob`: the ordered single-row UPDATE is taken as written. Sequelize's `Model.update` has no `order` option and applies `limit` only on MySQL and MariaDB; on PostgreSQL or SQLite every eligible row may be locked, and the model does not capture that. The same holds for `Sequelize.SequelizeAdapter.NextEligible`.
- The `createdAt`/`updatedAt` bookkeeping columns are not modelled. vogels adds them with `timestamps: true` (lib/dynamodb.js:7), and Sequelize's `define` adds them by default (lib/sequelize.js:5-82) and stamps `updatedAt` on save and bulk update. So `DynamoDb.PatchedFields`, `DynamoDb.DynamoDbAdapter.UnlockJobs`, `Sequelize.SequelizeAdapter.UnlockJobs` and `Sequelize.NewRowFields` say "nothing else changes" or "no other key" of the modelled columns only.
- Every DynamoDB query and scan is modelled as reading the whole table in one step. vogels' `exec()` without `loadAll()` sends one request, which reads at most 1 MB before filtering, so on a larger table the source sees only the first page. `DynamoDb.DynamoDbAdapter.Purge` may then leave jobs with undefined names, `DynamoDb.DynamoDbAdapter.NextCandidate` and `DynamoDb.DynamoDbAdapter.FindAndLockNextJob` may find no candidate while one exists, and `DynamoDb.DynamoDbAdapter.SaveSingle`, `DynamoDb.DynamoDbAdapter.SaveUnique` and `DynamoDb.DynamoDbAdapter.Cancel` may miss a matching job.
- `DynamoDb.InsertedFields`: a property the insert carries as `null` (or `undefined`) is kept as `null` in the stored item; vogels' `create` serializer may leave it out, which reads back as an absent attribute.
- `Sequelize.SequelizeAdapter.UnlockJobs`: reports the rows the WHERE selects. MySQL without the found-rows flag counts only rows whose `lockedAt` actually changed.
- `DynamoDb.DynamoDbAdapter.LockOnTheFly`: the query then unconditional update at lines 339-346 is taken as one atomic step. The race between two such steps is stated by `DynamoDb.OnTheFlyRace` (see Findings). The snapshot's `nextRunAt` is taken to be a `Date`: a snapshot holding the ISO string the adapter writes would throw at `toISOString` (line 341), while the model accepts any timestamp.
- The `jobs` read operation and the test helpers (`test/support.js`, `test/fixtures/agenda-instance.js`) are not part of this model.

## Findings

| source | as written | input that shows it | evidently intended | confidence | as-written member | corrected member |
|---|---|---|---|---|---|---|
| lib/dynamodb.js:102 | the composite-index branches call `.eqauls`, which the query builder does not have, so they throw a TypeError | `cancel({name: "report", priority: 5})` | a range-key equality `.equals(...)` on `priority` (and on `type` at line 108) | high; not executed | `DynamoQuery.GetQueryAsWritten` (with `DynamoQuery.EqaulsTypoRejectsCompositeQuery`) | `DynamoQuery.GetQueryFromObject` (with `DynamoQuery.TranslationSound`) |
| lib/dynamodb.js:319-326 | the claim reads a candidate, then writes `lockedAt` unconditionally; two workers that read the same candidate both write and both receive the job | one due job; two workers query before either writes | a write conditional on the `lockedAt` that was read, so only one worker wins | high; not executed | `DynamoDb.TwoStepClaimRace` (with `DynamoDb.DynamoDbAdapter.FindAndLockNextJob`, which writes unconditionally) | `DynamoDb.ConditionalClaimExclusive` (about the conditional write `DynamoDb.ConditionalLock`) |
| lib/dynamodb.js:339-346 | `lockOnTheFly` queries for the unlocked item, then writes `lockedAt` unconditionally; two workers holding the same snapshot that both query before either writes both lock the job and both receive it | one unlocked job; two workers call `lockOnTheFly` with the same snapshot at the same time | an update conditional on `lockedAt` still being `Date(1)`, so only one worker wins | high; not executed | `DynamoDb.OnTheFlyRace` | `DynamoDb.ConditionalOnTheFlyExclusive` (about the conditional write `DynamoDb.ConditionalLock`) |
