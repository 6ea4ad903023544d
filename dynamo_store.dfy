/**
 * The DynamoDB storage adapter (lib/dynamodb.js) as a state machine over
 * its `Job` table: a map from hash key `_id` to item. Each adapter
 * operation is one atomic step of a class method; the clock and the UUID
 * generator are parameters (`now`, `freshId`), and so is the outcome of
 * the lookups whose failure the adapter turns into an insert.
 */
module DynamoDb {
  import opened JsValues
  import opened DynamoQuery

  /** `new Date(1)`: the `lockedAt` of a job that nobody holds. */
  const NotLocked: int := 1

  // ---------------------------------------------------------------------
  // The `Job` schema (lines 5-32)

  /** The attributes the schema declares, with the `createdAt` and
      `updatedAt` that `timestamps: true` adds to it. */
  const Attributes: set<string> :=
    {"_id", "name", "type", "priority", "data", "repeatInterval", "repeatTimezone",
     "repeatAt", "failReason", "failCount", "failedAt", "nextRunAt", "lastRunAt",
     "lastFinishedAt", "lastModifiedBy", "lockedAt", "disabled", "createdAt", "updatedAt"}

  /** One attribute checked against the schema's type for it; `Joi.any()`
      attributes take any value. */
  predicate AttributeFits(field: string, v: Value) {
    if field == "_id" || field == "name" || field == "type" then v.Str?
    else if field == "priority" || field == "failCount" then v.Num?
    else if field == "repeatTimezone" || field == "failReason" || field == "lastModifiedBy" then
      v.Str? || v == Null
    else if field == "disabled" then v.Bool?
    else true
  }

  /** The Joi object of the schema: no attribute it does not declare (no
      `allowUnknown` option is set), and each declared one of its type. */
  predicate SchemaAccepts(item: Row) {
    forall f :: f in item ==> f in Attributes && AttributeFits(f, item[f])
  }

  /** The schema defaults: `priority` and `failCount` 0, `lockedAt`
      `new Date(1)`, `disabled` false. */
  const Defaults: Row :=
    map["priority" := Num(0), "failCount" := Num(0), "lockedAt" := Time(NotLocked), "disabled" := Bool(false)]

  /** The item `insert` writes: the cleaned properties over the defaults. */
  function InsertedItem(props: Row): Row {
    Overlay(Defaults, Cleaned(props))
  }

  /** The hash key of a new item: the one given, else a generated UUID. */
  function InsertId(props: Row, freshId: string): string {
    if Get(props, "_id").Str? then props["_id"].s else freshId
  }

  /** The effect of `insert(props)` on a table, and its report. */
  ghost predicate InsertEffect(before: map<string, Row>, props: Row, freshId: string,
                               after: map<string, Row>, r: Result<Saved>) {
    var item := InsertedItem(props);
    var id := InsertId(item, freshId);
    if SchemaAccepts(item) then
      after == before[id := item["_id" := Str(id)]] && r == Ok(Saved(Str(id), Get(item, "nextRunAt")))
    else
      after == before && r == Err(SchemaViolation)
  }

  /** A stored item has every property it was inserted with (`undefined`
      stored as `null`) and the default of every property it lacked. */
  lemma InsertedFields(props: Row, freshId: string, k: string)
    requires SchemaAccepts(InsertedItem(props))
    ensures var id := InsertId(InsertedItem(props), freshId);
            var stored := InsertedItem(props)["_id" := Str(id)];
            && (k in props && k != "_id" ==> stored[k] == Stored(props[k]))
            && (k in Defaults && k !in props ==> stored[k] == Defaults[k])
            && Get(stored, "_id") == Str(id)
  {
  }

  /** A value vogels' update turns into a `REMOVE` of the attribute
      rather than a `SET`: `null` or the empty string. */
  predicate Removes(v: Value) {
    v == Null || v == Str("")
  }

  /** The item after an update expression built from `patch`: every
      attribute of the patch is set, except that one whose value `Removes`
      is removed; the hash key is never removed. */
  function ApplyUpdate(base: Row, patch: Row): Row {
    var merged := Overlay(base, patch);
    map k | k in merged && (k == "_id" || k !in patch || !Removes(patch[k])) :: merged[k]
  }

  /** The table after the update `saveByID(id, props)` issues: the item
      (created if absent) takes the cleaned properties, and `_id`. */
  function Patched(table: map<string, Row>, id: string, props: Row): map<string, Row> {
    var base := if id in table then table[id] else map[];
    table[id := ApplyUpdate(base, Cleaned(props["_id" := Str(id)]))]
  }

  /** The attributes of an updated item: the old ones and the patch's, less
      those the patch removes. */
  lemma ApplyUpdateKeys(base: Row, patch: Row)
    ensures ApplyUpdate(base, patch).Keys
              == (base.Keys + patch.Keys) - (set k | k in patch && k != "_id" && Removes(patch[k]))
  {
  }

  /** What `saveByID` changes: only item `id`. On it, a property of the patch
      that is `undefined`, `null` or `""` is gone, every other one holds its
      value, and every attribute the patch does not name is unchanged. */
  lemma PatchedFields(table: map<string, Row>, id: string, props: Row)
    ensures var after := Patched(table, id, props);
            && after.Keys == table.Keys + {id}
            && (forall k :: k in table && k != id ==> after[k] == table[k])
            && Get(after[id], "_id") == Str(id)
            && after[id].Keys == ((if id in table then table[id].Keys else {}) + props.Keys + {"_id"})
                                   - (set k | k in props && k != "_id" && Removes(Stored(props[k])))
            && (forall k :: k in props && k != "_id" && Removes(Stored(props[k])) ==> k !in after[id])
            && (forall k :: k in props && k != "_id" && !Removes(Stored(props[k])) ==> after[id][k] == Stored(props[k]))
            && (forall k :: id in table && k in table[id] && k !in props && k != "_id" ==> after[id][k] == table[id][k])
  {
    var base := if id in table then table[id] else map[];
    var patch := Cleaned(props["_id" := Str(id)]);
    ApplyUpdateKeys(base, patch);
    assert patch.Keys == props.Keys + {"_id"};
    assert (set k | k in patch && k != "_id" && Removes(patch[k]))
        == (set k | k in props && k != "_id" && Removes(Stored(props[k])));
  }

  // ---------------------------------------------------------------------
  // The claim protocol as functions of the table

  /** An item the claim query of `_findAndLockNextJob` returns: on the
      name+priority index under `jobName` (so it has a numeric priority),
      not disabled, locked no later than `lockDeadline`, due by `nextScanAt`. */
  predicate ClaimCandidate(item: Row, jobName: string, nextScanAt: int, lockDeadline: int) {
    && Get(item, "name") == Str(jobName)
    && Get(item, "priority").Num?
    && Get(item, "disabled") != Bool(true)
    && TimeAtMost(Get(item, "lockedAt"), lockDeadline)
    && TimeAtMost(Get(item, "nextRunAt"), nextScanAt)
  }

  function Priority(item: Row): int {
    if Get(item, "priority").Num? then Get(item, "priority").n else 0
  }

  /** `id` heads the ascending name+priority query: a candidate whose
      priority no other candidate undercuts. */
  ghost predicate IsFirstCandidate(table: map<string, Row>, id: string,
                                   jobName: string, nextScanAt: int, lockDeadline: int) {
    && id in table
    && ClaimCandidate(table[id], jobName, nextScanAt, lockDeadline)
    && forall k :: k in table && ClaimCandidate(table[k], jobName, nextScanAt, lockDeadline) ==>
         Priority(table[id]) <= Priority(table[k])
  }

  /** The item `id` with `lockedAt` replaced (an update creates a missing item). */
  function WithLockedAt(table: map<string, Row>, id: string, v: Value): Row {
    (if id in table then table[id] else map["_id" := Str(id)])["lockedAt" := v]
  }

  /** The unconditional update `{_id: id, lockedAt: now}` of lines 325 and 346. */
  function Lock(table: map<string, Row>, id: string, now: int): map<string, Row> {
    table[id := WithLockedAt(table, id, Time(now))]
  }

  /** A conditional update: the same write, applied only while the stored
      `lockedAt` is still the value the claimer read. */
  function ConditionalLock(table: map<string, Row>, id: string, expected: Value, now: int): Option<map<string, Row>> {
    if id in table && Get(table[id], "lockedAt") == expected then Some(Lock(table, id, now)) else None
  }

  /** Two workers that ran the claim query on the same table, one whose
      only candidate is `id`, both pick `id`. The first write claims it; the
      second, unconditional, write lands although the job is no longer a
      candidate, and each worker is handed back the item `id`, locked at its
      own `now`: both are told they hold the same job. */
  lemma TwoStepClaimRace(table: map<string, Row>, id: string, jobName: string,
                         nextScanAt: int, lockDeadline: int, nowA: int, nowB: int)
    requires id in table && ClaimCandidate(table[id], jobName, nextScanAt, lockDeadline)
    requires forall k :: k in table && k != id ==> !ClaimCandidate(table[k], jobName, nextScanAt, lockDeadline)
    requires lockDeadline < nowA && Keyed(table)
    ensures forall k :: IsFirstCandidate(table, k, jobName, nextScanAt, lockDeadline) <==> k == id
    ensures !ClaimCandidate(Lock(table, id, nowA)[id], jobName, nextScanAt, lockDeadline)
    ensures var jobA := Lock(table, id, nowA)[id];
            var jobB := Lock(Lock(table, id, nowA), id, nowB)[id];
            && IdOf(jobA) == id && IdOf(jobB) == id
            && Get(jobA, "lockedAt") == Time(nowA) && Get(jobB, "lockedAt") == Time(nowB)
  {
  }

  /** With the conditional write, of two workers that read the same
      `lockedAt`, the first claims the item and the second is refused. */
  lemma ConditionalClaimExclusive(table: map<string, Row>, id: string, nowA: int, nowB: int)
    requires id in table
    requires Time(nowA) != Get(table[id], "lockedAt")
    ensures var seen := Get(table[id], "lockedAt");
            && ConditionalLock(table, id, seen, nowA).Some?
            && ConditionalLock(ConditionalLock(table, id, seen, nowA).value, id, seen, nowB).None?
  {
  }

  /** The filters of `lockOnTheFly`: still at the unlocked sentinel, still
      due at the snapshot's `nextRunAt`, and not disabled. */
  predicate OnTheFlyMatch(item: Row, nextRunAt: int) {
    && Get(item, "lockedAt") == Time(NotLocked)
    && Get(item, "nextRunAt") == Time(nextRunAt)
    && Get(item, "disabled") != Bool(true)
  }

  /** Does `lockOnTheFly(snapshot)` find its item? */
  ghost predicate OnTheFlyHit(table: map<string, Row>, snapshot: Row) {
    && Get(snapshot, "_id").Str?
    && Get(snapshot, "_id").s in table
    && Get(snapshot, "nextRunAt").Time?
    && OnTheFlyMatch(table[Get(snapshot, "_id").s], Get(snapshot, "nextRunAt").ms)
  }

  /** The item `_unlockJobs` leaves behind: `lockedAt` back at the sentinel. */
  function UnlockedItem(table: map<string, Row>, id: string): Row {
    WithLockedAt(table, id, Time(NotLocked))
  }

  /** One update of `_unlockJobs`: after unlocking `ids[i]` the table still
      keys every item by its `_id`, and holds the first `i + 1` ids unlocked
      and every other item of `before` unchanged. */
  lemma UnlockStep(before: map<string, Row>, table: map<string, Row>, after: map<string, Row>, ids: seq<string>, i: nat, n: nat)
    requires i < |ids| && n == i + 1 && Keyed(table)
    requires table.Keys == before.Keys + (set id | id in ids[..i])
    requires forall k :: k in before && k !in ids[..i] ==> table[k] == before[k]
    requires forall k :: k in ids[..i] ==> table[k] == UnlockedItem(before, k)
    requires after == table[ids[i] := UnlockedItem(table, ids[i])]
    ensures Keyed(after)
    ensures after.Keys == before.Keys + (set id | id in ids[..n])
    ensures forall k :: k in before && k !in ids[..n] ==> after[k] == before[k]
    ensures forall k :: k in ids[..n] ==> after[k] == UnlockedItem(before, k)
  {
    assert ids[..n] == ids[..i] + [ids[i]];
    var id := ids[i];
    assert UnlockedItem(table, id) == UnlockedItem(before, id) by {
      if id in ids[..i] {
        assert table[id] == UnlockedItem(before, id);
      } else if id in before {
        assert table[id] == before[id];
      }
    }
  }

  /** A job that was never locked, or was unlocked, passes the lock test of
      the claim query for every deadline from 1 on. */
  lemma SentinelPassesLockTest(table: map<string, Row>, id: string, lockDeadline: int)
    requires lockDeadline >= NotLocked
    ensures TimeAtMost(Get(UnlockedItem(table, id), "lockedAt"), lockDeadline)
    ensures TimeAtMost(Get(Defaults, "lockedAt"), lockDeadline)
  {
  }

  /** `_unlockJobs` writes exactly the sentinel `lockOnTheFly` asks for: an
      unlocked, enabled item whose `nextRunAt` is the snapshot's is found. */
  lemma UnlockEnablesLockOnTheFly(table: map<string, Row>, id: string, snapshot: Row)
    requires id in table
    requires Get(snapshot, "_id") == Str(id)
    requires Get(snapshot, "nextRunAt").Time? && Get(table[id], "nextRunAt") == Get(snapshot, "nextRunAt")
    requires Get(table[id], "disabled") != Bool(true)
    ensures OnTheFlyHit(table[id := UnlockedItem(table, id)], snapshot)
  {
  }

  /** Once claimed at `now` later than the lock deadline, the item is no
      longer a candidate of the same claim query. */
  lemma ClaimedJobNotCandidate(table: map<string, Row>, id: string, jobName: string,
                               nextScanAt: int, lockDeadline: int, now: int)
    requires id in table && lockDeadline < now
    ensures !ClaimCandidate(Lock(table, id, now)[id], jobName, nextScanAt, lockDeadline)
  {
  }

  /** After `lockOnTheFly` took the item at `now`, another attempt from the
      same snapshot that queries afterwards misses, since `lockedAt` is no
      longer the sentinel. Two attempts whose queries both ran first are
      `OnTheFlyRace`. */
  lemma LockOnTheFlyExclusive(table: map<string, Row>, snapshot: Row, now: int)
    requires OnTheFlyHit(table, snapshot)
    requires now != NotLocked
    ensures !OnTheFlyHit(Lock(table, Get(snapshot, "_id").s, now), snapshot)
  {
  }

  /** Two workers call `lockOnTheFly` with the same snapshot and both
      queries find the unlocked item before either update lands. The first
      update takes the item, so a query after it would miss; the second,
      unconditional, update lands anyway, and each worker is handed back the
      same item, locked at its own `now`. */
  lemma OnTheFlyRace(table: map<string, Row>, snapshot: Row, nowA: int, nowB: int)
    requires OnTheFlyHit(table, snapshot) && Keyed(table)
    requires nowA != NotLocked
    ensures var id := Get(snapshot, "_id").s;
            var jobA := Lock(table, id, nowA)[id];
            var jobB := Lock(Lock(table, id, nowA), id, nowB)[id];
            && !OnTheFlyHit(Lock(table, id, nowA), snapshot)
            && IdOf(jobA) == id && IdOf(jobB) == id
            && Get(jobA, "lockedAt") == Time(nowA) && Get(jobB, "lockedAt") == Time(nowB)
  {
  }

  /** With the update of `lockOnTheFly` conditional on `lockedAt` still being
      the sentinel its query filtered on, of two workers holding the same
      snapshot the first update succeeds and the second is refused. */
  lemma ConditionalOnTheFlyExclusive(table: map<string, Row>, snapshot: Row, nowA: int, nowB: int)
    requires OnTheFlyHit(table, snapshot)
    requires nowA != NotLocked
    ensures var id := Get(snapshot, "_id").s;
            && ConditionalLock(table, id, Time(NotLocked), nowA).Some?
            && ConditionalLock(ConditionalLock(table, id, Time(NotLocked), nowA).value, id, Time(NotLocked), nowB).None?
  {
  }

  /** A lookup hit of `saveSingle`: an item of the name+type index. */
  predicate SingleMatch(item: Row, name: string, jobType: string) {
    Get(item, "name") == Str(name) && Get(item, "type") == Str(jobType)
  }

  /** The stray filter `#title < :t` with `:t = 'Expanding'`. */
  predicate TitleBeforeExpanding(item: Row) {
    Get(item, "title").Str? && StringLess(Get(item, "title").s, "Expanding")
  }

  /** The caller's query object of `saveUnique` as its properties in key
      order, which is the order `Object.keys` visits them. */
  type QueryObject = seq<(string, Value)>

  /** A lookup hit of `saveUnique`: on the name index and, once the query
      has a property, the title filter and the equality on the LAST
      property. Each pass of the loop sets the filter expression, its
      values and its names afresh before adding its own equality, so the
      equalities of the earlier properties are dropped. */
  predicate UniqueMatch(item: Row, name: string, query: QueryObject) {
    && Get(item, "name") == Str(name)
    && (|query| > 0 ==>
          && TitleBeforeExpanding(item)
          && Get(item, query[|query| - 1].0) == query[|query| - 1].1)
  }

  /** Only the last property of the query filters: changing an item on an
      earlier property (other than the index key `name`, the `title` of the
      stray filter and the last property itself) never changes whether the
      lookup of `saveUnique` finds it. So `{a: 1, b: 2}` finds an item with
      `b = 2` whatever its `a`. */
  lemma UniqueLookupIgnoresEarlierProperties(item: Row, name: string, query: QueryObject, i: nat, other: Value)
    requires i < |query| - 1
    requires query[i].0 != query[|query| - 1].0 && query[i].0 != "name" && query[i].0 != "title"
    ensures UniqueMatch(item[query[i].0 := other], name, query) <==> UniqueMatch(item, name, query)
  {
  }

  /** A job carrying no `title` never passes the stray filter, so once the
      caller's query has a property the lookup of `saveUnique` finds nothing
      and it inserts. */
  lemma UntitledJobsNeverMatchUnique(item: Row, name: string, query: QueryObject)
    requires |query| > 0 && "title" !in item
    ensures !UniqueMatch(item, name, query)
  {
  }

  // ---------------------------------------------------------------------
  // The adapter

  class DynamoDbAdapter {
    /** The `Job` table: hash key to item. */
    var table: map<string, Row>

    ghost predicate Valid()
      reads this
    {
      Keyed(table)
    }

    constructor ()
      ensures Valid() && table == map[]
    {
      table := map[];
    }

    /** `insert(props)`: `cleanData`, then `create`, which applies the
        schema defaults and validation. */
    method Insert(props: Row, freshId: string) returns (r: Result<Saved>)
      requires Valid()
      modifies this
      ensures Valid()
      ensures InsertEffect(old(table), props, freshId, table, r)
    {
      var cleaned := CleanData(props);
      var item := Overlay(Defaults, cleaned);
      if !SchemaAccepts(item) {
        return Err(SchemaViolation);
      }
      var id := InsertId(item, freshId);
      table := table[id := item["_id" := Str(id)]];
      r := Ok(Saved(Str(id), Get(item, "nextRunAt")));
    }

    /** `saveByID(id, props)`: an update of item `id` with the cleaned
        properties; DynamoDB creates the item if it is not there. */
    method SaveById(id: string, props: Row) returns (saved: Saved)
      requires Valid()
      modifies this
      ensures Valid()
      ensures table == Patched(old(table), id, props)
      ensures saved == Saved(Str(id), Get(table[id], "nextRunAt"))
    {
      var patch := CleanData(props["_id" := Str(id)]);
      var base := if id in table then table[id] else map[];
      table := table[id := ApplyUpdate(base, patch)];
      saved := Saved(Str(id), Get(table[id], "nextRunAt"));
    }

    /** `saveSingle(name, type, props, insertOnly)`: find-or-create on the
        name+type index. A failed or empty lookup inserts `props` overlaid
        with `insertOnly`; a hit updates that item with `props`. */
    method SaveSingle(name: string, jobType: string, props: Row, insertOnly: Row,
                      lookupFails: bool, freshId: string) returns (r: Result<Saved>)
      requires Valid()
      modifies this
      ensures Valid()
      ensures lookupFails || (forall k :: k in old(table) ==> !SingleMatch(old(table)[k], name, jobType)) ==>
                InsertEffect(old(table), Overlay(props, insertOnly), freshId, table, r)
      ensures !lookupFails && (exists k :: k in old(table) && SingleMatch(old(table)[k], name, jobType)) ==>
                && r.Ok? && r.value.id.Str?
                && r.value.id.s in old(table) && SingleMatch(old(table)[r.value.id.s], name, jobType)
                && table == Patched(old(table), r.value.id.s, props)
                && r.value.nextRunAt == Get(table[r.value.id.s], "nextRunAt")
    {
      if lookupFails || forall k :: k in table ==> !SingleMatch(table[k], name, jobType) {
        var merged := AssignAll(props, insertOnly);
        r := Insert(merged, freshId);
      } else {
        var k :| k in table && SingleMatch(table[k], name, jobType);
        var saved := SaveById(k, props);
        r := Ok(saved);
      }
    }

    /** `saveUnique(name, query, props, insertOnly)` as written: a failed or
        empty lookup inserts `props` alone, and a hit updates the item with
        `insertOnly`, not with `props`. */
    method SaveUnique(name: string, query: QueryObject, props: Row, insertOnly: Row,
                      lookupFails: bool, freshId: string) returns (r: Result<Saved>)
      requires Valid()
      modifies this
      ensures Valid()
      ensures lookupFails || (forall k :: k in old(table) ==> !UniqueMatch(old(table)[k], name, query)) ==>
                InsertEffect(old(table), props, freshId, table, r)
      ensures !lookupFails && (exists k :: k in old(table) && UniqueMatch(old(table)[k], name, query)) ==>
                && r.Ok? && r.value.id.Str?
                && r.value.id.s in old(table) && UniqueMatch(old(table)[r.value.id.s], name, query)
                && table == Patched(old(table), r.value.id.s, insertOnly)
                && r.value.nextRunAt == Get(table[r.value.id.s], "nextRunAt")
    {
      if lookupFails || forall k :: k in table ==> !UniqueMatch(table[k], name, query) {
        r := Insert(props, freshId);
      } else {
        var k :| k in table && UniqueMatch(table[k], name, query);
        var saved := SaveById(k, insertOnly);
        r := Ok(saved);
      }
    }

    /** `cancel(query)`: translate the predicate object, then destroy every
        item the query returns. */
    method Cancel(obj: Row) returns (q: Query, rest: Row)
      requires Valid()
      modifies this
      ensures Valid()
      ensures q.access == AccessOf(obj) && rest == obj - Consumed(q.access)
      ensures table == old(table) - Answers(q, old(table))
      ensures q.access != Scan ==> table == old(table) - Matching(obj, old(table))
      ensures q.access == Scan ==> table == map[]
    {
      q, rest := GetQueryFromObject(obj);
      if q.access != Scan {
        TranslationSound(obj, table);
      }
      table := table - Answers(q, table);
    }

    /** `purge(definedNames)`: scan with the built filter expression and
        destroy every item it admits, which are the items whose name is not
        a defined name. With no defined names the scan carries an empty
        filter expression and an empty value map, which DynamoDB refuses;
        the callback then reads `Items` of a missing response and throws,
        and nothing is destroyed. */
    method Purge(names: seq<string>) returns (filter: string, values: map<string, Value>, thrown: Option<Error>)
      requires Valid()
      modifies this
      ensures Valid()
      ensures filter == FilterText(|names|)
      ensures thrown.Some? <==> names == []
      ensures thrown.Some? ==> thrown.value == TypeError && table == old(table)
      ensures thrown.None? ==>
                table == map k | k in old(table) && NameDefined(old(table)[k], names) :: old(table)[k]
    {
      filter, values := BuildPurgeFilter(names);
      if names == [] {
        return filter, values, Some(TypeError);
      }
      thrown := None;
      forall k | k in table
        ensures FilterAdmits(|names|, values, table[k]) <==> !NameDefined(table[k], names)
      {
        PurgeFilterMeaning(names, values, table[k]);
      }
      table := map k | k in table && !FilterAdmits(|names|, values, table[k]) :: table[k];
    }

    /** `_unlockJobs(jobIds)`: one update per id, back to the sentinel
        `lockedAt`; an id with no item gets a new item holding only that. */
    method UnlockJobs(ids: seq<string>)
      requires Valid()
      modifies this
      ensures Valid()
      ensures table.Keys == old(table).Keys + (set id | id in ids)
      ensures forall k :: k in old(table) && k !in ids ==> table[k] == old(table)[k]
      ensures forall k :: k in ids ==> table[k] == UnlockedItem(old(table), k)
    {
      var i := 0;
      while i < |ids|
        invariant 0 <= i <= |ids|
        invariant Valid()
        invariant table.Keys == old(table).Keys + (set id | id in ids[..i])
        invariant forall k :: k in old(table) && k !in ids[..i] ==> table[k] == old(table)[k]
        invariant forall k :: k in ids[..i] ==> table[k] == UnlockedItem(old(table), k)
      {
        UnlockStep(old(table), table, table[ids[i] := UnlockedItem(table, ids[i])], ids, i, i + 1);
        table := table[ids[i] := UnlockedItem(table, ids[i])];
        i := i + 1;
      }
      assert ids[..i] == ids;
    }

    /** The claim query of `_findAndLockNextJob`: the first candidate of
        the name+priority index in ascending priority, if any. */
    method NextCandidate(jobName: string, nextScanAt: int, lockDeadline: int) returns (id: Option<string>)
      ensures id.Some? ==> IsFirstCandidate(table, id.value, jobName, nextScanAt, lockDeadline)
      ensures id.None? ==> forall k :: k in table ==> !ClaimCandidate(table[k], jobName, nextScanAt, lockDeadline)
    {
      id := None;
      var todo := table.Keys;
      while todo != {}
        invariant todo <= table.Keys
        invariant id.Some? ==> id.value in table && ClaimCandidate(table[id.value], jobName, nextScanAt, lockDeadline)
        invariant id.Some? ==> forall k :: k in table && k !in todo && ClaimCandidate(table[k], jobName, nextScanAt, lockDeadline) ==>
                    Priority(table[id.value]) <= Priority(table[k])
        invariant id.None? ==> forall k :: k in table && k !in todo ==> !ClaimCandidate(table[k], jobName, nextScanAt, lockDeadline)
        decreases todo
      {
        var k :| k in todo;
        if ClaimCandidate(table[k], jobName, nextScanAt, lockDeadline)
           && (id.None? || Priority(table[k]) < Priority(table[id.value]))
        {
          id := Some(k);
        }
        todo := todo - {k};
      }
    }

    /** `_findAndLockNextJob(jobName, nextScanAt, lockDeadline)` as one
        atomic step: the first candidate gets `lockedAt := now` by an
        unconditional update, and the updated item is returned; no candidate
        gives `null`. */
    method FindAndLockNextJob(jobName: string, nextScanAt: int, lockDeadline: int, now: int)
      returns (job: Option<Row>)
      requires Valid()
      modifies this
      ensures Valid()
      ensures job.None? <==> forall k :: k in old(table) ==> !ClaimCandidate(old(table)[k], jobName, nextScanAt, lockDeadline)
      ensures job.None? ==> table == old(table)
      ensures job.Some? ==>
                && IsFirstCandidate(old(table), IdOf(job.value), jobName, nextScanAt, lockDeadline)
                && table == Lock(old(table), IdOf(job.value), now)
                && job.value == table[IdOf(job.value)]
    {
      var next := NextCandidate(jobName, nextScanAt, lockDeadline);
      if next.None? {
        return None;
      }
      var id := next.value;
      table := Lock(table, id, now);
      job := Some(table[id]);
    }

    /** `lockOnTheFly(job)`: look the snapshot's item up by hash key with the
        sentinel, `nextRunAt` and `disabled` filters, and lock it if found.
        A snapshot without a `nextRunAt` date throws in `toISOString`. */
    method LockOnTheFly(snapshot: Row, now: int) returns (r: Result<Option<Row>>)
      requires Valid()
      modifies this
      ensures Valid()
      ensures !Get(snapshot, "nextRunAt").Time? ==> r == Err(TypeError) && table == old(table)
      ensures Get(snapshot, "nextRunAt").Time? && !OnTheFlyHit(old(table), snapshot) ==>
                r == Ok(None) && table == old(table)
      ensures OnTheFlyHit(old(table), snapshot) ==>
                var id := Get(snapshot, "_id").s;
                table == Lock(old(table), id, now) && r == Ok(Some(table[id]))
    {
      var nextRunAt := Get(snapshot, "nextRunAt");
      if !nextRunAt.Time? {
        return Err(TypeError);
      }
      var id := Get(snapshot, "_id");
      if id.Str? && id.s in table && OnTheFlyMatch(table[id.s], nextRunAt.ms) {
        table := Lock(table, id.s, now);
        r := Ok(Some(table[id.s]));
      } else {
        r := Ok(None);
      }
    }
  }
}
