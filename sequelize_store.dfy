/**
 * The SQL storage adapter (lib/sequelize.js) as a state machine over its
 * `Job` table: a map from primary key `_id` to a row holding every column.
 * Each adapter operation is one atomic statement (or lookup plus statement)
 * of a class method; the clock and the UUID generator are parameters
 * (`now`, `freshId`), and so is the failure of the lookups whose error the
 * adapter turns into an insert.
 */
module Sequelize {
  import opened JsValues

  // ---------------------------------------------------------------------
  // The table definition of `getCollection` (lines 5-79)

  datatype ColumnType = Uuid | Text | Integer | UnsignedInteger | Json | Date | Boolean

  const Columns: set<string> := {
    "_id", "name", "type", "priority", "data", "repeatInterval", "repeatTimezone",
    "repeatAt", "failReason", "failCount", "failedAt", "nextRunAt", "lastRunAt",
    "lastFinishedAt", "lastModifiedBy", "lockedAt", "disabled"
  }

  function TypeOf(column: string): ColumnType {
    if column == "_id" then Uuid
    else if column in {"name", "type", "repeatInterval", "repeatTimezone", "failReason", "lastModifiedBy"} then Text
    else if column == "priority" then Integer
    else if column == "failCount" then UnsignedInteger
    else if column in {"repeatAt", "failedAt", "nextRunAt", "lastRunAt", "lastFinishedAt", "lockedAt"} then Date
    else if column == "disabled" then Boolean
    else Json
  }

  /** `allowNull: false` on `_id`, `name`, `type`, `priority`, `failCount`
      and `disabled`; every other column may hold NULL. */
  predicate AllowsNull(column: string) {
    column !in {"_id", "name", "type", "priority", "failCount", "disabled"}
  }

  /** The value a new row gets for a column it was not given: a fresh UUID
      for `_id`, 0 for `priority` and `failCount`, false for `disabled`,
      NULL otherwise (including `nextRunAt` and `lockedAt`). */
  function DefaultOf(column: string, freshId: string): Value {
    if column == "_id" then Str(freshId)
    else if column == "priority" || column == "failCount" then Num(0)
    else if column == "disabled" then Bool(false)
    else Null
  }

  /** A non-null value of the column's SQL type: `STRING(256)` holds at most
      256 characters, `INTEGER` is 32-bit signed, `INTEGER.UNSIGNED` 32-bit
      unsigned, `DATE(3)` a timestamp. */
  predicate HasType(t: ColumnType, v: Value) {
    match t
    case Uuid => v.Str?
    case Text => v.Str? && |v.s| <= 256
    case Integer => v.Num? && -0x8000_0000 <= v.n < 0x8000_0000
    case UnsignedInteger => v.Num? && 0 <= v.n < 0x1_0000_0000
    case Json => true
    case Date => v.Time?
    case Boolean => v.Bool?
  }

  predicate Fits(column: string, v: Value) {
    v != Undefined && (if v == Null then AllowsNull(column) else HasType(TypeOf(column), v))
  }

  /** A row the table can hold: every column, each with a value it accepts. */
  predicate RowFits(row: Row) {
    row.Keys == Columns && forall c :: c in Columns ==> Fits(c, row[c])
  }

  /** Every row fits the table and sits under its own `_id`. */
  ghost predicate Keyed(table: map<string, Row>) {
    forall k :: k in table ==> RowFits(table[k]) && Get(table[k], "_id") == Str(k)
  }

  lemma KeyedUpdate(table: map<string, Row>, id: string, row: Row)
    requires Keyed(table) && RowFits(row) && Get(row, "_id") == Str(id)
    ensures Keyed(table[id := row])
  {
    forall k | k in table[id := row]
      ensures RowFits(table[id := row][k]) && Get(table[id := row][k], "_id") == Str(k)
    {
      if k != id {
        assert table[id := row][k] == table[k];
      }
    }
  }

  /** Setting `lockedAt` to a timestamp or NULL keeps a row fitting. */
  lemma LockedAtFits(row: Row, v: Value)
    requires RowFits(row) && (v == Null || v.Time?)
    ensures RowFits(row["lockedAt" := v]) && Get(row["lockedAt" := v], "_id") == Get(row, "_id")
  {
    assert TypeOf("lockedAt") == Date;
    assert AllowsNull("lockedAt");
    assert row["lockedAt" := v].Keys == Columns;
  }

  // ---------------------------------------------------------------------
  // Writes as functions of the table

  /** The row `create(props)` builds: each column takes the given value
      unless that is `undefined` or missing, then its default; properties
      that are not columns are dropped. */
  function NewRow(props: Row, freshId: string): Row {
    map c | c in Columns :: if Get(props, c) != Undefined then props[c] else DefaultOf(c, freshId)
  }

  /** A created row has every given column value and the default of every
      column it was not given. */
  lemma NewRowFields(props: Row, freshId: string, c: string)
    requires c in Columns
    ensures Get(props, c) != Undefined ==> NewRow(props, freshId)[c] == props[c]
    ensures Get(props, c) == Undefined ==> NewRow(props, freshId)[c] == DefaultOf(c, freshId)
    ensures NewRow(props, freshId).Keys == Columns
  {
  }

  /** Every default but those of `name` and `type`, which have none and
      refuse NULL, fits its column. */
  lemma DefaultFits(c: string, freshId: string)
    requires c in Columns && c != "name" && c != "type"
    ensures Fits(c, DefaultOf(c, freshId))
  {
    if c == "_id" {
    } else if c == "priority" {
      assert TypeOf(c) == Integer;
    } else if c == "failCount" {
      assert TypeOf(c) == UnsignedInteger;
    } else if c == "disabled" {
      assert TypeOf(c) == Boolean;
    } else {
      assert AllowsNull(c);
    }
  }

  /** `create` succeeds on the schema when the caller gives a fitting
      `name` and `type` and every other column it gives fits. */
  lemma NewRowFits(props: Row, freshId: string)
    requires Fits("name", Get(props, "name")) && Fits("type", Get(props, "type"))
    requires forall c :: c in props && c in Columns && props[c] != Undefined ==> Fits(c, props[c])
    ensures RowFits(NewRow(props, freshId))
  {
    var row := NewRow(props, freshId);
    forall c | c in Columns
      ensures Fits(c, row[c])
    {
      if Get(props, c) == Undefined {
        DefaultFits(c, freshId);
      }
    }
  }

  function Lift(r: Result<Saved>): Result<Option<Saved>> {
    match r
    case Ok(s) => Ok(Some(s))
    case Err(e) => Err(e)
  }

  /** The effect of `insert(props)` on the table, and its report: a row the
      schema refuses, or one whose key is taken, changes nothing. */
  ghost predicate InsertEffect(before: map<string, Row>, props: Row, freshId: string,
                               after: map<string, Row>, r: Result<Option<Saved>>) {
    var row := NewRow(props, freshId);
    if !RowFits(row) then after == before && r == Err(SchemaViolation)
    else if row["_id"].s in before then after == before && r == Err(DuplicateKey)
    else after == before[row["_id"].s := row] && r == Ok(Some(Saved(row["_id"], row["nextRunAt"])))
  }

  /** Reading a row back by the key `insert` reported gives every column
      value the caller gave. */
  lemma InsertRoundTrip(before: map<string, Row>, props: Row, freshId: string,
                        after: map<string, Row>, r: Result<Option<Saved>>)
    requires InsertEffect(before, props, freshId, after, r) && r.Ok?
    ensures r.value.Some? && r.value.value.id.Str? && r.value.value.id.s in after
    ensures WhereMatches(after[r.value.value.id.s], map["_id" := r.value.value.id])
    ensures forall c :: c in Columns && Get(props, c) != Undefined ==> after[r.value.value.id.s][c] == props[c]
    ensures forall k :: k in before ==> k in after && after[k] == before[k]
  {
    var row := NewRow(props, freshId);
    assert RowFits(row) && row["_id"].s !in before;
    assert Fits("_id", row["_id"]);
    forall c | c in Columns && Get(props, c) != Undefined
      ensures after[r.value.value.id.s][c] == props[c]
    {
      NewRowFields(props, freshId, c);
    }
  }

  /** Once `saveSingle` inserted a job carrying its (name, type), the next
      `saveSingle` of that pair finds a row and so updates rather than
      inserting a second one. */
  lemma SaveSingleFindsInserted(before: map<string, Row>, merged: Row, freshId: string,
                                after: map<string, Row>, r: Result<Option<Saved>>, name: string, jobType: string)
    requires InsertEffect(before, merged, freshId, after, r) && r.Ok?
    requires Get(merged, "name") == Str(name) && Get(merged, "type") == Str(jobType)
    ensures exists k :: k in after && WhereMatches(after[k], map["name" := Str(name), "type" := Str(jobType)])
  {
    var row := NewRow(merged, freshId);
    NewRowFields(merged, freshId, "name");
    NewRowFields(merged, freshId, "type");
    assert "_id" in Columns;
    var id := row["_id"].s;
    assert after[id] == row;
    assert WhereMatches(after[id], map["name" := Str(name), "type" := Str(jobType)]);
  }

  /** The row after `item[key] = props[key]` for every key: each column in
      `props` other than the primary key `_id` takes its value (`undefined`
      as NULL), the others keep theirs. Properties that are not columns are
      not saved. */
  function Assigned(row: Row, props: Row): Row {
    map c | c in row :: if c in props && c != "_id" then Stored(props[c]) else row[c]
  }

  /** The loop of `saveByID` that copies every property onto the row found. */
  method AssignProps(row: Row, props: Row) returns (item: Row)
    ensures item == Assigned(row, props)
  {
    item := row;
    var todo := props.Keys;
    while todo != {}
      invariant todo <= props.Keys
      invariant item.Keys == row.Keys
      invariant forall c :: c in item ==>
                  item[c] == (if c in props && c !in todo && c != "_id" then Stored(props[c]) else row[c])
      decreases todo
    {
      var k :| k in todo;
      if k in item && k != "_id" {
        item := item[k := Stored(props[k])];
      }
      todo := todo - {k};
    }
  }

  /** The effect of `saveByID(id, props)` on the table, and its report. */
  ghost predicate SaveByIdEffect(before: map<string, Row>, id: string, props: Row,
                                 after: map<string, Row>, r: Result<Option<Saved>>) {
    if id !in before then after == before && r == Ok(None)
    else if props == map[] then
      after == before && r == Ok(Some(Saved(Str(id), Get(before[id], "nextRunAt"))))
    else
      var row := Assigned(before[id], props);
      if RowFits(row) then after == before[id := row] && r == Ok(Some(Saved(Str(id), Get(row, "nextRunAt"))))
      else after == before && r == Err(SchemaViolation)
  }

  /** A where-object of equalities: a NULL (or `undefined`) value means IS NULL. */
  predicate WhereMatches(row: Row, where: Row) {
    forall k :: k in where ==> k in row && row[k] == Stored(where[k])
  }

  predicate KnownColumns(where: Row) {
    forall k :: k in where ==> k in Columns
  }

  // ---------------------------------------------------------------------
  // The claim protocol as functions of the table

  /** The WHERE of `_findAndLockNextJob`: the name, not disabled, and either
      unlocked and due by `nextScanAt`, or locked no later than
      `lockDeadline` (whatever its `nextRunAt`). */
  predicate Eligible(row: Row, jobName: string, nextScanAt: int, lockDeadline: int) {
    && Get(row, "name") == Str(jobName)
    && Get(row, "disabled") != Bool(true)
    && ((Get(row, "lockedAt") == Null && TimeAtMost(Get(row, "nextRunAt"), nextScanAt))
        || TimeAtMost(Get(row, "lockedAt"), lockDeadline))
  }

  /** The sort key of `ORDER BY nextRunAt ASC, priority ASC`. Where NULL
      `nextRunAt` sorts depends on the dialect. */
  function SortKey(row: Row, nullsFirst: bool): (int, int, int) {
    var p := if Get(row, "priority").Num? then Get(row, "priority").n else 0;
    match Get(row, "nextRunAt")
    case Time(t) => (1, t, p)
    case _ => (if nullsFirst then 0 else 2, 0, p)
  }

  predicate KeyLe(a: (int, int, int), b: (int, int, int)) {
    a.0 < b.0 || (a.0 == b.0 && (a.1 < b.1 || (a.1 == b.1 && a.2 <= b.2)))
  }

  /** `id` is a row `LIMIT 1` may update: eligible and first in the order. */
  ghost predicate IsNextJob(table: map<string, Row>, id: string, jobName: string,
                            nextScanAt: int, lockDeadline: int, nullsFirst: bool) {
    && id in table
    && Eligible(table[id], jobName, nextScanAt, lockDeadline)
    && forall k :: k in table && Eligible(table[k], jobName, nextScanAt, lockDeadline) ==>
         KeyLe(SortKey(table[id], nullsFirst), SortKey(table[k], nullsFirst))
  }

  /** Two rows that may both head the order tie on `nextRunAt` and `priority`. */
  lemma NextJobTies(table: map<string, Row>, a: string, b: string, jobName: string,
                    nextScanAt: int, lockDeadline: int, nullsFirst: bool)
    requires IsNextJob(table, a, jobName, nextScanAt, lockDeadline, nullsFirst)
    requires IsNextJob(table, b, jobName, nextScanAt, lockDeadline, nullsFirst)
    ensures SortKey(table[a], nullsFirst) == SortKey(table[b], nullsFirst)
  {
  }

  function Lock(table: map<string, Row>, id: string, now: int): map<string, Row>
    requires id in table
  {
    table[id := table[id]["lockedAt" := Time(now)]]
  }

  lemma LockKeyed(table: map<string, Row>, id: string, now: int)
    requires Keyed(table) && id in table
    ensures Keyed(Lock(table, id, now))
  {
    LockedAtFits(table[id], Time(now));
    KeyedUpdate(table, id, table[id]["lockedAt" := Time(now)]);
  }

  /** `_unlockJobs`' UPDATE SET lockedAt = NULL WHERE _id IN ids. */
  function Unlocked(table: map<string, Row>, ids: seq<string>): map<string, Row> {
    map k | k in table :: if k in ids then table[k]["lockedAt" := Null] else table[k]
  }

  lemma UnlockedKeyed(table: map<string, Row>, ids: seq<string>)
    requires Keyed(table)
    ensures Keyed(Unlocked(table, ids))
  {
    forall k | k in table && k in ids
      ensures RowFits(table[k]["lockedAt" := Null]) && Get(table[k]["lockedAt" := Null], "_id") == Str(k)
    {
      LockedAtFits(table[k], Null);
    }
  }

  /** Once claimed at `now` later than the lock deadline, the row fails the
      WHERE of the same claim until the deadline passes `now`. */
  lemma ClaimedJobNotEligible(row: Row, jobName: string, nextScanAt: int, lockDeadline: int, now: int)
    requires lockDeadline < now
    ensures !Eligible(row["lockedAt" := Time(now)], jobName, nextScanAt, lockDeadline)
  {
  }

  /** With one eligible row, a claim takes it and a second claim with the
      same arguments before the lock deadline passes `now` finds nothing. */
  lemma SecondClaimFindsNothing(table: map<string, Row>, id: string, jobName: string,
                                nextScanAt: int, lockDeadline: int, now: int)
    requires id in table && lockDeadline < now
    requires forall k :: k in table && Eligible(table[k], jobName, nextScanAt, lockDeadline) ==> k == id
    ensures forall k :: k in Lock(table, id, now) ==> !Eligible(Lock(table, id, now)[k], jobName, nextScanAt, lockDeadline)
  {
    ClaimedJobNotEligible(table[id], jobName, nextScanAt, lockDeadline, now);
  }

  /** After `_unlockJobs` a due, enabled row of the name is eligible again. */
  lemma UnlockedDueJobEligible(row: Row, jobName: string, nextScanAt: int, lockDeadline: int)
    requires Get(row, "name") == Str(jobName) && Get(row, "disabled") != Bool(true)
    requires TimeAtMost(Get(row, "nextRunAt"), nextScanAt)
    ensures Eligible(row["lockedAt" := Null], jobName, nextScanAt, lockDeadline)
  {
  }

  /** A row whose lock has expired is claimed again even when it is not due
      (or has no `nextRunAt` at all): the second branch of the WHERE does not
      look at `nextRunAt`. */
  lemma ExpiredLockIgnoresNextRunAt(row: Row, jobName: string, nextScanAt: int, lockDeadline: int)
    requires Get(row, "name") == Str(jobName) && Get(row, "disabled") != Bool(true)
    requires TimeAtMost(Get(row, "lockedAt"), lockDeadline)
    ensures Eligible(row["nextRunAt" := Null], jobName, nextScanAt, lockDeadline)
    ensures Eligible(row["nextRunAt" := Time(nextScanAt + 1)], jobName, nextScanAt, lockDeadline)
  {
  }

  /** The WHERE of `lockOnTheFly`: the snapshot's `_id`, no lock, the
      snapshot's `nextRunAt` (IS NULL when it has none), not disabled. */
  predicate OnTheFlyMatch(row: Row, snapshot: Row) {
    && Get(row, "_id") == Stored(Get(snapshot, "_id"))
    && Get(row, "lockedAt") == Null
    && Get(row, "nextRunAt") == Stored(Get(snapshot, "nextRunAt"))
    && Get(row, "disabled") != Bool(true)
  }

  ghost predicate OnTheFlyHit(table: map<string, Row>, snapshot: Row) {
    && Get(snapshot, "_id").Str?
    && Get(snapshot, "_id").s in table
    && OnTheFlyMatch(table[Get(snapshot, "_id").s], snapshot)
  }

  /** `lockOnTheFly`'s UPDATE SET lockedAt = now WHERE the row matches the snapshot. */
  function LockMatching(table: map<string, Row>, snapshot: Row, now: int): map<string, Row> {
    map k | k in table :: if OnTheFlyMatch(table[k], snapshot) then table[k]["lockedAt" := Time(now)] else table[k]
  }

  /** The WHERE names the primary key, so the UPDATE changes the one row
      under the snapshot's `_id` when that row still matches, and nothing
      otherwise. */
  lemma LockMatchingIsLock(table: map<string, Row>, snapshot: Row, now: int)
    requires forall k :: k in table ==> Get(table[k], "_id") == Str(k)
    ensures OnTheFlyHit(table, snapshot) ==>
              LockMatching(table, snapshot, now) == Lock(table, Get(snapshot, "_id").s, now)
    ensures !OnTheFlyHit(table, snapshot) ==> LockMatching(table, snapshot, now) == table
  {
    forall k | k in table && OnTheFlyMatch(table[k], snapshot)
      ensures Get(snapshot, "_id") == Str(k)
    {
    }
  }

  /** After `lockOnTheFly` took the row, another attempt from the same
      snapshot affects no row: the compare-and-swap admits one winner. */
  lemma LockOnTheFlyExclusive(table: map<string, Row>, snapshot: Row, now: int)
    requires OnTheFlyHit(table, snapshot)
    ensures !OnTheFlyHit(Lock(table, Get(snapshot, "_id").s, now), snapshot)
  {
  }

  /** A snapshot taken before someone else claimed or rescheduled the job
      no longer matches. */
  lemma StaleSnapshotMisses(table: map<string, Row>, snapshot: Row, id: string)
    requires id in table && Get(snapshot, "_id") == Str(id)
    requires Get(table[id], "lockedAt") != Null || Get(table[id], "nextRunAt") != Stored(Get(snapshot, "nextRunAt"))
    ensures !OnTheFlyHit(table, snapshot)
  {
  }

  // ---------------------------------------------------------------------
  // The adapter

  class SequelizeAdapter {
    /** The `Job` table: primary key to row. */
    var table: map<string, Row>
    /** Whether the dialect sorts NULL first in ascending order (MySQL and
        SQLite do, PostgreSQL does not). */
    const nullsFirst: bool

    ghost predicate Valid()
      reads this
    {
      Keyed(table)
    }

    constructor (nullsFirst: bool)
      ensures Valid() && table == map[] && this.nullsFirst == nullsFirst
    {
      table := map[];
      this.nullsFirst := nullsFirst;
    }

    /** `insert(props)`: `create`, which fills defaults and enforces the
        column definitions and the primary key. */
    method Insert(props: Row, freshId: string) returns (r: Result<Saved>)
      requires Valid()
      modifies this
      ensures Valid()
      ensures InsertEffect(old(table), props, freshId, table, Lift(r))
    {
      var row := NewRow(props, freshId);
      if !RowFits(row) {
        return Err(SchemaViolation);
      }
      var id := row["_id"].s;
      if id in table {
        return Err(DuplicateKey);
      }
      KeyedUpdate(table, id, row);
      table := table[id := row];
      r := Ok(Saved(row["_id"], row["nextRunAt"]));
    }

    /** `saveByID(id, props)`: find the row; none gives a null result. An
        empty `props` writes nothing; otherwise every property is assigned
        to the row and the row is saved. */
    method SaveById(id: string, props: Row) returns (r: Result<Option<Saved>>)
      requires Valid()
      modifies this
      ensures Valid()
      ensures SaveByIdEffect(old(table), id, props, table, r)
    {
      if id !in table {
        return Ok(None);
      }
      var row := table[id];
      if props == map[] {
        return Ok(Some(Saved(Str(id), row["nextRunAt"])));
      }
      var item := AssignProps(row, props);
      if !RowFits(item) {
        return Err(SchemaViolation);
      }
      KeyedUpdate(table, id, item);
      table := table[id := item];
      r := Ok(Some(Saved(Str(id), item["nextRunAt"])));
    }

    /** `saveSingle(name, type, props, insertOnly)`: find-or-create by
        (name, type). A failed or empty lookup inserts `props` overlaid with
        `insertOnly`; a hit saves `props` onto the row found. */
    method SaveSingle(name: string, jobType: string, props: Row, insertOnly: Row,
                      lookupFails: bool, freshId: string) returns (r: Result<Option<Saved>>)
      requires Valid()
      modifies this
      ensures Valid()
      ensures var where := map["name" := Str(name), "type" := Str(jobType)];
              if lookupFails || forall k :: k in old(table) ==> !WhereMatches(old(table)[k], where) then
                InsertEffect(old(table), Overlay(props, insertOnly), freshId, table, r)
              else
                exists id :: id in old(table) && WhereMatches(old(table)[id], where)
                          && SaveByIdEffect(old(table), id, props, table, r)
    {
      var where := map["name" := Str(name), "type" := Str(jobType)];
      if lookupFails || forall k :: k in table ==> !WhereMatches(table[k], where) {
        var merged := AssignAll(props, insertOnly);
        var inserted := Insert(merged, freshId);
        r := Lift(inserted);
      } else {
        var id :| id in table && WhereMatches(table[id], where);
        r := SaveById(id, props);
      }
    }

    /** `saveUnique(name, query, props, insertOnly)`: `query.name = name`,
        then find-or-create by that where-object. A lookup that fails
        (including on a property that is no column) or finds nothing inserts
        `props` overlaid with `insertOnly`; a hit saves `props`. */
    method SaveUnique(name: string, query: Row, props: Row, insertOnly: Row,
                      lookupFails: bool, freshId: string) returns (r: Result<Option<Saved>>, where: Row)
      requires Valid()
      modifies this
      ensures Valid()
      ensures where == query["name" := Str(name)]
      ensures if lookupFails || !KnownColumns(where) || forall k :: k in old(table) ==> !WhereMatches(old(table)[k], where) then
                InsertEffect(old(table), Overlay(props, insertOnly), freshId, table, r)
              else
                exists id :: id in old(table) && WhereMatches(old(table)[id], where)
                          && SaveByIdEffect(old(table), id, props, table, r)
    {
      where := query["name" := Str(name)];
      if lookupFails || !KnownColumns(where) || forall k :: k in table ==> !WhereMatches(table[k], where) {
        var merged := AssignAll(props, insertOnly);
        var inserted := Insert(merged, freshId);
        r := Lift(inserted);
      } else {
        var id :| id in table && WhereMatches(table[id], where);
        r := SaveById(id, props);
      }
    }

    /** `purge(definedNames)`: DELETE the rows whose name is not defined;
        reports how many were destroyed. */
    method Purge(names: seq<string>) returns (deleted: nat)
      requires Valid()
      modifies this
      ensures Valid()
      ensures table == map k | k in old(table) && NameDefined(old(table)[k], names) :: old(table)[k]
      ensures deleted == |old(table).Keys - table.Keys|
    {
      var kept := map k | k in table && NameDefined(table[k], names) :: table[k];
      deleted := |table.Keys - kept.Keys|;
      table := kept;
    }

    /** `cancel(query)`: DELETE the rows matching the where-object; a
        property that is no column makes the statement fail. */
    method Cancel(where: Row) returns (r: Result<nat>)
      requires Valid()
      modifies this
      ensures Valid()
      ensures !KnownColumns(where) ==> r == Err(UnknownColumn) && table == old(table)
      ensures KnownColumns(where) ==>
                && table == (map k | k in old(table) && !WhereMatches(old(table)[k], where) :: old(table)[k])
                && r == Ok(|old(table).Keys - table.Keys|)
    {
      if !KnownColumns(where) {
        return Err(UnknownColumn);
      }
      var kept := map k | k in table && !WhereMatches(table[k], where) :: table[k];
      r := Ok(|table.Keys - kept.Keys|);
      table := kept;
    }

    /** `_unlockJobs(jobs)`: UPDATE SET lockedAt = NULL WHERE _id IN jobs,
        reporting the number of rows the WHERE selects. */
    method UnlockJobs(ids: seq<string>) returns (affected: nat)
      requires Valid()
      modifies this
      ensures Valid()
      ensures table == Unlocked(old(table), ids)
      ensures affected == |set k | k in old(table) && k in ids|
    {
      affected := |set k | k in table && k in ids|;
      UnlockedKeyed(table, ids);
      table := Unlocked(table, ids);
    }

    /** The row `ORDER BY nextRunAt, priority LIMIT 1` picks among the
        eligible ones, if any. */
    method NextEligible(jobName: string, nextScanAt: int, lockDeadline: int) returns (id: Option<string>)
      ensures id.Some? ==> IsNextJob(table, id.value, jobName, nextScanAt, lockDeadline, nullsFirst)
      ensures id.None? ==> forall k :: k in table ==> !Eligible(table[k], jobName, nextScanAt, lockDeadline)
    {
      id := None;
      var todo := table.Keys;
      while todo != {}
        invariant todo <= table.Keys
        invariant id.Some? ==> id.value in table && Eligible(table[id.value], jobName, nextScanAt, lockDeadline)
        invariant id.Some? ==> forall k :: k in table && k !in todo && Eligible(table[k], jobName, nextScanAt, lockDeadline) ==>
                    KeyLe(SortKey(table[id.value], nullsFirst), SortKey(table[k], nullsFirst))
        invariant id.None? ==> forall k :: k in table && k !in todo ==> !Eligible(table[k], jobName, nextScanAt, lockDeadline)
        decreases todo
      {
        var k :| k in todo;
        if Eligible(table[k], jobName, nextScanAt, lockDeadline)
           && (id.None? || !KeyLe(SortKey(table[id.value], nullsFirst), SortKey(table[k], nullsFirst)))
        {
          id := Some(k);
        }
        todo := todo - {k};
      }
    }

    /** `_findAndLockNextJob(jobName, nextScanAt, lockDeadline)`: one
        UPDATE of at most one eligible row, the first in the order, to
        `lockedAt = now`; no affected row gives `null`. The re-read returns
        the locked row. */
    method FindAndLockNextJob(jobName: string, nextScanAt: int, lockDeadline: int, now: int)
      returns (job: Option<Row>)
      requires Valid()
      modifies this
      ensures Valid()
      ensures job.None? <==> forall k :: k in old(table) ==> !Eligible(old(table)[k], jobName, nextScanAt, lockDeadline)
      ensures job.None? ==> table == old(table)
      ensures job.Some? ==>
                && IsNextJob(old(table), IdOf(job.value), jobName, nextScanAt, lockDeadline, nullsFirst)
                && table == Lock(old(table), IdOf(job.value), now)
                && job.value == table[IdOf(job.value)]
    {
      var next := NextEligible(jobName, nextScanAt, lockDeadline);
      if next.None? {
        return None;
      }
      var id := next.value;
      LockKeyed(table, id, now);
      table := Lock(table, id, now);
      job := Some(table[id]);
    }

    /** `lockOnTheFly(job)`: UPDATE SET lockedAt = now WHERE the row still
        has the snapshot's `_id`, no lock, the snapshot's `nextRunAt` and is
        not disabled. On success the snapshot comes back with `lockedAt = now`;
        no affected row gives `null` and changes nothing. */
    method LockOnTheFly(snapshot: Row, now: int) returns (job: Option<Row>)
      requires Valid()
      modifies this
      ensures Valid()
      ensures table == LockMatching(old(table), snapshot, now)
      ensures OnTheFlyHit(old(table), snapshot) ==>
                table == Lock(old(table), Get(snapshot, "_id").s, now)
                && job == Some(snapshot["lockedAt" := Time(now)])
      ensures !OnTheFlyHit(old(table), snapshot) ==> table == old(table) && job == None
    {
      var hit := Get(snapshot, "_id").Str? && Get(snapshot, "_id").s in table
                 && OnTheFlyMatch(table[Get(snapshot, "_id").s], snapshot);
      LockMatchingIsLock(table, snapshot, now);
      if hit {
        LockKeyed(table, Get(snapshot, "_id").s, now);
        job := Some(snapshot["lockedAt" := Time(now)]);
      } else {
        job := None;
      }
      table := LockMatching(table, snapshot, now);
    }
  }
}
