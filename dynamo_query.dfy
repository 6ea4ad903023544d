/**
 * The query-building helpers of the DynamoDB adapter (lib/dynamodb.js):
 * `cleanData`, the predicate translator `getQueryFromObject`, the filter
 * expression `purge` scans with, and the per-item aggregation of batch
 * results. A table is a map from hash key (`_id`) to item.
 */
module DynamoQuery {
  import opened JsValues

  // ---------------------------------------------------------------------
  // cleanData

  /** The object after `cleanData`: same keys, `undefined` replaced by `null`. */
  function Cleaned(obj: Row): Row {
    map k | k in obj :: Stored(obj[k])
  }

  /** `cleanData(obj)`: overwrites every `undefined` property with `null`. */
  method CleanData(obj: Row) returns (r: Row)
    ensures r.Keys == obj.Keys
    ensures forall k :: k in r ==> r[k] != Undefined
    ensures forall k :: k in obj && obj[k] != Undefined ==> r[k] == obj[k]
    ensures forall k :: k in obj && obj[k] == Undefined ==> r[k] == Null
    ensures r == Cleaned(obj)
  {
    r := obj;
    var todo := obj.Keys;
    while todo != {}
      invariant todo <= obj.Keys
      invariant r.Keys == obj.Keys
      invariant forall k :: k in obj && k !in todo ==> r[k] == Stored(obj[k])
      invariant forall k :: k in todo ==> r[k] == obj[k]
      decreases todo
    {
      var k :| k in todo;
      if r[k] == Undefined {
        r := r[k := Null];
      }
      todo := todo - {k};
    }
  }

  /** Cleaning twice is cleaning once. */
  lemma CleanedIdempotent(obj: Row)
    ensures Cleaned(Cleaned(obj)) == Cleaned(obj)
  {
  }

  // ---------------------------------------------------------------------
  // getQueryFromObject

  /** How a query reaches the items: a point lookup on the hash key, one of
      the three global secondary indexes (lines 27-31), or a full scan. */
  datatype Access =
    | ById(id: Value)
    | ByNamePriority(name: Value, priority: Value)
    | ByNameType(name: Value, jobType: Value)
    | ByName(name: Value)
    | Scan

  /** An access path and the equality filters applied to what it returns. */
  datatype Query = Query(access: Access, filters: Row)

  /** The access path chosen for a predicate object, by truthiness of its
      properties, in the fixed order `_id`, name+priority, name+type, name. */
  function AccessOf(obj: Row): Access {
    if Truthy(Get(obj, "_id")) then ById(obj["_id"])
    else if Truthy(Get(obj, "name")) && Truthy(Get(obj, "priority")) then
      ByNamePriority(obj["name"], obj["priority"])
    else if Truthy(Get(obj, "name")) && Truthy(Get(obj, "type")) then
      ByNameType(obj["name"], obj["type"])
    else if Truthy(Get(obj, "name")) then ByName(obj["name"])
    else Scan
  }

  /** The properties an access path consumes (and `delete`s from the object). */
  function Consumed(a: Access): set<string> {
    match a
    case ById(_) => {"_id"}
    case ByNamePriority(_, _) => {"name", "priority"}
    case ByNameType(_, _) => {"name", "type"}
    case ByName(_) => {"name"}
    case Scan => {}
  }

  /** `getQueryFromObject(self, obj)`. Returns the query and the object as the
      caller sees it afterwards (the consumed keys deleted). The composite
      index branches are modelled with the range-key condition they build,
      not with the misspelt call at lines 102 and 108 (see GetQueryAsWritten). */
  method GetQueryFromObject(obj: Row) returns (q: Query, rest: Row)
    ensures q.access == AccessOf(obj)
    ensures rest == obj - Consumed(q.access)
    ensures q.access == Scan ==> q.filters == map[]
    ensures q.access != Scan ==> q.filters == rest
  {
    var access := AccessOf(obj);
    rest := obj - Consumed(access);
    if access == Scan {
      return Query(Scan, map[]), rest;
    }
    var filters: Row := map[];
    var todo := rest.Keys;
    while todo != {}
      invariant todo <= rest.Keys
      invariant filters.Keys == rest.Keys - todo
      invariant forall k :: k in filters ==> filters[k] == rest[k]
      decreases todo
    {
      var k :| k in todo;
      filters := filters[k := rest[k]];
      todo := todo - {k};
    }
    q := Query(access, filters);
  }

  /** The translation as written: both composite-index branches call
      `.eqauls`, which the query builder does not have, so they throw a
      TypeError before anything is deleted from the object. */
  function GetQueryAsWritten(obj: Row): (r: Result<Query>)
    ensures r.Err? <==> AccessOf(obj).ByNamePriority? || AccessOf(obj).ByNameType?
    ensures r.Ok? ==> r.value.access == AccessOf(obj)
  {
    match AccessOf(obj)
    case ByNamePriority(_, _) => Err(TypeError)
    case ByNameType(_, _) => Err(TypeError)
    case Scan => Ok(Query(Scan, map[]))
    case other => Ok(Query(other, obj - Consumed(other)))
  }

  /** `{name: "report", priority: 5}` selects the name+priority index, and
      the code as written throws on it. */
  lemma EqaulsTypoRejectsCompositeQuery()
    ensures AccessOf(map["name" := Str("report"), "priority" := Num(5)])
         == ByNamePriority(Str("report"), Num(5))
    ensures GetQueryAsWritten(map["name" := Str("report"), "priority" := Num(5)]).Err?
  {
  }

  /** A table keyed by `_id`: every item carries its own hash key. */
  ghost predicate Keyed(table: map<string, Row>) {
    forall k :: k in table ==> Get(table[k], "_id") == Str(k)
  }

  /** Does an item satisfy the key condition of an access path? */
  predicate KeyMatch(a: Access, key: string, item: Row) {
    match a
    case ById(id) => id == Str(key)
    case ByNamePriority(n, p) => Get(item, "name") == n && Get(item, "priority") == p
    case ByNameType(n, t) => Get(item, "name") == n && Get(item, "type") == t
    case ByName(n) => Get(item, "name") == n
    case Scan => true
  }

  /** Does an item pass every equality filter `query.filter(key).equals(v)`? */
  predicate FiltersHold(filters: Row, item: Row) {
    forall f :: f in filters ==> Get(item, f) == filters[f]
  }

  /** The keys of the items a query returns. */
  function Answers(q: Query, table: map<string, Row>): set<string> {
    set k | k in table && KeyMatch(q.access, k, table[k]) && FiltersHold(q.filters, table[k])
  }

  /** The keys of the items whose properties equal every property of `obj`. */
  function Matching(obj: Row, table: map<string, Row>): set<string> {
    set k | k in table && FiltersHold(obj, table[k])
  }

  /** Whenever the translation does not fall back to a scan, the index choice
      changes only the cost: the query returns exactly the items that agree
      with every property of the original object. */
  lemma TranslationSound(obj: Row, table: map<string, Row>)
    requires Keyed(table)
    requires AccessOf(obj) != Scan
    ensures Answers(Query(AccessOf(obj), obj - Consumed(AccessOf(obj))), table)
         == Matching(obj, table)
  {
    var a := AccessOf(obj);
    var q := Query(a, obj - Consumed(a));
    forall k | k in table
      ensures (KeyMatch(a, k, table[k]) && FiltersHold(q.filters, table[k]))
          <==> FiltersHold(obj, table[k])
    {
      var item := table[k];
      assert Get(item, "_id") == Str(k);
      if FiltersHold(obj, item) {
        forall f | f in Consumed(a) ensures f in obj && Get(item, f) == obj[f] {
          assert Get(item, f) == obj[f];
        }
      }
      if KeyMatch(a, k, item) && FiltersHold(q.filters, item) {
        forall f | f in obj ensures Get(item, f) == obj[f] {
          if f !in Consumed(a) {
            assert f in q.filters;
          }
        }
      }
    }
  }

  /** With neither a truthy `_id` nor a truthy `name` the translation scans
      the whole table and drops every other property: the query returns
      every item, whether or not it matches. */
  lemma ScanIgnoresProperties(obj: Row, table: map<string, Row>)
    requires !Truthy(Get(obj, "_id")) && !Truthy(Get(obj, "name"))
    ensures AccessOf(obj) == Scan
    ensures Answers(Query(Scan, map[]), table) == table.Keys
  {
  }

  // ---------------------------------------------------------------------
  // The filter expression of purge

  function Digit(d: nat): char
    requires d < 10
  {
    "0123456789"[d]
  }

  /** `${i}`: the decimal spelling of a natural number. */
  function Decimal(n: nat): (s: string)
    ensures |s| >= 1
    ensures n >= 10 ==> |s| >= 2
  {
    if n < 10 then [Digit(n)] else Decimal(n / 10) + [Digit(n % 10)]
  }

  /** Different numbers are spelt differently. */
  lemma {:induction false} DecimalInjective(a: nat, b: nat)
    requires Decimal(a) == Decimal(b)
    ensures a == b
  {
    if a < 10 && b < 10 {
      assert Decimal(a)[0] == Digit(a) && Decimal(b)[0] == Digit(b);
    } else if a >= 10 && b >= 10 {
      var da, db := Decimal(a), Decimal(b);
      assert da[|da| - 1] == Digit(a % 10) && db[|db| - 1] == Digit(b % 10);
      assert da[..|da| - 1] == Decimal(a / 10);
      assert db[..|db| - 1] == Decimal(b / 10);
      DecimalInjective(a / 10, b / 10);
    }
  }

  /** The value placeholder of clause `i`: `:name${i}`. */
  function Placeholder(i: nat): string {
    ":name" + Decimal(i)
  }

  lemma PlaceholderInjective(i: nat, j: nat)
    requires i != j
    ensures Placeholder(i) != Placeholder(j)
  {
    if Placeholder(i) == Placeholder(j) {
      assert Placeholder(i)[5..] == Decimal(i);
      assert Placeholder(j)[5..] == Decimal(j);
      DecimalInjective(i, j);
    }
  }

  /** Clause `i` of the expression: `#name <> :name${i}`. */
  function Clause(i: nat): string {
    "#name <> " + Placeholder(i)
  }

  /** The first `n` clauses joined by `' AND '`; no clause is the empty string. */
  function FilterText(n: nat): string {
    if n == 0 then ""
    else if n == 1 then Clause(0)
    else FilterText(n - 1) + " AND " + Clause(n - 1)
  }

  /** Strings joined by `' AND '` from the front, as a filter expression
      reads: the first clause, then each further clause after a separator. */
  function JoinAnd(clauses: seq<string>): string {
    if |clauses| == 0 then ""
    else if |clauses| == 1 then clauses[0]
    else clauses[0] + " AND " + JoinAnd(clauses[1..])
  }

  /** Joining one more clause at the back adds one separator and that clause. */
  lemma {:induction false} JoinAndSnoc(clauses: seq<string>, c: string)
    requires |clauses| >= 1
    ensures JoinAnd(clauses + [c]) == JoinAnd(clauses) + " AND " + c
    decreases |clauses|
  {
    if |clauses| > 1 {
      assert (clauses + [c])[1..] == clauses[1..] + [c];
      JoinAndSnoc(clauses[1..], c);
    }
  }

  /** Clauses 0 to `n - 1`, in order. */
  function Clauses(n: nat): (cs: seq<string>)
    ensures |cs| == n && forall i :: 0 <= i < n ==> cs[i] == Clause(i)
  {
    seq(n, (i: int) requires 0 <= i => Clause(i))
  }

  /** The text `purge` builds is exactly clause 0 through clause `n - 1`,
      each `#name <> :name{i}`, in order and separated by `' AND '`, so the
      filter `FilterAdmits` evaluates is the one in that text. */
  lemma {:induction false} FilterTextJoinsClauses(n: nat)
    ensures FilterText(n) == JoinAnd(Clauses(n))
  {
    if n > 1 {
      FilterTextJoinsClauses(n - 1);
      assert Clauses(n) == Clauses(n - 1) + [Clause(n - 1)];
      JoinAndSnoc(Clauses(n - 1), Clause(n - 1));
    }
  }

  /** Adding placeholder `i` to the values of the clauses before it keeps
      every earlier value and grows the key set by that one placeholder. */
  lemma AddPlaceholder(values: map<string, Value>, names: seq<string>, i: nat)
    requires i < |names|
    requires values.Keys == set j | 0 <= j < i :: Placeholder(j)
    requires forall j :: 0 <= j < i ==> values[Placeholder(j)] == Str(names[j])
    ensures values[Placeholder(i) := Str(names[i])].Keys == set j | 0 <= j < i + 1 :: Placeholder(j)
    ensures forall j :: 0 <= j < i + 1 ==> values[Placeholder(i) := Str(names[i])][Placeholder(j)] == Str(names[j])
  {
    forall j | 0 <= j < i ensures Placeholder(j) != Placeholder(i) {
      PlaceholderInjective(j, i);
    }
    assert (set j | 0 <= j < i :: Placeholder(j)) + {Placeholder(i)} == set j | 0 <= j < i + 1 :: Placeholder(j);
  }

  /** The loop of `purge` that builds the filter expression and its
      attribute values from the list of defined job names. */
  method BuildPurgeFilter(names: seq<string>) returns (filter: string, values: map<string, Value>)
    ensures filter == FilterText(|names|)
    ensures values.Keys == set i | 0 <= i < |names| :: Placeholder(i)
    ensures forall i :: 0 <= i < |names| ==> values[Placeholder(i)] == Str(names[i])
  {
    filter, values := "", map[];
    var i := 0;
    while i < |names|
      invariant 0 <= i <= |names|
      invariant filter == FilterText(i)
      invariant values.Keys == set j | 0 <= j < i :: Placeholder(j)
      invariant forall j :: 0 <= j < i ==> values[Placeholder(j)] == Str(names[j])
    {
      if i > 0 {
        filter := filter + " AND ";
      }
      filter := filter + Clause(i);
      assert filter == FilterText(i + 1);
      AddPlaceholder(values, names, i);
      values := values[Placeholder(i) := Str(names[i])];
      i := i + 1;
    }
  }

  /** How the scan evaluates the built expression on an item: every clause
      `#name <> :name${i}` holds (a missing `name` is unequal to anything). */
  predicate FilterAdmits(n: nat, values: map<string, Value>, item: Row) {
    forall i :: 0 <= i < n ==> Placeholder(i) in values && Get(item, "name") != values[Placeholder(i)]
  }

  /** The built expression admits exactly the items whose name is not one of
      the defined names, which are the items `purge` destroys. */
  lemma PurgeFilterMeaning(names: seq<string>, values: map<string, Value>, item: Row)
    requires values.Keys == set i | 0 <= i < |names| :: Placeholder(i)
    requires forall i :: 0 <= i < |names| ==> values[Placeholder(i)] == Str(names[i])
    ensures FilterAdmits(|names|, values, item) <==> forall x :: x in names ==> Get(item, "name") != Str(x)
  {
    if FilterAdmits(|names|, values, item) {
      forall x | x in names ensures Get(item, "name") != Str(x) {
        var i :| 0 <= i < |names| && names[i] == x;
        assert Get(item, "name") != values[Placeholder(i)];
      }
    }
    if forall x :: x in names ==> Get(item, "name") != Str(x) {
      forall i | 0 <= i < |names|
        ensures Placeholder(i) in values && Get(item, "name") != values[Placeholder(i)]
      {
        assert names[i] in names;
      }
    }
  }

  // ---------------------------------------------------------------------
  // Aggregation of per-item batch outcomes (purge, cancel, _unlockJobs)

  /** The truthy first components of `(error, result)` pairs, in order. */
  function Errors(results: seq<(Value, Value)>): seq<Value> {
    if results == [] then []
    else
      var last := results[|results| - 1];
      Errors(results[..|results| - 1]) + (if Truthy(last.0) then [last.0] else [])
  }

  /** The aggregation loop: `errors` collects the truthy errors, `objects`
      one result per item. */
  method Aggregate(results: seq<(Value, Value)>) returns (errors: seq<Value>, objects: seq<Value>)
    ensures errors == Errors(results)
    ensures |objects| == |results|
    ensures forall i :: 0 <= i < |results| ==> objects[i] == results[i].1
  {
    errors, objects := [], [];
    var i := 0;
    while i < |results|
      invariant 0 <= i <= |results|
      invariant errors == Errors(results[..i])
      invariant |objects| == i
      invariant forall j :: 0 <= j < i ==> objects[j] == results[j].1
    {
      assert results[..i + 1][..i] == results[..i];
      if Truthy(results[i].0) {
        errors := errors + [results[i].0];
      }
      objects := objects + [results[i].1];
      i := i + 1;
    }
    assert results[..|results|] == results;
  }

  /** Only real errors are reported, and each one comes from some item. */
  lemma {:induction false} ErrorsAreTruthy(results: seq<(Value, Value)>)
    ensures |Errors(results)| <= |results|
    ensures forall e :: e in Errors(results) ==> Truthy(e) && exists i :: 0 <= i < |results| && results[i].0 == e
  {
    if results != [] {
      var init := results[..|results| - 1];
      ErrorsAreTruthy(init);
      forall e | e in Errors(results)
        ensures Truthy(e) && exists i :: 0 <= i < |results| && results[i].0 == e
      {
        if e in Errors(init) {
          var i :| 0 <= i < |init| && init[i].0 == e;
          assert results[i].0 == e;
        } else {
          assert results[|results| - 1].0 == e;
        }
      }
    }
  }

  /** The error list is empty exactly when no item failed. */
  lemma {:induction false} ErrorsEmptyIff(results: seq<(Value, Value)>)
    ensures Errors(results) == [] <==> forall i :: 0 <= i < |results| ==> !Truthy(results[i].0)
  {
    if results != [] {
      var init := results[..|results| - 1];
      ErrorsEmptyIff(init);
      assert forall i :: 0 <= i < |init| ==> init[i] == results[i];
    }
  }
}
