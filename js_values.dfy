/**
 * The JavaScript values both Agenda storage adapters pass around: the fields
 * of a stored job, the properties of a query or patch object, and what an
 * operation hands back to the scheduler through its callback.
 */
module JsValues {

  /** A property value. A timestamp (a `Date`, or the ISO-8601 string the
      DynamoDB adapter writes for one) is its count of milliseconds since the
      epoch; `Payload` stands for an opaque structured value such as `data`
      or `repeatInterval`, which the adapters only carry. */
  datatype Value =
    | Undefined
    | Null
    | Bool(b: bool)
    | Num(n: int)
    | Str(s: string)
    | Time(ms: int)
    | Payload(tag: nat)

  /** JavaScript truthiness, as in `if (obj['name'])`. A `Date` and any
      object are truthy; `0`, `""`, `false`, `null` and `undefined` are not. */
  predicate Truthy(v: Value) {
    match v
    case Undefined => false
    case Null => false
    case Bool(b) => b
    case Num(n) => n != 0
    case Str(s) => s != ""
    case Time(_) => true
    case Payload(_) => true
  }

  /** A job record or a plain object: property name to value. */
  type Row = map<string, Value>

  /** `obj[key]`: a property that is not there reads as `undefined`. */
  function Get(row: Row, key: string): Value {
    if key in row then row[key] else Undefined
  }

  /** What a patch entry writes: `undefined` is turned into `null`, every
      other value is kept. */
  function Stored(v: Value): Value {
    if v == Undefined then Null else v
  }

  /** `a < b` on strings, character by character (a proper prefix is less). */
  predicate StringLess(a: string, b: string) {
    if a == [] then b != []
    else if b == [] then false
    else if a[0] != b[0] then a[0] < b[0]
    else StringLess(a[1..], b[1..])
  }

  /** `lhs <= t` against a stored timestamp: false when the stored value is
      missing, null or not a timestamp, as both stores compare. */
  predicate TimeAtMost(v: Value, t: int) {
    v.Time? && v.ms <= t
  }

  /** The object `base` after `base[key] = top[key]` for every key of `top`. */
  function Overlay(base: Row, top: Row): (r: Row)
    ensures r.Keys == base.Keys + top.Keys
    ensures forall k :: k in top ==> r[k] == top[k]
    ensures forall k :: k in base && k !in top ==> r[k] == base[k]
  {
    base + top
  }

  /** The loop `Object.keys(insertOnly).forEach(key => props[key] = insertOnly[key])`
      that both adapters run before inserting: every key of `source` is
      copied into `target`, and `source` wins on shared keys. */
  method AssignAll(target: Row, source: Row) returns (r: Row)
    ensures r == Overlay(target, source)
  {
    r := target;
    var todo := source.Keys;
    while todo != {}
      invariant todo <= source.Keys
      invariant r.Keys == target.Keys + (source.Keys - todo)
      invariant forall k :: k in source && k !in todo ==> r[k] == source[k]
      invariant forall k :: k in target && (k !in source || k in todo) ==> r[k] == target[k]
      decreases todo
    {
      var k :| k in todo;
      r := r[k := source[k]];
      todo := todo - {k};
    }
  }

  /** Is the job named by one of the defined names (a job `purge` keeps)? */
  predicate NameDefined(row: Row, names: seq<string>) {
    Get(row, "name").Str? && Get(row, "name").s in names
  }

  /** The primary key a stored record carries. */
  function IdOf(row: Row): string {
    if Get(row, "_id").Str? then Get(row, "_id").s else ""
  }

  datatype Option<T> = None | Some(value: T)

  /** The failures the model distinguishes. */
  datatype Error =
    | TypeError          // a JavaScript exception thrown by the adapter itself
    | SchemaViolation    // the store or its schema layer refused a write
    | DuplicateKey       // a row with this primary key already exists
    | UnknownColumn      // a where-object names a column the table lacks

  datatype Result<T> = Ok(value: T) | Err(error: Error)

  /** What `insert` and the `save…` operations report: `{id, nextRunAt}`. */
  datatype Saved = Saved(id: Value, nextRunAt: Value)
}
