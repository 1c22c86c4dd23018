/** Values produced by `JSON.parse`, with the JavaScript semantics the core relies on:
    truthiness, property reads and the string conversion `Array.prototype.join` applies. */
module JsonValue {
  import opened Wrappers

  /** A parsed JSON value.  A number is kept as its canonical JavaScript string form
      (`String(n)`): the core only tests numbers for truthiness and converts them to
      text, and both depend on nothing else. Objects map keys to values; a key given
      twice keeps its last value, as `JSON.parse` does. */
  datatype Json =
    | JNull
    | JBool(b: bool)
    | JNum(repr: string)
    | JStr(s: string)
    | JArr(items: seq<Json>)
    | JObj(fields: map<string, Json>)

  /** The only error the modelled code can raise on parsed data. */
  datatype JsError = TypeError

  /** JavaScript truthiness. `0` and `-0` both print as "0"; JSON has no NaN. */
  predicate Truthy(v: Json) {
    match v
    case JNull => false
    case JBool(b) => b
    case JNum(r) => r != "0"
    case JStr(s) => s != ""
    case JArr(_) => true
    case JObj(_) => true
  }

  /** Truthiness of a property read, where a missing property (`undefined`) is falsy. */
  predicate TruthyOpt(o: Option<Json>) {
    o.Some? && Truthy(o.value)
  }

  /** `o && typeof o === 'string'`: a present, non-empty string. */
  predicate IsTruthyString(o: Option<Json>) {
    o.Some? && o.value.JStr? && o.value.s != ""
  }

  /** `v[key]` for the data keys the core reads, none of which any prototype defines:
      an own property of an object, `undefined` for everything else. (Reading a
      property of `null` throws; the callers that can meet `null` model that.) */
  function Get(v: Json, key: string): (r: Option<Json>)
    ensures r.Some? <==> v.JObj? && key in v.fields
    ensures r.Some? ==> r.value == v.fields[key]
  {
    if v.JObj? && key in v.fields then Some(v.fields[key]) else None
  }

  /** `o?.key`: a property of an optional value, `undefined` when the value is absent. */
  function GetOpt(o: Option<Json>, key: string): (r: Option<Json>)
    ensures o.None? ==> r.None?
    ensures o.Some? ==> r == Get(o.value, key)
  {
    if o.Some? then Get(o.value, key) else None
  }

  /** `a || b` on two property reads. */
  function Or(a: Option<Json>, b: Option<Json>): (r: Option<Json>)
    ensures TruthyOpt(r) <==> TruthyOpt(a) || TruthyOpt(b)
    ensures TruthyOpt(a) ==> r == a
  {
    if TruthyOpt(a) then a else b
  }

  /** `v.timestamp || v.ts || now`, the timestamp rule of every endpoint. */
  function Stamp(v: Json, now: string): (r: Json)
    ensures TruthyOpt(Get(v, "timestamp")) ==> r == Get(v, "timestamp").value
    ensures !TruthyOpt(Get(v, "timestamp")) && TruthyOpt(Get(v, "ts")) ==> r == Get(v, "ts").value
    ensures !TruthyOpt(Get(v, "timestamp")) && !TruthyOpt(Get(v, "ts")) ==> r == JStr(now)
  {
    var d := Or(Get(v, "timestamp"), Get(v, "ts"));
    if TruthyOpt(d) then d.value else JStr(now)
  }

  /** `parts.join(sep)` on strings. */
  function Join(parts: seq<string>, sep: string): (r: string)
    ensures parts == [] ==> r == ""
    ensures |parts| == 1 ==> r == parts[0]
  {
    if parts == [] then ""
    else if |parts| == 1 then parts[0]
    else parts[0] + sep + Join(parts[1..], sep)
  }

  /** The string `Array.prototype.join` makes of one element: `null` becomes "",
      an array is joined with ",", an object prints as "[object Object]". An object
      with its own `toString` key cannot be converted: from JSON that property is
      never callable, `valueOf` returns the object itself, and JavaScript raises a
      TypeError. */
  function JoinElement(v: Json): (r: Result<string, JsError>)
    ensures v.JStr? ==> r == Success(v.s)
    ensures v.JObj? ==> (r.Failure? <==> "toString" in v.fields)
    decreases v, 1
  {
    match v
    case JNull => Success("")
    case JBool(b) => Success(if b then "true" else "false")
    case JNum(repr) => Success(repr)
    case JStr(s) => Success(s)
    case JArr(items) => JoinValues(items, ",")
    case JObj(m) => if "toString" in m then Failure(TypeError) else Success("[object Object]")
  }

  /** `items.join(sep)` on parsed values: fails as soon as one element cannot be
      converted, and otherwise joins the converted elements. */
  function JoinValues(items: seq<Json>, sep: string): (r: Result<string, JsError>)
    ensures r.Failure? <==> exists i :: 0 <= i < |items| && JoinElement(items[i]).Failure?
    ensures (forall i :: 0 <= i < |items| ==> items[i].JStr?) ==> r == Success(Join(Strings(items), sep))
    decreases items, 0
  {
    if items == [] then Success("")
    else
      var head := JoinElement(items[0]);
      if head.Failure? then Failure(head.error)
      else if |items| == 1 then head
      else
        var tail := JoinValues(items[1..], sep);
        assert forall i :: 1 <= i < |items| ==> items[i] == items[1..][i - 1];
        if tail.Failure? then Failure(tail.error)
        else Success(head.value + sep + tail.value)
  }

  /** The texts of a sequence of string values. */
  function Strings(items: seq<Json>): (r: seq<string>)
    requires forall i :: 0 <= i < |items| ==> items[i].JStr?
    ensures |r| == |items|
    ensures forall i :: 0 <= i < |items| ==> r[i] == items[i].s
  {
    if items == [] then [] else [items[0].s] + Strings(items[1..])
  }
}
