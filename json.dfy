/** Decoded JSON values, as Python's `json.loads` produces them, and the Python operations the
    application applies to them: truthiness, `int(x)`, `==`, `str(x)`. The JSON text format
    itself is not modelled: encoding and decoding are the opaque functions of a `Codec`. */
module JsonValues {
  import opened Wrappers
  import PyText
  import Numeric

  datatype Json =
    | JNull
    | JBool(b: bool)
    | JInt(i: int)
    | JFloat(r: real)
    | JStr(s: string)
    | JList(items: seq<Json>)
    | JObject(fields: map<string, Json>)

  /** Python truthiness (`if x:`). */
  predicate Truthy(j: Json) {
    match j
    case JNull => false
    case JBool(b) => b
    case JInt(i) => i != 0
    case JFloat(r) => r != 0.0
    case JStr(s) => s != []
    case JList(xs) => xs != []
    case JObject(m) => m != map[]
  }

  /** `isinstance(x, (int, float))`; `bool` is a subclass of `int`. */
  predicate IsNumber(j: Json) {
    j.JBool? || j.JInt? || j.JFloat?
  }

  function NumValue(j: Json): real
    requires IsNumber(j)
  {
    match j
    case JBool(b) => if b then 1.0 else 0.0
    case JInt(i) => i as real
    case JFloat(r) => r
  }

  /** The outcome of Python `int(x)`. */
  datatype IntConv = Converted(value: int) | ValueError | TypeError

  /** Python `int(x)` on a decoded value: numbers truncate, strings are parsed, everything else
      raises `TypeError`. */
  function PyInt(j: Json): (r: IntConv)
    ensures IsNumber(j) ==> r.Converted?
    ensures j.JInt? ==> r == Converted(j.i)
    ensures r.TypeError? <==> !IsNumber(j) && !j.JStr?
    ensures j.JStr? ==> (r.Converted? <==> PyText.ParseInt(j.s).Some?)
  {
    match j
    case JBool(b) => Converted(if b then 1 else 0)
    case JInt(i) => Converted(i)
    case JFloat(r) => Converted(Numeric.Trunc(r))
    case JStr(s) => (match PyText.ParseInt(s) case Some(n) => Converted(n) case None => ValueError)
    case _ => TypeError
  }

  /** Python `n == x` for an int `n`: only numbers (and booleans) can equal an int. */
  predicate EqualsInt(j: Json, n: int) {
    IsNumber(j) && NumValue(j) == n as real
  }

  /** Python `==` between decoded values. Numbers compare by value across int, float and bool;
      lists compare element-wise; objects have the same keys and `==` values under each. */
  predicate PyEq(a: Json, b: Json) {
    if IsNumber(a) || IsNumber(b) then IsNumber(a) && IsNumber(b) && NumValue(a) == NumValue(b)
    else match a
      case JNull => b.JNull?
      case JStr(x) => b.JStr? && b.s == x
      case JList(xs) =>
        b.JList? && |xs| == |b.items| && forall i :: 0 <= i < |xs| ==> PyEq(xs[i], b.items[i])
      case JObject(m) =>
        b.JObject? && b.fields.Keys == m.Keys && forall key :: key in m ==> PyEq(m[key], b.fields[key])
  }

  /** Every decoded value is `==` to itself. */
  lemma {:induction false} PyEqReflexive(a: Json)
    ensures PyEq(a, a)
  {
    match a
    case JList(xs) =>
      forall i | 0 <= i < |xs| ensures PyEq(xs[i], xs[i]) {
        PyEqReflexive(xs[i]);
      }
    case JObject(m) =>
      forall key | key in m ensures PyEq(m[key], m[key]) {
        PyEqReflexive(m[key]);
      }
    case _ =>
  }

  /** Objects compare their values with `==`: `{"a": 1} == {"a": 1.0}`, and a missing key makes
      two objects differ. */
  lemma ObjectsCompareValues()
    ensures PyEq(JObject(map["a" := JInt(1)]), JObject(map["a" := JFloat(1.0)]))
    ensures !PyEq(JObject(map["a" := JInt(1)]), JObject(map["b" := JInt(1)]))
  {
    var m, n := map["a" := JInt(1)], map["a" := JFloat(1.0)];
    assert m.Keys == n.Keys == {"a"};
    assert "a" !in map["b" := JInt(1)].Keys;
  }

  /** The host's JSON facilities: `json.loads` (None when it raises), `json.dumps`, and `str(x)`
      of a decoded value. */
  datatype Codec = Codec(loads: string -> Option<Json>, dumps: Json -> string, str: Json -> string)

  /** The laws Python's `json` module and `str` obey. */
  ghost predicate Lawful(c: Codec) {
    && (forall j :: c.loads(c.dumps(j)) == Some(j))
    && (forall j :: c.dumps(j) != [])
    && (forall n: int :: c.dumps(JInt(n)) == PyText.DecimalString(n))
    && (forall s :: c.str(JStr(s)) == s)
  }
}
