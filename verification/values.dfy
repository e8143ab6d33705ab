/** The JavaScript values the report's components receive from the audit
    entity JSON, and the record ("row") shape they read fields from.

    A record is modelled as its (key, value) pairs in `Object.keys` order.
    The JavaScript engine lists integer-like keys first; the model assumes
    the order the pairs are given in is the enumeration order. */
module Values {

  datatype Option<+T> = None | Some(value: T) {
    function GetOr(default: T): T {
      match this
      case Some(v) => v
      case None => default
    }
  }

  /** The primitive JSON values a cell, a label or a count can hold.
      NaN and nested objects are not represented. */
  datatype JsValue =
    | JNull
    | JUndefined
    | JBool(b: bool)
    | JNum(n: real)
    | JStr(s: string)

  /** An object record: (key, value) pairs in enumeration order. */
  type Row = seq<(string, JsValue)>

  /** JavaScript truthiness: `false`, `0`, `""`, `null` and `undefined` are falsy. */
  predicate Truthy(v: JsValue) {
    match v
    case JNull => false
    case JUndefined => false
    case JBool(b) => b
    case JNum(n) => n != 0.0
    case JStr(s) => s != ""
  }

  /** `v == null` in JavaScript: true exactly for `null` and `undefined`. */
  predicate IsNullish(v: JsValue) {
    v.JNull? || v.JUndefined?
  }

  /** Position of the first pair whose key satisfies `wanted`. */
  function FindKey(row: Row, wanted: string -> bool): (r: Option<nat>)
    ensures r.Some? ==> r.value < |row| && wanted(row[r.value].0)
    ensures r.Some? ==> forall j :: 0 <= j < r.value ==> !wanted(row[j].0)
    ensures r.None? ==> forall j :: 0 <= j < |row| ==> !wanted(row[j].0)
  {
    if |row| == 0 then None
    else if wanted(row[0].0) then Some(0)
    else match FindKey(row[1..], wanted)
      case None => None
      case Some(i) => Some(i + 1)
  }

  /** `row[key]`: the value stored under `key`, `undefined` when the key is absent. */
  function Get(row: Row, key: string): (v: JsValue)
    ensures (forall j :: 0 <= j < |row| ==> row[j].0 != key) ==> v == JUndefined
    ensures forall i :: 0 <= i < |row| && row[i].0 == key && (forall j :: 0 <= j < i ==> row[j].0 != key)
                        ==> v == row[i].1
  {
    match FindKey(row, k => k == key)
    case None => JUndefined
    case Some(i) => row[i].1
  }

  /** `const { reserved, ...rest } = row; rest[Object.keys(rest)[0]]`:
      the value under the first key other than `reserved`, or `undefined`
      when every key is `reserved`. */
  function LabelOf(row: Row, reserved: string): (v: JsValue)
    ensures (forall j :: 0 <= j < |row| ==> row[j].0 == reserved) ==> v == JUndefined
    ensures forall i :: 0 <= i < |row| && row[i].0 != reserved && (forall j :: 0 <= j < i ==> row[j].0 == reserved)
                        ==> v == row[i].1
  {
    match FindKey(row, k => k != reserved)
    case None => JUndefined
    case Some(i) => row[i].1
  }

  /** Conversions the report delegates to the JavaScript runtime and to
      date-fns. They are not interpreted here: every operation that needs
      one takes them as a parameter. */
  datatype Formatters = Formatters(
    numberToString: real -> string,   // String(n)
    toLocaleString: real -> string,   // n.toLocaleString()
    formatDate: string -> string,     // formatDate from ../utils
    humanDuration: real -> string,    // formatDuration(intervalToDuration({start: 0, end: ms}))
    stringToNumber: string -> Option<real>  // Number(s), None for NaN
  )

  /** `String(v)`. */
  function JsString(v: JsValue, fmt: Formatters): string {
    match v
    case JNull => "null"
    case JUndefined => "undefined"
    case JBool(b) => if b then "true" else "false"
    case JNum(n) => fmt.numberToString(n)
    case JStr(s) => s
  }

  /** The product of two positive reals is positive: the one nonlinear fact
      the percentage, rate and shuffle arithmetic need. */
  lemma PositiveProduct(a: real, b: real)
    requires a > 0.0 && b > 0.0
    ensures a * b > 0.0
  {
  }
}
