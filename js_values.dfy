/** The JavaScript values that flow through the record-processing code:
    parsed JSON documents, GeoJSON features and their property bags.
    Floating-point numbers stay opaque: a finite number carries only the text
    `String(x)` gives for it, and `parseFloat` is always a parameter. */
module JsValues {
  import opened Strings

  datatype Option<T> = None | Some(value: T)

  /** An IEEE double, kept abstract: its class, and for a finite number its
      decimal text. */
  datatype Number = Finite(text: string) | NaN | Infinity | NegInfinity
  {
    /** `isFinite(x)` */
    predicate IsFinite() { Finite? }
  }

  datatype JsValue =
    | Undefined
    | Null
    | Bool(b: bool)
    | Num(n: Number)
    | Str(s: string)
    | Arr(items: seq<JsValue>)
    | Obj(props: map<string, JsValue>)

  /** JavaScript truthiness: `undefined`, `null`, `false`, `0`, `NaN` and `""`
      are falsy; every other value, including `[]` and `{}`, is truthy. */
  predicate Truthy(v: JsValue) {
    match v
    case Undefined => false
    case Null => false
    case Bool(b) => b
    case Num(n) => n.Infinity? || n.NegInfinity? || (n.Finite? && n.text != "0" && n.text != "-0")
    case Str(s) => s != ""
    case Arr(_) => true
    case Obj(_) => true
  }

  /** `a || b` */
  function Or(a: JsValue, b: JsValue): (r: JsValue)
    ensures Truthy(a) ==> r == a
    ensures !Truthy(a) ==> r == b
  {
    if Truthy(a) then a else b
  }

  /** `String(v)`, which for a non-nullish value is also `v.toString()`. */
  function ToStr(v: JsValue): string {
    match v
    case Undefined => "undefined"
    case Null => "null"
    case Bool(b) => if b then "true" else "false"
    case Num(n) =>
      (match n
       case Finite(t) => t
       case NaN => "NaN"
       case Infinity => "Infinity"
       case NegInfinity => "-Infinity")
    case Str(s) => s
    case Arr(items) => JoinItems(items)
    case Obj(_) => "[object Object]"
  }

  /** `Array.prototype.join(",")`, which writes `null` and `undefined` items
      as empty text. */
  function JoinItems(items: seq<JsValue>): string
    decreases items, 0
  {
    if items == [] then ""
    else
      var first := if items[0].Undefined? || items[0].Null? then "" else ToStr(items[0]);
      if |items| == 1 then first else first + "," + JoinItems(items[1..])
  }

  /** Property access `v[key]` on a value that is not `null` or `undefined`:
      own properties of an object, `undefined` for everything else. */
  function Get(v: JsValue, key: string): (r: JsValue)
    ensures !v.Obj? ==> r == Undefined
  {
    if v.Obj? && key in v.props then v.props[key] else Undefined
  }

  /** Index access `v[i]`: an array element, a one-character string, or the
      object property named by the decimal index. */
  function Index(v: JsValue, i: nat): JsValue {
    match v
    case Arr(items) => if i < |items| then items[i] else Undefined
    case Str(s) => if i < |s| then Str([s[i]]) else Undefined
    case Obj(_) => Get(v, NatToString(i))
    case _ => Undefined
  }
}
