/**
  The few JavaScript value semantics the interceptors depend on: what counts
  as truthy, the optional member access `v?.key`, the `{ data: ... }`
  envelope, and the string conversion `atob` applies to its argument.
 */
module JsValue {

  /** A request or response body. Numbers are integers; arrays are not
      distinguished from other objects. */
  datatype Value =
    | Undefined
    | Null
    | Bool(b: bool)
    | Num(n: int)
    | Str(s: string)
    | Obj(fields: map<string, Value>)

  /** JavaScript truthiness (ToBoolean, section 7.1.2 of ECMA-262): the falsy
      values are undefined, null, false, 0 and "", and every object is truthy. */
  predicate Truthy(v: Value)
    ensures !Truthy(v) <==> v in {Undefined, Null, Bool(false), Num(0), Str("")}
  {
    match v
    case Undefined => false
    case Null => false
    case Bool(b) => b
    case Num(n) => n != 0
    case Str(s) => s != ""
    case Obj(_) => true
  }

  /** `v?.key`: the property of an object, undefined for anything else. */
  function Member(v: Value, key: string): (r: Value)
    ensures r != Undefined ==> v.Obj? && key in v.fields && r == v.fields[key]
    ensures v.Obj? && key in v.fields ==> r == v.fields[key]
  {
    if v.Obj? && key in v.fields then v.fields[key] else Undefined
  }

  /** `v.key = x` on an object. */
  function SetMember(v: Value, key: string, x: Value): (r: Value)
    requires v.Obj?
    ensures Member(r, key) == x
    ensures forall k :: k != key ==> Member(r, k) == Member(v, k)
  {
    Obj(v.fields[key := x])
  }

  /** The envelope `{ data: text }` that carries an encoded body. */
  function Envelope(text: string): (r: Value)
    ensures Member(r, "data") == Str(text) && Truthy(r)
  {
    Obj(map["data" := Str(text)])
  }

  function DigitChar(d: int): (c: char)
    requires 0 <= d < 10
    ensures '0' <= c <= '9'
  {
    (48 + d) as char
  }

  function NatToDecimal(n: nat): (r: string)
    ensures |r| >= 1
    ensures forall i :: 0 <= i < |r| ==> '0' <= r[i] <= '9'
    decreases n
  {
    if n < 10 then [DigitChar(n)] else NatToDecimal(n / 10) + [DigitChar(n % 10)]
  }

  /** `String(v)`, the conversion `atob` applies to a non-string argument. */
  function ToJsString(v: Value): (r: string)
    ensures v.Str? ==> r == v.s
  {
    match v
    case Undefined => "undefined"
    case Null => "null"
    case Bool(b) => if b then "true" else "false"
    case Num(n) => if n < 0 then "-" + NatToDecimal(-n) else NatToDecimal(n)
    case Str(s) => s
    case Obj(_) => "[object Object]"
  }
}
