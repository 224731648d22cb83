/** JavaScript values as the handlers see them: fields of a JSON request body,
    columns of a row returned by `SELECT *`, claims decoded from a token. */
module Json {

  datatype Option<+T> = None | Some(value: T)

  /** The JSON shapes the backend handles. Numbers are integers in this model. */
  datatype Value =
    | Undefined
    | Null
    | Bool(b: bool)
    | Num(n: int)
    | Str(s: string)
    | Strs(items: seq<string>)

  /** A plain object: a request body, a query string or a database row. */
  type Object = map<string, Value>

  /** Property lookup `o.key`: a missing property reads as `undefined`. */
  function Get(o: Object, key: string): Value
  {
    if key in o then o[key] else Undefined
  }

  /** JavaScript truthiness, the test behind every `if (!x)` guard. */
  predicate Truthy(v: Value)
  {
    match v
    case Undefined => false
    case Null => false
    case Bool(b) => b
    case Num(n) => n != 0
    case Str(s) => s != ""
    case Strs(_) => true
  }

  /** Both `undefined` and `null` reach the database as SQL NULL. */
  predicate IsNull(v: Value)
  {
    v.Undefined? || v.Null?
  }

  /** Binding a value as a query parameter: `undefined` is sent as NULL. */
  function Bind(v: Value): (b: Value)
    ensures b != Undefined
    ensures IsNull(b) <==> IsNull(v)
    ensures !IsNull(v) ==> b == v
  {
    if v.Undefined? then Null else v
  }

  /** A JavaScript number: finite (an integer in this model) or NaN. */
  datatype Number = Finite(n: int) | NaN

  predicate IsDigit(c: char)
  {
    '0' <= c <= '9'
  }

  /** The value of a string of decimal digits. */
  function DecimalValue(s: string): nat
    requires forall i :: 0 <= i < |s| ==> IsDigit(s[i])
  {
    if s == [] then 0
    else
      assert IsDigit(s[|s| - 1]);
      10 * DecimalValue(s[..|s| - 1]) + (s[|s| - 1] as int - '0' as int)
  }

  /** A string as a number: the empty string is 0, a string of decimal digits is its value,
      anything else is NaN (signs, fractions, exponents and surrounding blanks are not
      modelled). */
  function StringToNumber(s: string): Number
  {
    if s == [] then Finite(0)
    else if forall i :: 0 <= i < |s| ==> IsDigit(s[i]) then Finite(DecimalValue(s))
    else NaN
  }

  /** `Number(v)`, the coercion a relational comparison such as `v < 1` applies to a value. */
  function ToNumber(v: Value): Number
  {
    match v
    case Undefined => NaN
    case Null => Finite(0)
    case Bool(b) => Finite(if b then 1 else 0)
    case Num(n) => Finite(n)
    case Str(s) => StringToNumber(s)
    case Strs(items) => if items == [] then Finite(0) else if |items| == 1 then StringToNumber(items[0]) else NaN
  }

  /** `v < k` for a number literal `k`; a comparison with NaN is false. */
  predicate Below(v: Value, k: int)
  {
    ToNumber(v).Finite? && ToNumber(v).n < k
  }

  /** `v > k` for a number literal `k`; a comparison with NaN is false. */
  predicate Above(v: Value, k: int)
  {
    ToNumber(v).Finite? && ToNumber(v).n > k
  }
}
