/**
 * The JSON values the relay inspects inside an uploaded bundle, with Python's
 * truthiness and `str()` rendering.  Only strings and integers are modelled.
 */
module Json {
  import opened Wrappers

  datatype Value = Str(s: string) | Num(n: int)

  /** Python truthiness: the empty string and zero are false. */
  predicate Truthy(v: Value)
  {
    match v
    case Str(s) => s != ""
    case Num(n) => n != 0
  }

  /** A dictionary lookup whose result is truthy (`d.get(k)` used in a test). */
  predicate Present(o: Option<Value>) { o.Some? && Truthy(o.value) }

  /** `d.get(k)`. */
  function Get(m: map<string, Value>, k: string): (r: Option<Value>)
    ensures r.Some? <==> k in m
    ensures r.Some? ==> r.value == m[k]
  {
    if k in m then Some(m[k]) else None
  }

  /**
   * `a or b`, where a falsy outcome is only ever tested with `not`: the first
   * truthy operand, or None when neither is truthy.
   */
  function FirstTruthy(a: Option<Value>, b: Option<Value>): (r: Option<Value>)
    ensures Present(r) || r.None?
    ensures r.Some? <==> Present(a) || Present(b)
    ensures Present(a) ==> r == a
    ensures !Present(a) && Present(b) ==> r == b
  {
    if Present(a) then a else if Present(b) then b else None
  }

  function DigitChar(d: nat): (c: char)
    requires d < 10
    ensures '0' <= c <= '9'
  {
    ('0' as int + d) as char
  }

  predicate IsNumeral(s: string) { forall i :: 0 <= i < |s| ==> s[i] == '-' || '0' <= s[i] <= '9' }

  /** Decimal rendering of a natural number. */
  function NatToString(n: nat): (r: string)
    ensures r != [] && IsNumeral(r)
  {
    if n < 10 then [DigitChar(n)] else NatToString(n / 10) + [DigitChar(n % 10)]
  }

  /** Python's `str(v)`. */
  function ToStr(v: Value): (r: string)
    ensures v.Str? ==> r == v.s
    ensures v.Num? ==> r != [] && IsNumeral(r)
  {
    match v
    case Str(s) => s
    case Num(n) => if n < 0 then "-" + NatToString(-n) else NatToString(n)
  }
}
