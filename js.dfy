/**
 The few JavaScript values and coercions the field-validation runner depends
 on: a value datatype, truthiness, string conversion (`String(x)`) and the
 canonical decimal form of array indices.
 */
module Js {

  /** Identity of a JavaScript function object; what it computes is supplied by the host. */
  type FnId = nat

  /**
   A JavaScript value. Numbers are integers (no NaN, no fractions); their
   string form is exact only below 10^21 in magnitude. `Obj` stands for any
   object that is neither an array nor a function: a plain key/value record
   (the options of a library validator, a plain-object field value), a RegExp,
   a Date, a class instance. Its contents matter only through the host. Being
   a plain record matters only for descriptors, which have their own datatype
   (`Descriptor.Record`) in module Validate.
   */
  datatype Val =
    | Undef
    | Null
    | Bool(b: bool)
    | Num(n: int)
    | Str(s: string)
    | Arr(items: seq<Val>)
    | Obj(ref: nat)
    | Func(id: FnId)

  /** ECMAScript ToBoolean: `undefined`, `null`, `false`, `0` and `""` are falsy. */
  predicate Truthy(v: Val) {
    match v
    case Undef => false
    case Null => false
    case Bool(b) => b
    case Num(n) => n != 0
    case Str(s) => s != ""
    case Arr(_) => true
    case Obj(_) => true
    case Func(_) => true
  }

  predicate IsDigit(c: char) {
    '0' <= c <= '9'
  }

  predicate AllDigits(s: string) {
    forall i :: 0 <= i < |s| ==> IsDigit(s[i])
  }

  /** A string that names an array element: decimal digits without a leading zero. */
  predicate IsArrayIndex(s: string) {
    |s| > 0 && AllDigits(s) && (|s| == 1 || s[0] != '0')
  }

  function DigitChar(d: nat): (c: char)
    requires d < 10
  {
    ('0' as int + d) as char
  }

  /** The number a string of decimal digits denotes. */
  function DecimalValue(s: string): nat
    requires AllDigits(s)
  {
    if s == [] then 0
    else 10 * DecimalValue(s[..|s| - 1]) + (s[|s| - 1] as int - '0' as int)
  }

  /**
   The decimal form `String(n)` gives a non-negative integer below 10^21 (larger
   numbers print in exponent form, which is not modelled); it is always an
   array-index string.
   */
  function NatToDecimal(n: nat): (s: string)
    ensures IsArrayIndex(s)
  {
    if n < 10 then [DigitChar(n)]
    else NatToDecimal(n / 10) + [DigitChar(n % 10)]
  }

  /** Reading back the decimal form of a number gives that number. */
  lemma {:induction false} DecimalRoundTrip(n: nat)
    ensures DecimalValue(NatToDecimal(n)) == n
  {
    if n >= 10 {
      var s := NatToDecimal(n);
      assert s[..|s| - 1] == NatToDecimal(n / 10);
      DecimalRoundTrip(n / 10);
    }
  }

  /**
   ECMAScript ToString, for integers of magnitude below 10^21. Arrays are joined with commas, `null` and `undefined`
   elements giving the empty string; how an object or a function prints is
   left to `display`.
   */
  function ToStr(v: Val, display: Val -> string): string
    decreases v
  {
    match v
    case Undef => "undefined"
    case Null => "null"
    case Bool(b) => if b then "true" else "false"
    case Num(n) => if n < 0 then "-" + NatToDecimal(-n) else NatToDecimal(n)
    case Str(s) => s
    case Arr(items) => Join(items, display)
    case Obj(_) => display(v)
    case Func(_) => display(v)
  }

  /** `Array.prototype.join(",")` over the elements of an array. */
  function Join(items: seq<Val>, display: Val -> string): string
    decreases items
  {
    if items == [] then ""
    else
      var first := if items[0] == Undef || items[0] == Null then "" else ToStr(items[0], display);
      if |items| == 1 then first else first + "," + Join(items[1..], display)
  }
}
