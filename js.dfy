/**
 * JavaScript values as they arrive in a JSON request body or a query string, with the two
 * coercions the handlers apply to them: truthiness (`!x`) and `Number(x)`.
 */
module Js {
  import opened Wrappers
  import Text

  /** A JSON scalar; numbers are integers here (fractions are not modelled). */
  datatype Value = Undefined | Null | Num(n: int) | Str(s: string)

  /** `!!v`: JSON's falsy scalars are undefined, null, 0 and "". */
  predicate Truthy(v: Value) {
    match v
    case Undefined => false
    case Null => false
    case Num(n) => n != 0
    case Str(s) => s != ""
  }

  /** A string field (None is undefined or null) that is truthy. */
  predicate Present(o: Option<string>) {
    o.Some? && o.value != ""
  }

  predicate IsDigit(c: char) {
    '0' <= c <= '9'
  }

  predicate AllDigits(s: string) {
    forall i :: 0 <= i < |s| ==> IsDigit(s[i])
  }

  /** The value of a string of decimal digits, most significant first. */
  function DigitsValue(s: string): nat
    requires AllDigits(s)
    decreases |s|
  {
    if s == [] then 0
    else DigitsValue(s[..|s| - 1]) * 10 + (s[|s| - 1] as int - '0' as int)
  }

  /** `Number` on an already trimmed string: "" is 0, an optionally signed run of digits
      is its value, and anything else is NaN (None). */
  function ParseNumber(t: string): (r: Option<int>)
    ensures t == "" ==> r == Some(0)
    ensures AllDigits(t) && t != "" ==> r == Some(DigitsValue(t))
    ensures r.Some? && t != "" ==> exists i :: 0 <= i < |t| && IsDigit(t[i])
  {
    if t == "" then Some(0)
    else if (t[0] == '-' || t[0] == '+') && |t| > 1 && AllDigits(t[1..]) then
      var m: int := DigitsValue(t[1..]);
      Some(if t[0] == '-' then -m else m)
    else if AllDigits(t) then Some(DigitsValue(t))
    else None
  }

  /** `Number(v)`; None stands for NaN. */
  function ToNumber(v: Value): (r: Option<int>)
    ensures v.Undefined? ==> r == None
    ensures v.Null? ==> r == Some(0)
    ensures v.Num? ==> r == Some(v.n)
  {
    match v
    case Undefined => None
    case Null => Some(0)
    case Num(n) => Some(n)
    case Str(s) => ParseNumber(Text.Trim(s))
  }

  /** `String(n)` for a natural number: its decimal digits without leading zeros. */
  function ShowNat(n: nat): (r: string)
    ensures r != "" && AllDigits(r)
    decreases n
  {
    var d := ['0' + (n % 10) as char];
    if n < 10 then d else ShowNat(n / 10) + d
  }

  lemma {:induction false} ShowNatValue(n: nat)
    ensures DigitsValue(ShowNat(n)) == n
    decreases n
  {
    var s := ShowNat(n);
    if n >= 10 {
      ShowNatValue(n / 10);
      assert s[..|s| - 1] == ShowNat(n / 10);
    }
  }

  /** Reading back an id that was written with `String(id)` yields that id. */
  lemma ToNumberShowNat(n: nat)
    ensures ToNumber(Str(ShowNat(n))) == Some(n)
  {
    var s := ShowNat(n);
    assert !Text.IsWhite(s[0]) && !Text.IsWhite(s[|s| - 1]);
    assert Text.TrimStart(s) == s;
    assert Text.TrimEnd(s) == s;
    ShowNatValue(n);
  }
}
