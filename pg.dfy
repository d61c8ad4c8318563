/**
 * How PostgreSQL reads a text parameter bound to an `integer` column: surrounding white space
 * is skipped, then an optional sign and at least one decimal digit, and the value must fit in
 * 32 bits; anything else makes the query fail.
 */
module Pg {
  import opened Wrappers
  import Js

  const Int4Min: int := -0x8000_0000
  const Int4Max: int := 0x7FFF_FFFF

  /** The C `isspace` characters the integer input skips before and after the number. */
  predicate IsSpace(c: char) {
    c == ' ' || c == '\t' || c == '\n' || c == '\r' || c == '\U{B}' || c == '\U{C}'
  }

  function StripStart(s: string): (r: string)
    ensures |r| <= |s| && r == s[|s| - |r|..]
    ensures forall i :: 0 <= i < |s| - |r| ==> IsSpace(s[i])
    ensures r == [] || !IsSpace(r[0])
    decreases |s|
  {
    if s != [] && IsSpace(s[0]) then StripStart(s[1..]) else s
  }

  function StripEnd(s: string): (r: string)
    ensures |r| <= |s| && r == s[..|r|]
    ensures forall i :: |r| <= i < |s| ==> IsSpace(s[i])
    ensures r == [] || !IsSpace(r[|r| - 1])
    decreases |s|
  {
    if s != [] && IsSpace(s[|s| - 1]) then StripEnd(s[..|s| - 1]) else s
  }

  /** The text between the leading and the trailing white space. */
  function Strip(s: string): string {
    StripEnd(StripStart(s))
  }

  /** The value an optionally signed run of digits denotes; None when a digit is missing or a
      character is neither sign nor digit. */
  function Signed(t: string): (r: Option<int>)
    ensures Js.AllDigits(t) && t != "" ==> r == Some(Js.DigitsValue(t))
    ensures t == "" || t == "-" || t == "+" ==> r.None?
  {
    if t == "" then None
    else
      var digits := if t[0] == '-' || t[0] == '+' then t[1..] else t;
      if digits == "" || !Js.AllDigits(digits) then None
      else
        var m: int := Js.DigitsValue(digits);
        Some(if t[0] == '-' then -m else m)
  }

  /** int4 input of a text parameter; None is the `invalid input syntax` or `out of range`
      error. */
  function ParseInt4(s: string): (r: Option<int>)
    ensures r.Some? ==> Int4Min <= r.value <= Int4Max
    ensures Strip(s) == "" ==> r.None?
  {
    match Signed(Strip(s))
    case None => None
    case Some(v) => if Int4Min <= v <= Int4Max then Some(v) else None
  }

  /** A parameter made only of white space, the empty one included, is rejected. */
  lemma BlankRejected(s: string)
    requires forall i :: 0 <= i < |s| ==> IsSpace(s[i])
    ensures ParseInt4(s).None?
  {
    assert StripStart(s) == [];
  }

  /** A plain run of digits reads as its value when it fits in 32 bits, and fails otherwise. */
  lemma DigitsAccepted(s: string)
    requires s != "" && Js.AllDigits(s)
    ensures Js.DigitsValue(s) <= Int4Max ==> ParseInt4(s) == Some(Js.DigitsValue(s))
    ensures Js.DigitsValue(s) > Int4Max ==> ParseInt4(s).None?
  {
    assert !IsSpace(s[0]) && !IsSpace(s[|s| - 1]);
    assert StripStart(s) == s;
    assert StripEnd(s) == s;
  }

  /** An id written with `String(id)` reads back as that id. */
  lemma ShowNatRoundTrip(n: nat)
    requires n <= Int4Max
    ensures ParseInt4(Js.ShowNat(n)) == Some(n)
  {
    Js.ShowNatValue(n);
    DigitsAccepted(Js.ShowNat(n));
  }
}
