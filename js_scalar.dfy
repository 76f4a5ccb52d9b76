/** The record number and the status code of a marker arrive from the
    server as JSON numbers or numeric strings (or null). This module models
    such a value, its JavaScript truthiness and its conversion by String()
    and toString(). */
module JsScalar {

  /** A JSON scalar: null, an integral number or a string. */
  datatype Scalar = Null | Num(n: int) | Text(s: string)

  /** JavaScript truthiness: null, 0 and "" are falsy. */
  predicate Truthy(v: Scalar)
  {
    match v
    case Null => false
    case Num(n) => n != 0
    case Text(s) => s != []
  }

  function DigitChar(d: nat): (c: char)
    requires d < 10
    ensures '0' <= c <= '9'
  {
    ('0' as int + d) as char
  }

  /** Decimal digits of a natural number, most significant first, without
      leading zeros. */
  function NatToDecimal(n: nat): (s: string)
    ensures |s| >= 1
    ensures forall i :: 0 <= i < |s| ==> '0' <= s[i] <= '9'
    ensures |s| > 1 ==> s[0] != '0'
    decreases n
  {
    if n < 10 then [DigitChar(n)] else NatToDecimal(n / 10) + [DigitChar(n % 10)]
  }

  /** Number.prototype.toString on an integer: a minus sign for negatives. */
  function IntToDecimal(n: int): (s: string)
    ensures |s| >= 1
    ensures (s[0] == '-') <==> n < 0
  {
    if n < 0 then "-" + NatToDecimal(-n) else NatToDecimal(n)
  }

  /** The value of a string of decimal digits. */
  function DecimalValue(s: string): nat
    requires forall i :: 0 <= i < |s| ==> '0' <= s[i] <= '9'
  {
    if s == [] then 0
    else 10 * DecimalValue(s[..|s| - 1]) + (s[|s| - 1] as int - '0' as int)
  }

  /** Reading back the digits of n gives n: the rendering is injective. */
  lemma {:induction false} DecimalRoundTrip(n: nat)
    ensures DecimalValue(NatToDecimal(n)) == n
    decreases n
  {
    if n >= 10 {
      DecimalRoundTrip(n / 10);
      var s := NatToDecimal(n);
      assert s[..|s| - 1] == NatToDecimal(n / 10);
    }
  }

  /** String(v) / v.toString(); String(null) is "null". */
  function ToStr(v: Scalar): string
  {
    match v
    case Null => "null"
    case Num(n) => IntToDecimal(n)
    case Text(s) => s
  }

  /** String(v) equals the decimal form of a natural number k exactly when v
      is that number, as a number or as a string: numeric and string codes
      compare alike. */
  lemma {:induction false} ToStrIsDecimal(v: Scalar, k: nat)
    ensures ToStr(v) == NatToDecimal(k) <==> v == Num(k) || v == Text(NatToDecimal(k))
  {
    var d := NatToDecimal(k);
    match v
    case Null =>
      assert "null"[0] == 'n';
    case Num(n) =>
      if n >= 0 && ToStr(v) == d {
        DecimalRoundTrip(n);
        DecimalRoundTrip(k);
      }
    case Text(s) =>
  }
}
