/**
 * Decimal text of a byte count. The response stores the payload size as the
 * `Content-Length` header value, which the header store renders as the
 * decimal digits of the number; `ParseDecimal` is how a reader of that header
 * gets the number back.
 */
module Decimal {
  import opened Wrappers

  function DigitChar(d: nat): (c: char)
    requires d < 10
  {
    (d + '0' as int) as char
  }

  function DigitValue(c: char): (r: Option<nat>) {
    if '0' <= c <= '9' then Some(c as int - '0' as int) else None
  }

  /** The decimal digits of `n`, most significant first, without leading zeros. */
  function NatToDecimal(n: nat): (s: string)
    ensures 1 <= |s|
    ensures forall i :: 0 <= i < |s| ==> '0' <= s[i] <= '9'
    ensures s[0] == '0' ==> n == 0
    decreases n
  {
    if n < 10 then [DigitChar(n)] else NatToDecimal(n / 10) + [DigitChar(n % 10)]
  }

  /** Reads a non-empty run of decimal digits; anything else is `None`. */
  function ParseDecimal(s: string): (r: Option<nat>)
    decreases |s|
  {
    if s == [] then None
    else
      match DigitValue(s[|s| - 1])
      case None => None
      case Some(d) =>
        if |s| == 1 then Some(d)
        else
          match ParseDecimal(s[..|s| - 1])
          case None => None
          case Some(p) => Some(p * 10 + d)
  }

  /** The Content-Length text reads back as exactly the number that was written. */
  lemma {:induction false} DecimalRoundTrip(n: nat)
    ensures ParseDecimal(NatToDecimal(n)) == Some(n)
    decreases n
  {
    var s := NatToDecimal(n);
    if n < 10 {
      assert s == [DigitChar(n)];
    } else {
      DecimalRoundTrip(n / 10);
      assert s[..|s| - 1] == NatToDecimal(n / 10);
      assert s[|s| - 1] == DigitChar(n % 10);
    }
  }
}
