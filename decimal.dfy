/**
  The `%i` conversion of `seq_printf`: a signed decimal integer, a leading
  `-` for negative values and no leading zeros. Its inverse is given so that
  what the control file shows can be read back as the number it came from.
*/
module Decimal {

  predicate IsDigit(c: char) { '0' <= c <= '9' }

  predicate AllDigits(s: string) { forall i :: 0 <= i < |s| ==> IsDigit(s[i]) }

  function DigitChar(d: nat): (c: char)
    requires d < 10
    ensures IsDigit(c) && c as int - '0' as int == d
  {
    ('0' as int + d) as char
  }

  /** The decimal digits of `n`, most significant first. */
  function FormatNat(n: nat): (s: string)
    ensures |s| >= 1 && AllDigits(s)
    ensures |s| > 1 ==> s[0] != '0'
  {
    if n < 10 then [DigitChar(n)] else FormatNat(n / 10) + [DigitChar(n % 10)]
  }

  /** What `%i` prints for `v`. */
  function FormatInt(v: int): (s: string)
    ensures |s| >= 1 && (s[0] == '-' <==> v < 0)
    ensures AllDigits(if v < 0 then s[1..] else s)
  {
    if v < 0 then "-" + FormatNat(-v) else FormatNat(v)
  }

  /** The number a string of decimal digits denotes. */
  function NatValue(s: string): nat
    requires AllDigits(s)
  {
    if s == [] then 0 else 10 * NatValue(s[..|s| - 1]) + (s[|s| - 1] as int - '0' as int)
  }

  /** The number an optionally signed decimal string denotes. */
  function IntValue(s: string): int
    requires s != [] && AllDigits(if s[0] == '-' then s[1..] else s)
  {
    if s[0] == '-' then -(NatValue(s[1..]) as int) else NatValue(s)
  }

  lemma {:induction false} NatValueOfFormat(n: nat)
    ensures NatValue(FormatNat(n)) == n
  {
    if n >= 10 {
      var s := FormatNat(n);
      assert s[..|s| - 1] == FormatNat(n / 10);
      NatValueOfFormat(n / 10);
    }
  }

  /** Reading back what `%i` printed yields the printed value. */
  lemma IntValueOfFormat(v: int)
    ensures IntValue(FormatInt(v)) == v
  {
    var s := FormatInt(v);
    if v < 0 {
      assert s[1..] == FormatNat(-v);
      NatValueOfFormat(-v);
    } else {
      NatValueOfFormat(v);
    }
  }
}
