/**
 * Generated component ids: "focusable-" followed by the decimal digits of
 * the controller's counter.
 */
module FocusableIds {

  const AUTO_ID_PREFIX := "focusable-"

  function DigitChar(d: nat): char
    requires d < 10
  {
    (d + 48) as char
  }

  predicate IsDigit(c: char) {
    '0' <= c <= '9'
  }

  function DigitValue(c: char): nat
    requires IsDigit(c)
  {
    c as int - 48
  }

  /** The decimal numeral of `n`, without leading zeros. */
  function NatToString(n: nat): (s: string)
    ensures |s| > 0 && forall c :: c in s ==> IsDigit(c)
    ensures |s| > 1 ==> s[0] != '0'
    decreases n
  {
    if n < 10 then [DigitChar(n)] else NatToString(n / 10) + [DigitChar(n % 10)]
  }

  /** Reads a string of digits back as a number. */
  function ParseDigits(s: string): nat
    requires forall c :: c in s ==> IsDigit(c)
    decreases |s|
  {
    if s == [] then 0
    else ParseDigits(s[..|s| - 1]) * 10 + DigitValue(s[|s| - 1])
  }

  lemma {:induction false} NatToStringRoundTrip(n: nat)
    ensures ParseDigits(NatToString(n)) == n
    decreases n
  {
    var s := NatToString(n);
    if n < 10 {
      assert s[..0] == [];
    } else {
      NatToStringRoundTrip(n / 10);
      assert s[..|s| - 1] == NatToString(n / 10);
    }
  }

  /** A generated id: the prefix, then at least one digit and nothing else. */
  function AutoId(n: nat): (id: string)
    ensures |id| > |AUTO_ID_PREFIX| && id[..|AUTO_ID_PREFIX|] == AUTO_ID_PREFIX
    ensures forall i :: |AUTO_ID_PREFIX| <= i < |id| ==> IsDigit(id[i])
  {
    AUTO_ID_PREFIX + NatToString(n)
  }

  /** Distinct counter values give distinct generated ids. */
  lemma AutoIdInjective(m: nat, n: nat)
    requires AutoId(m) == AutoId(n)
    ensures m == n
  {
    var k := |AUTO_ID_PREFIX|;
    assert AutoId(m)[k..] == NatToString(m);
    assert AutoId(n)[k..] == NatToString(n);
    NatToStringRoundTrip(m);
    NatToStringRoundTrip(n);
  }
}
