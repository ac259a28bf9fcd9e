/** Decimal numerals as printf writes them and as a client reads them. */
module Decimals {
  import opened Bytes

  // %zu and %jd of a non-negative number.
  function Decimal(n: nat): Bytes {
    if n < 10 then [DigitChar(n)] else Decimal(n / 10) + [DigitChar(n % 10)]
  }

  // %d
  function SignedDecimal(n: int): Bytes { if n < 0 then ['-'] + Decimal(-n) else Decimal(n) }

  predicate IsNumeral(s: Bytes) { s != [] && forall i :: 0 <= i < |s| ==> IsDigit(s[i]) }

  // int(s) for a numeral.
  function ReadDecimal(s: Bytes): nat
    requires forall i :: 0 <= i < |s| ==> IsDigit(s[i])
  {
    if s == [] then 0 else
      assert IsDigit(s[|s| - 1]);
      10 * ReadDecimal(s[..|s| - 1]) + (s[|s| - 1] as int - '0' as int)
  }

  lemma {:induction false} DecimalRoundTrip(n: nat)
    ensures IsNumeral(Decimal(n)) && ReadDecimal(Decimal(n)) == n
  {
    if n >= 10 {
      DecimalRoundTrip(n / 10);
      assert Decimal(n)[..|Decimal(n)| - 1] == Decimal(n / 10);
    } else {
      assert Decimal(n)[..0] == [];
    }
  }

  // int(s) for a numeral with or without a sign.
  function ReadSigned(s: Bytes): int
    requires s != [] && IsNumeral(if s[0] == '-' then s[1..] else s)
  { if s[0] == '-' then 0 - ReadDecimal(s[1..]) else ReadDecimal(s) }

  lemma SignedRoundTrip(n: int)
    ensures var s := SignedDecimal(n);
            s != [] && IsNumeral(if s[0] == '-' then s[1..] else s) && ReadSigned(s) == n
  {
    DecimalRoundTrip(if n < 0 then -n else n);
    assert n < 0 ==> SignedDecimal(n)[1..] == Decimal(-n);
    hide Decimal;
  }

  // The status codes of the server, as they are printed.
  lemma StatusNumerals()
    ensures Decimal(200) == "200" && Decimal(400) == "400" && Decimal(404) == "404" && Decimal(405) == "405"
  {
    assert Decimal(20) == ['2', '0'] && Decimal(40) == ['4', '0'];
  }

  function Power10(k: nat): nat { if k == 0 then 1 else 10 * Power10(k - 1) }

  lemma {:induction false} DecimalLength(n: nat, k: nat)
    requires k > 0 && n < Power10(k)
    ensures |Decimal(n)| <= k
    decreases k
  {
    if n >= 10 { DecimalLength(n / 10, k - 1); }
  }

  lemma PowerFacts()
    ensures Power10(3) == 1000 && Power10(10) == 10_000_000_000 && Power10(19) == 10_000_000_000_000_000_000
  {
    assert Power10(5) == 100_000;
    assert Power10(10) == 10_000_000_000;
    assert Power10(15) == 1_000_000_000_000_000;
  }
}
