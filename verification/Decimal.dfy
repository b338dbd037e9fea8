/** Decimal notation as `%d` and `%lu` write it. */
module Decimal {
  import opened Bytes

  predicate IsDigit(b: byte) { '0' as int <= b as int <= '9' as int }

  predicate AllDigits(s: bytes) { forall i :: 0 <= i < |s| ==> IsDigit(s[i]) }

  function Digits(n: nat): (r: cstring)
    ensures |r| > 0 && AllDigits(r)
  {
    if n < 10 then [48 + n as byte] else Digits(n / 10) + [48 + (n % 10) as byte]
  }

  function Dec(n: int): (r: cstring)
    ensures |r| > 0 && (r[0] == MINUS || IsDigit(r[0]))
    ensures forall i :: 0 <= i < |r| ==> r[i] == MINUS || IsDigit(r[i])
  {
    if n < 0 then [MINUS] + Digits(-n) else Digits(n)
  }

  /** The number a digit string denotes, most significant digit first. */
  function ValueOf(s: bytes): nat
    requires AllDigits(s)
  {
    if s == [] then 0
    else assert IsDigit(s[|s| - 1]); 10 * ValueOf(s[..|s| - 1]) + (s[|s| - 1] as int - '0' as int)
  }

  lemma {:induction false} DigitsDenote(n: nat)
    ensures ValueOf(Digits(n)) == n
  {
    if n < 10 {
      assert Digits(n)[..0] == [];
    } else {
      DigitsDenote(n / 10);
      assert Digits(n)[..|Digits(n)| - 1] == Digits(n / 10);
    }
  }

  lemma {:induction false} DigitsNoLeadingZero(n: nat)
    ensures Digits(n)[0] == 48 ==> n == 0 && |Digits(n)| == 1
  {
    if n >= 10 { DigitsNoLeadingZero(n / 10); }
  }

  /** What `%d` writes: the digits of the number behind a minus sign if it is negative, without
      leading zeros. */
  lemma DecDenotes(n: int)
    ensures n >= 0 ==> AllDigits(Dec(n)) && ValueOf(Dec(n)) == n && (|Dec(n)| == 1 || Dec(n)[0] as int != '0' as int)
    ensures n < 0 ==>
      && Dec(n)[0] as int == '-' as int && |Dec(n)| > 1 && Dec(n)[1] as int != '0' as int
      && AllDigits(Dec(n)[1..]) && ValueOf(Dec(n)[1..]) == -n
  {
    var m := if n < 0 then -n else n;
    DigitsDenote(m);
    DigitsNoLeadingZero(m);
    if n < 0 { assert Dec(n)[1..] == Digits(-n); }
  }

  function Pow10(k: nat): (r: nat)
    ensures r > 0
  {
    if k == 0 then 1 else 10 * Pow10(k - 1)
  }

  lemma {:induction false} DigitsLength(n: nat, k: nat)
    requires n < Pow10(k)
    ensures |Digits(n)| <= Max1(k)
  {
    if n >= 10 { DigitsLength(n / 10, k - 1); }
  }

  function Max1(k: nat): nat { if k == 0 then 1 else k }

  lemma DecLength(n: int32)
    ensures |Dec(n)| <= 11
  {
    assert Pow10(10) == 10_000_000_000 by {
      assert Pow10(5) == 100_000;
      assert Pow10(6) == 1_000_000 && Pow10(7) == 10_000_000;
      assert Pow10(8) == 100_000_000 && Pow10(9) == 1_000_000_000;
    }
    var k: int := n;
    DigitsLength(if k < 0 then -k else k, 10);
  }
}
