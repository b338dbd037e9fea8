/** Numbers as section 6 of RFC 8259 writes them, and the C library's `strtod`, which reads them. */
module Numerals {
  import opened Bytes
  import opened Json
  import opened Decimal

  /** How many bytes it consumed and the number it read. */
  type Strtod = f: bytes -> (nat, real) | forall t: bytes :: f(t).0 <= |t|
    witness (t: bytes) => (0, 0.0)

  datatype Exponent = Exponent(mark: byte, sign: Option<byte>, digits: bytes)

  datatype Numeral = Numeral(negative: bool, whole: bytes, fraction: Option<bytes>, exponent: Option<Exponent>)

  predicate SomeDigits(s: bytes) { s != [] && AllDigits(s) }

  predicate WellFormed(x: Numeral) {
    && SomeDigits(x.whole) && (|x.whole| == 1 || x.whole[0] as int != '0' as int)
    && (x.fraction.Some? ==> SomeDigits(x.fraction.value))
    && (x.exponent.Some? ==> WellFormedExponent(x.exponent.value))
  }

  predicate WellFormedExponent(x: Exponent) {
    && (x.mark as int == 'e' as int || x.mark as int == 'E' as int) && SomeDigits(x.digits)
    && (x.sign.Some? ==> x.sign.value as int == '+' as int || x.sign.value as int == '-' as int)
  }

  function Written(x: Numeral): bytes {
    (if x.negative then [MINUS] else []) + x.whole
    + (if x.fraction.Some? then [DOT] + x.fraction.value else [])
    + (if x.exponent.Some? then WrittenExponent(x.exponent.value) else [])
  }

  function WrittenExponent(x: Exponent): bytes {
    [x.mark] + (if x.sign.Some? then [x.sign.value] else []) + x.digits
  }

  /** The number a numeral denotes. */
  function Amount(x: Numeral): real
    requires WellFormed(x)
  {
    var whole := ValueOf(x.whole) as real;
    var part := if x.fraction.None? then 0.0
                else ValueOf(x.fraction.value) as real / Pow10(|x.fraction.value|) as real;
    var size := (whole + part) * if x.exponent.None? then 1.0 else Scale(x.exponent.value);
    if x.negative then -size else size
  }

  function Scale(x: Exponent): real
    requires WellFormedExponent(x)
  {
    var power := Pow10(ValueOf(x.digits)) as real;
    if x.sign.Some? && x.sign.value as int == '-' as int then 1.0 / power else power
  }

  /** The text is a numeral for the integer `n`. */
  ghost predicate Says(text: bytes, n: int32) {
    exists x :: WellFormed(x) && Written(x) == text && Amount(x) == n as real
  }

  /** `strtod` reads every numeral for a 32-bit integer whole and exactly. */
  ghost predicate ReadsIntegers(strtod: Strtod) {
    forall text: bytes, n: int32 :: Says(text, n) ==> strtod(text) == (|text|, n as real)
  }

  /** What `%d` writes is a numeral for that integer. */
  lemma DecSays(n: int32)
    ensures Says(Dec(n), n)
  {
    var m: int := n;
    DecDenotes(m);
    var x := Numeral(m < 0, if m < 0 then Dec(m)[1..] else Dec(m), None, None);
    assert Written(x) == Dec(m);
    assert Amount(x) == m as real;
  }

  predicate NumeralByte(b: byte) {
    var n := b as int;
    IsDigit(b) || n == '+' as int || n == '-' as int || n == 'e' as int || n == 'E' as int || n == '.' as int
  }

  predicate NumeralBytes(s: bytes) { forall i :: 0 <= i < |s| ==> NumeralByte(s[i]) }

  lemma Both(s: bytes, t: bytes)
    requires NumeralBytes(s) && NumeralBytes(t)
    ensures NumeralBytes(s + t)
  {
  }

  lemma DigitBytes(s: bytes)
    requires AllDigits(s)
    ensures NumeralBytes(s)
  {
  }

  /** A numeral starts with a minus sign or a digit and has no bytes but those of numbers. */
  lemma NumeralStarts(text: bytes, n: int32)
    requires Says(text, n)
    ensures text != [] && (text[0] == MINUS || IsDigit(text[0])) && NumeralBytes(text)
  {
    var x :| WellFormed(x) && Written(x) == text && Amount(x) == n as real;
    hide Amount, AllDigits, NumeralBytes;
    var sign := if x.negative then [MINUS] else [];
    var part := if x.fraction.Some? then [DOT] + x.fraction.value else [];
    var power := if x.exponent.Some? then WrittenExponent(x.exponent.value) else [];
    DigitBytes(x.whole);
    FewBytes();
    assert IsDigit(x.whole[0]) by { FirstDigit(x.whole); }
    if x.fraction.Some? {
      DigitBytes(x.fraction.value);
      Both([DOT], x.fraction.value);
    }
    if x.exponent.Some? { ExponentBytes(x.exponent.value); }
    Both(sign, x.whole);
    Both(sign + x.whole, part);
    Both(sign + x.whole + part, power);
  }

  lemma FewBytes()
    ensures NumeralBytes([]) && NumeralBytes([MINUS]) && NumeralBytes([DOT])
  {
  }

  lemma FirstDigit(s: bytes)
    requires SomeDigits(s)
    ensures IsDigit(s[0])
  {
  }

  lemma ExponentBytes(x: Exponent)
    requires WellFormedExponent(x)
    ensures NumeralBytes(WrittenExponent(x))
  {
    DigitBytes(x.digits);
    var sign := if x.sign.Some? then [x.sign.value] else [];
    Both([x.mark], sign);
    Both([x.mark] + sign, x.digits);
  }

  /** The integer `n` is `d` cut off towards zero, or the nearest 32-bit limit. */
  predicate CutTo(d: real, n: int32) {
    if d >= INT_MAX as real then n == INT_MAX
    else if d <= INT_MIN as real then n == INT_MIN
    else if d >= 0.0 then n as real <= d < n as real + 1.0
    else n as real - 1.0 < d <= n as real
  }
}
