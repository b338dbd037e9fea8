/** The characters of a JSON string as section 7 of RFC 8259 writes them, and the bytes they stand for:
    UTF-8 as section 3 of RFC 3629 reads it, surrogate pairs as section 2.1 of RFC 2781 splits them. */
module Characters {
  import opened Bytes

  datatype Piece =
    | Plain(b: byte)
    | Short(b: byte)
    | Code(digits: bytes)
    | Pair(high: bytes, low: bytes)

  function Render(x: Piece): bytes {
    match x
    case Plain(b) => [b]
    case Short(b) => [BACKSLASH, b]
    case Code(digits) => [BACKSLASH, 117] + digits
    case Pair(high, low) => [BACKSLASH, 117] + high + [BACKSLASH, 117] + low
  }

  /** The pieces from index `i` on, as written. */
  function RenderFrom(xs: seq<Piece>, i: nat): bytes
    requires i <= |xs|
    decreases |xs| - i
  {
    if i == |xs| then [] else Render(xs[i]) + RenderFrom(xs, i + 1)
  }

  // ----- Hexadecimal numbers -----

  predicate IsHexDigit(b: byte) {
    var n := b as int;
    '0' as int <= n <= '9' as int || 'A' as int <= n <= 'F' as int || 'a' as int <= n <= 'f' as int
  }

  function HexDigit(b: byte): nat
    requires IsHexDigit(b)
  {
    var n := b as int;
    if n <= '9' as int then n - '0' as int
    else if n <= 'F' as int then 10 + n - 'A' as int
    else 10 + n - 'a' as int
  }

  predicate IsHex(s: bytes) { forall i :: 0 <= i < |s| ==> IsHexDigit(s[i]) }

  /** The number hexadecimal digits denote, most significant digit first. */
  function HexNumber(s: bytes): nat
    requires IsHex(s)
  {
    if s == [] then 0 else assert IsHexDigit(s[|s| - 1]); 16 * HexNumber(s[..|s| - 1]) + HexDigit(s[|s| - 1])
  }

  // ----- UTF-8 -----

  predicate Trails(b: byte) { 0x80 <= b <= 0xBF }

  function Payload(b: byte): int { b as int - 0x80 }

  /** `s` is the shortest UTF-8 form of `code`. */
  predicate Utf8Reads(s: bytes, code: nat) {
    if |s| == 1 then s[0] < 0x80 && code == s[0] as int
    else if |s| == 2 then
      0xC0 <= s[0] <= 0xDF && Trails(s[1]) && 0x80 <= code == (s[0] as int - 0xC0) * 0x40 + Payload(s[1])
    else if |s| == 3 then
      && 0xE0 <= s[0] <= 0xEF && Trails(s[1]) && Trails(s[2])
      && 0x800 <= code == (s[0] as int - 0xE0) * 0x1000 + Payload(s[1]) * 0x40 + Payload(s[2])
    else
      && |s| == 4 && 0xF0 <= s[0] <= 0xF7 && Trails(s[1]) && Trails(s[2]) && Trails(s[3])
      && 0x10000 <= code
         == (s[0] as int - 0xF0) * 0x40000 + Payload(s[1]) * 0x1000 + Payload(s[2]) * 0x40 + Payload(s[3])
  }

  // ----- What a piece stands for -----

  /** `b` after a backslash stands for `c`. */
  predicate Escaped(b: byte, c: byte) {
    var n, m := b as int, c as int;
    || ((n == '"' as int || n == '\\' as int || n == '/' as int) && m == n)
    || (n == 'b' as int && m == 8) || (n == 'f' as int && m == 12) || (n == 'n' as int && m == '\n' as int)
    || (n == 'r' as int && m == '\r' as int) || (n == 't' as int && m == '\t' as int)
  }

  predicate Surrogate(n: nat) { 0xD800 <= n <= 0xDFFF }

  /** `high` and `low` are the surrogates of `code`. */
  predicate Surrogates(code: nat, high: nat, low: nat) {
    && 0x10000 <= code <= 0x10FFFF
    && high == 0xD800 + (code - 0x10000) / 0x400 && low == 0xDC00 + (code - 0x10000) % 0x400
  }

  /** The piece is written as the RFC has it and stands for the bytes `s`; raw bytes stand for themselves. */
  ghost predicate Means(x: Piece, s: bytes) {
    match x
    case Plain(b) => b as int >= ' ' as int && b as int != '"' as int && b as int != '\\' as int && s == [b]
    case Short(b) => |s| == 1 && Escaped(b, s[0])
    case Code(digits) =>
      |digits| == 4 && IsHex(digits) && !Surrogate(HexNumber(digits)) && Utf8Reads(s, HexNumber(digits))
    case Pair(high, low) =>
      && |high| == |low| == 4 && IsHex(high) && IsHex(low)
      && exists code :: Surrogates(code, HexNumber(high), HexNumber(low)) && Utf8Reads(s, code)
  }

  /** What a parser may take beyond that: any raw byte but a backslash, and NUL for four bytes that are
      no hexadecimal number. */
  ghost predicate LooselyMeans(x: Piece, s: bytes) {
    || Means(x, s)
    || (x.Plain? && x.b as int != '\\' as int && s == [x.b])
    || (x.Code? && |x.digits| == 4 && !IsHex(x.digits) && s == [0])
  }

  ghost predicate AllMean(xs: seq<Piece>, parts: seq<bytes>) {
    |parts| == |xs| && forall i :: 0 <= i < |xs| ==> Means(xs[i], parts[i])
  }

  ghost predicate AllLooselyMean(xs: seq<Piece>, parts: seq<bytes>) {
    |parts| == |xs| && forall i :: 0 <= i < |xs| ==> LooselyMeans(xs[i], parts[i])
  }

  /** The parts from index `i` on, one after the other. */
  function Joined(parts: seq<bytes>, i: nat): bytes
    requires i <= |parts|
    decreases |parts| - i
  {
    if i == |parts| then [] else parts[i] + Joined(parts, i + 1)
  }
}
