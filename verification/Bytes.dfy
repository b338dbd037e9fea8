/** Bytes, NUL-free C strings and the two string orders the JSON code uses. */
module Bytes {

  newtype byte = b: int | 0 <= b < 256
  type bytes = seq<byte>

  /** The text of a NUL-terminated C string, without its terminator. */
  type cstring = s: bytes | 0 !in s

  type int32 = n: int | -0x8000_0000 <= n <= 0x7FFF_FFFF
  const INT_MAX: int := 0x7FFF_FFFF
  const INT_MIN: int := -0x8000_0000

  const NUL: byte := 0
  const TAB: byte := 9
  const NEWLINE: byte := 10
  const RETURN: byte := 13
  const SPACE: byte := 32
  const QUOTE: byte := 34
  const COMMA: byte := 44
  const MINUS: byte := 45
  const DOT: byte := 46
  const SLASH: byte := 47
  const COLON: byte := 58
  const OPEN_BRACKET: byte := 91
  const BACKSLASH: byte := 92
  const CLOSE_BRACKET: byte := 93
  const OPEN_BRACE: byte := 123
  const CLOSE_BRACE: byte := 125
  const TILDE: byte := 126

  /** `t` occurs in `c` at offset `o`. */
  predicate At(c: bytes, o: nat, t: bytes) {
    o + |t| <= |c| && c[o..o + |t|] == t
  }

  lemma AtConcat(c: bytes, o: nat, s: bytes, t: bytes)
    ensures At(c, o, s + t) <==> At(c, o, s) && At(c, o + |s|, t)
  {
    if At(c, o, s + t) {
      assert c[o..o + |s|] == (s + t)[..|s|];
      assert c[o + |s|..o + |s| + |t|] == (s + t)[|s|..];
    }
    if At(c, o, s) && At(c, o + |s|, t) {
      assert c[o..o + |s + t|] == c[o..o + |s|] + c[o + |s|..o + |s| + |t|];
    }
  }

  lemma AtIndex(c: bytes, o: nat, t: bytes, i: nat)
    requires At(c, o, t) && i < |t|
    ensures o + i < |c| && c[o + i] == t[i]
  {
    assert c[o..o + |t|][i] == c[o + i];
  }

  /** The bytes of an ASCII text. */
  function Ascii(s: string): (r: bytes)
    ensures |r| == |s| && forall i :: 0 <= i < |s| ==> r[i] as int == s[i] as int % 256
  {
    seq(|s|, i requires 0 <= i < |s| => (s[i] as int % 256) as byte)
  }

  /** The bytes with names are the characters they are named after. */
  lemma ByteNames()
    ensures [NUL, TAB, NEWLINE, RETURN, SPACE] == Ascii("\0\t\n\r ")
    ensures [QUOTE, COMMA, MINUS, DOT, SLASH, COLON, TILDE] == Ascii("\",-./:~")
    ensures [OPEN_BRACKET, BACKSLASH, CLOSE_BRACKET, OPEN_BRACE, CLOSE_BRACE] == Ascii("[\\]{}")
  {
  }

  /** `tolower` in the C locale. */
  function ToLower(b: byte): byte {
    if 65 <= b <= 90 then b + 32 else b
  }

  lemma LowerCase(b: byte)
    ensures 'A' as int <= b as int <= 'Z' as int ==> ToLower(b) as int - 'a' as int == b as int - 'A' as int
    ensures !('A' as int <= b as int <= 'Z' as int) ==> ToLower(b) == b
  {
  }

  function Lower(s: bytes): (r: bytes)
    ensures |r| == |s|
    ensures forall i :: 0 <= i < |s| ==> r[i] == ToLower(s[i])
  {
    seq(|s|, i requires 0 <= i < |s| => ToLower(s[i]))
  }

  /** Lexicographic order on bytes, a proper prefix being smaller: the sign of `strcmp`. */
  predicate Less(s: bytes, t: bytes) {
    if t == [] then false
    else if s == [] then true
    else s[0] < t[0] || (s[0] == t[0] && Less(s[1..], t[1..]))
  }

  /** The first byte where two texts differ decides, and an end comes before every byte. */
  lemma {:induction false} LessExact(s: bytes, t: bytes)
    ensures Less(s, t) <==> s < t || exists k :: 0 <= k < |s| && k < |t| && s[..k] == t[..k] && s[k] < t[k]
  {
    if s != [] && t != [] && s[0] == t[0] {
      LessExact(s[1..], t[1..]);
      assert s == [s[0]] + s[1..] && t == [t[0]] + t[1..];
      assert s < t <==> s[1..] < t[1..];
      forall k | 0 < k <= |s| && k <= |t| ensures s[..k] == t[..k] <==> s[1..][..k - 1] == t[1..][..k - 1] {
        assert s[..k] == [s[0]] + s[1..][..k - 1] && t[..k] == [t[0]] + t[1..][..k - 1];
      }
      if k :| 0 <= k < |s[1..]| && k < |t[1..]| && s[1..][..k] == t[1..][..k] && s[1..][k] < t[1..][k] {
        assert s[..k + 1] == t[..k + 1] && s[k + 1] < t[k + 1];
      }
    } else if s != [] && t != [] {
      assert s[..0] == t[..0];
      assert !(s < t);
      forall k | 0 < k <= |s| && k <= |t| ensures s[..k] != t[..k] { assert s[..k][0] != t[..k][0]; }
    }
  }

  lemma {:induction false} LessIrreflexive(s: bytes)
    ensures !Less(s, s)
  {
    if s != [] { LessIrreflexive(s[1..]); }
  }

  lemma {:induction false} LessTransitive(s: bytes, t: bytes, u: bytes)
    requires Less(s, t) && Less(t, u)
    ensures Less(s, u)
  {
    if s != [] && s[0] == t[0] && t[0] == u[0] { LessTransitive(s[1..], t[1..], u[1..]); }
  }

  lemma {:induction false} LessTotal(s: bytes, t: bytes)
    ensures Less(s, t) || s == t || Less(t, s)
  {
    if s != [] && t != [] && s[0] == t[0] {
      LessTotal(s[1..], t[1..]);
      assert s == [s[0]] + s[1..] && t == [t[0]] + t[1..];
    }
  }
}
