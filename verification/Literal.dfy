/** String literals as the parser reads them: a first pass that finds the closing quote and
    sizes the output, and a second pass that decodes (parse_string, utf16_literal_to_utf8). */
module Literal {
  import opened Bytes
  import opened Json
  import opened Characters

  /** The first pass: the index of the closing quote, a backslash hiding the byte after it. */
  function ScanEnd(c: bytes, p: nat): (r: Option<nat>)
    requires p <= |c|
    ensures r.Some? ==> p <= r.value < |c| && c[r.value] == QUOTE
    decreases |c| - p
  {
    if p == |c| then None
    else if c[p] == QUOTE then Some(p)
    else if c[p] == BACKSLASH then
      if p + 1 >= |c| then None else ScanEnd(c, p + 2)
    else ScanEnd(c, p + 1)
  }

  /** How many backslashes the first pass takes as escapes before it stops at `e`. */
  function Skipped(c: bytes, p: nat, e: nat): nat
    requires p <= |c| && ScanEnd(c, p) == Some(e)
    decreases |c| - p
  {
    if c[p] == QUOTE then 0
    else if c[p] == BACKSLASH then 1 + Skipped(c, p + 2, e)
    else Skipped(c, p + 1, e)
  }

  function HexValue(b: byte): (r: Option<nat>)
    ensures r.Some? ==> r.value < 16
  {
    if 48 <= b <= 57 then Some((b - 48) as nat)
    else if 65 <= b <= 70 then Some((b - 55) as nat)
    else if 97 <= b <= 102 then Some((b - 87) as nat)
    else None
  }

  /** parse_hex4: 0 when one of the four bytes is no hexadecimal digit. */
  function Hex4(c: bytes, p: nat): (r: nat)
    requires p + 4 <= |c|
    ensures r < 0x10000
  {
    var a, b := HexValue(c[p]), HexValue(c[p + 1]);
    var d, e := HexValue(c[p + 2]), HexValue(c[p + 3]);
    if a.None? || b.None? || d.None? || e.None? then 0
    else ((a.value * 16 + b.value) * 16 + d.value) * 16 + e.value
  }

  /** The UTF-8 form of a code point, section 3 of RFC 3629. */
  function Utf8(code: nat): (r: bytes)
    requires code <= 0x10FFFF
    ensures 1 <= |r| <= 4
  {
    if code < 0x80 then [code as byte]
    else if code < 0x800 then [(0xC0 + code / 0x40) as byte, (0x80 + code % 0x40) as byte]
    else if code < 0x10000 then
      [(0xE0 + code / 0x1000) as byte, (0x80 + code / 0x40 % 0x40) as byte, (0x80 + code % 0x40) as byte]
    else
      [(0xF0 + code / 0x40000) as byte, (0x80 + code / 0x1000 % 0x40) as byte,
       (0x80 + code / 0x40 % 0x40) as byte, (0x80 + code % 0x40) as byte]
  }

  /** The scalar value of a surrogate pair, section 7 of RFC 8259. */
  function Paired(high: nat, low: nat): (r: nat)
    requires 0xD800 <= high <= 0xDBFF && 0xDC00 <= low <= 0xDFFF
    ensures 0x10000 <= r <= 0x10FFFF
  {
    0x10000 + (high - 0xD800) * 0x400 + (low - 0xDC00)
  }

  /** One `\u` sequence: how many input bytes it takes and which code point it denotes. */
  datatype Unit = Unit(length: nat, code: nat)

  function Utf16(c: bytes, p: nat, e: nat): (r: Option<Unit>)
    requires p <= e <= |c|
    ensures r.Some? ==> r.value.code <= 0x10FFFF && p + r.value.length <= e
    ensures r.Some? ==> r.value.length == if r.value.code < 0x10000 then 6 else 12
  {
    if e - p < 6 then None
    else
      var first := Hex4(c, p + 2);
      if 0xDC00 <= first <= 0xDFFF then None
      else if 0xD800 <= first <= 0xDBFF then
        if e - (p + 6) < 6 || c[p + 6] != BACKSLASH || c[p + 7] != 117 then None
        else
          var second := Hex4(c, p + 8);
          if second < 0xDC00 || second > 0xDFFF then None
          else Some(Unit(12, Paired(first, second)))
      else Some(Unit(6, first))
  }

  /** What a two-byte escape stands for. */
  function ShortEscape(b: byte): Option<byte> {
    if b == 98 then Some(8)
    else if b == 102 then Some(12)
    else if b == 110 then Some(10)
    else if b == 114 then Some(13)
    else if b == 116 then Some(9)
    else if b == QUOTE || b == BACKSLASH || b == SLASH then Some(b)
    else None
  }

  /** What one sequence of the literal writes and how many input bytes it takes. */
  datatype Sequence = Sequence(written: bytes, length: nat)

  function SequenceAt(c: bytes, p: nat, e: nat): (r: Option<Sequence>)
    requires p < e < |c|
    ensures r.Some? ==> r.value.length > 0 && |r.value.written| > 0
  {
    if c[p] != BACKSLASH then Some(Sequence([c[p]], 1))
    else if c[p + 1] == 117 then
      match Utf16(c, p, e)
      case None => None
      case Some(u) => Some(Sequence(Utf8(u.code), u.length))
    else
      match ShortEscape(c[p + 1])
      case None => None
      case Some(b) => Some(Sequence([b], 2))
  }

  /** The second pass from `p` up to the closing quote at `e`. */
  function Decode(c: bytes, p: nat, e: nat): (r: Option<bytes>)
    requires e < |c|
    decreases if p < e then e - p else 0
  {
    if p >= e then Some([])
    else
      match SequenceAt(c, p, e)
      case None => None
      case Some(s) => Prepend(s.written, Decode(c, p + s.length, e))
  }

  function Prepend(s: bytes, rest: Option<bytes>): Option<bytes> {
    match rest
    case None => None
    case Some(t) => Some(s + t)
  }

  lemma PrependParts(s: bytes, t: bytes, rest: Option<bytes>)
    ensures Prepend([], rest) == rest
    ensures Prepend(s, Prepend(t, rest)) == Prepend(s + t, rest)
  {
    if rest.Some? {
      assert [] + rest.value == rest.value;
      assert s + (t + rest.value) == s + t + rest.value;
    }
  }

  /** The C string that bytes with a NUL among them amount to. */
  function Cut(s: bytes): (r: cstring)
    ensures r <= s && (|r| < |s| ==> s[|r|] == 0)
    ensures 0 !in s ==> r == s
  {
    if s == [] || s[0] == 0 then [] else [s[0]] + Cut(s[1..])
  }

  // ----- The second pass never outgrows the first pass's estimate -----

  /** The bytes the estimate still allows when the second pass is at `p` and the first pass
      has a boundary at `q`, which is `p` or one further when the passes split backslashes differently. */
  ghost function Room(c: bytes, p: nat, q: nat, e: nat): int
    requires q <= |c| && ScanEnd(c, q) == Some(e)
  {
    e - p - Skipped(c, q, e)
  }

  lemma {:induction false} SkippedBound(c: bytes, q: nat, e: nat)
    requires q <= |c| && ScanEnd(c, q) == Some(e)
    ensures Skipped(c, q, e) * 2 <= e - q
    decreases |c| - q
  {
    if c[q] == BACKSLASH {
      SkippedBound(c, q + 2, e);
    } else if c[q] != QUOTE {
      SkippedBound(c, q + 1, e);
    }
  }

  /** Moving the second pass on by `k` bytes gives up at least half as many bytes of room. */
  lemma {:induction false} Advance(c: bytes, p: nat, q: nat, e: nat, k: nat) returns (q': nat)
    requires p <= q <= p + 1 && q <= |c| && ScanEnd(c, q) == Some(e) && p + k <= e
    ensures p + k <= q' <= p + k + 1 && q' <= |c| && ScanEnd(c, q') == Some(e)
    ensures 2 * Room(c, p + k, q', e) - (q' - p - k) + k <= 2 * Room(c, p, q, e) - (q - p)
    decreases k
  {
    if k == 0 {
      q' := q;
    } else if q == p + 1 {
      q' := Advance(c, p + 1, q, e, k - 1);
    } else if c[p] == BACKSLASH {
      q' := Advance(c, p + 1, p + 2, e, k - 1);
    } else {
      q' := Advance(c, p + 1, p + 1, e, k - 1);
    }
  }

  /** One sequence writes no more than the room it gives up. */
  lemma SequenceFits(c: bytes, p: nat, q: nat, e: nat) returns (q': nat)
    requires p < e && p <= q <= p + 1 && q <= |c| && ScanEnd(c, q) == Some(e) && SequenceAt(c, p, e).Some?
    ensures var s := SequenceAt(c, p, e).value; var p' := p + s.length;
      if p' <= e then
        && p' <= q' <= p' + 1 && q' <= |c| && ScanEnd(c, q') == Some(e)
        && |s.written| + Room(c, p', q', e) <= Room(c, p, q, e)
      else |s.written| <= Room(c, p, q, e)
  {
    var s := SequenceAt(c, p, e).value;
    if c[p] != BACKSLASH {
      q' := if q == p then p + 1 else q;
    } else if p + s.length <= e {
      q' := Advance(c, p, q, e, s.length);
    } else {
      q' := q;
      assert q == e;
    }
  }

  /** Whatever the literal, well formed or not, decoding writes no more bytes than the first
      pass counted, even when the two passes split its backslashes differently. */
  lemma {:induction false} DecodeFits(c: bytes, p: nat, q: nat, e: nat)
    requires p <= e && p <= q <= p + 1 && q <= |c| && ScanEnd(c, q) == Some(e)
    ensures Decode(c, p, e).Some? ==> |Decode(c, p, e).value| <= Room(c, p, q, e)
    decreases |c| - p
  {
    SkippedBound(c, q, e);
    if p < e && SequenceAt(c, p, e).Some? {
      var p' := p + SequenceAt(c, p, e).value.length;
      var q' := SequenceFits(c, p, q, e);
      if p' <= e { DecodeFits(c, p', q', e); }
    }
  }

  // ----- Against the RFCs -----

  lemma HexExact(b: byte)
    ensures HexValue(b) == if IsHexDigit(b) then Some(HexDigit(b)) else None
  {
  }

  lemma Hex4Exact(digits: bytes)
    requires |digits| == 4
    ensures Hex4(digits, 0) == if IsHex(digits) then HexNumber(digits) else 0
  {
    HexExact(digits[0]);
    HexExact(digits[1]);
    HexExact(digits[2]);
    HexExact(digits[3]);
    if IsHex(digits) {
      var a, b, c := digits[..1], digits[..2], digits[..3];
      assert c[..2] == b && b[..1] == a && a[..0] == [] && c[2] == digits[2] && b[1] == digits[1] && a[0] == digits[0];
      assert HexNumber(a) == HexDigit(digits[0]);
      assert HexNumber(b) == 16 * HexNumber(a) + HexDigit(digits[1]);
      assert HexNumber(c) == 16 * HexNumber(b) + HexDigit(digits[2]);
    }
  }

  lemma Divided(n: nat, a: nat, b: nat)
    requires n == a * 0x40 + b && b < 0x40
    ensures n / 0x40 == a && n % 0x40 == b
  {
  }

  lemma Utf8Forms(code: nat)
    requires code <= 0x10FFFF
    ensures Utf8Reads(Utf8(code), code)
  {
    var a, b, c := code / 0x40, code / 0x1000, code / 0x40000;
    assert b == a / 0x40 && c == b / 0x40;
    assert code == a * 0x40 + code % 0x40 && a == b * 0x40 + a % 0x40 && b == c * 0x40 + b % 0x40;
  }

  lemma ThreeUnique(code: nat, s: bytes)
    requires |s| == 3 && Utf8Reads(s, code)
    ensures code <= 0x10FFFF && s == Utf8(code)
  {
    var a := (s[0] as int - 0xE0) * 0x40 + Payload(s[1]);
    Divided(code, a, Payload(s[2]));
    Divided(a, s[0] as int - 0xE0, Payload(s[1]));
  }

  lemma FourUnique(code: nat, s: bytes)
    requires code <= 0x10FFFF && |s| == 4 && Utf8Reads(s, code)
    ensures s == Utf8(code)
  {
    var b := (s[0] as int - 0xF0) * 0x40 + Payload(s[1]);
    var a := b * 0x40 + Payload(s[2]);
    Divided(code, a, Payload(s[3]));
    Divided(a, b, Payload(s[2]));
    Divided(b, s[0] as int - 0xF0, Payload(s[1]));
  }

  lemma Utf8Unique(code: nat, s: bytes)
    requires code <= 0x10FFFF && Utf8Reads(s, code)
    ensures s == Utf8(code)
  {
    if |s| == 2 {
      Divided(code, s[0] as int - 0xC0, Payload(s[1]));
    } else if |s| == 3 {
      ThreeUnique(code, s);
    } else if |s| == 4 {
      FourUnique(code, s);
    }
  }

  /** The encoder writes the one UTF-8 form of every code point. */
  lemma Utf8Exact(code: nat, s: bytes)
    requires code <= 0x10FFFF
    ensures Utf8Reads(s, code) <==> s == Utf8(code)
  {
    hide Utf8, Utf8Reads;
    Utf8Forms(code);
    if Utf8Reads(s, code) { Utf8Unique(code, s); }
  }

  lemma PairedExact(code: nat, high: nat, low: nat)
    ensures Surrogates(code, high, low) <==>
      0xD800 <= high <= 0xDBFF && 0xDC00 <= low <= 0xDFFF && code == Paired(high, low)
  {
  }

  lemma ShortExact(b: byte, c: byte)
    ensures ShortEscape(b) == Some(c) <==> Escaped(b, c)
  {
  }

  // ----- Literals as the RFC writes them -----

  lemma {:induction false} ScanPlain(c: bytes, p: nat, n: nat)
    requires p + n < |c| && forall i :: p <= i < p + n ==> c[i] != QUOTE && c[i] != BACKSLASH
    ensures ScanEnd(c, p) == ScanEnd(c, p + n)
    decreases n
  {
    if n > 0 { ScanPlain(c, p + 1, n - 1); }
  }

  lemma Hex4At(c: bytes, p: nat, digits: bytes)
    requires |digits| == 4 && At(c, p, digits)
    ensures Hex4(c, p) == Hex4(digits, 0)
    ensures IsHex(digits) ==> forall i :: p <= i < p + 4 ==> c[i] != QUOTE && c[i] != BACKSLASH
  {
    AtIndex(c, p, digits, 0);
    AtIndex(c, p, digits, 1);
    AtIndex(c, p, digits, 2);
    AtIndex(c, p, digits, 3);
  }

  /** Where the parts of a `\u` sequence lie. */
  lemma DigitsAt(c: bytes, p: nat, digits: bytes)
    requires |digits| == 4 && At(c, p, [BACKSLASH, 117] + digits)
    ensures c[p] == BACKSLASH && c[p + 1] == 117 && At(c, p + 2, digits)
  {
    AtConcat(c, p, [BACKSLASH, 117], digits);
    AtIndex(c, p, [BACKSLASH, 117], 0);
    AtIndex(c, p, [BACKSLASH, 117], 1);
  }

  lemma PairAt(c: bytes, p: nat, high: bytes, low: bytes)
    requires |high| == 4 && |low| == 4
    ensures At(c, p, Render(Pair(high, low))) <==>
      At(c, p, [BACKSLASH, 117] + high) && At(c, p + 6, [BACKSLASH, 117] + low)
  {
    AtConcat(c, p, [BACKSLASH, 117] + high, [BACKSLASH, 117] + low);
    assert Render(Pair(high, low)) == ([BACKSLASH, 117] + high) + ([BACKSLASH, 117] + low);
  }

  lemma ScanSequence(c: bytes, p: nat, digits: bytes)
    requires |digits| == 4 && IsHex(digits) && At(c, p, [BACKSLASH, 117] + digits) && p + 6 < |c|
    ensures ScanEnd(c, p) == ScanEnd(c, p + 6)
  {
    DigitsAt(c, p, digits);
    Hex4At(c, p + 2, digits);
    ScanPlain(c, p + 2, 4);
  }

  lemma ScanPiece(c: bytes, p: nat, x: Piece, s: bytes)
    requires Means(x, s) && At(c, p, Render(x)) && p + |Render(x)| < |c|
    ensures ScanEnd(c, p) == ScanEnd(c, p + |Render(x)|)
  {
    hide HexNumber, Utf8Reads;
    match x
    case Plain(b) =>
      AtIndex(c, p, Render(x), 0);
    case Short(b) =>
      AtIndex(c, p, Render(x), 0);
    case Code(digits) =>
      ScanSequence(c, p, digits);
    case Pair(high, low) =>
      PairAt(c, p, high, low);
      ScanSequence(c, p, high);
      ScanSequence(c, p + 6, low);
  }

  lemma CodeSequence(c: bytes, p: nat, e: nat, digits: bytes, s: bytes)
    requires Means(Code(digits), s) && At(c, p, Render(Code(digits))) && p + 6 <= e < |c|
    ensures SequenceAt(c, p, e) == Some(Sequence(s, 6))
  {
    hide HexNumber, Utf8Reads, Utf8;
    DigitsAt(c, p, digits);
    Hex4At(c, p + 2, digits);
    Hex4Exact(digits);
    Utf8Exact(Hex4(digits, 0), s);
  }

  lemma PairSequence(c: bytes, p: nat, e: nat, high: bytes, low: bytes, s: bytes)
    requires Means(Pair(high, low), s) && At(c, p, Render(Pair(high, low))) && p + 12 <= e < |c|
    ensures SequenceAt(c, p, e) == Some(Sequence(s, 12))
  {
    hide HexNumber, Utf8Reads, Utf8, Surrogates, Paired, Render;
    PairAt(c, p, high, low);
    DigitsAt(c, p, high);
    Hex4At(c, p + 2, high);
    Hex4Exact(high);
    DigitsAt(c, p + 6, low);
    Hex4At(c, p + 8, low);
    Hex4Exact(low);
    var code :| Surrogates(code, HexNumber(high), HexNumber(low)) && Utf8Reads(s, code);
    PairedExact(code, HexNumber(high), HexNumber(low));
    Utf8Exact(code, s);
  }

  lemma PieceSequence(c: bytes, p: nat, e: nat, x: Piece, s: bytes)
    requires Means(x, s) && At(c, p, Render(x)) && p + |Render(x)| <= e < |c|
    ensures SequenceAt(c, p, e) == Some(Sequence(s, |Render(x)|))
  {
    hide HexNumber, Utf8Reads, Utf8, Surrogates, Paired;
    match x
    case Plain(b) =>
      AtIndex(c, p, Render(x), 0);
    case Short(b) =>
      AtIndex(c, p, Render(x), 0);
      AtIndex(c, p, Render(x), 1);
      ShortExact(b, s[0]);
      assert s == [s[0]] && b != 117;
    case Code(digits) =>
      CodeSequence(c, p, e, digits, s);
    case Pair(high, low) =>
      PairSequence(c, p, e, high, low, s);
  }

  lemma {:induction false} ScanWritten(c: bytes, p: nat, e: nat, xs: seq<Piece>, parts: seq<bytes>, i: nat)
    requires AllMean(xs, parts) && i <= |xs| && At(c, p, RenderFrom(xs, i))
    requires p + |RenderFrom(xs, i)| == e < |c| && c[e] == QUOTE
    ensures ScanEnd(c, p) == Some(e)
    decreases |xs| - i
  {
    hide Render, Means, At;
    if i < |xs| {
      var piece, rest := Render(xs[i]), RenderFrom(xs, i + 1);
      AtConcat(c, p, piece, rest);
      hide ScanEnd;
      ScanPiece(c, p, xs[i], parts[i]);
      ScanWritten(c, p + |piece|, e, xs, parts, i + 1);
    }
  }

  lemma {:induction false} DecodeWritten(c: bytes, p: nat, e: nat, xs: seq<Piece>, parts: seq<bytes>, i: nat)
    requires AllMean(xs, parts) && i <= |xs| && At(c, p, RenderFrom(xs, i))
    requires p + |RenderFrom(xs, i)| == e < |c|
    ensures Decode(c, p, e) == Some(Joined(parts, i))
    decreases |xs| - i
  {
    hide Render, Means, SequenceAt, At;
    if i < |xs| {
      var piece, rest := Render(xs[i]), RenderFrom(xs, i + 1);
      AtConcat(c, p, piece, rest);
      PieceSequence(c, p, e, xs[i], parts[i]);
      DecodeWritten(c, p + |piece|, e, xs, parts, i + 1);
    }
  }

  /** Both passes agree on a literal that is written as the RFC has it, and the output is the bytes its
      characters stand for. */
  lemma WellFormedLiteral(c: bytes, p: nat, e: nat, xs: seq<Piece>, parts: seq<bytes>)
    requires AllMean(xs, parts) && At(c, p, RenderFrom(xs, 0))
    requires p + |RenderFrom(xs, 0)| == e < |c| && c[e] == QUOTE
    ensures ScanEnd(c, p) == Some(e) && Decode(c, p, e) == Some(Joined(parts, 0))
  {
    ScanWritten(c, p, e, xs, parts, 0);
    DecodeWritten(c, p, e, xs, parts, 0);
  }

  // ----- Whatever is decoded -----

  lemma UnitPiece(c: bytes, p: nat, e: nat) returns (x: Piece)
    requires p < e < |c| && c[p] == BACKSLASH && c[p + 1] == 117 && Utf16(c, p, e).Some?
    ensures LooselyMeans(x, Utf8(Utf16(c, p, e).value.code))
    ensures At(c, p, Render(x)) && |Render(x)| == Utf16(c, p, e).value.length
  {
    hide HexNumber, Utf8Reads, Utf8, Surrogates, Paired, Hex4;
    var u := Utf16(c, p, e).value;
    var first := c[p + 2..p + 6];
    Hex4At(c, p + 2, first);
    Hex4Exact(first);
    Utf8Exact(u.code, Utf8(u.code));
    assert At(c, p, [BACKSLASH, 117]);
    AtConcat(c, p, [BACKSLASH, 117], first);
    if u.length == 6 {
      x := Code(first);
      NulForm();
    } else {
      var second := c[p + 8..p + 12];
      Hex4At(c, p + 8, second);
      Hex4Exact(second);
      assert At(c, p + 6, [BACKSLASH, 117]);
      AtConcat(c, p + 6, [BACKSLASH, 117], second);
      PairAt(c, p, first, second);
      PairedExact(u.code, Hex4(first, 0), Hex4(second, 0));
      x := Pair(first, second);
    }
  }

  lemma NulForm()
    ensures Utf8(0) == [0]
  {
  }

  lemma SequencePiece(c: bytes, p: nat, e: nat) returns (x: Piece)
    requires p < e < |c| && SequenceAt(c, p, e).Some?
    ensures var s := SequenceAt(c, p, e).value;
      && LooselyMeans(x, s.written) && At(c, p, Render(x)) && |Render(x)| == s.length
      && (p + s.length <= e || (p + s.length == e + 1 && c[e - 1] == BACKSLASH))
  {
    if c[p] != BACKSLASH {
      x := Plain(c[p]);
    } else if c[p + 1] == 117 {
      x := UnitPiece(c, p, e);
    } else {
      x := Short(c[p + 1]);
      ShortExact(c[p + 1], ShortEscape(c[p + 1]).value);
    }
  }

  /** Every literal that is decoded is a sequence of such pieces, loosely read; `shared` says that the
      last of them takes in the closing quote. */
  lemma {:induction false} DecodedPieces(c: bytes, p: nat, e: nat)
    returns (xs: seq<Piece>, parts: seq<bytes>, shared: bool)
    requires p <= e < |c| && Decode(c, p, e).Some?
    ensures AllLooselyMean(xs, parts) && Joined(parts, 0) == Decode(c, p, e).value
    ensures At(c, p, RenderFrom(xs, 0)) && p + |RenderFrom(xs, 0)| == if shared then e + 1 else e
    decreases e - p
  {
    hide LooselyMeans, SequenceAt, Render, At;
    if p == e {
      xs, parts, shared := [], [], false;
      AtNothing(c, p);
    } else {
      var s := SequenceAt(c, p, e).value;
      var x := SequencePiece(c, p, e);
      var xs', parts', shared' := [], [], true;
      if p + s.length <= e {
        xs', parts', shared' := DecodedPieces(c, p + s.length, e);
      } else {
        AtNothing(c, p + s.length);
      }
      xs, parts, shared := [x] + xs', [s.written] + parts', shared';
      RenderShift(x, xs', 0);
      JoinedShift(s.written, parts', 0);
      AtConcat(c, p, Render(x), RenderFrom(xs', 0));
    }
  }

  lemma AtNothing(c: bytes, p: nat)
    requires p <= |c|
    ensures At(c, p, [])
  {
  }

  lemma {:induction false} RenderShift(x: Piece, xs: seq<Piece>, i: nat)
    requires i <= |xs|
    ensures RenderFrom([x] + xs, i + 1) == RenderFrom(xs, i)
    decreases |xs| - i
  {
    hide Render;
    if i < |xs| {
      RenderShift(x, xs, i + 1);
      assert ([x] + xs)[i + 1] == xs[i];
    }
  }

  lemma {:induction false} JoinedShift(s: bytes, parts: seq<bytes>, i: nat)
    requires i <= |parts|
    ensures Joined([s] + parts, i + 1) == Joined(parts, i)
    decreases |parts| - i
  {
    if i < |parts| {
      assert ([s] + parts)[i + 1] == parts[i];
      JoinedShift(s, parts, i + 1);
    }
  }
}
