/** The parser over a buffer whose offset and depth it moves, proved to compute `Grammar`. */
module Parser {
  import opened Bytes
  import opened Decimal
  import opened Json
  import opened Literal
  import opened Numerals
  import opened Grammar
  import ParserSafety
  import Text

  /** A list parsed after `done` was already collected. */
  ghost function Prefixed<T>(done: seq<T>, rest: Parsed<seq<T>>): Parsed<seq<T>> {
    match rest
    case Ok(more, next) => Ok(done + more, next)
    case Failed => Failed
    case Overran => Overran
  }

  lemma NothingBefore<T>(rest: Parsed<seq<T>>)
    ensures Prefixed([], rest) == rest
  {
    if rest.Ok? { assert [] + rest.value == rest.value; }
  }

  lemma OneMoreBefore<T>(done: seq<T>, x: T, rest: Parsed<seq<T>>)
    ensures Prefixed(done + [x], rest) == Prefixed(done, Prefixed([x], rest))
  {
    if rest.Ok? { assert done + [x] + rest.value == done + ([x] + rest.value); }
  }

  class ParseBuffer {
    const content: bytes
    const strtod: Strtod
    var offset: nat
    var depth: nat
    /** Set where the C code would read one byte past the input. */
    var overran: bool

    constructor (content: bytes, strtod: Strtod)
      ensures this.content == content && this.strtod == strtod
      ensures offset == 0 && depth == 0 && !overran
    {
      this.content, this.strtod := content, strtod;
      offset, depth, overran := 0, 0, false;
    }

    /** The outcome of a parsing call is what the grammar says, and nothing else has changed. */
    ghost predicate Answers<T>(spec: Parsed<T>, r: Option<T>, depth0: nat, overran0: bool)
      reads this
    {
      && offset <= |content|
      && match spec
         case Ok(value, next) => r == Some(value) && offset == next && depth == depth0 && overran == overran0
         case Failed => r == None && overran == overran0
         case Overran => r == None && overran
    }

    method SkipWhitespace()
      requires offset <= |content|
      modifies this`offset
      ensures offset == Skip(content, old(offset))
    {
      if offset >= |content| {
        return;
      }
      while offset < |content| && content[offset] <= 32
        invariant old(offset) <= offset <= |content|
        invariant offset < |content| ==> Skip(content, offset) == Skip(content, old(offset))
        invariant offset == |content| ==> Skip(content, old(offset)) == |content| - 1
      {
        offset := offset + 1;
      }
      if offset == |content| {
        offset := offset - 1;
      }
    }

    method ParseHex4(p: nat) returns (h: nat)
      requires p + 4 <= |content|
      ensures h == Hex4(content, p)
    {
      h := 0;
      var i := 0;
      while i < 4
        invariant i <= 4
        invariant forall k :: p <= k < p + i ==> HexValue(content[k]).Some?
        invariant i == 0 ==> h == 0
        invariant i == 1 ==> h == HexValue(content[p]).value * 16
        invariant i == 2 ==> h == (HexValue(content[p]).value * 16 + HexValue(content[p + 1]).value) * 16
        invariant i == 3 ==> h == ((HexValue(content[p]).value * 16 + HexValue(content[p + 1]).value) * 16
                                   + HexValue(content[p + 2]).value) * 16
        invariant i == 4 ==> h == Hex4(content, p)
      {
        var b := content[p + i];
        if 48 <= b <= 57 {
          h := h + (b - 48) as nat;
        } else if 65 <= b <= 70 {
          h := h + (b - 55) as nat;
        } else if 97 <= b <= 102 {
          h := h + (b - 87) as nat;
        } else {
          assert HexValue(content[p + i]).None?;
          return 0;
        }
        if i < 3 {
          h := h * 16;
        }
        i := i + 1;
      }
    }

    /** Writes the UTF-8 form of `code` from its last byte to its first. */
    static method EncodeUtf8(code: nat, output: array<byte>, w: nat) returns (length: nat)
      requires code <= 0x10FFFF && w + |Utf8(code)| <= output.Length
      modifies output
      ensures length == |Utf8(code)| && output[..w + length] == old(output[..w]) + Utf8(code)
    {
      var mark;
      if code < 0x80 {
        length, mark := 1, 0;
      } else if code < 0x800 {
        length, mark := 2, 0xC0;
      } else if code < 0x10000 {
        length, mark := 3, 0xE0;
      } else {
        length, mark := 4, 0xF0;
      }
      var codepoint, position := code, length - 1;
      while position > 0
        invariant 0 <= position < length
        invariant output[..w] == old(output[..w])
        invariant forall k :: w + position < k < w + length ==> output[k] == Utf8(code)[k - w]
        invariant codepoint == if position == length - 1 then code
                               else if position == length - 2 then code / 0x40
                               else if position == length - 3 then code / 0x1000 else code / 0x40000
      {
        output[w + position] := (0x80 + codepoint % 0x40) as byte;
        codepoint := codepoint / 0x40;
        position := position - 1;
      }
      output[w] := (mark + codepoint) as byte;
      assert forall k :: w <= k < w + length ==> output[k] == Utf8(code)[k - w];
      assert output[..w + length] == output[..w] + Utf8(code);
    }

    /** The code point of one or two `\u` sequences. */
    method ReadUtf16(p: nat, e: nat) returns (u: Option<Unit>)
      requires p <= e <= |content|
      ensures u == Utf16(content, p, e)
    {
      hide Hex4;
      if e - p < 6 {
        return None;
      }
      var first := ParseHex4(p + 2);
      if 0xDC00 <= first <= 0xDFFF {
        return None;
      }
      if 0xD800 <= first <= 0xDBFF {
        if e - (p + 6) < 6 {
          return None;
        }
        if content[p + 6] != BACKSLASH || content[p + 7] != 117 {
          return None;
        }
        var second := ParseHex4(p + 8);
        if second < 0xDC00 || second > 0xDFFF {
          return None;
        }
        assert first % 0x400 == first - 0xD800 && second % 0x400 == second - 0xDC00;
        return Some(Unit(12, 0x10000 + (first % 0x400) * 0x400 + second % 0x400));
      }
      return Some(Unit(6, first));
    }

    /** Decodes one sequence into `output` at `w`. */
    method DecodeSequence(p: nat, e: nat, output: array<byte>, w: nat) returns (length: nat, w': nat)
      requires p < e < |content| && w <= output.Length
      requires SequenceAt(content, p, e).Some? ==> w + |SequenceAt(content, p, e).value.written| <= output.Length
      modifies output
      ensures match SequenceAt(content, p, e)
        case None => length == 0
        case Some(s) =>
          && length == s.length && w' == w + |s.written| <= output.Length
          && output[..w'] == old(output[..w]) + s.written
    {
      if content[p] != BACKSLASH {
        output[w] := content[p];
        length, w' := 1, w + 1;
      } else if content[p + 1] == 117 {
        var u := ReadUtf16(p, e);
        if u.None? {
          return 0, w;
        }
        var n := EncodeUtf8(u.value.code, output, w);
        length, w' := u.value.length, w + n;
      } else {
        var b;
        match content[p + 1] {
          case 98 => b := 8;
          case 102 => b := 12;
          case 110 => b := 10;
          case 114 => b := 13;
          case 116 => b := 9;
          case 34 => b := QUOTE;
          case 92 => b := BACKSLASH;
          case 47 => b := SLASH;
          case _ => return 0, w;
        }
        output[w] := b;
        length, w' := 2, w + 1;
      }
    }

    /** The first pass. */
    method ScanLiteral(start: nat) returns (end: Option<nat>, skipped: nat)
      requires start <= |content|
      ensures end == ScanEnd(content, start)
      ensures end.Some? ==> skipped == Skipped(content, start, end.value)
    {
      skipped := 0;
      var e := start;
      while e < |content| && content[e] != QUOTE
        invariant start <= e <= |content|
        invariant ScanEnd(content, e) == ScanEnd(content, start)
        invariant ScanEnd(content, start).Some? ==>
                    skipped + Skipped(content, e, ScanEnd(content, start).value)
                    == Skipped(content, start, ScanEnd(content, start).value)
      {
        if content[e] == BACKSLASH {
          if e + 1 >= |content| {
            return None, skipped;
          }
          skipped := skipped + 1;
          e := e + 1;
        }
        e := e + 1;
      }
      if e >= |content| {
        return None, skipped;
      }
      return Some(e), skipped;
    }

    /** The second pass, into a buffer of the size the first pass estimated: every write is in
        bounds, and one byte is left for the NUL. */
    method DecodeLiteral(start: nat, e: nat, output: array<byte>) returns (ok: bool, w: nat, p: nat)
      requires start <= |content| && ScanEnd(content, start) == Some(e)
      requires output.Length == e - start - Skipped(content, start, e) + 2
      modifies output
      ensures w + 2 <= output.Length
      ensures ok <==> Decode(content, start, e).Some?
      ensures ok ==> output[..w] == Decode(content, start, e).value
      ensures !ok ==> start <= p < e
    {
      hide SequenceAt;
      SkippedBound(content, start, e);
      p, w, ok := start, 0, true;
      ghost var q, all := start, Decode(content, start, e);
      PrependParts([], [], all);
      assert output[..0] == [];
      while ok && p < e
        invariant start <= p && w + 2 <= output.Length && (!ok ==> p < e)
        invariant p <= e ==> p <= q <= p + 1 && q <= |content| && ScanEnd(content, q) == Some(e)
        invariant p <= e ==> w + 2 + Room(content, p, q, e) <= output.Length
        invariant all == if ok then Prepend(output[..w], Decode(content, p, e)) else None
        decreases ok, |content| - p
      {
        ghost var q', s := q, SequenceAt(content, p, e);
        SkippedBound(content, q, e);
        if s.Some? {
          q' := SequenceFits(content, p, q, e);
          if p + s.value.length <= e { SkippedBound(content, q', e); }
          PrependParts(output[..w], s.value.written, Decode(content, p + s.value.length, e));
        }
        var length, w' := DecodeSequence(p, e, output, w);
        if length == 0 {
          ok := false;
        } else {
          p, w, q := p + length, w', q';
        }
      }
    }

    method ParseString() returns (r: Option<cstring>)
      requires offset <= |content|
      modifies this`offset, this`overran
      ensures Answers(StringAt(content, old(offset)), r, old(depth), old(overran))
    {
      hide Decode, ScanEnd, Skipped, Cut;
      if offset == |content| {
        overran := true;
        return None;
      }
      var start := offset + 1;
      if content[offset] != QUOTE {
        offset := start;
        return None;
      }
      var end, skipped := ScanLiteral(start);
      if end.None? {
        offset := start;
        return None;
      }
      var allocationLength := end.value - offset - skipped;
      SkippedBound(content, start, end.value);
      var output := new byte[allocationLength + 1];
      var ok, w, p := DecodeLiteral(start, end.value, output);
      if !ok {
        offset := p;
        return None;
      }
      output[w] := NUL;
      offset := end.value + 1;
      assert output[..w] == Decode(content, start, end.value).value;
      return Some(Cut(output[..w]));
    }

    /** Copies the bytes of a number, at most 63, and terminates them. */
    method CopyNumber(number: array<byte>) returns (i: nat)
      requires offset <= |content| && number.Length == 64
      modifies number
      ensures i == NumberSpan(content, offset, 0) && number[..i] == content[offset..offset + i]
    {
      hide IsNumberByte, NumberSpan;
      i := 0;
      while i < 63 && offset + i < |content| && IsNumberByte(content[offset + i])
        invariant i <= 63 && offset + i <= |content|
        invariant NumberSpan(content, offset, i) == NumberSpan(content, offset, 0)
        invariant number[..i] == content[offset..offset + i]
      {
        number[i] := content[offset + i];
        assert content[offset..offset + i + 1] == content[offset..offset + i] + [content[offset + i]];
        assert number[..i + 1] == number[..i] + [content[offset + i]];
        SpanStep(content, offset, i);
        i := i + 1;
      }
      SpanStep(content, offset, i);
      number[i] := NUL;
    }

    method ParseNumber() returns (r: Option<int32>)
      requires offset <= |content|
      modifies this`offset
      ensures Answers(NumberAt(content, old(offset), strtod), r, old(depth), old(overran))
    {
      hide NumberSpan, Saturate;
      var number := new byte[64];
      var i := CopyNumber(number);
      var (consumed, d) := strtod(number[..i]);
      if consumed == 0 {
        return None;
      }
      offset := offset + consumed;
      return Some(Saturate(d));
    }

    method ParseValue() returns (r: Option<Value>)
      requires offset <= |content|
      modifies this
      ensures Answers(ValueAt(content, old(offset), old(depth), strtod), r, old(depth), old(overran))
      decreases |content| - offset, 3
    {
      if At(content, offset, Text.NULL_TEXT) {
        offset := offset + 4;
        return Some(Null);
      }
      if At(content, offset, Text.FALSE_TEXT) {
        offset := offset + 5;
        return Some(Bool(false));
      }
      if At(content, offset, Text.TRUE_TEXT) {
        offset := offset + 4;
        return Some(Bool(true));
      }
      if offset < |content| && content[offset] == QUOTE {
        var s := ParseString();
        return if s.Some? then Some(String(s.value)) else None;
      }
      if offset < |content| && (content[offset] == MINUS || IsDigit(content[offset])) {
        var n := ParseNumber();
        return if n.Some? then Some(Number(n.value)) else None;
      }
      if offset < |content| && content[offset] == OPEN_BRACKET {
        var items := ParseArray();
        return if items.Some? then Some(Array(items.value)) else None;
      }
      if offset < |content| && content[offset] == OPEN_BRACE {
        var members := ParseObject();
        return if members.Some? then Some(Object(members.value)) else None;
      }
      return None;
    }

    method ParseArray() returns (r: Option<seq<Value>>)
      requires offset < |content| && content[offset] == OPEN_BRACKET
      modifies this
      ensures Answers(ArrayAt(content, old(offset), old(depth), strtod), r, old(depth), old(overran))
      decreases |content| - offset, 2
    {
      hide ItemsAt, Skip;
      if depth >= NESTING_LIMIT {
        return None;
      }
      depth := depth + 1;
      offset := offset + 1;
      SkipWhitespace();
      if offset < |content| && content[offset] == CLOSE_BRACKET {
        depth := depth - 1;
        offset := offset + 1;
        return Some([]);
      }
      if offset >= |content| {
        offset := offset - 1;
        return None;
      }
      offset := offset - 1;
      r := ParseItems();
      if r.Some? {
        depth := depth - 1;
      }
    }

    /** The do-while loop over comma-separated elements, up to and with the closing bracket. */
    method ParseItems() returns (r: Option<seq<Value>>)
      requires offset < |content|
      modifies this
      ensures Answers(ItemsAt(content, old(offset), old(depth), strtod), r, old(depth), old(overran))
      decreases |content| - offset, 1
    {
      hide ValueAt, Skip;
      ghost var all := ItemsAt(content, offset, depth, strtod);
      var items, more := [], true;
      NothingBefore(all);
      while more
        invariant old(offset) <= offset <= |content| && depth == old(depth) && overran == old(overran)
        invariant more ==> offset < |content| && all == Prefixed(items, ItemsAt(content, offset, depth, strtod))
        invariant !more ==> all == if IsByteAt(content, offset, CLOSE_BRACKET) then Ok(items, offset + 1) else Failed
        decreases more, |content| - offset
      {
        var v := ParseElement();
        if v.None? {
          return None;
        }
        SkipWhitespace();
        more := offset < |content| && content[offset] == COMMA;
        if more { OneMoreBefore(items, v.value, ItemsAt(content, offset, depth, strtod)); }
        items := items + [v.value];
      }
      if offset >= |content| || content[offset] != CLOSE_BRACKET {
        return None;
      }
      offset := offset + 1;
      return Some(items);
    }

    /** The value after the byte at the offset, which is a bracket, a comma or the space before. */
    method ParseElement() returns (r: Option<Value>)
      requires offset < |content|
      modifies this
      ensures Answers(ValueAt(content, Skip(content, old(offset) + 1), old(depth), strtod), r, old(depth), old(overran))
      decreases |content| - offset, 0
    {
      offset := offset + 1;
      SkipWhitespace();
      r := ParseValue();
    }

    method ParseObject() returns (r: Option<seq<Member>>)
      requires offset < |content| && content[offset] == OPEN_BRACE
      modifies this
      ensures Answers(ObjectAt(content, old(offset), old(depth), strtod), r, old(depth), old(overran))
      decreases |content| - offset, 2
    {
      hide MembersAt, Skip;
      if depth >= NESTING_LIMIT {
        return None;
      }
      depth := depth + 1;
      offset := offset + 1;
      SkipWhitespace();
      if offset < |content| && content[offset] == CLOSE_BRACE {
        depth := depth - 1;
        offset := offset + 1;
        return Some([]);
      }
      if offset >= |content| {
        offset := offset - 1;
        return None;
      }
      offset := offset - 1;
      r := ParseMembers();
      if r.Some? {
        depth := depth - 1;
      }
    }

    /** The do-while loop over comma-separated members, up to and with the closing brace. */
    method ParseMembers() returns (r: Option<seq<Member>>)
      requires offset < |content|
      modifies this
      ensures Answers(MembersAt(content, old(offset), old(depth), strtod), r, old(depth), old(overran))
      decreases |content| - offset, 1
    {
      hide MemberAt, Skip;
      ghost var all := MembersAt(content, offset, depth, strtod);
      var members, more := [], true;
      NothingBefore(all);
      while more
        invariant old(offset) <= offset <= |content| && depth == old(depth) && overran == old(overran)
        invariant more ==> offset < |content| && all == Prefixed(members, MembersAt(content, offset, depth, strtod))
        invariant !more ==> all == if IsByteAt(content, offset, CLOSE_BRACE) then Ok(members, offset + 1) else Failed
        decreases more, |content| - offset
      {
        var m := ParseMember();
        if m.None? {
          return None;
        }
        SkipWhitespace();
        more := offset < |content| && content[offset] == COMMA;
        if more { OneMoreBefore(members, m.value, MembersAt(content, offset, depth, strtod)); }
        members := members + [m.value];
      }
      if offset >= |content| || content[offset] != CLOSE_BRACE {
        return None;
      }
      offset := offset + 1;
      return Some(members);
    }

    /** One turn of the loop: the key, the colon and the value. */
    method ParseMember() returns (r: Option<Member>)
      requires offset < |content|
      modifies this
      ensures Answers(MemberAt(content, old(offset), old(depth), strtod), r, old(depth), old(overran))
      decreases |content| - offset, 0
    {
      hide ValueAt, StringAt, Skip;
      offset := offset + 1;
      SkipWhitespace();
      var key := ParseString();
      if key.None? {
        return None;
      }
      SkipWhitespace();
      if offset >= |content| || content[offset] != COLON {
        return None;
      }
      var v := ParseElement();
      if v.None? {
        return None;
      }
      return Some(Member(key.value, v.value));
    }
  }

  /** cJSON_ParseWithLengthOpts: the value, and the offset parsing stopped at. */
  method ParseWithLength(text: bytes, requireNul: bool, strtod: Strtod)
    returns (r: Option<Value>, end: nat, overran: bool)
    ensures match ParseAll(text, requireNul, strtod)
      case Ok(value, next) => r == Some(value) && end == next && !overran
      case Failed => r == None && !overran
      case Overran => r == None && overran
    ensures r.None? ==> end == 0 || end < |text|
  {
    hide ValueAt, Skip;
    if text == [] {
      return None, 0, false;
    }
    var buffer := new ParseBuffer(text, strtod);
    if 4 < |text| && At(text, 0, [0xEF, 0xBB, 0xBF]) {
      buffer.offset := 3;
    }
    buffer.SkipWhitespace();
    r := buffer.ParseValue();
    if r.Some? && requireNul {
      buffer.SkipWhitespace();
      if buffer.offset >= |text| || text[buffer.offset] != NUL {
        r := None;
      }
    }
    end := buffer.offset;
    if r.None? && end >= |text| {
      end := |text| - 1;
    }
    overran := buffer.overran;
  }

  /** cJSON_ParseWithOpts: the text with its terminator. */
  method Parse(text: cstring, requireNul: bool, strtod: Strtod) returns (r: Option<Value>, end: nat)
    ensures r == match ParseAll(text + [NUL], requireNul, strtod) case Ok(value, _) => Some(value) case _ => None
    ensures r.Some? ==> end == ParseAll(text + [NUL], requireNul, strtod).next && Nesting(r.value) <= NESTING_LIMIT
  {
    hide ParseAll;
    var overran;
    ParserSafety.ParseSafe(text, requireNul, strtod);
    r, end, overran := ParseWithLength(text + [NUL], requireNul, strtod);
  }
}
