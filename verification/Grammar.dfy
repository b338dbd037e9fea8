/** The parser as a function of the input and the offset, step-backs included
    (parse_value, parse_array, parse_object, parse_number, buffer_skip_whitespace). */
module Grammar {
  import opened Bytes
  import opened Decimal
  import opened Json
  import opened Literal
  import opened Numerals
  import Text

  const NESTING_LIMIT: nat := 1000

  /** `Overran` marks a read past the end of the input. */
  datatype Parsed<+T> = Ok(value: T, next: nat) | Failed | Overran

  /** buffer_skip_whitespace: it stops on the last byte rather than run off the end. */
  function Skip(c: bytes, o: nat): (r: nat)
    requires o <= |c|
    ensures o <= r <= |c| && (o < |c| ==> r < |c|)
    decreases |c| - o
  {
    if o == |c| then o
    else if c[o] > 32 then o
    else if o + 1 == |c| then o
    else Skip(c, o + 1)
  }

  predicate IsNumberByte(b: byte) {
    IsDigit(b) || b == 43 || b == MINUS || b == 101 || b == 69 || b == DOT
  }

  /** How many bytes parse_number copies: number bytes, at most 63 in all. */
  function NumberSpan(c: bytes, o: nat, i: nat): (r: nat)
    requires o + i <= |c| && i <= 63
    ensures i <= r <= 63 && o + r <= |c|
    decreases 63 - i
  {
    if i < 63 && o + i < |c| && IsNumberByte(c[o + i]) then NumberSpan(c, o, i + 1) else i
  }

  lemma SpanStep(c: bytes, o: nat, i: nat)
    requires o + i <= |c| && i <= 63
    ensures NumberSpan(c, o, i)
      == if i < 63 && o + i < |c| && IsNumberByte(c[o + i]) then NumberSpan(c, o, i + 1) else i
  {
  }

  function Truncate(d: real): int { if d < 0.0 then -((-d).Floor) else d.Floor }

  /** The integer parse_number keeps: truncated towards zero, saturated at the 32-bit limits. */
  function Saturate(d: real): int32 {
    if d >= INT_MAX as real then INT_MAX
    else if d <= INT_MIN as real then INT_MIN
    else Truncate(d)
  }

  function NumberAt(c: bytes, o: nat, strtod: Strtod): (r: Parsed<int32>)
    requires o <= |c|
    ensures r.Ok? ==> o < r.next <= |c|
    ensures !r.Overran?
  {
    var n := NumberSpan(c, o, 0);
    var (k, d) := strtod(c[o..o + n]);
    if k == 0 then Failed else Ok(Saturate(d), o + k)
  }

  function StringAt(c: bytes, o: nat): (r: Parsed<cstring>)
    requires o <= |c|
    ensures r.Ok? ==> o < r.next <= |c|
    ensures r.Overran? <==> o == |c|
  {
    if o == |c| then Overran
    else if c[o] != QUOTE then Failed
    else
      match ScanEnd(c, o + 1)
      case None => Failed
      case Some(e) =>
        match Decode(c, o + 1, e)
        case None => Failed
        case Some(s) => Ok(Cut(s), e + 1)
  }

  predicate IsByteAt(c: bytes, o: nat, b: byte) { o < |c| && c[o] == b }

  predicate StartsNumber(c: bytes, o: nat) { o < |c| && (c[o] == MINUS || IsDigit(c[o])) }

  function ValueAt(c: bytes, o: nat, depth: nat, strtod: Strtod): (r: Parsed<Value>)
    requires o <= |c|
    ensures r.Ok? ==> o < r.next <= |c|
    decreases |c| - o, 3
  {
    if At(c, o, Text.NULL_TEXT) then Ok(Null, o + 4)
    else if At(c, o, Text.FALSE_TEXT) then Ok(Bool(false), o + 5)
    else if At(c, o, Text.TRUE_TEXT) then Ok(Bool(true), o + 4)
    else if IsByteAt(c, o, QUOTE) then
      match StringAt(c, o)
      case Ok(s, next) => Ok(String(s), next)
      case Failed => Failed
      case Overran => Overran
    else if StartsNumber(c, o) then
      match NumberAt(c, o, strtod)
      case Ok(n, next) => Ok(Number(n), next)
      case Failed => Failed
      case Overran => Overran
    else if IsByteAt(c, o, OPEN_BRACKET) then
      match ArrayAt(c, o, depth, strtod)
      case Ok(items, next) => Ok(Array(items), next)
      case Failed => Failed
      case Overran => Overran
    else if IsByteAt(c, o, OPEN_BRACE) then
      match ObjectAt(c, o, depth, strtod)
      case Ok(members, next) => Ok(Object(members), next)
      case Failed => Failed
      case Overran => Overran
    else Failed
  }

  function ArrayAt(c: bytes, o: nat, depth: nat, strtod: Strtod): (r: Parsed<seq<Value>>)
    requires o < |c|
    ensures r.Ok? ==> o < r.next <= |c|
    decreases |c| - o, 2
  {
    if depth >= NESTING_LIMIT then Failed
    else
      var p := Skip(c, o + 1);
      if IsByteAt(c, p, CLOSE_BRACKET) then Ok([], p + 1)
      else if p == |c| then Failed
      else ItemsAt(c, p - 1, depth + 1, strtod)
  }

  /** Elements from just before the first one to just after the closing bracket. */
  function ItemsAt(c: bytes, o: nat, depth: nat, strtod: Strtod): (r: Parsed<seq<Value>>)
    requires o < |c|
    ensures r.Ok? ==> o < r.next <= |c|
    decreases |c| - o, 1
  {
    match ValueAt(c, Skip(c, o + 1), depth, strtod)
    case Failed => Failed
    case Overran => Overran
    case Ok(v, q) =>
      var s := Skip(c, q);
      if IsByteAt(c, s, COMMA) then
        match ItemsAt(c, s, depth, strtod)
        case Ok(rest, next) => Ok([v] + rest, next)
        case Failed => Failed
        case Overran => Overran
      else if IsByteAt(c, s, CLOSE_BRACKET) then Ok([v], s + 1)
      else Failed
  }

  function ObjectAt(c: bytes, o: nat, depth: nat, strtod: Strtod): (r: Parsed<seq<Member>>)
    requires o < |c|
    ensures r.Ok? ==> o < r.next <= |c|
    decreases |c| - o, 2
  {
    if depth >= NESTING_LIMIT then Failed
    else
      var p := Skip(c, o + 1);
      if IsByteAt(c, p, CLOSE_BRACE) then Ok([], p + 1)
      else if p == |c| then Failed
      else MembersAt(c, p - 1, depth + 1, strtod)
  }

  /** One member: its key, the colon and its value. */
  function MemberAt(c: bytes, o: nat, depth: nat, strtod: Strtod): (r: Parsed<Member>)
    requires o < |c|
    ensures r.Ok? ==> o < r.next <= |c|
    decreases |c| - o, 0
  {
    match StringAt(c, Skip(c, o + 1))
    case Failed => Failed
    case Overran => Overran
    case Ok(key, k) =>
      var s := Skip(c, k);
      if !IsByteAt(c, s, COLON) then Failed
      else
        match ValueAt(c, Skip(c, s + 1), depth, strtod)
        case Failed => Failed
        case Overran => Overran
        case Ok(v, next) => Ok(Member(key, v), next)
  }

  function MembersAt(c: bytes, o: nat, depth: nat, strtod: Strtod): (r: Parsed<seq<Member>>)
    requires o < |c|
    ensures r.Ok? ==> o < r.next <= |c|
    decreases |c| - o, 1
  {
    match MemberAt(c, o, depth, strtod)
    case Failed => Failed
    case Overran => Overran
    case Ok(m, q) =>
      var s := Skip(c, q);
      if IsByteAt(c, s, COMMA) then
        match MembersAt(c, s, depth, strtod)
        case Ok(rest, next) => Ok([m] + rest, next)
        case Failed => Failed
        case Overran => Overran
      else if IsByteAt(c, s, CLOSE_BRACE) then Ok([m], s + 1)
      else Failed
  }

  /** skip_utf8_bom. */
  function Bom(c: bytes): (o: nat)
    ensures o <= |c|
  {
    if 4 < |c| && At(c, 0, [0xEF, 0xBB, 0xBF]) then 3 else 0
  }

  /** cJSON_ParseWithLengthOpts on the bytes `c`: the value and where parsing stopped. */
  function ParseAll(c: bytes, requireNul: bool, strtod: Strtod): Parsed<Value> {
    if c == [] then Failed
    else
      var r := ValueAt(c, Skip(c, Bom(c)), 0, strtod);
      if r.Ok? && requireNul && !IsByteAt(c, Skip(c, r.next), NUL) then Failed
      else if r.Ok? && requireNul then Ok(r.value, Skip(c, r.next))
      else r
  }
}
