/** JSON texts by their parts, as sections 2 to 7 of RFC 8259 define them. A node of the syntax tree keeps
    what a value leaves out: white space, how numbers are written and which characters are escaped. */
module Syntax {
  import opened Bytes
  import opened Json
  import opened Characters
  import Literal
  import Numerals

  /** `shared` and `sharedKey` mark a closing quote that the last character takes in as well, which
      only a loose reading allows. */
  datatype Node =
    | NullWord
    | BoolWord(b: bool)
    | Numeric(text: bytes)
    | Quote(pieces: seq<Piece>, shared: bool)
    | List(blank: bytes, items: seq<Item>)
    | Record(blank: bytes, entries: seq<Entry>)

  /** White space before and after an element. */
  datatype Item = Item(before: bytes, node: Node, after: bytes)

  /** White space before the key, before and after the colon, and after the value. */
  datatype Entry = Entry(before: bytes, key: seq<Piece>, sharedKey: bool, gap: bytes, space: bytes, node: Node,
                         after: bytes)

  // ----- The text -----

  function QuotedText(pieces: seq<Piece>, shared: bool): bytes {
    [QUOTE] + (RenderFrom(pieces, 0) + if shared then [] else [QUOTE])
  }

  function Source(x: Node): bytes {
    match x
    case NullWord => Ascii("null")
    case BoolWord(b) => if b then Ascii("true") else Ascii("false")
    case Numeric(text) => text
    case Quote(pieces, shared) => QuotedText(pieces, shared)
    case List(blank, items) => [OPEN_BRACKET] + ((if items == [] then blank else ItemsText(items)) + [CLOSE_BRACKET])
    case Record(blank, entries) =>
      [OPEN_BRACE] + ((if entries == [] then blank else EntriesText(entries)) + [CLOSE_BRACE])
  }

  /** An element and the white space after it. */
  function ItemText(x: Item): bytes { Source(x.node) + x.after }

  function ItemsText(items: seq<Item>): bytes {
    if items == [] then []
    else items[0].before + (ItemText(items[0]) + if |items| == 1 then [] else [COMMA] + ItemsText(items[1..]))
  }

  /** A member, from its key to the white space after its value. */
  function EntryText(e: Entry): bytes {
    QuotedText(e.key, e.sharedKey) + (e.gap + ([COLON] + (e.space + (Source(e.node) + e.after))))
  }

  function EntriesText(entries: seq<Entry>): bytes {
    if entries == [] then []
    else
      entries[0].before + (EntryText(entries[0]) + if |entries| == 1 then [] else [COMMA] + EntriesText(entries[1..]))
  }

  // ----- The value -----

  /** White space by section 2 of RFC 8259, or loosely any byte up to the space. */
  predicate Blank(s: bytes, strict: bool) {
    forall i :: 0 <= i < |s| ==>
      var n := s[i] as int;
      if strict then n == ' ' as int || n == '\t' as int || n == '\n' as int || n == '\r' as int else n <= ' ' as int
  }

  /** More than 63 bytes of a number are not read. */
  const NUMBER_LIMIT: nat := 63

  /** The pieces spell `s`; loosely up to the first NUL. */
  ghost predicate Spells(pieces: seq<Piece>, shared: bool, s: bytes, strict: bool) {
    if strict then !shared && exists parts :: AllMean(pieces, parts) && s == Joined(parts, 0)
    else exists parts :: AllLooselyMean(pieces, parts) && s == Literal.Cut(Joined(parts, 0))
  }

  /** The text stands for `n`: a numeral for it, or loosely as much of a run of number bytes as `strtod`
      consumes. */
  ghost predicate Counts(text: bytes, n: int32, strict: bool, strtod: Numerals.Strtod) {
    if strict then |text| <= NUMBER_LIMIT && Numerals.Says(text, n)
    else text != [] && exists more: bytes :: Consumes(text, more, n, strtod)
  }

  ghost predicate Consumes(text: bytes, more: bytes, n: int32, strtod: Numerals.Strtod) {
    && |text + more| <= NUMBER_LIMIT && Numerals.NumeralBytes(text + more)
    && strtod(text + more).0 == |text| && Numerals.CutTo(strtod(text + more).1, n)
  }

  /** The text of `x` is a JSON text for `v`. */
  ghost predicate TextOf(x: Node, v: Value, strict: bool, strtod: Numerals.Strtod)
    decreases x
  {
    match x
    case NullWord => v.Null?
    case BoolWord(b) => v == Bool(b)
    case Numeric(text) => v.Number? && Counts(text, v.n, strict, strtod)
    case Quote(pieces, shared) => v.String? && Spells(pieces, shared, v.s, strict)
    case List(blank, items) => v.Array? && Blank(blank, strict) && ItemsOf(items, v.items, strict, strtod)
    case Record(blank, entries) => v.Object? && Blank(blank, strict) && EntriesOf(entries, v.members, strict, strtod)
  }

  ghost predicate ItemsOf(items: seq<Item>, values: seq<Value>, strict: bool, strtod: Numerals.Strtod)
    decreases items
  {
    |items| == |values|
    && forall i :: 0 <= i < |items| ==>
         && Blank(items[i].before, strict) && Blank(items[i].after, strict)
         && TextOf(items[i].node, values[i], strict, strtod)
  }

  ghost predicate EntriesOf(entries: seq<Entry>, members: seq<Member>, strict: bool, strtod: Numerals.Strtod)
    decreases entries
  {
    |entries| == |members|
    && forall i :: 0 <= i < |entries| ==>
         var e := entries[i];
         && Blank(e.before, strict) && Blank(e.gap, strict) && Blank(e.space, strict) && Blank(e.after, strict)
         && Spells(e.key, e.sharedKey, members[i].key, strict) && TextOf(e.node, members[i].value, strict, strtod)
  }
}
