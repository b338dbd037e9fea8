/** The printed text by its parts: its layout and its escapes, and that parsing gives back the value. */
module RoundTrip {
  import opened Bytes
  import opened Decimal
  import opened Json
  import opened Characters
  import opened Numerals
  import opened Grammar
  import opened Syntax
  import Literal
  import ParseShape
  import ParseText
  import Text

  // ----- Strings -----

  /** How the printer writes one byte: a short escape where it needs one and there is one, a code in
      lower-case digits where there is none, and the byte itself otherwise. */
  predicate Terse(b: byte, x: Piece) {
    if b as int == '"' as int || b as int == '\\' as int then x == Short(b)
    else if b >= 32 then x == Plain(b)
    else if b in {8, 9, 10, 12, 13} then x.Short? && Escaped(x.b, b)
    else x.Code? && |x.digits| == 4 && IsHex(x.digits) && HexNumber(x.digits) == b as int && NoCapital(x.digits)
  }

  predicate NoCapital(s: bytes) { forall i :: 0 <= i < |s| ==> !('A' as int <= s[i] as int <= 'F' as int) }

  function PieceFor(b: byte): (x: Piece)
    requires b != 0
  {
    if b == QUOTE || b == BACKSLASH then Short(b)
    else if b == 8 then Short(98)
    else if b == 12 then Short(102)
    else if b == 10 then Short(110)
    else if b == 13 then Short(114)
    else if b == 9 then Short(116)
    else if b < 32 then Code([48, 48, Text.HexDigit(b as int / 16), Text.HexDigit(b as int % 16)])
    else Plain(b)
  }

  lemma ControlDigits(b: byte)
    requires b < 32
    ensures var digits := [48, 48, Text.HexDigit(b as int / 16), Text.HexDigit(b as int % 16)];
      IsHex(digits) && HexNumber(digits) == b as int && NoCapital(digits)
  {
    var digits := [48, 48, Text.HexDigit(b as int / 16), Text.HexDigit(b as int % 16)];
    assert IsHex(digits);
    Literal.Hex4Exact(digits);
  }

  /** The piece is what the printer writes for the byte, it is terse, and it stands for that byte. */
  lemma PieceFits(b: byte)
    requires b != 0
    ensures Render(PieceFor(b)) == Text.Escape(b) && Terse(b, PieceFor(b)) && Means(PieceFor(b), [b])
  {
    hide HexNumber;
    if b < 32 { ControlDigits(b); }
  }

  function Pieces(s: cstring): (xs: seq<Piece>)
    ensures |xs| == |s| && forall i :: 0 <= i < |s| ==> s[i] != 0 && xs[i] == PieceFor(s[i])
  {
    seq(|s|, i requires 0 <= i < |s| => PieceFor(s[i]))
  }

  function Singles(s: bytes): (parts: seq<bytes>)
    ensures |parts| == |s| && forall i :: 0 <= i < |s| ==> parts[i] == [s[i]]
  {
    seq(|s|, i requires 0 <= i < |s| => [s[i]])
  }

  lemma {:induction false} PiecesPrinted(s: cstring, i: nat)
    requires i <= |s|
    ensures RenderFrom(Pieces(s), i) == Text.EscapeFrom(s, i) && Joined(Singles(s), i) == s[i..]
    decreases |s| - i
  {
    hide Render, Text.Escape;
    if i < |s| {
      PiecesPrinted(s, i + 1);
      PieceFits(s[i]);
      assert s[i..] == [s[i]] + s[i + 1..];
    }
  }

  /** A printed string is a JSON string for it, tersely written. */
  lemma StringPrinted(s: cstring)
    ensures QuotedText(Pieces(s), false) == Text.Quoted(s) && Spells(Pieces(s), false, s, true)
    ensures forall i :: 0 <= i < |s| ==> Terse(s[i], Pieces(s)[i])
  {
    hide Means, Terse, Render;
    forall i | 0 <= i < |s| ensures Means(Pieces(s)[i], [s[i]]) && Terse(s[i], Pieces(s)[i]) { PieceFits(s[i]); }
    assert AllMean(Pieces(s), Singles(s));
    PiecesPrinted(s, 0);
    assert s[0..] == s;
  }

  // ----- The layout -----

  /** A new line, indented by `d` tabs. */
  function NewLine(d: nat): bytes { [NEWLINE] + Text.Tabs(d) }

  function If(format: bool, s: bytes): bytes { if format then s else [] }

  /** The text of a value at depth `d`. Formatted, elements stand on one line with a space after each
      comma, every member stands on a line of its own, one tab deeper than its object, with a tab after
      the colon, and the closing brace stands on a line as deep as the object. Unformatted there is no
      white space. */
  function Laid(v: Value, format: bool, d: nat): Node
    decreases v, 1
  {
    match v
    case Null => NullWord
    case Bool(b) => BoolWord(b)
    case Number(n) => Numeric(Dec(n))
    case String(s) => Quote(Pieces(s), false)
    case Array(items) => List([], LaidItems(items, true, format, d + 1))
    case Object(members) => Record(If(format, NewLine(d)), LaidEntries(members, format, d + 1))
  }

  function LaidItems(items: seq<Value>, first: bool, format: bool, d: nat): (r: seq<Item>)
    ensures |r| == |items|
    decreases items, 0
  {
    if items == [] then []
    else [Item(If(format && !first, [SPACE]), Laid(items[0], format, d), [])] + LaidItems(items[1..], false, format, d)
  }

  function LaidEntries(members: seq<Member>, format: bool, d: nat): (r: seq<Entry>)
    requires d > 0
    ensures |r| == |members|
    decreases members, 0
  {
    if members == [] then []
    else [LaidEntry(members[0], |members| == 1, format, d)] + LaidEntries(members[1..], format, d)
  }

  function LaidEntry(m: Member, last: bool, format: bool, d: nat): Entry
    requires d > 0
    decreases m.value, 2
  {
    Entry(If(format, NewLine(d)), Pieces(m.key), false, [], If(format, [TAB]), Laid(m.value, format, d),
          If(format && last, NewLine(d - 1)))
  }

  lemma {:induction false} LaidItemsMore(items: seq<Value>, first: bool, format: bool, d: nat)
    requires items != []
    ensures LaidItems(items, first, format, d)[0]
      == Item(If(format && !first, [SPACE]), Laid(items[0], format, d), [])
    ensures LaidItems(items, first, format, d)[1..] == LaidItems(items[1..], false, format, d)
  {
  }

  /** The printed text is the laid-out one. */
  lemma {:induction false} PrintedIsLaid(v: Value, format: bool, d: nat)
    ensures Source(Laid(v, format, d)) == Text.Print(v, format, d)
    decreases v, 1
  {
    hide Ascii, QuotedText, Text.Quoted, ItemsText, EntriesText, Text.PrintItems, Text.PrintMembers, Text.Tabs,
         LaidItems, LaidEntries, Pieces;
    ParseText.Words();
    match v
    case Null =>
    case Bool(b) =>
    case Number(n) =>
    case String(s) => StringPrinted(s);
    case Array(items) =>
      if items == [] {
        assert Text.PrintItems(items, 0, format, d + 1) == [] by { NothingPrinted(format, d + 1); }
      } else {
        ItemsPrinted(items, 0, format, d + 1);
        assert items[0..] == items;
      }
    case Object(members) =>
      if members == [] {
        NothingPrinted(format, d + 1);
      } else {
        MembersPrinted(members, 0, format, d + 1);
        assert members[0..] == members;
        var printed := Text.PrintMembers(members, 0, format, d + 1);
        ObjectEnds(printed, EntriesText(LaidEntries(members, format, d + 1)), format, d);
      }
  }

  lemma NothingPrinted(format: bool, d: nat)
    ensures Text.PrintItems([], 0, format, d) == [] && Text.PrintMembers([], 0, format, d) == []
  {
  }

  lemma {:induction false} ItemsPrinted(items: seq<Value>, i: nat, format: bool, d: nat)
    requires i < |items|
    ensures ItemsText(LaidItems(items[i..], i == 0, format, d))
      == If(format && i > 0, [SPACE]) + Text.PrintItems(items, i, format, d)
    decreases items, 0, |items| - i
  {
    hide Source, Text.Print, Text.PrintItems, Laid, LaidItems, ItemsText;
    var tail, value := items[i..], Text.Print(items[i], format, d);
    assert tail[1..] == items[i + 1..];
    LaidItemsMore(tail, i == 0, format, d);
    PrintedIsLaid(items[i], format, d);
    ParseText.ItemsStart(LaidItems(tail, i == 0, format, d));
    PrintedItems(items, i, format, d);
    var rest := [];
    if i + 1 < |items| {
      ItemsPrinted(items, i + 1, format, d);
      rest := Text.PrintItems(items, i + 1, format, d);
    }
    ItemJoined(If(format && i > 0, [SPACE]), value, rest, format);
  }

  lemma PrintedItems(items: seq<Value>, i: nat, format: bool, d: nat)
    requires i < |items|
    ensures var first := Text.Print(items[i], format, d);
      Text.PrintItems(items, i, format, d) == if i + 1 == |items| then first
        else first + (Text.ItemSeparator(format) + Text.PrintItems(items, i + 1, format, d))
  {
  }

  lemma ItemJoined(before: bytes, value: bytes, rest: bytes, format: bool)
    ensures before + ((value + []) + []) == before + value
    ensures before + ((value + []) + ([COMMA] + (If(format, [SPACE]) + rest)))
      == before + (value + (Text.ItemSeparator(format) + rest))
  {
    assert value + [] == value && before + (value + []) == before + value;
    assert [COMMA] + (If(format, [SPACE]) + rest) == Text.ItemSeparator(format) + rest;
  }

  lemma {:induction false} LaidEntriesMore(members: seq<Member>, format: bool, d: nat)
    requires members != [] && d > 0
    ensures LaidEntries(members, format, d)[0] == LaidEntry(members[0], |members| == 1, format, d)
    ensures LaidEntries(members, format, d)[1..] == LaidEntries(members[1..], format, d)
  {
  }

  /** Each member's line ends where the next one's begins. */
  lemma {:induction false} MembersPrinted(members: seq<Member>, i: nat, format: bool, d: nat)
    requires i < |members| && d > 0
    ensures EntriesText(LaidEntries(members[i..], format, d))
      == If(format, [NEWLINE]) + Text.PrintMembers(members, i, format, d) + If(format, Text.Tabs(d - 1))
    decreases members, 0, |members| - i
  {
    hide Source, Text.Print, Text.PrintMembers, Laid, LaidEntries, QuotedText, Text.Quoted, Text.Tabs, EntriesText;
    var tail, m := members[i..], members[i];
    assert tail[1..] == members[i + 1..];
    LaidEntriesMore(tail, format, d);
    PrintedIsLaid(m.value, format, d);
    StringPrinted(m.key);
    ParseText.EntriesStart(LaidEntries(tail, format, d));
    PrintedMembers(members, i, format, d);
    var key, value := Text.Quoted(m.key), Text.Print(m.value, format, d);
    var rest := Text.PrintMembers(members, i + 1, format, d);
    if i + 1 < |members| {
      MembersPrinted(members, i + 1, format, d);
      if format { InnerLine(Text.Tabs(d), key, value, rest, Text.Tabs(d - 1)); } else { InnerPlain(key, value, rest); }
    } else {
      if format { LastLine(Text.Tabs(d), key, value, Text.Tabs(d - 1)); } else { LastPlain(key, value); }
    }
  }

  lemma PrintedMembers(members: seq<Member>, i: nat, format: bool, d: nat)
    requires i < |members|
    ensures Text.PrintMembers(members, i, format, d) == Text.Indent(format, d) + (Text.Quoted(members[i].key)
      + (Text.KeySeparator(format) + (Text.Print(members[i].value, format, d)
      + (Text.MemberEnd(format, i + 1 == |members|) + Text.PrintMembers(members, i + 1, format, d)))))
    ensures i + 1 == |members| ==> Text.PrintMembers(members, i + 1, format, d) == []
  {
  }

  lemma InnerLine(tabs: bytes, key: bytes, value: bytes, rest: bytes, closing: bytes)
    ensures ([NEWLINE] + tabs)
        + ((key + ([] + ([COLON] + ([TAB] + (value + []))))) + ([COMMA] + ([NEWLINE] + rest + closing)))
      == [NEWLINE] + (tabs + (key + ([COLON, TAB] + (value + (([COMMA] + [NEWLINE]) + rest))))) + closing
  {
    var a := [COLON, TAB] + value;
    assert [] + ([COLON] + ([TAB] + (value + []))) == a;
    assert [COLON, TAB] + (value + (([COMMA] + [NEWLINE]) + rest)) == a + ([COMMA] + ([NEWLINE] + rest));
    assert [COMMA] + ([NEWLINE] + rest + closing) == ([COMMA] + ([NEWLINE] + rest)) + closing;
    Line(tabs, key, a, [COMMA] + ([NEWLINE] + rest), closing);
  }

  lemma Line(tabs: bytes, key: bytes, a: bytes, b: bytes, closing: bytes)
    ensures ([NEWLINE] + tabs) + ((key + a) + (b + closing)) == [NEWLINE] + (tabs + (key + (a + b))) + closing
  {
  }

  lemma LastLine(tabs: bytes, key: bytes, value: bytes, closing: bytes)
    ensures ([NEWLINE] + tabs) + ((key + ([] + ([COLON] + ([TAB] + (value + ([NEWLINE] + closing)))))) + [])
      == [NEWLINE] + (tabs + (key + ([COLON, TAB] + (value + (([] + [NEWLINE]) + []))))) + closing
  {
    var a := [COLON, TAB] + value;
    assert [] + ([COLON] + ([TAB] + (value + ([NEWLINE] + closing)))) == a + ([NEWLINE] + closing);
    assert [COLON, TAB] + (value + (([] + [NEWLINE]) + [])) == a + [NEWLINE];
    assert (key + (a + ([NEWLINE] + closing))) + [] == (key + a) + ([NEWLINE] + closing);
    Line(tabs, key, a, [NEWLINE], closing);
  }

  lemma InnerPlain(key: bytes, value: bytes, rest: bytes)
    ensures [] + ((key + ([] + ([COLON] + ([] + (value + []))))) + ([COMMA] + ([] + rest + [])))
      == [] + ([] + (key + ([COLON] + (value + (([COMMA] + []) + rest))))) + []
  {
    var a := [COLON] + value;
    assert [] + ([COLON] + ([] + (value + []))) == a;
    assert [COLON] + (value + (([COMMA] + []) + rest)) == a + ([COMMA] + rest);
    assert [] + rest + [] == rest;
  }

  lemma LastPlain(key: bytes, value: bytes)
    ensures [] + ((key + ([] + ([COLON] + ([] + (value + []))))) + [])
      == [] + ([] + (key + ([COLON] + (value + (([] + []) + []))))) + []
  {
  }

  lemma ObjectEnds(printed: bytes, laid: bytes, format: bool, d: nat)
    requires laid == If(format, [NEWLINE]) + printed + If(format, Text.Tabs(d))
    ensures [OPEN_BRACE] + (laid + [CLOSE_BRACE]) == Text.ObjectOpen(format) + (printed + Text.ObjectClose(format, d))
  {
  }

  // ----- The theorem -----

  lemma DecCounts(n: int32, strtod: Strtod)
    ensures Counts(Dec(n), n, true, strtod)
  {
    hide Says;
    DecSays(n);
    DecLength(n);
  }

  /** The laid-out text is a JSON text for the value. */
  lemma {:induction false} LaidIsText(v: Value, format: bool, d: nat, strtod: Strtod)
    ensures TextOf(Laid(v, format, d), v, true, strtod)
    decreases v, 1
  {
    hide Spells, Says, Pieces, ItemsOf, EntriesOf, LaidItems, LaidEntries, NewLine, Blank, Counts;
    NewLineBlank(d);
    SomeBlank();
    match v
    case Null =>
    case Bool(b) =>
    case Number(n) =>
      DecCounts(n, strtod);
    case String(s) => StringPrinted(s);
    case Array(items) => ItemsAreText(items, true, format, d + 1, strtod);
    case Object(members) => EntriesAreText(members, format, d + 1, strtod);
  }

  lemma SomeBlank()
    ensures Blank([], true) && Blank([SPACE], true) && Blank([TAB], true)
  {
  }

  lemma NewLineBlank(d: nat)
    ensures Blank(NewLine(d), true)
  {
  }

  lemma {:induction false} ItemsAreText(items: seq<Value>, first: bool, format: bool, d: nat, strtod: Strtod)
    ensures ItemsOf(LaidItems(items, first, format, d), items, true, strtod)
    decreases items, 0
  {
    hide TextOf, Laid, Blank;
    if items != [] {
      SomeBlank();
      LaidIsText(items[0], format, d, strtod);
      ItemsAreText(items[1..], false, format, d, strtod);
    }
  }

  lemma {:induction false} EntriesAreText(members: seq<Member>, format: bool, d: nat, strtod: Strtod)
    requires d > 0
    ensures EntriesOf(LaidEntries(members, format, d), members, true, strtod)
    decreases members, 0
  {
    hide TextOf, LaidEntry, Spells, Blank, LaidEntries, EntriesOf, ParseShape.EntryOf;
    if members == [] {
      ParseShape.NoItems(strtod, true);
      NoneLaid(format, d);
    } else {
      EntryIsText(members[0], |members| == 1, format, d, strtod);
      LaidEntriesMore(members, format, d);
      EntriesAreText(members[1..], format, d, strtod);
      EntriesWhole(LaidEntries(members, format, d), members, strtod);
    }
  }

  lemma {:induction false} EntryIsText(m: Member, last: bool, format: bool, d: nat, strtod: Strtod)
    requires d > 0
    ensures ParseShape.EntryOf(LaidEntry(m, last, format, d), m, true, strtod)
    decreases m.value, 2
  {
    hide TextOf, Laid, Spells, NewLine, Pieces, Blank;
    SomeBlank();
    NewLineBlank(d);
    NewLineBlank(d - 1);
    StringPrinted(m.key);
    LaidIsText(m.value, format, d, strtod);
  }

  lemma {:induction false} EntriesWhole(all: seq<Entry>, members: seq<Member>, strtod: Strtod)
    requires all != [] && members != [] && ParseShape.EntryOf(all[0], members[0], true, strtod)
    requires EntriesOf(all[1..], members[1..], true, strtod)
    ensures EntriesOf(all, members, true, strtod)
  {
    hide Blank, TextOf, Spells;
  }

  lemma NoneLaid(format: bool, d: nat)
    requires d > 0
    ensures LaidEntries([], format, d) == []
  {
  }

  /** Parsing the NUL-terminated text printed for `v`, formatted or not, gives back exactly `v`
      with its member order, if and only if `v` is nested at most 1000 deep; otherwise it fails. */
  lemma ParsePrinted(v: Value, format: bool, requireNul: bool, strtod: Strtod)
    requires ReadsIntegers(strtod)
    ensures var r := ParseAll(Text.Print(v, format, 0) + [NUL], requireNul, strtod);
      if Nesting(v) <= NESTING_LIMIT then r.Ok? && r.value == v && r.next == |Text.Print(v, format, 0)|
      else r.Failed?
  {
    hide ParseAll, TextOf, ReadsIntegers, Laid, Source, Text.Print, Nesting;
    var x, c := Laid(v, format, 0), Text.Print(v, format, 0) + [NUL];
    PrintedIsLaid(v, format, 0);
    LaidIsText(v, format, 0, strtod);
    assert [] + ([] + (Source(x) + [NUL])) == c;
    assert [NUL][..0] == [];
    ParseText.ParsesText(false, [], x, [NUL], v, strtod);
  }
}
