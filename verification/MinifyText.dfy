/** Minifying any JSON text with white space and comments between its tokens takes exactly those out. */
module MinifyText {
  import opened Bytes
  import opened Json
  import opened Characters
  import opened Minify
  import opened Syntax
  import Grammar
  import Numerals
  import ParseText

  // ----- White space and comments -----

  datatype Filler = Space(b: byte) | LineComment(body: bytes) | BlockComment(body: bytes)

  function FillerText(x: Filler): bytes {
    match x
    case Space(b) => [b]
    case LineComment(body) => Ascii("//") + (body + Ascii("\n"))
    case BlockComment(body) => Ascii("/*") + (body + Ascii("*/"))
  }

  /** A line comment goes up to the first new line, a block comment up to the first star and slash. */
  predicate WellFormed(x: Filler) {
    match x
    case Space(b) => Blank([b], true)
    case LineComment(body) => forall i :: 0 <= i < |body| ==> body[i] as int != '\n' as int
    case BlockComment(body) =>
      var t := body + Ascii("*/");
      forall i :: 0 <= i < |body| ==> !(t[i] as int == '*' as int && t[i + 1] as int == '/' as int)
  }

  function GapText(xs: seq<Filler>): bytes {
    if xs == [] then [] else FillerText(xs[0]) + GapText(xs[1..])
  }

  /** Nothing but white space and comments. */
  ghost predicate Gap(s: bytes) {
    exists xs :: AllWellFormed(xs) && s == GapText(xs)
  }

  predicate AllWellFormed(xs: seq<Filler>) { forall i :: 0 <= i < |xs| ==> WellFormed(xs[i]) }

  lemma Marks()
    ensures Ascii("//") == [SLASH, SLASH] && Ascii("/*") == [SLASH, STAR] && Ascii("*/") == [STAR, SLASH]
    ensures Ascii("\n") == [NEWLINE]
  {
  }

  lemma {:induction false} LineEnds(c: bytes, i: nat, body: bytes)
    requires At(c, i, body + [NEWLINE]) && NEWLINE !in body
    ensures i <= |c| && AfterLine(c, i) == i + |body| + 1
    decreases |body|
  {
    AtIndex(c, i, body + [NEWLINE], 0);
    if body != [] {
      assert body + [NEWLINE] == [body[0]] + (body[1..] + [NEWLINE]);
      AtConcat(c, i, [body[0]], body[1..] + [NEWLINE]);
      LineEnds(c, i + 1, body[1..]);
    }
  }

  lemma {:induction false} BlockEnds(c: bytes, i: nat, body: bytes)
    requires At(c, i, body + [STAR, SLASH]) && WellFormed(BlockComment(body))
    ensures i <= |c| && AfterBlock(c, i) == i + |body| + 2
    decreases |body|
  {
    var t := body + [STAR, SLASH];
    Marks();
    AtIndex(c, i, t, 0);
    AtIndex(c, i, t, 1);
    if body != [] {
      var rest := body[1..];
      assert t == [body[0]] + (rest + [STAR, SLASH]);
      assert forall k :: 0 <= k < |rest| + 2 ==> (rest + [STAR, SLASH])[k] == t[k + 1];
      AtConcat(c, i, [body[0]], rest + [STAR, SLASH]);
      BlockEnds(c, i + 1, rest);
    }
  }

  lemma FillerStep(c: bytes, o: nat)
    requires o < |c|
    ensures White(c[o]) ==> Minified(c, o) == Minified(c, o + 1)
    ensures c[o] == SLASH && Is(c, o + 1, SLASH) ==> Minified(c, o) == Minified(c, AfterLine(c, o + 2))
    ensures c[o] == SLASH && Is(c, o + 1, STAR) ==> Minified(c, o) == Minified(c, AfterBlock(c, o + 2))
  {
  }

  lemma FillerMinified(x: Filler, c: bytes, o: nat)
    requires WellFormed(x) && At(c, o, FillerText(x))
    ensures o + |FillerText(x)| <= |c| && Minified(c, o) == Minified(c, o + |FillerText(x)|)
  {
    Marks();
    hide Ascii, At, Minified, AfterLine, AfterBlock;
    AtBounds(c, o, FillerText(x));
    AtIndex(c, o, FillerText(x), 0);
    match x
    case Space(b) => FillerStep(c, o);
    case LineComment(body) =>
      AtConcat(c, o, [SLASH, SLASH], body + [NEWLINE]);
      AtIndex(c, o, [SLASH, SLASH], 1);
      LineEnds(c, o + 2, body);
      FillerStep(c, o);
    case BlockComment(body) =>
      AtConcat(c, o, [SLASH, STAR], body + [STAR, SLASH]);
      AtIndex(c, o, [SLASH, STAR], 1);
      BlockEnds(c, o + 2, body);
      FillerStep(c, o);
  }

  lemma {:induction false} FillersMinified(xs: seq<Filler>, c: bytes, o: nat)
    requires At(c, o, GapText(xs)) && AllWellFormed(xs)
    ensures o + |GapText(xs)| <= |c| && Minified(c, o) == Minified(c, o + |GapText(xs)|)
    decreases |xs|
  {
    hide Minified, At, FillerText, WellFormed;
    AtBounds(c, o, GapText(xs));
    if xs != [] {
      AtConcat(c, o, FillerText(xs[0]), GapText(xs[1..]));
      FillerMinified(xs[0], c, o);
      FillersMinified(xs[1..], c, o + |FillerText(xs[0])|);
    }
  }

  lemma GapMinified(s: bytes, c: bytes, o: nat)
    requires Gap(s) && At(c, o, s)
    ensures o + |s| <= |c| && Minified(c, o) == Minified(c, o + |s|)
  {
    hide Minified, At, GapText, AllWellFormed;
    var xs :| AllWellFormed(xs) && s == GapText(xs);
    FillersMinified(xs, c, o);
  }

  // ----- Texts without gaps -----

  /** The text with everything between its tokens taken out. */
  function Bare(x: Node): Node
    decreases x
  {
    match x
    case List(_, items) => List([], BareItems(items))
    case Record(_, entries) => Record([], BareEntries(entries))
    case _ => x
  }

  function BareItems(items: seq<Item>): (r: seq<Item>)
    ensures |r| == |items|
    decreases items
  {
    if items == [] then [] else [Item([], Bare(items[0].node), [])] + BareItems(items[1..])
  }

  function BareEntries(entries: seq<Entry>): (r: seq<Entry>)
    ensures |r| == |entries|
    decreases entries
  {
    if entries == [] then []
    else
      var e := entries[0];
      [Entry([], e.key, e.sharedKey, [], [], Bare(e.node), [])] + BareEntries(entries[1..])
  }

  /** A string whose last character is written as two backslashes hides its closing quote from the
      minifier. */
  predicate Hangs(pieces: seq<Piece>) { pieces != [] && pieces[|pieces| - 1] == Short(BACKSLASH) }

  /** Only white space and comments stand between the tokens, and no string hangs. */
  ghost predicate Gapped(x: Node)
    decreases x
  {
    match x
    case Quote(pieces, _) => !Hangs(pieces)
    case List(blank, items) => Gap(blank) && ItemsGapped(items)
    case Record(blank, entries) => Gap(blank) && EntriesGapped(entries)
    case _ => true
  }

  ghost predicate ItemsGapped(items: seq<Item>)
    decreases items
  {
    forall i :: 0 <= i < |items| ==> Gap(items[i].before) && Gap(items[i].after) && Gapped(items[i].node)
  }

  ghost predicate EntriesGapped(entries: seq<Entry>)
    decreases entries
  {
    forall i :: 0 <= i < |entries| ==>
      var e := entries[i];
      Gap(e.before) && Gap(e.gap) && Gap(e.space) && Gap(e.after) && !Hangs(e.key) && Gapped(e.node)
  }

  // ----- Strings -----

  lemma HexDigitsPlain(digits: bytes)
    requires IsHex(digits)
    ensures QUOTE !in digits && BACKSLASH !in digits
  {
    forall i | 0 <= i < |digits| ensures digits[i] != QUOTE && digits[i] != BACKSLASH { assert IsHexDigit(digits[i]); }
  }

  /** One character goes through unchanged, unless it is a backslash before the closing quote. */
  lemma PieceMinified(x: Piece, s: bytes, c: bytes, j: nat)
    requires Means(x, s) && At(c, j, Render(x)) && (x == Short(BACKSLASH) ==> !Is(c, j + 2, QUOTE))
    ensures j + |Render(x)| <= |c| && InString(c, j) == Render(x) + InString(c, j + |Render(x)|)
  {
    hide InString, HexNumber, Utf8Reads;
    AtBounds(c, j, Render(x));
    match x
    case Plain(b) => InPlain(c, j, Render(x));
    case Short(b) =>
      if b == QUOTE {
        AtIndex(c, j, Render(x), 0);
        AtIndex(c, j, Render(x), 1);
        InCases(c, j);
      } else {
        InPlain(c, j, Render(x));
      }
    case Code(digits) =>
      HexDigitsPlain(digits);
      InPlain(c, j, Render(x));
    case Pair(high, low) =>
      HexDigitsPlain(high);
      HexDigitsPlain(low);
      InPlain(c, j, Render(x));
  }

  lemma PieceStarts(x: Piece, s: bytes, c: bytes, j: nat)
    requires Means(x, s) && At(c, j, Render(x))
    ensures !Is(c, j, QUOTE)
  {
    hide HexNumber, Utf8Reads;
    AtIndex(c, j, Render(x), 0);
  }

  lemma {:induction false} PiecesMinified(xs: seq<Piece>, parts: seq<bytes>, i: nat, c: bytes, j: nat)
    requires AllMean(xs, parts) && i <= |xs| && !Hangs(xs) && At(c, j, RenderFrom(xs, i) + [QUOTE])
    ensures j + |RenderFrom(xs, i)| + 1 <= |c|
    ensures InString(c, j) == RenderFrom(xs, i) + ([QUOTE] + Minified(c, j + |RenderFrom(xs, i)| + 1))
    decreases |xs| - i
  {
    hide InString, Minified, At, Render, Means;
    var rest := RenderFrom(xs, i);
    AtBounds(c, j, rest + [QUOTE]);
    AtConcat(c, j, rest, [QUOTE]);
    if i == |xs| {
      Closing(c, j);
    } else {
      var piece, more := Render(xs[i]), RenderFrom(xs, i + 1);
      AtConcat(c, j, piece, more);
      AtConcat(c, j + |piece|, more, [QUOTE]);
      if i + 1 < |xs| {
        AtConcat(c, j + |piece|, Render(xs[i + 1]), RenderFrom(xs, i + 2));
        PieceStarts(xs[i + 1], parts[i + 1], c, j + |piece|);
      }
      BackslashLength(xs[i]);
      PieceMinified(xs[i], parts[i], c, j);
      PiecesMinified(xs, parts, i + 1, c, j + |piece|);
      Regroup(piece, more, [QUOTE] + Minified(c, j + |rest| + 1));
    }
  }

  lemma BackslashLength(x: Piece)
    ensures x == Short(BACKSLASH) ==> |Render(x)| == 2
  {
  }

  lemma QuotedMinified(pieces: seq<Piece>, s: bytes, c: bytes, o: nat)
    requires Spells(pieces, false, s, true) && !Hangs(pieces) && At(c, o, QuotedText(pieces, false))
    ensures o + |QuotedText(pieces, false)| <= |c|
    ensures Minified(c, o) == QuotedText(pieces, false) + Minified(c, o + |QuotedText(pieces, false)|)
  {
    hide InString, Minified, RenderFrom, At, AllMean, Joined;
    var parts :| AllMean(pieces, parts) && s == Joined(parts, 0);
    var inner := RenderFrom(pieces, 0);
    AtBounds(c, o, QuotedText(pieces, false));
    AtConcat(c, o, [QUOTE], inner + [QUOTE]);
    Opening(c, o);
    PiecesMinified(pieces, parts, 0, c, o + 1);
    var after := Minified(c, o + |QuotedText(pieces, false)|);
    assert [QUOTE] + (inner + ([QUOTE] + after)) == ([QUOTE] + (inner + [QUOTE])) + after;
  }

  // ----- Values -----

  /** One byte of punctuation. */
  lemma MarkMinified(b: byte, c: bytes, o: nat)
    requires At(c, o, [b]) && !White(b) && b != SLASH && b != QUOTE
    ensures o < |c| && Minified(c, o) == [b] + Minified(c, o + 1)
  {
    Solid(c, o, [b]);
  }

  /** A value that holds no others has nothing to drop. */
  lemma LeafMinified(x: Node, v: Value, c: bytes, o: nat, strtod: Numerals.Strtod)
    requires !x.List? && !x.Record? && At(c, o, Source(x)) && Gapped(x) && TextOf(x, v, true, strtod)
    ensures o + |Source(x)| <= |c| && Minified(c, o) == Source(x) + Minified(c, o + |Source(x)|)
  {
    hide Minified, At, Numerals.Says, QuotedText, Spells, Hangs, Ascii;
    match x
    case NullWord => WordMinified(x, c, o);
    case BoolWord(b) => WordMinified(x, c, o);
    case Numeric(text) => NumberMinified(text, v.n, c, o);
    case Quote(pieces, shared) =>
      NotShared(pieces, shared, v.s);
      QuotedMinified(pieces, v.s, c, o);
  }

  lemma NodeParts(x: Node, v: Value, strtod: Numerals.Strtod)
    requires Gapped(x) && TextOf(Bare(x), v, true, strtod)
    ensures match x
      case List(blank, items) =>
        v.Array? && Gap(blank) && ItemsGapped(items) && ItemsOf(BareItems(items), v.items, true, strtod)
      case Record(blank, entries) =>
        v.Object? && Gap(blank) && EntriesGapped(entries) && EntriesOf(BareEntries(entries), v.members, true, strtod)
      case _ => Bare(x) == x
  {
    hide Gap, ItemsOf, EntriesOf, BareItems, BareEntries, ItemsGapped, EntriesGapped;
  }

  lemma {:induction false} NodeMinified(x: Node, v: Value, c: bytes, o: nat, strtod: Numerals.Strtod)
    requires At(c, o, Source(x)) && Gapped(x) && TextOf(Bare(x), v, true, strtod)
    ensures o + |Source(x)| <= |c| && Minified(c, o) == Source(Bare(x)) + Minified(c, o + |Source(x)|)
    decreases x, 1
  {
    hide Minified, At, Source, Gap, Gapped, TextOf, Bare, ItemsOf, EntriesOf, ItemsGapped, EntriesGapped;
    NodeParts(x, v, strtod);
    match x
    case List(blank, items) => ListMinified(blank, items, v.items, c, o, strtod);
    case Record(blank, entries) => RecordMinified(blank, entries, v.members, c, o, strtod);
    case _ => LeafMinified(x, v, c, o, strtod);
  }

  lemma WordMinified(x: Node, c: bytes, o: nat)
    requires (x.NullWord? || x.BoolWord?) && At(c, o, Source(x))
    ensures o + |Source(x)| <= |c| && Minified(c, o) == Source(x) + Minified(c, o + |Source(x)|)
  {
    hide Minified, At;
    ParseText.Words();
    AtBounds(c, o, Source(x));
    Solid(c, o, Source(x));
  }

  lemma NumberMinified(text: bytes, n: int32, c: bytes, o: nat)
    requires Numerals.Says(text, n) && At(c, o, text)
    ensures o + |text| <= |c| && Minified(c, o) == text + Minified(c, o + |text|)
  {
    hide Minified, At, Numerals.Says;
    AtBounds(c, o, text);
    Numerals.NumeralStarts(text, n);
    Solid(c, o, text);
  }

  lemma NotShared(pieces: seq<Piece>, shared: bool, s: bytes)
    requires Spells(pieces, shared, s, true)
    ensures !shared
  {
  }

  lemma {:induction false} ListMinified(blank: bytes, items: seq<Item>, values: seq<Value>, c: bytes, o: nat,
                                        strtod: Numerals.Strtod)
    requires At(c, o, Source(List(blank, items))) && Gap(blank) && ItemsGapped(items)
    requires ItemsOf(BareItems(items), values, true, strtod)
    ensures var x := List(blank, items);
      o + |Source(x)| <= |c| && Minified(c, o) == Source(Bare(x)) + Minified(c, o + |Source(x)|)
    decreases items, 1
  {
    hide Minified, At, ItemsText, Gap, ItemsOf, BareItems, ItemsGapped;
    var inner := if items == [] then blank else ItemsText(items);
    AtBounds(c, o, Source(List(blank, items)));
    AtConcat(c, o, [OPEN_BRACKET], inner + [CLOSE_BRACKET]);
    AtConcat(c, o + 1, inner, [CLOSE_BRACKET]);
    MarkMinified(OPEN_BRACKET, c, o);
    MarkMinified(CLOSE_BRACKET, c, o + 1 + |inner|);
    BareCount(items, []);
    var bare, after := ItemsText(BareItems(items)), Minified(c, o + |inner| + 2);
    Closed(OPEN_BRACKET, bare, CLOSE_BRACKET, after);
    if items == [] {
      NothingBare();
      GapMinified(blank, c, o + 1);
    } else {
      ItemsMinified(items, values, c, o + 1, strtod);
    }
  }

  lemma {:induction false} RecordMinified(blank: bytes, entries: seq<Entry>, members: seq<Member>, c: bytes, o: nat,
                                          strtod: Numerals.Strtod)
    requires At(c, o, Source(Record(blank, entries))) && Gap(blank) && EntriesGapped(entries)
    requires EntriesOf(BareEntries(entries), members, true, strtod)
    ensures var x := Record(blank, entries);
      o + |Source(x)| <= |c| && Minified(c, o) == Source(Bare(x)) + Minified(c, o + |Source(x)|)
    decreases entries, 1
  {
    hide Minified, At, EntriesText, Gap, EntriesOf, BareEntries, EntriesGapped;
    var inner := if entries == [] then blank else EntriesText(entries);
    AtBounds(c, o, Source(Record(blank, entries)));
    AtConcat(c, o, [OPEN_BRACE], inner + [CLOSE_BRACE]);
    AtConcat(c, o + 1, inner, [CLOSE_BRACE]);
    MarkMinified(OPEN_BRACE, c, o);
    MarkMinified(CLOSE_BRACE, c, o + 1 + |inner|);
    BareCount([], entries);
    var bare, after := EntriesText(BareEntries(entries)), Minified(c, o + |inner| + 2);
    Closed(OPEN_BRACE, bare, CLOSE_BRACE, after);
    if entries == [] {
      NothingBare();
      GapMinified(blank, c, o + 1);
    } else {
      EntriesMinified(entries, members, c, o + 1, strtod);
    }
  }

  lemma NothingBare()
    ensures BareItems([]) == [] && BareEntries([]) == [] && ItemsText([]) == [] && EntriesText([]) == []
  {
  }

  lemma BareCount(items: seq<Item>, entries: seq<Entry>)
    ensures BareItems(items) == [] <==> items == []
    ensures BareEntries(entries) == [] <==> entries == []
  {
  }

  lemma Closed(open: byte, inner: bytes, close: byte, after: bytes)
    ensures [open] + (inner + ([close] + after)) == ([open] + (inner + [close])) + after
    ensures [open] + ([close] + after) == ([open] + ([] + [close])) + after
  {
  }

  lemma {:induction false} BareItemsMore(items: seq<Item>, values: seq<Value>, strtod: Numerals.Strtod)
    requires items != [] && ItemsGapped(items) && ItemsOf(BareItems(items), values, true, strtod)
    ensures BareItems(items)[0] == Item([], Bare(items[0].node), []) && BareItems(items)[1..] == BareItems(items[1..])
    ensures values != [] && TextOf(Bare(items[0].node), values[0], true, strtod)
    ensures ItemsOf(BareItems(items[1..]), values[1..], true, strtod) && ItemsGapped(items[1..])
    ensures Gap(items[0].before) && Gap(items[0].after) && Gapped(items[0].node)
  {
    hide TextOf, Gap, Gapped;
  }

  lemma {:induction false} ItemsMinified(items: seq<Item>, values: seq<Value>, c: bytes, o: nat,
                                         strtod: Numerals.Strtod)
    requires items != [] && At(c, o, ItemsText(items)) && ItemsGapped(items)
    requires ItemsOf(BareItems(items), values, true, strtod)
    ensures o + |ItemsText(items)| <= |c|
    ensures Minified(c, o) == ItemsText(BareItems(items)) + Minified(c, o + |ItemsText(items)|)
    decreases items, 0
  {
    hide Minified, At, ItemsText, TextOf, Gap, Gapped, ItemsGapped, BareItems, Bare, Source, ItemsOf;
    AtBounds(c, o, ItemsText(items));
    BareItemsMore(items, values, strtod);
    ParseText.ItemsStart(items);
    ParseText.ItemsStart(BareItems(items));
    var s := HeadMinified(items, values, c, o, strtod);
    var bare, end := Source(Bare(items[0].node)), Minified(c, o + |ItemsText(items)|);
    if |items| > 1 {
      AtConcat(c, s, [COMMA], ItemsText(items[1..]));
      MarkMinified(COMMA, c, s);
      ItemsMinified(items[1..], values[1..], c, s + 1, strtod);
      Joins(bare, ItemsText(BareItems(items[1..])), end);
    } else {
      Ends(bare, end);
    }
  }

  lemma {:induction false} HeadMinified(items: seq<Item>, values: seq<Value>, c: bytes, o: nat,
                                        strtod: Numerals.Strtod) returns (z: nat)
    requires items != [] && At(c, o, ItemsText(items)) && ItemsGapped(items)
    requires ItemsOf(BareItems(items), values, true, strtod)
    ensures z <= |c| && Minified(c, o) == Source(Bare(items[0].node)) + Minified(c, z)
    ensures var rest := ParseText.ItemsRest(items); At(c, z, rest) && z + |rest| == o + |ItemsText(items)|
    decreases items[0], 3
  {
    hide Minified, At, ItemsText, TextOf, Gap, Gapped, ItemsGapped, BareItems, Bare, Source, ItemsOf;
    AtBounds(c, o, ItemsText(items));
    BareItemsMore(items, values, strtod);
    ParseText.ItemsStart(items);
    var x, rest := items[0], ParseText.ItemsRest(items);
    AtConcat(c, o, x.before, (Source(x.node) + x.after) + rest);
    var k := o + |x.before|;
    AtConcat(c, k, Source(x.node) + x.after, rest);
    AtConcat(c, k, Source(x.node), x.after);
    var q := k + |Source(x.node)|;
    z := q + |x.after|;
    GapMinified(x.before, c, o);
    NodeMinified(x.node, values[0], c, k, strtod);
    GapMinified(x.after, c, q);
  }

  lemma Joins(bare: bytes, rest: bytes, end: bytes)
    ensures bare + ([COMMA] + (rest + end)) == ([] + ((bare + []) + ([COMMA] + rest))) + end
    ensures bare + ([COMMA] + (rest + end)) == ([] + (bare + ([COMMA] + rest))) + end
  {
    assert bare + [] == bare;
  }

  lemma Ends(bare: bytes, end: bytes)
    ensures bare + end == ([] + ((bare + []) + [])) + end
    ensures bare + end == ([] + (bare + [])) + end
  {
    assert bare + [] == bare;
  }

  // ----- Members -----

  lemma {:induction false} BareEntriesMore(entries: seq<Entry>, members: seq<Member>, strtod: Numerals.Strtod)
    requires entries != [] && EntriesGapped(entries) && EntriesOf(BareEntries(entries), members, true, strtod)
    ensures var e := entries[0];
      && BareEntries(entries)[0] == Entry([], e.key, e.sharedKey, [], [], Bare(e.node), [])
      && BareEntries(entries)[1..] == BareEntries(entries[1..])
      && members != [] && TextOf(Bare(e.node), members[0].value, true, strtod)
      && Spells(e.key, e.sharedKey, members[0].key, true) && !e.sharedKey
      && Gap(e.before) && Gap(e.gap) && Gap(e.space) && Gap(e.after) && !Hangs(e.key) && Gapped(e.node)
    ensures EntriesOf(BareEntries(entries[1..]), members[1..], true, strtod) && EntriesGapped(entries[1..])
  {
    hide TextOf, Gap, Gapped, AllMean;
  }

  lemma {:induction false} EntryMinified(e: Entry, m: Member, c: bytes, k: nat, strtod: Numerals.Strtod)
    requires At(c, k, EntryText(e)) && !e.sharedKey && TextOf(Bare(e.node), m.value, true, strtod)
    requires Spells(e.key, false, m.key, true) && !Hangs(e.key)
    requires Gap(e.gap) && Gap(e.space) && Gap(e.after) && Gapped(e.node)
    ensures k + |EntryText(e)| <= |c|
    ensures Minified(c, k)
      == (QuotedText(e.key, false) + ([COLON] + Source(Bare(e.node)))) + Minified(c, k + |EntryText(e)|)
    decreases e, 0
  {
    hide Minified, At, TextOf, Gap, Gapped, Bare, Source, QuotedText, Spells, Hangs;
    AtBounds(c, k, EntryText(e));
    var key, value := QuotedText(e.key, false), Source(e.node);
    AtConcat(c, k, key, e.gap + ([COLON] + (e.space + (value + e.after))));
    var q := k + |key|;
    AtConcat(c, q, e.gap, [COLON] + (e.space + (value + e.after)));
    var s := q + |e.gap|;
    AtConcat(c, s, [COLON], e.space + (value + e.after));
    AtConcat(c, s + 1, e.space, value + e.after);
    var x := s + 1 + |e.space|;
    AtConcat(c, x, value, e.after);
    QuotedMinified(e.key, m.key, c, k);
    GapMinified(e.gap, c, q);
    MarkMinified(COLON, c, s);
    GapMinified(e.space, c, s + 1);
    NodeMinified(e.node, m.value, c, x, strtod);
    GapMinified(e.after, c, x + |value|);
    var bare, end := Source(Bare(e.node)), Minified(c, k + |EntryText(e)|);
    assert key + ([COLON] + (bare + end)) == (key + ([COLON] + bare)) + end;
  }

  lemma BareEntryText(e: Entry)
    requires !e.sharedKey && e.gap == [] && e.space == [] && e.after == []
    ensures EntryText(e) == QuotedText(e.key, false) + ([COLON] + Source(e.node))
  {
    hide QuotedText, Source;
    assert [] + ([COLON] + ([] + (Source(e.node) + []))) == [COLON] + Source(e.node);
  }

  lemma {:induction false} EntriesMinified(entries: seq<Entry>, members: seq<Member>, c: bytes, o: nat,
                                           strtod: Numerals.Strtod)
    requires entries != [] && At(c, o, EntriesText(entries)) && EntriesGapped(entries)
    requires EntriesOf(BareEntries(entries), members, true, strtod)
    ensures o + |EntriesText(entries)| <= |c|
    ensures Minified(c, o) == EntriesText(BareEntries(entries)) + Minified(c, o + |EntriesText(entries)|)
    decreases entries, 0
  {
    hide Minified, At, EntriesText, TextOf, Gap, Gapped, EntriesGapped, BareEntries, Bare, Source, EntriesOf, EntryText,
         Spells, Hangs, QuotedText;
    AtBounds(c, o, EntriesText(entries));
    BareEntriesMore(entries, members, strtod);
    ParseText.EntriesStart(entries);
    ParseText.EntriesStart(BareEntries(entries));
    var bare, end := EntryText(BareEntries(entries)[0]), Minified(c, o + |EntriesText(entries)|);
    var z := FirstMinified(entries, members, c, o, strtod);
    if |entries| > 1 {
      AtConcat(c, z, [COMMA], EntriesText(entries[1..]));
      MarkMinified(COMMA, c, z);
      EntriesMinified(entries[1..], members[1..], c, z + 1, strtod);
      Joins(bare, EntriesText(BareEntries(entries[1..])), end);
    } else {
      Ends(bare, end);
    }
  }

  lemma {:induction false} FirstMinified(entries: seq<Entry>, members: seq<Member>, c: bytes, o: nat,
                                         strtod: Numerals.Strtod) returns (z: nat)
    requires entries != [] && At(c, o, EntriesText(entries)) && EntriesGapped(entries)
    requires EntriesOf(BareEntries(entries), members, true, strtod)
    ensures z <= |c| && Minified(c, o) == EntryText(BareEntries(entries)[0]) + Minified(c, z)
    ensures var rest := ParseText.EntriesRest(entries); At(c, z, rest) && z + |rest| == o + |EntriesText(entries)|
    decreases entries[0], 3
  {
    hide Minified, At, EntriesText, TextOf, Gap, Gapped, EntriesGapped, BareEntries, Bare, Source, EntriesOf, EntryText,
         Spells, Hangs, QuotedText;
    AtBounds(c, o, EntriesText(entries));
    BareEntriesMore(entries, members, strtod);
    ParseText.EntriesStart(entries);
    var e, rest := entries[0], ParseText.EntriesRest(entries);
    AtConcat(c, o, e.before, EntryText(e) + rest);
    var k := o + |e.before|;
    AtConcat(c, k, EntryText(e), rest);
    z := k + |EntryText(e)|;
    GapMinified(e.before, c, o);
    EntryMinified(e, members[0], c, k, strtod);
    BareEntryText(BareEntries(entries)[0]);
  }

  // ----- The theorem -----

  /** A JSON text for `v` with white space and comments before, between and after its tokens, and no
      hanging string: minifying gives exactly the text without them, which is a JSON text for `v` too. */
  lemma MinifiesText(before: bytes, x: Node, after: bytes, v: Value, strtod: Numerals.Strtod)
    requires Gap(before) && Gap(after) && Gapped(x) && TextOf(Bare(x), v, true, strtod)
    ensures Minified(before + (Source(x) + after), 0) == Source(Bare(x))
  {
    hide Minified, At, TextOf, Gap, Gapped, Bare, Source;
    var c := before + (Source(x) + after);
    ParseText.AtWhole(c);
    AtConcat(c, 0, before, Source(x) + after);
    AtConcat(c, |before|, Source(x), after);
    GapMinified(before, c, 0);
    NodeMinified(x, v, c, |before|, strtod);
    GapMinified(after, c, |before| + |Source(x)|);
    AtEnd(c);
    assert Source(Bare(x)) + [] == Source(Bare(x));
  }
}
