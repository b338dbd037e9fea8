/** Every JSON text is parsed to its value, whatever white space, escapes and numerals it is written with,
    and refused only when it is nested too deep. */
module ParseText {
  import opened Bytes
  import opened Decimal
  import opened Json
  import opened Characters
  import opened Literal
  import opened Numerals
  import opened Grammar
  import opened Syntax
  import Text

  // ----- Strings -----

  lemma StringParsed(c: bytes, o: nat, pieces: seq<Piece>, s: cstring)
    requires At(c, o, QuotedText(pieces, false)) && Spells(pieces, false, s, true)
    ensures StringAt(c, o) == Ok(s, o + |QuotedText(pieces, false)|)
  {
    hide At, ScanEnd, Decode, RenderFrom, AllMean, Joined;
    var parts :| AllMean(pieces, parts) && s == Joined(parts, 0);
    var inner := RenderFrom(pieces, 0);
    AtConcat(c, o, [QUOTE], inner + [QUOTE]);
    AtConcat(c, o + 1, inner, [QUOTE]);
    var e := o + 1 + |inner|;
    AtIndex(c, o, [QUOTE], 0);
    AtIndex(c, e, [QUOTE], 0);
    WellFormedLiteral(c, o + 1, e, pieces, parts);
  }

  // ----- Numbers -----

  /** No number byte at `o`: a number just before it ends there. */
  predicate NumberEnds(c: bytes, o: nat) { o < |c| ==> !IsNumberByte(c[o]) }

  lemma {:induction false} SpanBack(c: bytes, o: nat, i: nat, n: nat)
    requires i <= n <= 63 && o + n <= |c| && NumberEnds(c, o + n)
    requires forall k :: o <= k < o + n ==> IsNumberByte(c[k])
    ensures NumberSpan(c, o, i) == n
    decreases n - i
  {
    if i < n { SpanBack(c, o, i + 1, n); }
  }

  lemma CutExact(d: real, n: int32)
    ensures Saturate(d) == n <==> CutTo(d, n)
  {
  }

  lemma NumberParsed(c: bytes, o: nat, text: bytes, n: int32, strtod: Strtod)
    requires At(c, o, text) && NumberEnds(c, o + |text|) && Counts(text, n, true, strtod) && ReadsIntegers(strtod)
    ensures NumberAt(c, o, strtod) == Ok(n, o + |text|)
  {
    hide Says, CutTo, Saturate;
    NumeralStarts(text, n);
    forall k | o <= k < o + |text| ensures IsNumberByte(c[k]) { AtIndex(c, o, text, k - o); }
    SpanBack(c, o, 0, |text|);
    assert strtod(text) == (|text|, n as real);
    WholeCut(n);
    CutExact(n as real, n);
  }

  lemma WholeCut(n: int32)
    ensures CutTo(n as real, n)
  {
  }

  // ----- White space -----

  /** Only white space from `o` up to `p`. */
  predicate White(c: bytes, o: nat, p: nat) {
    o <= p <= |c| && forall k :: o <= k < p ==> c[k] <= 32
  }

  lemma {:induction false} SkipWhite(c: bytes, o: nat, p: nat)
    requires White(c, o, p) && p < |c| && c[p] > 32
    ensures Skip(c, o) == p
    decreases p - o
  {
    if o < p { SkipWhite(c, o + 1, p); }
  }

  lemma BlankWhite(c: bytes, o: nat, s: bytes)
    requires At(c, o, s) && Blank(s, true)
    ensures White(c, o, o + |s|) && (s != [] ==> NumberEnds(c, o))
  {
    forall k | o <= k < o + |s| ensures c[k] <= 32 { AtIndex(c, o, s, k - o); }
  }

  /** White space, then a byte that is none. */
  lemma SkipBlank(c: bytes, o: nat, s: bytes)
    requires At(c, o, s) && Blank(s, true) && o + |s| < |c| && c[o + |s|] > 32
    ensures Skip(c, o) == o + |s|
  {
    BlankWhite(c, o, s);
    SkipWhite(c, o, o + |s|);
  }

  // ----- Values -----

  lemma NotWord(c: bytes, o: nat, word: bytes)
    requires o < |c| && word != [] && c[o] != word[0]
    ensures !At(c, o, word)
  {
    if At(c, o, word) { AtIndex(c, o, word, 0); }
  }

  lemma Words()
    ensures Ascii("null") == Text.NULL_TEXT
    ensures Ascii("true") == Text.TRUE_TEXT && Ascii("false") == Text.FALSE_TEXT
  {
  }

  lemma OtherWords(c: bytes, o: nat)
    requires o < |c|
    ensures c[o] != 110 ==> !At(c, o, Text.NULL_TEXT)
    ensures c[o] != 102 ==> !At(c, o, Text.FALSE_TEXT)
    ensures c[o] != 116 ==> !At(c, o, Text.TRUE_TEXT)
  {
    if c[o] != 110 { NotWord(c, o, Text.NULL_TEXT); }
    if c[o] != 102 { NotWord(c, o, Text.FALSE_TEXT); }
    if c[o] != 116 { NotWord(c, o, Text.TRUE_TEXT); }
  }

  /** The first byte of a text tells its kind and is never white space. */
  lemma {:induction false} FirstByte(x: Node, v: Value, strtod: Strtod)
    requires TextOf(x, v, true, strtod)
    ensures Source(x) != []
    ensures var b := Source(x)[0];
      && 32 < b < 0x80 && b != CLOSE_BRACKET && b != COMMA
      && (x.NullWord? ==> b == 110) && (x.BoolWord? ==> b == if x.b then 116 else 102)
      && (x.Quote? ==> b == QUOTE) && (x.Numeric? ==> b == MINUS || IsDigit(b))
      && (x.List? ==> b == OPEN_BRACKET) && (x.Record? ==> b == OPEN_BRACE)
  {
    hide Says;
    Words();
    if x.Numeric? { NumeralStarts(x.text, v.n); }
  }

  /** What parsing is to answer: the value, unless it lies too deep. */
  function Expected<T>(depth: nat, nesting: nat, value: T, next: nat): Parsed<T> {
    if depth + nesting <= NESTING_LIMIT then Ok(value, next) else Failed
  }

  /** The first byte of a value selects how it is parsed. */
  lemma Dispatch(c: bytes, o: nat, depth: nat, strtod: Strtod)
    requires o < |c|
    ensures var r, b := ValueAt(c, o, depth, strtod), c[o];
      && (At(c, o, Text.NULL_TEXT) ==> r == Ok(Null, o + 4))
      && (b == 102 && At(c, o, Text.FALSE_TEXT) ==> r == Ok(Bool(false), o + 5))
      && (b == 116 && At(c, o, Text.TRUE_TEXT) ==> r == Ok(Bool(true), o + 4))
      && (b == QUOTE && StringAt(c, o).Ok? ==> r == Ok(String(StringAt(c, o).value), StringAt(c, o).next))
      && ((b == MINUS || IsDigit(b)) && NumberAt(c, o, strtod).Ok? ==>
          r == Ok(Number(NumberAt(c, o, strtod).value), NumberAt(c, o, strtod).next))
      && (b == OPEN_BRACKET ==>
          match ArrayAt(c, o, depth, strtod)
          case Ok(items, next) => r == Ok(Array(items), next)
          case Failed => r == Failed
          case Overran => true)
      && (b == OPEN_BRACE ==>
          match ObjectAt(c, o, depth, strtod)
          case Ok(members, next) => r == Ok(Object(members), next)
          case Failed => r == Failed
          case Overran => true)
  {
    hide At, NumberAt, StringAt, ArrayAt, ObjectAt;
    OtherWords(c, o);
  }

  lemma {:induction false} ValueParsed(c: bytes, o: nat, x: Node, v: Value, depth: nat, strtod: Strtod)
    requires At(c, o, Source(x)) && TextOf(x, v, true, strtod) && NumberEnds(c, o + |Source(x)|)
    requires ReadsIntegers(strtod) && depth <= NESTING_LIMIT
    ensures ValueAt(c, o, depth, strtod) == Expected(depth, Nesting(v), v, o + |Source(x)|)
    decreases x, 1
  {
    hide At, ValueAt, NumberAt, StringAt, ArrayAt, ObjectAt, ItemsText, EntriesText, QuotedText, ReadsIntegers, Counts,
         Ascii, ItemsOf, EntriesOf, Blank, Spells, NumberEnds, ItemsNesting, MembersNesting;
    FirstByte(x, v, strtod);
    AtIndex(c, o, Source(x), 0);
    Dispatch(c, o, depth, strtod);
    match x
    case NullWord => Words();
    case BoolWord(b) => Words();
    case Numeric(text) =>
      NumberParsed(c, o, text, v.n, strtod);
    case Quote(pieces, shared) =>
      Unshared(pieces, shared, v.s);
      StringParsed(c, o, pieces, v.s);
    case List(blank, items) =>
      ListParsed(c, o, blank, items, v.items, depth, strtod);
    case Record(blank, entries) =>
      RecordParsed(c, o, blank, entries, v.members, depth, strtod);
  }

  lemma Unshared(pieces: seq<Piece>, shared: bool, s: cstring)
    requires Spells(pieces, shared, s, true)
    ensures !shared
  {
  }

  // ----- Arrays -----

  lemma {:induction false} ListParsed(c: bytes, o: nat, blank: bytes, items: seq<Item>, values: seq<Value>, depth: nat,
                                      strtod: Strtod)
    requires At(c, o, Source(List(blank, items))) && Blank(blank, true) && ItemsOf(items, values, true, strtod)
    requires ReadsIntegers(strtod) && depth <= NESTING_LIMIT
    ensures o < |c|
    ensures ArrayAt(c, o, depth, strtod)
      == Expected(depth, 1 + ItemsNesting(values), values, o + |Source(List(blank, items))|)
    decreases items, 1
  {
    hide ItemsAt, ItemsNesting, ItemsText, ReadsIntegers, Skip, At, Blank, ItemsOf;
    var inner := if items == [] then blank else ItemsText(items);
    AtConcat(c, o, [OPEN_BRACKET], inner + [CLOSE_BRACKET]);
    AtConcat(c, o + 1, inner, [CLOSE_BRACKET]);
    AtIndex(c, o, [OPEN_BRACKET], 0);
    AtIndex(c, o + 1 + |inner|, [CLOSE_BRACKET], 0);
    SameCount(items, values, strtod);
    if depth < NESTING_LIMIT {
      if items == [] {
        SkipBlank(c, o + 1, blank);
        NoNesting();
      } else {
        var p := ItemsParsed(c, o, o + 1, items, values, depth + 1, strtod);
      }
    }
  }

  lemma {:induction false} SameCount(items: seq<Item>, values: seq<Value>, strtod: Strtod)
    requires ItemsOf(items, values, true, strtod)
    ensures |items| == |values|
  {
  }

  lemma NoNesting()
    ensures ItemsNesting([]) == 0 && MembersNesting([]) == 0
  {
  }

  /** The first item, its surroundings and the items after it. */
  lemma {:induction false} ItemsSplit(items: seq<Item>, values: seq<Value>, strtod: Strtod)
    requires items != [] && ItemsOf(items, values, true, strtod)
    ensures values != [] && values == [values[0]] + values[1..]
    ensures ItemsNesting(values) == Max(Nesting(values[0]), ItemsNesting(values[1..]))
    ensures Blank(items[0].before, true) && Blank(items[0].after, true)
    ensures TextOf(items[0].node, values[0], true, strtod)
    ensures ItemsOf(items[1..], values[1..], true, strtod)
    ensures |items| == 1 ==> values == [values[0]] && ItemsNesting(values[1..]) == 0
  {
  }

  function ItemsRest(items: seq<Item>): bytes
    requires items != []
  {
    if |items| == 1 then [] else [COMMA] + ItemsText(items[1..])
  }

  lemma {:induction false} ItemsStart(items: seq<Item>)
    requires items != []
    ensures ItemsText(items) == items[0].before + ((Source(items[0].node) + items[0].after) + ItemsRest(items))
  {
  }

  /** Where the first item's text starts and where it ends, behind the white space. */
  lemma {:induction false} ItemAt(c: bytes, p: nat, items: seq<Item>, values: seq<Value>, strtod: Strtod)
    returns (k: nat, q: nat, s: nat)
    requires items != [] && ItemsOf(items, values, true, strtod) && At(c, p, ItemsText(items))
    requires IsByteAt(c, p + |ItemsText(items)|, CLOSE_BRACKET)
    ensures p <= k <= q <= s < |c| && c[k] > 32 && c[k] != CLOSE_BRACKET && Skip(c, p) == k && Skip(c, k) == k
    ensures At(c, k, Source(items[0].node)) && q == k + |Source(items[0].node)| && Skip(c, q) == s && NumberEnds(c, q)
    ensures At(c, s, ItemsRest(items)) && p + |ItemsText(items)| == s + |ItemsRest(items)|
  {
    hide ItemsText, Source, Skip, At, Blank, TextOf, ItemsOf, ItemsRest, NumberEnds;
    ItemsSplit(items, values, strtod);
    ItemsStart(items);
    var x, rest := items[0], ItemsRest(items);
    AtConcat(c, p, x.before, (Source(x.node) + x.after) + rest);
    k := p + |x.before|;
    AtConcat(c, k, Source(x.node) + x.after, rest);
    AtConcat(c, k, Source(x.node), x.after);
    q := k + |Source(x.node)|;
    s := q + |x.after|;
    FirstByte(x.node, values[0], strtod);
    AtIndex(c, k, Source(x.node), 0);
    SkipBlank(c, p, x.before);
    WhiteEmpty(c, k);
    SkipWhite(c, k, k);
    CommaOrClose(c, s, items);
    EndOfNumber(c, q, x.after);
    SkipBlank(c, q, x.after);
  }

  lemma WhiteEmpty(c: bytes, o: nat)
    requires o <= |c|
    ensures White(c, o, o)
  {
  }

  lemma CommaOrClose(c: bytes, s: nat, items: seq<Item>)
    requires items != [] && At(c, s, ItemsRest(items)) && IsByteAt(c, s + |ItemsRest(items)|, CLOSE_BRACKET)
    ensures if |items| == 1 then IsByteAt(c, s, CLOSE_BRACKET)
            else IsByteAt(c, s, COMMA) && At(c, s + 1, ItemsText(items[1..]))
  {
    hide At, ItemsText;
    if |items| > 1 {
      AtConcat(c, s, [COMMA], ItemsText(items[1..]));
      AtIndex(c, s, [COMMA], 0);
    }
  }

  /** White space, a comma or a closing bracket or brace ends a number. */
  lemma EndOfNumber(c: bytes, q: nat, after: bytes)
    requires At(c, q, after) && Blank(after, true) && q + |after| < |c|
    requires c[q + |after|] in {COMMA, CLOSE_BRACKET, CLOSE_BRACE}
    ensures NumberEnds(c, q)
  {
    if after != [] { AtIndex(c, q, after, 0); }
  }

  lemma {:induction false} ItemsParsed(c: bytes, o: nat, p: nat, items: seq<Item>, values: seq<Value>, depth: nat,
                                       strtod: Strtod) returns (k: nat)
    requires items != [] && ItemsOf(items, values, true, strtod) && p == o + 1 && At(c, p, ItemsText(items))
    requires IsByteAt(c, p + |ItemsText(items)|, CLOSE_BRACKET)
    requires ReadsIntegers(strtod) && depth <= NESTING_LIMIT
    ensures o < k < |c| && Skip(c, p) == k && c[k] != CLOSE_BRACKET
    ensures ItemsAt(c, o, depth, strtod) == ItemsAt(c, k - 1, depth, strtod)
    ensures ItemsAt(c, o, depth, strtod)
      == Expected(depth, ItemsNesting(values), values, p + |ItemsText(items)| + 1)
    decreases items, 0
  {
    hide ItemsAt, ValueAt, Nesting, ItemsNesting, ItemsText, Source, Skip, At, ReadsIntegers, TextOf, ItemsOf, Blank,
         NumberEnds, ItemsRest;
    ItemsSplit(items, values, strtod);
    var q, s;
    k, q, s := ItemAt(c, p, items, values, strtod);
    CommaOrClose(c, s, items);
    ValueParsed(c, k, items[0].node, values[0], depth, strtod);
    ItemsStep(c, o, k, values[0], Nesting(values[0]), q, s, depth, strtod);
    ItemsOffset(c, o, k, depth, strtod);
    RestLength(items);
    if |items| > 1 {
      var k' := ItemsParsed(c, s, s + 1, items[1..], values[1..], depth, strtod);
    }
  }

  lemma RestLength(items: seq<Item>)
    requires items != []
    ensures |ItemsRest(items)| == if |items| == 1 then 0 else 1 + |ItemsText(items[1..])|
  {
  }

  /** One turn of the loop over the elements. */
  lemma ItemsStep(c: bytes, o: nat, k: nat, v: Value, nesting: nat, q: nat, s: nat, depth: nat, strtod: Strtod)
    requires o < |c| && k == Skip(c, o + 1) && k <= q <= |c| && s == Skip(c, q)
    requires ValueAt(c, k, depth, strtod) == Expected(depth, nesting, v, q)
    ensures depth + nesting > NESTING_LIMIT ==> ItemsAt(c, o, depth, strtod) == Failed
    ensures depth + nesting <= NESTING_LIMIT && IsByteAt(c, s, CLOSE_BRACKET) ==>
      ItemsAt(c, o, depth, strtod) == Ok([v], s + 1)
    ensures depth + nesting <= NESTING_LIMIT && IsByteAt(c, s, COMMA) ==>
      var r := ItemsAt(c, s, depth, strtod);
      ItemsAt(c, o, depth, strtod) == if r.Ok? then Ok([v] + r.value, r.next) else r
  {
    hide ValueAt, Skip;
  }

  /** Where the search for an element starts does not matter. */
  lemma ItemsOffset(c: bytes, o: nat, k: nat, depth: nat, strtod: Strtod)
    requires o < k < |c| && Skip(c, o + 1) == k && Skip(c, k) == k
    ensures ItemsAt(c, o, depth, strtod) == ItemsAt(c, k - 1, depth, strtod)
  {
    hide ValueAt, Skip;
  }

  // ----- Objects -----

  lemma {:induction false} RecordParsed(c: bytes, o: nat, blank: bytes, entries: seq<Entry>, members: seq<Member>,
                                        depth: nat, strtod: Strtod)
    requires At(c, o, Source(Record(blank, entries))) && Blank(blank, true) && EntriesOf(entries, members, true, strtod)
    requires ReadsIntegers(strtod) && depth <= NESTING_LIMIT
    ensures o < |c|
    ensures ObjectAt(c, o, depth, strtod)
      == Expected(depth, 1 + MembersNesting(members), members, o + |Source(Record(blank, entries))|)
    decreases entries, 1
  {
    hide MembersAt, MembersNesting, EntriesText, ReadsIntegers, Skip, At, Blank, EntriesOf;
    var inner := if entries == [] then blank else EntriesText(entries);
    AtConcat(c, o, [OPEN_BRACE], inner + [CLOSE_BRACE]);
    AtConcat(c, o + 1, inner, [CLOSE_BRACE]);
    AtIndex(c, o, [OPEN_BRACE], 0);
    AtIndex(c, o + 1 + |inner|, [CLOSE_BRACE], 0);
    SameEntries(entries, members, strtod);
    if depth < NESTING_LIMIT {
      if entries == [] {
        SkipBlank(c, o + 1, blank);
        NoNesting();
      } else {
        var p := EntriesParsed(c, o, o + 1, entries, members, depth + 1, strtod);
      }
    }
  }

  lemma {:induction false} SameEntries(entries: seq<Entry>, members: seq<Member>, strtod: Strtod)
    requires EntriesOf(entries, members, true, strtod)
    ensures |entries| == |members|
  {
  }

  lemma {:induction false} EntriesSplit(entries: seq<Entry>, members: seq<Member>, strtod: Strtod)
    requires entries != [] && EntriesOf(entries, members, true, strtod)
    ensures members != [] && members == [members[0]] + members[1..]
    ensures MembersNesting(members) == Max(Nesting(members[0].value), MembersNesting(members[1..]))
    ensures var e := entries[0];
      && Blank(e.before, true) && Blank(e.gap, true) && Blank(e.space, true) && Blank(e.after, true)
      && Spells(e.key, e.sharedKey, members[0].key, true) && TextOf(e.node, members[0].value, true, strtod)
      && !e.sharedKey
    ensures EntriesOf(entries[1..], members[1..], true, strtod)
    ensures |entries| == 1 ==> members == [members[0]] && MembersNesting(members[1..]) == 0
  {
  }

  function EntriesRest(entries: seq<Entry>): bytes
    requires entries != []
  {
    if |entries| == 1 then [] else [COMMA] + EntriesText(entries[1..])
  }

  lemma {:induction false} EntriesStart(entries: seq<Entry>)
    requires entries != []
    ensures EntriesText(entries) == entries[0].before + (EntryText(entries[0]) + EntriesRest(entries))
  {
  }

  lemma QuotedStarts(pieces: seq<Piece>, shared: bool)
    ensures |QuotedText(pieces, shared)| > 0 && QuotedText(pieces, shared)[0] == QUOTE
  {
  }

  /** Where the first entry starts and what follows it. */
  lemma {:induction false} EntryAt(c: bytes, p: nat, entries: seq<Entry>, members: seq<Member>, strtod: Strtod)
    returns (k: nat, z: nat)
    requires entries != [] && EntriesOf(entries, members, true, strtod) && At(c, p, EntriesText(entries))
    ensures p <= k < z <= |c| && At(c, k, EntryText(entries[0])) && z == k + |EntryText(entries[0])|
    ensures IsByteAt(c, k, QUOTE) && Skip(c, p) == k && Skip(c, k) == k
    ensures At(c, z, EntriesRest(entries)) && p + |EntriesText(entries)| == z + |EntriesRest(entries)|
  {
    hide EntriesText, Skip, At, Blank, TextOf, EntriesOf, Spells, EntryText, EntriesRest;
    EntriesSplit(entries, members, strtod);
    EntriesStart(entries);
    var e := entries[0];
    AtConcat(c, p, e.before, EntryText(e) + EntriesRest(entries));
    k := p + |e.before|;
    AtConcat(c, k, EntryText(e), EntriesRest(entries));
    z := k + |EntryText(e)|;
    EntryStarts(e);
    AtIndex(c, k, EntryText(e), 0);
    SkipBlank(c, p, e.before);
    WhiteEmpty(c, k);
    SkipWhite(c, k, k);
    AtFits(c, z, EntriesRest(entries));
  }

  lemma EntryStarts(e: Entry)
    ensures |EntryText(e)| > 0 && EntryText(e)[0] == QUOTE
  {
    hide Source;
    QuotedStarts(e.key, e.sharedKey);
  }

  lemma AtFits(c: bytes, o: nat, t: bytes)
    requires At(c, o, t)
    ensures o + |t| <= |c|
  {
  }

  /** Where the colon, the value and the white space after it lie. */
  lemma {:induction false} ColonAt(c: bytes, k: nat, z: nat, e: Entry, m: Member, strtod: Strtod)
    returns (q: nat, s: nat, x: nat, y: nat)
    requires Blank(e.gap, true) && Blank(e.space, true) && TextOf(e.node, m.value, true, strtod)
    requires At(c, k, EntryText(e)) && z == k + |EntryText(e)|
    ensures At(c, k, QuotedText(e.key, e.sharedKey)) && q == k + |QuotedText(e.key, e.sharedKey)|
    ensures q <= s < x <= y <= z <= |c| && IsByteAt(c, s, COLON) && Skip(c, q) == s && Skip(c, s + 1) == x
    ensures At(c, x, Source(e.node)) && y == x + |Source(e.node)| && At(c, y, e.after) && z == y + |e.after|
  {
    hide Source, Skip, At, Blank, TextOf, QuotedText;
    var key, value := QuotedText(e.key, e.sharedKey), Source(e.node);
    AtConcat(c, k, key, e.gap + ([COLON] + (e.space + (value + e.after))));
    q := k + |key|;
    AtConcat(c, q, e.gap, [COLON] + (e.space + (value + e.after)));
    s := q + |e.gap|;
    AtConcat(c, s, [COLON], e.space + (value + e.after));
    AtIndex(c, s, [COLON], 0);
    AtConcat(c, s + 1, e.space, value + e.after);
    x := s + 1 + |e.space|;
    AtConcat(c, x, value, e.after);
    y := x + |value|;
    FirstByte(e.node, m.value, strtod);
    AtIndex(c, x, value, 0);
    SkipBlank(c, q, e.gap);
    SkipBlank(c, s + 1, e.space);
    AtFits(c, y, e.after);
  }

  lemma CommaOrBrace(c: bytes, z: nat, entries: seq<Entry>)
    requires entries != [] && At(c, z, EntriesRest(entries)) && IsByteAt(c, z + |EntriesRest(entries)|, CLOSE_BRACE)
    ensures if |entries| == 1 then IsByteAt(c, z, CLOSE_BRACE)
            else IsByteAt(c, z, COMMA) && At(c, z + 1, EntriesText(entries[1..]))
  {
    hide At, EntriesText;
    if |entries| > 1 {
      AtConcat(c, z, [COMMA], EntriesText(entries[1..]));
      AtIndex(c, z, [COMMA], 0);
    }
  }

  lemma {:induction false} EntriesParsed(c: bytes, o: nat, p: nat, entries: seq<Entry>, members: seq<Member>,
                                         depth: nat, strtod: Strtod) returns (k: nat)
    requires entries != [] && EntriesOf(entries, members, true, strtod) && p == o + 1 && At(c, p, EntriesText(entries))
    requires IsByteAt(c, p + |EntriesText(entries)|, CLOSE_BRACE)
    requires ReadsIntegers(strtod) && depth <= NESTING_LIMIT
    ensures o < k < |c| && Skip(c, p) == k && c[k] == QUOTE
    ensures MembersAt(c, o, depth, strtod) == MembersAt(c, k - 1, depth, strtod)
    ensures MembersAt(c, o, depth, strtod)
      == Expected(depth, MembersNesting(members), members, p + |EntriesText(entries)| + 1)
    decreases entries, 0
  {
    hide MembersAt, MemberAt, Nesting, MembersNesting, EntriesText, Skip, At, ReadsIntegers, TextOf, EntriesOf, Blank,
         Spells, EntryText, EntriesRest;
    EntriesSplit(entries, members, strtod);
    var z, y;
    k, z := EntryAt(c, p, entries, members, strtod);
    CommaOrBrace(c, z, entries);
    y := EntryParsed(c, k, z, entries[0], members[0], depth, strtod);
    OneOffset(c, o, k, depth, strtod);
    MembersStep(c, o, members[0], Nesting(members[0].value), y, z, depth, strtod);
    MembersOffset(c, o, k, depth, strtod);
    EntriesLength(entries);
    if |entries| > 1 {
      var k' := EntriesParsed(c, z, z + 1, entries[1..], members[1..], depth, strtod);
    }
  }

  lemma EntriesLength(entries: seq<Entry>)
    requires entries != []
    ensures |EntriesRest(entries)| == if |entries| == 1 then 0 else 1 + |EntriesText(entries[1..])|
  {
  }

  /** One turn of the loop over the members. */
  lemma MembersStep(c: bytes, o: nat, m: Member, nesting: nat, y: nat, z: nat, depth: nat, strtod: Strtod)
    requires o < |c| && y <= |c| && z == Skip(c, y)
    requires MemberAt(c, o, depth, strtod) == Expected(depth, nesting, m, y)
    ensures depth + nesting > NESTING_LIMIT ==> MembersAt(c, o, depth, strtod) == Failed
    ensures depth + nesting <= NESTING_LIMIT && IsByteAt(c, z, CLOSE_BRACE) ==>
      MembersAt(c, o, depth, strtod) == Ok([m], z + 1)
    ensures depth + nesting <= NESTING_LIMIT && IsByteAt(c, z, COMMA) ==>
      var r := MembersAt(c, z, depth, strtod);
      MembersAt(c, o, depth, strtod) == if r.Ok? then Ok([m] + r.value, r.next) else r
  {
    hide MemberAt, Skip;
  }

  lemma MembersOffset(c: bytes, o: nat, k: nat, depth: nat, strtod: Strtod)
    requires o < k < |c| && MemberAt(c, o, depth, strtod) == MemberAt(c, k - 1, depth, strtod)
    ensures MembersAt(c, o, depth, strtod) == MembersAt(c, k - 1, depth, strtod)
  {
    hide MemberAt, Skip;
  }

  /** Where the search for a key starts does not matter. */
  lemma OneOffset(c: bytes, o: nat, k: nat, depth: nat, strtod: Strtod)
    requires o < k < |c| && Skip(c, o + 1) == k && Skip(c, k) == k
    ensures MemberAt(c, o, depth, strtod) == MemberAt(c, k - 1, depth, strtod)
  {
    hide StringAt, ValueAt, Skip;
  }

  lemma {:induction false} EntryParsed(c: bytes, k: nat, z: nat, e: Entry, m: Member, depth: nat, strtod: Strtod)
    returns (y: nat)
    requires 0 < k <= |c| && Skip(c, k) == k && At(c, k, EntryText(e)) && z == k + |EntryText(e)| && !e.sharedKey
    requires Blank(e.gap, true) && Blank(e.space, true) && Blank(e.after, true)
    requires Spells(e.key, false, m.key, true) && TextOf(e.node, m.value, true, strtod)
    requires z < |c| && c[z] in {COMMA, CLOSE_BRACE}
    requires ReadsIntegers(strtod) && depth <= NESTING_LIMIT
    ensures k <= y <= z && Skip(c, y) == z
    ensures MemberAt(c, k - 1, depth, strtod) == Expected(depth, Nesting(m.value), m, y)
    decreases e, 0
  {
    hide ValueAt, StringAt, Nesting, QuotedText, Source, Skip, At, ReadsIntegers, TextOf, Blank, Spells, EntryText,
         NumberEnds;
    var q, s, x;
    q, s, x, y := ColonAt(c, k, z, e, m, strtod);
    EndOfNumber(c, y, e.after);
    SkipBlank(c, y, e.after);
    StringParsed(c, k, e.key, m.key);
    ValueParsed(c, x, e.node, m.value, depth, strtod);
  }

  // ----- The theorem -----

  const BYTE_ORDER_MARK: bytes := [0xEF, 0xBB, 0xBF]

  /** A JSON text between white space, behind a byte order mark or not, and with anything behind it that
      does not go on with a number: it is parsed to its value if it is nested at most 1000 deep, and
      refused otherwise. Where a terminator is required, white space and the NUL must end the input. */
  lemma ParsesText(bom: bool, before: bytes, x: Node, rest: bytes, v: Value, strtod: Strtod)
    requires TextOf(x, v, true, strtod) && Blank(before, true) && ReadsIntegers(strtod)
    requires (rest != [] ==> !IsNumberByte(rest[0])) && (bom ==> |before + Source(x) + rest| > 1)
    ensures var c := (if bom then BYTE_ORDER_MARK else []) + (before + (Source(x) + rest));
      && ParseAll(c, false, strtod) == Expected(0, Nesting(v), v, |c| - |rest|)
      && (rest != [] && rest[|rest| - 1] == NUL && Blank(rest[..|rest| - 1], true) ==>
            ParseAll(c, true, strtod) == Expected(0, Nesting(v), v, |c| - 1))
  {
    hide ParseAll, At, Blank, TextOf, ReadsIntegers, Nesting, IsNumberByte, Source, Bom;
    var mark := if bom then BYTE_ORDER_MARK else [];
    var c := mark + (before + (Source(x) + rest));
    AtWhole(c);
    AtConcat(c, 0, mark, before + (Source(x) + rest));
    AtConcat(c, |mark|, before, Source(x) + rest);
    AtConcat(c, |mark| + |before|, Source(x), rest);
    FirstByte(x, v, strtod);
    MarkOrNot(c, bom, before, Source(x) + rest);
    ParsesAt(c, |mark|, before, x, rest, v, strtod);
  }

  lemma ParsesAt(c: bytes, m: nat, before: bytes, x: Node, rest: bytes, v: Value, strtod: Strtod)
    requires TextOf(x, v, true, strtod) && Blank(before, true) && ReadsIntegers(strtod)
    requires At(c, m, before) && At(c, m + |before|, Source(x)) && At(c, m + |before| + |Source(x)|, rest)
    requires m + |before| + |Source(x)| + |rest| == |c| && Bom(c) == m && (rest != [] ==> !IsNumberByte(rest[0]))
    ensures ParseAll(c, false, strtod) == Expected(0, Nesting(v), v, |c| - |rest|)
    ensures rest != [] && rest[|rest| - 1] == NUL && Blank(rest[..|rest| - 1], true) ==>
      ParseAll(c, true, strtod) == Expected(0, Nesting(v), v, |c| - 1)
  {
    hide ValueAt, Skip, At, Blank, TextOf, ReadsIntegers, Nesting, IsNumberByte, Bom, Source;
    var k := m + |before|;
    FirstByte(x, v, strtod);
    AtIndex(c, k, Source(x), 0);
    SkipBlank(c, m, before);
    var q := k + |Source(x)|;
    if rest != [] { AtIndex(c, q, rest, 0); }
    ValueParsed(c, k, x, v, 0, strtod);
    if rest != [] && rest[|rest| - 1] == NUL && Blank(rest[..|rest| - 1], true) { SkipToNul(c, q, rest); }
  }

  lemma AtWhole(c: bytes)
    ensures At(c, 0, c)
  {
  }

  lemma MarkOrNot(c: bytes, bom: bool, before: bytes, more: bytes)
    requires c == (if bom then BYTE_ORDER_MARK else []) + (before + more) && Blank(before, true)
    requires more != [] && more[0] < 0x80 && (bom ==> |before + more| > 1)
    ensures Bom(c) == if bom then 3 else 0
  {
    AtWhole(c);
    if bom {
      AtConcat(c, 0, BYTE_ORDER_MARK, before + more);
    } else {
      assert c[0] < 0x80 by { if before == [] { assert c[0] == more[0]; } else { assert c[0] == before[0]; } }
      if At(c, 0, BYTE_ORDER_MARK) { AtIndex(c, 0, BYTE_ORDER_MARK, 0); }
    }
  }

  /** White space up to the last byte, which is NUL: skipping stops there. */
  lemma SkipToNul(c: bytes, q: nat, rest: bytes)
    requires At(c, q, rest) && q + |rest| == |c| && rest != [] && rest[|rest| - 1] == NUL
    requires Blank(rest[..|rest| - 1], true)
    ensures Skip(c, q) == |c| - 1 && c[|c| - 1] == NUL
  {
    forall k | q <= k < |c| ensures c[k] <= 32 {
      AtIndex(c, q, rest, k - q);
      if k < |c| - 1 { assert rest[k - q] == rest[..|rest| - 1][k - q]; }
    }
    AtIndex(c, q, rest, |rest| - 1);
    SkipToEnd(c, q);
  }

  lemma {:induction false} SkipToEnd(c: bytes, o: nat)
    requires o < |c| && forall k :: o <= k < |c| ==> c[k] <= 32
    ensures Skip(c, o) == |c| - 1
    decreases |c| - o
  {
    if o + 1 < |c| { SkipToEnd(c, o + 1); }
  }
}
