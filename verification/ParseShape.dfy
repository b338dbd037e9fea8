/** Whatever is parsed is a JSON text, loosely read, for the value that comes out. */
module ParseShape {
  import opened Bytes
  import opened Decimal
  import opened Json
  import opened Characters
  import opened Literal
  import opened Numerals
  import opened Grammar
  import opened Syntax
  import Text
  import ParseText

  lemma {:induction false} SkippedBlank(c: bytes, o: nat)
    requires o <= |c|
    ensures Blank(c[o..Skip(c, o)], false)
    decreases |c| - o
  {
    if o < |c| && c[o] <= 32 && o + 1 < |c| {
      SkippedBlank(c, o + 1);
      assert c[o..Skip(c, o)] == [c[o]] + c[o + 1..Skip(c, o)];
    }
  }

  lemma Slice(c: bytes, o: nat, p: nat)
    requires o <= p <= |c|
    ensures At(c, o, c[o..p])
  {
  }

  lemma StringShape(c: bytes, o: nat) returns (pieces: seq<Piece>, shared: bool)
    requires o <= |c| && StringAt(c, o).Ok?
    ensures Spells(pieces, shared, StringAt(c, o).value, false)
    ensures At(c, o, QuotedText(pieces, shared)) && o + |QuotedText(pieces, shared)| == StringAt(c, o).next
  {
    hide At, Decode, ScanEnd, AllLooselyMean, RenderFrom, Joined;
    var e := ScanEnd(c, o + 1).value;
    var parts;
    pieces, parts, shared := DecodedPieces(c, o + 1, e);
    var inner := RenderFrom(pieces, 0);
    var close := if shared then [] else [QUOTE];
    OneByte(c, o, QUOTE);
    if shared { Nothing(c, e + 1); } else { OneByte(c, e, QUOTE); }
    AtConcat(c, o + 1, inner, close);
    AtConcat(c, o, [QUOTE], inner + close);
  }

  lemma OneByte(c: bytes, o: nat, b: byte)
    requires o < |c| && c[o] == b
    ensures At(c, o, [b])
  {
  }

  lemma Nothing(c: bytes, o: nat)
    requires o <= |c|
    ensures At(c, o, [])
  {
  }

  lemma {:induction false} SpanBytes(c: bytes, o: nat, i: nat)
    requires o + i <= |c| && i <= 63 && forall k :: o <= k < o + i ==> IsNumberByte(c[k])
    ensures forall k :: o <= k < o + NumberSpan(c, o, i) ==> IsNumberByte(c[k])
    decreases 63 - i
  {
    if i < 63 && o + i < |c| && IsNumberByte(c[o + i]) { SpanBytes(c, o, i + 1); }
  }

  lemma NumberShape(c: bytes, o: nat, strtod: Strtod) returns (text: bytes)
    requires o <= |c| && NumberAt(c, o, strtod).Ok?
    ensures Counts(text, NumberAt(c, o, strtod).value, false, strtod)
    ensures At(c, o, text) && o + |text| == NumberAt(c, o, strtod).next
  {
    hide CutTo, Saturate, NumberSpan;
    var n := NumberSpan(c, o, 0);
    var (k, d) := strtod(c[o..o + n]);
    text := c[o..o + k];
    var more := c[o + k..o + n];
    assert text + more == c[o..o + n];
    SpanBytes(c, o, 0);
    ParseText.CutExact(d, Saturate(d));
    assert Consumes(text, more, Saturate(d), strtod);
  }

  /** Every value that is parsed at `o` is a text for it, read loosely, and ends where parsing stopped. */
  lemma {:induction false} ValueShape(c: bytes, o: nat, depth: nat, strtod: Strtod) returns (x: Node)
    requires o <= |c| && ValueAt(c, o, depth, strtod).Ok?
    ensures TextOf(x, ValueAt(c, o, depth, strtod).value, false, strtod)
    ensures At(c, o, Source(x)) && o + |Source(x)| == ValueAt(c, o, depth, strtod).next
    decreases |c| - o, 3
  {
    hide At, StringAt, NumberAt, ArrayAt, ObjectAt, Counts, Spells, QuotedText, ItemsText, EntriesText, ItemsOf,
         EntriesOf, Blank, Ascii;
    ParseText.Words();
    if At(c, o, Text.NULL_TEXT) {
      x := NullWord;
    } else if At(c, o, Text.FALSE_TEXT) {
      x := BoolWord(false);
    } else if At(c, o, Text.TRUE_TEXT) {
      x := BoolWord(true);
    } else if IsByteAt(c, o, QUOTE) {
      var pieces, shared := StringShape(c, o);
      x := Quote(pieces, shared);
    } else if StartsNumber(c, o) {
      var text := NumberShape(c, o, strtod);
      x := Numeric(text);
    } else if IsByteAt(c, o, OPEN_BRACKET) {
      x := ArrayShape(c, o, depth, strtod);
    } else {
      x := ObjectShape(c, o, depth, strtod);
    }
  }

  // ----- Arrays -----

  lemma {:induction false} ArrayShape(c: bytes, o: nat, depth: nat, strtod: Strtod) returns (x: Node)
    requires IsByteAt(c, o, OPEN_BRACKET) && ArrayAt(c, o, depth, strtod).Ok?
    ensures x.List? && TextOf(x, Array(ArrayAt(c, o, depth, strtod).value), false, strtod)
    ensures At(c, o, Source(x)) && o + |Source(x)| == ArrayAt(c, o, depth, strtod).next
    decreases |c| - o, 2
  {
    hide At, ArrayAt, ItemsAt, Skip, Blank, ItemsText, ItemsOf;
    var p := ArrayParts(c, o, depth, strtod);
    var blank := c[o + 1..p];
    SkippedBlank(c, o + 1);
    Slice(c, o + 1, p);
    if IsByteAt(c, p, CLOSE_BRACKET) {
      x := List(blank, []);
      Between(c, o, OPEN_BRACKET, blank, CLOSE_BRACKET);
      NoItems(strtod, false);
    } else {
      var items := ItemsShape(c, p - 1, depth + 1, strtod);
      var all := Indented(c, o + 1, p, blank, items, ItemsAt(c, p - 1, depth + 1, strtod).value, strtod);
      NoBlank();
      x := List([], all);
      Between(c, o, OPEN_BRACKET, ItemsText(all), CLOSE_BRACKET);
    }
  }

  lemma ArrayParts(c: bytes, o: nat, depth: nat, strtod: Strtod) returns (p: nat)
    requires o < |c| && ArrayAt(c, o, depth, strtod).Ok?
    ensures p == Skip(c, o + 1) && o < p < |c|
    ensures ArrayAt(c, o, depth, strtod)
      == if IsByteAt(c, p, CLOSE_BRACKET) then Ok([], p + 1) else ItemsAt(c, p - 1, depth + 1, strtod)
  {
    hide ItemsAt, Skip;
    p := Skip(c, o + 1);
  }

  lemma Between(c: bytes, o: nat, open: byte, inner: bytes, close: byte)
    requires IsByteAt(c, o, open) && At(c, o + 1, inner) && IsByteAt(c, o + 1 + |inner|, close)
    ensures At(c, o, [open] + (inner + [close]))
  {
    hide At;
    OneByte(c, o, open);
    OneByte(c, o + 1 + |inner|, close);
    AtConcat(c, o + 1, inner, [close]);
    AtConcat(c, o, [open], inner + [close]);
  }

  lemma NoItems(strtod: Strtod, strict: bool)
    ensures ItemsOf([], [], strict, strtod) && EntriesOf([], [], strict, strtod)
  {
  }

  lemma NoBlank()
    ensures Blank([], false)
  {
  }

  lemma BlankJoined(s: bytes, t: bytes)
    requires Blank(s, false) && Blank(t, false)
    ensures Blank(s + t, false)
  {
  }

  /** The items with more white space before the first. */
  lemma {:induction false} Indented(c: bytes, o: nat, p: nat, blank: bytes, items: seq<Item>, values: seq<Value>,
                                    strtod: Strtod) returns (all: seq<Item>)
    requires o + |blank| == p && At(c, o, blank) && Blank(blank, false) && items != []
    requires ItemsOf(items, values, false, strtod) && At(c, p, ItemsText(items))
    ensures all != [] && ItemsOf(all, values, false, strtod) && At(c, o, ItemsText(all))
    ensures |ItemsText(all)| == |blank| + |ItemsText(items)|
  {
    hide At, Blank, TextOf, ItemText, ItemsText, ItemsOf, ParseText.ItemsRest;
    var first := items[0].(before := blank + items[0].before);
    all := [first] + items[1..];
    IndentedOf(blank, items, values, strtod);
    ParseText.ItemsStart(items);
    ParseText.ItemsStart(all);
    SameItem(items[0], first);
    var more := (Source(first.node) + first.after) + ParseText.ItemsRest(items);
    AtConcat(c, o, blank, items[0].before);
    AtConcat(c, p, items[0].before, more);
    AtConcat(c, o, blank + items[0].before, more);
  }

  lemma {:induction false} IndentedOf(blank: bytes, items: seq<Item>, values: seq<Value>, strtod: Strtod)
    requires Blank(blank, false) && items != [] && ItemsOf(items, values, false, strtod)
    ensures var all := [items[0].(before := blank + items[0].before)] + items[1..];
      ItemsOf(all, values, false, strtod) && ParseText.ItemsRest(all) == ParseText.ItemsRest(items)
  {
    hide TextOf;
    BlankJoined(blank, items[0].before);
    var all := [items[0].(before := blank + items[0].before)] + items[1..];
    assert all[1..] == items[1..];
  }

  lemma SameItem(x: Item, y: Item)
    requires x.node == y.node && x.after == y.after
    ensures ItemText(x) == ItemText(y)
  {
  }

  lemma {:induction false} ItemsShape(c: bytes, b: nat, depth: nat, strtod: Strtod) returns (items: seq<Item>)
    requires b < |c| && ItemsAt(c, b, depth, strtod).Ok?
    ensures items != [] && ItemsOf(items, ItemsAt(c, b, depth, strtod).value, false, strtod)
    ensures At(c, b + 1, ItemsText(items)) && b + 2 + |ItemsText(items)| == ItemsAt(c, b, depth, strtod).next
    ensures IsByteAt(c, ItemsAt(c, b, depth, strtod).next - 1, CLOSE_BRACKET)
    decreases |c| - b, 1
  {
    hide At, ItemsAt, ValueAt, Skip, Blank, TextOf, Source, ItemsText, ItemsOf;
    var k, v, q, s := ItemsParts(c, b, depth, strtod);
    var node := ValueShape(c, k, depth, strtod);
    var item := Item(c[b + 1..k], node, c[q..s]);
    SkippedBlank(c, b + 1);
    SkippedBlank(c, q);
    Slice(c, b + 1, k);
    Slice(c, q, s);
    var rest: seq<Item>, tail: bytes := [], [];
    if IsByteAt(c, s, COMMA) {
      rest := ItemsShape(c, s, depth, strtod);
      OneByte(c, s, COMMA);
      AtConcat(c, s, [COMMA], ItemsText(rest));
      tail := [COMMA] + ItemsText(rest);
      ItemPrepended(item, v, rest, ItemsAt(c, s, depth, strtod).value, strtod);
    } else {
      NoItems(strtod, false);
      Nothing(c, s);
      ItemPrepended(item, v, [], [], strtod);
      assert [v] + [] == [v];
    }
    items := [item] + rest;
    AtConcat(c, k, Source(node), item.after);
    AtConcat(c, k, Source(node) + item.after, tail);
    AtConcat(c, b + 1, item.before, (Source(node) + item.after) + tail);
  }

  /** What one turn of the loop over the elements has read. */
  lemma ItemsParts(c: bytes, b: nat, depth: nat, strtod: Strtod) returns (k: nat, v: Value, q: nat, s: nat)
    requires b < |c| && ItemsAt(c, b, depth, strtod).Ok?
    ensures b < k <= q <= s < |c| && k == Skip(c, b + 1) && ValueAt(c, k, depth, strtod) == Ok(v, q) && s == Skip(c, q)
    ensures var r := ItemsAt(c, b, depth, strtod);
      if IsByteAt(c, s, COMMA)
      then var rest := ItemsAt(c, s, depth, strtod); rest.Ok? && r == Ok([v] + rest.value, rest.next)
      else IsByteAt(c, s, CLOSE_BRACKET) && r == Ok([v], s + 1)
  {
    hide ValueAt, Skip;
    k := Skip(c, b + 1);
    v, q := ValueAt(c, k, depth, strtod).value, ValueAt(c, k, depth, strtod).next;
    s := Skip(c, q);
  }

  lemma {:induction false} ItemPrepended(item: Item, v: Value, rest: seq<Item>, values: seq<Value>, strtod: Strtod)
    requires Blank(item.before, false) && Blank(item.after, false) && TextOf(item.node, v, false, strtod)
    requires ItemsOf(rest, values, false, strtod)
    ensures ItemsOf([item] + rest, [v] + values, false, strtod)
    ensures ItemsText([item] + rest)
      == item.before + ((Source(item.node) + item.after) + if rest == [] then [] else [COMMA] + ItemsText(rest))
  {
    hide Blank, TextOf, Source;
    assert ([item] + rest)[1..] == rest;
  }

  // ----- Objects -----

  lemma {:induction false} ObjectShape(c: bytes, o: nat, depth: nat, strtod: Strtod) returns (x: Node)
    requires IsByteAt(c, o, OPEN_BRACE) && ObjectAt(c, o, depth, strtod).Ok?
    ensures x.Record? && TextOf(x, Object(ObjectAt(c, o, depth, strtod).value), false, strtod)
    ensures At(c, o, Source(x)) && o + |Source(x)| == ObjectAt(c, o, depth, strtod).next
    decreases |c| - o, 2
  {
    hide At, ObjectAt, MembersAt, Skip, Blank, EntriesText, EntriesOf;
    var p := ObjectParts(c, o, depth, strtod);
    var blank := c[o + 1..p];
    SkippedBlank(c, o + 1);
    Slice(c, o + 1, p);
    if IsByteAt(c, p, CLOSE_BRACE) {
      x := Record(blank, []);
      Between(c, o, OPEN_BRACE, blank, CLOSE_BRACE);
      NoItems(strtod, false);
    } else {
      var entries := MembersShape(c, p - 1, depth + 1, strtod);
      var all := IndentedEntries(c, o + 1, p, blank, entries, MembersAt(c, p - 1, depth + 1, strtod).value, strtod);
      NoBlank();
      x := Record([], all);
      Between(c, o, OPEN_BRACE, EntriesText(all), CLOSE_BRACE);
    }
  }

  lemma ObjectParts(c: bytes, o: nat, depth: nat, strtod: Strtod) returns (p: nat)
    requires o < |c| && ObjectAt(c, o, depth, strtod).Ok?
    ensures p == Skip(c, o + 1) && o < p < |c|
    ensures ObjectAt(c, o, depth, strtod)
      == if IsByteAt(c, p, CLOSE_BRACE) then Ok([], p + 1) else MembersAt(c, p - 1, depth + 1, strtod)
  {
    hide MembersAt, Skip;
    p := Skip(c, o + 1);
  }

  lemma {:induction false} IndentedEntries(c: bytes, o: nat, p: nat, blank: bytes, entries: seq<Entry>,
                                           members: seq<Member>, strtod: Strtod) returns (all: seq<Entry>)
    requires o + |blank| == p && At(c, o, blank) && Blank(blank, false) && entries != []
    requires EntriesOf(entries, members, false, strtod) && At(c, p, EntriesText(entries))
    ensures all != [] && EntriesOf(all, members, false, strtod) && At(c, o, EntriesText(all))
    ensures |EntriesText(all)| == |blank| + |EntriesText(entries)|
  {
    hide At, Blank, TextOf, EntriesText, EntryText, EntriesOf, Spells, ParseText.EntriesRest;
    var first := entries[0].(before := blank + entries[0].before);
    all := [first] + entries[1..];
    EntriesIndentedOf(blank, entries, members, strtod);
    ParseText.EntriesStart(entries);
    ParseText.EntriesStart(all);
    SameEntry(entries[0], first);
    var more := EntryText(first) + ParseText.EntriesRest(entries);
    AtConcat(c, o, blank, entries[0].before);
    AtConcat(c, p, entries[0].before, more);
    AtConcat(c, o, blank + entries[0].before, more);
  }

  lemma {:induction false} EntriesIndentedOf(blank: bytes, entries: seq<Entry>, members: seq<Member>, strtod: Strtod)
    requires Blank(blank, false) && entries != [] && EntriesOf(entries, members, false, strtod)
    ensures var all := [entries[0].(before := blank + entries[0].before)] + entries[1..];
      EntriesOf(all, members, false, strtod) && ParseText.EntriesRest(all) == ParseText.EntriesRest(entries)
  {
    hide TextOf, Spells;
    BlankJoined(blank, entries[0].before);
    var all := [entries[0].(before := blank + entries[0].before)] + entries[1..];
    assert all[1..] == entries[1..];
  }

  lemma SameEntry(x: Entry, y: Entry)
    requires x == y.(before := x.before)
    ensures EntryText(x) == EntryText(y)
  {
  }

  ghost predicate EntryOf(e: Entry, m: Member, strict: bool, strtod: Strtod) {
    && Blank(e.before, strict) && Blank(e.gap, strict) && Blank(e.space, strict) && Blank(e.after, strict)
    && Spells(e.key, e.sharedKey, m.key, strict) && TextOf(e.node, m.value, strict, strtod)
  }

  lemma {:induction false} MemberShape(c: bytes, b: nat, s: nat, depth: nat, strtod: Strtod) returns (e: Entry)
    requires b < |c| && MemberAt(c, b, depth, strtod).Ok? && s == Skip(c, MemberAt(c, b, depth, strtod).next)
    ensures EntryOf(e, MemberAt(c, b, depth, strtod).value, false, strtod)
    ensures At(c, b + 1, e.before + EntryText(e)) && b + 1 + |e.before + EntryText(e)| == s
    decreases |c| - b, 0
  {
    hide At, MemberAt, ValueAt, StringAt, Skip, Blank, TextOf, Source, Spells, QuotedText;
    var k, q, colon, x, y := MemberParts(c, b, depth, strtod);
    var key, shared := StringShape(c, k);
    var node := ValueShape(c, x, depth, strtod);
    e := Entry(c[b + 1..k], key, shared, c[q..colon], c[colon + 1..x], node, c[y..s]);
    SkippedBlank(c, b + 1);
    SkippedBlank(c, q);
    SkippedBlank(c, colon + 1);
    SkippedBlank(c, y);
    Slice(c, b + 1, k);
    Slice(c, q, colon);
    Slice(c, colon + 1, x);
    Slice(c, y, s);
    OneByte(c, colon, COLON);
    EntryJoined(c, k, q, colon, x, y, s, e);
    AtConcat(c, b + 1, e.before, EntryText(e));
  }

  lemma EntryJoined(c: bytes, k: nat, q: nat, colon: nat, x: nat, y: nat, s: nat, e: Entry)
    requires At(c, k, QuotedText(e.key, e.sharedKey)) && q == k + |QuotedText(e.key, e.sharedKey)|
    requires At(c, q, e.gap) && colon == q + |e.gap| && At(c, colon, [COLON])
    requires At(c, colon + 1, e.space) && x == colon + 1 + |e.space| && At(c, x, Source(e.node))
    requires y == x + |Source(e.node)| && At(c, y, e.after) && s == y + |e.after|
    ensures At(c, k, EntryText(e)) && s == k + |EntryText(e)|
  {
    hide At, Source, QuotedText;
    var key, value := QuotedText(e.key, e.sharedKey), Source(e.node);
    AtConcat(c, x, value, e.after);
    AtConcat(c, colon + 1, e.space, value + e.after);
    AtConcat(c, colon, [COLON], e.space + (value + e.after));
    AtConcat(c, q, e.gap, [COLON] + (e.space + (value + e.after)));
    AtConcat(c, k, key, e.gap + ([COLON] + (e.space + (value + e.after))));
  }

  /** Where the parts of a member lie that has been read. */
  lemma MemberParts(c: bytes, b: nat, depth: nat, strtod: Strtod)
    returns (k: nat, q: nat, colon: nat, x: nat, y: nat)
    requires b < |c| && MemberAt(c, b, depth, strtod).Ok?
    ensures b < k <= q <= colon < x <= y <= |c| && k == Skip(c, b + 1) && colon == Skip(c, q) && x == Skip(c, colon + 1)
    ensures StringAt(c, k).Ok? && q == StringAt(c, k).next && IsByteAt(c, colon, COLON)
    ensures ValueAt(c, x, depth, strtod).Ok? && y == ValueAt(c, x, depth, strtod).next
    ensures MemberAt(c, b, depth, strtod) == Ok(Member(StringAt(c, k).value, ValueAt(c, x, depth, strtod).value), y)
  {
    hide ValueAt, StringAt, Skip;
    k := Skip(c, b + 1);
    q := StringAt(c, k).next;
    colon := Skip(c, q);
    x := Skip(c, colon + 1);
    y := ValueAt(c, x, depth, strtod).next;
  }

  lemma {:induction false} MembersShape(c: bytes, b: nat, depth: nat, strtod: Strtod) returns (entries: seq<Entry>)
    requires b < |c| && MembersAt(c, b, depth, strtod).Ok?
    ensures entries != [] && EntriesOf(entries, MembersAt(c, b, depth, strtod).value, false, strtod)
    ensures At(c, b + 1, EntriesText(entries)) && b + 2 + |EntriesText(entries)| == MembersAt(c, b, depth, strtod).next
    ensures IsByteAt(c, MembersAt(c, b, depth, strtod).next - 1, CLOSE_BRACE)
    decreases |c| - b, 1
  {
    hide At, MembersAt, MemberAt, Skip, EntriesText, EntriesOf, EntryOf, EntryText;
    var r, s := MembersParts(c, b, depth, strtod);
    var e := MemberShape(c, b, s, depth, strtod);
    var rest: seq<Entry>, tail: bytes := [], [];
    if IsByteAt(c, s, COMMA) {
      rest := MembersShape(c, s, depth, strtod);
      OneByte(c, s, COMMA);
      AtConcat(c, s, [COMMA], EntriesText(rest));
      tail := [COMMA] + EntriesText(rest);
      EntryPrepended(e, r.value, rest, MembersAt(c, s, depth, strtod).value, strtod);
    } else {
      NoItems(strtod, false);
      Nothing(c, s);
      EntryPrepended(e, r.value, [], [], strtod);
      assert [r.value] + [] == [r.value];
    }
    entries := [e] + rest;
    AtConcat(c, b + 1, e.before, EntryText(e));
    AtConcat(c, b + 1 + |e.before|, EntryText(e), tail);
    AtConcat(c, b + 1, e.before, EntryText(e) + tail);
  }

  /** What one turn of the loop over the members has read. */
  lemma MembersParts(c: bytes, b: nat, depth: nat, strtod: Strtod) returns (m: Parsed<Member>, s: nat)
    requires b < |c| && MembersAt(c, b, depth, strtod).Ok?
    ensures m == MemberAt(c, b, depth, strtod) && m.Ok? && m.next <= s < |c| && s == Skip(c, m.next)
    ensures var r := MembersAt(c, b, depth, strtod);
      if IsByteAt(c, s, COMMA)
      then var rest := MembersAt(c, s, depth, strtod); rest.Ok? && r == Ok([m.value] + rest.value, rest.next)
      else IsByteAt(c, s, CLOSE_BRACE) && r == Ok([m.value], s + 1)
  {
    hide MemberAt, Skip;
    m := MemberAt(c, b, depth, strtod);
    s := Skip(c, m.next);
  }

  lemma {:induction false} EntryPrepended(e: Entry, m: Member, rest: seq<Entry>, members: seq<Member>, strtod: Strtod)
    requires EntryOf(e, m, false, strtod) && EntriesOf(rest, members, false, strtod)
    ensures EntriesOf([e] + rest, [m] + members, false, strtod)
    ensures EntriesText([e] + rest)
      == e.before + (EntryText(e) + if rest == [] then [] else [COMMA] + EntriesText(rest))
  {
    hide Blank, TextOf, Spells, EntryText, EntriesText;
    assert ([e] + rest)[1..] == rest;
    ParseText.EntriesStart([e] + rest);
  }

  // ----- The theorem -----

  /** What is parsed is a text for the value, loosely read, between a byte order mark and white space in
      front and, where a terminator is required, white space and a NUL behind it. */
  lemma ParsedIsText(c: bytes, requireNul: bool, strtod: Strtod) returns (before: bytes, x: Node, after: bytes)
    requires ParseAll(c, requireNul, strtod).Ok?
    ensures Blank(before, false) && Blank(after, false)
    ensures TextOf(x, ParseAll(c, requireNul, strtod).value, false, strtod)
    ensures var text := (if Bom(c) == 3 then ParseText.BYTE_ORDER_MARK else []) + (before + (Source(x) + after));
      && At(c, 0, text) && |text| == ParseAll(c, requireNul, strtod).next
      && (if requireNul then IsByteAt(c, |text|, NUL) else after == [])
  {
    hide At, ValueAt, Skip, Blank, TextOf, Source;
    var mark := if Bom(c) == 3 then ParseText.BYTE_ORDER_MARK else [];
    var k := Skip(c, Bom(c));
    var next := ValueAt(c, k, 0, strtod).next;
    before := c[Bom(c)..k];
    x := ValueShape(c, k, 0, strtod);
    after := if requireNul then c[next..Skip(c, next)] else [];
    SkippedBlank(c, Bom(c));
    SkippedBlank(c, next);
    NoBlank();
    Slice(c, Bom(c), k);
    Nothing(c, 0);
    Nothing(c, next);
    if requireNul { Slice(c, next, Skip(c, next)); }
    AtConcat(c, k, Source(x), after);
    AtConcat(c, Bom(c), before, Source(x) + after);
    AtConcat(c, 0, mark, before + (Source(x) + after));
  }
}
