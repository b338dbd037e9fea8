/** Exactly which inputs are read past their end: those that could go on, behind their final comma, with
    one more member of an object. */
module Overrun {
  import opened Bytes
  import opened Json
  import opened Literal
  import opened Numerals
  import opened Grammar
  import ParserSafety
  import Text

  /** The member `"":null` and the end of its object. */
  const MORE: bytes := [QUOTE, QUOTE, COLON] + Text.NULL_TEXT + [CLOSE_BRACE]

  /** `ext` goes on behind the final comma of `c` with that member. */
  ghost predicate Extends(c: bytes, ext: bytes) {
    && c != [] && c[|c| - 1] == COMMA && |c| + 8 <= |ext| && c == ext[..|c|] && At(ext, |c|, MORE)
  }

  lemma MoreAt(c: bytes, ext: bytes)
    requires Extends(c, ext)
    ensures |c| + 8 <= |ext| && ext[|c|] == QUOTE && ext[|c| + 1] == QUOTE && ext[|c| + 2] == COLON
    ensures ext[|c| + 7] == CLOSE_BRACE
    ensures At(ext, |c| + 3, Text.NULL_TEXT) && |MORE| == 8
    ensures c != [] && c[|c| - 1] == COMMA && forall i :: 0 <= i < |c| ==> ext[i] == c[i]
  {
    var n := |c|;
    assert MORE == [QUOTE, QUOTE, COLON] + (Text.NULL_TEXT + [CLOSE_BRACE]);
    AtConcat(ext, n, [QUOTE, QUOTE, COLON], Text.NULL_TEXT + [CLOSE_BRACE]);
    AtConcat(ext, n + 3, Text.NULL_TEXT, [CLOSE_BRACE]);
    AtIndex(ext, n, [QUOTE, QUOTE, COLON], 0);
    AtIndex(ext, n, [QUOTE, QUOTE, COLON], 1);
    AtIndex(ext, n, [QUOTE, QUOTE, COLON], 2);
    AtIndex(ext, n + 7, [CLOSE_BRACE], 0);
  }

  // ----- What lies before the comma is read alike -----

  lemma {:induction false} SkipSame(c: bytes, ext: bytes, o: nat)
    requires Extends(c, ext) && o < |c|
    ensures Skip(ext, o) == Skip(c, o) < |c|
    decreases |c| - o
  {
    MoreAt(c, ext);
    if c[o] <= 32 { SkipSame(c, ext, o + 1); }
  }

  lemma {:induction false} SpanSame(c: bytes, ext: bytes, o: nat, i: nat)
    requires Extends(c, ext) && o + i < |c| && i <= 63
    ensures NumberSpan(ext, o, i) == NumberSpan(c, o, i) && o + NumberSpan(c, o, i) < |c|
    decreases 63 - i
  {
    MoreAt(c, ext);
    if i < 63 && IsNumberByte(c[o + i]) { SpanSame(c, ext, o, i + 1); }
  }

  lemma NumberSame(c: bytes, ext: bytes, o: nat, strtod: Strtod)
    requires Extends(c, ext) && o < |c|
    ensures NumberAt(ext, o, strtod) == NumberAt(c, o, strtod)
    ensures NumberAt(c, o, strtod).Ok? ==> NumberAt(c, o, strtod).next < |c|
  {
    hide NumberSpan, Saturate, Extends;
    MoreAt(c, ext);
    SpanSame(c, ext, o, 0);
    var n := NumberSpan(c, o, 0);
    assert ext[o..o + n] == c[o..o + n];
  }

  lemma TextSame(c: bytes, ext: bytes, o: nat, text: bytes)
    requires Extends(c, ext) && o < |c| && COMMA !in text && text != []
    ensures At(ext, o, text) <==> At(c, o, text)
    ensures At(c, o, text) ==> o + |text| < |c|
  {
    MoreAt(c, ext);
    if At(ext, o, text) {
      NoComma(ext, o, text, |c| - 1);
      assert c[o..o + |text|] == ext[o..o + |text|];
    }
    if At(c, o, text) {
      NoComma(c, o, text, |c| - 1);
      assert c[o..o + |text|] == ext[o..o + |text|];
    }
  }

  lemma NoComma(c: bytes, o: nat, text: bytes, p: nat)
    requires At(c, o, text) && COMMA !in text && o <= p < |c| && c[p] == COMMA
    ensures o + |text| <= p
  {
    forall q | o <= q < o + |text| ensures c[q] != COMMA { AtIndex(c, o, text, q - o); }
  }

  /** A literal that is not closed before the comma is closed right behind it. */
  lemma {:induction false} ScanSame(c: bytes, ext: bytes, p: nat)
    requires Extends(c, ext) && p <= |c|
    ensures ScanEnd(ext, p) == if ScanEnd(c, p).Some? then ScanEnd(c, p) else Some(|c|)
    decreases |c| - p
  {
    MoreAt(c, ext);
    if p < |c| && c[p] != QUOTE { ScanSame(c, ext, if c[p] == BACKSLASH then p + 2 else p + 1); }
  }

  lemma Utf16Same(c: bytes, ext: bytes, p: nat, e: nat)
    requires Extends(c, ext) && p <= e < |c|
    ensures Utf16(ext, p, e) == Utf16(c, p, e)
  {
    MoreAt(c, ext);
  }

  lemma {:induction false} DecodeSame(c: bytes, ext: bytes, p: nat, e: nat)
    requires Extends(c, ext) && e < |c|
    ensures Decode(ext, p, e) == Decode(c, p, e)
    decreases if p < e then e - p else 0
  {
    hide Utf16, Utf8, Extends;
    if p < e {
      MoreAt(c, ext);
      Utf16Same(c, ext, p, e);
      var s := SequenceAt(c, p, e);
      if s.Some? { DecodeSame(c, ext, p + s.value.length, e); }
    }
  }

  /** How the results on `c` and on `ext` go together: what ends before the comma is the same, a literal
      may end just behind it, and what ends later overruns `c`. */
  ghost predicate Related<T>(n: nat, r: Parsed<T>, x: Parsed<T>) {
    && (r.Ok? ==> x == r && r.next < n)
    && (x.Ok? ==> || (x.next < n && r == x) || (x.next == n + 1 && r.Failed?) || (x.next > n + 1 && r.Overran?))
  }

  lemma StringSame(c: bytes, ext: bytes, o: nat)
    requires Extends(c, ext) && o < |c|
    ensures Related(|c|, StringAt(c, o), StringAt(ext, o))
    ensures StringAt(ext, o).Ok? ==> StringAt(ext, o).next <= |c| + 1
  {
    hide ScanEnd, Decode, Cut;
    MoreAt(c, ext);
    if c[o] == QUOTE {
      ScanSame(c, ext, o + 1);
      var e := ScanEnd(c, o + 1);
      if e.Some? { DecodeSame(c, ext, o + 1, e.value); }
    }
  }

  // ----- Values -----

  lemma {:induction false} ValueSame(c: bytes, ext: bytes, o: nat, depth: nat, strtod: Strtod)
    requires Extends(c, ext) && o < |c|
    ensures Related(|c|, ValueAt(c, o, depth, strtod), ValueAt(ext, o, depth, strtod))
    decreases |c| - o, 3
  {
    hide Extends, At, StringAt, NumberAt, ArrayAt, ObjectAt;
    MoreAt(c, ext);
    TextSame(c, ext, o, Text.NULL_TEXT);
    TextSame(c, ext, o, Text.FALSE_TEXT);
    TextSame(c, ext, o, Text.TRUE_TEXT);
    StringSame(c, ext, o);
    NumberSame(c, ext, o, strtod);
    if c[o] == OPEN_BRACKET {
      ArraySame(c, ext, o, depth, strtod);
    } else if c[o] == OPEN_BRACE {
      ObjectSame(c, ext, o, depth, strtod);
    }
  }

  lemma {:induction false} ArraySame(c: bytes, ext: bytes, o: nat, depth: nat, strtod: Strtod)
    requires Extends(c, ext) && o < |c| && c[o] == OPEN_BRACKET
    ensures Related(|c|, ArrayAt(c, o, depth, strtod), ArrayAt(ext, o, depth, strtod))
    decreases |c| - o, 2
  {
    hide ItemsAt, Skip;
    MoreAt(c, ext);
    if depth < NESTING_LIMIT {
      assert o + 1 < |c|;
      SkipSame(c, ext, o + 1);
      ItemsSame(c, ext, Skip(c, o + 1) - 1, depth + 1, strtod);
    }
  }

  lemma {:induction false} ObjectSame(c: bytes, ext: bytes, o: nat, depth: nat, strtod: Strtod)
    requires Extends(c, ext) && o < |c| && c[o] == OPEN_BRACE
    ensures Related(|c|, ObjectAt(c, o, depth, strtod), ObjectAt(ext, o, depth, strtod))
    decreases |c| - o, 2
  {
    hide MembersAt, Skip;
    MoreAt(c, ext);
    if depth < NESTING_LIMIT {
      assert o + 1 < |c|;
      SkipSame(c, ext, o + 1);
      MembersSame(c, ext, Skip(c, o + 1) - 1, depth + 1, strtod);
    }
  }

  /** Behind the final comma of an array the empty string is no member. */
  lemma LastItem(c: bytes, ext: bytes, depth: nat, strtod: Strtod)
    requires Extends(c, ext)
    ensures ItemsAt(ext, |c| - 1, depth, strtod) == Failed
  {
    MoreAt(c, ext);
    EmptyKey(c, ext);
    assert !At(ext, |c|, Text.NULL_TEXT) && !At(ext, |c|, Text.FALSE_TEXT) && !At(ext, |c|, Text.TRUE_TEXT) by {
      if At(ext, |c|, Text.NULL_TEXT) { AtIndex(ext, |c|, Text.NULL_TEXT, 0); }
      if At(ext, |c|, Text.FALSE_TEXT) { AtIndex(ext, |c|, Text.FALSE_TEXT, 0); }
      if At(ext, |c|, Text.TRUE_TEXT) { AtIndex(ext, |c|, Text.TRUE_TEXT, 0); }
    }
    hide StringAt, At;
    assert ValueAt(ext, |c|, depth, strtod) == Ok(String([]), |c| + 2);
  }

  lemma EmptyKey(c: bytes, ext: bytes)
    requires Extends(c, ext)
    ensures StringAt(ext, |c|) == Ok([], |c| + 2) && Skip(ext, |c|) == |c| && Skip(ext, |c| + 2) == |c| + 2
  {
    MoreAt(c, ext);
    assert ScanEnd(ext, |c| + 1) == Some(|c| + 1);
    assert Decode(ext, |c| + 1, |c| + 1) == Some([]);
  }

  lemma {:induction false} ItemsSame(c: bytes, ext: bytes, o: nat, depth: nat, strtod: Strtod)
    requires Extends(c, ext) && o < |c|
    ensures Related(|c|, ItemsAt(c, o, depth, strtod), ItemsAt(ext, o, depth, strtod))
    ensures ItemsAt(ext, o, depth, strtod).Ok? ==> ItemsAt(ext, o, depth, strtod).next != |c| + 1
    decreases |c| - o, 1
  {
    hide Extends, ValueAt, Skip;
    MoreAt(c, ext);
    if o + 1 == |c| {
      LastItem(c, ext, depth, strtod);
      ParserSafetyLast(c, depth, strtod);
    } else {
      SkipSame(c, ext, o + 1);
      var p := Skip(c, o + 1);
      ValueSame(c, ext, p, depth, strtod);
      var x := ValueAt(ext, p, depth, strtod);
      if x.Ok? {
        if x.next < |c| {
          SkipSame(c, ext, x.next);
          ItemsSame(c, ext, Skip(c, x.next), depth, strtod);
        } else if x.next == |c| + 1 {
          QuoteNext(c, ext);
        }
      }
    }
  }

  lemma QuoteNext(c: bytes, ext: bytes)
    requires Extends(c, ext)
    ensures Skip(ext, |c| + 1) == |c| + 1 && ext[|c| + 1] == QUOTE
  {
    MoreAt(c, ext);
  }

  /** An array with nothing behind its comma fails. */
  lemma ParserSafetyLast(c: bytes, depth: nat, strtod: Strtod)
    requires c != []
    ensures ItemsAt(c, |c| - 1, depth, strtod) == Failed
  {
    assert ValueAt(c, |c|, depth, strtod) == Failed;
  }

  lemma {:induction false} MemberSame(c: bytes, ext: bytes, o: nat, depth: nat, strtod: Strtod)
    requires Extends(c, ext) && o + 1 < |c|
    ensures Related(|c|, MemberAt(c, o, depth, strtod), MemberAt(ext, o, depth, strtod))
    decreases |c| - o, 0
  {
    hide Extends, ValueAt, Skip, StringAt;
    MoreAt(c, ext);
    SkipSame(c, ext, o + 1);
    var p := Skip(c, o + 1);
    StringSame(c, ext, p);
    var k := StringAt(ext, p);
    if k.Ok? {
      if k.next == |c| + 1 {
        QuoteNext(c, ext);
      } else {
        SkipSame(c, ext, k.next);
        var s := Skip(c, k.next);
        if IsByteAt(c, s, COLON) {
          SkipSame(c, ext, s + 1);
          ValueSame(c, ext, Skip(c, s + 1), depth, strtod);
        }
      }
    }
  }

  lemma {:induction false} MembersSame(c: bytes, ext: bytes, o: nat, depth: nat, strtod: Strtod)
    requires Extends(c, ext) && o < |c|
    ensures Related(|c|, MembersAt(c, o, depth, strtod), MembersAt(ext, o, depth, strtod))
    ensures MembersAt(ext, o, depth, strtod).Ok? ==> MembersAt(ext, o, depth, strtod).next != |c| + 1
    decreases |c| - o, 1
  {
    hide Extends, MemberAt, Skip;
    MoreAt(c, ext);
    if o + 1 == |c| {
      LastMember(c, depth, strtod);
    } else {
      MemberSame(c, ext, o, depth, strtod);
      var x := MemberAt(ext, o, depth, strtod);
      if x.Ok? {
        if x.next < |c| {
          SkipSame(c, ext, x.next);
          MembersSame(c, ext, Skip(c, x.next), depth, strtod);
        } else if x.next == |c| + 1 {
          QuoteNext(c, ext);
        }
      }
    }
  }

  /** An object with nothing behind its comma is read past its end. */
  lemma LastMember(c: bytes, depth: nat, strtod: Strtod)
    requires c != []
    ensures MembersAt(c, |c| - 1, depth, strtod) == Overran
  {
  }

  // ----- Closing what is open -----

  predicate AllClosing(k: bytes) { forall i :: 0 <= i < |k| ==> k[i] == CLOSE_BRACKET || k[i] == CLOSE_BRACE }

  /** Only an array or an object overruns. */
  lemma OverranValue(c: bytes, o: nat, depth: nat, strtod: Strtod)
    requires o <= |c| && ValueAt(c, o, depth, strtod).Overran?
    ensures o < |c| && depth < NESTING_LIMIT && Skip(c, o + 1) < |c| && (c[o] == OPEN_BRACKET || c[o] == OPEN_BRACE)
    ensures var p := Skip(c, o + 1);
      && !IsByteAt(c, p, if c[o] == OPEN_BRACKET then CLOSE_BRACKET else CLOSE_BRACE)
      && if c[o] == OPEN_BRACKET then ItemsAt(c, p - 1, depth + 1, strtod).Overran?
         else MembersAt(c, p - 1, depth + 1, strtod).Overran?
  {
    hide At, StringAt, NumberAt, ItemsAt, MembersAt, Skip;
  }

  /** Where the overrun happens, if not at the final comma: in the value of this member, or later. */
  lemma OverranMembers(c: bytes, o: nat, depth: nat, strtod: Strtod)
    requires o + 1 < |c| && MembersAt(c, o, depth, strtod).Overran?
    ensures var r, k := MemberAt(c, o, depth, strtod), StringAt(c, Skip(c, o + 1));
      if r.Ok? then IsByteAt(c, Skip(c, r.next), COMMA) && MembersAt(c, Skip(c, r.next), depth, strtod).Overran?
      else
        && r.Overran? && k.Ok? && IsByteAt(c, Skip(c, k.next), COLON)
        && ValueAt(c, Skip(c, Skip(c, k.next) + 1), depth, strtod).Overran?
  {
    hide At, StringAt, ValueAt, Skip;
  }

  /** With `k` behind the one more member, the value, the elements or the members at `o` are complete. */
  ghost predicate ValueDone(c: bytes, ext: bytes, o: nat, depth: nat, strtod: Strtod, k: bytes) {
    Extends(c, ext) && At(ext, |c| + 8, k) && o < |c| ==>
      var x := ValueAt(ext, o, depth, strtod); x.Ok? && x.next == |c| + 8 + |k|
  }

  ghost predicate ItemsDone(c: bytes, ext: bytes, o: nat, depth: nat, strtod: Strtod, k: bytes) {
    Extends(c, ext) && At(ext, |c| + 8, k) && o < |c| ==>
      var x := ItemsAt(ext, o, depth, strtod); x.Ok? && x.next == |c| + 8 + |k|
  }

  ghost predicate MembersDone(c: bytes, ext: bytes, o: nat, depth: nat, strtod: Strtod, k: bytes) {
    Extends(c, ext) && At(ext, |c| + 8, k) && o < |c| ==>
      var x := MembersAt(ext, o, depth, strtod); x.Ok? && x.next == |c| + 8 + |k|
  }

  /** The brackets that close what is open around the object that runs past the end. */
  lemma {:induction false} ValueCloses(c: bytes, o: nat, depth: nat, strtod: Strtod) returns (k: bytes)
    requires o <= |c| && ValueAt(c, o, depth, strtod).Overran?
    ensures AllClosing(k) && forall ext: bytes :: ValueDone(c, ext, o, depth, strtod, k)
    decreases |c| - o, 3
  {
    hide At, Extends, Skip, ValueAt, ItemsAt, MembersAt;
    OverranValue(c, o, depth, strtod);
    var p := Skip(c, o + 1);
    if c[o] == OPEN_BRACKET {
      k := ItemsClose(c, p - 1, depth + 1, strtod);
    } else {
      k := MembersClose(c, p - 1, depth + 1, strtod);
    }
    forall ext: bytes ensures ValueDone(c, ext, o, depth, strtod, k) {
      if Extends(c, ext) && At(ext, |c| + 8, k) {
        assert c[o] == OPEN_BRACKET ==> ItemsDone(c, ext, p - 1, depth + 1, strtod, k);
        assert c[o] == OPEN_BRACE ==> MembersDone(c, ext, p - 1, depth + 1, strtod, k);
        Bracketed(c, ext, o, depth, strtod);
      }
    }
  }

  /** The value at an opening bracket is what follows it. */
  lemma Bracketed(c: bytes, ext: bytes, o: nat, depth: nat, strtod: Strtod)
    requires Extends(c, ext) && o + 1 < |c| && depth < NESTING_LIMIT && (c[o] == OPEN_BRACKET || c[o] == OPEN_BRACE)
    requires !IsByteAt(c, Skip(c, o + 1), if c[o] == OPEN_BRACKET then CLOSE_BRACKET else CLOSE_BRACE)
    ensures Skip(c, o + 1) < |c|
    ensures var p, x := Skip(c, o + 1), ValueAt(ext, o, depth, strtod);
      if c[o] == OPEN_BRACKET
      then var r := ItemsAt(ext, p - 1, depth + 1, strtod); r.Ok? ==> x.Ok? && x.next == r.next
      else var r := MembersAt(ext, p - 1, depth + 1, strtod); r.Ok? ==> x.Ok? && x.next == r.next
  {
    hide At, Skip, ItemsAt, MembersAt, StringAt, NumberAt, Extends;
    MoreAt(c, ext);
    SkipSame(c, ext, o + 1);
    NoText(ext, o);
    if c[o] == OPEN_BRACKET {
      assert ArrayAt(ext, o, depth, strtod) == ItemsAt(ext, Skip(c, o + 1) - 1, depth + 1, strtod);
    } else {
      assert ObjectAt(ext, o, depth, strtod) == MembersAt(ext, Skip(c, o + 1) - 1, depth + 1, strtod);
    }
  }

  lemma NoText(c: bytes, o: nat)
    requires o < |c| && (c[o] == OPEN_BRACKET || c[o] == OPEN_BRACE)
    ensures !At(c, o, Text.NULL_TEXT) && !At(c, o, Text.FALSE_TEXT) && !At(c, o, Text.TRUE_TEXT)
  {
    if At(c, o, Text.NULL_TEXT) { AtIndex(c, o, Text.NULL_TEXT, 0); }
    if At(c, o, Text.FALSE_TEXT) { AtIndex(c, o, Text.FALSE_TEXT, 0); }
    if At(c, o, Text.TRUE_TEXT) { AtIndex(c, o, Text.TRUE_TEXT, 0); }
  }

  lemma BracketNext(ext: bytes, p: nat, k: bytes, b: byte)
    requires At(ext, p, k + [b]) && (b == CLOSE_BRACKET || b == CLOSE_BRACE)
    ensures At(ext, p, k) && p + |k| < |ext| && Skip(ext, p + |k|) == p + |k| && ext[p + |k|] == b
  {
    AtConcat(ext, p, k, [b]);
    AtIndex(ext, p + |k|, [b], 0);
  }

  lemma {:induction false} ItemsClose(c: bytes, o: nat, depth: nat, strtod: Strtod) returns (k: bytes)
    requires o < |c| && ItemsAt(c, o, depth, strtod).Overran?
    ensures AllClosing(k) && forall ext: bytes :: ItemsDone(c, ext, o, depth, strtod, k)
    decreases |c| - o, 1
  {
    OverranItems(c, o, depth, strtod);
    hide At, Extends, Skip, ValueAt, ItemsAt;
    var p := Skip(c, o + 1);
    var r := ValueAt(c, p, depth, strtod);
    if r.Overran? {
      var inner := ValueCloses(c, p, depth, strtod);
      k := inner + [CLOSE_BRACKET];
      forall ext: bytes ensures ItemsDone(c, ext, o, depth, strtod, k) {
        if Extends(c, ext) && At(ext, |c| + 8, k) {
          assert ValueDone(c, ext, p, depth, strtod, inner);
          LastOne(c, ext, o, depth, strtod, inner);
        }
      }
    } else {
      k := ItemsClose(c, Skip(c, r.next), depth, strtod);
      forall ext: bytes ensures ItemsDone(c, ext, o, depth, strtod, k) {
        if Extends(c, ext) && At(ext, |c| + 8, k) {
          assert ItemsDone(c, ext, Skip(c, r.next), depth, strtod, k);
          ItemKept(c, ext, o, depth, strtod);
          AndMore(c, ext, o, depth, strtod);
        }
      }
    }
  }

  lemma OverranItems(c: bytes, o: nat, depth: nat, strtod: Strtod)
    requires o < |c| && ItemsAt(c, o, depth, strtod).Overran?
    ensures var r := ValueAt(c, Skip(c, o + 1), depth, strtod);
      if r.Ok? then IsByteAt(c, Skip(c, r.next), COMMA) && ItemsAt(c, Skip(c, r.next), depth, strtod).Overran?
      else r.Overran?
  {
    hide ValueAt, Skip;
  }

  /** The element that overruns, closed. */
  lemma LastOne(c: bytes, ext: bytes, o: nat, depth: nat, strtod: Strtod, inner: bytes)
    requires Extends(c, ext) && o < |c| && At(ext, |c| + 8, inner + [CLOSE_BRACKET])
    requires ValueAt(c, Skip(c, o + 1), depth, strtod).Overran?
    requires ValueDone(c, ext, Skip(c, o + 1), depth, strtod, inner)
    ensures var x := ItemsAt(ext, o, depth, strtod); x.Ok? && x.next == |c| + 9 + |inner|
  {
    hide At, Extends, Skip, ValueAt;
    BracketNext(ext, |c| + 8, inner, CLOSE_BRACKET);
    OverranValue(c, Skip(c, o + 1), depth, strtod);
    if o + 1 < |c| { SkipSame(c, ext, o + 1); }
  }

  /** An element and a comma before the one that overruns. */
  lemma AndMore(c: bytes, ext: bytes, o: nat, depth: nat, strtod: Strtod)
    requires Extends(c, ext) && o + 1 < |c| && ValueAt(c, Skip(c, o + 1), depth, strtod).Ok?
    requires Skip(ext, o + 1) == Skip(c, o + 1)
    requires var r := ValueAt(c, Skip(c, o + 1), depth, strtod);
      && ValueAt(ext, Skip(c, o + 1), depth, strtod) == r && Skip(ext, r.next) == Skip(c, r.next)
      && IsByteAt(c, Skip(c, r.next), COMMA)
    ensures var s := Skip(c, ValueAt(c, Skip(c, o + 1), depth, strtod).next);
      var x, y := ItemsAt(ext, s, depth, strtod), ItemsAt(ext, o, depth, strtod);
      x.Ok? ==> y.Ok? && y.next == x.next
  {
    hide At, Extends, Skip, ValueAt;
    MoreAt(c, ext);
  }

  /** An element that ends before the final comma is read alike. */
  lemma ItemKept(c: bytes, ext: bytes, o: nat, depth: nat, strtod: Strtod)
    requires Extends(c, ext) && o < |c| && ValueAt(c, Skip(c, o + 1), depth, strtod).Ok?
    ensures o + 1 < |c| && Skip(ext, o + 1) == Skip(c, o + 1)
    ensures var r := ValueAt(c, Skip(c, o + 1), depth, strtod);
      ValueAt(ext, Skip(c, o + 1), depth, strtod) == r && Skip(ext, r.next) == Skip(c, r.next) < |c|
  {
    hide Extends, ValueAt, Skip;
    if o + 1 < |c| {
      SkipSame(c, ext, o + 1);
      ValueSame(c, ext, Skip(c, o + 1), depth, strtod);
      SkipSame(c, ext, ValueAt(c, Skip(c, o + 1), depth, strtod).next);
    }
  }

  lemma {:induction false} MembersClose(c: bytes, o: nat, depth: nat, strtod: Strtod) returns (k: bytes)
    requires o < |c| && MembersAt(c, o, depth, strtod).Overran?
    ensures AllClosing(k) && forall ext: bytes :: MembersDone(c, ext, o, depth, strtod, k)
    decreases |c| - o, 1
  {
    hide At, Extends, Skip, MemberAt, ValueAt, StringAt;
    if o + 1 == |c| {
      k := [];
      forall ext: bytes ensures MembersDone(c, ext, o, depth, strtod, k) {
        if Extends(c, ext) { NewMember(c, ext, depth, strtod); }
      }
    } else {
      OverranMembers(c, o, depth, strtod);
      var r := MemberAt(c, o, depth, strtod);
      if r.Overran? {
        var p := Skip(c, Skip(c, StringAt(c, Skip(c, o + 1)).next) + 1);
        var inner := ValueCloses(c, p, depth, strtod);
        k := inner + [CLOSE_BRACE];
        forall ext: bytes ensures MembersDone(c, ext, o, depth, strtod, k) {
          if Extends(c, ext) && At(ext, |c| + 8, k) {
            assert ValueDone(c, ext, p, depth, strtod, inner);
            BracketNext(ext, |c| + 8, inner, CLOSE_BRACE);
            MemberKept(c, ext, o, depth, strtod);
          }
        }
      } else {
        k := MembersClose(c, Skip(c, r.next), depth, strtod);
        forall ext: bytes ensures MembersDone(c, ext, o, depth, strtod, k) {
          if Extends(c, ext) && At(ext, |c| + 8, k) {
            assert MembersDone(c, ext, Skip(c, r.next), depth, strtod, k);
            MoreAt(c, ext);
            MemberSame(c, ext, o, depth, strtod);
            SkipSame(c, ext, r.next);
          }
        }
      }
    }
  }

  /** A member whose value overruns: its name and colon are read alike. */
  lemma MemberKept(c: bytes, ext: bytes, o: nat, depth: nat, strtod: Strtod)
    requires Extends(c, ext) && o + 1 < |c| && StringAt(c, Skip(c, o + 1)).Ok?
    requires IsByteAt(c, Skip(c, StringAt(c, Skip(c, o + 1)).next), COLON)
    ensures var p := Skip(c, Skip(c, StringAt(c, Skip(c, o + 1)).next) + 1);
      && p < |c|
      && (ValueAt(ext, p, depth, strtod).Ok? ==>
            && MemberAt(ext, o, depth, strtod).Ok?
            && MemberAt(ext, o, depth, strtod).next == ValueAt(ext, p, depth, strtod).next)
  {
    hide Extends, Skip, StringAt, ValueAt;
    MoreAt(c, ext);
    SkipSame(c, ext, o + 1);
    StringSame(c, ext, Skip(c, o + 1));
    var k := StringAt(c, Skip(c, o + 1));
    SkipSame(c, ext, k.next);
    SkipSame(c, ext, Skip(c, k.next) + 1);
  }

  /** The one more member and the end of its object. */
  lemma NewMember(c: bytes, ext: bytes, depth: nat, strtod: Strtod)
    requires Extends(c, ext)
    ensures MembersAt(ext, |c| - 1, depth, strtod) == Ok([Member([], Null)], |c| + 8)
  {
    hide StringAt, At;
    MoreAt(c, ext);
    EmptyKey(c, ext);
    var n := |c|;
    AtIndex(ext, n + 3, Text.NULL_TEXT, 0);
    assert Skip(ext, n + 3) == n + 3 && Skip(ext, n + 7) == n + 7;
    assert ValueAt(ext, n + 3, depth, strtod) == Ok(Null, n + 7);
    assert MemberAt(ext, n - 1, depth, strtod) == Ok(Member([], Null), n + 7);
  }

  // ----- The theorem -----

  /** `c`, its final comma, one more member and `k` make up a whole JSON text. */
  ghost predicate Completes(c: bytes, k: bytes, strtod: Strtod) {
    var r := ParseAll(c + MORE + k, false, strtod);
    AllClosing(k) && r.Ok? && r.next == |c| + 8 + |k|
  }

  lemma ExtendsBy(c: bytes, k: bytes)
    requires c != [] && c[|c| - 1] == COMMA
    ensures Extends(c, c + MORE + k) && At(c + MORE + k, |c| + 8, k) && |c + MORE + k| == |c| + 8 + |k|
  {
    var ext := c + MORE + k;
    assert |MORE| == 8;
    assert ext[..|c|] == c && ext[|c|..|c| + 8] == MORE && ext[|c| + 8..|c| + 8 + |k|] == k;
  }

  lemma BomSame(c: bytes, ext: bytes)
    requires Extends(c, ext)
    ensures Bom(ext) == Bom(c) || (Bom(c) == 0 && Bom(ext) == 3 && c[0] == 0xEF && |c| == 4)
    ensures Bom(c) < |c|
  {
    MoreAt(c, ext);
    var mark: bytes := [0xEF, 0xBB, 0xBF];
    TextSame(c, ext, 0, mark);
    if At(c, 0, mark) { AtIndex(c, 0, mark, 0); }
  }

  /** The parser reads past the end of an input exactly when the input stops on a comma and one more
      member and some closing brackets would complete it to a JSON text. */
  lemma OverrunExact(c: bytes, requireNul: bool, strtod: Strtod)
    ensures ParseAll(c, requireNul, strtod) == Overran
      <==> c != [] && c[|c| - 1] == COMMA && exists k: bytes :: Completes(c, k, strtod)
  {
    hide At, ValueAt, Skip, Bom;
    if c != [] && c[|c| - 1] == COMMA {
      if ParseAll(c, requireNul, strtod) == Overran {
        var k := Completed(c, strtod);
        assert Completes(c, k, strtod);
      }
      if k: bytes :| Completes(c, k, strtod) { Shortened(c, k, strtod); }
    } else if c != [] {
      ParserSafety.ValueSafe(c, Skip(c, Bom(c)), 0, strtod);
    }
  }

  lemma Completed(c: bytes, strtod: Strtod) returns (k: bytes)
    requires c != [] && c[|c| - 1] == COMMA && ValueAt(c, Skip(c, Bom(c)), 0, strtod).Overran?
    ensures Completes(c, k, strtod)
  {
    hide At, ValueAt, Skip, Bom, Extends, AllClosing, ItemsAt, MembersAt;
    k := ValueCloses(c, Skip(c, Bom(c)), 0, strtod);
    var ext := c + MORE + k;
    ExtendsBy(c, k);
    MoreAt(c, ext);
    BomSame(c, ext);
    SkipSame(c, ext, Bom(c));
    OverranValue(c, Skip(c, Bom(c)), 0, strtod);
    assert ValueDone(c, ext, Skip(c, Bom(c)), 0, strtod, k);
    if Bom(ext) != Bom(c) { NotAtMark(c); }
  }

  lemma NotAtMark(c: bytes)
    requires c != [] && c[0] == 0xEF
    ensures Skip(c, 0) == 0
  {
  }

  lemma Shortened(c: bytes, k: bytes, strtod: Strtod)
    requires c != [] && c[|c| - 1] == COMMA && Completes(c, k, strtod)
    ensures ValueAt(c, Skip(c, Bom(c)), 0, strtod).Overran?
  {
    hide At, ValueAt, Skip, Bom, Extends;
    var ext := c + MORE + k;
    ExtendsBy(c, k);
    MoreAt(c, ext);
    BomSame(c, ext);
    if Bom(ext) == Bom(c) {
      SkipSame(c, ext, Bom(c));
      ValueSame(c, ext, Skip(c, Bom(c)), 0, strtod);
    } else {
      CommaFails(c, ext, strtod);
    }
  }

  lemma CommaFails(c: bytes, ext: bytes, strtod: Strtod)
    requires Extends(c, ext) && |c| == 4
    ensures Skip(ext, 3) == 3 && !ValueAt(ext, 3, 0, strtod).Ok?
  {
    MoreAt(c, ext);
    TextSame(c, ext, 3, Text.NULL_TEXT);
    TextSame(c, ext, 3, Text.FALSE_TEXT);
    TextSame(c, ext, 3, Text.TRUE_TEXT);
  }
}
