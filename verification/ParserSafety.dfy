/** What holds of every input, well formed or not: no read past the end and no value
    nested deeper than the limit. */
module ParserSafety {
  import opened Bytes
  import opened Json
  import opened Literal
  import opened Numerals
  import opened Grammar

  /** The input does not stop on a comma; a NUL-terminated text never does. */
  predicate NoFinalComma(c: bytes) { |c| > 0 && c[|c| - 1] != COMMA }

  /** Parsing one value at any offset of such an input stays inside it, and what it builds
      together with what encloses it is nested at most 1000 deep. */
  lemma {:induction false} ValueSafe(c: bytes, o: nat, depth: nat, strtod: Strtod)
    requires NoFinalComma(c) && o <= |c| && depth <= NESTING_LIMIT
    ensures !ValueAt(c, o, depth, strtod).Overran?
    ensures ValueAt(c, o, depth, strtod).Ok? ==> depth + Nesting(ValueAt(c, o, depth, strtod).value) <= NESTING_LIMIT
    decreases |c| - o, 3
  {
    hide ItemsAt, MembersAt, Skip, At, StringAt, NumberAt, ItemsNesting, MembersNesting;
    EmptyNesting();
    if IsByteAt(c, o, OPEN_BRACKET) && depth < NESTING_LIMIT {
      var p := Skip(c, o + 1);
      if p < |c| && !IsByteAt(c, p, CLOSE_BRACKET) {
        ItemsSafe(c, p - 1, depth + 1, strtod);
      }
    } else if IsByteAt(c, o, OPEN_BRACE) && depth < NESTING_LIMIT {
      var p := Skip(c, o + 1);
      if p < |c| && !IsByteAt(c, p, CLOSE_BRACE) {
        MembersSafe(c, p - 1, depth + 1, strtod);
      }
    }
  }

  lemma EmptyNesting()
    ensures ItemsNesting([]) == 0 && MembersNesting([]) == 0
  {
  }

  lemma {:induction false} ItemsSafe(c: bytes, o: nat, depth: nat, strtod: Strtod)
    requires NoFinalComma(c) && o < |c| && depth <= NESTING_LIMIT
    ensures !ItemsAt(c, o, depth, strtod).Overran?
    ensures ItemsAt(c, o, depth, strtod).Ok? ==>
              depth + ItemsNesting(ItemsAt(c, o, depth, strtod).value) <= NESTING_LIMIT
    decreases |c| - o, 1
  {
    ValueSafe(c, Skip(c, o + 1), depth, strtod);
    var r := ValueAt(c, Skip(c, o + 1), depth, strtod);
    if r.Ok? {
      assert ItemsNesting([r.value]) == Nesting(r.value);
      var s := Skip(c, r.next);
      if IsByteAt(c, s, COMMA) {
        ItemsSafe(c, s, depth, strtod);
      }
    }
  }

  lemma {:induction false} MemberSafe(c: bytes, o: nat, depth: nat, strtod: Strtod)
    requires NoFinalComma(c) && o + 1 < |c| && depth <= NESTING_LIMIT
    ensures !MemberAt(c, o, depth, strtod).Overran?
    ensures MemberAt(c, o, depth, strtod).Ok? ==>
              depth + Nesting(MemberAt(c, o, depth, strtod).value.value) <= NESTING_LIMIT
    decreases |c| - o, 0
  {
    hide ValueAt, StringAt, Skip, NoFinalComma, Nesting;
    var k := StringAt(c, Skip(c, o + 1));
    if k.Ok? {
      var s := Skip(c, k.next);
      if IsByteAt(c, s, COLON) {
        ValueSafe(c, Skip(c, s + 1), depth, strtod);
      }
    }
  }

  lemma {:induction false} MembersSafe(c: bytes, o: nat, depth: nat, strtod: Strtod)
    requires NoFinalComma(c) && o + 1 < |c| && depth <= NESTING_LIMIT
    ensures !MembersAt(c, o, depth, strtod).Overran?
    ensures MembersAt(c, o, depth, strtod).Ok? ==>
              depth + MembersNesting(MembersAt(c, o, depth, strtod).value) <= NESTING_LIMIT
    decreases |c| - o, 1
  {
    hide MemberAt, Nesting;
    MemberSafe(c, o, depth, strtod);
    var r := MemberAt(c, o, depth, strtod);
    if r.Ok? {
      assert MembersNesting([r.value]) == Nesting(r.value.value);
      var s := Skip(c, r.next);
      if IsByteAt(c, s, COMMA) {
        MembersSafe(c, s, depth, strtod);
      }
    }
  }

  /** cJSON_Parse appends a NUL to the text, so it never reads past its input. */
  lemma ParseSafe(text: bytes, requireNul: bool, strtod: Strtod)
    ensures !ParseAll(text + [NUL], requireNul, strtod).Overran?
    ensures ParseAll(text + [NUL], requireNul, strtod).Ok? ==>
              Nesting(ParseAll(text + [NUL], requireNul, strtod).value) <= NESTING_LIMIT
  {
    var c := text + [NUL];
    ValueSafe(c, Skip(c, Bom(c)), 0, strtod);
  }

  /** Without a terminator the premise is needed: after `{"":0,` the parser looks for a key
      one byte past the end, whatever number reader it uses that accepts the digit. */
  lemma FinalCommaOverruns(strtod: Strtod, d: real)
    requires strtod([48]) == (1, d)
    ensures ParseAll([OPEN_BRACE, QUOTE, QUOTE, COLON, 48, COMMA], false, strtod) == Overran
  {
    var c: bytes := [OPEN_BRACE, QUOTE, QUOTE, COLON, 48, COMMA];
    assert StringAt(c, 1).Ok? && StringAt(c, 1).next == 3 by {
      assert ScanEnd(c, 2) == Some(2);
    }
    assert NumberSpan(c, 4, 0) == NumberSpan(c, 4, 1) == 1;
    assert c[4..4 + 1] == [48];
    assert ValueAt(c, 4, 1, strtod).Ok? && ValueAt(c, 4, 1, strtod).next == 5;
    assert MembersAt(c, 5, 1, strtod) == Overran by {
      assert Skip(c, 6) == 6;
    }
    assert Skip(c, 1) == 1 && Skip(c, 3) == 3 && Skip(c, 4) == 4 && Skip(c, 5) == 5;
    assert MemberAt(c, 0, 1, strtod).Ok? && MemberAt(c, 0, 1, strtod).next == 5;
    assert MembersAt(c, 0, 1, strtod) == Overran;
    assert ObjectAt(c, 0, 0, strtod) == Overran;
  }
}
