/** Removing white space and comments from JSON text in place (cJSON_Minify), and what it does to
    formatted printed text. */
module Minify {
  import opened Bytes
  import opened Decimal
  import opened Json
  import opened Text

  const STAR: byte := 42

  predicate White(b: byte) { b == SPACE || b == TAB || b == RETURN || b == NEWLINE }

  predicate Is(c: bytes, i: nat, b: byte) { i < |c| && c[i] == b }

  // ----- What the minifier writes -----

  /** The position after the line comment whose body starts at `i`. */
  function AfterLine(c: bytes, i: nat): (r: nat)
    requires i <= |c|
    ensures i <= r <= |c|
    decreases |c| - i
  {
    if i == |c| then i else if c[i] == NEWLINE then i + 1 else AfterLine(c, i + 1)
  }

  /** The position after the block comment whose body starts at `i`. */
  function AfterBlock(c: bytes, i: nat): (r: nat)
    requires i <= |c|
    ensures i <= r <= |c|
    decreases |c| - i
  {
    if i == |c| then i else if c[i] == STAR && Is(c, i + 1, SLASH) then i + 2 else AfterBlock(c, i + 1)
  }

  /** The output for the text from `i` on, outside strings. */
  function Minified(c: bytes, i: nat): (r: bytes)
    requires i <= |c|
    ensures |r| <= |c| - i
    decreases |c| - i
  {
    if i == |c| then []
    else if White(c[i]) then Minified(c, i + 1)
    else if c[i] == SLASH then
      if Is(c, i + 1, SLASH) then Minified(c, AfterLine(c, i + 2))
      else if Is(c, i + 1, STAR) then Minified(c, AfterBlock(c, i + 2))
      else Minified(c, i + 1)
    else if c[i] == QUOTE then [QUOTE] + InString(c, i + 1)
    else [c[i]] + Minified(c, i + 1)
  }

  /** The output for the text from `i` on, inside a string. */
  function InString(c: bytes, i: nat): (r: bytes)
    requires i <= |c|
    ensures |r| <= |c| - i
    decreases |c| - i
  {
    if i == |c| then []
    else if c[i] == QUOTE then [QUOTE] + Minified(c, i + 1)
    else if c[i] == BACKSLASH && Is(c, i + 1, QUOTE) then [BACKSLASH, QUOTE] + InString(c, i + 2)
    else [c[i]] + InString(c, i + 1)
  }

  // ----- Which values survive -----

  predicate EndsInBackslash(s: bytes) { s != [] && s[|s| - 1] == BACKSLASH }

  /** No string and no key ends in a backslash. */
  predicate Clean(v: Value)
    decreases v
  {
    match v
    case String(s) => !EndsInBackslash(s)
    case Array(items) => CleanItems(items, 0)
    case Object(members) => CleanMembers(members, 0)
    case _ => true
  }

  predicate CleanItems(items: seq<Value>, i: nat)
    requires i <= |items|
    decreases items, |items| - i
  {
    i == |items| || (Clean(items[i]) && CleanItems(items, i + 1))
  }

  predicate CleanMembers(members: seq<Member>, i: nat)
    requires i <= |members|
    decreases members, |members| - i
  {
    i == |members|
    || (!EndsInBackslash(members[i].key) && Clean(members[i].value) && CleanMembers(members, i + 1))
  }

  /** A string that ends in a backslash stands only where nothing but closing brackets of arrays follow, with
      no object around it. */
  predicate Survives(v: Value)
    decreases v
  {
    match v
    case String(s) => true
    case Array(items) => ItemsSurvive(items, 0)
    case Object(members) => CleanMembers(members, 0)
    case _ => true
  }

  predicate ItemsSurvive(items: seq<Value>, i: nat)
    requires i <= |items|
    decreases items, |items| - i
  {
    if i == |items| then true
    else if i + 1 == |items| then Survives(items[i])
    else Clean(items[i]) && ItemsSurvive(items, i + 1)
  }

  // ----- Pieces of text -----

  function Squeeze(t: bytes): bytes {
    if t == [] then [] else (if White(t[0]) then [] else [t[0]]) + Squeeze(t[1..])
  }

  lemma Step(c: bytes, o: nat)
    requires o < |c| && c[o] != SLASH && c[o] != QUOTE
    ensures Minified(c, o) == (if White(c[o]) then [] else [c[o]]) + Minified(c, o + 1)
  {
  }

  /** Text without quotes and slashes only loses its white space. */
  lemma {:induction false} Token(c: bytes, o: nat, t: bytes)
    requires At(c, o, t) && SLASH !in t && QUOTE !in t
    ensures Minified(c, o) == Squeeze(t) + Minified(c, o + |t|)
    decreases |t|
  {
    hide Minified, At;
    AtBounds(c, o, t);
    if t == [] {
      assert Squeeze(t) + Minified(c, o) == Minified(c, o);
    } else {
      var rest := t[1..];
      assert t == [t[0]] + rest;
      AtIndex(c, o, t, 0);
      AtConcat(c, o, [t[0]], rest);
      Step(c, o);
      Token(c, o + 1, rest);
    }
  }

  lemma AtBounds(c: bytes, o: nat, t: bytes)
    requires At(c, o, t)
    ensures o + |t| <= |c|
  {
  }

  lemma {:induction false} Unsqueezed(t: bytes)
    requires forall k :: 0 <= k < |t| ==> !White(t[k])
    ensures Squeeze(t) == t
  {
    if t != [] { Unsqueezed(t[1..]); }
  }

  lemma {:induction false} SqueezeConcat(a: bytes, b: bytes)
    ensures Squeeze(a + b) == Squeeze(a) + Squeeze(b)
  {
    if a == [] {
      assert a + b == b;
    } else {
      assert (a + b)[1..] == a[1..] + b;
      SqueezeConcat(a[1..], b);
    }
  }

  lemma SqueezeOne(b: byte)
    ensures Squeeze([b]) == if White(b) then [] else [b]
  {
    assert [b][1..] == [];
  }

  lemma SqueezeTwo(b: byte, w: byte)
    requires White(w) && !White(b)
    ensures Squeeze([b, w]) == [b]
  {
    assert [b, w][1..] == [w];
    SqueezeOne(w);
  }

  lemma {:induction false} SqueezeTabs(n: nat)
    ensures Squeeze(Tabs(n)) == []
  {
    if n > 0 {
      assert Tabs(n)[1..] == Tabs(n - 1);
      SqueezeTabs(n - 1);
    }
  }

  /** A literal or a number goes through unchanged. */
  lemma Solid(c: bytes, o: nat, t: bytes)
    requires At(c, o, t) && forall k :: 0 <= k < |t| ==> !White(t[k]) && t[k] != SLASH && t[k] != QUOTE
    ensures Minified(c, o) == t + Minified(c, o + |t|)
  {
    Unsqueezed(t);
    Token(c, o, t);
  }

  // ----- Strings -----

  lemma InStep(c: bytes, j: nat)
    requires j < |c| && c[j] != QUOTE && !(c[j] == BACKSLASH && Is(c, j + 1, QUOTE))
    ensures InString(c, j) == [c[j]] + InString(c, j + 1)
  {
  }

  /** Bytes of a string that hold no quote, followed by neither an escaped quote nor a split one. */
  lemma {:induction false} InPlain(c: bytes, j: nat, t: bytes)
    requires At(c, j, t) && QUOTE !in t && (t != [] && t[|t| - 1] == BACKSLASH ==> !Is(c, j + |t|, QUOTE))
    ensures InString(c, j) == t + InString(c, j + |t|)
    decreases |t|
  {
    hide InString, At;
    AtBounds(c, j, t);
    if t == [] {
      assert t + InString(c, j) == InString(c, j);
    } else {
      var rest := t[1..];
      assert t == [t[0]] + rest;
      AtIndex(c, j, t, 0);
      if |t| > 1 { AtIndex(c, j, t, 1); }
      AtConcat(c, j, [t[0]], rest);
      InStep(c, j);
      InPlain(c, j + 1, rest);
      assert t + InString(c, j + |t|) == [t[0]] + (rest + InString(c, j + |t|));
    }
  }

  /** One escaped byte goes through unchanged, unless it is a backslash before the closing quote. */
  lemma InEscape(c: bytes, j: nat, b: byte)
    requires At(c, j, Escape(b)) && (b == BACKSLASH ==> !Is(c, j + 2, QUOTE))
    ensures InString(c, j) == Escape(b) + InString(c, j + |Escape(b)|)
  {
    if b == QUOTE {
      AtIndex(c, j, Escape(b), 0);
      AtIndex(c, j, Escape(b), 1);
    } else {
      InPlain(c, j, Escape(b));
    }
  }

  /** What follows a string: text if it was closed, more string if its last backslash hid the quote. */
  function Following(hangs: bool, c: bytes, p: nat): bytes
    requires p <= |c|
  {
    if hangs then InString(c, p) else Minified(c, p)
  }

  lemma EscapeStarts(s: bytes, i: nat, c: bytes, j: nat)
    requires i < |s| && At(c, j, EscapeFrom(s, i))
    ensures !Is(c, j, QUOTE)
  {
    AtIndex(c, j, EscapeFrom(s, i), 0);
  }

  lemma LastBackslash(c: bytes, j: nat)
    requires At(c, j, [BACKSLASH, BACKSLASH, QUOTE])
    ensures InString(c, j) == [BACKSLASH, BACKSLASH, QUOTE] + InString(c, j + 3)
  {
    var t := [BACKSLASH, BACKSLASH, QUOTE];
    AtIndex(c, j, t, 0);
    AtIndex(c, j, t, 1);
    AtIndex(c, j, t, 2);
    hide InString;
    InCases(c, j);
    InCases(c, j + 1);
    assert t == [BACKSLASH] + [BACKSLASH, QUOTE];
  }

  lemma EscapeNext(s: bytes, i: nat)
    requires i <= |s|
    ensures EscapeFrom(s, i) == if i == |s| then [] else Escape(s[i]) + EscapeFrom(s, i + 1)
    ensures i + 1 == |s| ==> (EndsInBackslash(s) <==> s[i] == BACKSLASH)
  {
  }

  lemma Regroup(a: bytes, b: bytes, c: bytes)
    ensures a + (b + c) == (a + b) + c
  {
  }

  lemma {:induction false} Content(s: bytes, i: nat, c: bytes, j: nat)
    requires i <= |s| && At(c, j, EscapeFrom(s, i) + [QUOTE])
    ensures InString(c, j)
      == EscapeFrom(s, i) + ([QUOTE] + Following(i < |s| && EndsInBackslash(s), c, j + |EscapeFrom(s, i)| + 1))
    decreases |s| - i
  {
    hide InString, Minified, At, Escape, EscapeFrom, EndsInBackslash;
    EscapeNext(s, i);
    var rest := EscapeFrom(s, i);
    AtConcat(c, j, rest, [QUOTE]);
    AtBounds(c, j, rest + [QUOTE]);
    if i == |s| {
      Closing(c, j);
    } else {
      var e, more := Escape(s[i]), EscapeFrom(s, i + 1);
      AtConcat(c, j, e, more);
      if i + 1 == |s| && s[i] == BACKSLASH {
        EscapedBackslash();
        EscapeNext(s, i + 1);
        assert rest == e && rest + [QUOTE] == [BACKSLASH, BACKSLASH, QUOTE];
        LastBackslash(c, j);
      } else {
        AtConcat(c, j + |e|, more, [QUOTE]);
        AtBounds(c, j + |e|, more + [QUOTE]);
        if i + 1 < |s| { EscapeStarts(s, i + 1, c, j + |e|); }
        EscapedBackslash();
        InEscape(c, j, s[i]);
        Content(s, i + 1, c, j + |e|);
        Regroup(e, more, [QUOTE] + Following(EndsInBackslash(s), c, j + |rest| + 1));
      }
    }
  }

  lemma EscapedBackslash()
    ensures Escape(BACKSLASH) == [BACKSLASH, BACKSLASH]
  {
  }

  lemma Closing(c: bytes, j: nat)
    requires At(c, j, [QUOTE])
    ensures j < |c| && InString(c, j) == [QUOTE] + Minified(c, j + 1)
  {
    AtIndex(c, j, [QUOTE], 0);
  }

  lemma Opening(c: bytes, j: nat)
    requires At(c, j, [QUOTE])
    ensures j < |c| && Minified(c, j) == [QUOTE] + InString(c, j + 1)
  {
    AtIndex(c, j, [QUOTE], 0);
  }

  lemma StringText(s: bytes, c: bytes, o: nat)
    requires At(c, o, Quoted(s))
    ensures o + |Quoted(s)| <= |c|
    ensures Minified(c, o) == Quoted(s) + Following(EndsInBackslash(s), c, o + |Quoted(s)|)
  {
    hide InString, Minified, EscapeFrom, At;
    var inner := EscapeFrom(s, 0);
    AtBounds(c, o, Quoted(s));
    AtConcat(c, o, [QUOTE], inner + [QUOTE]);
    Opening(c, o);
    Content(s, 0, c, o + 1);
    var after := Following(EndsInBackslash(s), c, o + |Quoted(s)|);
    assert [QUOTE] + (inner + ([QUOTE] + after)) == ([QUOTE] + (inner + [QUOTE])) + after;
  }

  // ----- Deviating output -----

  /** The two texts differ at some position that both have. */
  predicate Deviates(a: bytes, b: bytes) {
    a != [] && b != [] && (a[0] != b[0] || Deviates(a[1..], b[1..]))
  }

  lemma {:induction false} DeviatesMore(a: bytes, b: bytes, y: bytes)
    requires Deviates(a, b)
    ensures Deviates(a, b + y)
  {
    if a[0] == b[0] {
      DeviatesMore(a[1..], b[1..], y);
      assert (b + y)[1..] == b[1..] + y;
    }
  }

  lemma {:induction false} DeviatesAfter(x: bytes, a: bytes, b: bytes)
    requires Deviates(a, b)
    ensures Deviates(x + a, x + b)
  {
    if x == [] {
      assert x + a == a && x + b == b;
    } else {
      DeviatesAfter(x[1..], a, b);
      assert (x + a)[1..] == x[1..] + a && (x + b)[1..] == x[1..] + b;
    }
  }

  lemma {:induction false} DeviatesDiffer(a: bytes, b: bytes)
    requires Deviates(a, b)
    ensures a != b
  {
    if a[0] == b[0] { DeviatesDiffer(a[1..], b[1..]); }
  }

  /** Inside a string the text is copied, up to the first quote: so `t` is what comes out next. */
  lemma Hanging(c: bytes, p: nat, t: bytes)
    requires At(c, p, t) && QUOTE !in t && BACKSLASH !in t && p + |t| <= |c|
    ensures InString(c, p) == t + InString(c, p + |t|)
  {
    InPlain(c, p, t);
  }

  /** The copied white space shows up where the unformatted text has `b`. */
  lemma HangingDeviates(c: bytes, p: nat, mark: bytes, w: byte, next: bytes)
    requires At(c, p, mark + [w]) && QUOTE !in mark && BACKSLASH !in mark && White(w)
    requires next != [] && !White(next[0])
    ensures p <= |c| && Deviates(InString(c, p), mark + next)
  {
    hide InString, At;
    AtBounds(c, p, mark + [w]);
    Hanging(c, p, mark + [w]);
    var tail := InString(c, p + |mark + [w]|);
    assert (mark + [w]) + tail == mark + ([w] + tail);
    DeviatesAfter(mark, [w] + tail, next);
  }

  lemma PrintStarts(v: Value, format: bool, depth: nat)
    ensures !White(Print(v, format, depth)[0])
  {
  }

  // ----- Values -----

  /** The formatted text `t` of something minifies to its unformatted text `u`, deviates from it, or
      gives it with the minifier left inside a string. */
  ghost predicate Outcome(c: bytes, o: nat, t: bytes, u: bytes, clean: bool, survives: bool) {
    && o + |t| <= |c|
    && (survives ==> Minified(c, o) == u + Following(!clean, c, o + |t|))
    && (!survives ==> Deviates(Minified(c, o), u))
  }

  /** Clean text, a separator that squeezes to `mark`, and the rest. */
  lemma Onward(c: bytes, o: nat, t: bytes, u: bytes, sep: bytes, mark: bytes, rt: bytes, ru: bytes, clean: bool,
               survives: bool)
    requires Outcome(c, o, t, u, true, true) && At(c, o + |t|, sep)
    requires SLASH !in sep && QUOTE !in sep && Squeeze(sep) == mark
    requires Outcome(c, o + |t| + |sep|, rt, ru, clean, survives)
    ensures Outcome(c, o, t + (sep + rt), u + (mark + ru), clean, survives)
  {
    hide Minified, InString, At, Deviates, Squeeze;
    var p := o + |t|;
    var q := p + |sep|;
    Token(c, p, sep);
    if survives {
      var after := Following(!clean, c, q + |rt|);
      assert u + (mark + (ru + after)) == (u + (mark + ru)) + after;
    } else {
      DeviatesAfter(mark, Minified(c, q), ru);
      DeviatesAfter(u, mark + Minified(c, q), mark + ru);
    }
  }

  /** Text that leaves the minifier in a string, then white space: it is copied and shows. */
  lemma Shows(c: bytes, o: nat, t: bytes, u: bytes, mark: bytes, w: byte, rt: bytes, ru: bytes)
    requires Outcome(c, o, t, u, false, true) && At(c, o + |t|, (mark + [w]) + rt)
    requires QUOTE !in mark && BACKSLASH !in mark && White(w) && ru != [] && !White(ru[0])
    ensures Outcome(c, o, t + ((mark + [w]) + rt), u + (mark + ru), false, false)
  {
    hide Minified, InString, At, Deviates;
    var p := o + |t|;
    AtBounds(c, p, (mark + [w]) + rt);
    AtConcat(c, p, mark + [w], rt);
    HangingDeviates(c, p, mark, w, ru);
    DeviatesAfter(u, InString(c, p), mark + ru);
  }

  lemma Broken(c: bytes, o: nat, t: bytes, u: bytes, clean: bool, x: bytes, y: bytes)
    requires Outcome(c, o, t, u, clean, false) && At(c, o + |t|, x)
    ensures Outcome(c, o, t + x, u + y, false, false)
  {
    hide Minified, InString, Deviates;
    DeviatesMore(Minified(c, o), u, y);
  }

  lemma {:induction false} CleanSurvives(v: Value)
    requires Clean(v)
    ensures Survives(v)
    decreases v
  {
    if v.Array? { CleanItemsSurvive(v.items, 0); }
  }

  lemma {:induction false} CleanItemsSurvive(items: seq<Value>, i: nat)
    requires i <= |items| && CleanItems(items, i)
    ensures ItemsSurvive(items, i)
    decreases items, |items| - i
  {
    if i < |items| {
      CleanSurvives(items[i]);
      CleanItemsSurvive(items, i + 1);
    }
  }

  lemma {:induction false} ValueText(v: Value, c: bytes, o: nat, d: nat)
    requires At(c, o, Print(v, true, d))
    ensures Outcome(c, o, Print(v, true, d), Print(v, false, d), Clean(v), Survives(v))
    decreases v
  {
    hide Minified, InString, At, Deviates;
    AtBounds(c, o, Print(v, true, d));
    match v
    case Null => Solid(c, o, NULL_TEXT);
    case Bool(b) => Solid(c, o, if b then TRUE_TEXT else FALSE_TEXT);
    case Number(n) => Solid(c, o, Dec(n));
    case String(s) => StringText(s, c, o);
    case Array(items) => ArrayText(items, c, o, d);
    case Object(members) => ObjectText(members, c, o, d);
  }

  lemma {:induction false} ArrayText(items: seq<Value>, c: bytes, o: nat, d: nat)
    requires At(c, o, Print(Array(items), true, d))
    ensures Outcome(c, o, Print(Array(items), true, d), Print(Array(items), false, d), CleanItems(items, 0),
                    ItemsSurvive(items, 0))
    decreases items, |items| + 1
  {
    hide Minified, InString, At, Deviates, PrintItems, CleanItems, ItemsSurvive;
    var t, u := PrintItems(items, 0, true, d + 1), PrintItems(items, 0, false, d + 1);
    AtBounds(c, o, Print(Array(items), true, d));
    AtConcat(c, o, [OPEN_BRACKET], t + [CLOSE_BRACKET]);
    AtConcat(c, o + 1, t, [CLOSE_BRACKET]);
    Solid(c, o, [OPEN_BRACKET]);
    ItemsOutcome(items, 0, c, o + 1, d + 1);
    if ItemsSurvive(items, 0) {
      var p := o + 1 + |t|;
      Bracket(c, p, !CleanItems(items, 0));
      var after := Following(!CleanItems(items, 0), c, p + 1);
      assert [OPEN_BRACKET] + (u + ([CLOSE_BRACKET] + after)) == ([OPEN_BRACKET] + (u + [CLOSE_BRACKET])) + after;
    } else {
      DeviatesMore(Minified(c, o + 1), u, [CLOSE_BRACKET]);
      DeviatesAfter([OPEN_BRACKET], Minified(c, o + 1), u + [CLOSE_BRACKET]);
    }
  }

  lemma Bracket(c: bytes, p: nat, hangs: bool)
    requires At(c, p, [CLOSE_BRACKET])
    ensures p < |c| && Following(hangs, c, p) == [CLOSE_BRACKET] + Following(hangs, c, p + 1)
  {
    AtIndex(c, p, [CLOSE_BRACKET], 0);
    if hangs { InStep(c, p); } else { Step(c, p); }
  }

  lemma {:induction false} ItemsOutcome(items: seq<Value>, i: nat, c: bytes, o: nat, d: nat)
    requires i <= |items| && At(c, o, PrintItems(items, i, true, d))
    ensures Outcome(c, o, PrintItems(items, i, true, d), PrintItems(items, i, false, d), CleanItems(items, i),
                    ItemsSurvive(items, i))
    decreases items, |items| - i
  {
    hide Minified, InString, At, Deviates, Print;
    AtBounds(c, o, PrintItems(items, i, true, d));
    if i == |items| {
      assert [] + Minified(c, o) == Minified(c, o);
    } else if i + 1 == |items| {
      ValueText(items[i], c, o, d);
    } else {
      MoreItems(items, i, c, o, d);
    }
  }

  lemma ItemsAhead(items: seq<Value>, i: nat, d: nat)
    requires i + 1 < |items|
    ensures PrintItems(items, i, true, d)
      == Print(items[i], true, d) + ([COMMA, SPACE] + PrintItems(items, i + 1, true, d))
    ensures PrintItems(items, i, false, d) == Print(items[i], false, d) + ([COMMA] + PrintItems(items, i + 1, false, d))
    ensures CleanItems(items, i) == (Clean(items[i]) && CleanItems(items, i + 1))
    ensures ItemsSurvive(items, i) == (Clean(items[i]) && ItemsSurvive(items, i + 1))
  {
  }

  /** One item, then the others: they matter only if the first is clean. */
  lemma AfterComma(c: bytes, o: nat, t: bytes, u: bytes, clean: bool, survives: bool, rt: bytes, ru: bytes,
                   cleanRest: bool, restSurvives: bool)
    requires Outcome(c, o, t, u, clean, survives) && (clean ==> survives)
    requires At(c, o + |t|, [COMMA, SPACE] + rt) && ru != [] && !White(ru[0])
    requires clean ==> Outcome(c, o + |t| + 2, rt, ru, cleanRest, restSurvives)
    ensures Outcome(c, o, t + ([COMMA, SPACE] + rt), u + ([COMMA] + ru), clean && cleanRest, clean && restSurvives)
  {
    hide Outcome, At, Squeeze;
    if clean {
      AtConcat(c, o + |t|, [COMMA, SPACE], rt);
      SqueezeTwo(COMMA, SPACE);
      Onward(c, o, t, u, [COMMA, SPACE], [COMMA], rt, ru, cleanRest, restSurvives);
    } else if survives {
      assert [COMMA] + [SPACE] == [COMMA, SPACE];
      Shows(c, o, t, u, [COMMA], SPACE, rt, ru);
    } else {
      Broken(c, o, t, u, false, [COMMA, SPACE] + rt, [COMMA] + ru);
    }
  }

  lemma {:induction false} MoreItems(items: seq<Value>, i: nat, c: bytes, o: nat, d: nat)
    requires i + 1 < |items| && At(c, o, PrintItems(items, i, true, d))
    ensures Outcome(c, o, PrintItems(items, i, true, d), PrintItems(items, i, false, d), CleanItems(items, i),
                    ItemsSurvive(items, i))
    decreases items, |items| - i, 0
  {
    hide Outcome, At, Print, Clean, Survives, PrintItems, CleanItems, ItemsSurvive;
    ItemsAhead(items, i, d);
    var x := items[i];
    var t, u := Print(x, true, d), Print(x, false, d);
    var rt, ru := PrintItems(items, i + 1, true, d), PrintItems(items, i + 1, false, d);
    AtConcat(c, o, t, [COMMA, SPACE] + rt);
    AtConcat(c, o + |t|, [COMMA, SPACE], rt);
    ValueText(x, c, o, d);
    if Clean(x) {
      CleanSurvives(x);
      ItemsOutcome(items, i + 1, c, o + |t| + 2, d);
    }
    NextItem(items, i + 1, d);
    AfterComma(c, o, t, u, Clean(x), Survives(x), rt, ru, CleanItems(items, i + 1), ItemsSurvive(items, i + 1));
  }

  lemma NextItem(items: seq<Value>, i: nat, d: nat)
    requires i < |items|
    ensures PrintItems(items, i, false, d) != [] && !White(PrintItems(items, i, false, d)[0])
  {
    PrintStarts(items[i], false, d);
  }

  /** The members from index `i` on and the closing brace. */
  function Tail(members: seq<Member>, i: nat, format: bool, d: nat): bytes
    requires i <= |members|
  {
    PrintMembers(members, i, format, d + 1) + ObjectClose(format, d)
  }

  function Comma(last: bool): bytes { if last then [] else [COMMA] }

  /** The value of member `i` and all that follows it. */
  function ValueTail(members: seq<Member>, i: nat, format: bool, d: nat): bytes
    requires i < |members|
  {
    Print(members[i].value, format, d + 1) + (MemberEnd(format, i + 1 == |members|) + Tail(members, i + 1, format, d))
  }

  lemma TailStep(members: seq<Member>, i: nat, format: bool, d: nat)
    requires i < |members|
    ensures Tail(members, i, format, d)
      == Indent(format, d + 1) + (Quoted(members[i].key) + (KeySeparator(format) + ValueTail(members, i, format, d)))
  {
    hide Print, Quoted;
    var m, last := members[i], i + 1 == |members|;
    var a, q, k, v, e, r, z := Indent(format, d + 1), Quoted(m.key), KeySeparator(format),
      Print(m.value, format, d + 1), MemberEnd(format, last), PrintMembers(members, i + 1, format, d + 1),
      ObjectClose(format, d);
    assert (a + (q + (k + (v + (e + r))))) + z == a + (q + (k + (v + (e + (r + z)))));
  }

  lemma TailStarts(members: seq<Member>, i: nat, d: nat)
    requires i <= |members|
    ensures Tail(members, i, false, d) != [] && !White(Tail(members, i, false, d)[0])
  {
    if i < |members| {
      TailStep(members, i, false, d);
    }
  }

  lemma {:induction false} ObjectText(members: seq<Member>, c: bytes, o: nat, d: nat)
    requires At(c, o, Print(Object(members), true, d))
    ensures Outcome(c, o, Print(Object(members), true, d), Print(Object(members), false, d), CleanMembers(members, 0),
                    CleanMembers(members, 0))
    decreases members, |members| + 1
  {
    hide Minified, InString, At, Deviates, PrintMembers, CleanMembers;
    var t, u := Tail(members, 0, true, d), Tail(members, 0, false, d);
    AtBounds(c, o, Print(Object(members), true, d));
    AtConcat(c, o, [OPEN_BRACE, NEWLINE], t);
    SqueezeTwo(OPEN_BRACE, NEWLINE);
    Token(c, o, [OPEN_BRACE, NEWLINE]);
    MembersText(members, 0, c, o + 2, d);
    if CleanMembers(members, 0) {
      var after := Minified(c, o + 2 + |t|);
      assert [OPEN_BRACE] + (u + after) == ([OPEN_BRACE] + u) + after;
    } else {
      DeviatesAfter([OPEN_BRACE], Minified(c, o + 2), u);
    }
  }

  lemma {:induction false} MembersText(members: seq<Member>, i: nat, c: bytes, o: nat, d: nat)
    requires i <= |members| && At(c, o, Tail(members, i, true, d))
    ensures Outcome(c, o, Tail(members, i, true, d), Tail(members, i, false, d), CleanMembers(members, i),
                    CleanMembers(members, i))
    decreases members, |members| - i
  {
    hide Minified, InString, At, Deviates, Tail;
    if i == |members| {
      NoMembers(members, c, o, d);
    } else {
      MemberText(members, i, c, o, d);
    }
  }

  lemma NoMembers(members: seq<Member>, c: bytes, o: nat, d: nat)
    requires At(c, o, Tail(members, |members|, true, d))
    ensures Outcome(c, o, Tail(members, |members|, true, d), Tail(members, |members|, false, d), true, true)
  {
    hide Minified, InString, Deviates, At, Squeeze, Tabs;
    var t := Tabs(d) + [CLOSE_BRACE];
    assert Tail(members, |members|, true, d) == t && Tail(members, |members|, false, d) == [CLOSE_BRACE];
    SqueezeTabs(d);
    SqueezeOne(CLOSE_BRACE);
    SqueezeConcat(Tabs(d), [CLOSE_BRACE]);
    assert Squeeze(t) == [CLOSE_BRACE];
    AtBounds(c, o, t);
    Token(c, o, t);
  }

  lemma {:induction false} MemberText(members: seq<Member>, i: nat, c: bytes, o: nat, d: nat)
    requires i < |members| && At(c, o, Tail(members, i, true, d))
    ensures Outcome(c, o, Tail(members, i, true, d), Tail(members, i, false, d), CleanMembers(members, i),
                    CleanMembers(members, i))
    decreases members, |members| - i, 1
  {
    hide Minified, InString, At, Deviates, Print, Quoted, Tail, ValueTail, CleanMembers, Squeeze, Tabs;
    var q := Quoted(members[i].key);
    var t, u := ValueTail(members, i, true, d), ValueTail(members, i, false, d);
    TailStep(members, i, true, d);
    TailStep(members, i, false, d);
    assert [] + (q + ([COLON] + u)) == q + ([COLON] + u) == Tail(members, i, false, d);
    AtBounds(c, o, Tail(members, i, true, d));
    AtConcat(c, o, Tabs(d + 1), q + ([COLON, TAB] + t));
    SqueezeTabs(d + 1);
    Token(c, o, Tabs(d + 1));
    assert Minified(c, o) == Minified(c, o + d + 1);
    KeyText(members, i, c, o + d + 1, d, q, t, u);
    assert |Tail(members, i, true, d)| == d + 1 + |q + ([COLON, TAB] + t)|;
  }

  lemma {:induction false} KeyText(members: seq<Member>, i: nat, c: bytes, o: nat, d: nat, q: bytes, t: bytes, u: bytes)
    requires i < |members| && q == Quoted(members[i].key)
    requires t == ValueTail(members, i, true, d) && u == ValueTail(members, i, false, d)
    requires At(c, o, q + ([COLON, TAB] + t))
    ensures Outcome(c, o, q + ([COLON, TAB] + t), q + ([COLON] + u), CleanMembers(members, i), CleanMembers(members, i))
    decreases members, |members| - i, 0, 1
  {
    hide At, Print, Quoted, Tail, ValueTail, Minified, InString, Deviates;
    AtConcat(c, o, q, [COLON, TAB] + t);
    AtConcat(c, o + |q|, [COLON, TAB], t);
    StringText(members[i].key, c, o);
    if EndsInBackslash(members[i].key) {
      ValueTailStarts(members, i, d);
      assert [COLON] + [TAB] == [COLON, TAB];
      Shows(c, o, q, q, [COLON], TAB, t, u);
    } else {
      var clean := Clean(members[i].value) && CleanMembers(members, i + 1);
      ValueTailText(members, i, c, o + |q| + 2, d);
      SqueezeTwo(COLON, TAB);
      Onward(c, o, q, q, [COLON, TAB], [COLON], t, u, clean, clean);
    }
  }

  lemma ValueTailStarts(members: seq<Member>, i: nat, d: nat)
    requires i < |members|
    ensures ValueTail(members, i, false, d) != [] && !White(ValueTail(members, i, false, d)[0])
  {
    PrintStarts(members[i].value, false, d + 1);
  }

  lemma {:induction false} ValueTailText(members: seq<Member>, i: nat, c: bytes, o: nat, d: nat)
    requires i < |members| && At(c, o, ValueTail(members, i, true, d))
    ensures var clean := Clean(members[i].value) && CleanMembers(members, i + 1);
      Outcome(c, o, ValueTail(members, i, true, d), ValueTail(members, i, false, d), clean, clean)
    decreases members, |members| - i, 0, 0
  {
    hide Outcome, At, Print, Tail, CleanMembers, Clean, Survives;
    var x, f := members[i].value, Comma(i + 1 == |members|);
    var t, u := Print(x, true, d + 1), Print(x, false, d + 1);
    var rt, ru := Tail(members, i + 1, true, d), Tail(members, i + 1, false, d);
    assert f + [] == f;
    AtConcat(c, o, t, (f + [NEWLINE]) + rt);
    AtConcat(c, o + |t|, f + [NEWLINE], rt);
    ValueText(x, c, o, d + 1);
    if Clean(x) {
      CleanSurvives(x);
      SqueezeEnd(i + 1 == |members|);
      MembersText(members, i + 1, c, o + |t| + |f + [NEWLINE]|, d);
      Onward(c, o, t, u, f + [NEWLINE], f, rt, ru, CleanMembers(members, i + 1), CleanMembers(members, i + 1));
    } else if Survives(x) {
      TailStarts(members, i + 1, d);
      Shows(c, o, t, u, f, NEWLINE, rt, ru);
    } else {
      Broken(c, o, t, u, false, (f + [NEWLINE]) + rt, f + ru);
    }
  }

  lemma SqueezeEnd(last: bool)
    ensures Squeeze(Comma(last) + [NEWLINE]) == Comma(last)
  {
    SqueezeOne(NEWLINE);
    SqueezeTwo(COMMA, NEWLINE);
    assert [COMMA] + [NEWLINE] == [COMMA, NEWLINE] && [] + [NEWLINE] == [NEWLINE];
  }

  /** Minifying the formatted text of a value gives its unformatted text exactly when strings that
      end in a backslash stand only before the final closing brackets. */
  lemma MinifyExact(v: Value)
    ensures Minified(Print(v, true, 0), 0) == Print(v, false, 0) <==> Survives(v)
  {
    hide Minified, InString, Deviates, Print;
    var c := Print(v, true, 0);
    ValueText(v, c, 0, 0);
    if Survives(v) {
      assert Following(!Clean(v), c, |c|) == [] by { AtEnd(c); }
    } else {
      DeviatesDiffer(Minified(c, 0), Print(v, false, 0));
    }
  }

  lemma AtEnd(c: bytes)
    ensures Minified(c, |c|) == [] && InString(c, |c|) == []
  {
  }

  /** In particular no harm comes to values in which no string and no key ends in a backslash. */
  lemma MinifyClean(v: Value)
    requires Clean(v)
    ensures Minified(Print(v, true, 0), 0) == Print(v, false, 0)
  {
    CleanSurvives(v);
    MinifyExact(v);
  }

  // ----- In place -----

  /** The text held in `json` up to its terminator at `n`. */
  ghost predicate Holds(json: array<byte>, n: nat, c: bytes)
    reads json
  {
    n == |c| < json.Length && json[..n] == c && json[n] == NUL && NUL !in c
  }

  /** What every step keeps: the output so far in front, the unread text behind. */
  ghost predicate Cursors(json: array<byte>, c: bytes, i: nat, o: nat)
    reads json
  {
    o <= i <= |c| < json.Length && json[|c|] == NUL && forall k :: i <= k < |c| ==> json[k] == c[k]
  }

  method SkipLine(json: array<byte>, ghost c: bytes, i: nat) returns (j: nat)
    requires Cursors(json, c, i, 0) && NUL !in c
    ensures j == AfterLine(c, i)
  {
    j := i;
    while json[j] != NUL
      invariant i <= j <= |c| && AfterLine(c, j) == AfterLine(c, i)
      decreases |c| - j
    {
      Unread(json, c, i, j);
      if json[j] == NEWLINE {
        return j + 1;
      }
      j := j + 1;
    }
    Unread(json, c, i, j);
  }

  method SkipBlock(json: array<byte>, ghost c: bytes, i: nat) returns (j: nat)
    requires Cursors(json, c, i, 0) && NUL !in c
    ensures j == AfterBlock(c, i)
  {
    j := i;
    while json[j] != NUL
      invariant i <= j <= |c| && AfterBlock(c, j) == AfterBlock(c, i)
      decreases |c| - j
    {
      Unread(json, c, i, j);
      if j < |c| { Unread(json, c, i, j + 1); }
      if json[j] == STAR && json[j + 1] == SLASH {
        return j + 2;
      }
      j := j + 1;
    }
    Unread(json, c, i, j);
  }

  lemma Unread(json: array<byte>, c: bytes, i: nat, j: nat)
    requires Cursors(json, c, i, 0) && NUL !in c && i <= j <= |c|
    ensures j < |c| ==> json[j] == c[j] && c[j] != NUL
    ensures json[j] == NUL <==> j == |c|
  {
    if j < |c| {
      assert c[j] in c;
    }
  }

  /** minify_string: copies through the closing quote, or to the end. */
  method MinifyString(json: array<byte>, ghost c: bytes, i: nat, o: nat) returns (j: nat, w: nat)
    requires Cursors(json, c, i, o) && NUL !in c && i < |c| && c[i] == QUOTE
    modifies json
    ensures Cursors(json, c, j, w) && o <= w && json[..o] == old(json[..o])
    ensures json[..w] + Minified(c, j) == old(json[..o]) + Minified(c, i)
    ensures i < j
  {
    hide Minified, InString;
    ghost var before := json[..o];
    ghost var goal := before + Minified(c, i);
    Unread(json, c, i, i);
    json[o] := json[i];
    j, w := i + 1, o + 1;
    Quote(c, i);
    assert json[..w] == before + [QUOTE];
    assert (before + [QUOTE]) + InString(c, i + 1) == before + ([QUOTE] + InString(c, i + 1));
    var closed := false;
    while !closed && json[j] != NUL
      invariant i < j && o < w && Cursors(json, c, j, w) && json[..o] == before
      invariant json[..w] + Following(!closed, c, j) == goal
      decreases |c| - j
    {
      Unread(json, c, j, j);
      ghost var done := json[..w];
      assert done[..o] == before;
      j, w, closed := StringStep(json, c, j, w);
      assert json[..o] == done[..o];
    }
    Unread(json, c, j, j);
    AtEnd(c);
  }

  /** One turn of the loop in minify_string. */
  method StringStep(json: array<byte>, ghost c: bytes, i: nat, o: nat) returns (j: nat, w: nat, closed: bool)
    requires Cursors(json, c, i, o) && NUL !in c && i < |c|
    modifies json
    ensures Cursors(json, c, j, w) && i < j && o < w && json[..o] == old(json[..o])
    ensures json[..w] + Following(!closed, c, j) == old(json[..o]) + InString(c, i)
  {
    hide Minified, InString;
    Unread(json, c, i, i);
    Unread(json, c, i, i + 1);
    InCases(c, i);
    ghost var done := json[..o];
    j, w, closed := i + 1, o + 1, false;
    json[o] := json[i];
    assert json[..w] == done + [c[i]];
    if json[i] == QUOTE {
      json[o] := QUOTE;
      closed := true;
      assert (done + [QUOTE]) + Minified(c, j) == done + ([QUOTE] + Minified(c, j));
    } else if json[i] == BACKSLASH && json[i + 1] == QUOTE {
      json[w] := json[i + 1];
      j, w := j + 1, w + 1;
      assert json[..w] == done + [BACKSLASH, QUOTE];
      assert (done + [BACKSLASH, QUOTE]) + InString(c, j) == done + ([BACKSLASH, QUOTE] + InString(c, j));
    } else {
      assert (done + [c[i]]) + InString(c, j) == done + ([c[i]] + InString(c, j));
    }
  }

  lemma Quote(c: bytes, i: nat)
    requires i < |c| && c[i] == QUOTE
    ensures Minified(c, i) == [QUOTE] + InString(c, i + 1)
  {
  }

  lemma InCases(c: bytes, j: nat)
    requires j < |c|
    ensures c[j] == QUOTE ==> InString(c, j) == [QUOTE] + Minified(c, j + 1)
    ensures c[j] == BACKSLASH && Is(c, j + 1, QUOTE) ==> InString(c, j) == [BACKSLASH, QUOTE] + InString(c, j + 2)
    ensures c[j] != QUOTE && !(c[j] == BACKSLASH && Is(c, j + 1, QUOTE)) ==>
      InString(c, j) == [c[j]] + InString(c, j + 1)
  {
  }

  lemma OutCases(c: bytes, i: nat)
    requires i < |c|
    ensures White(c[i]) ==> Minified(c, i) == Minified(c, i + 1)
    ensures c[i] == SLASH ==> Minified(c, i) == Minified(c,
      if Is(c, i + 1, SLASH) then AfterLine(c, i + 2) else if Is(c, i + 1, STAR) then AfterBlock(c, i + 2) else i + 1)
    ensures !White(c[i]) && c[i] != SLASH && c[i] != QUOTE ==> Minified(c, i) == [c[i]] + Minified(c, i + 1)
  {
  }

  /** The buffer ends up holding the minified text, terminated; the write cursor stays at or behind
      the read cursor throughout. */
  method MinifyInPlace(json: array<byte>, ghost c: bytes)
    requires Holds(json, |c|, c)
    modifies json
    ensures Holds(json, |Minified(c, 0)|, Minified(c, 0))
  {
    hide Minified;
    var i: nat, o: nat := 0, 0;
    ghost var goal := Minified(c, 0);
    assert json[..0] + goal == goal;
    while json[i] != NUL
      invariant Cursors(json, c, i, o)
      invariant json[..o] + Minified(c, i) == goal
      decreases |c| - i
    {
      i, o := MinifyStep(json, c, i, o);
    }
    Unread(json, c, i, i);
    AtEnd(c);
    assert json[..o] == goal;
    json[o] := NUL;
    assert json[..o] == goal;
    NoNul(c, 0);
  }

  method MinifyStep(json: array<byte>, ghost c: bytes, i: nat, o: nat) returns (j: nat, w: nat)
    requires Cursors(json, c, i, o) && NUL !in c && i < |c|
    modifies json
    ensures Cursors(json, c, j, w) && i < j
    ensures json[..w] + Minified(c, j) == old(json[..o]) + Minified(c, i)
  {
    hide Minified;
    Unread(json, c, i, i);
    Unread(json, c, i, i + 1);
    OutCases(c, i);
    var b := json[i];
    if b == SPACE || b == TAB || b == RETURN || b == NEWLINE {
      j, w := i + 1, o;
    } else if b == SLASH {
      w := o;
      if json[i + 1] == SLASH {
        j := SkipLine(json, c, i + 2);
      } else if json[i + 1] == STAR {
        j := SkipBlock(json, c, i + 2);
      } else {
        j := i + 1;
      }
    } else if b == QUOTE {
      j, w := MinifyString(json, c, i, o);
    } else {
      ghost var done := json[..o];
      json[o] := b;
      assert json[..o + 1] == done + [b];
      assert (done + [b]) + Minified(c, i + 1) == done + ([b] + Minified(c, i + 1));
      j, w := i + 1, o + 1;
    }
  }

  lemma {:induction false} NoNul(c: bytes, i: nat)
    requires i <= |c| && NUL !in c
    ensures NUL !in Minified(c, i) && NUL !in InString(c, i)
    decreases |c| - i
  {
    hide Minified, InString;
    AtEnd(c);
    if i < |c| {
      assert c[i] in c;
      NoNul(c, i + 1);
      OutCases(c, i);
      InCases(c, i);
      if c[i] == QUOTE { Quote(c, i); }
      if i + 2 <= |c| {
        NoNul(c, i + 2);
        NoNul(c, AfterLine(c, i + 2));
        NoNul(c, AfterBlock(c, i + 2));
      }
    }
  }
}
