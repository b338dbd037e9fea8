/** The printer: a byte buffer that either grows or is fixed by the caller,
    written through `ensure` and `update_offset`. */
module Printer {
  import opened Bytes
  import opened Decimal
  import opened Json
  import Text

  /** What is still to be printed of an array before its element `i`. */
  ghost function ArrayRest(items: seq<Value>, i: nat, format: bool, depth: nat): bytes
    requires i <= |items|
  {
    Text.PrintItems(items, i, format, depth) + [CLOSE_BRACKET]
  }

  /** What is still to be printed of an array after its element `i`. */
  ghost function ArrayAfter(items: seq<Value>, i: nat, format: bool, depth: nat): bytes
    requires i < |items|
  {
    if i + 1 < |items| then Text.ItemSeparator(format) + ArrayRest(items, i + 1, format, depth)
    else [CLOSE_BRACKET]
  }

  lemma ArrayStep(items: seq<Value>, i: nat, format: bool, depth: nat)
    requires i < |items|
    ensures ArrayRest(items, i, format, depth)
      == Text.Print(items[i], format, depth) + ArrayAfter(items, i, format, depth)
    ensures i + 1 == |items| ==> ArrayRest(items, i + 1, format, depth) == [CLOSE_BRACKET]
  {
  }

  lemma ArrayRestEnd(items: seq<Value>, format: bool, depth: nat)
    ensures ArrayRest(items, |items|, format, depth) == [CLOSE_BRACKET]
  {
  }

  lemma ArrayEnds(items: seq<Value>, format: bool, depth: nat)
    ensures Text.Print(Array(items), format, depth) == [OPEN_BRACKET] + ArrayRest(items, 0, format, depth + 1)
  {
  }

  /** What is still to be printed of an object before its member `i`. */
  ghost function ObjectRest(members: seq<Member>, i: nat, format: bool, depth: nat): bytes
    requires i <= |members| && depth > 0
  {
    Text.PrintMembers(members, i, format, depth) + Text.ObjectClose(format, depth - 1)
  }

  ghost function AfterKey(m: Member, last: bool, rest: bytes, format: bool, depth: nat): bytes {
    Text.Print(m.value, format, depth) + (Text.MemberEnd(format, last) + rest)
  }

  /** One member followed by `rest`, grouped the way the printer emits it. */
  ghost function MemberText(m: Member, last: bool, rest: bytes, format: bool, depth: nat): bytes {
    Text.Indent(format, depth)
    + (Text.Quoted(m.key) + (Text.KeySeparator(format) + AfterKey(m, last, rest, format, depth)))
  }

  lemma Assoc(a: bytes, b: bytes, c: bytes)
    ensures a + b + c == a + (b + c)
  {
  }

  lemma ObjectStep(members: seq<Member>, i: nat, format: bool, depth: nat)
    requires i < |members| && depth > 0
    ensures ObjectRest(members, i, format, depth)
      == MemberText(members[i], i + 1 == |members|, ObjectRest(members, i + 1, format, depth), format, depth)
  {
    var m := members[i];
    var a: bytes, b: bytes, c: bytes := Text.Indent(format, depth), Text.Quoted(m.key), Text.KeySeparator(format);
    var d: bytes, e: bytes := Text.Print(m.value, format, depth), Text.MemberEnd(format, i + 1 == |members|);
    var f: bytes, g: bytes := Text.PrintMembers(members, i + 1, format, depth), Text.ObjectClose(format, depth - 1);
    Assoc(a, b + (c + (d + (e + f))), g);
    Assoc(b, c + (d + (e + f)), g);
    Assoc(c, d + (e + f), g);
    Assoc(d, e + f, g);
    Assoc(e, f, g);
  }

  lemma ObjectRestEnd(members: seq<Member>, format: bool, depth: nat)
    requires depth > 0
    ensures ObjectRest(members, |members|, format, depth) == Text.ObjectClose(format, depth - 1)
  {
  }

  lemma ObjectEnds(members: seq<Member>, format: bool, depth: nat)
    ensures Text.Print(Object(members), format, depth)
      == Text.ObjectOpen(format) + ObjectRest(members, 0, format, depth + 1)
  {
  }

  class PrintBuffer {
    var buffer: array<byte>
    var offset: nat
    var depth: nat
    const noalloc: bool
    const format: bool

    constructor (buffer: array<byte>, noalloc: bool, format: bool)
      requires buffer.Length <= INT_MAX
      ensures Valid() && Written() == [] && depth == 0
      ensures this.buffer == buffer && this.noalloc == noalloc && this.format == format
    {
      this.buffer, this.offset, this.depth := buffer, 0, 0;
      this.noalloc, this.format := noalloc, format;
    }

    ghost predicate Valid()
      reads this
    {
      buffer.Length <= INT_MAX && (offset < buffer.Length || offset == buffer.Length == 0)
    }

    /** The largest size the buffer can reach. */
    ghost function Limit(): int
      reads this
    {
      if noalloc then buffer.Length else INT_MAX
    }

    ghost function Written(): bytes
      requires Valid()
      reads this, buffer
    {
      buffer[..offset]
    }

    /** The buffer starts with `s` and a NUL; the part of `s` past `offset` is not yet counted. */
    ghost predicate Terminated(s: bytes)
      reads this, buffer
    {
      && offset <= |s| < buffer.Length <= INT_MAX
      && buffer[..|s|] == s && buffer[|s|] == NUL
      && forall k :: offset <= k < |s| ==> s[k] != NUL
    }

    /** What every printing step keeps: the limit, and the caller's buffer unless it may grow. */
    twostate predicate Kept()
      reads this
    {
      && Valid() && Limit() == old(Limit())
      && (buffer == old(buffer) || (fresh(buffer) && !noalloc))
    }

    /** Makes room for `needed` more bytes and one spare, growing the buffer if that is allowed. */
    method Ensure(needed: nat) returns (ok: bool)
      requires Valid()
      modifies this`buffer
      ensures Valid() && Limit() == old(Limit())
      ensures ok <==> offset + needed + 1 <= Limit()
      ensures ok ==> offset + needed + 1 <= buffer.Length
      ensures Written() == old(Written())
      ensures buffer == old(buffer) || (fresh(buffer) && !noalloc)
    {
      if buffer.Length > 0 && offset >= buffer.Length {
        return false;
      }
      if needed > INT_MAX {
        return false;
      }
      var total := needed + offset + 1;
      if total <= buffer.Length {
        return true;
      }
      if noalloc {
        return false;
      }
      var newSize;
      if total > INT_MAX / 2 {
        if total <= INT_MAX {
          newSize := INT_MAX;
        } else {
          return false;
        }
      } else {
        newSize := total * 2;
      }
      Reallocate(newSize);
      return true;
    }

    /** `realloc` to a larger size. */
    method Reallocate(newSize: nat)
      requires Valid() && buffer.Length < newSize <= INT_MAX
      modifies this`buffer
      ensures fresh(buffer) && buffer.Length == newSize
      ensures buffer[..old(buffer.Length)] == old(buffer[..])
      ensures Valid() && Written() == old(Written())
    {
      var larger := new byte[newSize];
      forall i | 0 <= i < buffer.Length {
        larger[i] := buffer[i];
      }
      ghost var was := buffer[..];
      assert larger[..buffer.Length] == was;
      assert larger[..offset] == was[..offset];
      buffer := larger;
    }

    /** Advances `offset` over the text just written, by `strlen`. */
    method UpdateOffset(ghost s: bytes)
      requires Terminated(s)
      modifies this`offset
      ensures Valid() && offset == |s| && Written() == s
    {
      assert forall k :: offset <= k < |s| ==> buffer[k] == buffer[..|s|][k];
      var length := 0;
      while buffer[offset + length] != NUL
        invariant offset + length <= |s|
        decreases |s| - offset - length
      {
        length := length + 1;
      }
      offset := offset + length;
    }

    /** Stores `t` at index `at`. */
    method Store(at: nat, t: bytes)
      requires at + |t| <= buffer.Length
      modifies buffer
      ensures buffer[..at + |t|] == old(buffer[..at]) + t
    {
      var i := 0;
      while i < |t|
        invariant i <= |t|
        invariant buffer[..at + i] == old(buffer[..at]) + t[..i]
      {
        buffer[at + i] := t[i];
        assert buffer[..at + i + 1] == buffer[..at + i] + [t[i]];
        assert t[..i + 1] == t[..i] + [t[i]];
        i := i + 1;
      }
      assert t[..i] == t;
    }

    /** `strcpy` at the current offset. */
    method StoreTerminated(t: cstring)
      requires Valid() && offset + |t| < buffer.Length
      modifies buffer
      ensures Terminated(old(Written()) + t)
    {
      ghost var was := Written();
      Store(offset, t + [NUL]);
      assert was + (t + [NUL]) == was + t + [NUL];
      TerminatedBy(was, t);
    }

    /** Stores `t` at the current offset and counts it. */
    method Append(t: bytes)
      requires Valid() && offset + |t| < buffer.Length
      modifies this`offset, buffer
      ensures Valid() && Written() == old(Written()) + t
    {
      Store(offset, t);
      offset := offset + |t|;
    }

    /** A literal word: room for it and its terminator, then `strcpy`. */
    method PrintWord(word: cstring) returns (ok: bool)
      requires Valid()
      modifies this`buffer, this`offset, buffer
      ensures Kept()
      ensures ok <==> old(offset) + |word| + 2 <= Limit()
      ensures ok ==> Terminated(old(Written()) + word)
    {
      ok := Ensure(|word| + 1);
      if ok {
        StoreTerminated(word);
      }
    }

    method PrintNumber(n: int32) returns (ok: bool)
      requires Valid()
      modifies this`buffer, this`offset, buffer
      ensures Kept()
      ensures ok <==> old(offset) + |Dec(n)| + 2 <= Limit()
      ensures ok ==> Terminated(old(Written()) + Dec(n))
    {
      hide Dec;
      var number := Dec(n);
      ok := Ensure(|number| + 1);
      if ok {
        ghost var was := Written();
        CopyNumber(number, was);
        TerminatedBy(was, number);
        offset := offset + |number|;
      }
    }

    /** Copies the digits, a locale's decimal point replaced by a dot, and terminates them. */
    method CopyNumber(number: cstring, ghost was: bytes)
      requires offset + |number| < buffer.Length && buffer[..offset] == was
      modifies buffer
      ensures buffer[..offset + |number| + 1] == was + number + [NUL]
    {
      var i := 0;
      while i < |number|
        invariant i <= |number|
        invariant buffer[..offset + i] == was + number[..i]
      {
        buffer[offset + i] := if number[i] == DOT then DOT else number[i];
        assert buffer[..offset + i + 1] == buffer[..offset + i] + [number[i]];
        assert number[..i + 1] == number[..i] + [number[i]];
        i := i + 1;
      }
      assert number[..i] == number;
      buffer[offset + i] := NUL;
      assert buffer[..offset + i + 1] == buffer[..offset + i] + [NUL];
    }

    /** Counts the extra bytes escaping needs. */
    static method CountEscapes(s: cstring) returns (extra: nat)
      ensures |s| + extra == |Text.EscapeFrom(s, 0)|
      ensures extra == 0 ==> Text.EscapeFrom(s, 0) == s
    {
      hide Text.EscapeFrom;
      extra := 0;
      var i := 0;
      EscapeEnd(s);
      assert s[..0] + Text.EscapeFrom(s, 0) == Text.EscapeFrom(s, 0);
      while i < |s|
        invariant i <= |s|
        invariant i + extra + |Text.EscapeFrom(s, i)| == |Text.EscapeFrom(s, 0)|
        invariant extra == 0 ==> s[..i] + Text.EscapeFrom(s, i) == Text.EscapeFrom(s, 0)
      {
        var b := s[i];
        EscapeStep(s, i);
        if b == QUOTE || b == BACKSLASH || b == 8 || b == 12 || b == 10 || b == 13 || b == 9 {
          extra := extra + 1;
        } else if b < 32 {
          extra := extra + 5;
        } else {
          assert s[..i + 1] + Text.EscapeFrom(s, i + 1) == s[..i] + ([b] + Text.EscapeFrom(s, i + 1));
        }
        i := i + 1;
      }
      assert s[..i] + [] == s;
    }

    static lemma EscapeStep(s: bytes, i: nat)
      requires i < |s|
      ensures Text.EscapeFrom(s, i) == Text.Escape(s[i]) + Text.EscapeFrom(s, i + 1)
    {
    }

    static lemma EscapeEnd(s: bytes)
      ensures Text.EscapeFrom(s, |s|) == []
    {
    }

    method PrintString(s: cstring) returns (ok: bool)
      requires Valid()
      modifies this`buffer, this`offset, buffer
      ensures Kept()
      ensures ok <==> old(offset) + |Text.Quoted(s)| + 2 <= Limit()
      ensures ok ==> Terminated(old(Written()) + Text.Quoted(s))
    {
      var escapes := CountEscapes(s);
      var outputLength := |s| + escapes;
      ok := Ensure(outputLength + 3);
      if !ok {
        return;
      }
      if escapes == 0 {
        StoreTerminated([QUOTE] + (s + [QUOTE]));
      } else {
        StoreEscaped(s, outputLength);
      }
    }

    method StoreEscaped(s: cstring, outputLength: nat)
      requires outputLength == |Text.EscapeFrom(s, 0)|
      requires Valid() && offset + outputLength + 2 < buffer.Length
      modifies buffer
      ensures Terminated(old(Written()) + Text.Quoted(s))
    {
      hide Text.EscapeFrom;
      ghost var was, escaped := Written(), Text.EscapeFrom(s, 0);
      Store(offset, [QUOTE]);
      EscapeInto(s, was);
      Store(offset + outputLength + 1, [QUOTE, NUL]);
      TerminatedBy(was, Text.Quoted(s)) by {
        assert was + [QUOTE] + escaped + [QUOTE, NUL] == was + ([QUOTE] + (escaped + [QUOTE])) + [NUL];
      }
    }

    lemma TerminatedBy(was: bytes, t: cstring)
      requires offset == |was| && |was| + |t| < buffer.Length <= INT_MAX
      requires buffer[..|was| + |t| + 1] == was + t + [NUL]
      ensures Terminated(was + t)
    {
      var s := was + t;
      assert buffer[..|s|] == buffer[..|s| + 1][..|s|];
      assert buffer[|s|] == buffer[..|s| + 1][|s|];
    }

    static method EscapeByte(b: byte) returns (piece: bytes)
      ensures piece == Text.Escape(b)
    {
      if b > 31 && b != QUOTE && b != BACKSLASH {
        return [b];
      }
      match b {
        case 92 => piece := [BACKSLASH, BACKSLASH];
        case 34 => piece := [BACKSLASH, QUOTE];
        case 8 => piece := [BACKSLASH, 98];
        case 12 => piece := [BACKSLASH, 102];
        case 10 => piece := [BACKSLASH, 110];
        case 13 => piece := [BACKSLASH, 114];
        case 9 => piece := [BACKSLASH, 116];
        case _ =>
          piece := [BACKSLASH, 117, 48, 48, Text.HexDigit(b as int / 16), Text.HexDigit(b as int % 16)];
      }
    }

    /** The slow copy: every byte of `s` escaped, starting right after the opening quote. */
    method EscapeInto(s: cstring, ghost was: bytes)
      requires offset + 1 + |Text.EscapeFrom(s, 0)| <= buffer.Length
      requires buffer[..offset + 1] == was + [QUOTE]
      modifies buffer
      ensures buffer[..offset + 1 + |Text.EscapeFrom(s, 0)|] == was + [QUOTE] + Text.EscapeFrom(s, 0)
    {
      hide Text.EscapeFrom, Text.Escape;
      ghost var goal := was + [QUOTE] + Text.EscapeFrom(s, 0);
      var at := offset + 1;
      EscapeEnd(s);
      var i := 0;
      while i < |s|
        invariant i <= |s| && 0 <= at <= buffer.Length
        invariant buffer[..at] + Text.EscapeFrom(s, i) == goal
      {
        ghost var before, rest := buffer[..at], Text.EscapeFrom(s, i + 1);
        var piece := EscapeByte(s[i]);
        EscapeStep(s, i);
        assert before + (piece + rest) == goal;
        assert |before| + |piece| + |rest| == |goal| <= buffer.Length;
        Store(at, piece);
        at := at + |piece|;
        assert buffer[..at] == before + piece;
        assert before + piece + rest == before + (piece + rest);
        i := i + 1;
      }
      assert buffer[..at] + [] == goal;
    }

    /** Prints `v` at the current offset: it succeeds exactly when the text and two more bytes fit. */
    method PrintValue(v: Value) returns (ok: bool)
      requires Valid()
      modifies this, buffer
      ensures Kept()
      ensures ok <==> old(offset) + |Text.Print(v, format, old(depth))| + 2 <= Limit()
      ensures ok ==> depth == old(depth) && Terminated(old(Written()) + Text.Print(v, format, depth))
      decreases v, 0
    {
      match v
      case Null => ok := PrintWord(Text.NULL_TEXT);
      case Bool(b) => ok := PrintWord(if b then Text.TRUE_TEXT else Text.FALSE_TEXT);
      case Number(n) => ok := PrintNumber(n);
      case String(s) => ok := PrintString(s);
      case Array(items) => ok := PrintArray(items);
      case Object(members) => ok := PrintObject(members);
    }

    /** Prints `v` and moves the offset past it, on the way to `goal`. */
    method PrintCounted(v: Value, ghost rest: bytes, ghost goal: bytes) returns (ok: bool)
      requires Valid() && Written() + (Text.Print(v, format, depth) + rest) == goal
      modifies this, buffer
      ensures Kept()
      ensures ok ==> depth == old(depth) && Written() + rest == goal
      ensures !ok ==> |goal| + 2 > Limit()
      decreases v, 1
    {
      ghost var was, text := Written(), Text.Print(v, format, depth);
      assert was + text + rest == was + (text + rest);
      ok := PrintValue(v);
      if ok {
        UpdateOffset(was + text);
      }
    }

    /** Reserves room for `t` and `spare` more bytes, then appends `t`, on the way to `goal`. */
    method Put(t: cstring, spare: nat, ghost rest: bytes, ghost goal: bytes) returns (ok: bool)
      requires Valid() && Written() + (t + rest) == goal && spare <= |rest| + 1
      modifies this`buffer, this`offset, buffer
      ensures Kept()
      ensures ok ==> Written() + rest == goal
      ensures !ok ==> |goal| + 2 > Limit()
    {
      ghost var was := Written();
      assert was + t + rest == was + (t + rest);
      ok := Ensure(|t| + spare);
      if ok {
        Append(t);
      }
    }

    method PrintArray(items: seq<Value>) returns (ok: bool)
      requires Valid()
      modifies this, buffer
      ensures Kept()
      ensures ok <==> old(offset) + |Text.Print(Array(items), format, old(depth))| + 2 <= Limit()
      ensures ok ==> depth == old(depth) && Terminated(old(Written()) + Text.Print(Array(items), format, depth))
      decreases items, 1
    {
      hide Text.Print, ArrayRest;
      ghost var goal := Written() + Text.Print(Array(items), format, depth);
      ArrayEnds(items, format, depth);
      ok := Put([OPEN_BRACKET], 0, ArrayRest(items, 0, format, depth + 1), goal);
      if ok {
        depth := depth + 1;
        ok := PrintElements(items, goal);
        if ok {
          ok := PrintWord([CLOSE_BRACKET]);
          depth := depth - 1;
        }
      }
    }

    /** The loop over the elements. */
    method PrintElements(items: seq<Value>, ghost goal: bytes) returns (ok: bool)
      requires Valid() && Written() + ArrayRest(items, 0, format, depth) == goal
      modifies this, buffer
      ensures Kept()
      ensures ok ==> depth == old(depth) && Written() + [CLOSE_BRACKET] == goal
      ensures !ok ==> |goal| + 2 > Limit()
      decreases items, 0
    {
      ok := true;
      var i := 0;
      ghost var level := depth;
      while ok && i < |items|
        invariant i <= |items| && Kept()
        invariant ok ==> depth == level && Written() + ArrayRest(items, i, format, level) == goal
        invariant !ok ==> |goal| + 2 > Limit()
        decreases ok, |items| - i
      {
        ArrayStep(items, i, format, level);
        ok := PrintCounted(items[i], ArrayAfter(items, i, format, level), goal);
        if ok {
          if i + 1 < |items| {
            ok := Put(Text.ItemSeparator(format), 1, ArrayRest(items, i + 1, format, level), goal);
          }
          i := i + 1;
        }
      }
      ArrayRestEnd(items, format, level);
    }

    method PrintObject(members: seq<Member>) returns (ok: bool)
      requires Valid()
      modifies this, buffer
      ensures Kept()
      ensures ok <==> old(offset) + |Text.Print(Object(members), format, old(depth))| + 2 <= Limit()
      ensures ok ==> depth == old(depth) && Terminated(old(Written()) + Text.Print(Object(members), format, depth))
      decreases members, 1
    {
      hide Text.Print, ObjectRest, Text.ObjectOpen, Text.ObjectClose;
      ghost var goal := Written() + Text.Print(Object(members), format, depth);
      ObjectEnds(members, format, depth);
      ok := Put(Text.ObjectOpen(format), 1, ObjectRest(members, 0, format, depth + 1), goal);
      if ok {
        depth := depth + 1;
        ok := PrintMembers(members, goal);
        if ok {
          ok := PrintWord(Text.ObjectClose(format, depth - 1));
          depth := depth - 1;
        }
      }
    }

    /** The loop over the members. */
    method PrintMembers(members: seq<Member>, ghost goal: bytes) returns (ok: bool)
      requires Valid() && depth > 0 && Written() + ObjectRest(members, 0, format, depth) == goal
      modifies this, buffer
      ensures Kept()
      ensures ok ==> depth == old(depth) && Written() + Text.ObjectClose(format, depth - 1) == goal
      ensures !ok ==> |goal| + 2 > Limit()
      decreases members, 0
    {
      ok := true;
      var i := 0;
      ghost var level := depth;
      while ok && i < |members|
        invariant i <= |members| && Kept()
        invariant ok ==> depth == level && Written() + ObjectRest(members, i, format, level) == goal
        invariant !ok ==> |goal| + 2 > Limit()
        decreases ok, |members| - i
      {
        ObjectStep(members, i, format, level);
        ok := PrintMember(members[i], i + 1 == |members|, ObjectRest(members, i + 1, format, level), goal);
        i := i + 1;
      }
      ObjectRestEnd(members, format, level);
    }

    method PrintMember(m: Member, last: bool, ghost rest: bytes, ghost goal: bytes) returns (ok: bool)
      requires Valid() && Written() + MemberText(m, last, rest, format, depth) == goal
      modifies this, buffer
      ensures Kept()
      ensures ok ==> depth == old(depth) && Written() + rest == goal
      ensures !ok ==> |goal| + 2 > Limit()
      decreases m, 0
    {
      ok := PrintKey(m, AfterKey(m, last, rest, format, depth), goal);
      if ok {
        ok := PrintCounted(m.value, Text.MemberEnd(format, last) + rest, goal);
      }
      if ok {
        ok := Put(Text.MemberEnd(format, last), 1, rest, goal);
      }
    }

    /** The indentation, the key and the colon of a member. */
    method PrintKey(m: Member, ghost rest: bytes, ghost goal: bytes) returns (ok: bool)
      requires Valid()
      requires Written() + (Text.Indent(format, depth) + (Text.Quoted(m.key) + (Text.KeySeparator(format) + rest)))
        == goal
      modifies this, buffer
      ensures Kept() && depth == old(depth)
      ensures ok ==> Written() + rest == goal
      ensures !ok ==> |goal| + 2 > Limit()
    {
      ok := true;
      ghost var key: bytes := Text.Quoted(m.key);
      ghost var afterIndent: bytes := key + (Text.KeySeparator(format) + rest);
      if format {
        ok := Put(Text.Tabs(depth), 0, afterIndent, goal);
      } else {
        assert [] + afterIndent == afterIndent;
      }
      if ok {
        ghost var was := Written();
        assert was + key + (Text.KeySeparator(format) + rest) == was + afterIndent;
        ok := PrintString(m.key);
        if ok {
          UpdateOffset(was + key);
          ok := Put(Text.KeySeparator(format), 0, rest, goal);
        }
      }
    }
  }

  /** cJSON_PrintPreallocated: `buffer` is the region of `length` bytes the caller lends.
      It succeeds exactly when the text, its NUL and one spare byte fit. */
  method PrintPreallocated(item: Value, buffer: array?<byte>, length: int32, format: bool) returns (ok: bool)
    requires buffer != null && length >= 0 ==> buffer.Length == length
    modifies buffer
    ensures ok <==> buffer != null && length >= |Text.Print(item, format, 0)| + 2
    ensures ok ==> buffer[..|Text.Print(item, format, 0)|] == Text.Print(item, format, 0)
    ensures ok ==> buffer[|Text.Print(item, format, 0)|] == NUL
  {
    if length < 0 || buffer == null {
      return false;
    }
    var p := new PrintBuffer(buffer, true, format);
    ok := p.PrintValue(item);
    assert [] + Text.Print(item, format, 0) == Text.Print(item, format, 0);
  }

  /** cJSON_Print and cJSON_PrintUnformatted: the growing buffer starts at 256 bytes, and the
      result is cut to the text and its NUL. Only the size cap can make it fail. */
  method Print(item: Value, format: bool) returns (printed: Option<array<byte>>)
    ensures printed.Some? <==> |Text.Print(item, format, 0)| + 2 <= INT_MAX
    ensures printed.Some? ==> printed.value[..] == Text.Print(item, format, 0) + [NUL]
  {
    hide Text.Print;
    var initial := new byte[256];
    var p := new PrintBuffer(initial, false, format);
    var ok := p.PrintValue(item);
    if !ok {
      return None;
    }
    ghost var text := Text.Print(item, format, 0);
    assert [] + text == text;
    p.UpdateOffset(text);
    var result := new byte[p.offset + 1];
    forall i | 0 <= i < p.offset {
      result[i] := p.buffer[i];
    }
    result[p.offset] := NUL;
    assert result[..] == p.Written() + [NUL];
    return Some(result);
  }
}
