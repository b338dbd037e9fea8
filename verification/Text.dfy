/** The text that printing a value produces, formatted or not
    (print_value, print_array, print_object, print_string_ptr). */
module Text {
  import opened Bytes
  import opened Decimal
  import opened Json

  const NULL_TEXT: cstring := [110, 117, 108, 108]
  const TRUE_TEXT: cstring := [116, 114, 117, 101]
  const FALSE_TEXT: cstring := [102, 97, 108, 115, 101]

  function HexDigit(n: int): byte
    requires 0 <= n < 16
  {
    if n < 10 then 48 + n as byte else 87 + n as byte
  }

  /** One byte of a string as it appears between the quotes. */
  function Escape(b: byte): (r: bytes)
    ensures 0 !in r && |r| > 0
  {
    if b == QUOTE || b == BACKSLASH then [BACKSLASH, b]
    else if b == 8 then [BACKSLASH, 98]
    else if b == 12 then [BACKSLASH, 102]
    else if b == 10 then [BACKSLASH, 110]
    else if b == 13 then [BACKSLASH, 114]
    else if b == 9 then [BACKSLASH, 116]
    else if b < 32 then [BACKSLASH, 117, 48, 48, HexDigit(b as int / 16), HexDigit(b as int % 16)]
    else [b]
  }

  /** The escaped form of `s[i..]`. */
  function EscapeFrom(s: bytes, i: nat): (r: cstring)
    requires i <= |s|
    decreases |s| - i
  {
    if i == |s| then [] else Escape(s[i]) + EscapeFrom(s, i + 1)
  }

  function Quoted(s: bytes): cstring {
    [QUOTE] + (EscapeFrom(s, 0) + [QUOTE])
  }

  function Tabs(n: nat): (r: cstring)
    ensures |r| == n && forall i :: 0 <= i < n ==> r[i] == TAB
  {
    seq(n, _ => TAB)
  }

  function ItemSeparator(format: bool): cstring {
    if format then [COMMA, SPACE] else [COMMA]
  }

  function ObjectOpen(format: bool): cstring {
    if format then [OPEN_BRACE, NEWLINE] else [OPEN_BRACE]
  }

  function ObjectClose(format: bool, depth: nat): cstring {
    if format then Tabs(depth) + [CLOSE_BRACE] else [CLOSE_BRACE]
  }

  function Indent(format: bool, depth: nat): cstring {
    if format then Tabs(depth) else []
  }

  function KeySeparator(format: bool): cstring {
    if format then [COLON, TAB] else [COLON]
  }

  function MemberEnd(format: bool, last: bool): cstring {
    (if last then [] else [COMMA]) + (if format then [NEWLINE] else [])
  }

  /** The text of `v` printed at nesting depth `depth`. */
  function Print(v: Value, format: bool, depth: nat): (r: cstring)
    ensures |r| > 0
    decreases v
  {
    match v
    case Null => NULL_TEXT
    case Bool(b) => if b then TRUE_TEXT else FALSE_TEXT
    case Number(n) => Dec(n)
    case String(s) => Quoted(s)
    case Array(items) =>
      [OPEN_BRACKET] + (PrintItems(items, 0, format, depth + 1) + [CLOSE_BRACKET])
    case Object(members) =>
      ObjectOpen(format) + (PrintMembers(members, 0, format, depth + 1) + ObjectClose(format, depth))
  }

  /** The elements from index `i` on, with the separators between them. */
  function PrintItems(items: seq<Value>, i: nat, format: bool, depth: nat): cstring
    requires i <= |items|
    decreases items, |items| - i
  {
    if i == |items| then []
    else if i + 1 == |items| then Print(items[i], format, depth)
    else Print(items[i], format, depth) + (ItemSeparator(format) + PrintItems(items, i + 1, format, depth))
  }

  /** The members from index `i` on. */
  function PrintMembers(members: seq<Member>, i: nat, format: bool, depth: nat): cstring
    requires i <= |members|
    decreases members, |members| - i
  {
    if i == |members| then []
    else
      Indent(format, depth) + (Quoted(members[i].key) + (KeySeparator(format)
      + (Print(members[i].value, format, depth) + (MemberEnd(format, i + 1 == |members|)
      + PrintMembers(members, i + 1, format, depth)))))
  }
}
