/** JSON Pointers (RFC 6901): encoding keys, matching path tokens, finding the item a
    pointer names and building the pointer that names an item. */
module Pointer {
  import opened Bytes
  import opened Decimal
  import opened Json

  /** `size_t` on the target is 32 bits wide. */
  const SIZE_MOD: nat := 0x1_0000_0000

  const ZERO: byte := 48
  const ONE: byte := 49
  const NINE: byte := 57

  function EncodeByte(b: byte): bytes {
    if b == SLASH then [TILDE, ONE] else if b == TILDE then [TILDE, ZERO] else [b]
  }

  /** The pointer form of `key[i..]`. */
  function EncodeFrom(key: cstring, i: nat): (r: cstring)
    requires i <= |key|
    ensures SLASH !in r
    decreases |key| - i
  {
    if i == |key| then [] else EncodeByte(key[i]) + EncodeFrom(key, i + 1)
  }

  function Encode(key: cstring): cstring { EncodeFrom(key, 0) }

  /** A path token stops at the end of the pointer or at the next slash. */
  predicate TokenEnds(ptr: bytes, p: nat) { p >= |ptr| || ptr[p] == SLASH }

  function AfterToken(ptr: bytes, p: nat): (r: nat)
    requires p <= |ptr|
    ensures p <= r <= |ptr| && TokenEnds(ptr, r)
    ensures forall k :: p <= k < r ==> ptr[k] != SLASH
    decreases |ptr| - p
  {
    if TokenEnds(ptr, p) then p else AfterToken(ptr, p + 1)
  }

  predicate SameByte(a: byte, b: byte, caseSensitive: bool) {
    if caseSensitive then a == b else ToLower(a) == ToLower(b)
  }

  /** compare_pointers: does the token at `p` name the key `name[i..]`? */
  predicate Matches(name: cstring, i: nat, ptr: cstring, p: nat, caseSensitive: bool)
    requires i <= |name| && p <= |ptr|
    decreases |name| - i
  {
    if i == |name| || TokenEnds(ptr, p) then (i == |name|) == TokenEnds(ptr, p)
    else if ptr[p] == TILDE then
      p + 1 < |ptr|
      && ((ptr[p + 1] == ZERO && name[i] == TILDE) || (ptr[p + 1] == ONE && name[i] == SLASH))
      && Matches(name, i + 1, ptr, p + 2, caseSensitive)
    else SameByte(name[i], ptr[p], caseSensitive) && Matches(name, i + 1, ptr, p + 1, caseSensitive)
  }

  /** The loop of decode_array_index_from_pointer from `p` on, whose bound test looks at the first
      byte of the token instead of the current one. */
  function IndexFrom(ptr: bytes, start: nat, p: nat, index: nat): Option<nat>
    requires start <= p <= |ptr|
    decreases |ptr| - p
  {
    if p < |ptr| && ptr[p] >= ZERO && ptr[start] <= NINE then
      IndexFrom(ptr, start, p + 1, (10 * index + (ptr[p] - ZERO) as nat) % SIZE_MOD)
    else if TokenEnds(ptr, p) then Some(index)
    else None
  }

  function DecodeIndex(ptr: bytes, p: nat): Option<nat>
    requires p <= |ptr|
  {
    if p < |ptr| && ptr[p] == ZERO && !TokenEnds(ptr, p + 1) then None
    else IndexFrom(ptr, p, p, 0)
  }

  /** The first member from `j` on that the token at `p` names. */
  function FindMember(members: seq<Member>, j: nat, ptr: cstring, p: nat, caseSensitive: bool): (r: Option<nat>)
    requires j <= |members| && p <= |ptr|
    ensures r.Some? ==> j <= r.value < |members|
    decreases |members| - j
  {
    if j == |members| then None
    else if Matches(members[j].key, 0, ptr, p, caseSensitive) then Some(j)
    else FindMember(members, j + 1, ptr, p, caseSensitive)
  }

  /** An item of a tree, as the child indices that lead to it. */
  type Position = seq<nat>

  predicate Valid(v: Value, pos: Position)
    decreases |pos|
  {
    pos == [] ||
    match v
    case Array(items) => pos[0] < |items| && Valid(items[pos[0]], pos[1..])
    case Object(members) => pos[0] < |members| && Valid(members[pos[0]].value, pos[1..])
    case _ => false
  }

  function ItemAt(v: Value, pos: Position): Value
    requires Valid(v, pos)
    decreases |pos|
  {
    if pos == [] then v
    else if v.Array? then ItemAt(v.items[pos[0]], pos[1..])
    else ItemAt(v.members[pos[0]].value, pos[1..])
  }

  function Below(i: nat, r: Option<Position>): Option<Position> {
    match r
    case None => None
    case Some(pos) => Some([i] + pos)
  }

  /** get_item_from_pointer: the item the pointer from `p` on names, or nothing. */
  function Locate(v: Value, ptr: cstring, p: nat, caseSensitive: bool): (r: Option<Position>)
    requires p <= |ptr|
    ensures r.Some? ==> Valid(v, r.value)
    decreases v
  {
    if p == |ptr| || ptr[p] != SLASH then Some([])
    else
      match v
      case Array(items) =>
        (match DecodeIndex(ptr, p + 1)
         case None => None
         case Some(i) =>
           if i < |items| then Below(i, Locate(items[i], ptr, AfterToken(ptr, p + 1), caseSensitive)) else None)
      case Object(members) =>
        (match FindMember(members, 0, ptr, p + 1, caseSensitive)
         case None => None
         case Some(j) => Below(j, Locate(members[j].value, ptr, AfterToken(ptr, p + 1), caseSensitive)))
      case _ => None
  }

  /** cJSONUtils_FindPointerFromObjectTo for the item at `pos`. */
  function PointerTo(v: Value, pos: Position): cstring
    requires Valid(v, pos)
    decreases |pos|
  {
    if pos == [] then []
    else if v.Array? then [SLASH] + (Digits(pos[0]) + PointerTo(v.items[pos[0]], pos[1..]))
    else [SLASH] + (Encode(v.members[pos[0]].key) + PointerTo(v.members[pos[0]].value, pos[1..]))
  }

  // ----- Tokens -----

  lemma {:induction false} AfterTokenBack(ptr: bytes, p: nat, q: nat)
    requires p <= q <= |ptr| && TokenEnds(ptr, q) && forall k :: p <= k < q ==> ptr[k] != SLASH
    ensures AfterToken(ptr, p) == q
    decreases q - p
  {
    if p < q { AfterTokenBack(ptr, p + 1, q); }
  }

  /** Skipping the token of an encoded key lands right behind it. */
  lemma TokenBack(ptr: bytes, p: nat, q: nat, token: bytes)
    requires At(ptr, p, token) && SLASH !in token && q == p + |token| && TokenEnds(ptr, q)
    ensures AfterToken(ptr, p) == q
  {
    forall k | p <= k < q ensures ptr[k] != SLASH {
      AtIndex(ptr, p, token, k - p);
    }
    AfterTokenBack(ptr, p, q);
  }

  lemma EncodedByteAt(ptr: bytes, p: nat, key: cstring, j: nat)
    requires j < |key| && At(ptr, p, EncodeFrom(key, j))
    ensures At(ptr, p, EncodeByte(key[j])) && At(ptr, p + |EncodeByte(key[j])|, EncodeFrom(key, j + 1))
    ensures !TokenEnds(ptr, p)
    ensures ptr[p] == TILDE <==> key[j] == SLASH || key[j] == TILDE
    ensures ptr[p] == TILDE ==> p + 1 < |ptr| && ptr[p + 1] == if key[j] == SLASH then ONE else ZERO
    ensures ptr[p] != TILDE ==> ptr[p] == key[j]
  {
    var piece := EncodeByte(key[j]);
    AtConcat(ptr, p, piece, EncodeFrom(key, j + 1));
    AtIndex(ptr, p, piece, 0);
    if |piece| > 1 { AtIndex(ptr, p, piece, 1); }
  }

  /** The text of a token read as section 4 of RFC 6901 has it: `~1` for a slash, `~0` for a tilde. */
  function Unescaped(t: bytes): bytes {
    if t == [] then []
    else if |t| > 1 && t[0] as int == '~' as int && t[1] as int == '1' as int then [SLASH] + Unescaped(t[2..])
    else if |t| > 1 && t[0] as int == '~' as int && t[1] as int == '0' as int then [TILDE] + Unescaped(t[2..])
    else [t[0]] + Unescaped(t[1..])
  }

  lemma ByteReads(b: byte, rest: bytes)
    ensures Unescaped(EncodeByte(b) + rest) == [b] + Unescaped(rest)
  {
    var piece := EncodeByte(b);
    assert (piece + rest)[|piece|..] == rest;
  }

  /** What the encoder writes for a key has no slash and is read back as the key. */
  lemma {:induction false} EncodedReads(key: cstring, i: nat)
    requires i <= |key|
    ensures SLASH !in EncodeFrom(key, i) && Unescaped(EncodeFrom(key, i)) == key[i..]
    decreases |key| - i
  {
    if i < |key| {
      hide Unescaped, EncodeByte;
      EncodedReads(key, i + 1);
      ByteReads(key[i], EncodeFrom(key, i + 1));
      assert key[i..] == [key[i]] + key[i + 1..];
    }
  }

  /** An encoded key followed by the end or a slash matches the names that are the same, up to case if case
      is ignored, and no others. */
  lemma {:induction false} EncodedMatches(name: cstring, i: nat, key: cstring, j: nat, ptr: cstring, p: nat, q: nat,
                                          caseSensitive: bool)
    requires i <= |name| && j <= |key|
    requires At(ptr, p, EncodeFrom(key, j)) && q == p + |EncodeFrom(key, j)| && TokenEnds(ptr, q)
    ensures Matches(name, i, ptr, p, caseSensitive) <==> SameKey(name[i..], key[j..], caseSensitive)
    decreases |key| - j
  {
    hide At, EncodeByte;
    if j < |key| {
      EncodedByteAt(ptr, p, key, j);
      if i < |name| {
        EncodedMatches(name, i + 1, key, j + 1, ptr, p + |EncodeByte(key[j])|, q, caseSensitive);
        MatchStep(name, i, key, j, ptr, p, caseSensitive);
        SameKeyStep(name, i, key, j, caseSensitive);
      } else {
        assert |Lower(name[i..])| != |Lower(key[j..])|;
      }
    } else {
      EncodeEnd(key);
      assert |name[i..]| == 0 <==> i == |name|;
      assert i < |name| ==> |Lower(name[i..])| != |Lower(key[j..])|;
    }
  }

  lemma SameKeyStep(name: bytes, i: nat, key: bytes, j: nat, caseSensitive: bool)
    requires i < |name| && j < |key|
    ensures SameKey(name[i..], key[j..], caseSensitive)
      <==> SameByte(name[i], key[j], caseSensitive) && SameKey(name[i + 1..], key[j + 1..], caseSensitive)
  {
    assert name[i..] == [name[i]] + name[i + 1..] && key[j..] == [key[j]] + key[j + 1..];
    assert Lower(name[i..]) == [ToLower(name[i])] + Lower(name[i + 1..]);
    assert Lower(key[j..]) == [ToLower(key[j])] + Lower(key[j + 1..]);
  }

  lemma MatchStep(name: cstring, i: nat, key: cstring, j: nat, ptr: cstring, p: nat, caseSensitive: bool)
    requires i < |name| && j < |key| && At(ptr, p, EncodeFrom(key, j))
    ensures p + |EncodeByte(key[j])| <= |ptr|
    ensures Matches(name, i, ptr, p, caseSensitive) <==>
      && SameByte(name[i], key[j], caseSensitive)
      && Matches(name, i + 1, ptr, p + |EncodeByte(key[j])|, caseSensitive)
  {
    EncodedByteAt(ptr, p, key, j);
  }

  /** So the member a token names is the one that a lookup of the key finds. */
  lemma {:induction false} FindMemberIsLookup(members: seq<Member>, j: nat, key: cstring, ptr: cstring, p: nat, q: nat,
                                              caseSensitive: bool)
    requires j <= |members| && At(ptr, p, Encode(key)) && q == p + |Encode(key)| && TokenEnds(ptr, q)
    ensures FindMember(members, j, ptr, p, caseSensitive) == FindKey(members, j, key, caseSensitive)
    decreases |members| - j
  {
    if j < |members| {
      EncodedMatches(members[j].key, 0, key, 0, ptr, p, q, caseSensitive);
      assert members[j].key[0..] == members[j].key && key[0..] == key;
      FindMemberIsLookup(members, j + 1, key, ptr, p, q, caseSensitive);
    }
  }

  lemma PrefixValue(token: bytes, k: nat)
    requires k < |token| && forall i :: 0 <= i < |token| ==> IsDigit(token[i])
    ensures ValueOf(token[..k + 1]) == 10 * ValueOf(token[..k]) + (token[k] - ZERO) as nat
  {
    assert token[..k + 1][..k] == token[..k];
  }

  lemma {:induction false} IndexBack(ptr: bytes, start: nat, p: nat, q: nat, token: bytes, k: nat)
    requires forall i :: 0 <= i < |token| ==> IsDigit(token[i])
    requires At(ptr, start, token) && 0 < |token| && p == start + k && k <= |token| && q == start + |token|
    requires TokenEnds(ptr, q) && ValueOf(token) < SIZE_MOD
    ensures ValueOf(token[..k]) < SIZE_MOD
    ensures IndexFrom(ptr, start, p, ValueOf(token[..k])) == Some(ValueOf(token))
    decreases |token| - k
  {
    hide At, ValueOf;
    AtIndex(ptr, start, token, 0);
    if k == |token| {
      assert token[..k] == token;
    } else {
      AtIndex(ptr, start, token, k);
      PrefixValue(token, k);
      IndexBack(ptr, start, p + 1, q, token, k + 1);
    }
  }

  /** A decimal index is read back, as long as it fits `size_t`. */
  lemma DecodeIndexBack(ptr: bytes, p: nat, q: nat, i: nat)
    requires At(ptr, p, Digits(i)) && q == p + |Digits(i)| && TokenEnds(ptr, q) && i < SIZE_MOD
    ensures DecodeIndex(ptr, p) == Some(i)
  {
    DigitsDenote(i);
    DigitsNoLeadingZero(i);
    AtIndex(ptr, p, Digits(i), 0);
    IndexBack(ptr, p, p, q, Digits(i), 0);
    assert Digits(i)[..0] == [];
  }

  // ----- The pointer of an item leads back to it -----

  /** Every array of the tree has fewer elements than `size_t` can count. */
  predicate Addressable(v: Value) {
    match v
    case Array(items) => |items| < SIZE_MOD && forall i :: 0 <= i < |items| ==> Addressable(items[i])
    case Object(members) => forall i :: 0 <= i < |members| ==> Addressable(members[i].value)
    case _ => true
  }

  /** Every member on the way is the first of its object with that name. */
  predicate FirstOnTheWay(v: Value, pos: Position, caseSensitive: bool)
    requires Valid(v, pos)
    decreases |pos|
  {
    pos == []
    || match v
       case Array(items) => FirstOnTheWay(items[pos[0]], pos[1..], caseSensitive)
       case Object(members) =>
         && FindKey(members, 0, members[pos[0]].key, caseSensitive) == Some(pos[0])
         && FirstOnTheWay(members[pos[0]].value, pos[1..], caseSensitive)
  }

  lemma {:induction false} DistinctFirst(v: Value, pos: Position)
    requires Valid(v, pos) && Distinct(v)
    ensures FirstOnTheWay(v, pos, true)
    decreases |pos|
  {
    if pos != [] {
      DistinctFirst(Child(v, pos[0]), pos[1..]);
      if v.Object? { assert UniqueKeys(v.members); }
    }
  }

  lemma PointerStarts(v: Value, pos: Position)
    requires Valid(v, pos)
    ensures PointerTo(v, pos) != [] ==> PointerTo(v, pos)[0] == SLASH
  {
  }

  function Child(v: Value, i: nat): Value
    requires Valid(v, [i])
  {
    if v.Array? then v.items[i] else v.members[i].value
  }

  function Token(v: Value, i: nat): (r: cstring)
    requires Valid(v, [i])
    ensures SLASH !in r
  {
    if v.Array? then Digits(i) else Encode(v.members[i].key)
  }

  lemma PointerUnfold(v: Value, pos: Position)
    requires Valid(v, pos) && pos != []
    ensures Valid(v, [pos[0]]) && Valid(Child(v, pos[0]), pos[1..])
    ensures PointerTo(v, pos) == [SLASH] + (Token(v, pos[0]) + PointerTo(Child(v, pos[0]), pos[1..]))
  {
  }

  /** A slash, a token and the rest of the pointer, taken apart. */
  lemma TokenSplit(ptr: bytes, p: nat, q: nat, token: bytes, rest: bytes)
    requires At(ptr, p, [SLASH] + (token + rest)) && q == p + 1 + |token| && q + |rest| == |ptr|
    requires SLASH !in token && (rest == [] || rest[0] == SLASH)
    ensures p < |ptr| && ptr[p] == SLASH && At(ptr, p + 1, token) && At(ptr, q, rest)
    ensures TokenEnds(ptr, q) && AfterToken(ptr, p + 1) == q
  {
    AtConcat(ptr, p, [SLASH], token + rest);
    AtConcat(ptr, p + 1, token, rest);
    AtIndex(ptr, p, [SLASH], 0);
    if rest != [] { AtIndex(ptr, q, rest, 0); }
    TokenBack(ptr, p + 1, q, token);
  }

  lemma PointerParts(v: Value, pos: Position, ptr: cstring, p: nat, q: nat)
    requires Valid(v, pos) && pos != [] && At(ptr, p, PointerTo(v, pos)) && p + |PointerTo(v, pos)| == |ptr|
    requires Valid(v, [pos[0]]) && q == p + 1 + |Token(v, pos[0])|
    ensures Valid(Child(v, pos[0]), pos[1..]) && q + |PointerTo(Child(v, pos[0]), pos[1..])| == |ptr|
    ensures ptr[p] == SLASH && At(ptr, p + 1, Token(v, pos[0])) && TokenEnds(ptr, q)
    ensures At(ptr, q, PointerTo(Child(v, pos[0]), pos[1..])) && AfterToken(ptr, p + 1) == q
  {
    PointerUnfold(v, pos);
    PointerStarts(Child(v, pos[0]), pos[1..]);
    hide PointerTo, Token, Child, AfterToken, At;
    TokenSplit(ptr, p, q, Token(v, pos[0]), PointerTo(Child(v, pos[0]), pos[1..]));
  }

  /** Resolving the pointer built for an item finds exactly that item, whatever characters the keys on the
      way contain, if and only if each of them is the first of that name. */
  lemma {:induction false} PointerLeadsBack(v: Value, pos: Position, ptr: cstring, p: nat, caseSensitive: bool)
    requires Valid(v, pos) && Addressable(v)
    requires At(ptr, p, PointerTo(v, pos)) && p + |PointerTo(v, pos)| == |ptr|
    ensures Locate(v, ptr, p, caseSensitive) == Some(pos) <==> FirstOnTheWay(v, pos, caseSensitive)
    decreases |pos|
  {
    hide At, Encode, Digits, FindMember, DecodeIndex, AfterToken, TokenEnds, PointerTo, FindKey;
    if pos == [] {
      RootPointer(v);
    } else {
      var i := pos[0];
      assert Valid(v, [i]);
      var q := p + 1 + |Token(v, i)|;
      PointerParts(v, pos, ptr, p, q);
      PointerLeadsBack(Child(v, i), pos[1..], ptr, q, caseSensitive);
      assert [i] + pos[1..] == pos;
      if v.Array? {
        DecodeIndexBack(ptr, p + 1, q, i);
      } else {
        FindMemberIsLookup(v.members, 0, v.members[i].key, ptr, p + 1, q, caseSensitive);
      }
      OneBelow(i, pos);
    }
  }

  lemma OneBelow(i: nat, pos: Position)
    requires pos != [] && pos[0] == i
    ensures forall j: nat, r: Option<Position> :: Below(j, r) == Some(pos) <==> j == i && r == Some(pos[1..])
  {
    forall j: nat, r: Option<Position> | Below(j, r) == Some(pos) ensures j == i && r == Some(pos[1..]) {
      assert ([j] + r.value)[0] == j && ([j] + r.value)[1..] == r.value;
    }
    assert [i] + pos[1..] == pos;
  }

  lemma RootPointer(v: Value)
    ensures PointerTo(v, []) == []
  {
  }

  lemma PointerExact(v: Value, pos: Position, caseSensitive: bool)
    requires Valid(v, pos) && Addressable(v)
    ensures Locate(v, PointerTo(v, pos), 0, caseSensitive) == Some(pos) <==> FirstOnTheWay(v, pos, caseSensitive)
  {
    var ptr := PointerTo(v, pos);
    assert ptr[0..|ptr|] == ptr;
    PointerLeadsBack(v, pos, ptr, 0, caseSensitive);
  }

  lemma PointerRoundTrip(v: Value, pos: Position)
    requires Valid(v, pos) && Distinct(v) && Addressable(v)
    ensures Locate(v, PointerTo(v, pos), 0, true) == Some(pos)
  {
    hide Locate, PointerTo, FirstOnTheWay;
    DistinctFirst(v, pos);
    PointerExact(v, pos, true);
  }

  // ----- The loops -----

  /** pointer_encoded_length. */
  method EncodedLength(key: cstring) returns (length: nat)
    ensures length == |Encode(key)|
  {
    length := 0;
    var i := 0;
    while i < |key|
      invariant i <= |key| && length + |EncodeFrom(key, i)| == |Encode(key)|
    {
      if key[i] == TILDE || key[i] == SLASH {
        length := length + 1;
      }
      i, length := i + 1, length + 1;
    }
  }

  lemma EncodeStep(key: cstring, i: nat)
    requires i < |key|
    ensures EncodeFrom(key, i) == EncodeByte(key[i]) + EncodeFrom(key, i + 1)
  {
  }

  lemma EncodeEnd(key: cstring)
    ensures EncodeFrom(key, |key|) == []
  {
  }

  /** encode_string_as_pointer: writes the encoded key and a NUL from index `at` on. */
  method EncodeInto(destination: array<byte>, at: nat, key: cstring)
    requires at + |Encode(key)| < destination.Length
    modifies destination
    ensures destination[..at + |Encode(key)| + 1] == old(destination[..at]) + Encode(key) + [NUL]
  {
    hide EncodeFrom;
    var w, i := at, 0;
    ghost var goal: bytes := destination[..at] + Encode(key);
    EncodeEnd(key);
    while i < |key|
      invariant i <= |key| && at <= w && w + |EncodeFrom(key, i)| == |goal|
      invariant destination[..w] + EncodeFrom(key, i) == goal
    {
      ghost var was: bytes, rest: bytes, piece := destination[..w], EncodeFrom(key, i + 1), EncodeByte(key[i]);
      EncodeStep(key, i);
      assert was + piece + rest == was + (piece + rest) == goal;
      if key[i] == SLASH {
        destination[w], destination[w + 1] := TILDE, ONE;
        w := w + 1;
      } else if key[i] == TILDE {
        destination[w], destination[w + 1] := TILDE, ZERO;
        w := w + 1;
      } else {
        destination[w] := key[i];
      }
      i, w := i + 1, w + 1;
      assert destination[..w] == was + piece;
    }
    destination[w] := NUL;
    assert destination[..w + 1] == destination[..w] + [NUL];
    assert destination[..w] + [] == goal;
  }

  method ComparePointers(name: cstring, ptr: cstring, start: nat, caseSensitive: bool) returns (r: bool)
    requires start <= |ptr|
    ensures r == Matches(name, 0, ptr, start, caseSensitive)
  {
    var i: nat, p: nat := 0, start;
    while i < |name| && p < |ptr| && ptr[p] != SLASH
      invariant i <= |name| && p <= |ptr|
      invariant Matches(name, i, ptr, p, caseSensitive) == Matches(name, 0, ptr, start, caseSensitive)
    {
      if ptr[p] == TILDE {
        var next := if p + 1 < |ptr| then ptr[p + 1] else NUL;
        if (next != ZERO || name[i] != TILDE) && (next != ONE || name[i] != SLASH) {
          return false;
        }
        p := p + 1;
      } else if (!caseSensitive && ToLower(name[i]) != ToLower(ptr[p])) || (caseSensitive && name[i] != ptr[p]) {
        return false;
      }
      i, p := i + 1, p + 1;
    }
    if (p < |ptr| && ptr[p] != SLASH) != (i < |name|) {
      return false;
    }
    return true;
  }

  method DecodeArrayIndex(ptr: cstring, start: nat) returns (index: Option<nat>)
    requires start <= |ptr|
    ensures index == DecodeIndex(ptr, start)
  {
    if start < |ptr| && ptr[start] == ZERO && start + 1 < |ptr| && ptr[start + 1] != SLASH {
      return None;
    }
    var parsed, p := 0, start;
    while p < |ptr| && ptr[p] >= ZERO && ptr[start] <= NINE
      invariant start <= p <= |ptr| && 0 <= parsed
      invariant IndexFrom(ptr, start, p, parsed) == IndexFrom(ptr, start, start, 0)
    {
      parsed := (10 * parsed + (ptr[p] - ZERO) as nat) % SIZE_MOD;
      p := p + 1;
    }
    if p < |ptr| && ptr[p] != SLASH {
      return None;
    }
    return Some(parsed);
  }

  /** get_item_from_pointer: follows the pointer one token at a time. */
  method GetItem(v: Value, ptr: cstring, caseSensitive: bool) returns (r: Option<Position>)
    ensures r == Locate(v, ptr, 0, caseSensitive)
  {
    var current, pos: Position, p: nat := v, [], 0;
    ghost var goal := Locate(v, ptr, 0, caseSensitive);
    NothingAbove(goal);
    while p < |ptr| && ptr[p] == SLASH
      invariant p <= |ptr| && goal == Under(pos, Locate(current, ptr, p, caseSensitive))
      decreases current
    {
      ghost var here := current;
      var q := p + 1;
      if current.Array? {
        var index := DecodeArrayIndex(ptr, q);
        if index.None? || index.value >= |current.items| {
          return None;
        }
        OneAbove(pos, index.value, Locate(current.items[index.value], ptr, AfterToken(ptr, q), caseSensitive));
        pos, current := pos + [index.value], current.items[index.value];
      } else if current.Object? {
        var j := SearchMember(current.members, ptr, q, caseSensitive);
        if j.None? {
          return None;
        }
        OneAbove(pos, j.value, Locate(current.members[j.value].value, ptr, AfterToken(ptr, q), caseSensitive));
        pos, current := pos + [j.value], current.members[j.value].value;
      } else {
        return None;
      }
      p := SkipToken(ptr, q);
    }
    assert Locate(current, ptr, p, caseSensitive) == Some([]) && pos + [] == pos;
    return Some(pos);
  }

  ghost function Under(pos: Position, r: Option<Position>): Option<Position> {
    match r
    case None => None
    case Some(rest) => Some(pos + rest)
  }

  lemma NothingAbove(r: Option<Position>)
    ensures Under([], r) == r
  {
    if r.Some? { assert [] + r.value == r.value; }
  }

  lemma OneAbove(pos: Position, i: nat, r: Option<Position>)
    ensures Under(pos, Below(i, r)) == Under(pos + [i], r)
  {
    if r.Some? { assert pos + ([i] + r.value) == pos + [i] + r.value; }
  }

  method SearchMember(members: seq<Member>, ptr: cstring, p: nat, caseSensitive: bool) returns (r: Option<nat>)
    requires p <= |ptr|
    ensures r == FindMember(members, 0, ptr, p, caseSensitive)
  {
    var j := 0;
    while j < |members|
      invariant j <= |members|
      invariant FindMember(members, j, ptr, p, caseSensitive) == FindMember(members, 0, ptr, p, caseSensitive)
    {
      var found := ComparePointers(members[j].key, ptr, p, caseSensitive);
      if found {
        return Some(j);
      }
      j := j + 1;
    }
    return None;
  }

  method SkipToken(ptr: cstring, start: nat) returns (p: nat)
    requires start <= |ptr|
    ensures p == AfterToken(ptr, start)
  {
    p := start;
    while p < |ptr| && ptr[p] != SLASH
      invariant start <= p <= |ptr| && AfterToken(ptr, p) == AfterToken(ptr, start)
    {
      p := p + 1;
    }
  }
}
