/** apply_patch held against RFC 6902: what each operation makes of the data a document denotes. */
module PatchRfc {
  import opened Bytes
  import opened Json
  import opened Unordered
  import opened Pointer
  import opened Patch
  import opened PatchSteps
  import opened Diff
  import Compare
  import Decimal
  import DiffLimits
  import R = Rfc6902

  // ----- Pointers as tokens -----

  /** The pointer whose reference tokens are `tokens`. */
  function Rendered(tokens: R.Tokens): cstring {
    if tokens == [] then [] else [SLASH] + (Encode(tokens[0]) + Rendered(tokens[1..]))
  }

  /** A token the index decoder reads as RFC 6901 does. Two families are not: the empty token, which
      it reads as 0, and a token that starts with a digit from 1 to 9, has no byte below the slash and
      is not a number below 2^32: its bytes are all taken for digits and the sum wraps around. */
  predicate Orderly(token: bytes) {
    token != []
    && (ONE <= token[0] <= NINE && NoneBelow(token, SLASH) ==>
          Decimal.AllDigits(token) && Decimal.ValueOf(token) < SIZE_MOD)
  }

  predicate NoneBelow(s: bytes, b: byte) { forall k :: 0 <= k < |s| ==> s[k] >= b }

  /** Every token that meets an array on its way is orderly. */
  predicate OrderlyAlong(d: Data, tokens: R.Tokens)
    decreases |tokens|
  {
    tokens == []
    || ((d.DArray? ==> Orderly(tokens[0]))
        && (R.Child(d, tokens[0]).Some? ==> OrderlyAlong(R.Child(d, tokens[0]).value, tokens[1..])))
  }

  lemma RenderedStarts(tokens: R.Tokens)
    ensures Rendered(tokens) != [] ==> Rendered(tokens)[0] == SLASH
  {
  }

  lemma {:induction false} EncodeDigits(token: cstring)
    requires Decimal.AllDigits(token)
    ensures Encode(token) == token
  {
    assert SLASH !in token && TILDE !in token;
    EncodePlain(token, 0);
    assert token[0..] == token;
  }

  lemma EncodeHead(token: cstring)
    requires token != []
    ensures Encode(token) != [] && Encode(token)[0] == if token[0] == SLASH then TILDE else token[0]
  {
  }

  /** The index decoder agrees with RFC 6901 on a token exactly when the token is orderly. */
  lemma TokenIndex(ptr: cstring, p: nat, q: nat, token: cstring)
    requires At(ptr, p, Encode(token)) && q == p + |Encode(token)| && TokenEnds(ptr, q)
    ensures DecodeIndex(ptr, p) == R.IndexOf(token) <==> Orderly(token)
  {
    if token != [] {
      EncodeHead(token);
      AtIndex(ptr, p, Encode(token), 0);
      if Decimal.AllDigits(token) {
        EncodeDigits(token);
        DigitsIndex(ptr, p, q, token);
      } else if ONE <= token[0] <= NINE {
        EncodedBytes(token, 0);
        AllOrSome(ptr, p, q, Encode(token));
      } else {
        FirstByteRefused(ptr, p, q, token);
      }
    }
  }

  lemma FirstByteRefused(ptr: cstring, p: nat, q: nat, token: cstring)
    requires token != [] && !Decimal.AllDigits(token) && !(ONE <= token[0] <= NINE)
    requires At(ptr, p, Encode(token)) && q == p + |Encode(token)| && TokenEnds(ptr, q)
    ensures DecodeIndex(ptr, p) == None
  {
    EncodeHead(token);
    NoSlash(token);
    AtIndex(ptr, p, Encode(token), 0);
    if token[0] == ZERO {
      assert |token| > 1;
      DiffLimits.EncodedLonger(token, 0);
      AtIndex(ptr, p, Encode(token), 1);
    }
  }

  lemma NothingBelow(b: byte)
    ensures NoneBelow([], b)
  {
  }

  lemma NoneBelowConcat(s: bytes, t: bytes, b: byte)
    ensures NoneBelow(s + t, b) <==> NoneBelow(s, b) && NoneBelow(t, b)
  {
    var all := s + t;
    if NoneBelow(all, b) {
      forall k | 0 <= k < |s| ensures s[k] >= b { assert all[k] == s[k]; }
      forall k | 0 <= k < |t| ensures t[k] >= b { assert all[|s| + k] == t[k]; }
    }
  }

  lemma EncodedByteBelow(b: byte)
    ensures NoneBelow(EncodeByte(b), ZERO) <==> b >= SLASH
  {
    assert EncodeByte(b)[0] >= ZERO <==> b >= SLASH;
  }

  lemma {:induction false} EncodedBytes(token: cstring, i: nat)
    requires i <= |token|
    ensures NoneBelow(EncodeFrom(token, i), ZERO) <==> forall k :: i <= k < |token| ==> token[k] >= SLASH
    decreases |token| - i
  {
    NothingBelow(ZERO);
    hide EncodeByte, NoneBelow;
    if i < |token| {
      EncodedBytes(token, i + 1);
      EncodedByteBelow(token[i]);
      NoneBelowConcat(EncodeByte(token[i]), EncodeFrom(token, i + 1), ZERO);
    }
  }

  /** From a first byte that is a digit, the decoder goes through the token exactly when no byte is below "0". */
  lemma AllOrSome(ptr: cstring, p: nat, q: nat, text: bytes)
    requires text != [] && SLASH !in text && At(ptr, p, text) && q == p + |text| && TokenEnds(ptr, q)
    requires ONE <= text[0] <= NINE
    ensures DecodeIndex(ptr, p).Some? <==> forall k :: 0 <= k < |text| ==> text[k] >= ZERO
  {
    forall k | p <= k < q ensures ptr[k] == text[k - p] { AtIndex(ptr, p, text, k - p); }
    RunThrough(ptr, p, p, q, 0);
    if k :| 0 <= k < |text| && text[k] < ZERO { assert ptr[p + k] < ZERO; }
  }

  lemma {:induction false} RunThrough(ptr: bytes, start: nat, p: nat, q: nat, index: nat)
    requires start < q && start <= p <= q <= |ptr| && TokenEnds(ptr, q) && ONE <= ptr[start] <= NINE
    requires forall k :: start <= k < q ==> ptr[k] != SLASH
    ensures IndexFrom(ptr, start, p, index).Some? <==> forall k :: p <= k < q ==> ptr[k] >= ZERO
    decreases q - p
  {
    if p < q && ptr[p] >= ZERO {
      RunThrough(ptr, start, p + 1, q, (10 * index + (ptr[p] - ZERO) as nat) % SIZE_MOD);
    }
  }

  lemma {:induction false} IndexBounded(ptr: bytes, start: nat, p: nat, index: nat)
    requires start <= p <= |ptr| && index < SIZE_MOD
    ensures IndexFrom(ptr, start, p, index).Some? ==> IndexFrom(ptr, start, p, index).value < SIZE_MOD
    decreases |ptr| - p
  {
    if p < |ptr| && ptr[p] >= ZERO && ptr[start] <= NINE {
      IndexBounded(ptr, start, p + 1, (10 * index + (ptr[p] - ZERO) as nat) % SIZE_MOD);
    }
  }

  lemma DigitsIndex(ptr: cstring, p: nat, q: nat, token: cstring)
    requires token != [] && Decimal.AllDigits(token)
    requires At(ptr, p, token) && q == p + |token| && TokenEnds(ptr, q)
    ensures DecodeIndex(ptr, p) == R.IndexOf(token) <==> Orderly(token)
  {
    AtIndex(ptr, p, token, 0);
    if |token| > 1 { AtIndex(ptr, p, token, 1); }
    hide At;
    if token[0] == ZERO && |token| == 1 {
      assert Decimal.ValueOf(token) == 0 by { assert token[..0] == []; }
    }
    if token[0] != ZERO || |token| == 1 {
      if Decimal.ValueOf(token) < SIZE_MOD {
        IndexBack(ptr, p, p, q, token, 0);
        assert token[..0] == [];
      } else {
        IndexBounded(ptr, p, p, 0);
      }
    }
  }

  // ----- Resolving -----

  /** One token: the code and RFC 6901 take the same step. */
  lemma Step(v: Value, token: cstring, ptr: cstring, p: nat, q: nat)
    requires Distinct(v) && (v.Array? ==> Orderly(token))
    requires At(ptr, p, Encode(token)) && q == p + |Encode(token)| && TokenEnds(ptr, q)
    ensures v.Array? ==> DecodeIndex(ptr, p) == R.IndexOf(token)
    ensures v.Object? ==> FindMember(v.members, 0, ptr, p, true) == FindKey(v.members, 0, token, true)
    ensures v.Object? ==> (token in DenoteMembers(v.members) <==> FindKey(v.members, 0, token, true).Some?)
    ensures v.Object? && token in DenoteMembers(v.members) ==>
      DenoteMembers(v.members)[token] == Denote(v.members[FindKey(v.members, 0, token, true).value].value)
  {
    if v.Array? {
      TokenIndex(ptr, p, q, token);
    } else if v.Object? {
      FindMemberIsLookup(v.members, 0, token, ptr, p, q, true);
      DenoteLookup(v.members, 0, token);
    }
  }

  /** The child index that a token leads to. */
  function Down(v: Value, token: cstring): (r: Option<nat>)
    ensures r.Some? ==> Valid(v, [r.value])
  {
    match v
    case Array(items) =>
      (match R.IndexOf(token) case None => None case Some(i) => if i < |items| then Some(i) else None)
    case Object(members) => FindKey(members, 0, token, true)
    case _ => None
  }

  lemma DownDenotes(v: Value, token: cstring)
    requires Distinct(v)
    ensures R.Child(Denote(v), token) ==
      match Down(v, token) case None => None case Some(i) => Some(Denote(Child(v, i)))
  {
    if v.Object? { DenoteLookup(v.members, 0, token); }
  }

  lemma LocateStep(v: Value, token: cstring, rest: R.Tokens, ptr: cstring, p: nat, q: nat)
    requires Distinct(v) && (v.Array? ==> Orderly(token))
    requires At(ptr, p, [SLASH] + (Encode(token) + Rendered(rest))) && q == p + 1 + |Encode(token)|
    requires q + |Rendered(rest)| == |ptr|
    ensures At(ptr, q, Rendered(rest)) && q <= |ptr| && p < |ptr|
    ensures Locate(v, ptr, p, true) ==
      match Down(v, token) case None => None case Some(i) => Below(i, Locate(Child(v, i), ptr, q, true))
  {
    hide At, Encode, FindMember, DecodeIndex, AfterToken, TokenEnds, FindKey, R.IndexOf;
    RenderedStarts(rest);
    NoSlash(token);
    TokenSplit(ptr, p, q, Encode(token), Rendered(rest));
    Step(v, token, ptr, p + 1, q);
  }

  lemma DistinctChild(v: Value, i: nat)
    requires Distinct(v) && Valid(v, [i])
    ensures Distinct(Child(v, i))
  {
  }

  /** The pointer leads somewhere exactly when the RFC says so, and then to what the RFC says. */
  lemma {:induction false} LocateGets(v: Value, tokens: R.Tokens, ptr: cstring, p: nat)
    requires Distinct(v) && OrderlyAlong(Denote(v), tokens)
    requires At(ptr, p, Rendered(tokens)) && p + |Rendered(tokens)| == |ptr|
    ensures match Locate(v, ptr, p, true)
      case None => R.Get(Denote(v), tokens) == None
      case Some(pos) => R.Get(Denote(v), tokens) == Some(Denote(ItemAt(v, pos))) && Distinct(ItemAt(v, pos))
    decreases |tokens|
  {
    hide At, Encode, Denote, Distinct;
    if tokens != [] {
      var token, rest := tokens[0], tokens[1..];
      var q := p + 1 + |Encode(token)|;
      ArrayOrNot(v);
      LocateStep(v, token, rest, ptr, p, q);
      DownDenotes(v, token);
      if Down(v, token).Some? {
        var i := Down(v, token).value;
        DistinctChild(v, i);
        LocateGets(Child(v, i), rest, ptr, q);
        ItemBelow(v, i, Locate(Child(v, i), ptr, q, true));
      }
    }
  }

  lemma ArrayOrNot(v: Value)
    ensures Denote(v).DArray? <==> v.Array?
    ensures Denote(v).DObject? <==> v.Object?
  {
  }

  lemma ItemBelow(v: Value, i: nat, r: Option<Position>)
    requires Valid(v, [i]) && (r.Some? ==> Valid(Child(v, i), r.value))
    ensures r.Some? ==> Valid(v, [i] + r.value) && ItemAt(v, [i] + r.value) == ItemAt(Child(v, i), r.value)
  {
    if r.Some? { assert ([i] + r.value)[1..] == r.value; }
  }

  lemma PutBelow(v: Value, i: nat, pos: Position, x: Value)
    requires Distinct(v) && Valid(v, [i]) && Valid(Child(v, i), pos)
    requires Distinct(PutAt(Child(v, i), pos, x))
    ensures Valid(v, [i] + pos) && Distinct(PutAt(v, [i] + pos, x))
    ensures var d := Denote(PutAt(Child(v, i), pos, x));
      Denote(PutAt(v, [i] + pos, x)) == if v.Array? then DArray(DenoteItems(v.items)[i := d])
        else DObject(DenoteMembers(v.members)[v.members[i].key := d])
  {
    assert ([i] + pos)[1..] == pos;
    if v.Object? { DenoteUpdate(v.members, i, PutAt(Child(v, i), pos, x)); }
  }

  /** Putting something at the place found is putting what it denotes at the place named. */
  lemma {:induction false} LocatePuts(v: Value, tokens: R.Tokens, ptr: cstring, p: nat, x: Value)
    requires Distinct(v) && Distinct(x) && OrderlyAlong(Denote(v), tokens)
    requires At(ptr, p, Rendered(tokens)) && p + |Rendered(tokens)| == |ptr| && Locate(v, ptr, p, true).Some?
    ensures R.Get(Denote(v), tokens).Some?
    ensures var v' := PutAt(v, Locate(v, ptr, p, true).value, x);
      Denote(v') == R.Put(Denote(v), tokens, Denote(x)) && Distinct(v')
    decreases |tokens|
  {
    hide At, Encode, Distinct, PutAt;
    LocateGets(v, tokens, ptr, p);
    if tokens == [] {
      PutRoot(v, x);
    } else {
      var token, rest := tokens[0], tokens[1..];
      var q := p + 1 + |Encode(token)|;
      ArrayOrNot(v);
      LocateStep(v, token, rest, ptr, p, q);
      DownDenotes(v, token);
      var i := Down(v, token).value;
      DistinctChild(v, i);
      LocatePuts(Child(v, i), rest, ptr, q, x);
      PutBelow(v, i, Locate(Child(v, i), ptr, q, true).value, x);
    }
  }

  lemma PutRoot(v: Value, x: Value)
    ensures PutAt(v, [], x) == x
  {
  }

  // ----- The last token -----

  lemma {:induction false} RenderedMore(tokens: R.Tokens)
    requires tokens != []
    ensures Rendered(tokens) == Rendered(R.Init(tokens)) + ([SLASH] + Encode(R.Last(tokens)))
    decreases |tokens|
  {
    hide Encode;
    var init := R.Init(tokens);
    if |tokens| == 1 {
      assert init == [] && tokens[1..] == [];
    } else {
      var rest := tokens[1..];
      assert init[0] == tokens[0] && init[1..] == R.Init(rest) && R.Last(rest) == R.Last(tokens);
      RenderedMore(rest);
      var front, middle, back := Encode(tokens[0]), Rendered(R.Init(rest)), [SLASH] + Encode(R.Last(tokens));
      assert front + (middle + back) == (front + middle) + back;
      assert [SLASH] + ((front + middle) + back) == ([SLASH] + (front + middle)) + back;
    }
  }

  lemma {:induction false} OrderlyInit(d: Data, tokens: R.Tokens)
    requires tokens != [] && OrderlyAlong(d, tokens)
    ensures OrderlyAlong(d, R.Init(tokens))
    ensures var parent := R.Get(d, R.Init(tokens));
      parent.Some? && parent.value.DArray? ==> Orderly(R.Last(tokens))
    decreases |tokens|
  {
    var init := R.Init(tokens);
    if |tokens| == 1 {
      assert init == [];
    } else {
      var rest := tokens[1..];
      assert init[0] == tokens[0] && init[1..] == R.Init(rest) && R.Last(rest) == R.Last(tokens);
      if R.Child(d, tokens[0]).Some? { OrderlyInit(R.Child(d, tokens[0]).value, rest); }
    }
  }

  lemma {:induction false} OrderlyPut(d: Data, tokens: R.Tokens, p: Data)
    requires tokens != [] && OrderlyAlong(d, tokens) && R.Get(d, R.Init(tokens)).Some?
    requires p.DArray? ==> Orderly(R.Last(tokens))
    ensures OrderlyAlong(R.Put(d, R.Init(tokens), p), tokens)
    decreases |tokens|
  {
    var init := R.Init(tokens);
    if |tokens| == 1 {
      assert init == [] && tokens[1..] == [];
    } else {
      var rest := tokens[1..];
      assert init[0] == tokens[0] && init[1..] == R.Init(rest) && R.Last(rest) == R.Last(tokens);
      OrderlyPut(R.Child(d, tokens[0]).value, rest, p);
    }
  }

  /** What the code needs of a path to add at it: the tokens that meet an array are orderly and the
      last token survives the decoding in place. */
  predicate Addable(d: Data, tokens: R.Tokens) {
    tokens != [] && OrderlyAlong(d, tokens) && Survives(R.Last(tokens))
  }

  /** Detaching ignores case, so it takes the first member whose name is the token but for its case:
      that must be the member of that very name. */
  predicate FirstIsIt(parent: Value, token: cstring) {
    parent.Object? ==>
      match FindKey(parent.members, 0, token, false)
      case None => true
      case Some(j) => parent.members[j].key == token
  }

  /** The path detaches the member it names, if it leads to an object at all. */
  predicate Hits(v: Value, tokens: R.Tokens)
    requires tokens != []
  {
    match Locate(v, Rendered(R.Init(tokens)), 0, true)
    case None => true
    case Some(pos) => FirstIsIt(ItemAt(v, pos), R.Last(tokens))
  }

  /** The path split at its last slash and its last token decoded. */
  lemma SplitAny(tokens: R.Tokens, ptr: cstring)
    requires tokens != [] && ptr == Rendered(tokens)
    ensures LastSlash(ptr, |ptr|).Some? && LastSlash(ptr, |ptr|).value < |ptr|
    ensures var k := LastSlash(ptr, |ptr|).value;
      && DecodeInPlace(ptr[k + 1..]) == DecodeInPlace(Encode(R.Last(tokens)))
      && ptr[..k] == Rendered(R.Init(tokens))
  {
    RenderedMore(tokens);
    NoSlash(R.Last(tokens));
    PathSplit(Rendered(R.Init(tokens)), Encode(R.Last(tokens)), ptr);
  }

  lemma Split(v: Value, tokens: R.Tokens, ptr: cstring)
    requires Addable(Denote(v), tokens) && ptr == Rendered(tokens)
    ensures LastSlash(ptr, |ptr|).Some? && LastSlash(ptr, |ptr|).value < |ptr|
    ensures var k := LastSlash(ptr, |ptr|).value;
      && DecodeInPlace(ptr[k + 1..]) == R.Last(tokens)
      && ptr[..k] == Rendered(R.Init(tokens))
  {
    hide DecodeInPlace, Encode, Rendered, LastSlash;
    SplitAny(tokens, ptr);
  }

  lemma Front(v: Value, tokens: R.Tokens)
    requires Distinct(v) && OrderlyAlong(Denote(v), tokens)
    ensures match Locate(v, Rendered(tokens), 0, true)
      case None => R.Get(Denote(v), tokens) == None
      case Some(pos) => R.Get(Denote(v), tokens) == Some(Denote(ItemAt(v, pos))) && Distinct(ItemAt(v, pos))
  {
    var ptr := Rendered(tokens);
    assert ptr[0..|ptr|] == ptr;
    LocateGets(v, tokens, ptr, 0);
  }

  lemma FrontPut(v: Value, tokens: R.Tokens, x: Value)
    requires Distinct(v) && Distinct(x) && OrderlyAlong(Denote(v), tokens) && Locate(v, Rendered(tokens), 0, true).Some?
    ensures R.Get(Denote(v), tokens).Some?
    ensures var v' := PutAt(v, Locate(v, Rendered(tokens), 0, true).value, x);
      Denote(v') == R.Put(Denote(v), tokens, Denote(x)) && Distinct(v')
  {
    var ptr := Rendered(tokens);
    assert ptr[0..|ptr|] == ptr;
    LocatePuts(v, tokens, ptr, 0, x);
  }

  /** The decoded last token, read as an index. */
  lemma WholeToken(token: cstring)
    requires Orderly(token) && Survives(token)
    ensures DecodeIndex(token, 0) == R.IndexOf(token)
  {
    assert SLASH !in token by { if SLASH in token { DiffLimits.SlashDoesNotSurvive(token); } }
    assert token[0..|token|] == token;
    if Decimal.AllDigits(token) {
      DigitsIndex(token, 0, |token|, token);
    } else if ONE <= token[0] <= NINE {
      AllOrSome(token, 0, |token|, token);
    }
  }

  // ----- One level -----

  lemma DetachChild(parent: Value, token: cstring)
    requires Distinct(parent) && FirstIsIt(parent, token) && (parent.Array? ==> Orderly(token) && Survives(token))
    ensures parent.Array? ==> DecodeIndex(token, 0) == R.IndexOf(token)
    ensures parent.Object? ==> FindKey(parent.members, 0, token, false) == FindKey(parent.members, 0, token, true)
    ensures R.Delete(Denote(parent), token).Some? <==> Down(parent, token).Some?
  {
    if parent.Array? {
      WholeToken(token);
    } else if parent.Object? {
      DenoteLookup(parent.members, 0, token);
    }
  }

  lemma WithoutDenotes(parent: Value, token: cstring)
    requires Distinct(parent) && Down(parent, token).Some?
    ensures var i := Down(parent, token).value;
      && Distinct(Without(parent, i)) && Distinct(Child(parent, i))
      && R.Delete(Denote(parent), token) == Some(Denote(Without(parent, i)))
      && R.Child(Denote(parent), token) == Some(Denote(Child(parent, i)))
  {
    var i := Down(parent, token).value;
    DownDenotes(parent, token);
    DistinctChild(parent, i);
    if parent.Array? {
      assert DenoteItems(RemoveAt(parent.items, i))
        == DenoteItems(parent.items)[..i] + DenoteItems(parent.items)[i + 1..];
    } else {
      DenoteRemove(parent.members, i);
    }
  }

  /** The parent with a value added, as the code does it. */
  function With(parent: Value, token: cstring, x: Value): Option<Value> {
    match parent
    case Array(items) =>
      if token == R.HYPHEN then Some(Array(items + [x]))
      else
        (match R.IndexOf(token)
         case None => None
         case Some(i) => if i <= |items| then Some(Array(items[..i] + [x] + items[i..])) else None)
    case Object(members) => Some(Object(DeleteKey(members, token, true) + [Member(token, x)]))
    case _ => None
  }

  lemma Unfold(v: Value)
    ensures v.Array? ==> Denote(v) == DArray(DenoteItems(v.items))
    ensures v.Array? ==> (Distinct(v) <==> forall i :: 0 <= i < |v.items| ==> Distinct(v.items[i]))
    ensures v.Object? ==> Denote(v) == DObject(DenoteMembers(v.members))
    ensures v.Object? && Distinct(v) ==> UniqueKeys(v.members)
    ensures v.Object? && Distinct(v) ==> forall i :: 0 <= i < |v.members| ==> Distinct(v.members[i].value)
  {
  }

  lemma InsertedItem(items: seq<Value>, i: nat, x: Value)
    requires i <= |items| && Distinct(x) && forall k :: 0 <= k < |items| ==> Distinct(items[k])
    ensures var ds, more := DenoteItems(items), items[..i] + [x] + items[i..];
      && Distinct(Array(more)) && Denote(Array(more)) == DArray(ds[..i] + [Denote(x)] + ds[i..])
      && (i == |items| ==> more == items + [x] && ds[..i] + [Denote(x)] + ds[i..] == ds + [Denote(x)])
  {
    var ds, more := DenoteItems(items), items[..i] + [x] + items[i..];
    assert DenoteItems(more) == ds[..i] + [Denote(x)] + ds[i..];
  }

  lemma WithDenotes(parent: Value, token: cstring, x: Value)
    requires Distinct(parent) && Distinct(x)
    ensures match With(parent, token, x)
      case None => R.Insert(Denote(parent), token, Denote(x)) == None
      case Some(p) => Distinct(p) && R.Insert(Denote(parent), token, Denote(x)) == Some(Denote(p))
  {
    hide Denote, Distinct, DenoteItems, DeleteKey, R.IndexOf;
    ArrayOrNot(parent);
    match parent
    case Array(items) =>
      Unfold(parent);
      if token == R.HYPHEN {
        InsertedItem(items, |items|, x);
      } else if R.IndexOf(token).Some? && R.IndexOf(token).value <= |items| {
        InsertedItem(items, R.IndexOf(token).value, x);
      }
    case Object(members) =>
      Unfold(parent);
      ReplacedMember(members, token, x);
      Unfold(Object(DeleteKey(members, token, true) + [Member(token, x)]));
    case _ =>
  }

  lemma DeletedMember(members: seq<Member>, token: cstring)
    requires UniqueKeys(members) && forall i :: 0 <= i < |members| ==> Distinct(members[i].value)
    ensures var rest := DeleteKey(members, token, true);
      && UniqueKeys(rest) && (forall i :: 0 <= i < |rest| ==> Distinct(rest[i].value) && rest[i].key != token)
      && DenoteMembers(rest) == DenoteMembers(members) - {token}
  {
    hide Denote, Distinct;
    var found := FindKey(members, 0, token, true);
    DenoteLookup(members, 0, token);
    if found.Some? { DenoteRemove(members, found.value); }
    assert DenoteMembers(DeleteKey(members, token, true)) == DenoteMembers(members) - {token};
  }

  lemma ReplacedMember(members: seq<Member>, token: cstring, x: Value)
    requires UniqueKeys(members) && (forall i :: 0 <= i < |members| ==> Distinct(members[i].value)) && Distinct(x)
    ensures var all := DeleteKey(members, token, true) + [Member(token, x)];
      Distinct(Object(all)) && DenoteMembers(all) == DenoteMembers(members)[token := Denote(x)]
  {
    var rest := DeleteKey(members, token, true);
    DeletedMember(members, token);
    hide DeleteKey, DenoteMembers, Denote;
    DenoteAppend(rest, Member(token, x));
    assert (DenoteMembers(members) - {token})[token := Denote(x)] == DenoteMembers(members)[token := Denote(x)];
  }

  // ----- The two changes of the document -----

  /** The outcome is what RFC 6902 asks for: success exactly where it is defined, and then a document
      that denotes the patched data and has distinct keys again. */
  predicate Meets(r: Outcome, goal: Option<Data>) {
    && r.Done? && (r.status == 0 <==> goal.Some?)
    && (goal.Some? ==> r.doc.Live? && Distinct(r.doc.root) && Denote(r.doc.root) == goal.value)
  }

  lemma DetachIsRemove(v: Value, tokens: R.Tokens)
    requires Distinct(v) && Addable(Denote(v), tokens) && Hits(v, tokens)
    ensures match DetachPath(v, Rendered(tokens), true)
      case None => R.Remove(Denote(v), tokens) == None
      case Some(d) =>
        && R.Remove(Denote(v), tokens) == Some(Denote(d.root)) && Distinct(d.root)
        && R.Get(Denote(v), tokens) == Some(Denote(d.item)) && Distinct(d.item)
  {
    hide Locate, ItemAt, PutAt, Denote, Distinct, R.Get, R.Put, R.Delete, LastSlash, DecodeInPlace, DecodeIndex,
         FindKey, Rendered, R.IndexOf, OrderlyAlong, R.Init, R.Last, FirstIsIt, Orderly, Survives;
    var init, token := R.Init(tokens), R.Last(tokens);
    OrderlyInit(Denote(v), tokens);
    Split(v, tokens, Rendered(tokens));
    Front(v, init);
    R.GetMore(Denote(v), tokens);
    var found := Locate(v, Rendered(init), 0, true);
    if found.Some? {
      var parent := ItemAt(v, found.value);
      ArrayOrNot(parent);
      DetachChild(parent, token);
      if Down(parent, token).Some? {
        var i := Down(parent, token).value;
        WithoutDenotes(parent, token);
        FrontPut(v, init, Without(parent, i));
      }
    }
  }

  /** Otherwise it takes a member whose name is the token but for its case. */
  lemma DetachMisses(v: Value, tokens: R.Tokens) returns (twin: cstring, d: Detached)
    requires Distinct(v) && Addable(Denote(v), tokens) && !Hits(v, tokens)
    ensures DetachPath(v, Rendered(tokens), true) == Some(d) && Distinct(d.root) && twin != R.Last(tokens)
    ensures var parent := R.Get(Denote(v), R.Init(tokens));
      && parent.Some? && parent.value.DObject? && twin in parent.value.members
      && Denote(d.root) == R.Put(Denote(v), R.Init(tokens), DObject(parent.value.members - {twin}))
  {
    hide Locate, ItemAt, PutAt, Distinct, R.Get, R.Put, LastSlash, DecodeInPlace, Rendered, OrderlyAlong, R.Init,
         R.Last, Orderly, Survives;
    var init, token := R.Init(tokens), R.Last(tokens);
    OrderlyInit(Denote(v), tokens);
    Split(v, tokens, Rendered(tokens));
    Front(v, init);
    var pos := Locate(v, Rendered(init), 0, true).value;
    var parent := ItemAt(v, pos);
    var j := FindKey(parent.members, 0, token, false).value;
    var rest := Object(RemoveAt(parent.members, j));
    twin, d := parent.members[j].key, Detached(PutAt(v, pos, rest), parent.members[j].value);
    ObjectWithout(parent, j);
    FrontPut(v, init, rest);
  }

  lemma ObjectWithout(parent: Value, j: nat)
    requires parent.Object? && Distinct(parent) && j < |parent.members|
    ensures var rest, key := Object(RemoveAt(parent.members, j)), parent.members[j].key;
      && Distinct(rest) && Denote(parent).DObject? && key in Denote(parent).members
      && Denote(rest) == DObject(Denote(parent).members - {key})
  {
    DenoteRemove(parent.members, j);
    DenoteAt(parent.members, j);
  }

  /** Without the twin the document is neither what a remove nor what a replace asks for. */
  lemma TwinMissed(d: Data, tokens: R.Tokens, twin: cstring, x: Data)
    requires tokens != [] && twin != R.Last(tokens) && R.Get(d, R.Init(tokens)).Some?
    requires var parent := R.Get(d, R.Init(tokens)).value; parent.DObject? && twin in parent.members
    ensures var init, token := R.Init(tokens), R.Last(tokens);
      var m := R.Get(d, init).value.members;
      var rest := R.Put(d, init, DObject(m - {twin}));
      && R.Remove(d, tokens) != Some(rest)
      && R.Add(rest, tokens, x).Some? && R.Add(rest, tokens, x) != R.Replace(d, tokens, x)
  {
    var init, token := R.Init(tokens), R.Last(tokens);
    var m := R.Get(d, init).value.members;
    var rest := R.Put(d, init, DObject(m - {twin}));
    R.GetPut(d, init, DObject(m - {twin}));
    R.GetMore(d, tokens);
    if token in m {
      R.GetPut(d, init, DObject(m - {token}));
      assert twin in m - {token};
      R.PutMore(d, tokens, x);
      R.GetPut(d, init, DObject(m[token := x]));
    }
    R.GetPut(rest, init, DObject((m - {twin})[token := x]));
    assert twin !in (m - {twin})[token := x];
  }

  lemma AddIsAdd(v: Value, tokens: R.Tokens, x: Value)
    requires Distinct(v) && Distinct(x) && Addable(Denote(v), tokens)
    ensures var goal, r := R.Add(Denote(v), tokens, Denote(x)), AddAt(v, Rendered(tokens), x, true);
      Meets(r, goal) && (goal.None? ==> r == Done(Live(v), AddError(Denote(v), tokens)))
  {
    hide Locate, ItemAt, PutAt, Denote, Distinct, R.Get, R.Put, R.Insert, LastSlash, DecodeInPlace, DecodeIndex,
         FindKey, DeleteKey, Rendered, R.IndexOf, OrderlyAlong, R.Init, R.Last, Orderly, Survives;
    var init, token := R.Init(tokens), R.Last(tokens);
    OrderlyInit(Denote(v), tokens);
    Split(v, tokens, Rendered(tokens));
    Front(v, init);
    var found := Locate(v, Rendered(init), 0, true);
    if found.Some? {
      var parent := ItemAt(v, found.value);
      ArrayOrNot(parent);
      if parent.Array? { WholeToken(token); }
      WithDenotes(parent, token, x);
      if With(parent, token, x).Some? { FrontPut(v, init, With(parent, token, x).value); }
    }
  }

  // ----- The six operations -----

  /** Member `j` is the first of the patch with that name. */
  predicate Named(patch: Value, name: string, j: nat, caseSensitive: bool) {
    && patch.Object? && j < |patch.members| && SameKey(Ascii(name), patch.members[j].key, caseSensitive)
    && forall k :: 0 <= k < j ==> !SameKey(Ascii(name), patch.members[k].key, caseSensitive)
  }

  ghost predicate Says(patch: Value, name: string, v: Value) {
    exists j: nat :: Named(patch, name, j, true) && patch.members[j].value == v
  }

  predicate Spells(v: Value, text: string) { v.String? && v.s == Ascii(text) }

  /** The patch object asks for the operation called `op` at `path`, whatever else it holds and in
      whatever order. */
  ghost predicate Asks(patch: Value, op: string, path: cstring) {
    Says(patch, "path", String(path)) && exists v :: Says(patch, "op", v) && Spells(v, op)
  }

  lemma FieldSpelling()
    ensures Ascii("op") == OP && Ascii("path") == PATH && Ascii("value") == VALUE && Ascii("from") == FROM
  {
  }

  lemma OperationSpelling()
    ensures Ascii("add") == ADD && Ascii("remove") == REMOVE && Ascii("replace") == REPLACE
    ensures Ascii("move") == MOVE && Ascii("copy") == COPY && Ascii("test") == TEST
  {
  }

  lemma Spelling()
    ensures Ascii("op") == OP && Ascii("path") == PATH && Ascii("value") == VALUE && Ascii("from") == FROM
    ensures Ascii("add") == ADD && Ascii("remove") == REMOVE && Ascii("replace") == REPLACE
    ensures Ascii("move") == MOVE && Ascii("copy") == COPY && Ascii("test") == TEST
  {
    hide Ascii;
    FieldSpelling();
    OperationSpelling();
  }

  lemma NamedField(patch: Value, name: string, field: cstring, j: nat, caseSensitive: bool)
    requires Named(patch, name, j, caseSensitive) && field == Ascii(name)
    ensures Field(patch, field, caseSensitive) == Some(patch.members[j].value)
  {
  }

  lemma SaysField(patch: Value, name: string, field: cstring, v: Value)
    requires Says(patch, name, v) && field == Ascii(name)
    ensures Field(patch, field, true) == Some(v)
  {
    var j: nat :| Named(patch, name, j, true) && patch.members[j].value == v;
    NamedField(patch, name, field, j, true);
  }

  lemma AskedField(patch: Value, op: string, path: cstring) returns (v: Value)
    requires Asks(patch, op, path)
    ensures Field(patch, PATH, true) == Some(String(path)) && Field(patch, OP, true) == Some(v) && Spells(v, op)
  {
    hide Field, Ascii;
    Spelling();
    v :| Says(patch, "op", v) && Spells(v, op);
    SaysField(patch, "op", OP, v);
    SaysField(patch, "path", PATH, String(path));
  }

  /** The six names, and nothing else, are decoded to the six operations. */
  lemma Asked(patch: Value, op: string, path: cstring)
    requires Asks(patch, op, path)
    ensures Field(patch, PATH, true) == Some(String(path))
    ensures op == "add" ==> DecodeOperation(patch, true) == Add
    ensures op == "remove" ==> DecodeOperation(patch, true) == Remove
    ensures op == "replace" ==> DecodeOperation(patch, true) == Replace
    ensures op == "move" ==> DecodeOperation(patch, true) == Move
    ensures op == "copy" ==> DecodeOperation(patch, true) == Copy
    ensures op == "test" ==> DecodeOperation(patch, true) == Test
  {
    hide Field, Ascii;
    Spelling();
    var v := AskedField(patch, op, path);
    DifferentNames();
  }

  lemma DifferentNames()
    ensures ADD[0] == 97 && MOVE[0] == 109 && COPY[0] == 99 && TEST[0] == 116
    ensures REMOVE[..3] != REPLACE[..3] && REMOVE[0] == REPLACE[0] == 114
  {
    assert REMOVE[2] != REPLACE[2];
    assert REMOVE[..3][2] != REPLACE[..3][2];
  }

  // ----- Patches that ask for nothing -----

  /** Without a path that is a string the status is 2, and nothing changes. */
  lemma NoPath(doc: Document, patch: Value, caseSensitive: bool)
    requires forall j: nat :: Named(patch, "path", j, caseSensitive) ==> !patch.members[j].value.String?
    ensures ApplyPatch(doc, patch, caseSensitive) == Done(doc, 2)
  {
    Spelling();
    if patch.Object? && FindKey(patch.members, 0, PATH, caseSensitive).Some? {
      assert Named(patch, "path", FindKey(patch.members, 0, PATH, caseSensitive).value, caseSensitive);
    }
  }

  predicate KnownName(v: Value) {
    || Spells(v, "add") || Spells(v, "remove") || Spells(v, "replace") || Spells(v, "move") || Spells(v, "copy")
    || Spells(v, "test")
  }

  /** With a path but without one of the six names it is 3, and nothing changes. */
  lemma NoOperationNamed(doc: Document, patch: Value, k: nat, caseSensitive: bool)
    requires Named(patch, "path", k, caseSensitive) && patch.members[k].value.String?
    requires forall j: nat :: Named(patch, "op", j, caseSensitive) ==> !KnownName(patch.members[j].value)
    ensures ApplyPatch(doc, patch, caseSensitive) == Done(doc, 3)
  {
    hide Ascii;
    Spelling();
    NamedField(patch, "path", PATH, k, caseSensitive);
    var found := FindKey(patch.members, 0, OP, caseSensitive);
    if found.Some? {
      assert Named(patch, "op", found.value, caseSensitive);
      assert !KnownName(patch.members[found.value].value);
    }
  }

  /** Without the value or the source it needs the status is 7 or 4, and nothing changes. */
  lemma FieldMissing(root: Value, patch: Value, path: cstring)
    ensures Asks(patch, "add", path) && (forall j: nat :: !Named(patch, "value", j, true)) ==>
      ApplyPatch(Live(root), patch, true) == Done(Live(root), 7)
    ensures (Asks(patch, "move", path) || Asks(patch, "copy", path))
            && (forall j: nat :: !Named(patch, "from", j, true)) ==>
      ApplyPatch(Live(root), patch, true) == Done(Live(root), 4)
  {
    hide Ascii, DecodeOperation;
    Spelling();
    if patch.Object? {
      var value, from := FindKey(patch.members, 0, VALUE, true), FindKey(patch.members, 0, FROM, true);
      assert value.Some? ==> Named(patch, "value", value.value, true);
      assert from.Some? ==> Named(patch, "from", from.value, true);
    }
    if Asks(patch, "add", path) { Asked(patch, "add", path); }
    if Asks(patch, "move", path) { Asked(patch, "move", path); }
    if Asks(patch, "copy", path) { Asked(patch, "copy", path); }
  }

  // ----- The theorems -----

  /** The status of an add that RFC 6902 calls an error: 9 without a parent that can hold it, 10 past the
      end of an array, 11 for a token that is no index. */
  function AddError(d: Data, tokens: R.Tokens): nat
    requires tokens != []
  {
    match R.Get(d, R.Init(tokens))
    case Some(DArray(_)) => if R.IndexOf(R.Last(tokens)).Some? then 10 else 11
    case _ => 9
  }

  lemma SaysValue(patch: Value, x: Value)
    requires Says(patch, "value", x)
    ensures Field(patch, VALUE, true) == Some(x)
  {
    Spelling();
    SaysField(patch, "value", VALUE, x);
  }

  lemma SaysFrom(patch: Value, from: cstring)
    requires Says(patch, "from", String(from))
    ensures Field(patch, FROM, true) == Some(String(from))
  {
    Spelling();
    SaysField(patch, "from", FROM, String(from));
  }

  lemma NotRoot(tokens: R.Tokens)
    ensures Rendered(tokens) == [] <==> tokens == []
  {
  }

  lemma AddIsRfc(root: Value, patch: Value, tokens: R.Tokens, x: Value)
    requires Asks(patch, "add", Rendered(tokens)) && Says(patch, "value", x)
    requires Distinct(root) && Distinct(x) && (tokens == [] || Addable(Denote(root), tokens))
    ensures var goal := R.Add(Denote(root), tokens, Denote(x));
      var r := ApplyPatch(Live(root), patch, true);
      Meets(r, goal) && (goal.None? ==> r == Done(Live(root), AddError(Denote(root), tokens)))
  {
    hide R.Add, AddAt, Rendered, Denote, Distinct, Addable, Field, DecodeOperation, Asks, Says, AddError;
    Asked(patch, "add", Rendered(tokens));
    SaysValue(patch, x);
    NotRoot(tokens);
    if tokens == [] { AddRoot(Denote(root), Denote(x)); } else { AddIsAdd(root, tokens, x); }
  }

  /** Below an object an add does what RFC 6902 asks for if and only if the last token survives the decoding
      in place, or both it and what the decoder makes of it already hold the added value. */
  lemma AddBelowObject(root: Value, patch: Value, tokens: R.Tokens, x: Value)
    requires Asks(patch, "add", Rendered(tokens)) && Says(patch, "value", x)
    requires Distinct(root) && Distinct(x) && tokens != [] && OrderlyAlong(Denote(root), tokens)
    requires var parent := R.Get(Denote(root), R.Init(tokens)); parent.Some? && parent.value.DObject?
    ensures var token, m := R.Last(tokens), R.Get(Denote(root), R.Init(tokens)).value.members;
      var written := DecodeInPlace(Encode(token));
      Meets(ApplyPatch(Live(root), patch, true), R.Add(Denote(root), tokens, Denote(x)))
      <==> Survives(token) || (token in m && written in m && m[token] == m[written] == Denote(x))
  {
    hide AddAt, Denote, Distinct, R.Get, R.Put, R.Add, DecodeInPlace, Encode, Rendered, OrderlyAlong, R.Init, R.Last,
         Field, DecodeOperation, Asks, Says;
    Asked(patch, "add", Rendered(tokens));
    SaysValue(patch, x);
    var d, init, token := Denote(root), R.Init(tokens), R.Last(tokens);
    var written := DecodeInPlace(Encode(token));
    var m := R.Get(d, init).value.members;
    NotRoot(tokens);
    var r := AddWrites(root, tokens, x);
    AddNames(d, tokens, Denote(x));
    R.GetPut(d, init, DObject(m[written := Denote(x)]));
    R.GetPut(d, init, DObject(m[token := Denote(x)]));
    EitherName(m, token, written, Denote(x));
  }

  lemma AddNames(d: Data, tokens: R.Tokens, x: Data)
    requires tokens != [] && R.Get(d, R.Init(tokens)).Some? && R.Get(d, R.Init(tokens)).value.DObject?
    ensures R.Add(d, tokens, x)
      == Some(R.Put(d, R.Init(tokens), DObject(R.Get(d, R.Init(tokens)).value.members[R.Last(tokens) := x])))
  {
  }

  /** What the code adds below an object, whatever the last token. */
  lemma AddWrites(v: Value, tokens: R.Tokens, x: Value) returns (r: Value)
    requires Distinct(v) && Distinct(x) && tokens != [] && OrderlyAlong(Denote(v), tokens)
    requires var parent := R.Get(Denote(v), R.Init(tokens)); parent.Some? && parent.value.DObject?
    ensures AddAt(v, Rendered(tokens), x, true) == Done(Live(r), 0) && Distinct(r)
    ensures var m := R.Get(Denote(v), R.Init(tokens)).value.members;
      Denote(r) == R.Put(Denote(v), R.Init(tokens), DObject(m[DecodeInPlace(Encode(R.Last(tokens))) := Denote(x)]))
  {
    hide Locate, ItemAt, PutAt, Denote, Distinct, R.Get, R.Put, LastSlash, DecodeInPlace, Encode, DeleteKey, Rendered,
         OrderlyAlong, R.Init, R.Last;
    var init, written := R.Init(tokens), DecodeInPlace(Encode(R.Last(tokens)));
    OrderlyInit(Denote(v), tokens);
    SplitAny(tokens, Rendered(tokens));
    Front(v, init);
    var pos := Locate(v, Rendered(init), 0, true).value;
    var parent := ItemAt(v, pos);
    ArrayOrNot(parent);
    WithDenotes(parent, written, x);
    FrontPut(v, init, With(parent, written, x).value);
    r := PutAt(v, pos, With(parent, written, x).value);
  }

  lemma EitherName(m: map<bytes, Data>, k: bytes, l: bytes, x: Data)
    ensures m[k := x] == m[l := x] <==> k == l || (k in m && l in m && m[k] == m[l] == x)
  {
    if m[k := x] == m[l := x] && k != l {
      assert k in m[l := x] && l in m[k := x];
      assert m[l := x][k] == m[k] && m[k := x][l] == m[l];
    }
  }

  lemma AddRoot(d: Data, x: Data)
    ensures R.Add(d, [], x) == Some(x)
  {
  }

  /** A remove does what RFC 6902 asks for if and only if the first member whose name is the last token
      but for its case is the member of that very name. */
  lemma RemoveIsRfc(root: Value, patch: Value, tokens: R.Tokens)
    requires Asks(patch, "remove", Rendered(tokens)) && Distinct(root) && Addable(Denote(root), tokens)
    ensures var goal := R.Remove(Denote(root), tokens);
      var r := ApplyPatch(Live(root), patch, true);
      && (Meets(r, goal) <==> Hits(root, tokens))
      && (Hits(root, tokens) && goal.None? ==> r == Done(Live(root), 13))
  {
    hide R.Remove, DetachPath, Rendered, Denote, Distinct, Addable, Hits, R.Get, R.Put, R.Init, R.Last, R.Add,
         R.Replace, Field, DecodeOperation, Asks;
    Asked(patch, "remove", Rendered(tokens));
    NotRoot(tokens);
    AddableTokens(Denote(root), tokens);
    if Hits(root, tokens) {
      DetachIsRemove(root, tokens);
    } else {
      var twin, d := DetachMisses(root, tokens);
      TwinMissed(Denote(root), tokens, twin, DNull);
    }
  }

  lemma AddableTokens(d: Data, tokens: R.Tokens)
    requires Addable(d, tokens)
    ensures tokens != []
  {
  }

  /** A path that can be detached at can be added at again. */
  lemma StillAddable(d: Data, tokens: R.Tokens)
    requires Addable(d, tokens) && R.Remove(d, tokens).Some?
    ensures Addable(R.Remove(d, tokens).value, tokens)
  {
    var parent := R.Get(d, R.Init(tokens)).value;
    OrderlyInit(d, tokens);
    OrderlyPut(d, tokens, R.Delete(parent, R.Last(tokens)).value);
  }

  /** A replace, under the same condition. */
  lemma ReplaceIsRfc(root: Value, patch: Value, tokens: R.Tokens, x: Value)
    requires Asks(patch, "replace", Rendered(tokens)) && Says(patch, "value", x)
    requires Distinct(root) && Distinct(x) && (tokens == [] || Addable(Denote(root), tokens))
    ensures var goal := R.Replace(Denote(root), tokens, Denote(x));
      var r := ApplyPatch(Live(root), patch, true);
      && (Meets(r, goal) <==> tokens == [] || Hits(root, tokens))
      && ((tokens == [] || Hits(root, tokens)) && goal.None? ==> r == Done(Live(root), 13))
  {
    hide R.Remove, R.Add, R.Get, R.Put, DetachPath, AddAt, Rendered, Denote, Distinct, Addable, Hits, R.Init, R.Last,
         Field, DecodeOperation, Asks, Says, AddError;
    Asked(patch, "replace", Rendered(tokens));
    SaysValue(patch, x);
    var d := Denote(root);
    NotRoot(tokens);
    if tokens == [] {
      ReplaceRoot(d, Denote(x));
    } else if Hits(root, tokens) {
      R.RemoveThenAdd(d, tokens, Denote(x));
      DetachIsRemove(root, tokens);
      if R.Remove(d, tokens).Some? {
        StillAddable(d, tokens);
        AddIsAdd(DetachPath(root, Rendered(tokens), true).value.root, tokens, x);
      }
    } else {
      var twin, taken := DetachMisses(root, tokens);
      TwinMissed(d, tokens, twin, Denote(x));
      StillAddableObject(d, tokens, DObject(R.Get(d, R.Init(tokens)).value.members - {twin}));
      AddIsAdd(taken.root, tokens, x);
    }
  }

  lemma StillAddableObject(d: Data, tokens: R.Tokens, p: Data)
    requires Addable(d, tokens) && R.Get(d, R.Init(tokens)).Some? && p.DObject?
    ensures Addable(R.Put(d, R.Init(tokens), p), tokens)
  {
    OrderlyPut(d, tokens, p);
  }

  lemma ReplaceRoot(d: Data, x: Data)
    ensures R.Replace(d, [], x) == Some(x)
  {
  }

  /** A move that goes to the root is refused with status 9 after the item was taken out. */
  lemma MoveIsRfc(root: Value, patch: Value, from: R.Tokens, tokens: R.Tokens)
    requires Asks(patch, "move", Rendered(tokens)) && Says(patch, "from", String(Rendered(from)))
    requires Distinct(root) && Addable(Denote(root), from) && Hits(root, from)
    requires var rest := R.Remove(Denote(root), from); tokens == [] || rest.None? || Addable(rest.value, tokens)
    ensures var goal := R.Move(Denote(root), from, tokens);
      var r := ApplyPatch(Live(root), patch, true);
      && (if tokens == [] && goal.Some? then r.Done? && r.status == 9 else Meets(r, goal))
      && (goal.None? ==>
            match R.Remove(Denote(root), from)
            case None => r == Done(Live(root), 5)
            case Some(rest) =>
              tokens != [] && r.status == AddError(rest, tokens) && r.doc.Live? && Denote(r.doc.root) == rest)
  {
    hide R.Remove, R.Add, R.Get, DetachPath, AddAt, Rendered, Denote, Distinct, Addable, Hits, Field, DecodeOperation,
         Asks, Says, AddError;
    Asked(patch, "move", Rendered(tokens));
    SaysFrom(patch, Rendered(from));
    NotRoot(tokens);
    AddableTokens(Denote(root), from);
    DetachIsRemove(root, from);
    var taken := DetachPath(root, Rendered(from), true);
    if taken.Some? {
      if tokens == [] { RootAdd(taken.value.root, taken.value.item); }
      else { AddIsAdd(taken.value.root, tokens, taken.value.item); }
    }
  }

  lemma RootAdd(v: Value, x: Value)
    ensures AddAt(v, [], x, true) == Done(Live(v), 9) && R.Add(Denote(v), [], Denote(x)) == Some(Denote(x))
  {
  }

  lemma CopyIsRfc(root: Value, patch: Value, from: R.Tokens, tokens: R.Tokens)
    requires Asks(patch, "copy", Rendered(tokens)) && Says(patch, "from", String(Rendered(from))) && Distinct(root)
    requires OrderlyAlong(Denote(root), from) && (tokens == [] || Addable(Denote(root), tokens))
    ensures var goal := R.Copy(Denote(root), from, tokens);
      var r := ApplyPatch(Live(root), patch, true);
      && (if tokens == [] && goal.Some? then r == Done(Live(root), 9) else Meets(r, goal))
      && (goal.None? ==>
            if R.Get(Denote(root), from).None? then r == Done(Live(root), 5)
            else tokens != [] && r == Done(Live(root), AddError(Denote(root), tokens)))
  {
    hide R.Add, R.Get, Locate, ItemAt, AddAt, Rendered, Denote, Distinct, Addable, OrderlyAlong, Field,
         DecodeOperation, Asks, Says, AddError;
    Asked(patch, "copy", Rendered(tokens));
    SaysFrom(patch, Rendered(from));
    NotRoot(tokens);
    Front(root, from);
    var found := Locate(root, Rendered(from), 0, true);
    if found.Some? {
      var item := ItemAt(root, found.value);
      if tokens == [] { RootAdd(root, item); } else { AddIsAdd(root, tokens, item); }
    }
  }

  lemma {:induction false} DistinctBelow(v: Value, pos: Position)
    requires Valid(v, pos) && Distinct(v)
    ensures Distinct(ItemAt(v, pos))
    decreases |pos|
  {
    if pos != [] {
      DistinctBelow(if v.Array? then v.items[pos[0]] else v.members[pos[0]].value, pos[1..]);
    }
  }

  lemma {:induction false} PutSameMeaning(v: Value, pos: Position, x: Value)
    requires Valid(v, pos) && Distinct(v) && Distinct(x) && Denote(x) == Denote(ItemAt(v, pos))
    ensures Denote(PutAt(v, pos, x)) == Denote(v) && Distinct(PutAt(v, pos, x))
    decreases |pos|
  {
    if pos != [] {
      var i, rest := pos[0], pos[1..];
      if v.Array? {
        PutSameMeaning(v.items[i], rest, x);
        assert DenoteItems(v.items[i := PutAt(v.items[i], rest, x)]) == DenoteItems(v.items);
      } else {
        var m := v.members[i];
        PutSameMeaning(m.value, rest, x);
        DenoteUpdate(v.members, i, PutAt(m.value, rest, x));
        DenoteAt(v.members, i);
      }
    }
  }

  /** A test succeeds exactly when the path leads somewhere and what is there equals the value, objects
      read as maps; otherwise the status is 1. It may put members in another order, but the document
      goes on denoting the same data. */
  lemma TestIsEquality(root: Value, patch: Value, path: cstring, value: Value)
    requires Asks(patch, "test", path) && Says(patch, "value", value) && Distinct(root) && Distinct(value)
    ensures var r := ApplyPatch(Live(root), patch, true);
      && r.Done? && r.doc.Live? && Denote(r.doc.root) == Denote(root) && Distinct(r.doc.root)
      && r.status == match Locate(root, path, 0, true)
                     case None => 1
                     case Some(pos) => if Denote(ItemAt(root, pos)) == Denote(value) then 0 else 1
  {
    hide Locate, ItemAt, PutAt, Distinct, Denote, Compare.CompareJson, Compare.Arrange, Field, DecodeOperation, Asks,
         Says;
    Asked(patch, "test", path);
    SaysValue(patch, value);
    var found := Locate(root, path, 0, true);
    if found.Some? {
      var item := ItemAt(root, found.value);
      DistinctBelow(root, found.value);
      Compare.CompareJsonExact(item, value);
      Compare.ArrangeKeeps(item, value, true);
      PutSameMeaning(root, found.value, Compare.Arrange(item, value, true));
    }
  }

  /** As section 4.6 of RFC 6902 has it, a test leaves the data and answers whether the value is what the
      path leads to. */
  lemma TestIsRfc(root: Value, patch: Value, tokens: R.Tokens, x: Value)
    requires Asks(patch, "test", Rendered(tokens)) && Says(patch, "value", x)
    requires Distinct(root) && Distinct(x) && OrderlyAlong(Denote(root), tokens)
    ensures var r := ApplyPatch(Live(root), patch, true);
      && r.Done? && r.status == (if R.Test(Denote(root), tokens, Denote(x)) then 0 else 1)
      && r.doc.Live? && Distinct(r.doc.root) && Denote(r.doc.root) == Denote(root)
  {
    hide R.Get, Locate, ItemAt, Rendered, Denote, Distinct, OrderlyAlong, ApplyPatch, Asks, Says;
    Front(root, tokens);
    TestIsEquality(root, patch, Rendered(tokens), x);
  }

  // ----- Two keys that differ in case only -----

  /** For any two keys that differ in case only, taking the second away removes the first: the status
      is 0 and, as `RemoveIsRfc` has it, the result is wrong. */
  lemma CollisionRemovesTheOther(a: cstring, b: cstring)
    requires a != b && Lower(a) == Lower(b) && Survives(b)
    ensures var doc, to := Object([Member(a, Null), Member(b, Null)]), Object([Member(a, Null)]);
      var result := Object([Member(b, Null)]);
      && ApplyFrom(Live(doc), GeneratePatches(doc, to, true), 0, true) == Done(Live(result), 0)
      && Denote(result) != Denote(to)
  {
    var members := [Member(a, Null), Member(b, Null)];
    var doc, to, result := Object(members), Object([Member(a, Null)]), Object([Member(b, Null)]);
    var patch := Compose(REMOVE, Extend([], b), None);
    DiffLimits.CollisionPatch(a, b);
    DiffLimits.RemovedFromRoot(members, b);
    FirstOfTwo(a, b);
    hide Denote, Encode, DecodeInPlace, GeneratePatches, ApplyPatch, FindKey, Compose,
         Asks, Ascii, Meets, Addable, Hits, R.Remove, Distinct;
    assert RemoveAt(members, 0) == [Member(b, Null)];
    AppliedOne(Live(doc), patch);
    OneToken(b);
    Spelling();
    ComposedAsks("remove", REMOVE, Extend([], b), None);
    RemoveIsRfc(doc, patch, [b]);
  }

  /** A composed patch asks for what it was composed of. */
  lemma ComposedAsks(name: string, op: cstring, path: cstring, value: Option<Value>)
    requires op == Ascii(name)
    ensures Asks(Compose(op, path, value), name, path)
    ensures value.Some? ==> Says(Compose(op, path, value), "value", value.value)
  {
    Spelling();
    hide Ascii;
    var patch := Compose(op, path, value);
    var members := patch.members;
    assert members[0].key == OP && members[1].key == PATH && (value.Some? ==> members[2].key == VALUE);
    assert OP[0] != PATH[0] && OP[0] != VALUE[0] && PATH[0] != VALUE[0];
    assert Named(patch, "op", 0, true) && Named(patch, "path", 1, true);
    assert Says(patch, "op", String(op)) && Says(patch, "path", String(path));
    if value.Some? { assert Named(patch, "value", 2, true); }
  }

  lemma AppliedOne(doc: Document, patch: Value)
    ensures ApplyFrom(doc, [patch], 0, true) == ApplyPatch(doc, patch, true)
  {
    hide ApplyPatch;
    var r := ApplyPatch(doc, patch, true);
    if r.Done? && r.status == 0 { assert ApplyFrom(r.doc, [patch], 1, true) == Done(r.doc, 0); }
  }

  lemma OneToken(b: cstring)
    ensures Rendered([b]) == Extend([], b) && R.Init([b]) == [] && R.Last([b]) == b && Rendered([]) == []
  {
  }

  lemma FirstOfTwo(a: cstring, b: cstring)
    requires a != b && Lower(a) == Lower(b) && Survives(b)
    ensures var doc := Object([Member(a, Null), Member(b, Null)]);
      && FindKey(doc.members, 0, b, false) == Some(0) && Distinct(doc) && Addable(Denote(doc), [b]) && !Hits(doc, [b])
      && R.Remove(Denote(doc), [b]) == Some(Denote(Object([Member(a, Null)])))
    ensures Distinct(Object([Member(b, Null)]))
  {
    var members := [Member(a, Null), Member(b, Null)];
    OneToken(b);
    assert FindKey(members, 0, b, false) == Some(0);
    assert Locate(Object(members), [], 0, true) == Some([]);
    DenoteRemove(members, 1);
    assert RemoveAt(members, 1) == [Member(a, Null)];
    DenoteAt(members, 1);
  }
}
