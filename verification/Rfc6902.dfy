/** JSON Patch as RFC 6902 defines it, on unordered data, with the tokens of a JSON Pointer (section 4
    of RFC 6901) already decoded. `None` is an error. */
module Rfc6902 {
  import opened Bytes
  import opened Json
  import opened Unordered
  import Decimal

  type Tokens = seq<cstring>

  const HYPHEN: cstring := [MINUS]

  /** An array index: digits without a leading zero. */
  function IndexOf(token: bytes): Option<nat> {
    if token != [] && Decimal.AllDigits(token) && (|token| == 1 || token[0] != 48) then Some(Decimal.ValueOf(token))
    else None
  }

  /** The value of the member or element that a token names. */
  function Child(d: Data, token: cstring): Option<Data> {
    match d
    case DObject(m) => if token in m then Some(m[token]) else None
    case DArray(items) =>
      (match IndexOf(token)
       case None => None
       case Some(i) => if i < |items| then Some(items[i]) else None)
    case _ => None
  }

  function Get(d: Data, tokens: Tokens): Option<Data>
    decreases |tokens|
  {
    if tokens == [] then Some(d)
    else
      match Child(d, tokens[0])
      case None => None
      case Some(x) => Get(x, tokens[1..])
  }

  function SetChild(d: Data, token: cstring, x: Data): Data
    requires Child(d, token).Some?
  {
    match d
    case DObject(m) => DObject(m[token := x])
    case DArray(items) => DArray(items[IndexOf(token).value := x])
  }

  /** The data with what is at an existing location replaced. */
  function Put(d: Data, tokens: Tokens, x: Data): Data
    requires Get(d, tokens).Some?
    decreases |tokens|
  {
    if tokens == [] then x else SetChild(d, tokens[0], Put(Child(d, tokens[0]).value, tokens[1..], x))
  }

  /** Section 4.1: one level of an add. */
  function Insert(parent: Data, token: cstring, x: Data): Option<Data> {
    match parent
    case DObject(m) => Some(DObject(m[token := x]))
    case DArray(items) =>
      if token == HYPHEN then Some(DArray(items + [x]))
      else
        (match IndexOf(token)
         case None => None
         case Some(i) => if i <= |items| then Some(DArray(items[..i] + [x] + items[i..])) else None)
    case _ => None
  }

  /** Section 4.2: one level of a remove. */
  function Delete(parent: Data, token: cstring): Option<Data> {
    match parent
    case DObject(m) => if token in m then Some(DObject(m - {token})) else None
    case DArray(items) =>
      (match IndexOf(token)
       case None => None
       case Some(i) => if i < |items| then Some(DArray(items[..i] + items[i + 1..])) else None)
    case _ => None
  }

  function Init(tokens: Tokens): Tokens
    requires tokens != []
  {
    tokens[..|tokens| - 1]
  }

  function Last(tokens: Tokens): cstring
    requires tokens != []
  {
    tokens[|tokens| - 1]
  }

  function Add(d: Data, tokens: Tokens, x: Data): Option<Data> {
    if tokens == [] then Some(x)
    else
      match Get(d, Init(tokens))
      case None => None
      case Some(parent) =>
        match Insert(parent, Last(tokens), x)
        case None => None
        case Some(p) => Some(Put(d, Init(tokens), p))
  }

  function Remove(d: Data, tokens: Tokens): Option<Data>
    requires tokens != []
  {
    match Get(d, Init(tokens))
    case None => None
    case Some(parent) =>
      match Delete(parent, Last(tokens))
      case None => None
      case Some(p) => Some(Put(d, Init(tokens), p))
  }

  /** Section 4.3: the target location must exist. */
  function Replace(d: Data, tokens: Tokens, x: Data): Option<Data> {
    if Get(d, tokens).Some? then Some(Put(d, tokens, x)) else None
  }

  /** Section 4.4: a remove from `from`, then an add of what was there. */
  function Move(d: Data, from: Tokens, tokens: Tokens): Option<Data>
    requires from != []
  {
    match Remove(d, from)
    case None => None
    case Some(rest) => if Get(d, from).Some? then Add(rest, tokens, Get(d, from).value) else None
  }

  /** Section 4.5. */
  function Copy(d: Data, from: Tokens, tokens: Tokens): Option<Data> {
    match Get(d, from)
    case None => None
    case Some(x) => Add(d, tokens, x)
  }

  /** Section 4.6. */
  predicate Test(d: Data, tokens: Tokens, x: Data) { Get(d, tokens) == Some(x) }

  // ----- Facts -----

  lemma {:induction false} GetMore(d: Data, tokens: Tokens)
    requires tokens != []
    ensures Get(d, tokens) == match Get(d, Init(tokens)) case None => None case Some(p) => Child(p, Last(tokens))
    decreases |tokens|
  {
    if |tokens| == 1 {
      assert Init(tokens) == [] && tokens[1..] == [];
    } else {
      var rest := tokens[1..];
      assert Init(tokens)[0] == tokens[0] && Init(tokens)[1..] == Init(rest) && Last(rest) == Last(tokens);
      match Child(d, tokens[0])
      case None =>
      case Some(x) => GetMore(x, rest);
    }
  }

  lemma {:induction false} GetPut(d: Data, tokens: Tokens, x: Data)
    requires Get(d, tokens).Some?
    ensures Get(Put(d, tokens, x), tokens) == Some(x)
    decreases |tokens|
  {
    if tokens != [] { GetPut(Child(d, tokens[0]).value, tokens[1..], x); }
  }

  lemma {:induction false} PutTwice(d: Data, tokens: Tokens, x: Data, y: Data)
    requires Get(d, tokens).Some?
    ensures Get(Put(d, tokens, x), tokens).Some? && Put(Put(d, tokens, x), tokens, y) == Put(d, tokens, y)
    decreases |tokens|
  {
    GetPut(d, tokens, x);
    if tokens != [] { PutTwice(Child(d, tokens[0]).value, tokens[1..], x, y); }
  }

  lemma {:induction false} PutMore(d: Data, tokens: Tokens, x: Data)
    requires tokens != [] && Get(d, tokens).Some?
    ensures Get(d, Init(tokens)).Some? && Child(Get(d, Init(tokens)).value, Last(tokens)).Some?
    ensures Put(d, tokens, x) == Put(d, Init(tokens), SetChild(Get(d, Init(tokens)).value, Last(tokens), x))
    decreases |tokens|
  {
    GetMore(d, tokens);
    if |tokens| == 1 {
      assert Init(tokens) == [] && tokens[1..] == [];
    } else {
      var rest := tokens[1..];
      assert Init(tokens)[0] == tokens[0] && Init(tokens)[1..] == Init(rest) && Last(rest) == Last(tokens);
      PutMore(Child(d, tokens[0]).value, rest, x);
    }
  }

  lemma DeleteInsert(parent: Data, token: cstring, x: Data)
    requires Child(parent, token).Some?
    ensures Delete(parent, token).Some?
    ensures Insert(Delete(parent, token).value, token, x) == Some(SetChild(parent, token, x))
  {
    match parent
    case DObject(m) => assert (m - {token})[token := x] == m[token := x];
    case DArray(items) =>
      var i := IndexOf(token).value;
      assert token != HYPHEN by { assert Decimal.IsDigit(token[0]); }
      var less := items[..i] + items[i + 1..];
      assert less[..i] + [x] + less[i..] == items[i := x];
  }

  /** A remove followed by an add at the same place is a replace. */
  lemma RemoveThenAdd(d: Data, tokens: Tokens, x: Data)
    requires tokens != []
    ensures Remove(d, tokens).Some? <==> Get(d, tokens).Some?
    ensures Remove(d, tokens).Some? ==> Add(Remove(d, tokens).value, tokens, x) == Replace(d, tokens, x)
  {
    GetMore(d, tokens);
    var init := Init(tokens);
    if Get(d, tokens).Some? {
      var parent := Get(d, init).value;
      DeleteInsert(parent, Last(tokens), x);
      var less := Delete(parent, Last(tokens)).value;
      GetPut(d, init, less);
      PutTwice(d, init, less, SetChild(parent, Last(tokens), x));
      PutMore(d, tokens, x);
    }
  }
}
