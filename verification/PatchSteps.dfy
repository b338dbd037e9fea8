/** What one generated operation does to a document in which its path leads somewhere. */
module PatchSteps {
  import opened Bytes
  import opened Decimal
  import opened Json
  import opened Pointer
  import opened Patch
  import opened Diff

  /** One step down a tree. */
  datatype Step = Index(i: nat) | Key(key: cstring)

  predicate Fits(s: Step) { s.Index? ==> s.i < SIZE_MOD }

  predicate AllFit(steps: seq<Step>) { forall k :: 0 <= k < |steps| ==> Fits(steps[k]) }

  function StepText(s: Step): (r: cstring)
    ensures SLASH !in r
  {
    match s
    case Index(i) => Digits(i)
    case Key(key) => Encode(key)
  }

  function Render(steps: seq<Step>): cstring {
    if steps == [] then [] else [SLASH] + (StepText(steps[0]) + Render(steps[1..]))
  }

  function StepDown(v: Value, s: Step): (r: Option<nat>)
    ensures r.Some? ==> Valid(v, [r.value])
  {
    match (v, s)
    case (Array(items), Index(i)) => if i < |items| then Some(i) else None
    case (Object(members), Key(key)) => FindKey(members, 0, key, true)
    case _ => None
  }

  /** The item that steps of the right kind lead to. */
  function Walk(v: Value, steps: seq<Step>): (r: Option<Position>)
    ensures r.Some? ==> Valid(v, r.value)
    decreases |steps|
  {
    if steps == [] then Some([])
    else
      match StepDown(v, steps[0])
      case None => None
      case Some(i) => Below(i, Walk(Child(v, i), steps[1..]))
  }

  lemma {:induction false} RenderMore(steps: seq<Step>, s: Step)
    ensures Render(steps + [s]) == Render(steps) + ([SLASH] + StepText(s))
    decreases |steps|
  {
    hide StepText;
    var more := steps + [s];
    if steps == [] {
      assert more == [s];
    } else {
      RenderMore(steps[1..], s);
      assert more[0] == steps[0] && more[1..] == steps[1..] + [s];
      var a: bytes, b: bytes, c: bytes := StepText(steps[0]), Render(steps[1..]), [SLASH] + StepText(s);
      assert [SLASH] + (a + (b + c)) == [SLASH] + (a + b) + c;
    }
  }

  lemma RenderStarts(steps: seq<Step>)
    ensures Render(steps) != [] ==> Render(steps)[0] == SLASH
  {
  }

  /** Steps that lead to an item lead there as a pointer too. */
  lemma {:induction false} WalkIsLocate(v: Value, steps: seq<Step>, ptr: cstring, p: nat)
    requires AllFit(steps) && Walk(v, steps).Some?
    requires At(ptr, p, Render(steps)) && p + |Render(steps)| == |ptr|
    ensures Locate(v, ptr, p, true) == Walk(v, steps)
    decreases |steps|
  {
    hide At, FindMember, DecodeIndex, AfterToken, TokenEnds, Encode, Digits, FindKey, UniqueKeys, Valid;
    if steps != [] {
      var s, i := steps[0], StepDown(v, steps[0]).value;
      var q := p + 1 + |StepText(s)|;
      RenderStarts(steps[1..]);
      TokenSplit(ptr, p, q, StepText(s), Render(steps[1..]));
      WalkIsLocate(Child(v, i), steps[1..], ptr, q);
      if v.Array? {
        DecodeIndexBack(ptr, p + 1, q, i);
      } else {
        FindMemberIsLookup(v.members, 0, s.key, ptr, p + 1, q, true);
      }
    }
  }

  lemma LocateRendered(v: Value, steps: seq<Step>)
    requires AllFit(steps) && Walk(v, steps).Some?
    ensures Locate(v, Render(steps), 0, true) == Walk(v, steps)
  {
    var ptr := Render(steps);
    assert ptr[0..|ptr|] == ptr;
    WalkIsLocate(v, steps, ptr, 0);
  }

  // ----- Positions -----

  lemma {:induction false} WalkMore(v: Value, steps: seq<Step>, pos: Position, s: Step, i: nat)
    requires Walk(v, steps) == Some(pos) && StepDown(ItemAt(v, pos), s) == Some(i)
    ensures Walk(v, steps + [s]) == Some(pos + [i])
    ensures Valid(v, pos + [i]) && ItemAt(v, pos + [i]) == Child(ItemAt(v, pos), i)
    decreases |steps|
  {
    hide FindKey;
    var more := steps + [s];
    if steps == [] {
      assert more[0] == s && more[1..] == [] && pos + [i] == [i] == [i] + [];
    } else {
      var k := StepDown(v, steps[0]).value;
      assert pos[0] == k && pos[1..] == Walk(Child(v, k), steps[1..]).value;
      WalkMore(Child(v, k), steps[1..], pos[1..], s, i);
      assert more[0] == steps[0] && more[1..] == steps[1..] + [s];
      assert (pos + [i])[1..] == pos[1..] + [i];
      assert [k] + (pos[1..] + [i]) == pos + [i];
    }
  }

  /** Putting something at a position: what is found there, and that the way there is unchanged. */
  lemma {:induction false} PutAtFacts(v: Value, steps: seq<Step>, pos: Position, x: Value)
    requires Walk(v, steps) == Some(pos)
    ensures Walk(PutAt(v, pos, x), steps) == Some(pos) && ItemAt(PutAt(v, pos, x), pos) == x
    decreases |steps|
  {
    if steps != [] {
      var k := StepDown(v, steps[0]).value;
      assert pos[0] == k && pos[1..] == Walk(Child(v, k), steps[1..]).value;
      PutAtFacts(Child(v, k), steps[1..], pos[1..], x);
      var v' := PutAt(v, pos, x);
      assert StepDown(v', steps[0]) == Some(k) by {
        if v.Object? { FindKeyKeys(v.members, v'.members, 0, steps[0].key, true); }
      }
      assert Child(v', k) == PutAt(Child(v, k), pos[1..], x);
    }
  }

  /** Lookups depend on the keys only. */
  lemma {:induction false} FindKeyKeys(a: seq<Member>, b: seq<Member>, j: nat, name: bytes, caseSensitive: bool)
    requires |a| == |b| && j <= |a| && forall k :: 0 <= k < |a| ==> a[k].key == b[k].key
    ensures FindKey(a, j, name, caseSensitive) == FindKey(b, j, name, caseSensitive)
    decreases |a| - j
  {
    if j < |a| { FindKeyKeys(a, b, j + 1, name, caseSensitive); }
  }

  lemma {:induction false} PutAtTwice(v: Value, pos: Position, x: Value, y: Value)
    requires Valid(v, pos)
    ensures Valid(PutAt(v, pos, x), pos) && PutAt(PutAt(v, pos, x), pos, y) == PutAt(v, pos, y)
    decreases |pos|
  {
    if pos != [] { PutAtTwice(Child(v, pos[0]), pos[1..], x, y); }
  }

  lemma {:induction false} PutAtSame(v: Value, pos: Position)
    requires Valid(v, pos)
    ensures PutAt(v, pos, ItemAt(v, pos)) == v
    decreases |pos|
  {
    if pos != [] { PutAtSame(Child(v, pos[0]), pos[1..]); }
  }

  lemma {:induction false} PutAtChild(v: Value, pos: Position, i: nat, x: Value)
    requires Valid(v, pos) && Valid(ItemAt(v, pos), [i])
    ensures Valid(v, pos + [i]) && PutAt(v, pos + [i], x) == PutAt(v, pos, PutAt(ItemAt(v, pos), [i], x))
    decreases |pos|
  {
    if pos == [] {
      assert pos + [i] == [i];
    } else {
      PutAtChild(Child(v, pos[0]), pos[1..], i, x);
      assert (pos + [i])[1..] == pos[1..] + [i];
    }
  }

  // ----- Paths -----

  /** The key comes through the encoding and the in-place decoding unharmed. */
  predicate Survives(key: cstring) { DecodeInPlace(Encode(key)) == key }

  lemma {:induction false} LastSlashBack(path: bytes, n: nat, k: nat)
    requires k < n <= |path| && path[k] == SLASH && forall x :: k < x < n ==> path[x] != SLASH
    ensures LastSlash(path, n) == Some(k)
    decreases n
  {
    if k < n - 1 { LastSlashBack(path, n - 1, k); }
  }

  lemma NoSlash(token: cstring)
    ensures SLASH !in Encode(token)
  {
  }

  lemma PathSplit(path: bytes, token: bytes, full: bytes)
    requires SLASH !in token && full == path + ([SLASH] + token)
    ensures LastSlash(full, |full|) == Some(|path|)
    ensures full[..|path|] == path && full[|path| + 1..] == token
  {
    assert forall x :: |path| < x < |full| ==> full[x] == token[x - |path| - 1];
    LastSlashBack(full, |full|, |path|);
  }

  lemma {:induction false} DecodePlain(b: cstring, r: nat)
    requires r <= |b| && TILDE !in b
    ensures DecodeLoop(b, r, r) == b
    decreases |b| - r
  {
    if r < |b| { DecodePlain(b, r + 1); }
  }

  lemma {:induction false} EncodePlain(key: cstring, i: nat)
    requires i <= |key| && TILDE !in key && SLASH !in key
    ensures EncodeFrom(key, i) == key[i..]
    decreases |key| - i
  {
    if i < |key| {
      EncodePlain(key, i + 1);
      assert key[i..] == [key[i]] + key[i + 1..];
    }
  }

  /** Keys without `~` and `/` survive. */
  lemma PlainSurvives(key: cstring)
    requires TILDE !in key && SLASH !in key
    ensures Encode(key) == key && Survives(key)
  {
    EncodePlain(key, 0);
    assert key[0..] == key;
    DecodePlain(key, 0);
  }

  lemma StepSurvives(s: Step)
    requires s.Key? ==> Survives(s.key)
    ensures DecodeInPlace(StepText(s)) == match s { case Index(i) => Digits(i) case Key(key) => key }
    ensures s.Index? ==> Encode(Digits(s.i)) == Digits(s.i)
  {
    if s.Index? { PlainSurvives(Digits(s.i)); }
  }

  // ----- Operations -----

  lemma ComposedFields(op: cstring, path: cstring, value: Option<Value>)
    ensures Field(Compose(op, path, value), OP, true) == Some(String(op))
    ensures Field(Compose(op, path, value), PATH, true) == Some(String(path))
    ensures Field(Compose(op, path, value), VALUE, true) == value
  {
    var members := Compose(op, path, value).members;
    assert members[0].key == OP && members[1].key == PATH;
    assert OP[0] != PATH[0] && OP[0] != VALUE[0] && PATH[0] != VALUE[0];
    assert FindKey(members, 0, OP, true) == Some(0);
    assert FindKey(members, 0, PATH, true) == FindKey(members, 1, PATH, true) == Some(1);
    assert FindKey(members, 0, VALUE, true) == FindKey(members, 1, VALUE, true) == FindKey(members, 2, VALUE, true);
    if value.Some? {
      assert members[2].key == VALUE;
      assert FindKey(members, 2, VALUE, true) == Some(2);
    } else {
      assert |members| == 2;
    }
  }

  lemma ComposedOperation(op: cstring, path: cstring, value: Option<Value>)
    ensures op == ADD ==> DecodeOperation(Compose(op, path, value), true) == Add
    ensures op == REMOVE ==> DecodeOperation(Compose(op, path, value), true) == Remove
    ensures op == REPLACE ==> DecodeOperation(Compose(op, path, value), true) == Replace
  {
    ComposedFields(op, path, value);
    assert REMOVE[2] != REPLACE[2] && ADD[0] != REMOVE[0] && ADD[0] != REPLACE[0];
  }

  /** A composed operation, decoded. */
  lemma ComposedPatch(doc: Document, op: cstring, path: cstring, value: Option<Value>)
    requires path != []
    ensures op == ADD ==> ApplyPatch(doc, Compose(op, path, value), true) == AddStep(doc, path, value, 7, true)
    ensures op == REMOVE ==> ApplyPatch(doc, Compose(op, path, value), true) == RemoveStep(doc, path, true)
    ensures op == REPLACE && RemoveStep(doc, path, true).Done? && RemoveStep(doc, path, true).status == 0 ==>
              ApplyPatch(doc, Compose(op, path, value), true)
              == AddStep(RemoveStep(doc, path, true).doc, path, value, 7, true)
  {
    ComposedFields(op, path, value);
    ComposedOperation(op, path, value);
  }

  lemma RootReplaced(doc: Document, value: Value)
    ensures ApplyPatch(doc, Compose(REPLACE, [], Some(value)), true) == Done(Live(value), 0)
  {
    ComposedFields(REPLACE, [], Some(value));
    ComposedOperation(REPLACE, [], Some(value));
  }

  lemma WholeIndex(i: nat)
    requires i < SIZE_MOD
    ensures DecodeIndex(Digits(i), 0) == Some(i)
  {
    var digits := Digits(i);
    assert digits[0..|digits|] == digits;
    DecodeIndexBack(digits, 0, |digits|, i);
  }

  /** A path one step below an item the other steps lead to. */
  ghost predicate PathBelow(root: Value, steps: seq<Step>, pos: Position, s: Step, path: cstring) {
    && AllFit(steps) && Fits(s) && (s.Key? ==> Survives(s.key))
    && Walk(root, steps) == Some(pos) && path == Render(steps) + ([SLASH] + StepText(s))
  }

  lemma PathBelowFacts(root: Value, steps: seq<Step>, pos: Position, s: Step, path: cstring)
    requires PathBelow(root, steps, pos, s, path)
    ensures path != [] && Valid(root, pos)
  {
  }

  lemma Resolved(root: Value, steps: seq<Step>, pos: Position, s: Step, path: cstring)
    returns (k: nat, parent: cstring, token: cstring)
    requires PathBelow(root, steps, pos, s, path)
    ensures k < |path| && LastSlash(path, |path|) == Some(k) && parent == path[..k] && token == path[k + 1..]
    ensures Locate(root, parent, 0, true) == Some(pos)
    ensures DecodeInPlace(token) == match s { case Index(i) => Digits(i) case Key(key) => key }
  {
    hide Locate, Walk, Encode, Digits, DecodeInPlace, LastSlash, Render;
    k, parent, token := |Render(steps)|, Render(steps), StepText(s);
    PathSplit(parent, token, path);
    LocateRendered(root, steps);
    StepSurvives(s);
  }

  lemma DetachIndex(root: Value, steps: seq<Step>, pos: Position, i: nat, path: cstring)
    requires PathBelow(root, steps, pos, Index(i), path) && ItemAt(root, pos).Array? && i < |ItemAt(root, pos).items|
    ensures DetachPath(root, path, true)
      == Some(Detached(PutAt(root, pos, Array(RemoveAt(ItemAt(root, pos).items, i))), ItemAt(root, pos).items[i]))
  {
    hide Locate, DecodeIndex, LastSlash, DecodeInPlace, DecodeLoop, Digits, PutAt;
    var k, parent, token := Resolved(root, steps, pos, Index(i), path);
    WholeIndex(i);
  }

  lemma DetachKey(root: Value, steps: seq<Step>, pos: Position, key: cstring, path: cstring, x: nat)
    requires PathBelow(root, steps, pos, Key(key), path) && ItemAt(root, pos).Object?
    requires FindKey(ItemAt(root, pos).members, 0, key, false) == Some(x)
    ensures DetachPath(root, path, true)
      == Some(Detached(PutAt(root, pos, Object(RemoveAt(ItemAt(root, pos).members, x))),
                       ItemAt(root, pos).members[x].value))
  {
    hide PathBelow, Locate, DecodeIndex, LastSlash, DecodeInPlace, DecodeLoop, Digits, PutAt;
    var k, parent, token := Resolved(root, steps, pos, Key(key), path);
  }

  lemma AddIndex(root: Value, steps: seq<Step>, pos: Position, i: nat, path: cstring, value: Value)
    requires PathBelow(root, steps, pos, Index(i), path) && ItemAt(root, pos).Array? && i <= |ItemAt(root, pos).items|
    ensures AddAt(root, path, value, true)
      == Done(Live(PutAt(root, pos, Array(ItemAt(root, pos).items[..i] + [value] + ItemAt(root, pos).items[i..]))), 0)
  {
    hide Locate, DecodeIndex, LastSlash, DecodeInPlace, DecodeLoop, Digits, PutAt;
    var k, parent, token := Resolved(root, steps, pos, Index(i), path);
    WholeIndex(i);
    assert IsDigit(Digits(i)[0]);
  }

  lemma AddLast(root: Value, steps: seq<Step>, pos: Position, path: cstring, value: Value)
    requires PathBelow(root, steps, pos, Key([MINUS]), path) && ItemAt(root, pos).Array?
    ensures AddAt(root, path, value, true) == Done(Live(PutAt(root, pos, Array(ItemAt(root, pos).items + [value]))), 0)
  {
    hide PathBelow, Locate, DecodeIndex, LastSlash, DecodeInPlace, DecodeLoop, Digits, PutAt;
    var k, parent, token := Resolved(root, steps, pos, Key([MINUS]), path);
  }

  lemma AddKey(root: Value, steps: seq<Step>, pos: Position, key: cstring, path: cstring, value: Value)
    requires PathBelow(root, steps, pos, Key(key), path) && ItemAt(root, pos).Object?
    ensures AddAt(root, path, value, true)
      == Done(Live(PutAt(root, pos, Object(DeleteKey(ItemAt(root, pos).members, key, true) + [Member(key, value)]))), 0)
  {
    hide PathBelow, Locate, DecodeIndex, LastSlash, DecodeInPlace, DecodeLoop, Digits, PutAt;
    var k, parent, token := Resolved(root, steps, pos, Key(key), path);
  }
}
