/** Pointers and patches that ignore case, against the case-sensitive forms on folded trees and paths. */
module FoldedPatch {
  import opened Bytes
  import opened Decimal
  import opened Json
  import opened Unordered
  import opened Sorting
  import opened Compare
  import opened Pointer
  import opened Patch
  import opened Diff
  import opened Folding
  import DiffApply

  // ----- Paths -----

  lemma LowerBytes(s: bytes, i: nat)
    requires i < |s|
    ensures Lower(s)[i] == SLASH <==> s[i] == SLASH
    ensures Lower(s)[i] == TILDE <==> s[i] == TILDE
    ensures IsDigit(s[i]) || IsDigit(Lower(s)[i]) ==> Lower(s)[i] == s[i]
    ensures s[i] == MINUS <==> Lower(s)[i] == MINUS
  {
  }

  lemma LowerSlice(s: bytes, i: nat, j: nat)
    requires i <= j <= |s|
    ensures Lower(s[i..j]) == Lower(s)[i..j]
  {
  }

  lemma LowerConcat(s: bytes, t: bytes)
    ensures Lower(s + t) == Lower(s) + Lower(t)
  {
  }

  predicate HasCapital(s: bytes) { exists i :: 0 <= i < |s| && 'A' as int <= s[i] as int <= 'Z' as int }

  lemma NoCapital(s: bytes)
    requires !HasCapital(s)
    ensures Lower(s) == s
  {
  }

  /** Folding does not change a token that is read as an index. */
  predicate PlainToken(token: bytes) { token != [] && IsDigit(token[0]) ==> !HasCapital(token) }

  predicate PlainPath(path: bytes) {
    forall p :: 0 <= p < |path| && path[p] == SLASH ==> PlainToken(path[p + 1..AfterToken(path, p + 1)])
  }

  lemma {:induction false} AfterTokenFold(ptr: bytes, p: nat)
    requires p <= |ptr|
    ensures AfterToken(Lower(ptr), p) == AfterToken(ptr, p)
    decreases |ptr| - p
  {
    if !TokenEnds(ptr, p) {
      LowerBytes(ptr, p);
      AfterTokenFold(ptr, p + 1);
    }
  }

  /** Only the token itself matters to its index. */
  lemma {:induction false} IndexLocal(a: bytes, b: bytes, start: nat, p: nat, q: nat, index: nat)
    requires start <= p <= q <= |a| == |b| && start < q && TokenEnds(a, q) && TokenEnds(b, q)
    requires forall k :: start <= k < q ==> a[k] == b[k] && a[k] != SLASH
    ensures IndexFrom(a, start, p, index) == IndexFrom(b, start, p, index)
    decreases q - p
  {
    if p < q { IndexLocal(a, b, start, p + 1, q, (10 * index + (a[p] as int - 48)) % SIZE_MOD); }
  }

  lemma IndexFold(ptr: bytes, p: nat)
    requires p <= |ptr| && PlainToken(ptr[p..AfterToken(ptr, p)])
    ensures DecodeIndex(Lower(ptr), p) == DecodeIndex(ptr, p)
  {
    var q := AfterToken(ptr, p);
    AfterTokenFold(ptr, p);
    if p < q {
      LowerBytes(ptr, p);
      if q < |ptr| { LowerBytes(ptr, q); }
      if p + 1 < |ptr| { LowerBytes(ptr, p + 1); }
      if IsDigit(ptr[p]) {
        assert ptr[p..q][0] == ptr[p];
        NoCapital(ptr[p..q]);
        LowerSlice(ptr, p, q);
        forall k | p <= k < q ensures Lower(ptr)[k] == ptr[k] { assert Lower(ptr[p..q])[k - p] == ptr[p..q][k - p]; }
        IndexLocal(ptr, Lower(ptr), p, p, q, 0);
      }
    }
  }

  lemma {:induction false} MatchesFold(name: cstring, i: nat, ptr: cstring, p: nat)
    requires i <= |name| && p <= |ptr|
    ensures Matches(LowerKey(name), i, LowerKey(ptr), p, true) == Matches(name, i, ptr, p, false)
    decreases |name| - i
  {
    if p < |ptr| { LowerBytes(ptr, p); }
    if p + 1 < |ptr| { LowerBytes(ptr, p + 1); }
    if i < |name| { LowerBytes(name, i); }
    if i < |name| && !TokenEnds(ptr, p) {
      MatchesFold(name, i + 1, ptr, p + 1);
      if p + 2 <= |ptr| { MatchesFold(name, i + 1, ptr, p + 2); }
    }
  }

  lemma {:induction false} FindMemberFold(members: seq<Member>, j: nat, ptr: cstring, p: nat)
    requires j <= |members| && p <= |ptr|
    ensures FindMember(FoldMembers(members), j, LowerKey(ptr), p, true) == FindMember(members, j, ptr, p, false)
    decreases |members| - j
  {
    hide Matches;
    if j < |members| {
      MatchesFold(members[j].key, 0, ptr, p);
      FindMemberFold(members, j + 1, ptr, p);
    }
  }

  /** A pointer that ignores case leads where the folded pointer leads in the folded tree. */
  lemma {:induction false} LocateFold(v: Value, ptr: cstring, p: nat)
    requires p <= |ptr| && PlainPath(ptr)
    ensures Locate(Fold(v), LowerKey(ptr), p, true) == Locate(v, ptr, p, false)
    decreases v
  {
    hide FindMember, DecodeIndex, AfterToken, FoldMembers, FoldItems;
    if p < |ptr| {
      LowerBytes(ptr, p);
      if ptr[p] == SLASH {
        AfterTokenFold(ptr, p + 1);
        IndexFold(ptr, p + 1);
        match v
        case Array(items) =>
          var index := DecodeIndex(ptr, p + 1);
          if index.Some? && index.value < |items| { LocateFold(items[index.value], ptr, AfterToken(ptr, p + 1)); }
        case Object(members) =>
          FindMemberFold(members, 0, ptr, p + 1);
          var found := FindMember(members, 0, ptr, p + 1, false);
          if found.Some? { LocateFold(members[found.value].value, ptr, AfterToken(ptr, p + 1)); }
        case _ =>
      }
    }
  }

  // ----- Places in a tree -----

  lemma {:induction false} ItemAtFold(v: Value, pos: Position)
    requires Valid(v, pos)
    ensures Valid(Fold(v), pos) && ItemAt(Fold(v), pos) == Fold(ItemAt(v, pos))
    decreases |pos|
  {
    if pos != [] { ItemAtFold(Child(v, pos[0]), pos[1..]); }
  }

  lemma {:induction false} PutAtFold(v: Value, pos: Position, x: Value)
    requires Valid(v, pos)
    ensures Valid(Fold(v), pos) && Fold(PutAt(v, pos, x)) == PutAt(Fold(v), pos, Fold(x))
    decreases |pos|
  {
    if pos != [] {
      ItemAtFold(v, pos);
      PutAtFold(Child(v, pos[0]), pos[1..], x);
      if v.Array? {
        FoldPutItem(v.items, pos[0], PutAt(v.items[pos[0]], pos[1..], x));
      } else {
        var m := v.members[pos[0]];
        FoldPutMember(v.members, pos[0], Member(m.key, PutAt(m.value, pos[1..], x)));
      }
    }
  }

  lemma FoldPutItem(items: seq<Value>, i: nat, x: Value)
    requires i < |items|
    ensures FoldItems(items[i := x]) == FoldItems(items)[i := Fold(x)]
  {
  }

  lemma FoldPutMember(members: seq<Member>, i: nat, m: Member)
    requires i < |members|
    ensures FoldMembers(members[i := m]) == FoldMembers(members)[i := Member(LowerKey(m.key), Fold(m.value))]
  {
  }

  // ----- The last token -----

  lemma {:induction false} LastSlashFold(path: bytes, n: nat)
    requires n <= |path|
    ensures LastSlash(Lower(path), n) == LastSlash(path, n)
  {
    if n > 0 {
      LowerBytes(path, n - 1);
      LastSlashFold(path, n - 1);
    }
  }

  lemma {:induction false} DecodeFold(b: cstring, r: nat, w: nat)
    requires w <= r <= |b|
    ensures Lower(DecodeLoop(b, r, w)) == DecodeLoop(LowerKey(b), r, w)
    decreases |b| - r
  {
    if r < |b| {
      LowerBytes(b, r);
      if r + 1 < |b| { LowerBytes(b, r + 1); }
      if b[r] != TILDE {
        DecodeFold(b, r + 1, w + 1);
      } else if r + 1 < |b| && b[r + 1] == ZERO {
        assert LowerKey(b)[w := TILDE] == Lower(b[w := TILDE]);
        DecodeFold(b[w := TILDE], r + 2, w + 1);
      } else if r + 1 < |b| && b[r + 1] == ONE {
        assert LowerKey(b)[w + 1 := SLASH] == Lower(b[w + 1 := SLASH]);
        DecodeFold(b[w + 1 := SLASH], r + 2, w + 1);
      }
    } else {
      LowerSlice(b, 0, w);
    }
  }

  /** Decoding keeps the first byte and brings in no capital. */
  lemma {:induction false} DecodeKeeps(b: bytes, r: nat, w: nat)
    requires w <= r <= |b| && 0 !in b && (w == 0 ==> r == 0)
    ensures w > 0 || b != [] ==> DecodeLoop(b, r, w) != [] && DecodeLoop(b, r, w)[0] == b[0]
    ensures !HasCapital(b) ==> !HasCapital(DecodeLoop(b, r, w))
    decreases |b| - r
  {
    if r < |b| {
      if b[r] != TILDE {
        DecodeKeeps(b, r + 1, w + 1);
      } else if r + 1 < |b| && b[r + 1] == ZERO {
        DecodeKeeps(b[w := TILDE], r + 2, w + 1);
      } else if r + 1 < |b| && b[r + 1] == ONE {
        DecodeKeeps(b[w + 1 := SLASH], r + 2, w + 1);
      }
    }
  }

  /** The parent's path and the decoded last token of a path that is plain. */
  lemma LastTokenFold(path: cstring)
    requires PlainPath(path) && LastSlash(path, |path|).Some?
    ensures LastSlash(LowerKey(path), |path|) == LastSlash(path, |path|)
    ensures var k := LastSlash(path, |path|).value;
      && PlainPath(path[..k]) && LowerKey(path)[..k] == LowerKey(path[..k])
      && DecodeInPlace(LowerKey(path)[k + 1..]) == Lower(DecodeInPlace(path[k + 1..]))
      && DecodeIndex(Lower(DecodeInPlace(path[k + 1..])), 0) == DecodeIndex(DecodeInPlace(path[k + 1..]), 0)
  {
    hide PlainPath, DecodeInPlace, LastSlash, DecodeIndex, Lower, PlainToken;
    var k := LastSlash(path, |path|).value;
    LastSlashFold(path, |path|);
    LowerSlice(path, 0, k);
    LowerSlice(path, k + 1, |path|);
    assert path[k + 1..|path|] == path[k + 1..] && path[0..k] == path[..k];
    assert LowerKey(path)[k + 1..|path|] == LowerKey(path)[k + 1..] && LowerKey(path)[0..k] == LowerKey(path)[..k];
    PlainFront(path, k);
    PlainLast(path, k);
    ChildFold(path[k + 1..]);
  }

  lemma ChildFold(token: cstring)
    requires PlainToken(token)
    ensures DecodeInPlace(LowerKey(token)) == Lower(DecodeInPlace(token))
    ensures DecodeIndex(Lower(DecodeInPlace(token)), 0) == DecodeIndex(DecodeInPlace(token), 0)
  {
    hide DecodeLoop, DecodeIndex, Lower, AfterToken;
    DecodeFold(token, 0, 0);
    DecodeKeeps(token, 0, 0);
    var child := DecodeInPlace(token);
    if token == [] { NothingDecoded(); }
    PlainStart(child);
    IndexFold(child, 0);
  }

  lemma NothingDecoded()
    ensures DecodeLoop([], 0, 0) == []
  {
  }

  /** The first token of a plain text is plain. */
  lemma PlainStart(s: bytes)
    requires PlainToken(s)
    ensures PlainToken(s[0..AfterToken(s, 0)])
  {
  }

  lemma {:induction false} TokenLocal(path: bytes, k: nat, p: nat)
    requires p <= k < |path| && path[k] == SLASH
    ensures AfterToken(path[..k], p) == AfterToken(path, p)
    decreases k - p
  {
    if p < k { TokenLocal(path, k, p + 1); }
  }

  lemma FrontSlice(s: bytes, k: nat, i: nat, j: nat)
    requires i <= j <= k <= |s|
    ensures s[..k][i..j] == s[i..j]
  {
  }

  lemma PlainFront(path: bytes, k: nat)
    requires PlainPath(path) && k < |path| && path[k] == SLASH
    ensures PlainPath(path[..k])
  {
    hide PlainToken, AfterToken;
    forall p | 0 <= p < k && path[..k][p] == SLASH ensures PlainToken(path[..k][p + 1..AfterToken(path[..k], p + 1)]) {
      TokenLocal(path, k, p + 1);
      var q := AfterToken(path, p + 1);
      assert path[p] == SLASH && PlainToken(path[p + 1..q]);
      FrontSlice(path, k, p + 1, q);
    }
  }

  lemma PlainLast(path: bytes, k: nat)
    requires PlainPath(path) && k < |path| && path[k] == SLASH && forall i :: k < i < |path| ==> path[i] != SLASH
    ensures PlainToken(path[k + 1..])
  {
    AfterTokenBack(path, k + 1, |path|);
    assert path[k + 1..|path|] == path[k + 1..];
  }

  // ----- Patches -----

  function FoldDocument(doc: Document): Document { if doc.Live? then Live(Fold(doc.root)) else doc }

  function FoldOutcome(r: Outcome): Outcome { if r.Done? then Done(FoldDocument(r.doc), r.status) else r }

  function FoldDetached(d: Option<Detached>): Option<Detached> {
    if d.Some? then Some(Detached(Fold(d.value.root), Fold(d.value.item))) else None
  }

  /** A patch with its names, its paths and the keys in its value in lower case. */
  function FoldPatch(patch: Value): Value {
    if patch.Object? then Object(FoldFields(patch.members)) else patch
  }

  function FoldFields(members: seq<Member>): (r: seq<Member>)
    ensures |r| == |members| && forall i :: 0 <= i < |members| ==> r[i] == FoldField(members[i])
  {
    seq(|members|, i requires 0 <= i < |members| => FoldField(members[i]))
  }

  function FoldField(m: Member): Member {
    var key := LowerKey(m.key);
    Member(key, if (key == PATH || key == FROM) && m.value.String? then String(LowerKey(m.value.s)) else Fold(m.value))
  }

  lemma {:induction false} FieldFold(members: seq<Member>, j: nat, name: cstring)
    requires j <= |members| && Lower(name) == name
    ensures FindKey(FoldFields(members), j, name, true) == FindKey(members, j, name, false)
    decreases |members| - j
  {
    if j < |members| { FieldFold(members, j + 1, name); }
  }

  lemma LowerNames()
    ensures Lower(OP) == OP && Lower(PATH) == PATH && Lower(VALUE) == VALUE && Lower(FROM) == FROM
    ensures OP != PATH && OP != FROM && VALUE != PATH && VALUE != FROM
  {
    assert |OP| == 2 && |PATH| == 4 && |VALUE| == 5 && |FROM| == 4;
  }

  lemma FieldsFold(patch: Value)
    ensures Field(FoldPatch(patch), OP, true) == FoldOption(Field(patch, OP, false))
    ensures Field(FoldPatch(patch), VALUE, true) == FoldOption(Field(patch, VALUE, false))
    ensures forall name :: name == PATH || name == FROM ==>
      var was, now := Field(patch, name, false), Field(FoldPatch(patch), name, true);
      if was.Some? && was.value.String? then now == Some(String(LowerKey(was.value.s))) else now == FoldOption(was)
  {
    LowerNames();
    if patch.Object? {
      FieldFold(patch.members, 0, OP);
      FieldFold(patch.members, 0, VALUE);
      FieldFold(patch.members, 0, PATH);
      FieldFold(patch.members, 0, FROM);
      hide Lower;
    }
  }

  lemma DetachFold(root: Value, path: cstring)
    requires PlainPath(path)
    ensures FoldDetached(DetachPath(root, path, false)) == DetachPath(Fold(root), LowerKey(path), true)
  {
    hide Locate, ItemAt, PutAt, Valid, DecodeInPlace, DecodeIndex, LastSlash, PlainPath, FindKey, Lower;
    LastSlashFold(path, |path|);
    var slash := LastSlash(path, |path|);
    if slash.Some? {
      var k := slash.value;
      LastTokenFold(path);
      LocateFold(root, path[..k], 0);
      var found := Locate(root, path[..k], 0, false);
      if found.Some? {
        ItemAtFold(root, found.value);
        DetachHere(root, found.value, DecodeInPlace(path[k + 1..]));
      }
    }
  }

  /** One level of a detachment. */
  lemma DetachHere(root: Value, pos: Position, child: cstring)
    requires Valid(root, pos)
    ensures Valid(Fold(root), pos)
    ensures forall i :: ItemAt(root, pos).Array? && 0 <= i < |ItemAt(root, pos).items| ==>
      Fold(PutAt(root, pos, Array(RemoveAt(ItemAt(root, pos).items, i))))
      == PutAt(Fold(root), pos, Array(RemoveAt(FoldItems(ItemAt(root, pos).items), i)))
    ensures ItemAt(root, pos).Object? ==>
      var members := ItemAt(root, pos).members;
      && FindKey(FoldMembers(members), 0, Lower(child), false) == FindKey(members, 0, child, false)
      && forall j :: 0 <= j < |members| ==>
           Fold(PutAt(root, pos, Object(RemoveAt(members, j))))
           == PutAt(Fold(root), pos, Object(RemoveAt(FoldMembers(members), j)))
  {
    hide PutAt, FindKey, Lower, RemoveAt;
    ItemAtFold(root, pos);
    hide ItemAt;
    match ItemAt(root, pos)
    case Array(items) =>
      forall i | 0 <= i < |items|
        ensures Fold(PutAt(root, pos, Array(RemoveAt(items, i))))
          == PutAt(Fold(root), pos, Array(RemoveAt(FoldItems(items), i)))
      {
        PutAtFold(root, pos, Array(RemoveAt(items, i)));
        FoldRemoveItem(items, i);
      }
    case Object(members) =>
      FindBlind(members, 0, child);
      forall j | 0 <= j < |members|
        ensures Fold(PutAt(root, pos, Object(RemoveAt(members, j))))
          == PutAt(Fold(root), pos, Object(RemoveAt(FoldMembers(members), j)))
      {
        PutAtFold(root, pos, Object(RemoveAt(members, j)));
        FoldRemove(members, j);
      }
    case _ =>
  }

  lemma FoldRemoveItem(items: seq<Value>, i: nat)
    requires i < |items|
    ensures FoldItems(RemoveAt(items, i)) == RemoveAt(FoldItems(items), i)
  {
  }

  lemma {:induction false} FindBlind(members: seq<Member>, j: nat, name: bytes)
    requires j <= |members|
    ensures FindKey(FoldMembers(members), j, Lower(name), false) == FindKey(members, j, name, false)
    decreases |members| - j
  {
    LowerTwice(name);
    if j < |members| {
      LowerTwice(members[j].key);
      FindBlind(members, j + 1, name);
    }
  }

  /** The last part of an add, at the parent. */
  function AddChild(root: Value, pos: Position, child: cstring, value: Value, caseSensitive: bool): Outcome
    requires Valid(root, pos)
  {
    match ItemAt(root, pos)
    case Array(items) =>
      if child == [MINUS] then Done(Live(PutAt(root, pos, Array(items + [value]))), 0)
      else
        (match DecodeIndex(child, 0)
         case None => Done(Live(root), 11)
         case Some(i) =>
           if i <= |items| then Done(Live(PutAt(root, pos, Array(items[..i] + [value] + items[i..]))), 0)
           else Done(Live(root), 10))
    case Object(members) =>
      Done(Live(PutAt(root, pos, Object(DeleteKey(members, child, caseSensitive) + [Member(child, value)]))), 0)
    case _ => Done(Live(root), 9)
  }

  lemma AddSplit(root: Value, path: cstring, value: Value, caseSensitive: bool)
    ensures AddAt(root, path, value, caseSensitive) ==
      match LastSlash(path, |path|)
      case None => Done(Live(root), 9)
      case Some(k) =>
        match Locate(root, path[..k], 0, caseSensitive)
        case None => Done(Live(root), 9)
        case Some(pos) => AddChild(root, pos, DecodeInPlace(path[k + 1..]), value, caseSensitive)
  {
    hide Locate, DecodeInPlace, LastSlash, DeleteKey, DecodeIndex, ItemAt, PutAt;
  }

  lemma AddFold(root: Value, path: cstring, value: Value)
    requires PlainPath(path)
    ensures FoldOutcome(AddAt(root, path, value, false)) == AddAt(Fold(root), LowerKey(path), Fold(value), true)
  {
    hide AddAt, AddChild, Locate, Valid, DecodeInPlace, DecodeIndex, LastSlash, PlainPath, Lower, Fold;
    AddSplit(root, path, value, false);
    AddSplit(Fold(root), LowerKey(path), Fold(value), true);
    LastSlashFold(path, |path|);
    var slash := LastSlash(path, |path|);
    if slash.Some? {
      var k := slash.value;
      LastTokenFold(path);
      LocateFold(root, path[..k], 0);
      var found := Locate(root, path[..k], 0, false);
      if found.Some? { AddChildFold(root, found.value, DecodeInPlace(path[k + 1..]), value); }
    }
  }

  lemma AddChildFold(root: Value, pos: Position, child: cstring, value: Value)
    requires Valid(root, pos) && DecodeIndex(Lower(child), 0) == DecodeIndex(child, 0)
    ensures Valid(Fold(root), pos)
    ensures FoldOutcome(AddChild(root, pos, child, value, false))
      == AddChild(Fold(root), pos, LowerKey(child), Fold(value), true)
  {
    hide ItemAt, PutAt, Valid, DecodeIndex, Lower, DeleteKey;
    ItemAtFold(root, pos);
    AddHere(root, pos, child, value);
  }

  lemma MinusFold(s: bytes)
    ensures Lower(s) == [MINUS] <==> s == [MINUS]
  {
    if |s| == 1 { LowerBytes(s, 0); }
  }

  /** One level of an add. */
  lemma AddHere(root: Value, pos: Position, child: cstring, value: Value)
    requires Valid(root, pos)
    ensures Valid(Fold(root), pos) && (Lower(child) == [MINUS] <==> child == [MINUS])
    ensures ItemAt(root, pos).Array? ==>
      var items := ItemAt(root, pos).items;
      && Fold(PutAt(root, pos, Array(items + [value])))
         == PutAt(Fold(root), pos, Array(FoldItems(items) + [Fold(value)]))
      && forall i :: 0 <= i <= |items| ==>
           Fold(PutAt(root, pos, Array(items[..i] + [value] + items[i..])))
           == PutAt(Fold(root), pos, Array(FoldItems(items)[..i] + [Fold(value)] + FoldItems(items)[i..]))
    ensures ItemAt(root, pos).Object? ==>
      var members := ItemAt(root, pos).members;
      Fold(PutAt(root, pos, Object(DeleteKey(members, child, false) + [Member(child, value)])))
      == PutAt(Fold(root), pos, Object(DeleteKey(FoldMembers(members), Lower(child), true)
                                       + [Member(LowerKey(child), Fold(value))]))
  {
    hide PutAt, Lower, DeleteKey;
    MinusFold(child);
    ItemAtFold(root, pos);
    hide ItemAt;
    match ItemAt(root, pos)
    case Array(items) =>
      PutAtFold(root, pos, Array(items + [value]));
      FoldInsert(items, |items|, value);
      forall i | 0 <= i <= |items|
        ensures Fold(PutAt(root, pos, Array(items[..i] + [value] + items[i..])))
          == PutAt(Fold(root), pos, Array(FoldItems(items)[..i] + [Fold(value)] + FoldItems(items)[i..]))
      {
        PutAtFold(root, pos, Array(items[..i] + [value] + items[i..]));
        FoldInsert(items, i, value);
      }
    case Object(members) =>
      var more := DeleteKey(members, child, false) + [Member(child, value)];
      PutAtFold(root, pos, Object(more));
      DeleteFold(members, child);
      FoldAppend(DeleteKey(members, child, false), Member(child, value));
    case _ =>
  }

  lemma FoldInsert(items: seq<Value>, i: nat, x: Value)
    requires i <= |items|
    ensures FoldItems(items[..i] + [x] + items[i..]) == FoldItems(items)[..i] + [Fold(x)] + FoldItems(items)[i..]
    ensures FoldItems(items + [x]) == FoldItems(items) + [Fold(x)]
  {
  }

  // ----- One patch -----

  /** The patch's paths are plain. */
  predicate PlainPatch(patch: Value) {
    var path, from := Field(patch, PATH, false), Field(patch, FROM, false);
    && (path.Some? && path.value.String? ==> PlainPath(path.value.s))
    && (from.Some? && from.value.String? ==> PlainPath(from.value.s))
  }

  lemma OperationFold(patch: Value)
    ensures DecodeOperation(FoldPatch(patch), true) == DecodeOperation(patch, false)
  {
    hide FoldPatch;
    FieldsFold(patch);
  }

  lemma TestFold(doc: Document, path: cstring, value: Option<Value>)
    requires PlainPath(path)
    ensures TestStatus(FoldDocument(doc), LowerKey(path), FoldOption(value), true)
      == TestStatus(doc, path, value, false)
    ensures TestedDocument(FoldDocument(doc), LowerKey(path), FoldOption(value), true)
      == FoldDocument(TestedDocument(doc, path, value, false))
  {
    hide Locate, ItemAt, PutAt, Valid, CompareJson, Arrange, PlainPath;
    if doc.Live? {
      LocateFold(doc.root, path, 0);
      var found := Locate(doc.root, path, 0, false);
      if found.Some? {
        ItemAtFold(doc.root, found.value);
        if value.Some? {
          var item := ItemAt(doc.root, found.value);
          CompareFold(item, value.value);
          ArrangeFold(item, value.value);
          PutAtFold(doc.root, found.value, Arrange(item, value.value, false));
        }
      }
    }
  }

  lemma AddStepFold(doc: Document, path: cstring, value: Option<Value>, missing: nat)
    requires PlainPath(path)
    ensures AddStep(FoldDocument(doc), LowerKey(path), FoldOption(value), missing, true)
      == FoldOutcome(AddStep(doc, path, value, missing, false))
  {
    hide AddAt, PlainPath;
    if value.Some? && doc.Live? { AddFold(doc.root, path, value.value); }
  }

  lemma RemoveStepFold(doc: Document, path: cstring)
    requires PlainPath(path)
    ensures RemoveStep(FoldDocument(doc), LowerKey(path), true) == FoldOutcome(RemoveStep(doc, path, false))
    ensures Taken(FoldDocument(doc), LowerKey(path), true) == FoldDetached(Taken(doc, path, false))
  {
    hide DetachPath, PlainPath;
    if doc.Live? { DetachFold(doc.root, path); }
  }

  lemma CopyFold(doc: Document, from: cstring, path: cstring)
    requires PlainPath(from) && PlainPath(path)
    ensures CopyStep(FoldDocument(doc), String(LowerKey(from)), LowerKey(path), true)
      == FoldOutcome(CopyStep(doc, String(from), path, false))
  {
    hide Locate, ItemAt, AddAt, PlainPath, Valid;
    if from != [] { LowerBytes(from, 0); }
    if doc.Live? {
      LocateFold(doc.root, from, 0);
      var found := Locate(doc.root, from, 0, false);
      if found.Some? {
        ItemAtFold(doc.root, found.value);
        AddFold(doc.root, path, ItemAt(doc.root, found.value));
      }
    }
  }

  lemma CopyNothing(doc: Document, from: Value, path: cstring)
    requires !from.String?
    ensures !Fold(from).String? && CopyStep(doc, from, path, false) == Done(doc, 5)
    ensures CopyStep(FoldDocument(doc), Fold(from), LowerKey(path), true) == Done(FoldDocument(doc), 5)
  {
  }

  /** Applying a patch without regard to case is applying the folded patch to the folded document, status
      and all, if no token of its paths that starts with a digit holds a capital letter. */
  lemma ApplyFold(doc: Document, patch: Value)
    requires PlainPatch(patch)
    ensures ApplyPatch(FoldDocument(doc), FoldPatch(patch), true) == FoldOutcome(ApplyPatch(doc, patch, false))
  {
    hide FoldPatch, Field, DecodeOperation, AddStep, RemoveStep, CopyStep, TestStatus, TestedDocument, Taken, PlainPath;
    FieldsFold(patch);
    OperationFold(patch);
    var path, value, from := Field(patch, PATH, false), Field(patch, VALUE, false), Field(patch, FROM, false);
    if path.Some? && path.value.String? {
      var at := path.value.s;
      match DecodeOperation(patch, false)
      case NoOperation =>
      case Test => TestFold(doc, at, value);
      case Remove => RemoveStepFold(doc, at);
      case Replace =>
        RemoveStepFold(doc, at);
        var removed := RemoveStep(doc, at, false);
        if removed.Done? { AddStepFold(removed.doc, at, value, 7); }
      case Add => AddStepFold(doc, at, value, 7);
      case Move =>
        if from.Some? && from.value.String? {
          RemoveStepFold(doc, from.value.s);
          var taken := Taken(doc, from.value.s, false);
          if taken.Some? { AddStepFold(Live(taken.value.root), at, Some(taken.value.item), 5); }
        }
      case Copy =>
        if from.Some? && from.value.String? {
          CopyFold(doc, from.value.s, at);
        } else if from.Some? {
          CopyNothing(doc, from.value, at);
        }
    }
  }

  predicate AllPlain(patches: seq<Value>) { forall i :: 0 <= i < |patches| ==> PlainPatch(patches[i]) }

  function FoldPatches(patches: seq<Value>): (r: seq<Value>)
    ensures |r| == |patches| && forall i :: 0 <= i < |patches| ==> r[i] == FoldPatch(patches[i])
  {
    seq(|patches|, i requires 0 <= i < |patches| => FoldPatch(patches[i]))
  }

  /** And so for a list of patches. */
  lemma {:induction false} ApplyAllFold(doc: Document, patches: seq<Value>, i: nat)
    requires i <= |patches| && AllPlain(patches)
    ensures ApplyFrom(FoldDocument(doc), FoldPatches(patches), i, true)
      == FoldOutcome(ApplyFrom(doc, patches, i, false))
    decreases |patches| - i
  {
    hide ApplyPatch, PlainPatch, FoldPatch;
    if i < |patches| {
      ApplyFold(doc, patches[i]);
      var r := ApplyPatch(doc, patches[i], false);
      if r.Done? && r.status == 0 { ApplyAllFold(r.doc, patches, i + 1); }
    }
  }

  // ----- Generating patches -----

  lemma {:induction false} EncodeFold(key: cstring, i: nat)
    requires i <= |key|
    ensures Lower(EncodeFrom(key, i)) == EncodeFrom(LowerKey(key), i)
    decreases |key| - i
  {
    if i < |key| {
      LowerBytes(key, i);
      EncodeFold(key, i + 1);
      LowerConcat(EncodeByte(key[i]), EncodeFrom(key, i + 1));
      assert Lower(EncodeByte(key[i])) == EncodeByte(LowerKey(key)[i]);
    }
  }

  lemma ExtendFold(path: cstring, key: cstring)
    ensures LowerKey(Extend(path, key)) == Extend(LowerKey(path), LowerKey(key))
  {
    hide Encode;
    var token: bytes := Encode(key);
    LowerConcat(path, [SLASH] + token);
    LowerConcat([SLASH], token);
    assert Lower([SLASH]) == [SLASH];
    EncodedWhole(key);
  }

  lemma EncodedWhole(key: cstring)
    ensures Lower(Encode(key)) == Encode(LowerKey(key))
  {
    EncodeFold(key, 0);
  }

  lemma LowerDigits(s: bytes)
    requires AllDigits(s)
    ensures Lower(s) == s && !HasCapital(s)
  {
    forall i | 0 <= i < |s| ensures Lower(s)[i] == s[i] { LowerBytes(s, i); }
  }

  lemma IndexPathFold(path: cstring, i: nat)
    ensures LowerKey(path + ([SLASH] + Digits(i))) == LowerKey(path) + ([SLASH] + Digits(i))
    ensures LowerKey(Extend(path, Digits(i))) == Extend(LowerKey(path), Digits(i))
  {
    LowerDigits(Digits(i));
    LowerConcat(path, [SLASH] + Digits(i));
    LowerConcat([SLASH], Digits(i));
    assert Lower([SLASH]) == [SLASH];
    ExtendFold(path, Digits(i));
  }

  lemma ComposeFold(op: cstring, path: cstring, value: Option<Value>)
    ensures FoldPatch(Compose(op, path, value)) == Compose(op, LowerKey(path), FoldOption(value))
  {
    LowerNames();
    var members := Compose(op, path, value).members;
    assert FoldField(members[0]) == Member(OP, String(op));
    assert FoldField(members[1]) == Member(PATH, String(LowerKey(path)));
    if value.Some? { assert FoldField(members[2]) == Member(VALUE, Fold(value.value)); }
  }

  lemma FoldOne(patch: Value, rest: seq<Value>)
    ensures FoldPatches([patch] + rest) == [FoldPatch(patch)] + FoldPatches(rest)
  {
  }

  lemma FoldBoth(a: seq<Value>, b: seq<Value>)
    ensures FoldPatches(a + b) == FoldPatches(a) + FoldPatches(b)
  {
  }

  lemma {:induction false} RemovalsFold(path: cstring, index: nat, count: nat)
    ensures FoldPatches(Removals(path, index, count)) == Removals(LowerKey(path), index, count)
    decreases count
  {
    hide FoldPatch, Compose, Extend;
    if count > 0 {
      RemovalsFold(path, index, count - 1);
      IndexPathFold(path, index);
      ComposeFold(Patch.REMOVE, Extend(path, Digits(index)), None);
      FoldOne(Compose(Patch.REMOVE, Extend(path, Digits(index)), None), Removals(path, index, count - 1));
    }
  }

  lemma {:induction false} AdditionsFold(path: cstring, to: seq<Value>, i: nat)
    requires i <= |to|
    ensures FoldPatches(Additions(path, to, i)) == Additions(LowerKey(path), FoldItems(to), i)
    decreases |to| - i
  {
    hide FoldPatch, Compose, Extend;
    if i < |to| {
      AdditionsFold(path, to, i + 1);
      ExtendFold(path, [MINUS]);
      assert LowerKey([MINUS]) == [MINUS];
      ComposeFold(Patch.ADD, Extend(path, [MINUS]), Some(to[i]));
      FoldOne(Compose(Patch.ADD, Extend(path, [MINUS]), Some(to[i])), Additions(path, to, i + 1));
    }
  }

  lemma {:induction false} ItemsFold(path: cstring, from: seq<Value>, to: seq<Value>, i: nat, n: nat)
    requires i <= |from| && i <= |to| && ItemsWithin(from, n) && ItemsWithin(FoldItems(from), n)
    ensures FoldPatches(PatchItems(path, from, to, i, false, n))
      == PatchItems(LowerKey(path), FoldItems(from), FoldItems(to), i, true, n)
    decreases n + 1, 0, |from| - i
  {
    hide Patches, Removals, Additions, FoldPatch;
    if i < |from| && i < |to| {
      var below := path + ([SLASH] + Digits(i));
      IndexPathFold(path, i);
      PatchesFold(below, from[i], to[i]);
      ItemsFold(path, from, to, i + 1, n);
      FoldBoth(Patches(below, from[i], to[i], false), PatchItems(path, from, to, i + 1, false, n));
    } else {
      RemovalsFold(path, i, |from| - i);
      AdditionsFold(path, to, i);
      FoldBoth(Removals(path, i, |from| - i), Additions(path, to, i));
    }
  }

  lemma {:induction false} MembersFold(path: cstring, from: seq<Member>, to: seq<Member>, i: nat, j: nat, n: nat)
    requires i <= |from| && j <= |to| && MembersWithin(from, n) && MembersWithin(FoldMembers(from), n)
    ensures FoldPatches(PatchMembers(path, from, to, i, j, false, n))
      == PatchMembers(LowerKey(path), FoldMembers(from), FoldMembers(to), i, j, true, n)
    decreases n + 1, 0, |from| - i + |to| - j
  {
    hide Patches, FoldPatch, Compose, Extend, Less, Fold;
    if i == |from| && j == |to| {
    } else if j == |to| || (i < |from| && KeyLess(from[i].key, to[j].key, false)) {
      var path' := Extend(path, from[i].key);
      ExtendFold(path, from[i].key);
      ComposeFold(Patch.REMOVE, path', None);
      MembersFold(path, from, to, i + 1, j, n);
      FoldOne(Compose(Patch.REMOVE, path', None), PatchMembers(path, from, to, i + 1, j, false, n));
    } else if i == |from| || !SameKey(from[i].key, to[j].key, false) {
      var path' := Extend(path, to[j].key);
      ExtendFold(path, to[j].key);
      ComposeFold(Patch.ADD, path', Some(to[j].value));
      MembersFold(path, from, to, i, j + 1, n);
      FoldOne(Compose(Patch.ADD, path', Some(to[j].value)), PatchMembers(path, from, to, i, j + 1, false, n));
    } else {
      var path' := Extend(path, from[i].key);
      ExtendFold(path, from[i].key);
      PatchesFold(path', from[i].value, to[j].value);
      MembersFold(path, from, to, i + 1, j + 1, n);
      FoldBoth(Patches(path', from[i].value, to[j].value, false), PatchMembers(path, from, to, i + 1, j + 1, false, n));
    }
  }

  /** The patches generated without regard to case, folded, are those generated from the folded trees. */
  lemma {:induction false} PatchesFold(path: cstring, from: Value, to: Value)
    ensures FoldPatches(Patches(path, from, to, false)) == Patches(LowerKey(path), Fold(from), Fold(to), true)
    decreases Nesting(from), 1, 0
  {
    hide PatchItems, PatchMembers, FoldPatch, Compose, Sort, FoldMembers;
    FoldNesting(from);
    ComposeFold(Patch.REPLACE, path, Some(to));
    FoldOne(Compose(Patch.REPLACE, path, Some(to)), []);
    if SameType(from, to) {
      match from
      case Array(items) =>
        WithinNesting(items, []);
        FoldWithin(items, [], ItemsNesting(items));
        FoldItemsNesting(items);
        ItemsFold(path, items, to.items, 0, ItemsNesting(items));
      case Object(members) =>
        SortedWithin(members, false);
        SortFold(members);
        SortFold(to.members);
        FoldMembersNesting(members);
        FoldWithin([], Sort(members, false), MembersNesting(members));
        MembersFold(path, Sort(members, false), Sort(to.members, false), 0, 0, MembersNesting(members));
      case _ =>
    }
  }

  // ----- The round trip -----

  /** No key that starts with a digit holds a capital letter. */
  predicate PlainKeys(v: Value)
    decreases v
  {
    match v
    case Array(items) => forall i :: 0 <= i < |items| ==> PlainKeys(items[i])
    case Object(members) => PlainMembers(members)
    case _ => true
  }

  predicate PlainMembers(members: seq<Member>)
    decreases members
  {
    forall i :: 0 <= i < |members| ==> PlainToken(members[i].key) && PlainKeys(members[i].value)
  }

  lemma {:induction false} EncodeCapital(key: cstring, i: nat)
    requires i <= |key| && HasCapital(EncodeFrom(key, i))
    ensures HasCapital(key)
    decreases |key| - i
  {
    if i < |key| {
      var all, piece := EncodeFrom(key, i), EncodeByte(key[i]);
      var k :| 0 <= k < |all| && 'A' as int <= all[k] as int <= 'Z' as int;
      if k < |piece| {
        assert all[k] == piece[k] == key[i];
      } else {
        assert EncodeFrom(key, i + 1)[k - |piece|] == all[k];
        EncodeCapital(key, i + 1);
      }
    }
  }

  lemma EncodePlain(key: cstring)
    requires PlainToken(key)
    ensures PlainToken(Encode(key))
  {
    if HasCapital(Encode(key)) { EncodeCapital(key, 0); }
  }

  lemma PlainMore(path: bytes, token: bytes)
    requires PlainPath(path) && PlainToken(token) && SLASH !in token
    ensures PlainPath(path + ([SLASH] + token))
  {
    var full := path + ([SLASH] + token);
    forall p | 0 <= p < |full| && full[p] == SLASH ensures PlainToken(full[p + 1..AfterToken(full, p + 1)]) {
      if p < |path| {
        assert full[..|path|] == path;
        TokenLocal(full, |path|, p + 1);
        FrontSlice(full, |path|, p + 1, AfterToken(full, p + 1));
      } else {
        assert p == |path|;
        AfterTokenBack(full, p + 1, |full|);
        assert full[p + 1..|full|] == token;
      }
    }
  }

  lemma PlainExtend(path: cstring, key: cstring)
    requires PlainPath(path) && PlainToken(key)
    ensures PlainPath(Extend(path, key))
  {
    hide PlainPath, PlainToken;
    EncodePlain(key);
    PlainMore(path, Encode(key));
  }

  lemma PlainDigits(path: cstring, i: nat)
    requires PlainPath(path)
    ensures PlainPath(path + ([SLASH] + Digits(i))) && PlainPath(Extend(path, Digits(i)))
  {
    hide PlainPath;
    LowerDigits(Digits(i));
    assert SLASH !in Digits(i);
    PlainMore(path, Digits(i));
    PlainExtend(path, Digits(i));
  }

  lemma ComposedPlain(op: cstring, path: cstring, value: Option<Value>)
    requires PlainPath(path)
    ensures PlainPatch(Compose(op, path, value))
  {
    hide PlainPath;
    var members := Compose(op, path, value).members;
    LowerNames();
    assert members[0].key == OP && members[1].key == PATH && (value.Some? ==> members[2].key == VALUE);
    assert PATH[0] != FROM[0];
    assert FindKey(members, 0, PATH, false) == FindKey(members, 1, PATH, false) == Some(1);
    forall k | 0 <= k < |members| ensures Lower(members[k].key) != FROM {}
    assert FindKey(members, 0, FROM, false) == None;
  }

  lemma {:induction false} RemovalsPlain(path: cstring, index: nat, count: nat)
    requires PlainPath(path)
    ensures AllPlain(Removals(path, index, count))
    decreases count
  {
    hide PlainPath, PlainPatch, Compose, Extend;
    if count > 0 {
      PlainDigits(path, index);
      ComposedPlain(Patch.REMOVE, Extend(path, Digits(index)), None);
      RemovalsPlain(path, index, count - 1);
    }
  }

  lemma {:induction false} AdditionsPlain(path: cstring, to: seq<Value>, i: nat)
    requires PlainPath(path) && i <= |to|
    ensures AllPlain(Additions(path, to, i))
    decreases |to| - i
  {
    hide PlainPath, PlainPatch, Compose, Extend;
    if i < |to| {
      PlainExtend(path, [MINUS]);
      ComposedPlain(Patch.ADD, Extend(path, [MINUS]), Some(to[i]));
      AdditionsPlain(path, to, i + 1);
    }
  }

  lemma {:induction false} ItemsPlain(path: cstring, from: seq<Value>, to: seq<Value>, i: nat, n: nat)
    requires PlainPath(path) && i <= |from| && i <= |to| && ItemsWithin(from, n)
    requires (forall k :: 0 <= k < |from| ==> PlainKeys(from[k])) && forall k :: 0 <= k < |to| ==> PlainKeys(to[k])
    ensures AllPlain(PatchItems(path, from, to, i, false, n))
    decreases n + 1, 0, |from| - i
  {
    hide PlainPath, PlainPatch, Patches, PlainKeys;
    if i < |from| && i < |to| {
      PlainDigits(path, i);
      PatchesPlain(path + ([SLASH] + Digits(i)), from[i], to[i]);
      ItemsPlain(path, from, to, i + 1, n);
    } else {
      RemovalsPlain(path, i, |from| - i);
      AdditionsPlain(path, to, i);
    }
  }

  lemma {:induction false} MembersPlain(path: cstring, from: seq<Member>, to: seq<Member>, i: nat, j: nat, n: nat)
    requires PlainPath(path) && i <= |from| && j <= |to| && MembersWithin(from, n)
    requires PlainMembers(from) && PlainMembers(to)
    ensures AllPlain(PatchMembers(path, from, to, i, j, false, n))
    decreases n + 1, 0, |from| - i + |to| - j
  {
    hide PlainPath, PlainPatch, Patches, Compose, Extend, KeyLess, SameKey, PlainToken, PlainKeys;
    if i == |from| && j == |to| {
    } else if j == |to| || (i < |from| && KeyLess(from[i].key, to[j].key, false)) {
      PlainExtend(path, from[i].key);
      ComposedPlain(Patch.REMOVE, Extend(path, from[i].key), None);
      MembersPlain(path, from, to, i + 1, j, n);
    } else if i == |from| || !SameKey(from[i].key, to[j].key, false) {
      PlainExtend(path, to[j].key);
      ComposedPlain(Patch.ADD, Extend(path, to[j].key), Some(to[j].value));
      MembersPlain(path, from, to, i, j + 1, n);
    } else {
      PlainExtend(path, from[i].key);
      PatchesPlain(Extend(path, from[i].key), from[i].value, to[j].value);
      MembersPlain(path, from, to, i + 1, j + 1, n);
    }
  }

  lemma {:induction false} PatchesPlain(path: cstring, from: Value, to: Value)
    requires PlainPath(path) && PlainKeys(from) && PlainKeys(to)
    ensures AllPlain(Patches(path, from, to, false))
    decreases Nesting(from), 1, 0
  {
    hide PlainPath, PlainPatch, PatchItems, PatchMembers, Compose, Sort, PlainToken;
    ComposedPlain(Patch.REPLACE, path, Some(to));
    if SameType(from, to) {
      match from
      case Array(items) =>
        WithinNesting(items, []);
        ItemsPlain(path, items, to.items, 0, ItemsNesting(items));
      case Object(members) =>
        SortedWithin(members, false);
        SortedPlain(members);
        SortedPlain(to.members);
        MembersPlain(path, Sort(members, false), Sort(to.members, false), 0, 0, MembersNesting(members));
      case _ =>
    }
  }

  lemma SortedPlain(members: seq<Member>)
    requires PlainMembers(members)
    ensures PlainMembers(Sort(members, false))
  {
    hide PlainToken, PlainKeys;
    SortCorrect(members, false);
    var sorted := Sort(members, false);
    forall i | 0 <= i < |sorted| ensures PlainToken(sorted[i].key) && PlainKeys(sorted[i].value) {
      assert sorted[i] in multiset(sorted);
      var k :| 0 <= k < |members| && members[k] == sorted[i];
    }
  }

  /** Generating and applying patches without regard to case: every status is 0, and the document then
      denotes `to` but for the case of its keys. */
  lemma DiffThenApplyFold(doc: Value, from: Value, to: Value) returns (result: Value)
    requires DiffApply.Patchable(Fold(from), Fold(to)) && PlainKeys(from) && PlainKeys(to)
    requires Distinct(Fold(from)) && Distinct(Fold(to)) && Distinct(Fold(doc))
    requires Denote(Fold(doc)) == Denote(Fold(from))
    ensures ApplyFrom(Live(doc), GeneratePatches(from, to, false), 0, false) == Done(Live(result), 0)
    ensures Denote(Fold(result)) == Denote(Fold(to)) && Distinct(Fold(result))
  {
    hide Patches, ApplyFrom, Denote, Distinct, Fold, DiffApply.Patchable, PlainKeys, PlainPatch;
    var patches := GeneratePatches(from, to, false);
    PatchesFold([], from, to);
    assert LowerKey([]) == [];
    RootPlain();
    PatchesPlain([], from, to);
    ApplyAllFold(Live(doc), patches, 0);
    var folded := DiffApply.DiffThenApply(Fold(doc), Fold(from), Fold(to));
    result := ApplyFrom(Live(doc), patches, 0, false).doc.root;
  }

  lemma RootPlain()
    ensures PlainPath([])
  {
  }
}
