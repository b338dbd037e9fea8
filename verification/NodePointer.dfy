/** JSON pointers on nodes in memory: the pointer built for a node leads back to that very node. */
module NodePointer {
  import opened Bytes
  import opened Json
  import Decimal
  import opened Nodes
  import opened Trees
  import P = Pointer

  function NodeAt(t: Tree, pos: P.Position): Node?
    decreases |pos|
  {
    if pos == [] then t.node
    else if pos[0] < |t.kids| then NodeAt(t.kids[pos[0]], pos[1..])
    else null
  }

  function NodeOf(t: Tree, r: Option<P.Position>): Node? {
    match r
    case None => null
    case Some(pos) => NodeAt(t, pos)
  }

  // ----- Building a pointer -----

  /** FindPointerFromObjectTo. */
  method FindPointer(item: Node?, target: Node?, ghost t: Tree) returns (r: Option<cstring>, ghost pos: P.Position)
    requires item != null ==> t.node == item && Shaped(t) && Linked(t) && Proper(t)
    ensures r.Some? <==> item != null && target != null && target in All(t)
    ensures r.Some? ==> P.Valid(ValueOf(t), pos) && NodeAt(t, pos) == target && r.value == P.PointerTo(ValueOf(t), pos)
    decreases t
  {
    hide Shaped, Linked, Among, Below, Proper, ValueOf, P.Valid, P.PointerTo, NodeAt, Roots;
    pos := [];
    Here(t);
    if item == null || target == null {
      return None, [];
    }
    if item == target {
      return Some([]), [];
    }
    var child := item.child;
    var index := 0;
    KidsLinked(t);
    ghost var inner, among, under := Footprint([], t);
    while child != null
      invariant Linked(t) && 0 <= index <= |t.kids| && child == (if index < |t.kids| then t.kids[index].node else null)
      invariant target !in Among(t.kids, index)
      decreases |t.kids| - index
    {
      ShapedKid(t, index);
      ProperKid(t, index);
      AmongNext(t, index);
      ghost var below;
      var rest;
      rest, below := FindPointer(child, target, t.kids[index]);
      if rest.Some? {
        OneUp(t, index, below);
        pos := [index] + below;
        if item.kind.ArrayKind? {
          return Some([SLASH] + (Decimal.Digits(index) + rest.value)), pos;
        }
        if item.kind.ObjectKind? {
          return Some([SLASH] + (P.Encode(child.key.value) + rest.value)), pos;
        }
        assert false;
      }
      child := child.next;
      index := index + 1;
    }
    r := None;
  }

  lemma Here(t: Tree)
    ensures P.Valid(ValueOf(t), []) && NodeAt(t, []) == t.node && P.PointerTo(ValueOf(t), []) == []
    ensures Among(t.kids, 0) == {} && Below(t) == Among(t.kids, |t.kids|)
  {
  }

  lemma AmongNext(t: Tree, i: nat)
    requires i < |t.kids|
    ensures Among(t.kids, i + 1) == Among(t.kids, i) + All(t.kids[i]) && All(t.kids[i]) <= Below(t)
  {
    AmongHas(t.kids, |t.kids|, i);
  }

  /** A position below child `i`, seen from the parent. */
  lemma OneUp(t: Tree, i: nat, below: P.Position)
    requires Proper(t) && i < |t.kids| && P.Valid(ValueOf(t.kids[i]), below)
    ensures P.Valid(ValueOf(t), [i] + below) && NodeAt(t, [i] + below) == NodeAt(t.kids[i], below)
    ensures P.PointerTo(ValueOf(t), [i] + below) ==
      [SLASH] + ((if t.kind.ArrayKind? then Decimal.Digits(i) else P.Encode(KeyOf(t.kids[i])))
                 + P.PointerTo(ValueOf(t.kids[i]), below))
  {
    hide P.Encode, Decimal.Digits;
    ProperKid(t, i);
    var pos := [i] + below;
    assert pos[0] == i && pos[1..] == below;
  }

  // ----- Following a pointer -----

  /** The child list walked by get_array_item and by the search for a member. */
  method Walk(parent: Node, ghost t: Tree, ptr: cstring, p: nat, caseSensitive: bool) returns (r: Node?, ghost j: nat)
    requires t.node == parent && Shaped(t) && Linked(t) && Proper(t) && parent.kind.ObjectKind? && p <= |ptr|
    ensures match P.FindMember(Members(t.kids, |t.kids|), 0, ptr, p, caseSensitive)
      case None => r == null
      case Some(i) => j == i && r == t.kids[i].node
  {
    hide Shaped, Linked, Proper, Roots, P.Matches, Below, Among;
    r := parent.child;
    j := 0;
    ghost var members := Members(t.kids, |t.kids|);
    KidsLinked(t);
    ghost var inner, among, under := Footprint([], t);
    while r != null
      invariant Linked(t) && j <= |t.kids| && r == (if j < |t.kids| then t.kids[j].node else null)
      invariant P.FindMember(members, j, ptr, p, caseSensitive) == P.FindMember(members, 0, ptr, p, caseSensitive)
      decreases |t.kids| - j
    {
      ShapedKid(t, j);
      ProperKid(t, j);
      var found := P.ComparePointers(r.key.value, ptr, p, caseSensitive);
      if found {
        return;
      }
      r := r.next;
      j := j + 1;
    }
  }

  method GetChild(parent: Node, index: nat, ghost t: Tree) returns (r: Node?)
    requires t.node == parent && Linked(t)
    ensures r == if index < |t.kids| then t.kids[index].node else null
  {
    r := GetArrayItem(parent, index, Roots(t.kids));
  }

  /** One token of the pointer; `next` is the tree of the node it leads to. */
  method Follow(item: Node, ptr: cstring, p: nat, caseSensitive: bool, ghost t: Tree)
    returns (r: Node?, ghost next: Tree)
    requires t.node == item && Shaped(t) && Linked(t) && Fit(t) && p < |ptr| && ptr[p] == SLASH
    ensures r != null ==> next.node == r && Shaped(next) && Linked(next) && Proper(next)
    ensures NodeOf(t, P.Locate(ValueOf(t), ptr, p, caseSensitive))
      == if r == null then null else NodeOf(next, P.Locate(ValueOf(next), ptr, P.AfterToken(ptr, p + 1), caseSensitive))
  {
    hide Shaped, Linked, Proper, Below, Among, NodeOf, P.DecodeIndex, P.FindMember, P.AfterToken, Roots;
    next := t;
    KidsLinked(t);
    ghost var inner, among, under := Footprint([], t);
    if item.kind.ArrayKind? {
      var index := P.DecodeArrayIndex(ptr, p + 1);
      if index.None? {
        Nowhere(t, ptr, p, caseSensitive);
        return null, t;
      }
      r := GetChild(item, index.value, t);
      if r == null {
        Nowhere(t, ptr, p, caseSensitive);
      } else {
        StepDown(t, index.value, ptr, p, caseSensitive);
        next := t.kids[index.value];
      }
    } else if item.kind.ObjectKind? {
      ghost var j;
      r, j := Walk(item, t, ptr, p + 1, caseSensitive);
      if r == null {
        Nowhere(t, ptr, p, caseSensitive);
      } else {
        StepDown(t, j, ptr, p, caseSensitive);
        next := t.kids[j];
      }
    } else {
      Nowhere(t, ptr, p, caseSensitive);
      return null, t;
    }
  }

  lemma Nowhere(t: Tree, ptr: cstring, p: nat, caseSensitive: bool)
    requires p < |ptr| && ptr[p] == SLASH
    requires t.kind.ArrayKind? ==> match P.DecodeIndex(ptr, p + 1) case None => true case Some(i) => i >= |t.kids|
    requires t.kind.ObjectKind? ==> P.FindMember(Members(t.kids, |t.kids|), 0, ptr, p + 1, caseSensitive).None?
    ensures NodeOf(t, P.Locate(ValueOf(t), ptr, p, caseSensitive)) == null
  {
    hide P.DecodeIndex, P.FindMember;
  }

  /** get_item_from_pointer. */
  method GetNode(item: Node?, ptr: cstring, caseSensitive: bool, ghost t: Tree) returns (r: Node?)
    requires item != null ==> t.node == item && Shaped(t) && Linked(t) && Fit(t)
    ensures r == if item == null then null else NodeOf(t, P.Locate(ValueOf(t), ptr, 0, caseSensitive))
  {
    hide Shaped, Linked, Proper, Below, Among, NodeOf, P.Locate, P.AfterToken;
    r := item;
    var p: nat := 0;
    ghost var at := t;
    ghost var goal := if item == null then null else NodeOf(t, P.Locate(ValueOf(t), ptr, 0, caseSensitive));
    while p < |ptr| && ptr[p] == SLASH && r != null
      invariant p <= |ptr| && (r != null ==> at.node == r && Shaped(at) && Linked(at) && Fit(at))
      invariant goal == if r == null then null else NodeOf(at, P.Locate(ValueOf(at), ptr, p, caseSensitive))
      decreases |ptr| - p
    {
      r, at := Follow(r, ptr, p, caseSensitive, at);
      ghost var inner, among, under := Footprint([], at);
      p := P.SkipToken(ptr, p + 1);
    }
    if r != null { Arrived(at, ptr, p, caseSensitive); }
  }

  lemma Arrived(t: Tree, ptr: cstring, p: nat, caseSensitive: bool)
    requires p <= |ptr| && (p == |ptr| || ptr[p] != SLASH)
    ensures NodeOf(t, P.Locate(ValueOf(t), ptr, p, caseSensitive)) == t.node
  {
  }

  lemma StepDown(t: Tree, i: nat, ptr: cstring, p: nat, caseSensitive: bool)
    requires Shaped(t) && Linked(t) && Proper(t) && i < |t.kids| && p < |ptr| && ptr[p] == SLASH
    requires t.kind.ArrayKind? ==> P.DecodeIndex(ptr, p + 1) == Some(i)
    requires t.kind.ObjectKind? ==> P.FindMember(Members(t.kids, |t.kids|), 0, ptr, p + 1, caseSensitive) == Some(i)
    ensures Shaped(t.kids[i]) && Linked(t.kids[i]) && Proper(t.kids[i])
    ensures NodeOf(t, P.Locate(ValueOf(t), ptr, p, caseSensitive))
      == NodeOf(t.kids[i], P.Locate(ValueOf(t.kids[i]), ptr, P.AfterToken(ptr, p + 1), caseSensitive))
  {
    hide Shaped, Linked, Proper, P.DecodeIndex, P.FindMember, P.AfterToken, Below, Among;
    ShapedKid(t, i);
    ProperKid(t, i);
    var r := P.Locate(ValueOf(t.kids[i]), ptr, P.AfterToken(ptr, p + 1), caseSensitive);
    LocateDown(ValueOf(t), i, ptr, p, caseSensitive);
    hide ValueOf, P.Locate;
    if r.Some? { assert ([i] + r.value)[1..] == r.value; }
  }

  lemma LocateDown(v: Value, i: nat, ptr: cstring, p: nat, caseSensitive: bool)
    requires p < |ptr| && ptr[p] == SLASH && (v.Array? || v.Object?) && P.Valid(v, [i])
    requires v.Array? ==> P.DecodeIndex(ptr, p + 1) == Some(i)
    requires v.Object? ==> P.FindMember(v.members, 0, ptr, p + 1, caseSensitive) == Some(i)
    ensures P.Locate(v, ptr, p, caseSensitive)
      == P.Below(i, P.Locate(P.Child(v, i), ptr, P.AfterToken(ptr, p + 1), caseSensitive))
  {
  }

  /** Resolving the pointer that was built for a node gives back that node, keys with `~` and `/`
      included. */
  method ThereAndBack(item: Node, target: Node, ghost t: Tree) returns (r: Node?)
    requires t.node == item && Shaped(t) && Linked(t) && Proper(t) && target in All(t)
    requires Distinct(ValueOf(t)) && P.Addressable(ValueOf(t))
    ensures r == target
  {
    hide Shaped, Linked, Proper, Below, Among, ValueOf, Distinct, P.Addressable, P.Valid, P.PointerTo, P.Locate, NodeAt;
    ghost var inner, among, under := Footprint([], t);
    ghost var pos;
    var ptr;
    ptr, pos := FindPointer(item, target, t);
    P.PointerRoundTrip(ValueOf(t), pos);
    r := GetNode(item, ptr.value, true, t);
  }
}
