/** apply_patch on nodes in memory: the document is changed in place and every child list stays well formed. */
module NodePatch {
  import opened Bytes
  import opened Json
  import opened Nodes
  import opened Trees
  import opened Children
  import opened Patch
  import Compare
  import Duplicate
  import Graft
  import NodeCompare
  import NodeMerge
  import NodePointer
  import PatchLoops
  import SortList
  import Sorting
  import P = Pointer

  /** The document a tree holds. */
  ghost function DocOf(t: Tree): Document { if t.kind.InvalidKind? then Invalid else Live(ValueOf(t)) }

  /** A document in memory; the first element of a child list need not lead back to the last one. */
  ghost predicate Standing(t: Tree)
    reads t.node`child, t.node`kind, t.node`key, Below(t)`next, Below(t)`prev, Below(t)`child, Below(t)`kind
    reads Below(t)`key
  {
    Shaped(t) && Linked(t) && Fit(t) && t.node.key == t.key
  }

  /** A document in memory with well-formed child lists. */
  ghost predicate Held(t: Tree)
    reads t.node`child, t.node`kind, t.node`key, Below(t)`next, Below(t)`prev, Below(t)`child, Below(t)`kind
    reads Below(t)`key
  {
    Standing(t) && Tied(t)
  }

  // ----- The parent a path leads to -----

  lemma {:induction false} NodeThere(t: Tree, pos: P.Position)
    requires Graft.InTree(t, pos)
    ensures NodePointer.NodeAt(t, pos) == Graft.TreeAt(t, pos).node
    decreases |pos|
  {
    if pos != [] { NodeThere(t.kids[pos[0]], pos[1..]); }
  }

  lemma FitAt(t: Tree, pos: P.Position)
    requires Fit(t) && Graft.InTree(t, pos)
    ensures Fit(Graft.TreeAt(t, pos)) && (pos != [] ==> Proper(t))
    ensures Proper(t) <==> Proper(Graft.TreeAt(t, pos))
  {
    if Proper(t) { Graft.ProperAt(t, pos); }
  }

  /** get_item_from_pointer, with the subtree it finds. */
  method FindParent(root: Node, ptr: cstring, caseSensitive: bool, ghost t: Tree)
    returns (parent: Node?, ghost pos: P.Position, ghost at: Tree)
    requires root == t.node && Standing(t)
    ensures match P.Locate(ValueOf(t), ptr, 0, caseSensitive)
      case None => parent == null
      case Some(p) => pos == p && Graft.InTree(t, pos) && at == Graft.TreeAt(t, pos) && parent == at.node
    ensures parent != null ==> Standing(at) && Graft.LinkedBut(t, pos) && All(at) <= All(t) && (Tied(t) ==> Tied(at))
    ensures parent != null ==>
      (Proper(t) <==> Proper(at)) && P.Valid(ValueOf(t), pos) && ValueOf(at) == P.ItemAt(ValueOf(t), pos)
  {
    hide Shaped, Linked, Below, Tied, Proper, ValueOf, P.Locate, P.Valid, Graft.InTree, Graft.TreeAt, Graft.LinkedBut;
    ghost var below := NodesBelow(t);
    parent := NodePointer.GetNode(root, ptr, caseSensitive, t);
    pos, at := [], t;
    ghost var found := P.Locate(ValueOf(t), ptr, 0, caseSensitive);
    if found.Some? {
      pos := found.value;
      Graft.ValidInTree(t, pos);
      Graft.AtRoot(t);
      at := Graft.TreeAt(t, pos);
      NodeThere(t, pos);
      FitAt(t, pos);
      if Tied(t) { Graft.TiedAt(t, pos); }
      Graft.TakeApart(t, pos);
      Graft.AtWithin(t, pos);
    }
  }

  // ----- Taking out -----

  /** The child that detach_path takes off its parent: names are looked up without regard to case. */
  function ToDetach(parent: Value, child: cstring): (r: Option<nat>)
    ensures r.Some? ==> P.Valid(parent, [r.value])
  {
    match parent
    case Array(items) =>
      (match P.DecodeIndex(child, 0) case None => None case Some(i) => if i < |items| then Some(i) else None)
    case Object(members) => FindKey(members, 0, child, false)
    case _ => None
  }

  lemma DetachSplit(v: Value, path: cstring, caseSensitive: bool)
    ensures DetachPath(v, path, caseSensitive) ==
      match LastSlash(path, |path|)
      case None => None
      case Some(k) =>
        match P.Locate(v, path[..k], 0, caseSensitive)
        case None => None
        case Some(pos) =>
          match ToDetach(P.ItemAt(v, pos), DecodeInPlace(path[k + 1..]))
          case None => None
          case Some(j) =>
            Some(Detached(PutAt(v, pos, Without(P.ItemAt(v, pos), j)), P.Child(P.ItemAt(v, pos), j)))
  {
    hide P.Locate, PutAt, FindKey, P.DecodeIndex, DecodeInPlace, P.ItemAt;
  }

  /** The tree and its value with child `j` taken out. */
  lemma {:induction false} WithoutValue(t: Tree, j: nat)
    requires Proper(t) && j < |t.kids|
    ensures Proper(WithoutKid(t, j)) && Proper(t.kids[j])
    ensures P.Valid(ValueOf(t), [j]) && ValueOf(WithoutKid(t, j)) == Without(ValueOf(t), j)
    ensures ValueOf(t.kids[j]) == P.Child(ValueOf(t), j)
  {
    hide Values, Members, ValueOf, Proper;
    ProperKid(t, j);
    ProperWithout(t, j);
    NodeCompare.KindValue(t);
    NodeCompare.KindValue(WithoutKid(t, j));
    ValuesRemoved(t.kids, j);
  }

  lemma {:induction false} ProperWithout(t: Tree, j: nat)
    requires Proper(t) && j < |t.kids|
    ensures Proper(WithoutKid(t, j))
  {
    var kids := RemoveAt(t.kids, j);
    forall i | 0 <= i < |kids| ensures Proper(kids[i]) && (t.kind.ObjectKind? ==> kids[i].key.Some?) {
      ProperKid(t, if i < j then i else i + 1);
    }
  }

  lemma {:induction false} ValuesRemoved(kids: seq<Tree>, j: nat)
    requires j < |kids|
    ensures Values(RemoveAt(kids, j), |kids| - 1) == RemoveAt(Values(kids, |kids|), j)
    ensures Members(RemoveAt(kids, j), |kids| - 1) == RemoveAt(Members(kids, |kids|), j)
  {
    hide Values, Members, ValueOf, KeyOf;
    var rest := RemoveAt(kids, j);
    assert forall i :: 0 <= i < |rest| ==> rest[i] == kids[if i < j then i else i + 1];
  }

  /** Where the child of that name or index is, for detaching. */
  method FindToDetach(parent: Node, child: cstring, ghost at: Tree) returns (item: Node?, ghost j: nat)
    requires parent == at.node && Shaped(at) && Linked(at) && Fit(at)
    ensures match ToDetach(ValueOf(at), child)
      case None => item == null
      case Some(i) => j == i < |at.kids| && item == at.kids[i].node
  {
    hide Shaped, Linked, Below, Proper, Values, Members, FindKey, P.DecodeIndex;
    j := 0;
    KindOf(at);
    ghost var below := NodesBelow(at);
    if parent.kind.ArrayKind? {
      var index := P.DecodeArrayIndex(child, 0);
      if index.None? {
        return null, 0;
      }
      j := index.value;
      item := NodePointer.GetChild(parent, index.value, at);
    } else if parent.kind.ObjectKind? {
      item, j := FindChild(parent, child, false, at);
    } else {
      item := null;
    }
  }

  /** detach_path. */
  method Detach(root: Node, path: cstring, caseSensitive: bool, ghost t: Tree)
    returns (item: Node?, ghost rest: Tree, ghost x: Tree)
    requires root == t.node && Held(t)
    modifies All(t)`child, All(t)`next, All(t)`prev
    ensures rest.node == root && rest.key == t.key && Held(rest) && All(rest) <= All(t)
    ensures match Taken(DocOf(t), path, caseSensitive)
      case None => item == null && rest == t
      case Some(d) =>
        && item == x.node && item.next == null && Held(x) && Proper(x) && ValueOf(x) == d.item
        && DocOf(rest) == Live(d.root) && All(x) <= All(t) && All(x) !! All(rest)
  {
    hide Shaped, Linked, Below, Tied, Proper, ValueOf, P.Locate, P.Valid, P.ItemAt, P.Child, PutAt, Without, LastSlash,
         DecodeInPlace, Graft.InTree, Graft.TreeAt, Graft.PutTree, Graft.LinkedBut;
    item, rest, x := null, t, t;
    ghost var below := NodesBelow(t);
    DetachSplit(ValueOf(t), path, caseSensitive);
    hide Patch.DetachPath;
    var front, child := PatchLoops.SplitPath(path);
    if front.None? {
      return;
    }
    var parent;
    ghost var pos, at;
    parent, pos, at := FindParent(root, front.value, caseSensitive, t);
    if parent == null {
      return;
    }
    ghost var around := Graft.RestNodes(t, pos);
    HasParts(at);
    if Proper(t) { ProperKind(t); }
    ghost var j;
    item, j := FindToDetach(parent, child, at);
    if item != null {
      rest, x := DetachAt(parent, item, t, pos, at, j);
      WithoutValue(at, j);
      ProperKind(rest);
    }
  }

  lemma HasParts(t: Tree)
    requires Fit(t)
    ensures (ValueOf(t).Array? || ValueOf(t).Object?) ==> Proper(t)
  {
  }

  lemma ProperKind(t: Tree)
    requires Proper(t)
    ensures !t.kind.InvalidKind?
  {
  }

  /** Takes child `j` off the node at `pos`. */
  method DetachAt(parent: Node, item: Node, ghost t: Tree, ghost pos: P.Position, ghost at: Tree, ghost j: nat)
    returns (ghost rest: Tree, ghost x: Tree)
    requires Held(t) && Graft.InTree(t, pos) && at == Graft.TreeAt(t, pos) && at.node == parent && Held(at) && Proper(t)
    requires P.Valid(ValueOf(t), pos) && Graft.LinkedBut(t, pos) && All(at) <= All(t) && j < |at.kids|
    requires item == at.kids[j].node
    modifies parent`child, Below(at)`next, Below(at)`prev
    ensures rest == Graft.PutTree(t, pos, WithoutKid(at, j)) && x == at.kids[j]
    ensures rest.node == t.node && rest.key == t.key && Held(rest) && Proper(rest) && All(rest) <= All(t)
    ensures ValueOf(rest) == PutAt(ValueOf(t), pos, ValueOf(WithoutKid(at, j)))
    ensures item.next == null && Held(x) && Proper(x) && All(x) <= All(t) && All(x) !! All(rest)
  {
    hide Shaped, Linked, Below, Tied, Proper, ValueOf, P.Valid, Graft.InTree, Graft.TreeAt, Graft.LinkedBut,
         Graft.PutTree, PutAt;
    ghost var below := NodesBelow(t);
    ghost var around := Graft.RestNodes(t, pos);
    Graft.ProperAt(t, pos);
    WithoutValue(at, j);
    ShapedKid(at, j);
    Outside(at);
    ghost var less := DetachKid(parent, item, at, j);
    assert Graft.LinkedBut(t, pos);
    Graft.Replant(t, pos, less);
    Graft.PutValue(t, pos, less);
    Graft.PutTied(t, pos, less);
    rest, x := Graft.PutTree(t, pos, less), at.kids[j];
  }

  // ----- Putting in -----

  datatype Change = Refused(status: nat) | Changed(parent: Value)

  /** What apply_patch makes of the parent of the place to put `value`. */
  function Added(parent: Value, child: cstring, value: Value, caseSensitive: bool): (r: Change)
    ensures r.Refused? ==> r.status != 0
    ensures r.Changed? ==> parent.Array? || parent.Object?
  {
    match parent
    case Array(items) =>
      if child == [MINUS] then Changed(Array(items + [value]))
      else
        (match P.DecodeIndex(child, 0)
         case None => Refused(11)
         case Some(i) => if i <= |items| then Changed(Array(InsertAt(items, i, value))) else Refused(10))
    case Object(members) => Changed(Object(DeleteKey(members, child, caseSensitive) + [Member(child, value)]))
    case _ => Refused(9)
  }

  lemma AddSplit(v: Value, path: cstring, value: Value, caseSensitive: bool)
    ensures AddAt(v, path, value, caseSensitive) ==
      match LastSlash(path, |path|)
      case None => Done(Live(v), 9)
      case Some(k) =>
        match P.Locate(v, path[..k], 0, caseSensitive)
        case None => Done(Live(v), 9)
        case Some(pos) =>
          match Added(P.ItemAt(v, pos), DecodeInPlace(path[k + 1..]), value, caseSensitive)
          case Refused(status) => Done(Live(v), status)
          case Changed(p) => Done(Live(PutAt(v, pos, p)), 0)
  {
    hide P.Locate, PutAt, DeleteKey, P.DecodeIndex, DecodeInPlace, P.ItemAt;
  }

  /** The tree and its value with `x` put in before child `k`. */
  lemma {:induction false} WithValueAt(t: Tree, k: nat, x: Tree)
    requires Proper(t) && t.kind.ArrayKind? && Proper(x) && k <= |t.kids|
    ensures Proper(WithKidAt(t, k, x))
    ensures ValueOf(WithKidAt(t, k, x)) == Array(InsertAt(Values(t.kids, |t.kids|), k, ValueOf(x)))
  {
    hide Values;
    ValuesInserted(t.kids, k, x);
  }

  lemma {:induction false} ValuesInserted(kids: seq<Tree>, k: nat, x: Tree)
    requires k <= |kids|
    ensures Values(InsertAt(kids, k, x), |kids| + 1) == InsertAt(Values(kids, |kids|), k, ValueOf(x))
  {
    hide Values, ValueOf;
    var more := InsertAt(kids, k, x);
    assert forall i :: 0 <= i < |more| && i != k ==> more[i] == kids[if i < k then i else i - 1];
  }

  /** The last part of apply_patch at the parent itself. */
  method AddTo(parent: Node, child: cstring, value: Node, caseSensitive: bool, ghost at: Tree, ghost x: Tree)
    returns (status: nat, ghost more: Tree)
    requires parent == at.node && Held(at) && All(at) !! All(x) && (Proper(at) ==> Proper(x))
    requires value == x.node && value.next == null && Held(x)
    modifies parent`child, Below(at)`next, Below(at)`prev, value`next, value`prev, value`key
    ensures more.node == parent && more.key == at.key && Held(more) && All(more) <= All(at) + All(x)
    ensures match Added(ValueOf(at), child, ValueOf(x), caseSensitive)
      case Refused(s) => status == s && more == at
      case Changed(p) => status == 0 && Proper(more) && ValueOf(more) == p
  {
    hide Shaped, Linked, Below, Tied, Proper, Values, Members, FindKey, P.DecodeIndex;
    KindOf(at);
    HasParts(at);
    ghost var below := NodesBelow(at);
    ghost var below' := NodesBelow(x);
    status, more := 0, at;
    NodeCompare.KindValue(at);
    hide ValueOf;
    if parent.kind.ArrayKind? {
      if child == [MINUS] {
        more := AppendKid(parent, value, at, x);
        AppendIsInsert(at, x);
      } else {
        var index := P.DecodeArrayIndex(child, 0);
        if index.None? {
          status := 11;
        } else {
          var ok;
          if index.value <= |at.kids| { WithValueAt(at, index.value, x); }
          ok, more := InsertKid(parent, index.value, value, at, x);
          if !ok {
            status := 10;
          }
        }
      }
    } else if parent.kind.ObjectKind? {
      more := PutMember(parent, child, value, caseSensitive, at, x);
    } else {
      status := 9;
    }
  }

  lemma AppendIsInsert(t: Tree, x: Tree)
    requires Proper(t) && t.kind.ArrayKind? && Proper(x)
    ensures Proper(WithKid(t, x)) && ValueOf(WithKid(t, x)) == Array(Values(t.kids, |t.kids|) + [ValueOf(x)])
  {
    var n := |t.kids|;
    WithValueAt(t, n, x);
    assert InsertAt(t.kids, n, x) == t.kids + [x];
    assert InsertAt(Values(t.kids, n), n, ValueOf(x)) == Values(t.kids, n) + [ValueOf(x)];
  }

  /** cJSON_DeleteItemFromObject, then cJSON_AddItemToObject. */
  method PutMember(parent: Node, name: cstring, value: Node, caseSensitive: bool, ghost at: Tree, ghost x: Tree)
    returns (ghost more: Tree)
    requires parent == at.node && Held(at) && Proper(at) && at.kind.ObjectKind? && All(at) !! All(x)
    requires value == x.node && value.next == null && Held(x) && Proper(x)
    modifies parent`child, Below(at)`next, Below(at)`prev, value`next, value`prev, value`key
    ensures more.node == parent && more.key == at.key && Held(more) && All(more) <= All(at) + All(x) && Proper(more)
    ensures ValueOf(more)
      == Object(DeleteKey(Members(at.kids, |at.kids|), name, caseSensitive) + [Member(name, ValueOf(x))])
  {
    hide Shaped, Linked, Below, Tied, Proper, Members, FindKey;
    ghost var below := NodesBelow(at);
    ghost var below' := NodesBelow(x);
    var found;
    ghost var j;
    ghost var rest := at;
    found, j := FindChild(parent, name, caseSensitive, at);
    if found != null {
      NodeMerge.OneLess(at, j);
      rest := DetachKid(parent, found, at, j);
    }
    NodeMerge.OneMore(rest, x, name);
    assert Linked(x);
    more := AddItemToObject(parent, name, value, rest, x);
  }

  /** The last part of apply_patch: put `value` at `path`. */
  method Attach(root: Node, path: cstring, value: Node, caseSensitive: bool, ghost t: Tree, ghost x: Tree)
    returns (status: nat, ghost t': Tree)
    requires root == t.node && Held(t) && All(t) !! All(x) && (Proper(t) ==> Proper(x))
    requires value == x.node && value.next == null && Held(x)
    modifies All(t)`child, All(t)`next, All(t)`prev, value`next, value`prev, value`key
    ensures t'.node == root && t'.key == t.key && Held(t') && All(t') <= All(t) + All(x)
    ensures Done(DocOf(t'), status) == AddStep(DocOf(t), path, Some(ValueOf(x)), 7, caseSensitive)
  {
    hide Shaped, Linked, Below, Tied, Proper, ValueOf, P.Locate, P.Valid, P.ItemAt, PutAt, LastSlash, DecodeInPlace,
         Added, Graft.InTree, Graft.TreeAt, Graft.PutTree, Graft.LinkedBut;
    status, t' := 9, t;
    ghost var below := NodesBelow(t);
    ghost var below' := NodesBelow(x);
    AddSplit(ValueOf(t), path, ValueOf(x), caseSensitive);
    hide Patch.AddAt;
    var front, child := PatchLoops.SplitPath(path);
    if front.None? {
      return;
    }
    var parent;
    ghost var pos, at;
    parent, pos, at := FindParent(root, front.value, caseSensitive, t);
    if parent == null {
      return;
    }
    InvalidRefuses(t, at, child, ValueOf(x), caseSensitive);
    status, t' := AttachAt(parent, child, value, caseSensitive, t, pos, at, x);
  }

  /** An invalid root has no place to put anything. */
  lemma InvalidRefuses(t: Tree, at: Tree, child: cstring, value: Value, caseSensitive: bool)
    requires Fit(t) && Fit(at) && (Proper(t) <==> Proper(at))
    ensures t.kind.InvalidKind? ==> Added(ValueOf(at), child, value, caseSensitive) == Refused(9)
  {
  }

  method AttachAt(parent: Node, child: cstring, value: Node, caseSensitive: bool,
                  ghost t: Tree, ghost pos: P.Position, ghost at: Tree, ghost x: Tree)
    returns (status: nat, ghost t': Tree)
    requires Held(t) && Graft.InTree(t, pos) && at == Graft.TreeAt(t, pos) && at.node == parent && Held(at)
    requires (Proper(t) <==> Proper(at)) && (Proper(t) ==> Proper(x)) && P.Valid(ValueOf(t), pos)
    requires Graft.LinkedBut(t, pos) && All(at) <= All(t) && All(t) !! All(x)
    requires value == x.node && value.next == null && Held(x)
    modifies parent`child, Below(at)`next, Below(at)`prev, value`next, value`prev, value`key
    ensures t'.node == t.node && t'.key == t.key && Held(t') && All(t') <= All(t) + All(x)
    ensures match Added(ValueOf(at), child, ValueOf(x), caseSensitive)
      case Refused(s) => status == s && t' == t
      case Changed(p) => status == 0 && DocOf(t') == Live(PutAt(ValueOf(t), pos, p))
  {
    hide Shaped, Linked, Below, Tied, Proper, ValueOf, P.Valid, PutAt, Added, Graft.InTree, Graft.TreeAt, Graft.PutTree,
         Graft.LinkedBut;
    ghost var below := NodesBelow(t);
    ghost var around := Graft.RestNodes(t, pos);
    Outside(at);
    ghost var more;
    status, more := AddTo(parent, child, value, caseSensitive, at, x);
    assert Graft.LinkedBut(t, pos);
    Outside(more);
    Graft.Replant(t, pos, more);
    t' := t;
    if Added(ValueOf(at), child, ValueOf(x), caseSensitive).Changed? {
      t' := Graft.PutTree(t, pos, more);
      FromParts(at, child, ValueOf(x), caseSensitive);
      Graft.PutValue(t, pos, more);
      Graft.PutTied(t, pos, more);
      ProperKind(t');
    } else {
      Graft.PutTogether(t, pos, at);
      PutBack(t, pos);
    }
  }

  lemma FromParts(at: Tree, child: cstring, value: Value, caseSensitive: bool)
    requires Fit(at) && Added(ValueOf(at), child, value, caseSensitive).Changed?
    ensures Proper(at)
  {
  }

  lemma {:induction false} PutBack(t: Tree, pos: P.Position)
    requires Graft.InTree(t, pos)
    ensures Graft.PutTree(t, pos, Graft.TreeAt(t, pos)) == t
    decreases |pos|
  {
    if pos != [] { PutBack(t.kids[pos[0]], pos[1..]); }
  }

  // ----- The patch object -----

  /** get_object_item on the patch, with the subtree it finds. */
  method GetField(patch: Node, name: cstring, caseSensitive: bool, ghost pt: Tree)
    returns (r: Node?, ghost f: Tree, ghost j: nat)
    requires patch == pt.node && Sound(pt) && Named(pt)
    ensures match Field(ValueOf(pt), name, caseSensitive)
      case None => r == null
      case Some(v) => r == f.node && ValueOf(f) == v && j < |pt.kids| && f == pt.kids[j]
    ensures r != null ==> Sound(f) && f.node.key == f.key && f.node.kind == f.kind && All(f) <= Below(pt)
  {
    hide Shaped, Linked, Below, Proper, Members, FindKey, Named;
    ghost var below := NodesBelow(pt);
    f := pt;
    NodeCompare.KindValue(pt);
    hide ValueOf;
    r, j := FindChild(patch, name, caseSensitive, pt);
    if r != null {
      f := pt.kids[j];
      ShapedKid(pt, j);
      ProperKid(pt, j);
      KindOf(f);
    }
  }

  lemma StringValue(f: Tree)
    requires Proper(f)
    ensures f.kind.StringKind? <==> ValueOf(f).String?
    ensures f.kind.StringKind? ==> ValueOf(f) == String(f.kind.s)
  {
  }

  /** decode_patch_operation. */
  method DecodeOp(patch: Node, caseSensitive: bool, ghost pt: Tree) returns (op: Operation)
    requires patch == pt.node && Sound(pt) && Named(pt)
    ensures op == DecodeOperation(ValueOf(pt), caseSensitive)
  {
    hide Shaped, Linked, Below, Proper, ValueOf, Field, Named;
    ghost var f, j;
    var operation;
    operation, f, j := GetField(patch, OP, caseSensitive, pt);
    if operation == null {
      return NoOperation;
    }
    StringValue(f);
    if !operation.kind.StringKind? {
      return NoOperation;
    }
    var s := operation.kind.s;
    op := if s == ADD then Add
          else if s == REMOVE then Remove
          else if s == REPLACE then Replace
          else if s == MOVE then Move
          else if s == COPY then Copy
          else if s == TEST then Test
          else NoOperation;
  }

  // ----- The root -----

  lemma Rehomed(x: Tree, root: Node)
    requires Held(x) && Proper(x) && root !in Below(x) && root.key == None
    requires root.child == x.node.child && root.kind == x.node.kind
    ensures var t := x.(node := root, key := None);
      Held(t) && Proper(t) && ValueOf(t) == ValueOf(x) && Below(t) == Below(x) && DocOf(t) == Live(ValueOf(x))
  {
  }

  /** overwrite_item with the copy of a value; the name is dropped. */
  method OverwriteRoot(root: Node, value: Node, ghost x: Tree) returns (ghost t': Tree)
    requires value == x.node && Held(x) && Proper(x) && root !in All(x)
    modifies root
    ensures t'.node == root && Held(t') && All(t') == Below(x) + {root} && DocOf(t') == Live(ValueOf(x))
  {
    hide Shaped, Linked, Below, Tied, Proper, ValueOf;
    ghost var below := NodesBelow(x);
    root.next, root.prev, root.child, root.kind, root.key := value.next, value.prev, value.child, value.kind, None;
    Rehomed(x, root);
    t' := x.(node := root, key := None);
  }

  /** overwrite_item with the invalid item. */
  method InvalidateRoot(root: Node) returns (ghost t': Tree)
    modifies root
    ensures t'.node == root && Held(t') && All(t') == {root} && DocOf(t') == Invalid
  {
    root.next, root.prev, root.child, root.kind, root.key := null, null, null, InvalidKind, None;
    t' := Tree(root, InvalidKind, None, null, []);
    NoKids();
  }

  // ----- Values for the document -----

  /** cJSON_Duplicate of a value of the patch or of the document. */
  method Copied(item: Node, ghost f: Tree) returns (r: Node, ghost d: Tree)
    requires item == f.node && item.key == f.key && Shaped(f) && Linked(f)
    ensures r == d.node && r.next == null && fresh(All(d)) && Shaped(d) && Linked(d) && Tied(d) && d.node.key == d.key
    ensures ValueOf(d) == ValueOf(f) && (Proper(d) <==> Proper(f)) && (Fit(f) ==> Fit(d))
  {
    hide Shaped, Linked, Below, Tied, Proper, ValueOf, Duplicate.Held;
    var copy;
    copy, d := Duplicate.Duplicate(item, true, f);
    NodeMerge.HeldValue(f, d);
    SameRoot(f, d);
    r := copy;
  }

  lemma SameRoot(f: Tree, d: Tree)
    requires Duplicate.Held(f) == Duplicate.Held(d)
    ensures f.kind == d.kind && (f.kids == [] <==> d.kids == [])
  {
  }

  // ----- Test -----

  /** The test compares something without repeated keys. */
  ghost predicate TestOnDistinct(doc: Document, patch: Value, caseSensitive: bool) {
    DecodeOperation(patch, caseSensitive) == Test && doc.Live? ==>
      match (Field(patch, PATH, caseSensitive), Field(patch, VALUE, caseSensitive))
      case (Some(String(path)), Some(value)) => ItemDistinct(doc.root, path, caseSensitive)
      case _ => true
  }

  ghost predicate ItemDistinct(root: Value, path: cstring, caseSensitive: bool) {
    match P.Locate(root, path, 0, caseSensitive)
    case None => true
    case Some(pos) => Distinct(P.ItemAt(root, pos))
  }

  /** If the patch is a test, every object of the document it sorts keeps its first and its last member, so
      that no child list comes untied. */
  ghost predicate TestKeepsTies(doc: Document, patch: Value, caseSensitive: bool) {
    DecodeOperation(patch, caseSensitive) == Test && doc.Live? ==>
      match (Field(patch, PATH, caseSensitive), Field(patch, VALUE, caseSensitive))
      case (Some(String(path)), Some(value)) =>
        ItemDistinct(doc.root, path, caseSensitive) && ValueKeepsTies(doc.root, path, value, caseSensitive)
      case _ => true
  }

  ghost predicate ValueKeepsTies(root: Value, path: cstring, value: Value, caseSensitive: bool) {
    match P.Locate(root, path, 0, caseSensitive)
    case None => true
    case Some(pos) => NodeCompare.Settled(P.ItemAt(root, pos), value, caseSensitive)
  }

  /** A test: compare_json on what the path leads to and on the value of the patch. */
  method TestPath(root: Node, path: cstring, patch: Node, caseSensitive: bool, ghost t: Tree, ghost pt: Tree)
    returns (status: nat, ghost t': Tree, ghost pt': Tree)
    requires root == t.node && Standing(t) && patch == pt.node && Sound(pt) && Named(pt) && All(t) !! All(pt)
    modifies All(t)`child, All(t)`next, All(t)`prev, Below(pt)`child, Below(pt)`next, Below(pt)`prev
    ensures t'.node == root && Standing(t') && All(t') == All(t)
    ensures pt'.node == patch && Sound(pt') && All(pt') == All(pt) && pt'.key == pt.key
    ensures var value := Field(ValueOf(pt), VALUE, caseSensitive);
      && status == TestStatus(DocOf(t), path, value, caseSensitive)
      && DocOf(t') == TestedDocument(DocOf(t), path, value, caseSensitive)
      && (value.Some? && Proper(t) && Tied(t) && ItemDistinct(ValueOf(t), path, caseSensitive) ==>
            (Tied(t') <==> ValueKeepsTies(ValueOf(t), path, value.value, caseSensitive)))
      && (value.None? || !Proper(t) ==> t' == t)
  {
    hide Shaped, Linked, Below, Tied, Proper, ValueOf, P.Locate, P.Valid, P.ItemAt, PutAt, Field, Named, Distinct,
         Graft.InTree, Graft.TreeAt, Graft.PutTree, Graft.LinkedBut;
    status, t', pt' := 1, t, pt;
    ghost var below := NodesBelow(t);
    ghost var below' := NodesBelow(pt);
    InvalidValue(t);
    var found;
    ghost var pos, at;
    found, pos, at := FindParent(root, path, caseSensitive, t);
    ghost var around: set<Node> := {};
    if found != null { around := Graft.RestNodes(t, pos); }
    ghost var f, j;
    var value;
    value, f, j := GetField(patch, VALUE, caseSensitive, pt);
    if found == null || value == null {
      return;
    }
    var same;
    same, t', pt' := TestAt(found, value, caseSensitive, t, pos, at, pt, j);
    status := if same then 0 else 1;
  }

  lemma InvalidValue(t: Tree)
    requires Fit(t)
    ensures Proper(t) <==> !t.kind.InvalidKind?
  {
  }

  method TestAt(found: Node, value: Node, caseSensitive: bool, ghost t: Tree, ghost pos: P.Position, ghost at: Tree,
                ghost pt: Tree, ghost j: nat) returns (same: bool, ghost t': Tree, ghost pt': Tree)
    requires Standing(t) && Graft.InTree(t, pos) && at == Graft.TreeAt(t, pos) && at.node == found && Standing(at)
    requires (Proper(t) <==> Proper(at)) && P.Valid(ValueOf(t), pos) && ValueOf(at) == P.ItemAt(ValueOf(t), pos)
    requires Graft.LinkedBut(t, pos) && All(at) <= All(t)
    requires Sound(pt) && j < |pt.kids| && value == pt.kids[j].node && All(t) !! All(pt)
    modifies found`child, Below(at)`child, Below(at)`next, Below(at)`prev, Below(pt)`child, Below(pt)`next
    modifies Below(pt)`prev
    ensures t'.node == t.node && Standing(t') && All(t') == All(t)
    ensures pt'.node == pt.node && Sound(pt') && All(pt') == All(pt) && pt'.key == pt.key
    ensures same <==> Proper(t) && Compare.CompareJson(ValueOf(at), ValueOf(pt.kids[j]), caseSensitive)
    ensures Proper(t) ==>
      var v := Compare.Arrange(P.ItemAt(ValueOf(t), pos), ValueOf(pt.kids[j]), caseSensitive);
      DocOf(t') == Live(PutAt(ValueOf(t), pos, v))
    ensures Proper(t) && Tied(t) && Distinct(ValueOf(at)) ==>
      (Tied(t') <==> NodeCompare.Settled(ValueOf(at), ValueOf(pt.kids[j]), caseSensitive))
    ensures !Proper(t) ==> t' == t
  {
    hide Shaped, Linked, Below, Tied, Proper, ValueOf, P.Valid, P.ItemAt, PutAt, Distinct, Compare.CompareJson,
         Compare.Arrange, NodeCompare.Settled, NodeCompare.Arranged, Graft.InTree, Graft.TreeAt, Graft.PutTree,
         Graft.LinkedBut;
    ghost var f := pt.kids[j];
    ghost var below := NodesBelow(t);
    ghost var below' := NodesBelow(pt);
    ShapedKid(pt, j);
    ProperKid(pt, j);
    Outside(at);
    Outside(f);
    Outside(pt);
    Graft.OneStep(pt, j, f);
    Graft.TakeApart(pt, [j]);
    ghost var around := Graft.RestNodes(t, pos);
    ghost var around' := Graft.RestNodes(pt, [j]);
    ghost var a, g;
    same, a, g := NodeCompare.CompareNodes(found, value, caseSensitive, at, f);
    assert Graft.LinkedBut(t, pos) && Graft.LinkedBut(pt, [j]);
    NodeCompare.ArrangedRoot(at, f, caseSensitive);
    NodeCompare.ArrangedRoot(f, at, caseSensitive);
    Outside(a);
    Outside(g);
    Graft.Replant(t, pos, a);
    Graft.Replant(pt, [j], g);
    Graft.OneStep(pt, j, g);
    t', pt' := Graft.PutTree(t, pos, a), Graft.PutTree(pt, [j], g);
    TestedTrees(t, pos, at, pt, j, f, caseSensitive);
    TestedTies(t, pos, at, f, caseSensitive);
  }

  /** What the two trees hold after a test. */
  lemma TestedTrees(t: Tree, pos: P.Position, at: Tree, pt: Tree, j: nat, f: Tree, caseSensitive: bool)
    requires Shaped(t) && Fit(t) && Graft.InTree(t, pos) && at == Graft.TreeAt(t, pos) && Shaped(at) && Fit(at)
    requires (Proper(t) <==> Proper(at)) && P.Valid(ValueOf(t), pos) && ValueOf(at) == P.ItemAt(ValueOf(t), pos)
    requires Proper(pt) && j < |pt.kids| && f == pt.kids[j]
    ensures var t' := Graft.PutTree(t, pos, NodeCompare.Arranged(at, f, caseSensitive));
      && Fit(t') && (!Proper(t) ==> t' == t)
      && (Proper(t) ==>
            var v := Compare.Arrange(P.ItemAt(ValueOf(t), pos), ValueOf(f), caseSensitive);
            DocOf(t') == Live(PutAt(ValueOf(t), pos, v)))
    ensures Graft.InTree(pt, [j]) && Proper(Graft.PutTree(pt, [j], NodeCompare.Arranged(f, at, caseSensitive)))
  {
    hide Shaped, Tied, Proper, ValueOf, P.Valid, P.ItemAt, PutAt, Distinct, Compare.Arrange, NodeCompare.Settled,
         NodeCompare.Arranged, Graft.InTree, Graft.TreeAt, Graft.PutTree;
    ProperKid(pt, j);
    Graft.OneStep(pt, j, f);
    var a, g := NodeCompare.Arranged(at, f, caseSensitive), NodeCompare.Arranged(f, at, caseSensitive);
    InvalidValue(t);
    if Proper(t) {
      NodeCompare.ArrangedValue(at, f, caseSensitive);
      NodeCompare.ArrangedValue(f, at, caseSensitive);
      Graft.PutValue(t, pos, a);
      ProperKind(Graft.PutTree(t, pos, a));
    } else {
      InvalidValue(at);
      NodeCompare.ArrangedUnfold(at, f, caseSensitive);
      NodeCompare.ArrangedUnfold(f, at, caseSensitive);
      PutBack(t, pos);
    }
    Graft.PutValue(pt, [j], g);
  }

  /** The document is still tied exactly when the part that was compared is. */
  lemma TestedTies(t: Tree, pos: P.Position, at: Tree, f: Tree, caseSensitive: bool)
    requires Shaped(t) && Graft.InTree(t, pos) && at == Graft.TreeAt(t, pos) && Shaped(at)
    requires (Proper(t) <==> Proper(at)) && Proper(f)
    ensures Proper(t) && Tied(t) && Distinct(ValueOf(at)) ==>
      (Tied(Graft.PutTree(t, pos, NodeCompare.Arranged(at, f, caseSensitive)))
       <==> NodeCompare.Settled(ValueOf(at), ValueOf(f), caseSensitive))
  {
    hide Shaped, Tied, Proper, ValueOf, Distinct, NodeCompare.Settled, NodeCompare.Arranged, Graft.InTree, Graft.TreeAt,
         Graft.PutTree;
    if Proper(t) && Tied(t) && Distinct(ValueOf(at)) {
      var a := NodeCompare.Arranged(at, f, caseSensitive);
      Graft.TiedAt(t, pos);
      NodeCompare.ArrangedTied(at, f, caseSensitive);
      NodeCompare.ArrangedRoot(at, f, caseSensitive);
      Graft.PutThere(t, pos, a);
      if Tied(a) { Graft.PutTied(t, pos, a); }
      if Tied(Graft.PutTree(t, pos, a)) { Graft.TiedAt(Graft.PutTree(t, pos, a), pos); }
    }
  }

  // ----- The other operations -----

  /** Add and the second half of replace: a copy of the value of the patch goes to `path`. */
  method Bring(root: Node, path: cstring, patch: Node, caseSensitive: bool, ghost t: Tree, ghost pt: Tree)
    returns (status: nat, ghost t': Tree)
    requires root == t.node && Held(t) && patch == pt.node && Sound(pt) && Named(pt) && All(t) !! All(pt)
    modifies All(t)`child, All(t)`next, All(t)`prev
    ensures t'.node == root && Held(t') && fresh(All(t') - All(t)) && Sound(pt)
    ensures Done(DocOf(t'), status)
      == AddStep(DocOf(t), path, Field(ValueOf(pt), VALUE, caseSensitive), 7, caseSensitive)
  {
    hide Shaped, Linked, Below, Tied, Proper, ValueOf, Field, AddAt, Named;
    ghost var below := NodesBelow(t);
    ghost var below' := NodesBelow(pt);
    var value;
    ghost var f, j;
    value, f, j := GetField(patch, VALUE, caseSensitive, pt);
    if value == null {
      return 7, t;
    }
    ghost var x;
    var item;
    item, x := Copied(value, f);
    ghost var added := All(x);
    status, t' := Attach(root, path, item, caseSensitive, t, x);
    forall n | n in All(t') && n !in All(t) ensures fresh(n) { assert n in added; }
  }

  /** Add and replace at the root. */
  method BringRoot(root: Node, patch: Node, caseSensitive: bool, ghost t: Tree, ghost pt: Tree)
    returns (status: nat, ghost t': Tree)
    requires root == t.node && Held(t) && patch == pt.node && Sound(pt) && Named(pt) && All(t) !! All(pt)
    modifies root
    ensures t'.node == root && Held(t') && fresh(All(t') - All(t)) && Sound(pt)
    ensures Done(DocOf(t'), status) == RootStep(DocOf(t), Field(ValueOf(pt), VALUE, caseSensitive))
  {
    hide Shaped, Linked, Below, Tied, Proper, ValueOf, Field, Named;
    ghost var below := NodesBelow(t);
    ghost var below' := NodesBelow(pt);
    var value;
    ghost var f, j;
    value, f, j := GetField(patch, VALUE, caseSensitive, pt);
    if value == null {
      return 7, t;
    }
    ghost var x;
    var item;
    item, x := Copied(value, f);
    ghost var added := All(x);
    t' := OverwriteRoot(root, item, x);
    status := 0;
    forall n | n in All(t') && n !in All(t) ensures fresh(n) { assert n in added; }
  }

  /** Move: what "from" leads to is detached and put at `path`. */
  method MoveItem(root: Node, path: cstring, patch: Node, caseSensitive: bool, ghost t: Tree, ghost pt: Tree)
    returns (status: nat, crashed: bool, ghost t': Tree)
    requires root == t.node && Held(t) && patch == pt.node && Sound(pt) && Named(pt) && All(t) !! All(pt)
    modifies All(t)
    ensures t'.node == root && Held(t') && All(t') <= All(t) && Sound(pt)
    ensures match Field(ValueOf(pt), FROM, caseSensitive)
      case None => !crashed && status == 4 && DocOf(t') == DocOf(t)
      case Some(String(from)) =>
        !crashed
        && Done(DocOf(t'), status) == (match Taken(DocOf(t), from, caseSensitive)
                                       case None => Done(DocOf(t), 5)
                                       case Some(d) => AddStep(Live(d.root), path, Some(d.item), 5, caseSensitive))
      case _ => crashed
  {
    hide Shaped, Linked, Below, Tied, Proper, ValueOf, Field, AddAt, Taken, Named;
    status, crashed, t' := 4, false, t;
    ghost var below := NodesBelow(t);
    ghost var below' := NodesBelow(pt);
    var from;
    ghost var f, j;
    from, f, j := GetField(patch, FROM, caseSensitive, pt);
    if from == null {
      return;
    }
    StringValue(f);
    if !from.kind.StringKind? {
      crashed := true;
      return;
    }
    var item;
    ghost var rest, x;
    item, rest, x := Detach(root, from.kind.s, caseSensitive, t);
    if item == null {
      return 5, false, t;
    }
    status, t' := Attach(root, path, item, caseSensitive, rest, x);
  }

  /** Copy: a duplicate of what "from" leads to is put at `path`. */
  method CopyItem(root: Node, path: cstring, patch: Node, caseSensitive: bool, ghost t: Tree, ghost pt: Tree)
    returns (status: nat, ghost t': Tree)
    requires root == t.node && Held(t) && patch == pt.node && Sound(pt) && Named(pt) && All(t) !! All(pt)
    modifies All(t)`child, All(t)`next, All(t)`prev
    ensures t'.node == root && Held(t') && fresh(All(t') - All(t)) && Sound(pt)
    ensures match Field(ValueOf(pt), FROM, caseSensitive)
      case None => status == 4 && DocOf(t') == DocOf(t)
      case Some(from) => Done(DocOf(t'), status) == CopyStep(DocOf(t), from, path, caseSensitive)
  {
    hide Shaped, Linked, Below, Tied, Proper, ValueOf, Field, AddAt, AddStep, CopyStep, P.Locate, P.ItemAt, P.Valid,
         Named, Graft.InTree, Graft.TreeAt, Graft.LinkedBut;
    status, t' := 4, t;
    ghost var below := NodesBelow(t);
    ghost var below' := NodesBelow(pt);
    var from;
    ghost var f, j;
    from, f, j := GetField(patch, FROM, caseSensitive, pt);
    if from == null {
      return;
    }
    StringValue(f);
    CopySource(t, ValueOf(f), path, caseSensitive);
    if !from.kind.StringKind? {
      return 5, t;
    }
    var found;
    ghost var pos, at;
    found, pos, at := FindParent(root, from.kind.s, caseSensitive, t);
    if found == null {
      return 5, t;
    }
    ghost var x;
    var item;
    item, x := Copied(found, at);
    ghost var added := All(x);
    status, t' := Attach(root, path, item, caseSensitive, t, x);
    forall n | n in All(t') && n !in All(t) ensures fresh(n) { assert n in added; }
  }

  /** What a copy adds, if anything. */
  lemma CopySource(t: Tree, from: Value, path: cstring, caseSensitive: bool)
    requires Fit(t)
    ensures !from.String? ==> CopyStep(DocOf(t), from, path, caseSensitive) == Done(DocOf(t), 5)
    ensures from.String? ==>
      CopyStep(DocOf(t), from, path, caseSensitive) ==
      match P.Locate(ValueOf(t), from.s, 0, caseSensitive)
      case None => Done(DocOf(t), 5)
      case Some(pos) => AddStep(DocOf(t), path, Some(P.ItemAt(ValueOf(t), pos)), 7, caseSensitive)
  {
    hide AddAt;
    if from.String? { InvalidLocate(t, from.s, caseSensitive); }
  }

  /** On an invalid root only the root itself can be named. */
  lemma InvalidLocate(t: Tree, ptr: cstring, caseSensitive: bool)
    requires Fit(t)
    ensures Proper(t) <==> !t.kind.InvalidKind?
    ensures t.kind.InvalidKind? ==>
      (P.Locate(ValueOf(t), ptr, 0, caseSensitive).None? <==> ptr != [] && ptr[0] == SLASH)
  {
  }

  // ----- apply_patch -----

  /** Remove and the first half of replace. */
  method RemoveItem(root: Node, path: cstring, caseSensitive: bool, ghost t: Tree) returns (status: nat, ghost t': Tree)
    requires root == t.node && Held(t)
    modifies All(t)`child, All(t)`next, All(t)`prev
    ensures t'.node == root && Held(t') && All(t') <= All(t)
    ensures Done(DocOf(t'), status) == RemoveStep(DocOf(t), path, caseSensitive)
  {
    hide Shaped, Linked, Below, Tied, Proper, ValueOf, Taken;
    ghost var x;
    var item;
    item, t', x := Detach(root, path, caseSensitive, t);
    status := if item == null then 13 else 0;
  }

  method ReplaceItem(root: Node, path: cstring, patch: Node, caseSensitive: bool, ghost t: Tree, ghost pt: Tree)
    returns (status: nat, ghost t': Tree)
    requires root == t.node && Held(t) && patch == pt.node && Sound(pt) && Named(pt) && All(t) !! All(pt)
    modifies All(t)`child, All(t)`next, All(t)`prev
    ensures t'.node == root && Held(t') && fresh(All(t') - All(t)) && Sound(pt)
    ensures var removed := RemoveStep(DocOf(t), path, caseSensitive);
      Done(DocOf(t'), status) == if removed.status == 0
        then AddStep(removed.doc, path, Field(ValueOf(pt), VALUE, caseSensitive), 7, caseSensitive) else removed
  {
    hide Shaped, Linked, Below, Tied, Proper, ValueOf, Taken, AddAt, Field, Named;
    ghost var below := NodesBelow(t);
    ghost var below' := NodesBelow(pt);
    status, t' := RemoveItem(root, path, caseSensitive, t);
    if status == 0 {
      ghost var rest := t';
      ghost var left := All(rest);
      label L:
      status, t' := Bring(root, path, patch, caseSensitive, rest, pt);
      ghost var added := All(t') - left;
      assert fresh@L(added) && fresh(added);
      forall n | n in All(t') && n !in All(t) ensures fresh(n) { assert n in added; }
    }
  }

  /** The patch adds to or takes from a child list. */
  ghost predicate Relinks(patch: Value, caseSensitive: bool) {
    var op := DecodeOperation(patch, caseSensitive);
    op != Test && op != NoOperation && Field(patch, PATH, caseSensitive).Some?
    && Field(patch, PATH, caseSensitive).value.String?
  }

  /** apply_patch; `crashed` is the read through a null pointer. Only a patch that relinks a child list needs
      a document whose lists are tied, and only a test can untie one. */
  method Apply(root: Node, patch: Node, caseSensitive: bool, ghost t: Tree, ghost pt: Tree)
    returns (status: nat, crashed: bool, ghost t': Tree, ghost pt': Tree)
    requires root == t.node && Standing(t) && patch == pt.node && Sound(pt) && Named(pt) && All(t) !! All(pt)
    requires Relinks(ValueOf(pt), caseSensitive) ==> Tied(t)
    modifies All(t), Below(pt)`child, Below(pt)`next, Below(pt)`prev
    ensures t'.node == root && Standing(t') && fresh(All(t') - All(t))
    ensures pt'.node == patch && Sound(pt') && All(pt') == All(pt) && pt'.key == pt.key
    ensures crashed <==> ApplyPatch(DocOf(t), ValueOf(pt), caseSensitive).NullString?
    ensures !crashed ==> Done(DocOf(t'), status) == ApplyPatch(DocOf(t), ValueOf(pt), caseSensitive)
    ensures Tied(t) && TestOnDistinct(DocOf(t), ValueOf(pt), caseSensitive) ==>
      (Tied(t') <==> TestKeepsTies(DocOf(t), ValueOf(pt), caseSensitive))
  {
    hide Shaped, Linked, Below, Tied, Proper, ValueOf, Field, Named, DecodeOperation, TestStatus, TestedDocument,
         AddStep, Taken, RootStep, CopyStep, ValueKeepsTies, ItemDistinct;
    status, crashed, t', pt' := 0, false, t, pt;
    ghost var below := NodesBelow(t);
    ghost var below' := NodesBelow(pt);
    var at;
    ghost var f, j;
    at, f, j := GetField(patch, PATH, caseSensitive, pt);
    if at == null {
      return 2, false, t, pt;
    }
    StringValue(f);
    if !at.kind.StringKind? {
      return 2, false, t, pt;
    }
    var path := at.kind.s;
    var opcode := DecodeOp(patch, caseSensitive, pt);
    InvalidValue(t);
    if opcode == NoOperation {
      status := 3;
    } else if opcode == Test {
      status, t', pt' := TestPath(root, path, patch, caseSensitive, t, pt);
    } else {
      label L:
      status, crashed, t' := Perform(root, path, opcode, patch, caseSensitive, t, pt);
      ghost var added := All(t') - All(t);
      assert fresh@L(added) && fresh(added);
      forall n | n in All(t') && n !in All(t) ensures fresh(n) { assert n in added; }
    }
  }

  /** The operations that change the document. */
  method Perform(root: Node, path: cstring, opcode: Operation, patch: Node, caseSensitive: bool, ghost t: Tree,
                 ghost pt: Tree) returns (status: nat, crashed: bool, ghost t': Tree)
    requires root == t.node && Held(t) && patch == pt.node && Sound(pt) && Named(pt) && All(t) !! All(pt)
    requires opcode == DecodeOperation(ValueOf(pt), caseSensitive) && opcode != Test && opcode != NoOperation
    requires Field(ValueOf(pt), PATH, caseSensitive) == Some(String(path))
    modifies All(t)
    ensures t'.node == root && Held(t') && fresh(All(t') - All(t)) && Sound(pt)
    ensures crashed <==> ApplyPatch(DocOf(t), ValueOf(pt), caseSensitive).NullString?
    ensures !crashed ==> Done(DocOf(t'), status) == ApplyPatch(DocOf(t), ValueOf(pt), caseSensitive)
  {
    hide Shaped, Linked, Below, Tied, Proper, ValueOf, Field, Named, DecodeOperation, AddStep, Taken, RootStep,
         CopyStep;
    status, crashed, t' := 0, false, t;
    ghost var below := NodesBelow(t);
    ghost var below' := NodesBelow(pt);
    label L:
    match opcode {
      case Remove =>
        if path == [] {
          t' := InvalidateRoot(root);
        } else {
          status, t' := RemoveItem(root, path, caseSensitive, t);
        }
      case Replace =>
        if path == [] {
          status, t' := BringRoot(root, patch, caseSensitive, t, pt);
        } else {
          status, t' := ReplaceItem(root, path, patch, caseSensitive, t, pt);
        }
      case Add =>
        if path == [] {
          status, t' := BringRoot(root, patch, caseSensitive, t, pt);
        } else {
          status, t' := Bring(root, path, patch, caseSensitive, t, pt);
        }
      case Move => status, crashed, t' := MoveItem(root, path, patch, caseSensitive, t, pt);
      case Copy => status, t' := CopyItem(root, path, patch, caseSensitive, t, pt);
    }
    ghost var added := All(t') - All(t);
    assert fresh@L(added) && fresh(added);
    forall n | n in All(t') && n !in All(t) ensures fresh(n) { assert n in added; }
  }

  // ----- A list of patches -----

  /** No test of the run unties a child list of the document as it is by then. */
  ghost predicate RunKeepsTies(doc: Document, patches: seq<Value>, i: nat, caseSensitive: bool)
    requires i <= |patches|
    decreases |patches| - i
  {
    i == |patches|
    || (TestKeepsTies(doc, patches[i], caseSensitive)
        && var r := ApplyPatch(doc, patches[i], caseSensitive);
           r.Done? && r.status == 0 ==> RunKeepsTies(r.doc, patches, i + 1, caseSensitive))
  }

  /** No patch that relinks a child list comes after a test that unties one. */
  ghost predicate RunFits(doc: Document, patches: seq<Value>, i: nat, tied: bool, caseSensitive: bool)
    requires i <= |patches|
    decreases |patches| - i
  {
    i == |patches|
    || ((Relinks(patches[i], caseSensitive) ==> tied)
        && var r := ApplyPatch(doc, patches[i], caseSensitive);
           r.Done? && r.status == 0 ==>
             RunFits(r.doc, patches, i + 1, tied && TestKeepsTies(doc, patches[i], caseSensitive), caseSensitive))
  }

  lemma {:induction false} KeptFits(doc: Document, patches: seq<Value>, i: nat, caseSensitive: bool)
    requires i <= |patches| && RunKeepsTies(doc, patches, i, caseSensitive)
    ensures RunFits(doc, patches, i, true, caseSensitive)
    decreases |patches| - i
  {
    hide ApplyPatch, TestKeepsTies, Relinks;
    if i < |patches| {
      var r := ApplyPatch(doc, patches[i], caseSensitive);
      if r.Done? && r.status == 0 { KeptFits(r.doc, patches, i + 1, caseSensitive); }
    }
  }

  /** The list of patches with the trees from `i` on as they were. */
  ghost predicate Ahead(now: Tree, ps: Tree, i: nat)
    reads now.node`child, now.node`kind, Below(now)`next, Below(now)`prev, Below(now)`child, Below(now)`kind
    reads Below(now)`key
  {
    && now.node == ps.node && now.kind == ps.kind && |now.kids| == |ps.kids| && Sound(now) && All(now) == All(ps)
    && (forall k :: i <= k < |ps.kids| ==> now.kids[k] == ps.kids[k])
    && (forall k :: 0 <= k < |ps.kids| ==> now.kids[k].node == ps.kids[k].node)
  }

  /** cJSONUtils_ApplyPatches and its case-sensitive twin. */
  method ApplyPatches(root: Node, patches: Node?, caseSensitive: bool, ghost t: Tree, ghost ps: Tree)
    returns (status: nat, crashed: bool, ghost t': Tree)
    requires root == t.node && Standing(t)
    requires patches != null ==>
      && patches == ps.node && Sound(ps) && All(t) !! All(ps) && (forall k :: 0 <= k < |ps.kids| ==> Named(ps.kids[k]))
      && (ps.kind.ArrayKind? ==> RunFits(DocOf(t), Values(ps.kids, |ps.kids|), 0, Tied(t), caseSensitive))
    modifies All(t), Below(ps)`child, Below(ps)`next, Below(ps)`prev
    ensures t'.node == root && Standing(t') && fresh(All(t') - All(t))
    ensures patches == null || !ps.kind.ArrayKind? ==> status == 1 && !crashed && t' == t
    ensures patches != null && ps.kind.ArrayKind? ==>
      var goal := ApplyFrom(DocOf(t), Values(ps.kids, |ps.kids|), 0, caseSensitive);
      (crashed <==> goal.NullString?) && (!crashed ==> Done(DocOf(t'), status) == goal)
    ensures patches != null && ps.kind.ArrayKind? && Tied(t) ==>
      RunKeepsTies(DocOf(t), Values(ps.kids, |ps.kids|), 0, caseSensitive) ==> Tied(t')
  {
    hide Shaped, Linked, Below, Tied, Proper, ValueOf, Values, Named, ApplyPatch, TestKeepsTies, Ahead, Relinks;
    status, crashed, t' := 1, false, t;
    if patches == null {
      return;
    }
    KindOf(ps);
    if !patches.kind.ArrayKind? {
      return;
    }
    ghost var values := Values(ps.kids, |ps.kids|);
    ghost var i, now, tied := 0, ps, Tied(t);
    ghost var kept := tied && RunKeepsTies(DocOf(t), values, 0, caseSensitive);
    ghost var below := NodesBelow(t);
    ghost var below' := NodesBelow(ps);
    StartAhead(ps);
    KidsLinked(ps);
    var current := patches.child;
    while current != null
      invariant !crashed && 0 <= i <= |ps.kids| && current == (if i < |ps.kids| then ps.kids[i].node else null)
      invariant Ahead(now, ps, i) && All(t') !! All(ps)
      invariant t'.node == root && Standing(t') && fresh(All(t') - All(t)) && (tied ==> Tied(t'))
      invariant RunFits(DocOf(t'), values, i, tied, caseSensitive)
      invariant kept ==> tied && RunKeepsTies(DocOf(t'), values, i, caseSensitive)
      invariant ApplyFrom(DocOf(t'), values, i, caseSensitive) == ApplyFrom(DocOf(t), values, 0, caseSensitive)
      decreases |ps.kids| - i
    {
      tied := tied && TestKeepsTies(DocOf(t'), values[i], caseSensitive);
      ghost var was := All(t');
      label L:
      status, crashed, t', now := ApplyNext(root, current, caseSensitive, t', now, ps, i);
      ghost var added := All(t') - was;
      assert fresh@L(added) && fresh(added);
      forall n | n in All(t') && n !in All(t) ensures fresh(n) { assert n in added || n in was - All(t); }
      if crashed || status != 0 {
        return;
      }
      current := current.next;
      i := i + 1;
    }
    status := 0;
  }

  lemma StartAhead(ps: Tree)
    requires Sound(ps)
    ensures Ahead(ps, ps, 0)
  {
  }

  /** One patch of the list; the others are left as they are. */
  method ApplyNext(root: Node, current: Node, caseSensitive: bool, ghost t: Tree, ghost now: Tree, ghost ps: Tree,
                   ghost i: nat)
    returns (status: nat, crashed: bool, ghost t': Tree, ghost next: Tree)
    requires root == t.node && Standing(t) && Ahead(now, ps, i) && i < |ps.kids| && current == ps.kids[i].node
    requires Named(ps.kids[i])
    requires All(t) !! All(ps) && (Relinks(ValueOf(ps.kids[i]), caseSensitive) ==> Tied(t))
    modifies All(t), Below(ps)`child, Below(ps)`next, Below(ps)`prev
    ensures t'.node == root && Standing(t') && fresh(All(t') - All(t)) && All(t') !! All(ps)
    ensures Tied(t) && TestKeepsTies(DocOf(t), ValueOf(ps.kids[i]), caseSensitive) ==> Tied(t')
    ensures Ahead(next, ps, i + 1) && current.next == if i + 1 < |ps.kids| then ps.kids[i + 1].node else null
    ensures var goal := ApplyPatch(DocOf(t), ValueOf(ps.kids[i]), caseSensitive);
      (crashed <==> goal.NullString?) && (!crashed ==> Done(DocOf(t'), status) == goal)
  {
    hide Shaped, Linked, Below, Tied, Proper, ValueOf, Named, ApplyPatch, TestKeepsTies, TestOnDistinct, Relinks,
         Graft.InTree, Graft.TreeAt,
         Graft.PutTree, Graft.LinkedBut;
    ghost var below := NodesBelow(t);
    ghost var below' := NodesBelow(now);
    ghost var pt := ps.kids[i];
    ghost var all := All(ps);
    ShapedKid(now, i);
    ProperKid(now, i);
    Outside(now);
    Graft.OneStep(now, i, pt);
    Graft.TakeApart(now, [i]);
    ghost var around := Graft.RestNodes(now, [i]);
    if TestKeepsTies(DocOf(t), ValueOf(pt), caseSensitive) { OnDistinct(DocOf(t), ValueOf(pt), caseSensitive); }
    ghost var g;
    label L:
    status, crashed, t', g := Apply(root, current, caseSensitive, t, pt);
    assert Graft.LinkedBut(now, [i]);
    Outside(g);
    Outside(pt);
    Graft.Replant(now, [i], g);
    Graft.OneStep(now, i, g);
    Graft.PutValue(now, [i], g);
    next := now.(kids := now.kids[i := g]);
    NodeCompare.Disassembled(next, i);
    ghost var added := All(t') - All(t);
    assert fresh@L(added) && fresh(added);
    forall n | n in All(t') && n !in All(t) ensures fresh(n) { assert n in added; }
    forall n | n in All(t') ensures n !in all { assert n in All(t) || n in added; }
  }

  lemma OnDistinct(doc: Document, patch: Value, caseSensitive: bool)
    requires TestKeepsTies(doc, patch, caseSensitive)
    ensures TestOnDistinct(doc, patch, caseSensitive)
  {
  }

  // ----- When a test unties a list -----

  /** A test at the root followed by the add of a new member. If sorting brings another member to the front,
      the add reports success and the item is in no child list; otherwise the item follows the member that
      was last, and the members sorted behind that one are cut off. */
  method TestThenAdd(root: Node, value: Node, name: cstring, item: Node, caseSensitive: bool, ghost t: Tree,
                     ghost u: Tree, ghost x: Tree)
    returns (same: bool, added: bool, ghost t': Tree, ghost k: nat)
    requires root == t.node && Held(t) && t.kind.ObjectKind? && value == u.node && Sound(u) && u.kind.ObjectKind?
    requires item == x.node && item.next == null && Held(x) && Proper(x) && t.kids != []
    requires All(t) !! All(u) && All(x) !! All(t) && All(x) !! All(u)
    modifies All(t), All(u), item
    ensures same == Compare.CompareJson(ValueOf(t), ValueOf(u), caseSensitive) && added
    ensures t'.node == root && Shaped(t') && Linked(t')
    ensures var sorted := SortList.Sorted(t.kids, caseSensitive);
      var left := Compare.Arrange(ValueOf(t), ValueOf(u), caseSensitive);
      if sorted[0] != t.kids[0] then ValueOf(t') == left
      else
        && k < |sorted| && sorted[k] == t.kids[|t.kids| - 1] && left.Object? && k < |left.members|
        && ValueOf(t') == Object(left.members[..k + 1] + [Member(name, ValueOf(x))])
  {
    hide Shaped, Linked, Below, Tied, Proper, ValueOf, Compare.CompareJson, Compare.Arrange, NodeCompare.Arranged,
         SortList.Sorted;
    ghost var below := NodesBelow(t);
    ghost var below' := NodesBelow(x);
    InvalidValue(t);
    ghost var u', a;
    same, a, u' := NodeCompare.CompareNodes(root, value, caseSensitive, t, u);
    NodeCompare.ArrangedValue(t, u, caseSensitive);
    k, t' := 0, a;
    assert Linked(x);
    Renamed(x, Some(name));
    Outside(x);
    item.key := Some(name);
    assert Linked(x) && Linked(a);
    ghost var y := x.(key := Some(name));
    Renamed(x, Some(name));
    if SortList.Sorted(t.kids, caseSensitive)[0] != t.kids[0] {
      FrontUntied(t, u, caseSensitive);
    } else {
      k := FrontStays(t, u, caseSensitive);
    }
    added := AppendAny(root, item, a, y, k);
    if SortList.Sorted(t.kids, caseSensitive)[0] == t.kids[0] {
      t' := CutWithKid(a, k, y);
      CutValue(a, k, x, name);
    }
  }

  /** Where the former last member is after the comparison. */
  lemma FrontStays(t: Tree, u: Tree, caseSensitive: bool) returns (k: nat)
    requires t.kind.ObjectKind? && u.kind.ObjectKind? && t.kids != [] && Tied(t) && Proper(t) && Proper(u)
    requires SortList.Sorted(t.kids, caseSensitive)[0] == t.kids[0]
    ensures var r, sorted := NodeCompare.Arranged(t, u, caseSensitive), SortList.Sorted(t.kids, caseSensitive);
      && k < |r.kids| == |sorted| && sorted[k] == t.kids[|t.kids| - 1] && r.back == r.kids[k].node && r.kind.ObjectKind?
  {
    hide SortList.Sorted, Proper, NodeCompare.Arranged, Tied;
    var sorted := SortList.Sorted(t.kids, caseSensitive);
    SortList.SortedKeeps(t.kids, caseSensitive);
    SortList.SameSize(t.kids, sorted);
    assert t.kids[|t.kids| - 1] in sorted;
    k :| 0 <= k < |sorted| && sorted[k] == t.kids[|t.kids| - 1];
    NodeCompare.TiedKids(t);
    NodeCompare.ArrangedNodes(t, u, caseSensitive);
  }

  lemma CutValue(t: Tree, k: nat, x: Tree, name: cstring)
    requires t.kind.ObjectKind? && k < |t.kids|
    ensures var v := ValueOf(t);
      && v.Object? && k < |v.members|
      && ValueOf(CutWithKid(t, k, x.(key := Some(name)))) == Object(v.members[..k + 1] + [Member(name, ValueOf(x))])
  {
    var y := x.(key := Some(name));
    assert ValueOf(y) == ValueOf(x) && KeyOf(y) == name;
    hide Members;
    var kids := t.kids[..k + 1] + [y];
    assert Members(kids, |kids|) == Members(t.kids, |t.kids|)[..k + 1] + [Member(name, ValueOf(x))];
  }

  lemma FrontUntied(t: Tree, u: Tree, caseSensitive: bool)
    requires t.kind.ObjectKind? && u.kind.ObjectKind? && t.kids != []
    requires SortList.Sorted(t.kids, caseSensitive)[0] != t.kids[0]
    ensures var r := NodeCompare.Arranged(t, u, caseSensitive); r.back == null && r.kids != []
  {
    hide ValueOf, NodeCompare.ArrangedKids, SortList.Sorted;
  }

  /** The input {"b":1,"a":2} with the patches [test "" is {"a":2,"b":1}, add "/c" 3]. The test holds and
      leaves {"a":2,"b":1}, to which an add that works would append "c"; but the member that comes first is
      another one, so by `TestThenAdd` "c" is lost and both patches report success. */
  lemma TestUntiesList()
    ensures var a, b, c := Member([97], Number(2)), Member([98], Number(1)), Member([99], Number(3));
      var before, after := Object([b, a]), Object([a, b]);
      && TestStatus(Live(before), [], Some(after), true) == 0
      && TestedDocument(Live(before), [], Some(after), true) == Live(after)
      && AddStep(Live(after), [SLASH, 99], Some(Number(3)), 7, true) == Done(Live(Object([a, b, c])), 0)
      && Sorting.Sort([b, a], true)[0] != b && !ValueKeepsTies(before, [], after, true)
  {
    var a, b := Member([97], Number(2)), Member([98], Number(1));
    var before, after := Object([b, a]), Object([a, b]);
    TwoSorted(a, b);
    TwoCompared(a, b);
    assert P.Locate(before, [], 0, true) == Some([]);
    NewMember(a, b);
  }

  lemma TwoSorted(a: Member, b: Member)
    requires a.key == [97] && b.key == [98]
    ensures Sorting.Sort([b, a], true) == [a, b] && Sorting.Sort([a, b], true) == [a, b]
  {
    var s := [b, a];
    assert Less([97], [98]) && !Less([98], [97]);
    assert !Sorting.StrictlyAscending(s, true) by { assert !Sorting.KeyLess(s[0].key, s[1].key, true); }
    assert s[..1] == [b] && s[1..] == [a];
    assert Sorting.Merge([b], [a], true) == [a] + Sorting.Merge([b], [], true);
  }

  lemma TwoCompared(a: Member, b: Member)
    requires a == Member([97], Number(2)) && b == Member([98], Number(1))
    ensures Compare.CompareJson(Object([b, a]), Object([a, b]), true)
    ensures Compare.Arrange(Object([b, a]), Object([a, b]), true) == Object([a, b])
  {
    TwoSorted(a, b);
    var xs := [a, b];
    Compare.SortedWithin([b, a], true);
    var n := MembersNesting([b, a]);
    hide Sorting.Sort;
    assert Compare.CompareMembers(xs, xs, 2, true, n) && Compare.CompareMembers(xs, xs, 1, true, n);
    assert Compare.ArrangeMembers(xs, xs, 2, true, n) == [];
    assert Compare.ArrangeMembers(xs, xs, 1, true, n) == [b];
    assert Compare.ArrangeMembers(xs, xs, 0, true, n) == [a] + [b];
  }

  lemma NewMember(a: Member, b: Member)
    requires a.key == [97] && b.key == [98]
    ensures AddAt(Object([a, b]), [SLASH, 99], Number(3), true)
      == Done(Live(Object([a, b, Member([99], Number(3))])), 0)
  {
    var path: cstring := [SLASH, 99];
    assert LastSlash(path, 2) == LastSlash(path, 1) == Some(0);
    assert path[..0] == [] && path[1..] == [99];
    assert DecodeLoop([99], 1, 1) == [99];
    assert DecodeInPlace(path[1..]) == [99];
    assert [a, b][0].key != [99] && [a, b][1].key != [99];
    assert FindKey([a, b], 0, [99], true).None?;
    assert [a, b] + [Member([99], Number(3))] == [a, b, Member([99], Number(3))];
  }
}
