/** merge_patch on nodes in memory: it computes the merge and leaves every child list well formed. */
module NodeMerge {
  import opened Bytes
  import opened Json
  import opened Nodes
  import opened Trees
  import opened Children
  import Duplicate
  import MergePatch
  import Patch

  /** One member of the patch applied to the members of the target. */
  function MergeStep(members: seq<Member>, m: Member, caseSensitive: bool): seq<Member> {
    var rest := Patch.DeleteKey(members, m.key, caseSensitive);
    if m.value.Null? then rest
    else
      var found := MergePatch.Lookup(members, m.key, caseSensitive);
      rest + [Member(m.key, MergePatch.Merge(found, m.value, caseSensitive))]
  }

  lemma MergeFromStep(members: seq<Member>, patch: seq<Member>, i: nat, caseSensitive: bool)
    requires i < |patch|
    ensures MergePatch.MergeFrom(members, patch, i, caseSensitive)
      == MergePatch.MergeFrom(MergeStep(members, patch[i], caseSensitive), patch, i + 1, caseSensitive)
  {
  }

  lemma {:induction false} HeldValue(t: Tree, d: Tree)
    requires Duplicate.Held(t) == Duplicate.Held(d)
    ensures ValueOf(t) == ValueOf(d) && (Proper(t) <==> Proper(d))
    decreases t
  {
    HeldKids(t.kids, d.kids, |t.kids|);
  }

  lemma {:induction false} HeldKids(kids: seq<Tree>, kids': seq<Tree>, n: nat)
    requires n <= |kids| && n <= |kids'| && Duplicate.AllHeld(kids, n) == Duplicate.AllHeld(kids', n)
    ensures forall i :: 0 <= i < n ==> ValueOf(kids[i]) == ValueOf(kids'[i]) && (Proper(kids[i]) <==> Proper(kids'[i]))
    ensures forall i :: 0 <= i < n ==> kids[i].key == kids'[i].key
    decreases kids, n
  {
    if n > 0 {
      var a, b := Duplicate.AllHeld(kids, n), Duplicate.AllHeld(kids', n);
      assert a[..n - 1] == Duplicate.AllHeld(kids, n - 1) && b[..n - 1] == Duplicate.AllHeld(kids', n - 1);
      assert a[n - 1] == Duplicate.Held(kids[n - 1]) && b[n - 1] == Duplicate.Held(kids'[n - 1]);
      HeldKids(kids, kids', n - 1);
      HeldValue(kids[n - 1], kids'[n - 1]);
    }
  }

  ghost function Owned(target: Node?, t: Tree): set<Node> { if target == null then {} else All(t) }

  ghost function Given(target: Node?, t: Tree): Option<Value> { if target == null then None else Some(ValueOf(t)) }

  lemma OneLess(t: Tree, j: nat)
    requires Proper(t) && t.kind.ObjectKind? && j < |t.kids|
    ensures var rest := WithoutKid(t, j);
      Proper(rest) && Members(rest.kids, |rest.kids|) == RemoveAt(Members(t.kids, |t.kids|), j)
    ensures Proper(t.kids[j])
  {
    hide Members;
    ProperKid(t, j);
  }

  lemma OneMore(t: Tree, x: Tree, name: cstring)
    requires Proper(t) && t.kind.ObjectKind? && Proper(x)
    ensures var more := WithKid(t, x.(key := Some(name)));
      && Proper(more)
      && Members(more.kids, |more.kids|) == Members(t.kids, |t.kids|) + [Member(name, ValueOf(x))]
  {
    var y := x.(key := Some(name));
    assert ValueOf(y) == ValueOf(x) && Proper(y);
    hide Members;
  }

  /** The target is consumed, the patch left alone; the result is new, or was part of the target. */
  method Merge(target: Node?, patch: Node, caseSensitive: bool, ghost t: Tree, ghost pt: Tree)
    returns (r: Node, ghost d: Tree)
    requires target != null ==> t.node == target && target.next == null && Sound(t) && Tied(t) && All(t) !! All(pt)
    requires pt.node == patch && pt.key == patch.key && Sound(pt)
    modifies Owned(target, t)
    ensures d.node == r && r.next == null && Sound(d) && Tied(d) && Sound(pt) && fresh(All(d) - Owned(target, t))
    ensures ValueOf(d) == MergePatch.Merge(Given(target, t), ValueOf(pt), caseSensitive)
    decreases pt, 1
  {
    hide Shaped, Linked, Tied, Proper, Below, ValueOf;
    ghost var below := NodesBelow(pt);
    ghost var below' := NodesBelow(t);
    KindOf(pt);
    if !patch.kind.ObjectKind? {
      var copy;
      copy, d := Duplicate.Duplicate(patch, true, pt);
      ghost var added := All(d);
      assert fresh(added);
      HeldValue(pt, d);
      ScalarMerge(Given(target, t), pt, caseSensitive);
      r := copy;
      return;
    }
    ghost var o := t;
    if target == null || !target.kind.ObjectKind? {
      r := new Node(ObjectKind, None);
      o := Tree(r, ObjectKind, None, null, []);
      EmptyObject(r);
      if target != null { KindOf(t); }
    } else {
      KindOf(t);
      r := target;
    }
    Outside(o);
    ghost var known := All(o);
    label L:
    d := MergeMembers(r, patch, caseSensitive, o, pt);
    ghost var added := All(d) - known;
    ghost var mine := known - Owned(target, t);
    assert fresh@L(added) && fresh(added) && fresh(mine);
    forall n | n in All(d) && n !in Owned(target, t) ensures fresh(n) { assert n in added || n in mine; }
    ObjectMerge(target, t, o, d, pt, caseSensitive);
  }

  lemma EmptyObject(n: Node)
    requires n.child == null && n.kind == ObjectKind
    ensures var t := Tree(n, ObjectKind, None, null, []);
      Sound(t) && Tied(t) && All(t) == {n} && Members(t.kids, 0) == []
  {
    NoKids();
  }

  lemma ScalarMerge(target: Option<Value>, pt: Tree, caseSensitive: bool)
    requires !pt.kind.ObjectKind?
    ensures MergePatch.Merge(target, ValueOf(pt), caseSensitive) == ValueOf(pt)
  {
  }

  lemma ObjectMerge(target: Node?, t: Tree, o: Tree, d: Tree, pt: Tree, caseSensitive: bool)
    requires pt.kind.ObjectKind? && d.kind.ObjectKind?
    requires if target != null && t.kind.ObjectKind? then o == t else o.kids == []
    requires Members(d.kids, |d.kids|)
      == MergePatch.MergeFrom(Members(o.kids, |o.kids|), Members(pt.kids, |pt.kids|), 0, caseSensitive)
    ensures ValueOf(d) == MergePatch.Merge(Given(target, t), ValueOf(pt), caseSensitive)
  {
    hide Members, MergePatch.MergeFrom;
    assert ValueOf(d) == Object(Members(d.kids, |d.kids|)) && ValueOf(pt) == Object(Members(pt.kids, |pt.kids|));
    if target != null && t.kind.ObjectKind? {
      assert MergePatch.MembersIn(Given(target, t)) == Members(o.kids, |o.kids|);
    } else {
      assert MergePatch.MembersIn(Given(target, t)) == [] == Members(o.kids, |o.kids|);
    }
  }

  /** The loop over the members of the patch. */
  method MergeMembers(owner: Node, patch: Node, caseSensitive: bool, ghost o: Tree, ghost pt: Tree)
    returns (ghost d: Tree)
    requires o.node == owner && o.kind.ObjectKind? && Sound(o) && Tied(o)
    requires pt.node == patch && pt.kind.ObjectKind? && Sound(pt) && All(o) !! All(pt)
    modifies owner`child, Below(o)
    ensures d.node == owner && d.kind.ObjectKind? && Sound(d) && Tied(d) && Sound(pt) && fresh(All(d) - All(o))
    ensures Members(d.kids, |d.kids|)
      == MergePatch.MergeFrom(Members(o.kids, |o.kids|), Members(pt.kids, |pt.kids|), 0, caseSensitive)
    decreases pt, 0
  {
    hide Shaped, Linked, Tied, Proper, Below, Members, MergePatch.MergeFrom, MergeStep, Roots;
    ghost var below := NodesBelow(pt);
    ghost var was := NodesBelow(o);
    ghost var members := Members(pt.kids, |pt.kids|);
    ghost var i: nat := 0;
    d := o;
    var child := patch.child;
    KidsLinked(pt);
    while child != null
      invariant Sound(pt) && i <= |pt.kids| && child == (if i < |pt.kids| then pt.kids[i].node else null)
      invariant d.node == owner && d.kind.ObjectKind? && Sound(d) && Tied(d) && fresh(All(d) - All(o))
      invariant Below(d) <= All(d)
      invariant MergePatch.MergeFrom(Members(d.kids, |d.kids|), members, i, caseSensitive)
        == MergePatch.MergeFrom(Members(o.kids, |o.kids|), members, 0, caseSensitive)
      decreases |pt.kids| - i
    {
      ShapedKid(pt, i);
      ProperKid(pt, i);
      Outside(d);
      MergeFromStep(Members(d.kids, |d.kids|), members, i, caseSensitive);
      d := MergeOne(owner, child, caseSensitive, d, pt.kids[i]);
      ShapedKid(pt, i);
      child := child.next;
      i := i + 1;
    }
    NoneLeft(Members(d.kids, |d.kids|), members, caseSensitive);
  }

  lemma NoneLeft(members: seq<Member>, patch: seq<Member>, caseSensitive: bool)
    ensures MergePatch.MergeFrom(members, patch, |patch|, caseSensitive) == members
  {
  }

  /** The first member of that name, if there is one, taken out of the object. */
  method DetachNamed(owner: Node, name: cstring, caseSensitive: bool, ghost d: Tree)
    returns (found: Node?, ghost part: Tree, ghost rest: Tree)
    requires d.node == owner && d.kind.ObjectKind? && Sound(d) && Tied(d)
    modifies owner`child, Below(d)`next, Below(d)`prev
    ensures rest.node == owner && rest.kind.ObjectKind? && Sound(rest) && Tied(rest) && Below(rest) <= Below(d)
    ensures found != null ==> part.node == found && found.next == null && Sound(part) && Tied(part)
    ensures found != null ==> All(part) <= Below(d) && All(part) !! All(rest)
    ensures Given(found, part) == MergePatch.Lookup(Members(d.kids, |d.kids|), name, caseSensitive)
    ensures Members(rest.kids, |rest.kids|) == Patch.DeleteKey(Members(d.kids, |d.kids|), name, caseSensitive)
  {
    hide Shaped, Linked, Tied, Proper, Below, Members, ValueOf, FindKey;
    ghost var was := NodesBelow(d);
    ghost var j;
    found, j := FindChild(owner, name, caseSensitive, d);
    part, rest := d, d;
    if found != null {
      OneLess(d, j);
      part := d.kids[j];
      rest := DetachKid(owner, found, d, j);
    }
  }

  /** One turn: the member of that name is detached and dropped, or merged into and added again. */
  method MergeOne(owner: Node, patch: Node, caseSensitive: bool, ghost d: Tree, ghost x: Tree)
    returns (ghost next: Tree)
    requires d.node == owner && d.kind.ObjectKind? && Sound(d) && Tied(d)
    requires x.node == patch && x.key == patch.key && x.key.Some? && Sound(x) && All(d) !! All(x)
    modifies owner`child, Below(d)
    ensures next.node == owner && next.kind.ObjectKind? && Sound(next) && Tied(next) && Sound(x)
    ensures fresh(All(next) - All(d))
    ensures Members(next.kids, |next.kids|)
      == MergeStep(Members(d.kids, |d.kids|), Member(KeyOf(x), ValueOf(x)), caseSensitive)
    decreases x, 2
  {
    hide Shaped, Linked, Tied, Proper, Below, Members, ValueOf, MergePatch.Merge, MergePatch.Lookup, Patch.DeleteKey;
    ghost var below := NodesBelow(x);
    ghost var was := NodesBelow(d);
    KindOf(x);
    var name := patch.key.value;
    var found;
    ghost var part, rest;
    found, part, rest := DetachNamed(owner, name, caseSensitive, d);
    NullOnly(x);
    if patch.kind.NullKind? {
      next := rest;
    } else {
      ghost var left := NodesBelow(rest);
      var replacement;
      ghost var merged;
      label L:
      replacement, merged := Merge(found, patch, caseSensitive, part, x);
      OneMore(rest, merged, name);
      ghost var added := All(merged) - Owned(found, part);
      assert fresh@L(added) && fresh(added);
      assert All(merged) <= All(d) + added;
      next := AddItemToObject(owner, name, replacement, rest, merged);
      assert All(next) - All(d) <= added;
    }
  }

  lemma NullOnly(t: Tree)
    requires Proper(t)
    ensures t.kind.NullKind? <==> ValueOf(t).Null?
  {
  }
}
