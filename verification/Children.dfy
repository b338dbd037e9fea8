/** Finding, detaching and adding children of a node, with the trees below them. */
module Children {
  import opened Bytes
  import opened Json
  import opened Nodes
  import opened Trees

  // ----- Trees with one child less or more -----

  lemma RemoveShaped(kids: seq<Tree>, j: nat)
    requires AllShaped(kids, |kids|) && j < |kids|
    ensures AllShaped(RemoveAt(kids, j), |kids| - 1) && Among(RemoveAt(kids, j), |kids| - 1) <= Among(kids, |kids|)
    ensures Shaped(kids[j]) && All(kids[j]) <= Among(kids, |kids|)
    ensures All(kids[j]) !! Among(RemoveAt(kids, j), |kids| - 1)
    ensures Roots(RemoveAt(kids, j)) == RemoveAt(Roots(kids), j)
  {
    hide Shaped, Below, AllShaped, Among, All;
    KidFacts(kids, |kids|, j);
    AmongAll(kids, j);
    RemoveAllShaped(kids, j);
    var some := Among(RemoveAt(kids, j), |kids| - 1);
    forall e | e in some ensures e in Among(kids, |kids|) && e !in All(kids[j]) {
      RemovedNode(kids, j, e);
    }
  }

  lemma RemoveAllShaped(kids: seq<Tree>, j: nat)
    requires AllShaped(kids, |kids|) && j < |kids|
    ensures AllShaped(RemoveAt(kids, j), |kids| - 1)
  {
    hide Shaped, AllShaped, All;
    var n, rest := |kids|, RemoveAt(kids, j);
    forall i | 0 <= i < |rest| ensures Shaped(rest[i]) { KidFacts(kids, n, if i < j then i else i + 1); }
    forall i, k | 0 <= i < k < |rest| ensures All(rest[i]) !! All(rest[k]) {
      KidsApart(kids, n, if i < j then i else i + 1, if k < j then k else k + 1);
    }
    ShapedAll(rest, |rest|);
  }

  lemma RemovedNode(kids: seq<Tree>, j: nat, e: Node)
    requires AllShaped(kids, |kids|) && j < |kids| && e in Among(RemoveAt(kids, j), |kids| - 1)
    ensures e in Among(kids, |kids|) && e !in All(kids[j])
  {
    hide Shaped, AllShaped, All, Among;
    var i := AmongFrom(RemoveAt(kids, j), |kids| - 1, e);
    var k := if i < j then i else i + 1;
    AmongAll(kids, k);
    if k < j { KidsApart(kids, |kids|, k, j); } else { KidsApart(kids, |kids|, j, k); }
  }

  lemma RemoveLinked(kids: seq<Tree>, j: nat)
    requires AllLinked(kids, |kids|) && j < |kids|
    ensures AllLinked(RemoveAt(kids, j), |kids| - 1) && Linked(kids[j]) && kids[j].node.key == kids[j].key
  {
    hide Linked;
    var rest := RemoveAt(kids, j);
    KidLinks(kids, |kids|, j);
    forall i | 0 <= i < |rest| ensures rest[i].node.key == rest[i].key && Linked(rest[i]) {
      KidLinks(kids, |kids|, if i < j then i else i + 1);
    }
    LinkedAll(rest, |rest|);
  }

  lemma InsertShaped(kids: seq<Tree>, k: nat, x: Tree)
    requires k <= |kids| && AllShaped(kids, |kids|) && Shaped(x) && All(x) !! Among(kids, |kids|)
    ensures AllShaped(InsertAt(kids, k, x), |kids| + 1)
    ensures Among(InsertAt(kids, k, x), |kids| + 1) == Among(kids, |kids|) + All(x)
    ensures Roots(InsertAt(kids, k, x)) == InsertAt(Roots(kids), k, x.node)
  {
    hide Shaped, AllShaped, Among, All, Roots;
    var n, more := |kids|, InsertAt(kids, k, x);
    forall i | 0 <= i <= n ensures Shaped(more[i]) { if i != k { KidFacts(kids, n, if i < k then i else i - 1); } }
    forall i, j | 0 <= i < j <= n ensures All(more[i]) !! All(more[j]) { InsertApart(kids, k, x, i, j); }
    ShapedAll(more, n + 1);
    var now, goal := Among(more, n + 1), Among(kids, n) + All(x);
    forall e | e in now ensures e in goal {
      var i := AmongFrom(more, n + 1, e);
      if i != k { AmongAll(kids, if i < k then i else i - 1); }
    }
    forall e | e in goal ensures e in now {
      AmongAll(more, k);
      if e in Among(kids, n) {
        var i := AmongFrom(kids, n, e);
        AmongAll(more, if i < k then i else i + 1);
      }
    }
  }

  lemma InsertApart(kids: seq<Tree>, k: nat, x: Tree, i: nat, j: nat)
    requires k <= |kids| && AllShaped(kids, |kids|) && All(x) !! Among(kids, |kids|) && i < j <= |kids|
    ensures All(InsertAt(kids, k, x)[i]) !! All(InsertAt(kids, k, x)[j])
  {
    hide Shaped, AllShaped, Among, All;
    if i != k { AmongAll(kids, if i < k then i else i - 1); }
    if j != k { AmongAll(kids, if j < k then j else j - 1); }
    if i != k && j != k { KidsApart(kids, |kids|, if i < k then i else i - 1, if j < k then j else j - 1); }
  }

  lemma InsertLinked(kids: seq<Tree>, k: nat, x: Tree)
    requires k <= |kids| && AllLinked(kids, |kids|) && Linked(x) && x.node.key == x.key
    ensures AllLinked(InsertAt(kids, k, x), |kids| + 1)
  {
    hide Linked;
    var more := InsertAt(kids, k, x);
    forall i | 0 <= i < |more| ensures more[i].node.key == more[i].key && Linked(more[i]) {
      if i != k { KidLinks(kids, |kids|, if i < k then i else i - 1); }
    }
    LinkedAll(more, |more|);
  }

  /** The tree without child `j`, tied. */
  function WithoutKid(t: Tree, j: nat): Tree
    requires j < |t.kids|
  {
    t.(kids := RemoveAt(t.kids, j), back := LastNode(RemoveAt(t.kids, j)))
  }

  /** The tree with one more child at the end, tied. */
  function WithKid(t: Tree, x: Tree): Tree { t.(kids := t.kids + [x], back := x.node) }

  /** The tree with one more child before position `k`, tied. */
  function WithKidAt(t: Tree, k: nat, x: Tree): Tree
    requires k <= |t.kids|
  {
    t.(kids := InsertAt(t.kids, k, x), back := LastNode(InsertAt(t.kids, k, x)))
  }

  // ----- On nodes -----

  /** Only the members of objects have names. */
  ghost predicate Named(t: Tree) { t.kind.ObjectKind? || forall i :: 0 <= i < |t.kids| ==> t.kids[i].key.None? }

  /** get_object_item. */
  method FindChild(parent: Node, name: cstring, caseSensitive: bool, ghost t: Tree) returns (r: Node?, ghost j: nat)
    requires t.node == parent && Shaped(t) && Linked(t) && Proper(t) && Named(t)
    ensures !t.kind.ObjectKind? ==> r == null
    ensures t.kind.ObjectKind? ==>
      match FindKey(Members(t.kids, |t.kids|), 0, name, caseSensitive)
      case None => r == null
      case Some(i) => j == i && r == t.kids[i].node
  {
    hide Shaped, Linked, Proper, Roots, Below, Among, Members, SameKey;
    r := parent.child;
    j := 0;
    ghost var members := Members(t.kids, |t.kids|);
    KidsLinked(t);
    ghost var inner, among, below := Footprint([], t);
    while r != null && (if r.key.None? then !caseSensitive else !SameKey(name, r.key.value, caseSensitive))
      invariant Linked(t) && j <= |t.kids| && r == (if j < |t.kids| then t.kids[j].node else null)
      invariant FindKey(members, j, name, caseSensitive)
        == FindKey(members, 0, name, caseSensitive) || !t.kind.ObjectKind?
      decreases |t.kids| - j
    {
      ShapedKid(t, j);
      ProperKid(t, j);
      r := r.next;
      j := j + 1;
    }
    if j < |t.kids| {
      ShapedKid(t, j);
      ProperKid(t, j);
    }
    if r == null || r.key.None? {
      r := null;
    }
  }

  /** Takes child `j` and the tree below it off its parent. */
  method DetachKid(parent: Node, item: Node, ghost t: Tree, ghost j: nat) returns (ghost rest: Tree)
    requires t.node == parent && Shaped(t) && Linked(t) && Tied(t) && j < |t.kids| && item == t.kids[j].node
    modifies parent`child, Below(t)`next, Below(t)`prev
    ensures rest == WithoutKid(t, j) && Shaped(rest) && Linked(rest) && Tied(rest)
    ensures Shaped(t.kids[j]) && Linked(t.kids[j]) && Tied(t.kids[j]) && item.next == null && item.prev == null
    ensures Below(rest) <= Below(t) && All(t.kids[j]) <= Below(t) && All(t.kids[j]) !! All(rest)
  {
    hide Shaped, Linked, AllShaped, AllLinked, Among, Below, Inner, Ring, Chain, Roots;
    ghost var kids := t.kids;
    Disassemble(t);
    RemoveShaped(kids, j);
    RootsAmong(kids);
    RootsSplit(kids);
    ghost var inner, among, below := Footprint(kids, t);
    RootAt(kids, j);
    Unlink(parent, item, Roots(kids), j);
    assert AllLinked(kids, |kids|);
    RemoveLinked(kids, j);
    rest := WithoutKid(t, j);
    AssembleRing(parent, t.key, RemoveAt(kids, j));
  }

  lemma RootAt(kids: seq<Tree>, j: nat)
    requires j < |kids|
    ensures |Roots(kids)| == |kids| && Roots(kids)[j] == kids[j].node
  {
  }

  /** Adds a node and the tree below it as the last child. */
  method AppendKid(parent: Node, item: Node, ghost t: Tree, ghost x: Tree) returns (ghost more: Tree)
    requires t.node == parent && Shaped(t) && Linked(t) && x.node == item && Shaped(x) && Linked(x)
    requires Tied(t) && Tied(x) && item.key == x.key && item.next == null && All(x) !! All(t)
    modifies parent`child, Below(t)`next, Below(t)`prev, item`next, item`prev
    ensures more == WithKid(t, x) && Shaped(more) && Linked(more) && Tied(more) && All(more) == All(t) + All(x)
  {
    hide Shaped, Linked, AllShaped, AllLinked, Among, Below, Inner, Ring, Chain, Roots;
    ghost var kids := t.kids;
    Disassemble(t);
    Outside(x);
    RootsAmong(kids);
    RootsSplit(kids);
    ghost var inner, among, below := Footprint(kids, x);
    AppendItem(parent, item, Roots(kids));
    assert AllLinked(kids, |kids|);
    assert Linked(x);
    AppendShaped(kids, x, |kids|);
    more := WithKid(t, x);
    AssembleRing(parent, t.key, kids + [x]);
  }

  /** insert_item_in_array with the trees below the children: past the end it refuses. */
  method InsertKid(parent: Node, which: nat, item: Node, ghost t: Tree, ghost x: Tree)
    returns (ok: bool, ghost more: Tree)
    requires t.node == parent && Shaped(t) && Linked(t) && x.node == item && Shaped(x) && Linked(x)
    requires Tied(t) && Tied(x) && item.key == x.key && item.next == null && All(x) !! All(t)
    modifies parent`child, Below(t)`next, Below(t)`prev, item`next, item`prev
    ensures ok == (which <= |t.kids|)
    ensures !ok ==> more == t && Shaped(t) && Linked(t) && Tied(t) && Linked(x)
    ensures ok ==>
      more == WithKidAt(t, which, x) && Shaped(more) && Linked(more) && Tied(more) && All(more) == All(t) + All(x)
  {
    hide Shaped, Linked, AllShaped, AllLinked, Among, Below, Inner, Ring, Chain, Roots;
    ghost var kids := t.kids;
    Disassemble(t);
    Outside(x);
    RootsAmong(kids);
    RootsSplit(kids);
    ghost var inner, among, below := Footprint(kids, x);
    ok := InsertInArray(parent, which, item, Roots(kids));
    assert AllLinked(kids, |kids|);
    assert Linked(x);
    more := t;
    if ok {
      InsertShaped(kids, which, x);
      InsertLinked(kids, which, x);
      more := WithKidAt(t, which, x);
      AssembleRing(parent, t.key, InsertAt(kids, which, x));
    } else {
      AssembleRing(parent, t.key, kids);
      if kids == [] { BackIgnored(t, null); }
    }
  }

  lemma BackIgnored(t: Tree, back: Node?)
    requires t.kids == []
    ensures Linked(t) <==> Linked(t.(back := back))
  {
  }

  /** add_item_to_object. */
  method AddItemToObject(parent: Node, name: cstring, item: Node, ghost t: Tree, ghost x: Tree)
    returns (ghost more: Tree)
    requires t.node == parent && Shaped(t) && Linked(t) && x.node == item && Shaped(x) && Linked(x)
    requires Tied(t) && Tied(x) && item.next == null && All(x) !! All(t)
    modifies parent`child, Below(t)`next, Below(t)`prev, item`next, item`prev, item`key
    ensures more == WithKid(t, x.(key := Some(name))) && Shaped(more) && Linked(more) && Tied(more)
    ensures All(more) == All(t) + All(x)
  {
    hide Shaped, Linked, Below;
    ghost var inner, among, below := Footprint([], t);
    ghost var inner', among', below' := Footprint([], x);
    Renamed(x, Some(name));
    Outside(x);
    item.key := Some(name);
    assert Linked(t) && Linked(x);
    Renamed(x, Some(name));
    more := AppendKid(parent, item, t, x.(key := Some(name)));
  }

  /** The key of the root is not part of the tree's links. */
  lemma Renamed(t: Tree, key: Option<cstring>)
    ensures var u := t.(key := key);
      && Below(u) == Below(t) && All(u) == All(t)
      && Shaped(u) == Shaped(t) && Linked(u) == Linked(t) && Tied(u) == Tied(t)
  {
  }

  // ----- Lists that are not tied -----

  lemma {:induction false} TakeKids(kids: seq<Tree>, n: nat, m: nat)
    requires m <= n <= |kids|
    ensures Among(kids[..n], m) == Among(kids, m)
    ensures AllShaped(kids[..n], m) == AllShaped(kids, m) && AllLinked(kids[..n], m) == AllLinked(kids, m)
    decreases m
  {
    if m > 0 { TakeKids(kids, n, m - 1); }
  }

  lemma {:induction false} FewerKids(kids: seq<Tree>, m: nat, n: nat)
    requires m <= n <= |kids|
    ensures AllShaped(kids, n) ==> AllShaped(kids, m)
    ensures AllLinked(kids, n) ==> AllLinked(kids, m)
    decreases n
  {
    if m < n { FewerKids(kids, m, n - 1); }
  }

  /** Where an append leads when the first child's `prev` is child `k`: the children behind it are cut off. */
  function CutWithKid(t: Tree, k: nat, x: Tree): Tree
    requires k < |t.kids|
  {
    t.(kids := t.kids[..k + 1] + [x], back := x.node)
  }

  /** add_item_to_array on a list that need not be tied: with `prev` null nothing happens. */
  method AppendAny(parent: Node, item: Node, ghost t: Tree, ghost x: Tree, ghost k: nat) returns (ok: bool)
    requires parent == t.node && Shaped(t) && Linked(t) && k < |t.kids| && (t.back == null || t.back == t.kids[k].node)
    requires item == x.node && Shaped(x) && Linked(x) && item.key == x.key && item.next == null && All(x) !! All(t)
    modifies parent`child, Below(t)`next, Below(t)`prev, item`next, item`prev
    ensures ok
    ensures t.back == null ==> Linked(t)
    ensures t.back != null ==> Shaped(CutWithKid(t, k, x)) && Linked(CutWithKid(t, k, x))
  {
    hide Shaped, Linked, AllShaped, AllLinked, Among, Below, Inner, Ring, Chain, Roots;
    ghost var kids := t.kids;
    Disassemble(t);
    Outside(x);
    RootsAmong(kids);
    RootsSplit(kids);
    RootAt(kids, k);
    RootAt(kids, 0);
    ghost var inner, among, below := Footprint(kids, x);
    ok := AddItemToArray(parent, item, Roots(kids));
    assert AllLinked(kids, |kids|);
    assert Linked(x);
    if t.back != null {
      CutShaped(parent, t, k, x);
    } else {
      assert Chain(parent.child, Roots(kids));
      Assemble(parent, t.key, t.back, kids);
    }
  }

  lemma CutShaped(parent: Node, t: Tree, k: nat, x: Tree)
    requires parent == t.node && t.node !in Among(t.kids, |t.kids|) && AllShaped(t.kids, |t.kids|) && k < |t.kids|
    requires AllLinked(t.kids, |t.kids|) && Shaped(x) && Linked(x) && x.node.key == x.key && parent.kind == t.kind
    requires All(x) !! Among(t.kids, |t.kids|) && parent !in All(x)
    requires Ring(parent.child, Roots(t.kids)[..k + 1] + [x.node])
    ensures Shaped(CutWithKid(t, k, x)) && Linked(CutWithKid(t, k, x))
  {
    hide Shaped, Linked, AllShaped, AllLinked, Among, Below, Ring, Roots;
    var kids, n := t.kids, k + 1;
    TakeKids(kids, n, n);
    FewerKids(kids, n, |kids|);
    AmongGrows(kids, n, |kids|);
    AppendShaped(kids[..n], x, n);
    assert Roots(kids[..n]) == Roots(kids)[..n];
    AssembleRing(parent, t.key, kids[..n] + [x]);
  }
}
