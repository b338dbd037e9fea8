/** Deep copies of trees of nodes (cJSON_Duplicate). */
module Duplicate {
  import opened Bytes
  import opened Json
  import opened Nodes
  import opened Trees

  /** What the nodes hold: everything a copy has to reproduce. */
  datatype Content = Content(kind: Kind, key: Option<cstring>, kids: seq<Content>)

  function Held(t: Tree): Content
    decreases t
  {
    Content(t.kind, t.key, AllHeld(t.kids, |t.kids|))
  }

  function AllHeld(kids: seq<Tree>, n: nat): (r: seq<Content>)
    requires n <= |kids|
    ensures |r| == n
    decreases kids, n
  {
    if n == 0 then [] else AllHeld(kids, n - 1) + [Held(kids[n - 1])]
  }

  // ----- Growing a list of trees -----

  lemma {:induction false} HeldPrefix(kids: seq<Tree>, x: Tree, n: nat)
    requires n <= |kids|
    ensures AllHeld(kids + [x], n) == AllHeld(kids, n)
  {
    if n > 0 {
      assert (kids + [x])[n - 1] == kids[n - 1];
      HeldPrefix(kids, x, n - 1);
    }
  }

  /** Links `x` in after the last element, or starts the list with it. */
  method Extend(parent: Node, last: Node?, x: Node, ghost s: seq<Node>)
    requires Chain(parent.child, s) && x !in s && x.next == null
    requires last == if s == [] then null else s[|s| - 1]
    modifies parent`child, s`next, x`prev
    ensures Chain(parent.child, s + [x])
  {
    ghost var t := s + [x];
    if last != null {
      last.next := x;
      x.prev := last;
    } else {
      parent.child := x;
    }
    forall i | 0 <= i < |t| ensures t[i].next == NextIn(t, i) {
      assert i < |s| ==> t[i] == s[i];
    }
    forall i | 0 < i < |t| ensures t[i].prev == t[i - 1] {
      assert i < |s| ==> t[i] == s[i];
    }
  }

  /** Ties the first element back to the last one. */
  method Close(parent: Node, last: Node?, ghost s: seq<Node>)
    requires Chain(parent.child, s) && last == if s == [] then null else s[|s| - 1]
    modifies s`prev
    ensures Ring(parent.child, s)
  {
    if parent.child != null {
      parent.child.prev := last;
    }
  }

  /** The first `|built|` children are copied. */
  ghost predicate Copying(parent: Node, built: seq<Tree>, kids: seq<Tree>)
    requires |built| <= |kids|
    reads parent`child, Among(built, |built|)
  {
    AllAmong(built);
    var n := |built|;
    && parent !in Among(built, n) && AllShaped(built, n)
    && Chain(parent.child, Roots(built)) && AllLinked(built, n)
    && AllHeld(built, n) == AllHeld(kids, n) && AllTied(built)
  }

  /** One more copied child is linked in. */
  method LinkCopy(parent: Node, last: Node?, x: Node, ghost built: seq<Tree>, ghost d: Tree, ghost kids: seq<Tree>)
    requires |built| < |kids| && Copying(parent, built, kids) && last == LastNode(built)
    requires d.node == x && x.next == null && Shaped(d) && Linked(d) && Tied(d) && Held(d) == Held(kids[|built|])
    requires All(d) !! Among(built, |built|) && parent !in All(d) && x.key == d.key
    modifies parent`child, Roots(built)`next, x`prev
    ensures Copying(parent, built + [d], kids)
  {
    hide Shaped, Linked, Tied, Held, AllShaped, AllLinked, AllHeld, Among, Below, Inner, Chain, Roots;
    ghost var n := |built|;
    AllAmong(built);
    forall e | e in Roots(built) ensures e !in Inner(built, n) && e in Among(built, n) {
      RootsOutside(built, n);
      var i :| 0 <= i < n && Roots(built)[i] == e;
    }
    Outside(d);
    ghost var inner, among, below := Footprint(built, d);
    label L:
    Extend(parent, last, x, Roots(built));
    assert forall e :: e in inner || e in below ==> e.next == old@L(e.next) && e.prev == old@L(e.prev);
    assert forall e :: e in among || e in below ==> e.child == old@L(e.child);
    assert AllLinked(built, n);
    assert Linked(d);
    AppendShaped(built, d, n);
    HeldPrefix(built, d, n);
    HeldNext(built + [d], n);
    HeldNext(kids, n);
  }

  lemma HeldNext(kids: seq<Tree>, n: nat)
    requires n < |kids|
    ensures AllHeld(kids, n + 1) == AllHeld(kids, n) + [Held(kids[n])]
  {
  }

  /** Copies the next child and links the copy in. */
  method CopyKid(parent: Node, last: Node?, child: Node, ghost t: Tree, ghost built: seq<Tree>)
    returns (x: Node, ghost d: Tree)
    requires Shaped(t) && Linked(t) && |built| < |t.kids| && child == t.kids[|built|].node
    requires Copying(parent, built, t.kids) && last == LastNode(built)
    requires parent !in All(t) && Among(built, |built|) !! All(t)
    modifies parent`child, Among(built, |built|)`next
    ensures Copying(parent, built + [d], t.kids) && d.node == x && fresh(All(d))
    ensures Linked(t)
    decreases t, 0
  {
    hide Shaped, Linked, Tied, Held, AllShaped, AllLinked, AllHeld, Among, Below, Inner, Chain, Roots;
    ghost var n := |built|;
    ghost var inner, among, below := Footprint(built, t);
    RootsAmong(built);
    AmongKids(t, n);
    ShapedKid(t, n);
    var copy: Node?;
    copy, d := Duplicate(child, true, t.kids[n]);
    x := copy;
    assert Copying(parent, built, t.kids);
    assert All(d) !! among;
    label L:
    LinkCopy(parent, last, x, built, d, t.kids);
    assert Linked(t);
  }

  /** The copy is made of new nodes, is a tree in order, and holds what the original holds. */
  method Duplicate(item: Node?, recurse: bool, ghost t: Tree) returns (r: Node?, ghost d: Tree)
    requires item != null ==> t.node == item && t.key == item.key && Shaped(t) && Linked(t)
    ensures r == null <==> item == null
    ensures r != null ==> d.node == r && d.key == r.key && r.next == null && r.prev == null && fresh(All(d))
    ensures r != null ==> Shaped(d) && Linked(d) && Tied(d)
    ensures r != null ==> Held(d) == if recurse then Held(t) else Content(item.kind, item.key, [])
    decreases t, 1
  {
    hide Shaped, Linked, Tied, Held, Below, Copying, AllShaped, AllLinked, AllHeld, Among, Roots;
    d := t;
    if item == null {
      return null, d;
    }
    ghost var inner, among, below := Footprint([], t);
    var copy := new Node(item.kind, item.key);
    assert Linked(t);
    ghost var built: seq<Tree> := [];
    NoKids();
    KidsLinked(t);
    if recurse {
      built := CopyKids(item, copy, t);
      HeldAll(t);
    }
    d := Tree(copy, copy.kind, copy.key, LastNode(built), built);
    AssembleRing(copy, copy.key, built);
    HeldAll(d);
    r := copy;
  }

  lemma HeldAll(t: Tree)
    ensures Held(t) == Content(t.kind, t.key, AllHeld(t.kids, |t.kids|))
  {
  }

  /** The loop over the children. */
  method CopyKids(item: Node, copy: Node, ghost t: Tree) returns (ghost built: seq<Tree>)
    requires t.node == item && Shaped(t) && Linked(t)
    requires copy.child == null && copy !in All(t)
    modifies copy`child
    ensures |built| == |t.kids| && fresh(Among(built, |built|)) && copy !in Among(built, |built|)
    ensures AllShaped(built, |built|) && Ring(copy.child, Roots(built)) && AllLinked(built, |built|)
    ensures AllHeld(built, |built|) == AllHeld(t.kids, |t.kids|) && AllTied(built)
    decreases t, 1, 0
  {
    hide Shaped, Linked, Tied, Held, AllShaped, AllLinked, AllHeld, Among, Below, Inner, Roots, Copying, Chain;
    built := [];
    ghost var inner, among, below := Footprint([], t);
    var last: Node? := null;
    var child := item.child;
    KidsLinked(t);
    NoneCopied(copy, t.kids);
    while child != null
      invariant |built| <= |t.kids| && child == (if |built| < |t.kids| then t.kids[|built|].node else null)
      invariant fresh(Among(built, |built|)) && Copying(copy, built, t.kids) && last == LastNode(built)
      invariant Linked(t)
      decreases |t.kids| - |built|
    {
      ghost var kid;
      ghost var n := |built|;
      last, kid := CopyKid(copy, last, child, t, built);
      AppendShaped(built, kid, n);
      built := built + [kid];
      ShapedKid(t, n);
      child := child.next;
    }
    CopyingFacts(copy, built, t.kids);
    CloseCopy(copy, last, built);
  }

  lemma CopyingFacts(copy: Node, built: seq<Tree>, kids: seq<Tree>)
    requires |built| <= |kids| && Copying(copy, built, kids)
    ensures copy !in Among(built, |built|) && AllShaped(built, |built|) && AllLinked(built, |built|)
    ensures Chain(copy.child, Roots(built)) && AllHeld(built, |built|) == AllHeld(kids, |built|) && AllTied(built)
  {
  }

  method CloseCopy(copy: Node, last: Node?, ghost built: seq<Tree>)
    requires Chain(copy.child, Roots(built)) && last == LastNode(built)
    requires AllShaped(built, |built|) && AllLinked(built, |built|)
    modifies Among(built, |built|)`prev
    ensures Ring(copy.child, Roots(built)) && AllLinked(built, |built|)
  {
    hide AllShaped, AllLinked, Among, Below, Inner, Chain, Ring;
    ghost var inner, among, below := Footprint(built, Tree(copy, NullKind, None, null, built));
    RootsSplit(built);
    RootsAmong(built);
    Close(copy, last, Roots(built));
    assert AllLinked(built, |built|);
  }

  lemma NoneCopied(copy: Node, kids: seq<Tree>)
    requires copy.child == null
    ensures Copying(copy, [], kids) && Among([], 0) == {}
  {
  }
}
