/** Trees of nodes in memory. A tree of node identities and payloads, given by a value, witnesses that
    the nodes form a tree and says what they hold. */
module Trees {
  import opened Bytes
  import opened Json
  import opened Nodes

  /** `back` is where the first child's `prev` points. */
  datatype Tree = Tree(node: Node, kind: Kind, key: Option<cstring>, back: Node?, kids: seq<Tree>)

  function LastNode(kids: seq<Tree>): Node? { if kids == [] then null else kids[|kids| - 1].node }

  function Roots(kids: seq<Tree>): (r: seq<Node>)
    ensures |r| == |kids| && forall i :: 0 <= i < |kids| ==> r[i] == kids[i].node
  {
    seq(|kids|, i requires 0 <= i < |kids| => kids[i].node)
  }

  /** The nodes of the tree but its root. */
  function Below(t: Tree): set<Node>
    decreases t
  {
    Among(t.kids, |t.kids|)
  }

  /** The nodes of the first `n` trees. */
  function Among(kids: seq<Tree>, n: nat): set<Node>
    requires n <= |kids|
    decreases kids, n
  {
    if n == 0 then {} else Among(kids, n - 1) + {kids[n - 1].node} + Below(kids[n - 1])
  }

  /** The nodes of the first `n` trees but their roots. */
  function Inner(kids: seq<Tree>, n: nat): (r: set<Node>)
    requires n <= |kids|
    ensures r <= Among(kids, n)
    decreases kids, n
  {
    if n == 0 then {} else Inner(kids, n - 1) + Below(kids[n - 1])
  }

  function All(t: Tree): set<Node> { Below(t) + {t.node} }

  // ----- Shape: no node occurs twice -----

  ghost predicate Shaped(t: Tree)
    decreases t
  {
    t.node !in Below(t) && AllShaped(t.kids, |t.kids|)
  }

  ghost predicate AllShaped(kids: seq<Tree>, n: nat)
    requires n <= |kids|
    decreases kids, n
  {
    n == 0 || (AllShaped(kids, n - 1) && Shaped(kids[n - 1]) && All(kids[n - 1]) !! Among(kids, n - 1))
  }

  /** Every child list is tied: the first child's `prev` is the last child. */
  ghost predicate Tied(t: Tree) {
    (t.kids != [] ==> t.back == LastNode(t.kids)) && AllTied(t.kids)
  }

  ghost predicate AllTied(kids: seq<Tree>)
    decreases kids
  {
    forall i :: 0 <= i < |kids| ==> Tied(kids[i])
  }

  // ----- Links: the memory holds the tree, every child list linked both ways -----

  ghost predicate Linked(t: Tree)
    reads t.node`child, t.node`kind, Below(t)`next, Below(t)`prev, Below(t)`child, Below(t)`kind, Below(t)`key
    decreases t
  {
    AllAmong(t.kids);
    && t.node.kind == t.kind && Chain(t.node.child, Roots(t.kids)) && AllLinked(t.kids, |t.kids|)
    && (t.kids != [] ==> t.kids[0].node.prev == t.back)
  }

  ghost predicate AllLinked(kids: seq<Tree>, n: nat)
    requires n <= |kids|
    reads Inner(kids, n)`next, Inner(kids, n)`prev, Among(kids, n)`child, Among(kids, n)`kind, Among(kids, n)`key
    decreases kids, n
  {
    n == 0 || (AllLinked(kids, n - 1) && kids[n - 1].node.key == kids[n - 1].key && Linked(kids[n - 1]))
  }

  // ----- Sets of nodes -----

  lemma {:induction false} AmongHas(kids: seq<Tree>, n: nat, i: nat)
    requires i < n <= |kids|
    ensures kids[i].node in Among(kids, n) && Below(kids[i]) <= Among(kids, n)
  {
    if i < n - 1 { AmongHas(kids, n - 1, i); }
  }

  lemma AmongAll(kids: seq<Tree>, i: nat)
    requires i < |kids|
    ensures All(kids[i]) <= Among(kids, |kids|)
  {
    AmongHas(kids, |kids|, i);
  }

  lemma RootsAmong(kids: seq<Tree>)
    ensures forall e :: e in Roots(kids) ==> e in Among(kids, |kids|)
  {
    AllAmong(kids);
  }

  lemma AllAmong(kids: seq<Tree>)
    ensures forall i :: 0 <= i < |kids| ==> kids[i].node in Among(kids, |kids|)
  {
    forall i | 0 <= i < |kids| ensures kids[i].node in Among(kids, |kids|) { AmongHas(kids, |kids|, i); }
  }

  lemma {:induction false} AmongGrows(kids: seq<Tree>, i: nat, n: nat)
    requires i <= n <= |kids|
    ensures Among(kids, i) <= Among(kids, n)
  {
    if i < n { AmongGrows(kids, i, n - 1); }
  }

  lemma AmongKids(t: Tree, n: nat)
    requires n <= |t.kids|
    ensures Among(t.kids, n) <= Below(t)
  {
    AmongGrows(t.kids, n, |t.kids|);
  }

  /** Every node belongs to one of the trees. */
  lemma {:induction false} AmongFrom(kids: seq<Tree>, n: nat, e: Node) returns (i: nat)
    requires n <= |kids| && e in Among(kids, n)
    ensures i < n && e in All(kids[i])
  {
    if e in All(kids[n - 1]) { i := n - 1; } else { i := AmongFrom(kids, n - 1, e); }
  }

  lemma {:induction false} RootsOutside(kids: seq<Tree>, n: nat)
    requires n <= |kids| && AllShaped(kids, n)
    ensures forall i :: 0 <= i < n ==> kids[i].node !in Inner(kids, n)
  {
    if n > 0 {
      RootsOutside(kids, n - 1);
      forall i | 0 <= i < n - 1 ensures kids[i].node !in Below(kids[n - 1]) { AmongHas(kids, n - 1, i); }
    }
  }

  lemma RootsSplit(kids: seq<Tree>)
    requires AllShaped(kids, |kids|)
    ensures forall e :: e in Roots(kids) ==> e !in Inner(kids, |kids|)
  {
    RootsOutside(kids, |kids|);
  }

  /** The node sets as values of their own. */
  lemma Footprint(kids: seq<Tree>, t: Tree) returns (inner: set<Node>, among: set<Node>, below: set<Node>)
    ensures inner == Inner(kids, |kids|) && among == Among(kids, |kids|) && below == Below(t)
  {
    inner, among, below := Inner(kids, |kids|), Among(kids, |kids|), Below(t);
  }

  lemma Outside(t: Tree)
    requires Shaped(t)
    ensures t.node !in Below(t)
  {
  }

  // ----- One child at a time -----

  lemma {:induction false} KidFacts(kids: seq<Tree>, n: nat, i: nat)
    requires i < n <= |kids| && AllShaped(kids, n)
    ensures Shaped(kids[i])
  {
    if i < n - 1 { KidFacts(kids, n - 1, i); }
  }

  lemma {:induction false} KidLinks(kids: seq<Tree>, n: nat, i: nat)
    requires i < n <= |kids| && AllLinked(kids, n)
    ensures Linked(kids[i]) && kids[i].node.key == kids[i].key
  {
    if i < n - 1 { KidLinks(kids, n - 1, i); }
  }

  lemma {:induction false} KidsApart(kids: seq<Tree>, n: nat, i: nat, j: nat)
    requires i < j < n <= |kids| && AllShaped(kids, n)
    ensures All(kids[i]) !! All(kids[j])
  {
    if j < n - 1 { KidsApart(kids, n - 1, i, j); } else { AmongHas(kids, n - 1, i); }
  }

  lemma ShapedKid(t: Tree, i: nat)
    requires Shaped(t) && Linked(t) && i < |t.kids|
    ensures Shaped(t.kids[i]) && Linked(t.kids[i]) && All(t.kids[i]) <= Below(t)
    ensures t.kids[i].node.next == NextIn(Roots(t.kids), i) && t.kids[i].node.key == t.kids[i].key
  {
    KidFacts(t.kids, |t.kids|, i);
    KidLinks(t.kids, |t.kids|, i);
    AmongHas(t.kids, |t.kids|, i);
  }

  lemma KidsLinked(t: Tree)
    requires Linked(t)
    ensures t.node.child == (if t.kids == [] then null else t.kids[0].node) && t.node.kind == t.kind
  {
  }

  lemma {:induction false} ShapedAll(kids: seq<Tree>, n: nat)
    requires n <= |kids| && forall i :: 0 <= i < n ==> Shaped(kids[i])
    requires forall i, j :: 0 <= i < j < n ==> All(kids[i]) !! All(kids[j])
    ensures AllShaped(kids, n)
  {
    if n > 0 {
      ShapedAll(kids, n - 1);
      var among, last := Among(kids, n - 1), All(kids[n - 1]);
      forall e | e in among ensures e !in last {
        var i := AmongFrom(kids, n - 1, e);
      }
    }
  }

  lemma {:induction false} LinkedAll(kids: seq<Tree>, n: nat)
    requires n <= |kids| && forall i :: 0 <= i < n ==> kids[i].node.key == kids[i].key && Linked(kids[i])
    ensures AllLinked(kids, n)
  {
    if n > 0 { LinkedAll(kids, n - 1); }
  }

  lemma Assemble(n: Node, key: Option<cstring>, back: Node?, kids: seq<Tree>)
    requires n !in Among(kids, |kids|) && AllShaped(kids, |kids|)
    requires Chain(n.child, Roots(kids)) && AllLinked(kids, |kids|) && (kids != [] ==> kids[0].node.prev == back)
    ensures var t := Tree(n, n.kind, key, back, kids); Shaped(t) && Linked(t) && Below(t) == Among(kids, |kids|)
  {
  }

  lemma Disassemble(t: Tree)
    requires Shaped(t) && Linked(t)
    ensures t.node !in Among(t.kids, |t.kids|) && AllShaped(t.kids, |t.kids|) && Below(t) == Among(t.kids, |t.kids|)
    ensures t.node.kind == t.kind && Chain(t.node.child, Roots(t.kids)) && AllLinked(t.kids, |t.kids|)
    ensures t.kids != [] ==> t.kids[0].node.prev == t.back
    ensures (t.kids != [] ==> t.back == LastNode(t.kids)) ==> Ring(t.node.child, Roots(t.kids))
  {
    RingIsChain(t.node.child, Roots(t.kids));
  }

  /** The same for a list that is known to be tied. */
  lemma AssembleRing(n: Node, key: Option<cstring>, kids: seq<Tree>)
    requires n !in Among(kids, |kids|) && AllShaped(kids, |kids|)
    requires Ring(n.child, Roots(kids)) && AllLinked(kids, |kids|)
    ensures var t := Tree(n, n.kind, key, LastNode(kids), kids);
      Shaped(t) && Linked(t) && Below(t) == Among(kids, |kids|)
    ensures AllTied(kids) ==> Tied(Tree(n, n.kind, key, LastNode(kids), kids))
  {
    RingIsChain(n.child, Roots(kids));
  }

  lemma NoKids()
    ensures Among([], 0) == {} && AllShaped([], 0) && AllLinked([], 0) && Roots([]) == []
  {
  }

  // ----- The value a tree of nodes holds -----

  function KeyOf(t: Tree): cstring { if t.key.Some? then t.key.value else [] }

  function ValueOf(t: Tree): Value
    decreases t
  {
    match t.kind
    case InvalidKind => Null
    case NullKind => Null
    case BoolKind(b) => Bool(b)
    case NumberKind(n) => Number(n)
    case StringKind(s) => String(s)
    case ArrayKind => Array(Values(t.kids, |t.kids|))
    case ObjectKind => Object(Members(t.kids, |t.kids|))
  }

  function Values(kids: seq<Tree>, n: nat): (r: seq<Value>)
    requires n <= |kids|
    ensures |r| == n && forall i :: 0 <= i < n ==> r[i] == ValueOf(kids[i])
    decreases kids, n
  {
    if n == 0 then [] else Values(kids, n - 1) + [ValueOf(kids[n - 1])]
  }

  function Members(kids: seq<Tree>, n: nat): (r: seq<Member>)
    requires n <= |kids|
    ensures |r| == n && forall i :: 0 <= i < n ==> r[i] == Member(KeyOf(kids[i]), ValueOf(kids[i]))
    decreases kids, n
  {
    if n == 0 then [] else Members(kids, n - 1) + [Member(KeyOf(kids[n - 1]), ValueOf(kids[n - 1]))]
  }

  /** Only arrays and objects have children, those of objects have keys, and no item is invalid. */
  ghost predicate Proper(t: Tree) {
    && !t.kind.InvalidKind?
    && (t.kids != [] ==> t.kind.ArrayKind? || t.kind.ObjectKind?)
    && (t.kind.ObjectKind? ==> forall i :: 0 <= i < |t.kids| ==> t.kids[i].key.Some?)
    && forall i :: 0 <= i < |t.kids| ==> Proper(t.kids[i])
  }

  lemma ProperKid(t: Tree, i: nat)
    requires Proper(t) && i < |t.kids|
    ensures Proper(t.kids[i]) && (t.kind.ArrayKind? || t.kind.ObjectKind?)
    ensures t.kind.ObjectKind? ==> t.kids[i].key.Some?
  {
  }

  /** A document: a proper tree, or an invalid item. */
  ghost predicate Fit(t: Tree) { Proper(t) || (t.kind.InvalidKind? && t.kids == []) }

  /** A tree in memory that holds a JSON value. */
  ghost predicate Sound(t: Tree)
    reads t.node`child, t.node`kind, Below(t)`next, Below(t)`prev, Below(t)`child, Below(t)`kind, Below(t)`key
  {
    Shaped(t) && Linked(t) && Proper(t)
  }

  lemma KindOf(t: Tree)
    requires Linked(t)
    ensures t.node.kind == t.kind
  {
  }

  lemma NodesBelow(t: Tree) returns (below: set<Node>)
    ensures below == Below(t)
  {
    below := Below(t);
  }

  // ----- One more tree at the end -----

  lemma {:induction false} Prefix(kids: seq<Tree>, x: Tree, n: nat)
    requires n <= |kids|
    ensures Among(kids + [x], n) == Among(kids, n)
    ensures AllShaped(kids + [x], n) == AllShaped(kids, n) && AllLinked(kids + [x], n) == AllLinked(kids, n)
  {
    if n > 0 {
      assert (kids + [x])[n - 1] == kids[n - 1];
      Prefix(kids, x, n - 1);
    }
  }

  lemma AppendShaped(kids: seq<Tree>, x: Tree, n: nat)
    requires n == |kids|
    ensures Among(kids + [x], n + 1) == Among(kids, n) + All(x)
    ensures AllShaped(kids + [x], n + 1) == (AllShaped(kids, n) && Shaped(x) && All(x) !! Among(kids, n))
    ensures AllLinked(kids + [x], n + 1) == (AllLinked(kids, n) && x.node.key == x.key && Linked(x))
    ensures Roots(kids + [x]) == Roots(kids) + [x.node]
  {
    hide Shaped, Linked;
    Prefix(kids, x, n);
  }
}
