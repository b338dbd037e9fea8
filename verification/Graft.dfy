/** A part of a tree of nodes changed in place: what the whole tree is afterwards. */
module Graft {
  import opened Json
  import opened Nodes
  import opened Trees
  import P = Pointer
  import Patch

  predicate InTree(t: Tree, pos: P.Position)
    decreases |pos|
  {
    pos == [] || (pos[0] < |t.kids| && InTree(t.kids[pos[0]], pos[1..]))
  }

  function TreeAt(t: Tree, pos: P.Position): Tree
    requires InTree(t, pos)
    decreases |pos|
  {
    if pos == [] then t else TreeAt(t.kids[pos[0]], pos[1..])
  }

  /** The tree with the subtree at `pos` replaced. */
  function PutTree(t: Tree, pos: P.Position, x: Tree): Tree
    requires InTree(t, pos)
    decreases |pos|
  {
    if pos == [] then x else t.(kids := t.kids[pos[0] := PutTree(t.kids[pos[0]], pos[1..], x)])
  }

  // ----- Values -----

  lemma {:induction false} ValidInTree(t: Tree, pos: P.Position)
    requires P.Valid(ValueOf(t), pos)
    ensures InTree(t, pos) && ValueOf(TreeAt(t, pos)) == P.ItemAt(ValueOf(t), pos)
    decreases |pos|
  {
    if pos != [] { ValidInTree(t.kids[pos[0]], pos[1..]); }
  }

  lemma {:induction false} ProperAt(t: Tree, pos: P.Position)
    requires InTree(t, pos) && Proper(t)
    ensures Proper(TreeAt(t, pos)) && P.Valid(ValueOf(t), pos)
    decreases |pos|
  {
    if pos != [] { ProperAt(t.kids[pos[0]], pos[1..]); }
  }

  lemma {:induction false} PutValue(t: Tree, pos: P.Position, x: Tree)
    requires InTree(t, pos) && Proper(t) && Proper(x) && x.key == TreeAt(t, pos).key
    ensures Proper(PutTree(t, pos, x)) && PutTree(t, pos, x).key == t.key && P.Valid(ValueOf(t), pos)
    ensures ValueOf(PutTree(t, pos, x)) == Patch.PutAt(ValueOf(t), pos, ValueOf(x))
    decreases |pos|
  {
    hide Proper, Patch.PutAt;
    ProperAt(t, pos);
    PutUnfold(ValueOf(t), pos, ValueOf(x));
    if pos != [] {
      var i := pos[0];
      ProperKid(t, i);
      PutValue(t.kids[i], pos[1..], x);
      PutOne(t, i, PutTree(t.kids[i], pos[1..], x));
    }
  }

  lemma PutUnfold(v: Value, pos: P.Position, x: Value)
    requires P.Valid(v, pos)
    ensures pos == [] ==> Patch.PutAt(v, pos, x) == x
    ensures pos != [] && v.Array? ==>
      Patch.PutAt(v, pos, x) == Array(v.items[pos[0] := Patch.PutAt(v.items[pos[0]], pos[1..], x)])
    ensures pos != [] && v.Object? ==>
      var m := v.members[pos[0]];
      Patch.PutAt(v, pos, x) == Object(v.members[pos[0] := Member(m.key, Patch.PutAt(m.value, pos[1..], x))])
  {
  }

  lemma PutOne(t: Tree, i: nat, x: Tree)
    requires i < |t.kids| && Proper(t) && Proper(x) && x.key == t.kids[i].key
    ensures var u := t.(kids := t.kids[i := x]);
      && Proper(u)
      && ValueOf(u) == (if t.kind.ArrayKind? then Array(Values(t.kids, |t.kids|)[i := ValueOf(x)])
                        else Object(Members(t.kids, |t.kids|)[i := Member(KeyOf(t.kids[i]), ValueOf(x))]))
  {
    var kids := t.kids[i := x];
    ProperKid(t, i);
    assert Values(kids, |kids|) == Values(t.kids, |t.kids|)[i := ValueOf(x)];
    assert Members(kids, |kids|) == Members(t.kids, |t.kids|)[i := Member(KeyOf(t.kids[i]), ValueOf(x))];
  }

  lemma {:induction false} PutTied(t: Tree, pos: P.Position, x: Tree)
    requires InTree(t, pos) && Tied(t) && Tied(x) && x.node == TreeAt(t, pos).node
    ensures Tied(PutTree(t, pos, x)) && PutTree(t, pos, x).node == t.node
    decreases |pos|
  {
    if pos != [] { PutTied(t.kids[pos[0]], pos[1..], x); }
  }

  lemma {:induction false} TiedAt(t: Tree, pos: P.Position)
    requires InTree(t, pos) && Tied(t)
    ensures Tied(TreeAt(t, pos))
    decreases |pos|
  {
    if pos != [] { TiedAt(t.kids[pos[0]], pos[1..]); }
  }

  // ----- Shape -----

  lemma {:induction false} AtWithin(t: Tree, pos: P.Position)
    requires InTree(t, pos)
    ensures All(TreeAt(t, pos)) <= All(t) && (pos != [] ==> All(TreeAt(t, pos)) <= Below(t))
    decreases |pos|
  {
    if pos != [] {
      AtWithin(t.kids[pos[0]], pos[1..]);
      AmongHas(t.kids, |t.kids|, pos[0]);
    }
  }

  /** The new part may bring nodes of its own, but none that the rest of the tree has. */
  ghost predicate Apart(t: Tree, at: Tree, x: Tree) {
    x.node == at.node && x.key == at.key && forall n :: n in Below(x) ==> n !in All(t) || n in Below(at)
  }

  /** One child replaced. */
  lemma SwapKid(kids: seq<Tree>, i: nat, y: Tree)
    requires i < |kids| && AllShaped(kids, |kids|) && Shaped(y)
    requires forall n :: n in All(y) && n in Among(kids, |kids|) ==> n in All(kids[i])
    ensures AllShaped(kids[i := y], |kids|)
    ensures Among(kids[i := y], |kids|) == (Among(kids, |kids|) - All(kids[i])) + All(y)
  {
    hide Shaped, AllShaped, Among, All;
    var swapped := kids[i := y];
    forall j | 0 <= j < |kids| ensures Shaped(swapped[j]) { KidFacts(kids, |kids|, j); }
    forall j, k | 0 <= j < k < |kids| ensures All(swapped[j]) !! All(swapped[k]) {
      KidsApart(kids, |kids|, j, k);
      AmongAll(kids, j);
      AmongAll(kids, k);
    }
    ShapedAll(swapped, |kids|);
    var now, goal := Among(swapped, |kids|), (Among(kids, |kids|) - All(kids[i])) + All(y);
    forall n | n in now ensures n in goal { SwappedNode(kids, i, y, n); }
    forall n | n in goal ensures n in now { SwappedNode(kids, i, y, n); }
  }

  lemma SwappedNode(kids: seq<Tree>, i: nat, y: Tree, n: Node)
    requires i < |kids| && AllShaped(kids, |kids|)
    ensures n in Among(kids[i := y], |kids|) <==> (n in Among(kids, |kids|) && n !in All(kids[i])) || n in All(y)
  {
    hide Shaped, AllShaped, Among, All;
    var swapped := kids[i := y];
    AmongAll(swapped, i);
    if n in Among(swapped, |kids|) {
      var j := AmongFrom(swapped, |kids|, n);
      if j != i {
        AmongAll(kids, j);
        if j < i { KidsApart(kids, |kids|, j, i); } else { KidsApart(kids, |kids|, i, j); }
      }
    }
    if n in Among(kids, |kids|) && n !in All(kids[i]) {
      var j := AmongFrom(kids, |kids|, n);
      AmongAll(swapped, j);
    }
  }

  lemma {:induction false} PutShaped(t: Tree, pos: P.Position, x: Tree)
    requires InTree(t, pos) && Shaped(t) && Shaped(x) && Apart(t, TreeAt(t, pos), x)
    ensures var u := PutTree(t, pos, x);
      Shaped(u) && u.node == t.node && u.key == t.key && All(u) == (All(t) - All(TreeAt(t, pos))) + All(x)
    decreases |pos|
  {
    hide Shaped, AllShaped, Below, Among;
    if pos != [] {
      var i, at := pos[0], TreeAt(t, pos);
      var kid, y := t.kids[i], PutTree(t.kids[i], pos[1..], x);
      Whole(t);
      KidFacts(t.kids, |t.kids|, i);
      AmongAll(t.kids, i);
      AtWithin(kid, pos[1..]);
      ApartBelow(t, i, at, x);
      PutShaped(kid, pos[1..], x);
      SwapKid(t.kids, i, y);
      Whole(t.(kids := t.kids[i := y]));
    }
  }

  lemma Whole(t: Tree)
    ensures Below(t) == Among(t.kids, |t.kids|) && All(t) == Below(t) + {t.node}
    ensures Shaped(t) <==> t.node !in Below(t) && AllShaped(t.kids, |t.kids|)
  {
  }

  lemma ApartBelow(t: Tree, i: nat, at: Tree, x: Tree)
    requires i < |t.kids| && Apart(t, at, x)
    ensures Apart(t.kids[i], at, x)
  {
    AmongAll(t.kids, i);
  }

  // ----- Links -----

  /** The nodes outside the part at `pos`. */
  function Rest(t: Tree, pos: P.Position): set<Node>
    requires InTree(t, pos)
  {
    All(t) - All(TreeAt(t, pos))
  }

  lemma RestFacts(t: Tree, pos: P.Position)
    requires InTree(t, pos) && pos != [] && Shaped(t)
    ensures var i, at := pos[0], TreeAt(t, pos);
      && t.node in Rest(t, pos) && Rest(t.kids[i], pos[1..]) <= Rest(t, pos) && Shaped(t.kids[i])
      && (forall j :: 0 <= j < |t.kids| && j != i ==> Within(t.kids[j], Rest(t, pos)))
      && forall j :: 0 <= j < |t.kids| ==> t.kids[j].node == at.node || t.kids[j].node in Rest(t, pos)
  {
    hide Shaped, AllShaped, Below, Among;
    var i, at := pos[0], TreeAt(t, pos);
    Whole(t);
    KidFacts(t.kids, |t.kids|, i);
    AmongAll(t.kids, i);
    AtWithin(t.kids[i], pos[1..]);
    forall j | 0 <= j < |t.kids| && j != i ensures Within(t.kids[j], Rest(t, pos)) {
      AmongAll(t.kids, j);
      if j < i { KidsApart(t.kids, |t.kids|, j, i); } else { KidsApart(t.kids, |t.kids|, i, j); }
    }
    if pos[1..] != [] { NotRoot(t.kids[i], pos[1..]); }
  }

  lemma NotRoot(t: Tree, pos: P.Position)
    requires InTree(t, pos) && pos != [] && Shaped(t)
    ensures t.node in Rest(t, pos)
  {
    AtWithin(t, pos);
  }

  /** The list of children itself. */
  ghost predicate Level(t: Tree, rest: set<Node>, at: Node)
    requires t.node in rest && t.kids != [] && forall j :: 0 <= j < |t.kids| ==>
      t.kids[j].node == at || t.kids[j].node in rest
    reads rest, at`next, at`prev, at`key
  {
    && t.node.kind == t.kind && Chain(t.node.child, Roots(t.kids)) && t.kids[0].node.prev == t.back
    && (forall j :: 0 <= j < |t.kids| ==> t.kids[j].node.key == t.kids[j].key)
  }

  /** The trees beside child `i`. */
  ghost predicate Others(kids: seq<Tree>, i: nat, rest: set<Node>)
    requires forall j :: 0 <= j < |kids| && j != i ==> Within(kids[j], rest)
    reads rest
  {
    forall j :: 0 <= j < |kids| && j != i ==> LinkedIn(kids[j], rest)
  }

  ghost predicate Within(t: Tree, rest: set<Node>) { All(t) <= rest }

  ghost predicate LinkedIn(t: Tree, rest: set<Node>)
    requires Within(t, rest)
    reads rest
  {
    Linked(t)
  }

  /** What Linked asks of the memory outside the part at `pos`. */
  ghost predicate LinkedBut(t: Tree, pos: P.Position)
    requires InTree(t, pos) && Shaped(t)
    reads Rest(t, pos), TreeAt(t, pos).node`next, TreeAt(t, pos).node`prev, TreeAt(t, pos).node`key
    decreases |pos|
  {
    pos == []
    || (RestFacts(t, pos);
        && Level(t, Rest(t, pos), TreeAt(t, pos).node) && Others(t.kids, pos[0], Rest(t, pos))
        && LinkedBut(t.kids[pos[0]], pos[1..]))
  }

  lemma {:induction false} TakeApart(t: Tree, pos: P.Position)
    requires InTree(t, pos) && Shaped(t) && Linked(t)
    ensures LinkedBut(t, pos) && Linked(TreeAt(t, pos)) && Shaped(TreeAt(t, pos))
    ensures pos != [] ==> TreeAt(t, pos).node.key == TreeAt(t, pos).key
    decreases |pos|
  {
    hide Shaped, Linked, AllLinked, Below, Among, Rest, Chain, Roots, Within, All;
    if pos != [] {
      RestFacts(t, pos);
      Disassemble(t);
      forall j | 0 <= j < |t.kids| ensures Linked(t.kids[j]) && t.kids[j].node.key == t.kids[j].key {
        KidLinks(t.kids, |t.kids|, j);
      }
      TakeApart(t.kids[pos[0]], pos[1..]);
    }
  }

  lemma {:induction false} PutTogether(t: Tree, pos: P.Position, x: Tree)
    requires InTree(t, pos) && Shaped(t) && LinkedBut(t, pos) && Linked(x)
    requires x.node == TreeAt(t, pos).node && x.key == TreeAt(t, pos).key
    ensures Linked(PutTree(t, pos, x)) && PutTree(t, pos, x).node == t.node && PutTree(t, pos, x).key == t.key
    decreases |pos|
  {
    hide Shaped, Below, Among, Rest, Within, All, Chain;
    if pos != [] {
      var i := pos[0];
      RestFacts(t, pos);
      PutTogether(t.kids[i], pos[1..], x);
      var kids := t.kids[i := PutTree(t.kids[i], pos[1..], x)];
      assert Roots(kids) == Roots(t.kids);
      forall j | 0 <= j < |kids| ensures Linked(kids[j]) && kids[j].node.key == kids[j].key {}
      LinkedAll(kids, |kids|);
    }
  }

  lemma RestNodes(t: Tree, pos: P.Position) returns (rest: set<Node>)
    requires InTree(t, pos)
    ensures rest == Rest(t, pos)
  {
    rest := Rest(t, pos);
  }

  /** The part at `pos` has become `x`, the rest is as it was. */
  lemma Replant(t: Tree, pos: P.Position, x: Tree)
    requires InTree(t, pos) && Shaped(t) && LinkedBut(t, pos) && Shaped(x) && Linked(x) && Apart(t, TreeAt(t, pos), x)
    ensures var u := PutTree(t, pos, x);
      && Shaped(u) && Linked(u) && u.node == t.node && u.key == t.key
      && All(u) == (All(t) - All(TreeAt(t, pos))) + All(x)
  {
    PutTogether(t, pos, x);
    PutShaped(t, pos, x);
  }

  lemma {:induction false} PutThere(t: Tree, pos: P.Position, x: Tree)
    requires InTree(t, pos)
    ensures InTree(PutTree(t, pos, x), pos) && TreeAt(PutTree(t, pos, x), pos) == x
    decreases |pos|
  {
    if pos != [] { PutThere(t.kids[pos[0]], pos[1..], x); }
  }

  lemma AtRoot(t: Tree)
    ensures InTree(t, []) && TreeAt(t, []) == t
  {
  }

  lemma OneStep(t: Tree, i: nat, x: Tree)
    requires i < |t.kids|
    ensures InTree(t, [i]) && TreeAt(t, [i]) == t.kids[i] && PutTree(t, [i], x) == t.(kids := t.kids[i := x])
  {
    assert [i][1..] == [];
  }
}
