/** compare_json on nodes in memory: it sorts the objects it visits, and its answer is that of the values. */
module NodeCompare {
  import opened Bytes
  import opened Json
  import opened Nodes
  import opened Trees
  import opened Compare
  import Sorting
  import SortList
  import Graft

  // ----- The trees left behind -----

  ghost predicate KidsWithin(kids: seq<Tree>, n: nat) {
    forall i :: 0 <= i < |kids| ==> Nesting(ValueOf(kids[i])) <= n
  }

  lemma KidsNest(t: Tree, caseSensitive: bool)
    requires t.kind.ArrayKind? || t.kind.ObjectKind?
    ensures Nesting(ValueOf(t)) > 0 && KidsWithin(t.kids, Nesting(ValueOf(t)) - 1)
    ensures KidsWithin(SortList.Sorted(t.kids, caseSensitive), Nesting(ValueOf(t)) - 1)
  {
    var n := Nesting(ValueOf(t)) - 1;
    WithinNesting(Values(t.kids, |t.kids|), Members(t.kids, |t.kids|));
    forall i | 0 <= i < |t.kids| ensures Nesting(ValueOf(t.kids[i])) <= n {
      assert Values(t.kids, |t.kids|)[i] == ValueOf(t.kids[i]);
      assert Members(t.kids, |t.kids|)[i].value == ValueOf(t.kids[i]);
    }
    SortList.SortedKeeps(t.kids, caseSensitive);
    SortList.SameRoots(SortList.Sorted(t.kids, caseSensitive), t.kids);
  }

  /** An object after sort_object: if another member comes first, no `prev` leads to the last one. */
  function SortedTree(t: Tree, caseSensitive: bool): Tree {
    var kids := SortList.Sorted(t.kids, caseSensitive);
    t.(kids := kids, back := if kids == [] || kids[0] == t.kids[0] then t.back else null)
  }

  ghost function Arranged(t: Tree, u: Tree, caseSensitive: bool): Tree
    decreases Nesting(ValueOf(t)), 1, 0
  {
    if t.kind.ArrayKind? && u.kind.ArrayKind? then
      KidsNest(t, caseSensitive);
      t.(kids := ArrangedKids(t.kids, u.kids, 0, false, caseSensitive, Nesting(ValueOf(t)) - 1))
    else if t.kind.ObjectKind? && u.kind.ObjectKind? then
      KidsNest(t, caseSensitive);
      var s, us := SortedTree(t, caseSensitive), SortList.Sorted(u.kids, caseSensitive);
      s.(kids := ArrangedKids(s.kids, us, 0, true, caseSensitive, Nesting(ValueOf(t)) - 1))
    else t
  }

  /** The children from index `i` on; those of objects must agree in their names. */
  ghost function ArrangedKids(ts: seq<Tree>, us: seq<Tree>, i: nat, keyed: bool, caseSensitive: bool,
                              n: nat): (r: seq<Tree>)
    requires i <= |ts| && i <= |us| && KidsWithin(ts, n)
    ensures |r| == |ts| - i
    decreases n + 1, 0, |ts| - i
  {
    if i == |ts| || i == |us| || (keyed && !SameKey(KeyOf(ts[i]), KeyOf(us[i]), caseSensitive)) then ts[i..]
    else
      var x := Arranged(ts[i], us[i], caseSensitive);
      if CompareJson(ValueOf(ts[i]), ValueOf(us[i]), caseSensitive)
      then [x] + ArrangedKids(ts, us, i + 1, keyed, caseSensitive, n)
      else [x] + ts[i + 1..]
  }

  // ----- Their values -----

  ghost predicate AllProper(kids: seq<Tree>) { forall i :: 0 <= i < |kids| ==> Proper(kids[i]) }

  /** The same node and name, and still proper. */
  ghost predicate Kept(r: Tree, t: Tree) { r.node == t.node && r.kind == t.kind && r.key == t.key && Proper(r) }

  ghost predicate AllKept(r: seq<Tree>, ts: seq<Tree>, i: nat)
    requires i <= |ts|
  {
    |r| == |ts| - i && forall k :: i <= k < |ts| ==> Kept(r[k - i], ts[k])
  }

  lemma KeptStep(x: Tree, rest: seq<Tree>, ts: seq<Tree>, i: nat)
    requires i < |ts| && Kept(x, ts[i]) && AllKept(rest, ts, i + 1)
    ensures AllKept([x] + rest, ts, i)
  {
    hide Kept;
    var r := [x] + rest;
    forall k | i <= k < |ts| ensures Kept(r[k - i], ts[k]) {
      if k > i { assert r[k - i] == rest[k - (i + 1)]; }
    }
  }

  lemma SuffixKept(ts: seq<Tree>, i: nat)
    requires i <= |ts| && AllProper(ts)
    ensures AllKept(ts[i..], ts, i)
  {
  }

  lemma {:induction false} ValuesStep(x: Tree, rest: seq<Tree>, all: seq<Tree>)
    requires |all| == |rest| + 1 && all[0] == x && all[1..] == rest
    ensures Values(all, |all|) == [ValueOf(x)] + Values(rest, |rest|)
    ensures Members(all, |all|) == [Member(KeyOf(x), ValueOf(x))] + Members(rest, |rest|)
  {
    hide *;
    ValuesSuffix(all, 1);
    var values, members := Values(all, |all|), Members(all, |all|);
    assert values == [values[0]] + values[1..] && members == [members[0]] + members[1..];
  }

  lemma ValuesSuffix(ts: seq<Tree>, i: nat)
    requires i <= |ts|
    ensures Values(ts[i..], |ts| - i) == Values(ts, |ts|)[i..]
    ensures Members(ts[i..], |ts| - i) == Members(ts, |ts|)[i..]
  {
    hide Values, Members, ValueOf;
  }

  lemma {:induction false} KidsArranged(ts: seq<Tree>, us: seq<Tree>, i: nat, keyed: bool, caseSensitive: bool, n: nat)
    requires i <= |ts| && i <= |us| && KidsWithin(ts, n) && AllProper(ts) && AllProper(us)
    ensures AllKept(ArrangedKids(ts, us, i, keyed, caseSensitive, n), ts, i)
    decreases n + 1, 0, |ts| - i
  {
    hide Proper, ValueOf, Arranged, CompareJson, SameKey, Kept;
    var r := ArrangedKids(ts, us, i, keyed, caseSensitive, n);
    SuffixKept(ts, i);
    if i < |ts| && i < |us| {
      var x := Arranged(ts[i], us[i], caseSensitive);
      ArrangedValue(ts[i], us[i], caseSensitive);
      KeptIs(x, ts[i]);
      KidsArranged(ts, us, i + 1, keyed, caseSensitive, n);
      SuffixKept(ts, i + 1);
      KeptStep(x, ArrangedKids(ts, us, i + 1, keyed, caseSensitive, n), ts, i);
      KeptStep(x, ts[i + 1..], ts, i);
    }
  }

  lemma KeptIs(r: Tree, t: Tree)
    ensures Kept(r, t) <==> r.node == t.node && r.kind == t.kind && r.key == t.key && Proper(r)
    ensures Kept(r, t) ==> KeyOf(r) == KeyOf(t)
  {
  }

  lemma {:induction false} ItemsArranged(ts: seq<Tree>, us: seq<Tree>, i: nat, caseSensitive: bool, n: nat)
    requires i <= |ts| && i <= |us| && KidsWithin(ts, n) && AllProper(ts) && AllProper(us)
    ensures ItemsWithin(Values(ts, |ts|), n)
    ensures Values(ArrangedKids(ts, us, i, false, caseSensitive, n), |ts| - i)
      == ArrangeItems(Values(ts, |ts|), Values(us, |us|), i, caseSensitive, n)
    decreases n + 1, 0, |ts| - i
  {
    hide Proper, ValueOf, Arranged, CompareJson, SameKey, Arrange, Values, Members;
    ValuesSuffix(ts, i);
    if i < |ts| && i < |us| {
      var x := Arranged(ts[i], us[i], caseSensitive);
      ArrangedValue(ts[i], us[i], caseSensitive);
      ItemsArranged(ts, us, i + 1, caseSensitive, n);
      ValuesSuffix(ts, i + 1);
      var rest := ArrangedKids(ts, us, i + 1, false, caseSensitive, n);
      var all := ArrangedKids(ts, us, i, false, caseSensitive, n);
      if all == [x] + rest {
        ValuesStep(x, rest, all);
      } else if all == [x] + ts[i + 1..] {
        ValuesStep(x, ts[i + 1..], all);
      }
    }
  }

  lemma {:induction false} MembersArranged(ts: seq<Tree>, us: seq<Tree>, i: nat, caseSensitive: bool, n: nat)
    requires i <= |ts| && i <= |us| && KidsWithin(ts, n) && AllProper(ts) && AllProper(us)
    ensures MembersWithin(Members(ts, |ts|), n)
    ensures Members(ArrangedKids(ts, us, i, true, caseSensitive, n), |ts| - i)
      == ArrangeMembers(Members(ts, |ts|), Members(us, |us|), i, caseSensitive, n)
    decreases n + 1, 0, |ts| - i
  {
    hide Proper, ValueOf, Arranged, CompareJson, SameKey, Arrange, Values, Members, KeyOf;
    ValuesSuffix(ts, i);
    if i < |ts| && i < |us| {
      var x := Arranged(ts[i], us[i], caseSensitive);
      ArrangedValue(ts[i], us[i], caseSensitive);
      KeptIs(x, ts[i]);
      MembersArranged(ts, us, i + 1, caseSensitive, n);
      ValuesSuffix(ts, i + 1);
      var rest := ArrangedKids(ts, us, i + 1, true, caseSensitive, n);
      var all := ArrangedKids(ts, us, i, true, caseSensitive, n);
      if all == [x] + rest {
        ValuesStep(x, rest, all);
      } else if all == [x] + ts[i + 1..] {
        ValuesStep(x, ts[i + 1..], all);
      }
    }
  }

  /** What compare_json leaves of a tree holds what it leaves of the value. */
  lemma {:induction false} ArrangedValue(t: Tree, u: Tree, caseSensitive: bool)
    requires Proper(t) && Proper(u)
    ensures var r := Arranged(t, u, caseSensitive);
      && r.node == t.node && r.kind == t.kind && r.key == t.key && Proper(r)
      && ValueOf(r) == Arrange(ValueOf(t), ValueOf(u), caseSensitive)
    decreases Nesting(ValueOf(t)), 1, 0
  {
    hide ArrangedKids, ArrangeItems, ArrangeMembers, Values, Members, SortList.Sorted, Sorting.Sort, Proper;
    KindValue(t);
    KindValue(u);
    ProperKids(t);
    ProperKids(u);
    if t.kind.ArrayKind? && u.kind.ArrayKind? {
      KidsNest(t, caseSensitive);
      var n := Nesting(ValueOf(t)) - 1;
      KidsArranged(t.kids, u.kids, 0, false, caseSensitive, n);
      ItemsArranged(t.kids, u.kids, 0, caseSensitive, n);
      ProperList(t, t, ArrangedKids(t.kids, u.kids, 0, false, caseSensitive, n));
    } else if t.kind.ObjectKind? && u.kind.ObjectKind? {
      KidsNest(t, caseSensitive);
      var n := Nesting(ValueOf(t)) - 1;
      var s, us := SortedTree(t, caseSensitive), SortList.Sorted(u.kids, caseSensitive);
      ProperSorted(t, caseSensitive);
      ProperSorted(u, caseSensitive);
      KidsArranged(s.kids, us, 0, true, caseSensitive, n);
      MembersArranged(s.kids, us, 0, caseSensitive, n);
      ProperList(t, s, ArrangedKids(s.kids, us, 0, true, caseSensitive, n));
    }
  }

  lemma KindValue(t: Tree)
    ensures t.kind.ArrayKind? <==> ValueOf(t).Array?
    ensures t.kind.ObjectKind? <==> ValueOf(t).Object?
    ensures t.kind.ArrayKind? ==> ValueOf(t) == Array(Values(t.kids, |t.kids|))
    ensures t.kind.ObjectKind? ==> ValueOf(t) == Object(Members(t.kids, |t.kids|))
  {
  }

  lemma ProperKids(t: Tree)
    requires Proper(t)
    ensures AllProper(t.kids) && (t.kind.ObjectKind? ==> SortList.Keyed(t.kids))
  {
  }

  /** New children with the names of the old ones. */
  lemma ProperList(t: Tree, s: Tree, kids: seq<Tree>)
    requires Proper(t) && (t.kind.ArrayKind? || t.kind.ObjectKind?) && s.kind == t.kind
    requires AllKept(kids, s.kids, 0) && (t.kind.ObjectKind? ==> SortList.Keyed(s.kids))
    ensures Proper(s.(kids := kids))
  {
    forall i | 0 <= i < |kids| ensures Proper(kids[i]) && kids[i].key == s.kids[i].key {
      assert Kept(kids[i - 0], s.kids[i]);
    }
  }

  lemma ProperSorted(t: Tree, caseSensitive: bool)
    requires Proper(t) && t.kind.ObjectKind?
    ensures var s := SortList.Sorted(t.kids, caseSensitive);
      && AllProper(s) && SortList.Keyed(s) && |s| == |t.kids|
      && Members(s, |s|) == Sorting.Sort(Members(t.kids, |t.kids|), caseSensitive)
  {
    ProperKids(t);
    SortList.SortedMembers(t.kids, caseSensitive);
    SortList.SortedKeeps(t.kids, caseSensitive);
    SortList.SameRoots(SortList.Sorted(t.kids, caseSensitive), t.kids);
  }

  // ----- When the lists stay tied -----

  /** Sorting leaves the first and the last member where they are. */
  predicate EndsSettled(xs: seq<Member>, caseSensitive: bool) {
    var s := Sorting.Sort(xs, caseSensitive);
    |s| == |xs| && (xs != [] ==> s[0] == xs[0] && s[|s| - 1] == xs[|xs| - 1])
  }

  /** Every object of `a` that the comparison with `b` sorts keeps its first and its last member. */
  predicate Settled(a: Value, b: Value, caseSensitive: bool)
    decreases Nesting(a), 1, 0
  {
    match (a, b)
    case (Array(xs), Array(ys)) =>
      WithinNesting(xs, []);
      SettledItems(xs, ys, 0, caseSensitive, ItemsNesting(xs))
    case (Object(xs), Object(ys)) =>
      SortedWithin(xs, caseSensitive);
      EndsSettled(xs, caseSensitive)
      && SettledMembers(Sorting.Sort(xs, caseSensitive), Sorting.Sort(ys, caseSensitive), 0, caseSensitive,
                        MembersNesting(xs))
    case _ => true
  }

  predicate SettledItems(xs: seq<Value>, ys: seq<Value>, i: nat, caseSensitive: bool, ghost n: nat)
    requires i <= |xs| && i <= |ys| && ItemsWithin(xs, n)
    decreases n + 1, 0, |xs| - i
  {
    i == |xs| || i == |ys|
    || (Settled(xs[i], ys[i], caseSensitive)
        && (CompareJson(xs[i], ys[i], caseSensitive) ==> SettledItems(xs, ys, i + 1, caseSensitive, n)))
  }

  predicate SettledMembers(xs: seq<Member>, ys: seq<Member>, i: nat, caseSensitive: bool, ghost n: nat)
    requires i <= |xs| && i <= |ys| && MembersWithin(xs, n)
    decreases n + 1, 0, |xs| - i
  {
    i == |xs| || i == |ys| || !SameKey(xs[i].key, ys[i].key, caseSensitive)
    || (Settled(xs[i].value, ys[i].value, caseSensitive)
        && (CompareJson(xs[i].value, ys[i].value, caseSensitive) ==> SettledMembers(xs, ys, i + 1, caseSensitive, n)))
  }

  ghost predicate AllWell(kids: seq<Tree>) {
    forall i :: 0 <= i < |kids| ==> Proper(kids[i]) && Shaped(kids[i]) && Tied(kids[i]) && Distinct(ValueOf(kids[i]))
  }

  lemma TiedStep(x: Tree, rest: seq<Tree>)
    ensures AllTied([x] + rest) <==> Tied(x) && AllTied(rest)
  {
    hide Tied;
    var all := [x] + rest;
    assert all[0] == x && forall i :: 0 <= i < |rest| ==> all[i + 1] == rest[i];
  }

  lemma WellTied(kids: seq<Tree>, i: nat)
    requires AllWell(kids) && i <= |kids|
    ensures AllTied(kids[i..])
  {
    hide Tied;
  }

  lemma {:induction false} ItemsTied(ts: seq<Tree>, us: seq<Tree>, i: nat, caseSensitive: bool, n: nat)
    requires i <= |ts| && i <= |us| && KidsWithin(ts, n) && AllWell(ts) && AllProper(us)
    ensures ItemsWithin(Values(ts, |ts|), n)
    ensures AllTied(ArrangedKids(ts, us, i, false, caseSensitive, n))
      <==> SettledItems(Values(ts, |ts|), Values(us, |us|), i, caseSensitive, n)
    decreases n + 1, 0, |ts| - i
  {
    hide Proper, Shaped, Tied, AllTied, Distinct, ValueOf, Arranged, CompareJson, SameKey, Settled, Values, Members;
    WellTied(ts, i);
    if i < |ts| && i < |us| {
      var x := Arranged(ts[i], us[i], caseSensitive);
      ArrangedTied(ts[i], us[i], caseSensitive);
      ItemsTied(ts, us, i + 1, caseSensitive, n);
      WellTied(ts, i + 1);
      TiedStep(x, ArrangedKids(ts, us, i + 1, false, caseSensitive, n));
      TiedStep(x, ts[i + 1..]);
    }
  }

  lemma {:induction false} MembersTied(ts: seq<Tree>, us: seq<Tree>, i: nat, caseSensitive: bool, n: nat)
    requires i <= |ts| && i <= |us| && KidsWithin(ts, n) && AllWell(ts) && AllProper(us)
    ensures MembersWithin(Members(ts, |ts|), n)
    ensures AllTied(ArrangedKids(ts, us, i, true, caseSensitive, n))
      <==> SettledMembers(Members(ts, |ts|), Members(us, |us|), i, caseSensitive, n)
    decreases n + 1, 0, |ts| - i
  {
    hide Proper, Shaped, Tied, AllTied, Distinct, ValueOf, Arranged, CompareJson, SameKey, Settled, Values, Members,
         KeyOf;
    WellTied(ts, i);
    if i < |ts| && i < |us| {
      var x := Arranged(ts[i], us[i], caseSensitive);
      ArrangedTied(ts[i], us[i], caseSensitive);
      MembersTied(ts, us, i + 1, caseSensitive, n);
      WellTied(ts, i + 1);
      TiedStep(x, ArrangedKids(ts, us, i + 1, true, caseSensitive, n));
      TiedStep(x, ts[i + 1..]);
    }
  }

  lemma WellKids(t: Tree)
    requires Proper(t) && Shaped(t) && Tied(t) && Distinct(ValueOf(t))
    requires t.kind.ArrayKind? || t.kind.ObjectKind?
    ensures AllWell(t.kids) && (t.kind.ObjectKind? ==> UniqueKeys(Members(t.kids, |t.kids|)))
  {
    hide Shaped, Tied, Members, Values;
    KindValue(t);
    TiedKids(t);
    assert t.kind.ObjectKind? ==> forall i :: 0 <= i < |t.kids| ==>
      Members(t.kids, |t.kids|)[i].value == ValueOf(t.kids[i]);
    forall i | 0 <= i < |t.kids| ensures Shaped(t.kids[i]) { WholeKid(t, i); }
  }

  lemma TiedKids(t: Tree)
    ensures Tied(t) <==> (t.kids != [] ==> t.back == LastNode(t.kids)) && AllTied(t.kids)
    ensures AllTied(t.kids) <==> forall i :: 0 <= i < |t.kids| ==> Tied(t.kids[i])
  {
  }

  lemma WholeKid(t: Tree, i: nat)
    requires Shaped(t) && i < |t.kids|
    ensures Shaped(t.kids[i])
  {
    KidFacts(t.kids, |t.kids|, i);
  }

  lemma WellSorted(t: Tree, caseSensitive: bool)
    requires AllWell(t.kids)
    ensures AllWell(SortList.Sorted(t.kids, caseSensitive))
  {
    hide Shaped, Tied, Distinct, ValueOf, Proper;
    SortList.SortedKeeps(t.kids, caseSensitive);
    SortList.SameRoots(SortList.Sorted(t.kids, caseSensitive), t.kids);
  }

  /** On nodes and on members the ends stay alike. */
  lemma {:induction false} EndsAlike(t: Tree, caseSensitive: bool)
    requires Shaped(t) && Proper(t) && t.kind.ObjectKind? && UniqueKeys(Members(t.kids, |t.kids|)) && t.kids != []
    ensures var s := SortList.Sorted(t.kids, caseSensitive);
      EndsSettled(Members(t.kids, |t.kids|), caseSensitive)
      <==> s[0] == t.kids[0] && s[|s| - 1].node == t.kids[|s| - 1].node
  {
    hide Proper, Shaped, Members, SortList.Sorted, Sorting.Sort, ValueOf;
    var s, n := SortList.Sorted(t.kids, caseSensitive), |t.kids|;
    ProperSorted(t, caseSensitive);
    SortList.SortedKeeps(t.kids, caseSensitive);
    SameEnd(t, s, 0);
    SameEnd(t, s, n - 1);
  }

  lemma {:induction false} SameEnd(t: Tree, s: seq<Tree>, e: nat)
    requires Shaped(t) && UniqueKeys(Members(t.kids, |t.kids|)) && multiset(s) == multiset(t.kids)
    requires e < |s| == |t.kids|
    ensures Members(s, |s|)[e] == Members(t.kids, |t.kids|)[e] <==> s[e] == t.kids[e]
    ensures s[e] == t.kids[e] <==> s[e].node == t.kids[e].node
  {
    hide Shaped, Members, ValueOf, KeyOf;
    SortList.SameRoots(s, t.kids);
    var i :| 0 <= i < |t.kids| && t.kids[i] == s[e];
    assert Members(s, |s|)[e] == Members(t.kids, |t.kids|)[i];
    if i < e { NodesApart(t, i, e); } else if e < i { NodesApart(t, e, i); }
  }

  lemma NodesApart(t: Tree, i: nat, j: nat)
    requires Shaped(t) && i < j < |t.kids|
    ensures t.kids[i].node != t.kids[j].node
  {
    KidsApart(t.kids, |t.kids|, i, j);
  }

  /** A tied tree is still tied after the comparison exactly when every sorted object keeps its ends. */
  lemma {:induction false} ArrangedTied(t: Tree, u: Tree, caseSensitive: bool)
    requires Proper(t) && Proper(u) && Shaped(t) && Tied(t) && Distinct(ValueOf(t))
    ensures Tied(Arranged(t, u, caseSensitive)) <==> Settled(ValueOf(t), ValueOf(u), caseSensitive)
    decreases Nesting(ValueOf(t)), 1, 0
  {
    hide ArrangedKids, SettledItems, SettledMembers, Values, Members, SortList.Sorted, Sorting.Sort, Proper, Shaped,
         Tied, AllTied, Distinct, EndsSettled;
    KindValue(t);
    KindValue(u);
    ProperKids(u);
    TiedKids(t);
    TiedKids(Arranged(t, u, caseSensitive));
    if t.kind.ArrayKind? && u.kind.ArrayKind? {
      WellKids(t);
      KidsNest(t, caseSensitive);
      var n := Nesting(ValueOf(t)) - 1;
      ItemsTied(t.kids, u.kids, 0, caseSensitive, n);
      KidsArranged(t.kids, u.kids, 0, false, caseSensitive, n);
      SameLast(ArrangedKids(t.kids, u.kids, 0, false, caseSensitive, n), t.kids);
    } else if t.kind.ObjectKind? && u.kind.ObjectKind? {
      WellKids(t);
      KidsNest(t, caseSensitive);
      var n := Nesting(ValueOf(t)) - 1;
      var s, us := SortedTree(t, caseSensitive), SortList.Sorted(u.kids, caseSensitive);
      ProperSorted(t, caseSensitive);
      ProperSorted(u, caseSensitive);
      WellSorted(t, caseSensitive);
      MembersTied(s.kids, us, 0, caseSensitive, n);
      KidsArranged(s.kids, us, 0, true, caseSensitive, n);
      SameLast(ArrangedKids(s.kids, us, 0, true, caseSensitive, n), s.kids);
      if t.kids != [] { EndsAlike(t, caseSensitive); } else { NoEnds(caseSensitive); }
    }
  }

  lemma NoEnds(caseSensitive: bool)
    ensures EndsSettled([], caseSensitive)
  {
  }

  lemma SameLast(r: seq<Tree>, ts: seq<Tree>)
    requires AllKept(r, ts, 0)
    ensures LastNode(r) == LastNode(ts)
  {
    if r != [] { assert Kept(r[|r| - 1 - 0], ts[|r| - 1]); }
  }

  // ----- Sorting on nodes -----

  lemma {:induction false} PermutedTrees(kids: seq<Tree>, s: seq<Tree>)
    requires multiset(kids) == multiset(s) && |kids| == |s| && AllShaped(kids, |kids|)
    requires forall i, j :: 0 <= i < j < |s| ==> s[i] != s[j]
    ensures AllShaped(s, |s|) && Among(s, |s|) == Among(kids, |kids|)
    ensures AllLinked(kids, |kids|) ==> AllLinked(s, |s|)
  {
    hide Shaped, Linked, AllShaped, AllLinked, Among, All;
    SortList.SameRoots(s, kids);
    SortList.SameRoots(kids, s);
    forall i | 0 <= i < |s|
      ensures Shaped(s[i]) && (AllLinked(kids, |kids|) ==> s[i].node.key == s[i].key && Linked(s[i]))
    {
      var k :| 0 <= k < |kids| && kids[k] == s[i];
      KidFacts(kids, |kids|, k);
      if AllLinked(kids, |kids|) { KidLinks(kids, |kids|, k); }
    }
    forall i, j | 0 <= i < j < |s| ensures All(s[i]) !! All(s[j]) { PermutedApart(kids, s, i, j); }
    ShapedAll(s, |s|);
    AmongPermuted(kids, s);
    AmongPermuted(s, kids);
    if AllLinked(kids, |kids|) { LinkedAll(s, |s|); }
  }

  lemma {:induction false} PermutedApart(kids: seq<Tree>, s: seq<Tree>, i: nat, j: nat)
    requires AllShaped(kids, |kids|) && i < j < |s| && s[i] != s[j] && s[i] in kids && s[j] in kids
    ensures All(s[i]) !! All(s[j])
  {
    hide Shaped, AllShaped, All;
    var k :| 0 <= k < |kids| && kids[k] == s[i];
    var l :| 0 <= l < |kids| && kids[l] == s[j];
    if k < l { KidsApart(kids, |kids|, k, l); } else { KidsApart(kids, |kids|, l, k); }
  }

  lemma {:induction false} AmongPermuted(kids: seq<Tree>, s: seq<Tree>)
    requires forall i :: 0 <= i < |kids| ==> kids[i] in s
    ensures Among(kids, |kids|) <= Among(s, |s|)
  {
    hide Among, All;
    var some := Among(kids, |kids|);
    forall e | e in some ensures e in Among(s, |s|) {
      var i := AmongFrom(kids, |kids|, e);
      var k :| 0 <= k < |s| && s[k] == kids[i];
      AmongAll(s, k);
    }
  }

  lemma ToldKids(t: Tree)
    requires Linked(t)
    ensures SortList.Told(t.kids)
  {
    hide Linked;
    forall i | 0 <= i < |t.kids| ensures t.kids[i].node.key == t.kids[i].key { KeyHeld(t, i); }
  }

  lemma KeyHeld(t: Tree, i: nat)
    requires Linked(t) && i < |t.kids|
    ensures t.kids[i].node.key == t.kids[i].key
  {
    KidLinks(t.kids, |t.kids|, i);
  }

  /** sort_object with the trees below the members. */
  method SortTree(parent: Node, caseSensitive: bool, ghost t: Tree) returns (ghost s: Tree)
    requires t.node == parent && Shaped(t) && Linked(t)
    modifies parent`child, Below(t)`next, Below(t)`prev
    ensures s == SortedTree(t, caseSensitive) && Shaped(s) && Linked(s) && All(s) == All(t) && Below(s) == Below(t)
  {
    hide Shaped, Linked, AllShaped, AllLinked, Among, Below, Inner, Ring, Chain, Roots, SortList.Told, SortList.Sorted,
         SortList.HeadKept, SortList.EndsStay;
    ghost var kids := t.kids;
    ghost var sorted := SortList.Sorted(kids, caseSensitive);
    Disassemble(t);
    ToldKids(t);
    RootsAmong(kids);
    RootsSplit(kids);
    ghost var inner, among, below := Footprint(kids, t);
    SortList.SortObject(parent, caseSensitive, kids);
    assert AllLinked(kids, |kids|);
    SortList.TreesApart(parent.child, sorted, kids);
    PermutedTrees(kids, sorted);
    s := SortedTree(t, caseSensitive);
    if kids != [] { SortList.HeadAfter(parent.child, kids, sorted, t.back); }
    Assemble(parent, t.key, s.back, sorted);
  }

  // ----- Walking side by side -----

  ghost predicate KidsEqual(ts: seq<Tree>, us: seq<Tree>, i: nat, keyed: bool, caseSensitive: bool)
    requires i <= |ts| && i <= |us|
    decreases |ts| - i
  {
    if i == |ts| || i == |us| then |ts| == |us|
    else
      && (keyed ==> SameKey(KeyOf(ts[i]), KeyOf(us[i]), caseSensitive))
      && CompareJson(ValueOf(ts[i]), ValueOf(us[i]), caseSensitive)
      && KidsEqual(ts, us, i + 1, keyed, caseSensitive)
  }

  lemma {:induction false} EqualItems(ts: seq<Tree>, us: seq<Tree>, i: nat, caseSensitive: bool, n: nat)
    requires i <= |ts| && i <= |us| && ItemsWithin(Values(ts, |ts|), n)
    ensures KidsEqual(ts, us, i, false, caseSensitive)
      <==> CompareItems(Values(ts, |ts|), Values(us, |us|), i, caseSensitive, n)
    decreases |ts| - i
  {
    hide CompareJson, ValueOf, Values;
    if i < |ts| && i < |us| { EqualItems(ts, us, i + 1, caseSensitive, n); }
  }

  lemma {:induction false} EqualMembers(ts: seq<Tree>, us: seq<Tree>, i: nat, caseSensitive: bool, n: nat)
    requires i <= |ts| && i <= |us| && MembersWithin(Members(ts, |ts|), n)
    ensures KidsEqual(ts, us, i, true, caseSensitive)
      <==> CompareMembers(Members(ts, |ts|), Members(us, |us|), i, caseSensitive, n)
    decreases |ts| - i
  {
    hide CompareJson, ValueOf, Members, KeyOf, SameKey;
    if i < |ts| && i < |us| { EqualMembers(ts, us, i + 1, caseSensitive, n); }
  }

  /** The list on its way to `ArrangedKids(ts, us, 0, …)`: arranged before `i`, untouched from there on. */
  ghost predicate Underway(now: seq<Tree>, ts: seq<Tree>, us: seq<Tree>, i: nat, keyed: bool, caseSensitive: bool,
                           n: nat)
    requires i <= |ts| && i <= |us| && KidsWithin(ts, n)
  {
    && |now| == |ts| && now[i..] == ts[i..]
    && now[..i] + ArrangedKids(ts, us, i, keyed, caseSensitive, n) == ArrangedKids(ts, us, 0, keyed, caseSensitive, n)
  }

  lemma {:induction false} Turn(now: seq<Tree>, ts: seq<Tree>, us: seq<Tree>, i: nat, keyed: bool, caseSensitive: bool,
                                n: nat, next: seq<Tree>)
    requires i < |ts| && i < |us| && KidsWithin(ts, n) && Underway(now, ts, us, i, keyed, caseSensitive, n)
    requires next == now[i := Arranged(ts[i], us[i], caseSensitive)]
    requires keyed ==> SameKey(KeyOf(ts[i]), KeyOf(us[i]), caseSensitive)
    ensures if CompareJson(ValueOf(ts[i]), ValueOf(us[i]), caseSensitive)
            then Underway(next, ts, us, i + 1, keyed, caseSensitive, n)
            else next == ArrangedKids(ts, us, 0, keyed, caseSensitive, n)
  {
    hide Arranged, CompareJson, ValueOf, KeyOf, SameKey;
    var x := Arranged(ts[i], us[i], caseSensitive);
    assert ts[i + 1..] == ts[i..][1..] && now[i + 1..] == now[i..][1..];
    assert next[i + 1..] == now[i + 1..] && next[..i + 1] == now[..i] + [x];
    if CompareJson(ValueOf(ts[i]), ValueOf(us[i]), caseSensitive) {
      var rest := ArrangedKids(ts, us, i + 1, keyed, caseSensitive, n);
      assert now[..i] + ([x] + rest) == next[..i + 1] + rest;
    } else {
      assert now[..i] + ([x] + ts[i + 1..]) == next;
    }
  }

  lemma {:induction false} Stop(now: seq<Tree>, ts: seq<Tree>, us: seq<Tree>, i: nat, keyed: bool, caseSensitive: bool,
                                n: nat)
    requires i <= |ts| && i <= |us| && KidsWithin(ts, n) && Underway(now, ts, us, i, keyed, caseSensitive, n)
    requires i == |ts| || i == |us| || (keyed && !SameKey(KeyOf(ts[i]), KeyOf(us[i]), caseSensitive))
    ensures now == ArrangedKids(ts, us, 0, keyed, caseSensitive, n)
  {
    assert now == now[..i] + now[i..];
  }

  lemma Start(ts: seq<Tree>, us: seq<Tree>, keyed: bool, caseSensitive: bool, n: nat)
    requires KidsWithin(ts, n)
    ensures Underway(ts, ts, us, 0, keyed, caseSensitive, n)
  {
    assert ts[..0] + ArrangedKids(ts, us, 0, keyed, caseSensitive, n)
      == ArrangedKids(ts, us, 0, keyed, caseSensitive, n);
  }

  // ----- Comparing on nodes -----

  /** compare_json: the answer is that of the values, and the objects visited are left sorted. */
  method CompareNodes(a: Node, b: Node, caseSensitive: bool, ghost t: Tree, ghost u: Tree)
    returns (r: bool, ghost t': Tree, ghost u': Tree)
    requires a == t.node && Shaped(t) && Linked(t) && Fit(t)
    requires b == u.node && Shaped(u) && Linked(u) && Proper(u) && All(t) !! All(u)
    modifies a`child, Below(t)`next, Below(t)`prev, Below(t)`child
    modifies b`child, Below(u)`next, Below(u)`prev, Below(u)`child
    ensures r == (Proper(t) && CompareJson(ValueOf(t), ValueOf(u), caseSensitive))
    ensures t' == Arranged(t, u, caseSensitive) && Shaped(t') && Linked(t') && All(t') == All(t) && t'.node == a
    ensures u' == Arranged(u, t, caseSensitive) && Shaped(u') && Linked(u') && All(u') == All(u) && u'.node == b
    decreases Nesting(ValueOf(t)), 2
  {
    hide Shaped, Linked, Below, Proper, ValueOf, CompareJson, Arranged, Nesting;
    KindOf(t);
    KindOf(u);
    if a.kind.ArrayKind? && b.kind.ArrayKind? {
      r, t', u' := CompareArrays(a, b, caseSensitive, t, u);
    } else if a.kind.ObjectKind? && b.kind.ObjectKind? {
      r, t', u' := CompareObjects(a, b, caseSensitive, t, u);
    } else {
      ScalarsCompared(t, u, caseSensitive);
      r, t', u' := a.kind == b.kind, t, u;
    }
  }

  method CompareArrays(a: Node, b: Node, caseSensitive: bool, ghost t: Tree, ghost u: Tree)
    returns (r: bool, ghost t': Tree, ghost u': Tree)
    requires a == t.node && Sound(t) && b == u.node && Sound(u) && All(t) !! All(u) && t.kind.ArrayKind?
    requires u.kind.ArrayKind?
    modifies Below(t)`next, Below(t)`prev, Below(t)`child, Below(u)`next, Below(u)`prev, Below(u)`child
    ensures r == CompareJson(ValueOf(t), ValueOf(u), caseSensitive)
    ensures t' == Arranged(t, u, caseSensitive) && Shaped(t') && Linked(t') && All(t') == All(t) && t'.node == a
    ensures u' == Arranged(u, t, caseSensitive) && Shaped(u') && Linked(u') && All(u') == All(u) && u'.node == b
    decreases Nesting(ValueOf(t)), 1
  {
    hide Shaped, Linked, Below, Proper, ValueOf, CompareJson, Arranged, ArrangedKids, KidsEqual, KidsWithin, SortedTree,
         SortList.Sorted, Nesting;
    ArrangedUnfold(t, u, caseSensitive);
    ArrangedUnfold(u, t, caseSensitive);
    ProperKids(t);
    ProperKids(u);
    ArraysCompared(t, u, caseSensitive);
    r, t', u' := ZipKids(a, b, false, caseSensitive, t, u, Nesting(ValueOf(t)) - 1, Nesting(ValueOf(u)) - 1);
  }

  method CompareObjects(a: Node, b: Node, caseSensitive: bool, ghost t: Tree, ghost u: Tree)
    returns (r: bool, ghost t': Tree, ghost u': Tree)
    requires a == t.node && Sound(t) && b == u.node && Sound(u) && All(t) !! All(u) && t.kind.ObjectKind?
    requires u.kind.ObjectKind?
    modifies a`child, Below(t)`next, Below(t)`prev, Below(t)`child
    modifies b`child, Below(u)`next, Below(u)`prev, Below(u)`child
    ensures r == CompareJson(ValueOf(t), ValueOf(u), caseSensitive)
    ensures t' == Arranged(t, u, caseSensitive) && Shaped(t') && Linked(t') && All(t') == All(t) && t'.node == a
    ensures u' == Arranged(u, t, caseSensitive) && Shaped(u') && Linked(u') && All(u') == All(u) && u'.node == b
    decreases Nesting(ValueOf(t)), 1
  {
    hide Shaped, Linked, Below, Proper, ValueOf, CompareJson, Arranged, ArrangedKids, KidsEqual, KidsWithin, SortedTree,
         SortList.Sorted, Nesting;
    ArrangedUnfold(t, u, caseSensitive);
    ArrangedUnfold(u, t, caseSensitive);
    ProperSorted(t, caseSensitive);
    ProperSorted(u, caseSensitive);
    ObjectsCompared(t, u, caseSensitive);
    ghost var s, s' := SortBoth(a, b, caseSensitive, t, u);
    SortedKids(t, caseSensitive);
    SortedKids(u, caseSensitive);
    r, t', u' := ZipKids(a, b, true, caseSensitive, s, s', Nesting(ValueOf(t)) - 1, Nesting(ValueOf(u)) - 1);
  }

  method SortBoth(a: Node, b: Node, caseSensitive: bool, ghost t: Tree, ghost u: Tree)
    returns (ghost s: Tree, ghost s': Tree)
    requires a == t.node && Shaped(t) && Linked(t) && b == u.node && Shaped(u) && Linked(u) && All(t) !! All(u)
    modifies a`child, Below(t)`next, Below(t)`prev, b`child, Below(u)`next, Below(u)`prev
    ensures s == SortedTree(t, caseSensitive) && Shaped(s) && Linked(s) && All(s) == All(t) && Below(s) == Below(t)
    ensures s' == SortedTree(u, caseSensitive) && Shaped(s') && Linked(s') && All(s') == All(u) && Below(s') == Below(u)
  {
    hide Shaped, Linked, Below, SortedTree;
    ghost var below := NodesBelow(t);
    ghost var below' := NodesBelow(u);
    s := SortTree(a, caseSensitive, t);
    assert Linked(u);
    s' := SortTree(b, caseSensitive, u);
    SortedKids(t, caseSensitive);
    assert Linked(s);
  }

  lemma SortedKids(t: Tree, caseSensitive: bool)
    ensures var s := SortedTree(t, caseSensitive);
      s.kids == SortList.Sorted(t.kids, caseSensitive) && s.node == t.node && s.kind == t.kind && s.key == t.key
  {
  }

  lemma ArrangedUnfold(t: Tree, u: Tree, caseSensitive: bool)
    ensures t.kind.ArrayKind? || t.kind.ObjectKind? ==>
      && Nesting(ValueOf(t)) > 0 && KidsWithin(t.kids, Nesting(ValueOf(t)) - 1)
      && KidsWithin(SortList.Sorted(t.kids, caseSensitive), Nesting(ValueOf(t)) - 1)
    ensures t.kind.ArrayKind? && u.kind.ArrayKind? ==>
      var n := Nesting(ValueOf(t)) - 1;
      Arranged(t, u, caseSensitive) == t.(kids := ArrangedKids(t.kids, u.kids, 0, false, caseSensitive, n))
    ensures t.kind.ObjectKind? && u.kind.ObjectKind? ==>
      var n, s, us := Nesting(ValueOf(t)) - 1, SortedTree(t, caseSensitive), SortList.Sorted(u.kids, caseSensitive);
      s.kids == SortList.Sorted(t.kids, caseSensitive)
      && Arranged(t, u, caseSensitive) == s.(kids := ArrangedKids(s.kids, us, 0, true, caseSensitive, n))
    ensures !(t.kind.ArrayKind? && u.kind.ArrayKind?) && !(t.kind.ObjectKind? && u.kind.ObjectKind?) ==>
      Arranged(t, u, caseSensitive) == t
  {
    hide ValueOf, ArrangedKids, Nesting;
    if t.kind.ArrayKind? || t.kind.ObjectKind? { KidsNest(t, caseSensitive); }
  }

  /** The comparison leaves the nodes of an object in the sorted order. */
  lemma ArrangedNodes(t: Tree, u: Tree, caseSensitive: bool)
    requires t.kind.ObjectKind? && u.kind.ObjectKind? && Proper(t) && Proper(u)
    ensures var r, s := Arranged(t, u, caseSensitive), SortedTree(t, caseSensitive);
      && r.kind.ObjectKind? && r.back == s.back && |r.kids| == |s.kids|
      && forall i :: 0 <= i < |s.kids| ==> r.kids[i].node == s.kids[i].node
  {
    hide ValueOf, ArrangedKids, Proper, Arranged, SortList.Sorted, Nesting;
    ArrangedUnfold(t, u, caseSensitive);
    ProperSorted(t, caseSensitive);
    ProperSorted(u, caseSensitive);
    var s, us, n := SortedTree(t, caseSensitive), SortList.Sorted(u.kids, caseSensitive), Nesting(ValueOf(t)) - 1;
    KidsArranged(s.kids, us, 0, true, caseSensitive, n);
    var kids := ArrangedKids(s.kids, us, 0, true, caseSensitive, n);
    forall i | 0 <= i < |s.kids| ensures kids[i].node == s.kids[i].node { assert Kept(kids[i - 0], s.kids[i]); }
  }

  lemma ScalarsCompared(t: Tree, u: Tree, caseSensitive: bool)
    requires Fit(t) && Proper(u)
    requires !(t.kind.ArrayKind? && u.kind.ArrayKind?) && !(t.kind.ObjectKind? && u.kind.ObjectKind?)
    ensures t.kind == u.kind <==> Proper(t) && CompareJson(ValueOf(t), ValueOf(u), caseSensitive)
    ensures Arranged(t, u, caseSensitive) == t && Arranged(u, t, caseSensitive) == u
  {
  }

  lemma ArraysCompared(t: Tree, u: Tree, caseSensitive: bool)
    requires t.kind.ArrayKind? && u.kind.ArrayKind?
    ensures CompareJson(ValueOf(t), ValueOf(u), caseSensitive) <==> KidsEqual(t.kids, u.kids, 0, false, caseSensitive)
  {
    hide KidsEqual, CompareItems, Values;
    KindValue(t);
    KindValue(u);
    WithinNesting(Values(t.kids, |t.kids|), []);
    EqualItems(t.kids, u.kids, 0, caseSensitive, ItemsNesting(Values(t.kids, |t.kids|)));
  }

  lemma ObjectsCompared(t: Tree, u: Tree, caseSensitive: bool)
    requires t.kind.ObjectKind? && u.kind.ObjectKind? && Proper(t) && Proper(u)
    ensures CompareJson(ValueOf(t), ValueOf(u), caseSensitive)
      <==> KidsEqual(SortList.Sorted(t.kids, caseSensitive), SortList.Sorted(u.kids, caseSensitive), 0, true,
                     caseSensitive)
  {
    hide KidsEqual, CompareMembers, Members, SortList.Sorted, Sorting.Sort, Proper;
    KindValue(t);
    KindValue(u);
    ProperSorted(t, caseSensitive);
    ProperSorted(u, caseSensitive);
    SortedWithin(Members(t.kids, |t.kids|), caseSensitive);
    EqualMembers(SortList.Sorted(t.kids, caseSensitive), SortList.Sorted(u.kids, caseSensitive), 0, caseSensitive,
                 MembersNesting(Members(t.kids, |t.kids|)));
  }

  /** The loops over the children of two arrays and, with names to compare, of two sorted objects. */
  method ZipKids(a: Node, b: Node, keyed: bool, caseSensitive: bool, ghost t: Tree, ghost u: Tree, ghost n: nat,
                 ghost m: nat)
    returns (r: bool, ghost t': Tree, ghost u': Tree)
    requires a == t.node && Shaped(t) && Linked(t) && AllProper(t.kids) && KidsWithin(t.kids, n)
    requires b == u.node && Shaped(u) && Linked(u) && AllProper(u.kids) && KidsWithin(u.kids, m)
    requires All(t) !! All(u) && (keyed ==> SortList.Keyed(t.kids) && SortList.Keyed(u.kids))
    modifies Below(t)`next, Below(t)`prev, Below(t)`child, Below(u)`next, Below(u)`prev, Below(u)`child
    ensures r == KidsEqual(t.kids, u.kids, 0, keyed, caseSensitive)
    ensures t' == t.(kids := ArrangedKids(t.kids, u.kids, 0, keyed, caseSensitive, n))
    ensures u' == u.(kids := ArrangedKids(u.kids, t.kids, 0, keyed, caseSensitive, m))
    ensures Shaped(t') && Linked(t') && All(t') == All(t) && Shaped(u') && Linked(u') && All(u') == All(u)
    decreases n + 1, 0
  {
    hide Shaped, Linked, Below, Proper, ValueOf, Arranged, CompareJson, ArrangedKids, Walking, SameKey;
    ghost var ts, us, i: nat := t.kids, u.kids, 0;
    t', u' := t, u;
    StartWalk(t, us, keyed, caseSensitive, n);
    StartWalk(u, ts, keyed, caseSensitive, m);
    KidsLinked(t);
    KidsLinked(u);
    ghost var below := NodesBelow(t);
    ghost var below' := NodesBelow(u);
    var x, y := a.child, b.child;
    while x != null && y != null
      invariant i <= |ts| && i <= |us|
      invariant x == (if i < |ts| then ts[i].node else null) && y == (if i < |us| then us[i].node else null)
      invariant Walking(t', t, us, i, keyed, caseSensitive, n) && Walking(u', u, ts, i, keyed, caseSensitive, m)
      invariant KidsEqual(ts, us, i, keyed, caseSensitive) == KidsEqual(ts, us, 0, keyed, caseSensitive)
      decreases |ts| - i
    {
      WalkingHere(t', t, us, i, keyed, caseSensitive, n);
      WalkingHere(u', u, ts, i, keyed, caseSensitive, m);
      if keyed {
        KeysDiffer(ts[i], us[i], caseSensitive);
        if !SameKey(x.key.value, y.key.value, caseSensitive) {
          StopWalk(t', t, us, i, keyed, caseSensitive, n);
          StopWalk(u', u, ts, i, keyed, caseSensitive, m);
          return false, t', u';
        }
      }
      r, t', u' := ZipTurn(x, y, keyed, caseSensitive, t, u, t', u', i, n, m);
      if !r {
        return false, t', u';
      }
      x, y := x.next, y.next;
      i := i + 1;
    }
    StopWalk(t', t, us, i, keyed, caseSensitive, n);
    StopWalk(u', u, ts, i, keyed, caseSensitive, m);
    r := x == null && y == null;
  }

  /** The tree before the pair at `i` is compared. */
  ghost predicate Walking(now: Tree, t: Tree, us: seq<Tree>, i: nat, keyed: bool, caseSensitive: bool, n: nat)
    requires i <= |t.kids| && i <= |us| && KidsWithin(t.kids, n)
    reads now.node`child, now.node`kind, Below(now)`next, Below(now)`prev, Below(now)`child, Below(now)`kind
    reads Below(now)`key
  {
    && now == t.(kids := now.kids) && Underway(now.kids, t.kids, us, i, keyed, caseSensitive, n)
    && Shaped(now) && Linked(now) && All(now) == All(t) && Below(now) == Below(t)
  }

  lemma StartWalk(t: Tree, us: seq<Tree>, keyed: bool, caseSensitive: bool, n: nat)
    requires KidsWithin(t.kids, n) && Shaped(t) && Linked(t)
    ensures Walking(t, t, us, 0, keyed, caseSensitive, n)
  {
    hide Shaped, Linked, Below, Underway;
    Start(t.kids, us, keyed, caseSensitive, n);
  }

  lemma WalkingHere(now: Tree, t: Tree, us: seq<Tree>, i: nat, keyed: bool, caseSensitive: bool, n: nat)
    requires i < |t.kids| && i < |us| && KidsWithin(t.kids, n) && Walking(now, t, us, i, keyed, caseSensitive, n)
    ensures Below(now) == Below(t) && All(now) == All(t) && t.kids[i].node.key == t.kids[i].key
  {
    hide Shaped, Linked, Below, Underway;
    Here(now.kids, t.kids, us, i, keyed, caseSensitive, n);
    KeyHeld(now, i);
  }

  lemma StopWalk(now: Tree, t: Tree, us: seq<Tree>, i: nat, keyed: bool, caseSensitive: bool, n: nat)
    requires i <= |t.kids| && i <= |us| && KidsWithin(t.kids, n) && Walking(now, t, us, i, keyed, caseSensitive, n)
    requires i == |t.kids| || i == |us| || (keyed && !SameKey(KeyOf(t.kids[i]), KeyOf(us[i]), caseSensitive))
    ensures now == t.(kids := ArrangedKids(t.kids, us, 0, keyed, caseSensitive, n))
    ensures Shaped(now) && Linked(now) && All(now) == All(t)
  {
    hide Shaped, Linked, Below, Underway;
    Stop(now.kids, t.kids, us, i, keyed, caseSensitive, n);
  }

  lemma StepWalk(now: Tree, next: Tree, t: Tree, us: seq<Tree>, i: nat, keyed: bool, caseSensitive: bool, n: nat)
    requires i < |t.kids| && i < |us| && KidsWithin(t.kids, n)
    requires keyed ==> SameKey(KeyOf(t.kids[i]), KeyOf(us[i]), caseSensitive)
    requires now == t.(kids := now.kids) && Underway(now.kids, t.kids, us, i, keyed, caseSensitive, n)
    requires |now.kids| == |t.kids| && next == now.(kids := now.kids[i := Arranged(t.kids[i], us[i], caseSensitive)])
    requires Shaped(t) && Shaped(next) && Linked(next) && All(next) == All(t)
    ensures if CompareJson(ValueOf(t.kids[i]), ValueOf(us[i]), caseSensitive)
            then Walking(next, t, us, i + 1, keyed, caseSensitive, n)
            else next == t.(kids := ArrangedKids(t.kids, us, 0, keyed, caseSensitive, n))
    ensures t.kids[i].node.next == if i + 1 < |t.kids| then t.kids[i + 1].node else null
  {
    hide Shaped, Linked, Below, Underway, Arranged, CompareJson;
    Outside(t);
    Outside(next);
    Turn(now.kids, t.kids, us, i, keyed, caseSensitive, n, next.kids);
    NextUp(next, now.kids, t.kids, us, i, keyed, caseSensitive, n);
  }

  /** One turn of the loop, the names being equal. */
  method ZipTurn(x: Node, y: Node, keyed: bool, caseSensitive: bool, ghost t: Tree, ghost u: Tree, ghost now: Tree,
                 ghost now': Tree, ghost i: nat, ghost n: nat, ghost m: nat)
    returns (r: bool, ghost next: Tree, ghost next': Tree)
    requires i < |t.kids| && i < |u.kids| && x == t.kids[i].node && y == u.kids[i].node && Shaped(t) && Shaped(u)
    requires KidsWithin(t.kids, n) && AllProper(t.kids) && Walking(now, t, u.kids, i, keyed, caseSensitive, n)
    requires KidsWithin(u.kids, m) && AllProper(u.kids) && Walking(now', u, t.kids, i, keyed, caseSensitive, m)
    requires All(t) !! All(u) && (keyed ==> SameKey(KeyOf(t.kids[i]), KeyOf(u.kids[i]), caseSensitive))
    modifies Below(t)`next, Below(t)`prev, Below(t)`child, Below(u)`next, Below(u)`prev, Below(u)`child
    ensures r == CompareJson(ValueOf(t.kids[i]), ValueOf(u.kids[i]), caseSensitive)
    ensures r ==> Walking(next, t, u.kids, i + 1, keyed, caseSensitive, n)
    ensures r ==> Walking(next', u, t.kids, i + 1, keyed, caseSensitive, m)
    ensures !r ==> next == t.(kids := ArrangedKids(t.kids, u.kids, 0, keyed, caseSensitive, n))
    ensures !r ==> next' == u.(kids := ArrangedKids(u.kids, t.kids, 0, keyed, caseSensitive, m))
    ensures Shaped(next) && Linked(next) && All(next) == All(t) && Shaped(next') && Linked(next')
    ensures All(next') == All(u)
    ensures x.next == if i + 1 < |t.kids| then t.kids[i + 1].node else null
    ensures y.next == if i + 1 < |u.kids| then u.kids[i + 1].node else null
    decreases Nesting(ValueOf(t.kids[i])), 4
  {
    hide Shaped, Linked, Below, Proper, ValueOf, Arranged, CompareJson, ArrangedKids, Underway, SameKey;
    Here(now.kids, t.kids, u.kids, i, keyed, caseSensitive, n);
    Here(now'.kids, u.kids, t.kids, i, keyed, caseSensitive, m);
    r, next, next' := CompareKid(x, y, caseSensitive, now, now', i);
    CompareSymmetric(ValueOf(t.kids[i]), ValueOf(u.kids[i]), caseSensitive);
    if keyed { SameBack(KeyOf(t.kids[i]), KeyOf(u.kids[i]), caseSensitive); }
    StepWalk(now, next, t, u.kids, i, keyed, caseSensitive, n);
    StepWalk(now', next', u, t.kids, i, keyed, caseSensitive, m);
  }

  lemma SameBack(a: bytes, b: bytes, caseSensitive: bool)
    ensures SameKey(a, b, caseSensitive) <==> SameKey(b, a, caseSensitive)
  {
  }

  lemma Here(now: seq<Tree>, ts: seq<Tree>, us: seq<Tree>, i: nat, keyed: bool, caseSensitive: bool, n: nat)
    requires i < |ts| && i < |us| && KidsWithin(ts, n) && Underway(now, ts, us, i, keyed, caseSensitive, n)
    ensures |now| == |ts| && now[i] == ts[i]
  {
    assert now[i] == now[i..][0];
  }

  /** The next node of the list has not been visited. */
  lemma NextUp(t: Tree, was: seq<Tree>, ts: seq<Tree>, us: seq<Tree>, i: nat, keyed: bool, caseSensitive: bool, n: nat)
    requires i < |ts| && i < |us| && KidsWithin(ts, n) && Underway(was, ts, us, i, keyed, caseSensitive, n)
    requires Linked(t) && t.kids == was[i := Arranged(ts[i], us[i], caseSensitive)]
    ensures ts[i].node.next == if i + 1 < |ts| then ts[i + 1].node else null
  {
    hide ArrangedKids;
    ArrangedRoot(ts[i], us[i], caseSensitive);
    Disassembled(t, i);
    if i + 1 < |ts| { assert was[i + 1] == was[i..][1] == ts[i..][1]; }
  }

  lemma Disassembled(t: Tree, i: nat)
    requires Linked(t) && i < |t.kids|
    ensures t.kids[i].node.next == if i + 1 < |t.kids| then t.kids[i + 1].node else null
  {
    assert Roots(t.kids)[i].next == NextIn(Roots(t.kids), i);
  }

  lemma KeysDiffer(t: Tree, u: Tree, caseSensitive: bool)
    requires t.key.Some? && u.key.Some?
    ensures KeyOf(t) == t.key.value && KeyOf(u) == u.key.value
    ensures SameKey(KeyOf(t), KeyOf(u), caseSensitive) <==> SameKey(KeyOf(u), KeyOf(t), caseSensitive)
  {
  }

  /** The pair of children at `i`. */
  method CompareKid(x: Node, y: Node, caseSensitive: bool, ghost t: Tree, ghost u: Tree, ghost i: nat)
    returns (r: bool, ghost t': Tree, ghost u': Tree)
    requires Shaped(t) && Linked(t) && Shaped(u) && Linked(u) && All(t) !! All(u)
    requires i < |t.kids| && x == t.kids[i].node && Proper(t.kids[i])
    requires i < |u.kids| && y == u.kids[i].node && Proper(u.kids[i])
    modifies Below(t)`next, Below(t)`prev, Below(t)`child, Below(u)`next, Below(u)`prev, Below(u)`child
    ensures r == CompareJson(ValueOf(t.kids[i]), ValueOf(u.kids[i]), caseSensitive)
    ensures t' == t.(kids := t.kids[i := Arranged(t.kids[i], u.kids[i], caseSensitive)])
    ensures u' == u.(kids := u.kids[i := Arranged(u.kids[i], t.kids[i], caseSensitive)])
    ensures Shaped(t') && Linked(t') && All(t') == All(t) && Shaped(u') && Linked(u') && All(u') == All(u)
    decreases Nesting(ValueOf(t.kids[i])), 3
  {
    hide Shaped, Linked, Below, Proper, ValueOf, Arranged, CompareJson, Graft.LinkedBut, Graft.PutTree, Graft.TreeAt,
         Graft.InTree;
    ghost var k, l := t.kids[i], u.kids[i];
    ghost var below := NodesBelow(t);
    ghost var below' := NodesBelow(u);
    Graft.OneStep(t, i, k);
    Graft.OneStep(u, i, l);
    Graft.TakeApart(t, [i]);
    Graft.TakeApart(u, [i]);
    ghost var rest := Graft.RestNodes(t, [i]);
    ghost var rest' := Graft.RestNodes(u, [i]);
    KidInside(t, i);
    KidInside(u, i);
    ghost var v, w;
    r, v, w := CompareNodes(x, y, caseSensitive, k, l);
    assert Graft.LinkedBut(t, [i]) && Graft.LinkedBut(u, [i]);
    ArrangedRoot(k, l, caseSensitive);
    ArrangedRoot(l, k, caseSensitive);
    Outside(v);
    Outside(w);
    Graft.Replant(t, [i], v);
    Graft.Replant(u, [i], w);
    Graft.OneStep(t, i, v);
    Graft.OneStep(u, i, w);
    t', u' := t.(kids := t.kids[i := v]), u.(kids := u.kids[i := w]);
  }

  lemma KidInside(t: Tree, i: nat)
    requires i < |t.kids| && Shaped(t)
    ensures All(t.kids[i]) <= Below(t) && Below(t) <= All(t) && t.node !in Below(t) && Shaped(t.kids[i])
    ensures t.kids[i].node !in Below(t.kids[i]) && Below(t.kids[i]) <= Below(t) && t.kids[i].node in Below(t)
  {
    AmongAll(t.kids, i);
    KidFacts(t.kids, |t.kids|, i);
  }

  lemma ArrangedRoot(t: Tree, u: Tree, caseSensitive: bool)
    ensures var r := Arranged(t, u, caseSensitive); r.node == t.node && r.key == t.key && r.kind == t.kind
  {
  }
}
