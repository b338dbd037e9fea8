/** Ignoring case is the same as folding case first: every operation that ignores case does to a tree what
    its case-sensitive form does to the tree with all keys in lower case. */
module Folding {
  import opened Bytes
  import opened Json
  import opened Unordered
  import opened Sorting
  import opened Compare
  import MergePatch
  import Patch

  lemma LowerText(s: cstring)
    ensures 0 !in Lower(s)
  {
    forall b | b in Lower(s) ensures b != 0 {
      var i :| 0 <= i < |s| && Lower(s)[i] == b;
      assert s[i] in s;
    }
  }

  function LowerKey(key: cstring): (r: cstring)
    ensures r == Lower(key)
  {
    LowerText(key);
    Lower(key)
  }

  /** All keys of the tree in lower case. */
  function Fold(v: Value): Value
    decreases v
  {
    match v
    case Array(items) => Array(FoldItems(items))
    case Object(members) => Object(FoldMembers(members))
    case _ => v
  }

  function FoldItems(items: seq<Value>): (r: seq<Value>)
    ensures |r| == |items| && forall i :: 0 <= i < |items| ==> r[i] == Fold(items[i])
    decreases items
  {
    seq(|items|, i requires 0 <= i < |items| => Fold(items[i]))
  }

  function FoldMembers(members: seq<Member>): (r: seq<Member>)
    ensures |r| == |members|
    ensures forall i :: 0 <= i < |members| ==> r[i] == Member(LowerKey(members[i].key), Fold(members[i].value))
    decreases members
  {
    seq(|members|, i requires 0 <= i < |members| => Member(LowerKey(members[i].key), Fold(members[i].value)))
  }

  lemma {:induction false} LowerTwice(s: bytes)
    ensures Lower(Lower(s)) == Lower(s)
  {
  }

  // ----- Nesting -----

  lemma {:induction false} FoldNesting(v: Value)
    ensures Nesting(Fold(v)) == Nesting(v)
    decreases v, 1
  {
    match v
    case Array(items) => FoldItemsNesting(items);
    case Object(members) => FoldMembersNesting(members);
    case _ =>
  }

  lemma {:induction false} FoldItemsNesting(items: seq<Value>)
    ensures ItemsNesting(FoldItems(items)) == ItemsNesting(items)
    decreases items, 0
  {
    if items != [] {
      FoldNesting(items[0]);
      FoldItemsNesting(items[1..]);
      assert FoldItems(items)[1..] == FoldItems(items[1..]);
    }
  }

  lemma {:induction false} FoldMembersNesting(members: seq<Member>)
    ensures MembersNesting(FoldMembers(members)) == MembersNesting(members)
    decreases members, 0
  {
    if members != [] {
      FoldNesting(members[0].value);
      FoldMembersNesting(members[1..]);
      assert FoldMembers(members)[1..] == FoldMembers(members[1..]);
    }
  }

  // ----- Looking up and sorting -----

  lemma {:induction false} FindKeyFold(members: seq<Member>, j: nat, name: bytes)
    requires j <= |members|
    ensures FindKey(FoldMembers(members), j, Lower(name), true) == FindKey(members, j, name, false)
    decreases |members| - j
  {
    if j < |members| { FindKeyFold(members, j + 1, name); }
  }

  lemma {:induction false} MergeSortFold(a: seq<Member>, b: seq<Member>)
    ensures FoldMembers(Merge(a, b, false)) == Merge(FoldMembers(a), FoldMembers(b), true)
    decreases |a| + |b|
  {
    if a != [] && b != [] {
      assert FoldMembers(a)[1..] == FoldMembers(a[1..]) && FoldMembers(b)[1..] == FoldMembers(b[1..]);
      if KeyLess(a[0].key, b[0].key, false) {
        MergeSortFold(a[1..], b);
        FoldCons(a[0], Merge(a[1..], b, false));
      } else {
        MergeSortFold(a, b[1..]);
        FoldCons(b[0], Merge(a, b[1..], false));
      }
    }
  }

  lemma FoldCons(m: Member, rest: seq<Member>)
    ensures FoldMembers([m] + rest) == [Member(LowerKey(m.key), Fold(m.value))] + FoldMembers(rest)
  {
  }

  lemma AscendingFold(members: seq<Member>)
    ensures StrictlyAscending(members, false) <==> StrictlyAscending(FoldMembers(members), true)
  {
    var folded := FoldMembers(members);
    forall i | 0 < i < |members|
      ensures KeyLess(members[i - 1].key, members[i].key, false) <==> KeyLess(folded[i - 1].key, folded[i].key, true)
    {
    }
  }

  lemma FoldSlices(members: seq<Member>, k: nat)
    requires k <= |members|
    ensures FoldMembers(members[..k]) == FoldMembers(members)[..k]
    ensures FoldMembers(members[k..]) == FoldMembers(members)[k..]
  {
  }

  /** Sorting without regard to case is sorting the folded members. */
  lemma {:induction false} SortFold(members: seq<Member>)
    ensures FoldMembers(Sort(members, false)) == Sort(FoldMembers(members), true)
    decreases |members|
  {
    hide StrictlyAscending, KeyLess, FoldMembers;
    var folded := FoldMembers(members);
    AscendingFold(members);
    if |members| > 1 && !StrictlyAscending(members, false) {
      var half := (|members| + 1) / 2;
      SortFold(members[..half]);
      SortFold(members[half..]);
      FoldSlices(members, half);
      MergeSortFold(Sort(members[..half], false), Sort(members[half..], false));
    }
  }

  // ----- Comparing -----

  lemma FoldWithin(items: seq<Value>, members: seq<Member>, n: nat)
    ensures ItemsWithin(FoldItems(items), n) <==> ItemsWithin(items, n)
    ensures MembersWithin(FoldMembers(members), n) <==> MembersWithin(members, n)
  {
    forall i | 0 <= i < |items| ensures Nesting(FoldItems(items)[i]) == Nesting(items[i]) { FoldNesting(items[i]); }
    forall i | 0 <= i < |members| ensures Nesting(FoldMembers(members)[i].value) == Nesting(members[i].value) {
      FoldNesting(members[i].value);
    }
  }

  lemma {:induction false} CompareItemsFold(xs: seq<Value>, ys: seq<Value>, i: nat, n: nat)
    requires i <= |xs| && i <= |ys| && ItemsWithin(xs, n) && ItemsWithin(FoldItems(xs), n)
    ensures CompareItems(xs, ys, i, false, n) == CompareItems(FoldItems(xs), FoldItems(ys), i, true, n)
    decreases n + 1, 0, |xs| - i
  {
    if i < |xs| && i < |ys| {
      CompareFold(xs[i], ys[i]);
      CompareItemsFold(xs, ys, i + 1, n);
    }
  }

  lemma {:induction false} CompareMembersFold(xs: seq<Member>, ys: seq<Member>, i: nat, n: nat)
    requires i <= |xs| && i <= |ys| && MembersWithin(xs, n) && MembersWithin(FoldMembers(xs), n)
    ensures CompareMembers(xs, ys, i, false, n) == CompareMembers(FoldMembers(xs), FoldMembers(ys), i, true, n)
    decreases n + 1, 0, |xs| - i
  {
    if i < |xs| && i < |ys| {
      CompareFold(xs[i].value, ys[i].value);
      CompareMembersFold(xs, ys, i + 1, n);
    }
  }

  /** The sort-and-walk comparison without regard to case is the comparison of the folded trees. */
  lemma {:induction false} CompareFold(a: Value, b: Value)
    ensures CompareJson(a, b, false) == CompareJson(Fold(a), Fold(b), true)
    decreases Nesting(a), 1, 0
  {
    hide CompareItems, CompareMembers, Sort;
    FoldNesting(a);
    match (a, b)
    case (Array(xs), Array(ys)) =>
      WithinNesting(xs, []);
      FoldWithin(xs, [], ItemsNesting(xs));
      FoldItemsNesting(xs);
      CompareItemsFold(xs, ys, 0, ItemsNesting(xs));
    case (Object(xs), Object(ys)) =>
      SortedWithin(xs, false);
      SortFold(xs);
      SortFold(ys);
      FoldMembersNesting(xs);
      FoldWithin([], Sort(xs, false), MembersNesting(xs));
      SameLengths(xs, ys);
      CompareMembersFold(Sort(xs, false), Sort(ys, false), 0, MembersNesting(xs));
    case _ =>
  }

  lemma SameLengths(xs: seq<Member>, ys: seq<Member>)
    ensures |Sort(xs, false)| == |xs| && |Sort(ys, false)| == |ys|
  {
    SortCorrect(xs, false);
    SortCorrect(ys, false);
    assert |multiset(Sort(xs, false))| == |multiset(xs)| && |multiset(Sort(ys, false))| == |multiset(ys)|;
  }

  /** So it answers whether the folded trees denote the same, if no sibling names differ in case only. */
  lemma CompareFoldExact(a: Value, b: Value)
    requires Distinct(Fold(a)) && Distinct(Fold(b))
    ensures CompareJson(a, b, false) <==> Denote(Fold(a)) == Denote(Fold(b))
  {
    CompareFold(a, b);
    CompareJsonExact(Fold(a), Fold(b));
  }

  lemma {:induction false} LookupItemsFold(xs: seq<Value>, ys: seq<Value>, i: nat, n: nat, m: nat)
    requires i <= |xs| && i <= |ys| && ItemsWithin(xs, n) && ItemsWithin(ys, m)
    requires ItemsWithin(FoldItems(xs), n) && ItemsWithin(FoldItems(ys), m)
    ensures LookupItems(xs, ys, i, false, n, m) == LookupItems(FoldItems(xs), FoldItems(ys), i, true, n, m)
    decreases n + m + 1, 0, |xs| - i
  {
    if i < |xs| && i < |ys| {
      LookupFold(xs[i], ys[i]);
      LookupItemsFold(xs, ys, i + 1, n, m);
    }
  }

  lemma {:induction false} LookupMembersFold(xs: seq<Member>, ys: seq<Member>, i: nat, n: nat, m: nat)
    requires i <= |xs| && MembersWithin(xs, n) && MembersWithin(ys, m)
    requires MembersWithin(FoldMembers(xs), n) && MembersWithin(FoldMembers(ys), m)
    ensures LookupMembers(xs, ys, i, false, n, m) == LookupMembers(FoldMembers(xs), FoldMembers(ys), i, true, n, m)
    decreases n + m + 1, 0, |xs| - i
  {
    if i < |xs| {
      FindKeyFold(ys, 0, xs[i].key);
      var found := FindKey(ys, 0, xs[i].key, false);
      if found.Some? { LookupFold(xs[i].value, ys[found.value].value); }
      LookupMembersFold(xs, ys, i + 1, n, m);
    }
  }

  /** And so for the two-way lookup comparison. */
  lemma {:induction false} LookupFold(a: Value, b: Value)
    ensures LookupCompare(a, b, false) == LookupCompare(Fold(a), Fold(b), true)
    decreases Nesting(a) + Nesting(b), 1, 0
  {
    hide LookupItems, LookupMembers;
    FoldNesting(a);
    FoldNesting(b);
    match (a, b)
    case (Array(xs), Array(ys)) =>
      WithinNesting(xs, []);
      WithinNesting(ys, []);
      FoldWithin(xs, [], ItemsNesting(xs));
      FoldWithin(ys, [], ItemsNesting(ys));
      FoldItemsNesting(xs);
      FoldItemsNesting(ys);
      LookupItemsFold(xs, ys, 0, ItemsNesting(xs), ItemsNesting(ys));
    case (Object(xs), Object(ys)) =>
      WithinNesting([], xs);
      WithinNesting([], ys);
      FoldWithin([], xs, MembersNesting(xs));
      FoldWithin([], ys, MembersNesting(ys));
      FoldMembersNesting(xs);
      FoldMembersNesting(ys);
      LookupMembersFold(xs, ys, 0, MembersNesting(xs), MembersNesting(ys));
      LookupMembersFold(ys, xs, 0, MembersNesting(ys), MembersNesting(xs));
    case _ =>
  }

  lemma LookupFoldExact(a: Value, b: Value)
    requires Distinct(Fold(a)) && Distinct(Fold(b))
    ensures LookupCompare(a, b, false) <==> Denote(Fold(a)) == Denote(Fold(b))
  {
    LookupFold(a, b);
    LookupCompareExact(Fold(a), Fold(b));
  }

  // ----- What a comparison leaves -----

  lemma {:induction false} ItemsCons(x: Value, rest: seq<Value>)
    ensures FoldItems([x] + rest) == [Fold(x)] + FoldItems(rest)
  {
    hide Fold, FoldItems;
    var all, tail := FoldItems([x] + rest), FoldItems(rest);
    forall i | 0 <= i < |rest| ensures all[i + 1] == tail[i] { assert ([x] + rest)[i + 1] == rest[i]; }
  }

  lemma {:induction false} ItemsFrom(items: seq<Value>, k: nat)
    requires k <= |items|
    ensures FoldItems(items[k..]) == FoldItems(items)[k..]
  {
    hide Fold;
  }

  lemma {:induction false} ArrangeItemsFold(xs: seq<Value>, ys: seq<Value>, i: nat, n: nat)
    requires i <= |xs| && i <= |ys| && ItemsWithin(xs, n) && ItemsWithin(FoldItems(xs), n)
    ensures FoldItems(ArrangeItems(xs, ys, i, false, n)) == ArrangeItems(FoldItems(xs), FoldItems(ys), i, true, n)
    decreases n + 1, 0, |xs| - i
  {
    hide CompareJson, Arrange, Fold, FoldItems;
    ItemsFrom(xs, i);
    if i < |xs| && i < |ys| {
      var x := Arrange(xs[i], ys[i], false);
      ItemsFrom(xs, i + 1);
      CompareFold(xs[i], ys[i]);
      ArrangeFold(xs[i], ys[i]);
      if CompareJson(xs[i], ys[i], false) {
        ArrangeItemsFold(xs, ys, i + 1, n);
        ItemsCons(x, ArrangeItems(xs, ys, i + 1, false, n));
      } else {
        ItemsCons(x, xs[i + 1..]);
      }
    }
  }

  lemma {:induction false} ArrangeMembersFold(xs: seq<Member>, ys: seq<Member>, i: nat, n: nat)
    requires i <= |xs| && i <= |ys| && MembersWithin(xs, n) && MembersWithin(FoldMembers(xs), n)
    ensures FoldMembers(ArrangeMembers(xs, ys, i, false, n))
      == ArrangeMembers(FoldMembers(xs), FoldMembers(ys), i, true, n)
    decreases n + 1, 0, |xs| - i
  {
    hide CompareJson, Arrange;
    FoldSlices(xs, i);
    if i < |xs| && i < |ys| && SameKey(xs[i].key, ys[i].key, false) {
      var x := Member(xs[i].key, Arrange(xs[i].value, ys[i].value, false));
      FoldSlices(xs, i + 1);
      CompareFold(xs[i].value, ys[i].value);
      ArrangeFold(xs[i].value, ys[i].value);
      if CompareJson(xs[i].value, ys[i].value, false) {
        ArrangeMembersFold(xs, ys, i + 1, n);
        FoldCons(x, ArrangeMembers(xs, ys, i + 1, false, n));
      } else {
        FoldCons(x, xs[i + 1..]);
      }
    }
  }

  lemma {:induction false} ArrangeFold(a: Value, b: Value)
    ensures Fold(Arrange(a, b, false)) == Arrange(Fold(a), Fold(b), true)
    decreases Nesting(a), 1, 0
  {
    hide ArrangeItems, ArrangeMembers, Sort;
    FoldNesting(a);
    match (a, b)
    case (Array(xs), Array(ys)) =>
      WithinNesting(xs, []);
      FoldWithin(xs, [], ItemsNesting(xs));
      FoldItemsNesting(xs);
      ArrangeItemsFold(xs, ys, 0, ItemsNesting(xs));
    case (Object(xs), Object(ys)) =>
      SortedWithin(xs, false);
      SortFold(xs);
      SortFold(ys);
      FoldMembersNesting(xs);
      FoldWithin([], Sort(xs, false), MembersNesting(xs));
      SameLengths(xs, ys);
      ArrangeMembersFold(Sort(xs, false), Sort(ys, false), 0, MembersNesting(xs));
    case _ =>
  }

  // ----- Merge patches -----

  lemma FoldAppend(members: seq<Member>, m: Member)
    ensures FoldMembers(members + [m]) == FoldMembers(members) + [Member(LowerKey(m.key), Fold(m.value))]
  {
  }

  function FoldOption(v: Option<Value>): Option<Value> { if v.Some? then Some(Fold(v.value)) else None }

  lemma FoldRemove(members: seq<Member>, j: nat)
    requires j < |members|
    ensures FoldMembers(RemoveAt(members, j)) == RemoveAt(FoldMembers(members), j)
  {
  }

  lemma DeleteFold(members: seq<Member>, name: bytes)
    ensures FoldMembers(Patch.DeleteKey(members, name, false))
      == Patch.DeleteKey(FoldMembers(members), Lower(name), true)
  {
    FindKeyFold(members, 0, name);
    var found := FindKey(members, 0, name, false);
    if found.Some? { FoldRemove(members, found.value); }
  }

  /** Merging without regard to case is merging the folded trees. */
  lemma {:induction false} MergeFold(target: Option<Value>, patch: Value)
    ensures Fold(MergePatch.Merge(target, patch, false)) == MergePatch.Merge(FoldOption(target), Fold(patch), true)
    decreases patch, 1
  {
    hide MergePatch.MergeFrom;
    if patch.Object? {
      MergeFromFold(MergePatch.MembersIn(target), patch.members, 0);
      assert FoldMembers([]) == [];
    }
  }

  lemma {:induction false} MergeFromFold(members: seq<Member>, patch: seq<Member>, i: nat)
    requires i <= |patch|
    ensures FoldMembers(MergePatch.MergeFrom(members, patch, i, false))
      == MergePatch.MergeFrom(FoldMembers(members), FoldMembers(patch), i, true)
    decreases patch, 0, |patch| - i
  {
    hide Patch.DeleteKey, MergePatch.Merge;
    if i < |patch| {
      var m := patch[i];
      DeleteFold(members, m.key);
      FindKeyFold(members, 0, m.key);
      var rest := Patch.DeleteKey(members, m.key, false);
      if m.value.Null? {
        MergeFromFold(rest, patch, i + 1);
      } else {
        var found := MergePatch.Lookup(members, m.key, false);
        MergeFold(found, m.value);
        var more := rest + [Member(m.key, MergePatch.Merge(found, m.value, false))];
        FoldAppend(rest, more[|rest|]);
        MergeFromFold(more, patch, i + 1);
      }
    }
  }
}
