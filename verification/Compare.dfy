/** The two comparisons: compare_json sorts both objects and walks them side by side,
    cJSON_Compare looks every member up in the other object, both ways round. */
module Compare {
  import opened Bytes
  import opened Json
  import opened Sorting
  import opened Unordered

  // ----- Nesting as a measure -----

  lemma {:induction false} ItemNesting(items: seq<Value>, i: nat)
    requires i < |items|
    ensures Nesting(items[i]) <= ItemsNesting(items)
    decreases |items|
  {
    if i > 0 { ItemNesting(items[1..], i - 1); }
  }

  lemma {:induction false} MemberNesting(members: seq<Member>, i: nat)
    requires i < |members|
    ensures Nesting(members[i].value) <= MembersNesting(members)
    decreases |members|
  {
    if i > 0 { MemberNesting(members[1..], i - 1); }
  }

  predicate ItemsWithin(items: seq<Value>, n: nat) {
    forall i :: 0 <= i < |items| ==> Nesting(items[i]) <= n
  }

  predicate MembersWithin(members: seq<Member>, n: nat) {
    forall i :: 0 <= i < |members| ==> Nesting(members[i].value) <= n
  }

  lemma WithinNesting(items: seq<Value>, members: seq<Member>)
    ensures ItemsWithin(items, ItemsNesting(items))
    ensures MembersWithin(members, MembersNesting(members))
  {
    forall i | 0 <= i < |items| ensures Nesting(items[i]) <= ItemsNesting(items) { ItemNesting(items, i); }
    forall i | 0 <= i < |members| ensures Nesting(members[i].value) <= MembersNesting(members) {
      MemberNesting(members, i);
    }
  }

  lemma SortedWithin(members: seq<Member>, caseSensitive: bool)
    ensures MembersWithin(Sort(members, caseSensitive), MembersNesting(members))
  {
    WithinNesting([], members);
    SortCorrect(members, caseSensitive);
    var sorted := Sort(members, caseSensitive);
    forall i | 0 <= i < |sorted| ensures Nesting(sorted[i].value) <= MembersNesting(members) {
      assert sorted[i] in multiset(members);
      var j :| 0 <= j < |members| && members[j] == sorted[i];
    }
  }

  // ----- compare_json -----

  function CompareJson(a: Value, b: Value, caseSensitive: bool): bool
    decreases Nesting(a), 1, 0
  {
    match (a, b)
    case (Null, Null) => true
    case (Bool(x), Bool(y)) => x == y
    case (Number(x), Number(y)) => x == y
    case (String(x), String(y)) => x == y
    case (Array(xs), Array(ys)) =>
      WithinNesting(xs, []);
      CompareItems(xs, ys, 0, caseSensitive, ItemsNesting(xs))
    case (Object(xs), Object(ys)) =>
      SortedWithin(xs, caseSensitive);
      CompareMembers(Sort(xs, caseSensitive), Sort(ys, caseSensitive), 0, caseSensitive, MembersNesting(xs))
    case _ => false
  }

  function CompareItems(xs: seq<Value>, ys: seq<Value>, i: nat, caseSensitive: bool, ghost n: nat): bool
    requires i <= |xs| && i <= |ys| && ItemsWithin(xs, n)
    decreases n + 1, 0, |xs| - i
  {
    if i == |xs| || i == |ys| then |xs| == |ys|
    else CompareJson(xs[i], ys[i], caseSensitive) && CompareItems(xs, ys, i + 1, caseSensitive, n)
  }

  /** The side-by-side walk over two sorted member lists. */
  function CompareMembers(xs: seq<Member>, ys: seq<Member>, i: nat, caseSensitive: bool, ghost n: nat): bool
    requires i <= |xs| && i <= |ys| && MembersWithin(xs, n)
    decreases n + 1, 0, |xs| - i
  {
    if i == |xs| || i == |ys| then |xs| == |ys|
    else
      SameKey(xs[i].key, ys[i].key, caseSensitive)
      && CompareJson(xs[i].value, ys[i].value, caseSensitive)
      && CompareMembers(xs, ys, i + 1, caseSensitive, n)
  }

  // ----- cJSON_Compare -----

  function LookupCompare(a: Value, b: Value, caseSensitive: bool): bool
    decreases Nesting(a) + Nesting(b), 1, 0
  {
    match (a, b)
    case (Null, Null) => true
    case (Bool(x), Bool(y)) => x == y
    case (Number(x), Number(y)) => x == y
    case (String(x), String(y)) => x == y
    case (Array(xs), Array(ys)) =>
      WithinNesting(xs, []);
      WithinNesting(ys, []);
      LookupItems(xs, ys, 0, caseSensitive, ItemsNesting(xs), ItemsNesting(ys))
    case (Object(xs), Object(ys)) =>
      WithinNesting([], xs);
      WithinNesting([], ys);
      LookupMembers(xs, ys, 0, caseSensitive, MembersNesting(xs), MembersNesting(ys))
      && LookupMembers(ys, xs, 0, caseSensitive, MembersNesting(ys), MembersNesting(xs))
    case _ => false
  }

  function LookupItems(xs: seq<Value>, ys: seq<Value>, i: nat, caseSensitive: bool, ghost n: nat, ghost m: nat): bool
    requires i <= |xs| && i <= |ys| && ItemsWithin(xs, n) && ItemsWithin(ys, m)
    decreases n + m + 1, 0, |xs| - i
  {
    if i == |xs| || i == |ys| then |xs| == |ys|
    else LookupCompare(xs[i], ys[i], caseSensitive) && LookupItems(xs, ys, i + 1, caseSensitive, n, m)
  }

  /** Every member of `xs` from `i` on has an equal partner in `ys`. */
  function LookupMembers(xs: seq<Member>, ys: seq<Member>, i: nat, caseSensitive: bool, ghost n: nat,
                         ghost m: nat): bool
    requires i <= |xs| && MembersWithin(xs, n) && MembersWithin(ys, m)
    decreases n + m + 1, 0, |xs| - i
  {
    if i == |xs| then true
    else
      match FindKey(ys, 0, xs[i].key, caseSensitive)
      case None => false
      case Some(j) =>
        LookupCompare(xs[i].value, ys[j].value, caseSensitive) && LookupMembers(xs, ys, i + 1, caseSensitive, n, m)
  }

  // ----- Both are equality of what the trees denote -----

  ghost predicate SameItems(xs: seq<Value>, ys: seq<Value>, i: nat) {
    |xs| == |ys| && forall k :: i <= k < |xs| ==> Denote(xs[k]) == Denote(ys[k])
  }

  ghost predicate SameMembers(xs: seq<Member>, ys: seq<Member>, i: nat) {
    |xs| == |ys| && forall k :: i <= k < |xs| ==> xs[k].key == ys[k].key && Denote(xs[k].value) == Denote(ys[k].value)
  }

  lemma {:induction false} ZippedDenote(xs: seq<Member>, ys: seq<Member>, i: nat)
    requires i <= |xs| && SameMembers(xs, ys, i)
    ensures DenoteFrom(xs, i) == DenoteFrom(ys, i)
    decreases |xs| - i
  {
    if i < |xs| { ZippedDenote(xs, ys, i + 1); }
  }

  lemma InLater(xs: seq<Member>, i: nat, name: bytes) returns (k: nat)
    requires i <= |xs| && name in DenoteFrom(xs, i)
    ensures i <= k < |xs| && xs[k].key == name
  {
    DenoteLookup(xs, i, name);
    k := FindKey(xs, i, name, true).value;
  }

  /** Two strictly ascending lists with the same meaning start with the same member. */
  lemma SameHead(xs: seq<Member>, ys: seq<Member>, i: nat)
    requires KeysAscend(xs) && KeysAscend(ys) && i < |xs| && i < |ys| && DenoteFrom(xs, i) == DenoteFrom(ys, i)
    ensures xs[i].key == ys[i].key && Denote(xs[i].value) == Denote(ys[i].value)
    ensures DenoteFrom(xs, i + 1) == DenoteFrom(ys, i + 1)
  {
    var k, l := xs[i].key, ys[i].key;
    assert k in DenoteFrom(ys, i) && l in DenoteFrom(xs, i);
    var y := InLater(ys, i, k);
    var x := InLater(xs, i, l);
    if k != l {
      assert Less(l, k) && Less(k, l);
      LessTransitive(k, l, k);
      LessIrreflexive(k);
    }
    HeadNotLater(xs, i);
    HeadNotLater(ys, i);
    assert DenoteFrom(xs, i + 1) == DenoteFrom(xs, i) - {k};
    assert DenoteFrom(ys, i + 1) == DenoteFrom(ys, i) - {k};
  }

  lemma HeadNotLater(xs: seq<Member>, i: nat)
    requires KeysAscend(xs) && i < |xs|
    ensures xs[i].key !in DenoteFrom(xs, i + 1)
  {
    if xs[i].key in DenoteFrom(xs, i + 1) {
      var k := InLater(xs, i + 1, xs[i].key);
      LessIrreflexive(xs[i].key);
      assert false;
    }
  }

  lemma {:induction false} DenoteZipped(xs: seq<Member>, ys: seq<Member>, i: nat)
    requires KeysAscend(xs) && KeysAscend(ys) && i <= |xs| && i <= |ys| && DenoteFrom(xs, i) == DenoteFrom(ys, i)
    ensures SameMembers(xs, ys, i)
    decreases |xs| - i
  {
    assert i < |xs| ==> xs[i].key in DenoteFrom(xs, i);
    assert i < |ys| ==> ys[i].key in DenoteFrom(ys, i);
    if i < |xs| && i < |ys| {
      SameHead(xs, ys, i);
      DenoteZipped(xs, ys, i + 1);
    }
  }

  lemma {:induction false} CompareItemsExact(xs: seq<Value>, ys: seq<Value>, i: nat, n: nat)
    requires i <= |xs| && i <= |ys| && ItemsWithin(xs, n) && Distinct(Array(xs)) && Distinct(Array(ys))
    ensures CompareItems(xs, ys, i, true, n) <==> SameItems(xs, ys, i)
    decreases n + 1, 0, |xs| - i
  {
    if i < |xs| && i < |ys| {
      CompareJsonExact(xs[i], ys[i]);
      CompareItemsExact(xs, ys, i + 1, n);
    }
  }

  predicate AllDistinct(members: seq<Member>) {
    forall i :: 0 <= i < |members| ==> Distinct(members[i].value)
  }

  lemma {:induction false} CompareMembersExact(xs: seq<Member>, ys: seq<Member>, i: nat, n: nat)
    requires i <= |xs| && i <= |ys| && MembersWithin(xs, n) && AllDistinct(xs) && AllDistinct(ys)
    ensures CompareMembers(xs, ys, i, true, n) <==> SameMembers(xs, ys, i)
    decreases n + 1, 0, |xs| - i
  {
    if i < |xs| && i < |ys| {
      CompareJsonExact(xs[i].value, ys[i].value);
      CompareMembersExact(xs, ys, i + 1, n);
    }
  }

  /** On trees with distinct sibling keys the case-sensitive sort-and-walk comparison answers
      exactly whether the two denote the same data. */
  lemma {:induction false} CompareJsonExact(a: Value, b: Value)
    requires Distinct(a) && Distinct(b)
    ensures CompareJson(a, b, true) <==> Denote(a) == Denote(b)
    decreases Nesting(a), 1, 0
  {
    match (a, b)
    case (Array(xs), Array(ys)) =>
      WithinNesting(xs, []);
      CompareItemsExact(xs, ys, 0, ItemsNesting(xs));
      assert SameItems(xs, ys, 0) <==> DenoteItems(xs) == DenoteItems(ys);
    case (Object(xs), Object(ys)) =>
      SortedWithin(xs, true);
      SortUnique(xs);
      SortUnique(ys);
      var xs', ys' := Sort(xs, true), Sort(ys, true);
      CompareMembersExact(xs', ys', 0, MembersNesting(xs));
      if DenoteMembers(xs) == DenoteMembers(ys) { DenoteZipped(xs', ys', 0); }
      if SameMembers(xs', ys', 0) { ZippedDenote(xs', ys', 0); }
    case _ =>
  }

  lemma {:induction false} LookupItemsExact(xs: seq<Value>, ys: seq<Value>, i: nat, n: nat, m: nat)
    requires i <= |xs| && i <= |ys| && ItemsWithin(xs, n) && ItemsWithin(ys, m)
    requires Distinct(Array(xs)) && Distinct(Array(ys))
    ensures LookupItems(xs, ys, i, true, n, m) <==> SameItems(xs, ys, i)
    decreases n + m + 1, 0, |xs| - i
  {
    if i < |xs| && i < |ys| {
      LookupCompareExact(xs[i], ys[i]);
      LookupItemsExact(xs, ys, i + 1, n, m);
    }
  }

  /** Every member of `xs` from `i` on is a member of the map. */
  ghost predicate Agrees(xs: seq<Member>, i: nat, data: map<bytes, Data>) {
    forall k :: i <= k < |xs| ==> xs[k].key in data && data[xs[k].key] == Denote(xs[k].value)
  }

  lemma {:induction false} LookupMembersExact(xs: seq<Member>, ys: seq<Member>, i: nat, n: nat, m: nat)
    requires i <= |xs| && MembersWithin(xs, n) && MembersWithin(ys, m) && AllDistinct(xs) && AllDistinct(ys)
    ensures LookupMembers(xs, ys, i, true, n, m) <==> Agrees(xs, i, DenoteMembers(ys))
    decreases n + m + 1, 0, |xs| - i
  {
    if i < |xs| {
      DenoteLookup(ys, 0, xs[i].key);
      var found := FindKey(ys, 0, xs[i].key, true);
      if found.Some? {
        LookupCompareExact(xs[i].value, ys[found.value].value);
        LookupMembersExact(xs, ys, i + 1, n, m);
      }
    }
  }

  lemma MutualAgreement(xs: seq<Member>, ys: seq<Member>)
    requires UniqueKeys(xs) && UniqueKeys(ys)
    ensures DenoteMembers(xs) == DenoteMembers(ys)
      <==> Agrees(xs, 0, DenoteMembers(ys)) && Agrees(ys, 0, DenoteMembers(xs))
  {
    if DenoteMembers(xs) == DenoteMembers(ys) {
      forall k | 0 <= k < |xs|
        ensures xs[k].key in DenoteMembers(ys) && DenoteMembers(ys)[xs[k].key] == Denote(xs[k].value)
      {
        DenoteAt(xs, k);
      }
      forall k | 0 <= k < |ys|
        ensures ys[k].key in DenoteMembers(xs) && DenoteMembers(xs)[ys[k].key] == Denote(ys[k].value)
      {
        DenoteAt(ys, k);
      }
    }
    if Agrees(xs, 0, DenoteMembers(ys)) && Agrees(ys, 0, DenoteMembers(xs)) {
      forall name | name in DenoteMembers(ys) ensures exists k :: 0 <= k < |xs| && xs[k].key == name {
        var y := MemberNamed(ys, name);
        assert ys[y].key in DenoteMembers(xs);
        var x := MemberNamed(xs, name);
      }
      DenoteIs(xs, DenoteMembers(ys));
    }
  }

  /** On trees with distinct sibling keys the case-sensitive two-way lookup comparison answers
      exactly the same question. */
  lemma {:induction false} LookupCompareExact(a: Value, b: Value)
    requires Distinct(a) && Distinct(b)
    ensures LookupCompare(a, b, true) <==> Denote(a) == Denote(b)
    decreases Nesting(a) + Nesting(b), 1, 0
  {
    match (a, b)
    case (Array(xs), Array(ys)) =>
      WithinNesting(xs, []);
      WithinNesting(ys, []);
      LookupItemsExact(xs, ys, 0, ItemsNesting(xs), ItemsNesting(ys));
      assert SameItems(xs, ys, 0) <==> DenoteItems(xs) == DenoteItems(ys);
    case (Object(xs), Object(ys)) =>
      WithinNesting([], xs);
      WithinNesting([], ys);
      LookupMembersExact(xs, ys, 0, MembersNesting(xs), MembersNesting(ys));
      LookupMembersExact(ys, xs, 0, MembersNesting(ys), MembersNesting(xs));
      MutualAgreement(xs, ys);
    case _ =>
  }

  lemma ComparisonsAgree(a: Value, b: Value)
    requires Distinct(a) && Distinct(b)
    ensures CompareJson(a, b, true) == LookupCompare(a, b, true) == (Denote(a) == Denote(b))
  {
    CompareJsonExact(a, b);
    LookupCompareExact(a, b);
  }

  /** Without distinct keys they part: looking up finds only the first of two members, so
      {"a":0,"a":0} and {"a":0} agree both ways and only the walk sees the extra member. */
  lemma ComparisonsPartOnRepeatedKeys()
    ensures var a := Object([Member([97], Number(0)), Member([97], Number(0))]);
      var b := Object([Member([97], Number(0))]);
      LookupCompare(a, b, true) && !CompareJson(a, b, true)
  {
    var x := Member([97], Number(0));
    var xs, ys := [x, x], [x];
    WithinNesting([], xs);
    WithinNesting([], ys);
    var n, m := MembersNesting(xs), MembersNesting(ys);
    assert FindKey(xs, 0, [97], true) == Some(0) && FindKey(ys, 0, [97], true) == Some(0);
    assert LookupMembers(xs, ys, 2, true, n, m) && LookupMembers(ys, xs, 1, true, m, n);
    assert LookupMembers(xs, ys, 1, true, n, m) && LookupMembers(ys, xs, 0, true, m, n);
    assert LookupMembers(xs, ys, 0, true, n, m);
    SortCorrect(xs, true);
    assert |Sort(xs, true)| == |multiset(Sort(xs, true))| == 2;
    SortedWithin(xs, true);
    assert Sort(ys, true) == ys;
    ShorterDiffers(Sort(xs, true), ys, MembersNesting(xs));
  }

  lemma ShorterDiffers(xs: seq<Member>, ys: seq<Member>, n: nat)
    requires |xs| == 2 && |ys| == 1 && MembersWithin(xs, n)
    ensures !CompareMembers(xs, ys, 0, true, n)
  {
    assert !CompareMembers(xs, ys, 1, true, n);
  }

  // ----- compare_json does not care which comes first -----

  lemma {:induction false} ItemsSymmetric(xs: seq<Value>, ys: seq<Value>, i: nat, caseSensitive: bool, n: nat, m: nat)
    requires i <= |xs| && i <= |ys| && ItemsWithin(xs, n) && ItemsWithin(ys, m)
    ensures CompareItems(xs, ys, i, caseSensitive, n) == CompareItems(ys, xs, i, caseSensitive, m)
    decreases n + 1, 0, |xs| - i
  {
    hide CompareJson;
    if i < |xs| && i < |ys| {
      CompareSymmetric(xs[i], ys[i], caseSensitive);
      ItemsSymmetric(xs, ys, i + 1, caseSensitive, n, m);
    }
  }

  lemma {:induction false} MembersSymmetric(xs: seq<Member>, ys: seq<Member>, i: nat, caseSensitive: bool, n: nat,
                                            m: nat)
    requires i <= |xs| && i <= |ys| && MembersWithin(xs, n) && MembersWithin(ys, m)
    ensures CompareMembers(xs, ys, i, caseSensitive, n) == CompareMembers(ys, xs, i, caseSensitive, m)
    decreases n + 1, 0, |xs| - i
  {
    hide CompareJson;
    if i < |xs| && i < |ys| {
      CompareSymmetric(xs[i].value, ys[i].value, caseSensitive);
      MembersSymmetric(xs, ys, i + 1, caseSensitive, n, m);
    }
  }

  lemma {:induction false} CompareSymmetric(a: Value, b: Value, caseSensitive: bool)
    ensures CompareJson(a, b, caseSensitive) == CompareJson(b, a, caseSensitive)
    decreases Nesting(a), 1, 0
  {
    hide CompareItems, CompareMembers, Sort;
    match (a, b)
    case (Array(xs), Array(ys)) =>
      WithinNesting(xs, []);
      WithinNesting(ys, []);
      ItemsSymmetric(xs, ys, 0, caseSensitive, ItemsNesting(xs), ItemsNesting(ys));
    case (Object(xs), Object(ys)) =>
      SortedWithin(xs, caseSensitive);
      SortedWithin(ys, caseSensitive);
      MembersSymmetric(Sort(xs, caseSensitive), Sort(ys, caseSensitive), 0, caseSensitive, MembersNesting(xs),
                       MembersNesting(ys));
    case _ =>
  }

  // ----- What compare_json leaves behind -----

  /** `a` after it has been compared with `b`: the objects visited are sorted, up to the first
      difference. What is left of `b` is `Arrange(b, a, caseSensitive)`. */
  function Arrange(a: Value, b: Value, caseSensitive: bool): Value
    decreases Nesting(a), 1, 0
  {
    match (a, b)
    case (Array(xs), Array(ys)) =>
      WithinNesting(xs, []);
      Array(ArrangeItems(xs, ys, 0, caseSensitive, ItemsNesting(xs)))
    case (Object(xs), Object(ys)) =>
      SortedWithin(xs, caseSensitive);
      Object(ArrangeMembers(Sort(xs, caseSensitive), Sort(ys, caseSensitive), 0, caseSensitive, MembersNesting(xs)))
    case _ => a
  }

  /** The elements from index `i` on. */
  function ArrangeItems(xs: seq<Value>, ys: seq<Value>, i: nat, caseSensitive: bool, ghost n: nat): (r: seq<Value>)
    requires i <= |xs| && i <= |ys| && ItemsWithin(xs, n)
    ensures |r| == |xs| - i
    decreases n + 1, 0, |xs| - i
  {
    if i == |xs| || i == |ys| then xs[i..]
    else
      var x := Arrange(xs[i], ys[i], caseSensitive);
      if CompareJson(xs[i], ys[i], caseSensitive) then [x] + ArrangeItems(xs, ys, i + 1, caseSensitive, n)
      else [x] + xs[i + 1..]
  }

  /** The members from index `i` on, both lists sorted. */
  function ArrangeMembers(xs: seq<Member>, ys: seq<Member>, i: nat, caseSensitive: bool, ghost n: nat): (r: seq<Member>)
    requires i <= |xs| && i <= |ys| && MembersWithin(xs, n)
    ensures |r| == |xs| - i
    decreases n + 1, 0, |xs| - i
  {
    if i == |xs| || i == |ys| || !SameKey(xs[i].key, ys[i].key, caseSensitive) then xs[i..]
    else
      var x := Member(xs[i].key, Arrange(xs[i].value, ys[i].value, caseSensitive));
      if CompareJson(xs[i].value, ys[i].value, caseSensitive) then [x] + ArrangeMembers(xs, ys, i + 1, caseSensitive, n)
      else [x] + xs[i + 1..]
  }

  /** A comparison changes the order of members but not what a tree with distinct keys denotes. */
  lemma {:induction false} ArrangeKeeps(a: Value, b: Value, caseSensitive: bool)
    requires Distinct(a)
    ensures Denote(Arrange(a, b, caseSensitive)) == Denote(a) && Distinct(Arrange(a, b, caseSensitive))
    decreases Nesting(a), 1, 0
  {
    match (a, b)
    case (Array(xs), Array(ys)) =>
      WithinNesting(xs, []);
      ArrangeItemsKeeps(xs, ys, 0, caseSensitive, ItemsNesting(xs));
      assert xs[0..] == xs;
    case (Object(xs), Object(ys)) =>
      SortedWithin(xs, caseSensitive);
      ArrangeObjectKeeps(xs, ys, caseSensitive, MembersNesting(xs));
    case _ =>
  }

  lemma {:induction false} ArrangeItemsKeeps(xs: seq<Value>, ys: seq<Value>, i: nat, caseSensitive: bool, n: nat)
    requires i <= |xs| && i <= |ys| && ItemsWithin(xs, n) && forall k :: 0 <= k < |xs| ==> Distinct(xs[k])
    ensures var r := ArrangeItems(xs, ys, i, caseSensitive, n);
      DenoteItems(r) == DenoteItems(xs[i..]) && forall k :: 0 <= k < |r| ==> Distinct(r[k])
    decreases n + 1, 0, |xs| - i
  {
    hide Arrange, CompareJson, Denote, Distinct;
    if i < |xs| && i < |ys| {
      ArrangeKeeps(xs[i], ys[i], caseSensitive);
      ArrangeItemsKeeps(xs, ys, i + 1, caseSensitive, n);
      assert xs[i..] == [xs[i]] + xs[i + 1..];
    }
  }

  lemma {:induction false} ArrangeObjectKeeps(xs: seq<Member>, ys: seq<Member>, caseSensitive: bool, n: nat)
    requires Distinct(Object(xs)) && n == MembersNesting(xs) && MembersWithin(Sort(xs, caseSensitive), n)
    ensures var r := ArrangeMembers(Sort(xs, caseSensitive), Sort(ys, caseSensitive), 0, caseSensitive, n);
      Denote(Object(r)) == Denote(Object(xs)) && Distinct(Object(r))
    decreases n + 1, 0, |xs| + 1
  {
    hide ArrangeMembers, Sort;
    var s := Sort(xs, caseSensitive);
    SortCorrect(xs, caseSensitive);
    UniquePermuted(xs, s);
    DenotePermuted(s, xs);
    assert |multiset(s)| == |s| && |multiset(xs)| == |xs|;
    forall k | 0 <= k < |s| ensures Distinct(s[k].value) {
      assert s[k] in multiset(xs);
      var j :| 0 <= j < |xs| && xs[j] == s[k];
    }
    ArrangeMembersKeeps(s, Sort(ys, caseSensitive), 0, caseSensitive, n);
    var r := ArrangeMembers(s, Sort(ys, caseSensitive), 0, caseSensitive, n);
    assert forall j :: 0 <= j < |s| ==> Alike(r[j - 0], s[j]);
    assert forall j :: 0 <= j < |r| ==> Alike(r[j], s[j]);
    SameMeaning(r, s);
  }

  lemma {:induction false} ArrangeMembersKeeps(xs: seq<Member>, ys: seq<Member>, i: nat, caseSensitive: bool, n: nat)
    requires i <= |xs| && i <= |ys| && MembersWithin(xs, n) && AllDistinct(xs)
    ensures AlikeFrom(ArrangeMembers(xs, ys, i, caseSensitive, n), xs, i)
    decreases n + 1, 0, |xs| - i
  {
    hide Arrange, CompareJson, Denote, Distinct;
    if i < |xs| && i < |ys| && SameKey(xs[i].key, ys[i].key, caseSensitive) {
      ArrangeKeeps(xs[i].value, ys[i].value, caseSensitive);
      ArrangeMembersKeeps(xs, ys, i + 1, caseSensitive, n);
      var x := Member(xs[i].key, Arrange(xs[i].value, ys[i].value, caseSensitive));
      AlikeStep(x, ArrangeMembers(xs, ys, i + 1, caseSensitive, n), xs, i);
      AlikeStep(x, xs[i + 1..], xs, i);
    }
  }

  /** `r` has the keys of `xs[i..]` and values that denote the same. */
  ghost predicate AlikeFrom(r: seq<Member>, xs: seq<Member>, i: nat)
    requires i <= |xs|
  {
    |r| == |xs| - i && forall j :: i <= j < |xs| ==> Alike(r[j - i], xs[j])
  }

  ghost predicate Alike(a: Member, b: Member) {
    a.key == b.key && Denote(a.value) == Denote(b.value) && Distinct(a.value)
  }

  lemma AlikeStep(x: Member, rest: seq<Member>, xs: seq<Member>, i: nat)
    requires i < |xs| && Alike(x, xs[i]) && AlikeFrom(rest, xs, i + 1)
    ensures AlikeFrom([x] + rest, xs, i)
  {
    hide Alike;
    var r := [x] + rest;
    forall j | i <= j < |xs| ensures Alike(r[j - i], xs[j]) {
      if j > i { assert r[j - i] == rest[j - (i + 1)]; }
    }
  }

  lemma SameMeaning(a: seq<Member>, b: seq<Member>)
    requires |a| == |b| && UniqueKeys(b)
    requires forall k :: 0 <= k < |a| ==> a[k].key == b[k].key && Denote(a[k].value) == Denote(b[k].value)
    ensures UniqueKeys(a) && DenoteMembers(a) == DenoteMembers(b)
  {
    forall x | 0 <= x < |a|
      ensures a[x].key in DenoteMembers(b) && DenoteMembers(b)[a[x].key] == Denote(a[x].value)
    {
      DenoteAt(b, x);
    }
    forall name | name in DenoteMembers(b) ensures exists x :: 0 <= x < |a| && a[x].key == name {
      var y := MemberNamed(b, name);
      assert a[y].key == name;
    }
    DenoteIs(a, DenoteMembers(b));
  }
}
