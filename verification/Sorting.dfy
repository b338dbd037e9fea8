/** The order in which sort_list leaves the members of an object: a top-down merge sort
    that keeps strictly sorted lists as they are. */
module Sorting {
  import opened Bytes
  import opened Json
  import opened Unordered

  /** compare_strings(s, t) < 0. */
  predicate KeyLess(s: bytes, t: bytes, caseSensitive: bool) {
    if caseSensitive then Less(s, t) else Less(Lower(s), Lower(t))
  }

  lemma KeyLessFacts(s: bytes, t: bytes, u: bytes, caseSensitive: bool)
    ensures KeyLess(s, t, caseSensitive) ==> !KeyLess(t, s, caseSensitive)
    ensures !KeyLess(t, s, caseSensitive) && !KeyLess(u, t, caseSensitive) ==> !KeyLess(u, s, caseSensitive)
  {
    var s', t', u' := if caseSensitive then s else Lower(s), if caseSensitive then t else Lower(t),
                      if caseSensitive then u else Lower(u);
    if Less(s', t') && Less(t', s') {
      LessTransitive(s', t', s');
      LessIrreflexive(s');
    }
    if Less(u', s') && !Less(t', s') && !Less(u', t') {
      LessTotal(s', t');
      LessTotal(t', u');
      if Less(s', t') { LessTransitive(u', s', t'); }
    }
  }

  predicate StrictlyAscending(members: seq<Member>, caseSensitive: bool) {
    forall i :: 0 < i < |members| ==> KeyLess(members[i - 1].key, members[i].key, caseSensitive)
  }

  predicate Ascending(members: seq<Member>, caseSensitive: bool) {
    forall i, j :: 0 <= i < j < |members| ==> !KeyLess(members[j].key, members[i].key, caseSensitive)
  }

  /** Every key of `members` is at least `key`. */
  predicate AtLeast(key: bytes, members: seq<Member>, caseSensitive: bool) {
    forall i :: 0 <= i < |members| ==> !KeyLess(members[i].key, key, caseSensitive)
  }

  function Merge(a: seq<Member>, b: seq<Member>, caseSensitive: bool): seq<Member> {
    if a == [] then b
    else if b == [] then a
    else if KeyLess(a[0].key, b[0].key, caseSensitive) then [a[0]] + Merge(a[1..], b, caseSensitive)
    else [b[0]] + Merge(a, b[1..], caseSensitive)
  }

  function Sort(members: seq<Member>, caseSensitive: bool): seq<Member>
    decreases |members|
  {
    if |members| <= 1 || StrictlyAscending(members, caseSensitive) then members
    else
      var half := (|members| + 1) / 2;
      Merge(Sort(members[..half], caseSensitive), Sort(members[half..], caseSensitive), caseSensitive)
  }

  lemma ConsBag<T>(s: seq<T>)
    requires s != []
    ensures multiset(s) == multiset{s[0]} + multiset(s[1..])
  {
    assert s == [s[0]] + s[1..];
  }

  lemma SplitBag<T>(s: seq<T>, k: nat)
    requires k <= |s|
    ensures multiset(s) == multiset(s[..k]) + multiset(s[k..])
  {
    assert s == s[..k] + s[k..];
  }

  lemma JoinBag<T>(x: T, s: seq<T>)
    ensures multiset([x] + s) == multiset{x} + multiset(s)
  {
  }

  lemma {:induction false} MergeKeeps(a: seq<Member>, b: seq<Member>, caseSensitive: bool)
    ensures multiset(Merge(a, b, caseSensitive)) == multiset(a) + multiset(b)
    decreases |a| + |b|
  {
    hide KeyLess;
    if a != [] && b != [] {
      ConsBag(a);
      ConsBag(b);
      if KeyLess(a[0].key, b[0].key, caseSensitive) {
        MergeKeeps(a[1..], b, caseSensitive);
        JoinBag(a[0], Merge(a[1..], b, caseSensitive));
      } else {
        MergeKeeps(a, b[1..], caseSensitive);
        JoinBag(b[0], Merge(a, b[1..], caseSensitive));
      }
    }
  }

  lemma {:induction false} MergeAtLeast(key: bytes, a: seq<Member>, b: seq<Member>, caseSensitive: bool)
    requires AtLeast(key, a, caseSensitive) && AtLeast(key, b, caseSensitive)
    ensures AtLeast(key, Merge(a, b, caseSensitive), caseSensitive)
    decreases |a| + |b|
  {
    if a != [] && b != [] {
      if KeyLess(a[0].key, b[0].key, caseSensitive) {
        MergeAtLeast(key, a[1..], b, caseSensitive);
      } else {
        MergeAtLeast(key, a, b[1..], caseSensitive);
      }
    }
  }

  lemma HeadAtLeast(members: seq<Member>, caseSensitive: bool)
    requires members != [] && Ascending(members, caseSensitive)
    ensures Ascending(members[1..], caseSensitive) && AtLeast(members[0].key, members[1..], caseSensitive)
  {
  }

  lemma ConsAscending(m: Member, rest: seq<Member>, caseSensitive: bool)
    requires Ascending(rest, caseSensitive) && AtLeast(m.key, rest, caseSensitive)
    ensures Ascending([m] + rest, caseSensitive)
  {
  }

  lemma BelowAll(key: bytes, members: seq<Member>, caseSensitive: bool)
    requires members != [] && Ascending(members, caseSensitive) && !KeyLess(members[0].key, key, caseSensitive)
    ensures AtLeast(key, members, caseSensitive)
  {
    forall i | 0 <= i < |members| ensures !KeyLess(members[i].key, key, caseSensitive) {
      KeyLessFacts(key, members[0].key, members[i].key, caseSensitive);
      if i > 0 { assert !KeyLess(members[i].key, members[0].key, caseSensitive); }
    }
  }

  lemma {:induction false} MergeAscending(a: seq<Member>, b: seq<Member>, caseSensitive: bool)
    requires Ascending(a, caseSensitive) && Ascending(b, caseSensitive)
    ensures Ascending(Merge(a, b, caseSensitive), caseSensitive)
    decreases |a| + |b|
  {
    hide KeyLess, Ascending, AtLeast;
    if a != [] && b != [] {
      if KeyLess(a[0].key, b[0].key, caseSensitive) {
        HeadAtLeast(a, caseSensitive);
        KeyLessFacts(a[0].key, b[0].key, b[0].key, caseSensitive);
        BelowAll(a[0].key, b, caseSensitive);
        MergeAscending(a[1..], b, caseSensitive);
        MergeAtLeast(a[0].key, a[1..], b, caseSensitive);
        ConsAscending(a[0], Merge(a[1..], b, caseSensitive), caseSensitive);
      } else {
        HeadAtLeast(b, caseSensitive);
        BelowAll(b[0].key, a, caseSensitive);
        MergeAscending(a, b[1..], caseSensitive);
        MergeAtLeast(b[0].key, a, b[1..], caseSensitive);
        ConsAscending(b[0], Merge(a, b[1..], caseSensitive), caseSensitive);
      }
    }
  }

  lemma {:induction false} StrictStep(members: seq<Member>, i: nat, j: nat, caseSensitive: bool)
    requires StrictlyAscending(members, caseSensitive) && i < j < |members|
    ensures KeyLess(members[i].key, members[j].key, caseSensitive)
    decreases j - i
  {
    if i + 1 < j {
      StrictStep(members, i, j - 1, caseSensitive);
      var a, b, c := members[i].key, members[j - 1].key, members[j].key;
      if caseSensitive { LessTransitive(a, b, c); } else { LessTransitive(Lower(a), Lower(b), Lower(c)); }
    }
  }

  lemma StrictAscends(members: seq<Member>, caseSensitive: bool)
    requires StrictlyAscending(members, caseSensitive)
    ensures Ascending(members, caseSensitive)
  {
    forall i, j | 0 <= i < j < |members| ensures !KeyLess(members[j].key, members[i].key, caseSensitive) {
      StrictStep(members, i, j, caseSensitive);
      KeyLessFacts(members[i].key, members[j].key, members[j].key, caseSensitive);
    }
  }

  /** Sorting permutes the members and leaves their keys in non-decreasing order. */
  lemma {:induction false} SortCorrect(members: seq<Member>, caseSensitive: bool)
    ensures multiset(Sort(members, caseSensitive)) == multiset(members)
    ensures Ascending(Sort(members, caseSensitive), caseSensitive)
    decreases |members|
  {
    hide KeyLess, Merge, Ascending, StrictlyAscending;
    if |members| <= 1 {
      Single(members, caseSensitive);
    } else if StrictlyAscending(members, caseSensitive) {
      StrictAscends(members, caseSensitive);
    } else {
      var half := (|members| + 1) / 2;
      var a, b := Sort(members[..half], caseSensitive), Sort(members[half..], caseSensitive);
      SortCorrect(members[..half], caseSensitive);
      SortCorrect(members[half..], caseSensitive);
      MergeKeeps(a, b, caseSensitive);
      MergeAscending(a, b, caseSensitive);
      SplitBag(members, half);
    }
  }

  lemma Single(members: seq<Member>, caseSensitive: bool)
    requires |members| <= 1
    ensures Ascending(members, caseSensitive)
  {
  }

  predicate KeysAscend(members: seq<Member>) {
    forall i, j :: 0 <= i < j < |members| ==> Less(members[i].key, members[j].key)
  }

  /** Sorting members with distinct keys case-sensitively puts the keys in strictly increasing
      order, which fixes the result, and keeps what the object denotes. */
  lemma SortUnique(members: seq<Member>)
    requires UniqueKeys(members)
    ensures KeysAscend(Sort(members, true)) && UniqueKeys(Sort(members, true))
    ensures DenoteMembers(Sort(members, true)) == DenoteMembers(members)
    ensures forall i :: 0 <= i < |Sort(members, true)| ==> Sort(members, true)[i] in members
  {
    SortCorrect(members, true);
    var sorted := Sort(members, true);
    UniquePermuted(members, sorted);
    DenotePermuted(sorted, members);
    forall i, j | 0 <= i < j < |sorted| ensures Less(sorted[i].key, sorted[j].key) {
      assert !KeyLess(sorted[j].key, sorted[i].key, true);
      LessTotal(sorted[i].key, sorted[j].key);
    }
    forall i | 0 <= i < |sorted| ensures sorted[i] in members {
      assert sorted[i] in multiset(members);
    }
  }

  // ----- Members of the same name -----

  /** The members of that name, in order. */
  function WithKey(members: seq<Member>, key: bytes, caseSensitive: bool): seq<Member> {
    if members == [] then []
    else
      (if SameKey(key, members[0].key, caseSensitive) then [members[0]] else [])
      + WithKey(members[1..], key, caseSensitive)
  }

  function Reversed(members: seq<Member>): seq<Member> {
    if members == [] then [] else Reversed(members[1..]) + [members[0]]
  }

  lemma {:induction false} WithKeyConcat(a: seq<Member>, b: seq<Member>, key: bytes, caseSensitive: bool)
    ensures WithKey(a + b, key, caseSensitive) == WithKey(a, key, caseSensitive) + WithKey(b, key, caseSensitive)
  {
    hide SameKey;
    if a == [] {
      assert a + b == b;
    } else {
      assert (a + b)[1..] == a[1..] + b;
      WithKeyConcat(a[1..], b, key, caseSensitive);
    }
  }

  lemma {:induction false} ReversedConcat(a: seq<Member>, b: seq<Member>)
    ensures Reversed(a + b) == Reversed(b) + Reversed(a)
  {
    if a == [] {
      assert a + b == b;
    } else {
      assert (a + b)[1..] == a[1..] + b;
      ReversedConcat(a[1..], b);
    }
  }

  /** Nothing has that name where every name comes later. */
  lemma {:induction false} WithKeyNone(members: seq<Member>, key: bytes, caseSensitive: bool)
    requires forall i :: 0 <= i < |members| ==> KeyLess(key, members[i].key, caseSensitive)
    ensures WithKey(members, key, caseSensitive) == []
  {
    if members != [] {
      var k, l := if caseSensitive then key else Lower(key),
                  if caseSensitive then members[0].key else Lower(members[0].key);
      LessIrreflexive(k);
      WithKeyNone(members[1..], key, caseSensitive);
    }
  }

  lemma SameKeyLess(key: bytes, name: bytes, other: bytes, caseSensitive: bool)
    requires SameKey(key, name, caseSensitive)
    ensures KeyLess(key, other, caseSensitive) <==> KeyLess(name, other, caseSensitive)
  {
  }

  lemma LessThenNot(a: bytes, b: bytes, c: bytes, caseSensitive: bool)
    requires KeyLess(a, b, caseSensitive) && !KeyLess(c, b, caseSensitive)
    ensures KeyLess(a, c, caseSensitive)
  {
    var a', b', c' := if caseSensitive then a else Lower(a), if caseSensitive then b else Lower(b),
                      if caseSensitive then c else Lower(c);
    LessTotal(b', c');
    if Less(b', c') { LessTransitive(a', b', c'); }
  }

  /** Where names are equal a merge takes those of the second list first. */
  lemma {:induction false} MergeTies(a: seq<Member>, b: seq<Member>, key: bytes, caseSensitive: bool)
    requires Ascending(a, caseSensitive) && Ascending(b, caseSensitive)
    ensures WithKey(Merge(a, b, caseSensitive), key, caseSensitive)
      == WithKey(b, key, caseSensitive) + WithKey(a, key, caseSensitive)
    decreases |a| + |b|
  {
    hide SameKey, KeyLess;
    if a != [] && b != [] {
      if KeyLess(a[0].key, b[0].key, caseSensitive) {
        MergeTies(a[1..], b, key, caseSensitive);
        if SameKey(key, a[0].key, caseSensitive) {
          SameKeyLess(key, a[0].key, b[0].key, caseSensitive);
          forall i | 0 <= i < |b| ensures KeyLess(key, b[i].key, caseSensitive) {
            if i > 0 { LessThenNot(key, b[0].key, b[i].key, caseSensitive); }
          }
          WithKeyNone(b, key, caseSensitive);
        }
        WithKeyConcat([a[0]], Merge(a[1..], b, caseSensitive), key, caseSensitive);
        OneWithKey(a[0], key, caseSensitive);
      } else {
        MergeTies(a, b[1..], key, caseSensitive);
        WithKeyConcat([b[0]], Merge(a, b[1..], caseSensitive), key, caseSensitive);
        OneWithKey(b[0], key, caseSensitive);
      }
    }
  }

  lemma OneWithKey(m: Member, key: bytes, caseSensitive: bool)
    ensures WithKey([m], key, caseSensitive) == if SameKey(key, m.key, caseSensitive) then [m] else []
  {
    assert [m][1..] == [];
  }

  lemma {:induction false} StrictTies(members: seq<Member>, key: bytes, caseSensitive: bool)
    requires forall i, j :: 0 <= i < j < |members| ==> KeyLess(members[i].key, members[j].key, caseSensitive)
    ensures |WithKey(members, key, caseSensitive)| <= 1
  {
    hide SameKey, KeyLess;
    if members != [] {
      if SameKey(key, members[0].key, caseSensitive) {
        forall i | 0 <= i < |members[1..]| ensures KeyLess(key, members[1..][i].key, caseSensitive) {
          SameKeyLess(key, members[0].key, members[i + 1].key, caseSensitive);
        }
        WithKeyNone(members[1..], key, caseSensitive);
      } else {
        StrictTies(members[1..], key, caseSensitive);
      }
    }
  }

  /** Sorting reverses members of the same name: with `SortCorrect` this says where each member goes. */
  lemma {:induction false} SortTies(members: seq<Member>, key: bytes, caseSensitive: bool)
    ensures WithKey(Sort(members, caseSensitive), key, caseSensitive) == Reversed(WithKey(members, key, caseSensitive))
    decreases |members|
  {
    hide SameKey, KeyLess, WithKey, Merge, Ascending, StrictlyAscending, Reversed;
    if |members| <= 1 || StrictlyAscending(members, caseSensitive) {
      StrictIsOrdered(members, caseSensitive);
      StrictTies(members, key, caseSensitive);
      ReversedShort(WithKey(members, key, caseSensitive));
    } else {
      var half := (|members| + 1) / 2;
      var a, b := members[..half], members[half..];
      SortTies(a, key, caseSensitive);
      SortTies(b, key, caseSensitive);
      SortCorrect(a, caseSensitive);
      SortCorrect(b, caseSensitive);
      MergeTies(Sort(a, caseSensitive), Sort(b, caseSensitive), key, caseSensitive);
      assert members == a + b;
      WithKeyConcat(a, b, key, caseSensitive);
      ReversedConcat(WithKey(a, key, caseSensitive), WithKey(b, key, caseSensitive));
    }
  }

  lemma ReversedShort(members: seq<Member>)
    requires |members| <= 1
    ensures Reversed(members) == members
  {
  }

  lemma {:induction false} StrictIsOrdered(members: seq<Member>, caseSensitive: bool)
    requires |members| <= 1 || StrictlyAscending(members, caseSensitive)
    ensures forall i, j :: 0 <= i < j < |members| ==> KeyLess(members[i].key, members[j].key, caseSensitive)
  {
    forall i, j | 0 <= i < j < |members| ensures KeyLess(members[i].key, members[j].key, caseSensitive) {
      StrictStep(members, i, j, caseSensitive);
    }
  }
}
