/** sort_list on nodes in memory: a merge sort that relinks the list in place. */
module SortList {
  import opened Bytes
  import opened Json
  import opened Nodes
  import opened Trees
  import Sorting

  /** compare_strings(a, b) < 0; a missing key is never smaller. */
  predicate KeyLess(a: Option<cstring>, b: Option<cstring>, caseSensitive: bool) {
    a.Some? && b.Some? && Sorting.KeyLess(a.value, b.value, caseSensitive)
  }

  predicate Rising(s: seq<Tree>, caseSensitive: bool) {
    forall i :: 0 < i < |s| ==> KeyLess(s[i - 1].key, s[i].key, caseSensitive)
  }

  function Merged(a: seq<Tree>, b: seq<Tree>, caseSensitive: bool): (r: seq<Tree>)
    ensures |r| == |a| + |b|
  {
    if a == [] then b
    else if b == [] then a
    else if KeyLess(a[0].key, b[0].key, caseSensitive) then [a[0]] + Merged(a[1..], b, caseSensitive)
    else [b[0]] + Merged(a, b[1..], caseSensitive)
  }

  function Sorted(s: seq<Tree>, caseSensitive: bool): (r: seq<Tree>)
    ensures |r| == |s|
    decreases |s|
  {
    if |s| <= 1 || Rising(s, caseSensitive) then s
    else
      var half := (|s| + 1) / 2;
      Merged(Sorted(s[..half], caseSensitive), Sorted(s[half..], caseSensitive), caseSensitive)
  }

  // ----- What sorting does -----

  lemma {:induction false} MergedKeeps(a: seq<Tree>, b: seq<Tree>, caseSensitive: bool)
    ensures multiset(Merged(a, b, caseSensitive)) == multiset(a) + multiset(b)
    decreases |a| + |b|
  {
    hide KeyLess;
    if a != [] && b != [] {
      Sorting.ConsBag(a);
      Sorting.ConsBag(b);
      if KeyLess(a[0].key, b[0].key, caseSensitive) {
        MergedKeeps(a[1..], b, caseSensitive);
        Sorting.JoinBag(a[0], Merged(a[1..], b, caseSensitive));
      } else {
        MergedKeeps(a, b[1..], caseSensitive);
        Sorting.JoinBag(b[0], Merged(a, b[1..], caseSensitive));
      }
    }
  }

  /** The same nodes, whatever their keys. */
  lemma {:induction false} SortedKeeps(s: seq<Tree>, caseSensitive: bool)
    ensures multiset(Sorted(s, caseSensitive)) == multiset(s)
    decreases |s|
  {
    hide Rising, Merged;
    if |s| > 1 && !Rising(s, caseSensitive) {
      var half := (|s| + 1) / 2;
      SortedKeeps(s[..half], caseSensitive);
      SortedKeeps(s[half..], caseSensitive);
      MergedKeeps(Sorted(s[..half], caseSensitive), Sorted(s[half..], caseSensitive), caseSensitive);
      Sorting.SplitBag(s, half);
    }
  }

  predicate Keyed(s: seq<Tree>) { forall i :: 0 <= i < |s| ==> s[i].key.Some? }

  lemma MembersSplit(s: seq<Tree>, half: nat)
    requires half <= |s|
    ensures Members(s, |s|)[..half] == Members(s[..half], half)
    ensures Members(s, |s|)[half..] == Members(s[half..], |s| - half)
  {
    hide Members;
  }

  lemma {:induction false} MembersFront(t: Tree, s: seq<Tree>)
    ensures Members([t] + s, 1 + |s|) == [Member(KeyOf(t), ValueOf(t))] + Members(s, |s|)
  {
    hide Members, KeyOf, ValueOf;
    var all, rest := Members([t] + s, 1 + |s|), Members(s, |s|);
    forall i | 0 <= i < |rest| ensures all[i + 1] == rest[i] { assert ([t] + s)[i + 1] == s[i]; }
  }

  lemma KeyedParts(s: seq<Tree>)
    ensures s != [] ==> (Keyed(s) <==> s[0].key.Some? && Keyed(s[1..]))
  {
    if s != [] && Keyed(s[1..]) && s[0].key.Some? {
      forall i | 0 <= i < |s| ensures s[i].key.Some? { if i > 0 { assert s[1..][i - 1] == s[i]; } }
    }
  }

  lemma {:induction false} MergedMembers(a: seq<Tree>, b: seq<Tree>, caseSensitive: bool)
    requires Keyed(a) && Keyed(b)
    ensures var m := Merged(a, b, caseSensitive);
      Keyed(m) && Members(m, |m|) == Sorting.Merge(Members(a, |a|), Members(b, |b|), caseSensitive)
    decreases |a| + |b|
  {
    hide Members, Sorting.KeyLess, ValueOf, Keyed;
    KeyedParts(a);
    KeyedParts(b);
    if a != [] && b != [] {
      if KeyLess(a[0].key, b[0].key, caseSensitive) {
        MergedMembers(a[1..], b, caseSensitive);
        KeyedParts([a[0]] + Merged(a[1..], b, caseSensitive));
        MembersFront(a[0], Merged(a[1..], b, caseSensitive));
        assert a == [a[0]] + a[1..];
        MembersFront(a[0], a[1..]);
      } else {
        MergedMembers(a, b[1..], caseSensitive);
        KeyedParts([b[0]] + Merged(a, b[1..], caseSensitive));
        MembersFront(b[0], Merged(a, b[1..], caseSensitive));
        assert b == [b[0]] + b[1..];
        MembersFront(b[0], b[1..]);
      }
    }
  }

  lemma RisingMembers(s: seq<Tree>, caseSensitive: bool)
    requires Keyed(s)
    ensures Rising(s, caseSensitive) <==> Sorting.StrictlyAscending(Members(s, |s|), caseSensitive)
  {
    hide Members, Sorting.KeyLess;
  }

  /** On keyed nodes this is the sort of the members by key. */
  lemma {:induction false} SortedMembers(s: seq<Tree>, caseSensitive: bool)
    requires Keyed(s)
    ensures var t := Sorted(s, caseSensitive);
      Keyed(t) && |t| == |s| && Members(t, |t|) == Sorting.Sort(Members(s, |s|), caseSensitive)
    decreases |s|
  {
    hide Sorting.StrictlyAscending, Sorting.Merge, Rising, Merged, Members;
    RisingMembers(s, caseSensitive);
    if |s| > 1 && !Rising(s, caseSensitive) {
      var half := (|s| + 1) / 2;
      SortedMembers(s[..half], caseSensitive);
      SortedMembers(s[half..], caseSensitive);
      MembersSplit(s, half);
      MergedMembers(Sorted(s[..half], caseSensitive), Sorted(s[half..], caseSensitive), caseSensitive);
    }
  }

  /** A permutation of the nodes with their keys in non-decreasing order. */
  lemma SortedCorrect(s: seq<Tree>, caseSensitive: bool)
    requires Keyed(s)
    ensures multiset(Sorted(s, caseSensitive)) == multiset(s) && Keyed(Sorted(s, caseSensitive))
    ensures Sorting.Ascending(Members(Sorted(s, caseSensitive), |Sorted(s, caseSensitive)|), caseSensitive)
  {
    SortedKeeps(s, caseSensitive);
    SortedMembers(s, caseSensitive);
    Sorting.SortCorrect(Members(s, |s|), caseSensitive);
  }

  // ----- The list -----

  /** The nodes hold the keys. */
  ghost predicate Told(s: seq<Tree>)
    reads Roots(s)`key
  {
    forall i :: 0 <= i < |s| ==> s[i].node.key == s[i].key
  }

  method IsRising(list: Node, caseSensitive: bool, ghost s: seq<Tree>) returns (r: bool)
    requires Chain(list, Roots(s)) && Told(s)
    ensures r == Rising(s, caseSensitive)
  {
    hide Sorting.KeyLess;
    var current: Node? := list;
    ghost var k := 0;
    while current != null && current.next != null && KeyLess(current.key, current.next.key, caseSensitive)
      invariant k < |s| && current == s[k].node
      invariant forall i :: 0 < i <= k ==> KeyLess(s[i - 1].key, s[i].key, caseSensitive)
      decreases |s| - k
    {
      current := current.next;
      k := k + 1;
    }
    assert current.next != null ==> current.next == s[k + 1].node && !KeyLess(s[k].key, s[k + 1].key, caseSensitive);
    r := current == null || current.next == null;
  }

  /** The walk of two pointers. */
  method FindMiddle(list: Node, ghost s: seq<Node>) returns (second: Node?)
    requires Chain(list, s) && |s| >= 2
    ensures second == s[(|s| + 1) / 2]
  {
    second := list;
    var current: Node? := list;
    ghost var m: nat := 0;
    while current != null
      invariant 2 * m <= |s| + 1 && m < |s| && second == s[m] && current == if 2 * m < |s| then s[2 * m] else null
      decreases |s| + 1 - 2 * m
    {
      second := second.next;
      current := current.next;
      if current != null {
        current := current.next;
      }
      m := m + 1;
    }
  }

  /** Cuts the list before `second`. */
  method Split(second: Node, ghost s: seq<Node>, ghost half: nat)
    requires Chain(Head(s), s) && 0 < half < |s| && second == s[half]
    modifies s`next, s`prev
    ensures Chain(Head(s), s[..half]) && Chain(second, s[half..])
    ensures second.prev == null && s[0].prev == old(s[0].prev)
  {
    assert second.prev == s[half - 1];
    if second.prev != null {
      second.prev.next := null;
      second.prev := null;
    }
    CutChains(s, half);
  }

  lemma CutChains(s: seq<Node>, half: nat)
    requires 0 < half < |s| && NoRepeats(s)
    requires forall i :: 0 <= i < |s| ==> s[i].next == if i + 1 == half then null else NextIn(s, i)
    requires forall i :: 0 < i < |s| && i != half ==> s[i].prev == s[i - 1]
    ensures Chain(Head(s), s[..half]) && Chain(s[half], s[half..])
  {
    var a, b := s[..half], s[half..];
    forall i | 0 <= i < |a| ensures a[i].next == NextIn(a, i) && (i > 0 ==> a[i].prev == a[i - 1]) {
      assert a[i] == s[i];
    }
    forall i | 0 <= i < |b| ensures b[i].next == NextIn(b, i) && (i > 0 ==> b[i].prev == b[i - 1]) {
      assert b[i] == s[half + i];
    }
  }

  // ----- Merging -----

  /** `s` is linked in both directions; its last `next` and first `prev` are free. */
  ghost predicate Path(s: seq<Node>)
    reads s`next, s`prev
  {
    && NoRepeats(s)
    && (forall i :: 0 <= i < |s| - 1 ==> s[i].next == s[i + 1])
    && (forall i :: 0 < i < |s| ==> s[i].prev == s[i - 1])
  }

  ghost predicate Apart(a: seq<Node>, b: seq<Node>) { forall e :: e in a ==> e !in b }

  function Tail(s: seq<Node>): Node? { if s == [] then null else s[|s| - 1] }

  /** Puts `x` after the merged part. */
  method Append(tail: Node?, x: Node, ghost done: seq<Node>)
    requires Path(done) && tail == Tail(done) && x !in done
    modifies done`next, x`prev
    ensures Path(done + [x]) && (done == [] ==> x.prev == old(x.prev))
  {
    ghost var t := done + [x];
    if tail != null {
      tail.next := x;
      x.prev := tail;
    }
    forall i | 0 <= i < |t| - 1 ensures t[i].next == t[i + 1] { assert t[i] == done[i]; }
    forall i | 0 < i < |t| ensures t[i].prev == t[i - 1] { assert i < |done| ==> t[i] == done[i]; }
  }

  lemma ChainTail(first: Node?, s: seq<Node>)
    requires Chain(first, s) && s != []
    ensures first == s[0] && Chain(first.next, s[1..]) && s[0] !in s[1..]
  {
    var t := s[1..];
    forall i | 0 <= i < |t| ensures t[i].next == NextIn(t, i) && (i > 0 ==> t[i].prev == t[i - 1]) {
      assert t[i] == s[i + 1];
    }
  }

  lemma Ends(done: seq<Node>, rest: seq<Node>)
    requires done != [] && rest != [] && NoRepeats(done) && NoRepeats(rest) && Apart(rest, done)
    ensures Apart(done, rest) && forall i :: 0 <= i < |done| ==> done[i] !in rest
    ensures forall i :: 0 <= i < |done| - 1 ==> done[i] != done[|done| - 1]
    ensures forall i :: 0 < i < |rest| ==> rest[i] != rest[0]
  {
  }

  /** Appends the rest of a list to the merged part. */
  method AppendRest(tail: Node?, first: Node, ghost done: seq<Node>, ghost rest: seq<Node>)
    requires Path(done) && tail == Tail(done) && done != [] && Chain(first, rest) && rest != [] && Apart(rest, done)
    modifies done`next, rest`prev
    ensures Chain(done[0], done + rest) && done[0].prev == old(done[0].prev)
  {
    hide NoRepeats, Apart;
    Ends(done, rest);
    tail.next := first;
    first.prev := tail;
    assert Meet(done, rest);
    Joined(done, rest);
  }

  function NextOr(s: seq<Node>, i: nat, other: Node): Node
    requires i < |s|
  {
    if i + 1 < |s| then s[i + 1] else other
  }

  function PrevOr(s: seq<Node>, i: nat, other: Node): Node
    requires i < |s|
  {
    if i > 0 then s[i - 1] else other
  }

  /** Both parts are linked inside and to each other. */
  ghost predicate Meet(done: seq<Node>, rest: seq<Node>)
    requires done != [] && rest != []
    reads done`next, done`prev, rest`next, rest`prev
  {
    && (forall i :: 0 <= i < |done| ==> done[i].next == NextOr(done, i, rest[0]))
    && (forall i :: 0 < i < |done| ==> done[i].prev == done[i - 1])
    && (forall i :: 0 <= i < |rest| ==> rest[i].next == NextIn(rest, i))
    && (forall i :: 0 <= i < |rest| ==> rest[i].prev == PrevOr(rest, i, done[|done| - 1]))
  }

  lemma JoinedAt(done: seq<Node>, rest: seq<Node>, i: nat)
    requires done != [] && rest != [] && Meet(done, rest) && i < |done + rest|
    ensures (done + rest)[i].next == NextIn(done + rest, i)
    ensures i > 0 ==> (done + rest)[i].prev == (done + rest)[i - 1]
  {
    var t, n := done + rest, |done|;
    if i < n {
      assert t[i] == done[i];
    } else {
      var j := i - n;
      assert t[i] == rest[j];
    }
  }

  lemma Joined(done: seq<Node>, rest: seq<Node>)
    requires done != [] && rest != [] && NoRepeats(done) && NoRepeats(rest) && Apart(done, rest) && Meet(done, rest)
    ensures Chain(done[0], done + rest)
  {
    hide Meet;
    JoinedNoRepeats(done, rest);
    var t := done + rest;
    forall i | 0 <= i < |t| ensures t[i].next == NextIn(t, i) { JoinedAt(done, rest, i); }
    forall i | 0 < i < |t| ensures t[i].prev == t[i - 1] { JoinedAt(done, rest, i); }
  }

  lemma JoinedNoRepeats(a: seq<Node>, b: seq<Node>)
    requires NoRepeats(a) && NoRepeats(b) && Apart(a, b)
    ensures NoRepeats(a + b)
  {
    var t, n := a + b, |a|;
    forall i, j | 0 <= i < j < |t| ensures t[i] != t[j] {
      assert i < n ==> t[i] == a[i] && a[i] in a;
      assert j >= n ==> t[j] == b[j - n] && b[j - n] in b;
      assert i >= n ==> t[i] == b[i - n];
    }
  }

  /** What is merged so far, and what each list still holds. */
  ghost predicate Merging(done: seq<Node>, first: Node?, a: seq<Node>, second: Node?, b: seq<Node>)
    reads done`next, done`prev, a`next, a`prev, b`next, b`prev
  {
    Path(done) && Chain(first, a) && Chain(second, b) && Apart(a, done) && Apart(b, done) && Apart(b, a)
  }

  /** Moves the first node of the first list to the merged part. */
  method Take(tail: Node?, first: Node, ghost done: seq<Node>, ghost a: seq<Node>, second: Node?, ghost b: seq<Node>)
    requires Merging(done, first, a, second, b) && a != [] && tail == Tail(done)
    modifies done`next, a`prev
    ensures Merging(done + [first], first.next, a[1..], second, b)
    ensures Head(done + [first]).prev == old(Head(done + [first]).prev)
  {
    hide Chain, Path, Apart;
    ChainTail(first, a);
    ghost var rest := a[1..];
    ApartTake(first, done, a, b);
    Append(tail, first, done);
    assert forall e :: e in b || e in rest ==> e.next == old(e.next) && e.prev == old(e.prev);
    assert Chain(first.next, rest) && Chain(second, b);
  }

  /** The same in terms of the trees below the nodes. */
  method TakeTree(tail: Node?, first: Node, ghost done: seq<Tree>, ghost a: seq<Tree>, second: Node?,
                  ghost b: seq<Tree>)
    requires Merging(Roots(done), first, Roots(a), second, Roots(b)) && a != [] && tail == Tail(Roots(done))
    modifies Roots(done)`next, Roots(a)`prev
    ensures first == a[0].node && Merging(Roots(done + [a[0]]), first.next, Roots(a[1..]), second, Roots(b))
    ensures first.next == Head(Roots(a[1..])) && second == Head(Roots(b))
    ensures Head(Roots(done + [a[0]])).prev == old(Head(Roots(done + [a[0]])).prev)
    ensures Tail(Roots(done + [a[0]])) == first
  {
    hide Merging;
    RootsStep(a, done);
    MergingHeads(Roots(done), first, Roots(a), second, Roots(b));
    Take(tail, first, Roots(done), Roots(a), second, Roots(b));
    MergingHeads(Roots(done + [a[0]]), first.next, Roots(a[1..]), second, Roots(b));
  }

  lemma ApartTake(x: Node, done: seq<Node>, a: seq<Node>, b: seq<Node>)
    requires Apart(a, done) && Apart(b, done) && Apart(b, a) && a != [] && x == a[0] && x !in a[1..]
    ensures x !in done && forall e :: e in a[1..] ==> e != x && e !in done
    ensures forall e :: e in b ==> e != x && e !in done
    ensures Apart(a[1..], done + [x]) && Apart(b, done + [x]) && Apart(b, a[1..])
  {
    assert forall e :: e in a[1..] ==> e in a;
    assert forall e :: e in done + [x] ==> e in done || e == x;
    assert x in a;
  }

  lemma Swap(done: seq<Node>, first: Node?, a: seq<Node>, second: Node?, b: seq<Node>)
    requires Merging(done, first, a, second, b)
    ensures Merging(done, second, b, first, a)
  {
  }


  lemma MergedUnfold(a: seq<Tree>, b: seq<Tree>, caseSensitive: bool)
    requires a != [] && b != []
    ensures Merged(a, b, caseSensitive) ==
      if KeyLess(a[0].key, b[0].key, caseSensitive) then [a[0]] + Merged(a[1..], b, caseSensitive)
      else [b[0]] + Merged(a, b[1..], caseSensitive)
  {
  }

  lemma Shift(done: seq<Tree>, x: Tree, rest: seq<Tree>)
    ensures done + ([x] + rest) == (done + [x]) + rest
  {
  }

  lemma MergedStep(a: seq<Tree>, b: seq<Tree>, caseSensitive: bool, done: seq<Tree>)
    requires a != [] && b != []
    ensures KeyLess(a[0].key, b[0].key, caseSensitive) ==>
      done + Merged(a, b, caseSensitive) == (done + [a[0]]) + Merged(a[1..], b, caseSensitive)
    ensures !KeyLess(a[0].key, b[0].key, caseSensitive) ==>
      done + Merged(a, b, caseSensitive) == (done + [b[0]]) + Merged(a, b[1..], caseSensitive)
  {
    hide KeyLess, Merged;
    MergedUnfold(a, b, caseSensitive);
    if KeyLess(a[0].key, b[0].key, caseSensitive) {
      Shift(done, a[0], Merged(a[1..], b, caseSensitive));
    } else {
      Shift(done, b[0], Merged(a, b[1..], caseSensitive));
    }
  }

  /** The nodes of the two lists, and of what has been merged from them. */
  ghost predicate From(s: seq<Node>, a0: seq<Node>, b0: seq<Node>) {
    forall i :: 0 <= i < |s| ==> s[i] in a0 || s[i] in b0
  }

  lemma RootsStep(s: seq<Tree>, done: seq<Tree>)
    requires s != []
    ensures Roots(s)[1..] == Roots(s[1..]) && Roots(done + [s[0]]) == Roots(done) + [s[0].node]
  {
  }

  /** The state of the merging loop: `done` is merged, `a` and `b` are left of `a0` and `b0`. */
  ghost predicate InMerge(done: seq<Tree>, first: Node?, a: seq<Tree>, second: Node?, b: seq<Tree>, a0: seq<Node>,
                          b0: seq<Node>)
    reads Roots(done)`next, Roots(done)`prev, Roots(a), Roots(b)
  {
    && Merging(Roots(done), first, Roots(a), second, Roots(b)) && Told(a) && Told(b)
    && From(Roots(done), a0, b0) && From(Roots(a), a0, b0) && From(Roots(b), a0, b0)
  }

  /** One turn of the merging loop. */
  method Turn(tail: Node?, first: Node, second: Node, caseSensitive: bool, ghost done: seq<Tree>, ghost a: seq<Tree>,
              ghost b: seq<Tree>, ghost a0: seq<Node>, ghost b0: seq<Node>)
    returns (smaller: Node, first': Node?, second': Node?, ghost done': seq<Tree>, ghost a': seq<Tree>,
             ghost b': seq<Tree>)
    requires InMerge(done, first, a, second, b, a0, b0) && tail == Tail(Roots(done)) && a != [] && b != []
    modifies a0`next, a0`prev, b0`next, b0`prev
    ensures InMerge(done', first', a', second', b', a0, b0) && smaller == Tail(Roots(done'))
    ensures done' + Merged(a', b', caseSensitive) == done + Merged(a, b, caseSensitive)
    ensures done' != [] && Head(Roots(done')) == (if done == [] then smaller else Head(Roots(done)))
    ensures smaller == first || smaller == second
    ensures done == [] && smaller == first ==> first.prev == old(first.prev)
    ensures done == [] && smaller == second ==> second.prev == old(second.prev)
    ensures done != [] ==> done[0].node.prev == old(done[0].node.prev)
    ensures first' == Head(Roots(a')) && second' == Head(Roots(b')) && (first' != null || second' != null)
    ensures |a'| + |b'| < |a| + |b|
  {
    hide Chain, Path, Apart, KeyLess, Merged, Merging;
    MergingHeads(Roots(done), first, Roots(a), second, Roots(b));
    MergedStep(a, b, caseSensitive, done);
    if KeyLess(first.key, second.key, caseSensitive) {
      TakeTree(tail, first, done, a, second, b);
      smaller, first', second' := first, first.next, second;
      done', a', b' := done + [a[0]], a[1..], b;
    } else {
      Swap(Roots(done), first, Roots(a), second, Roots(b));
      TakeTree(tail, second, done, b, first, a);
      smaller, first', second' := second, first, second.next;
      done', a', b' := done + [b[0]], a, b[1..];
      Swap(Roots(done'), second', Roots(b'), first', Roots(a'));
    }
  }

  method MergeLists(first0: Node?, second0: Node?, caseSensitive: bool, ghost a0: seq<Tree>, ghost b0: seq<Tree>)
    returns (result: Node?)
    requires Chain(first0, Roots(a0)) && Chain(second0, Roots(b0)) && Apart(Roots(b0), Roots(a0)) && Told(a0)
    requires Told(b0)
    modifies Roots(a0)`next, Roots(a0)`prev, Roots(b0)`next, Roots(b0)`prev
    ensures Chain(result, Roots(Merged(a0, b0, caseSensitive)))
    ensures result != null ==> result.prev == old(result.prev)
  {
    hide Chain, Merged, InMerge, Told, Roots, Apart, Merging, From;
    var first, second, tail: Node? := first0, second0, null;
    ghost var done: seq<Tree>, a, b := [], a0, b0;
    result := null;
    StartMerging(first, a, second, b);
    assert first != null ==> first in Roots(a0);
    assert second != null ==> second in Roots(b0);
    assert [] + Merged(a, b, caseSensitive) == Merged(a0, b0, caseSensitive);
    while first != null && second != null
      invariant InMerge(done, first, a, second, b, Roots(a0), Roots(b0))
      invariant tail == Tail(Roots(done)) && result == Head(Roots(done))
      invariant first == Head(Roots(a)) && second == Head(Roots(b)) && (done == [] || first != null || second != null)
      invariant done + Merged(a, b, caseSensitive) == Merged(a0, b0, caseSensitive)
      invariant done == [] ==> first == first0 && second == second0 && unchanged(Roots(a0)`prev, Roots(b0)`prev)
      invariant result != null ==>
        (result in Roots(a0) || result in Roots(b0)) && result.prev == old(result.prev)
      decreases |a| + |b|
    {
      tail, first, second, done, a, b := Turn(tail, first, second, caseSensitive, done, a, b, Roots(a0), Roots(b0));
      if result == null {
        result := tail;
      }
    }
    MergeLeft(done, first, a, second, b, Roots(a0), Roots(b0));
    result := FinishMerge(first, second, tail, result, caseSensitive, done, a, b);
  }

  lemma MergeLeft(done: seq<Tree>, first: Node?, a: seq<Tree>, second: Node?, b: seq<Tree>, a0: seq<Node>,
                  b0: seq<Node>)
    requires InMerge(done, first, a, second, b, a0, b0)
    ensures Merging(Roots(done), first, Roots(a), second, Roots(b))
    ensures From(Roots(done), a0, b0) && From(Roots(a), a0, b0) && From(Roots(b), a0, b0)
  {
  }

  lemma StartMerging(first: Node?, a: seq<Tree>, second: Node?, b: seq<Tree>)
    requires Chain(first, Roots(a)) && Chain(second, Roots(b)) && Apart(Roots(b), Roots(a)) && Told(a) && Told(b)
    ensures InMerge([], first, a, second, b, Roots(a), Roots(b)) && first == Head(Roots(a)) && second == Head(Roots(b))
  {
  }

  lemma MergingHeads(done: seq<Node>, first: Node?, a: seq<Node>, second: Node?, b: seq<Node>)
    requires Merging(done, first, a, second, b)
    ensures first == Head(a) && second == Head(b)
  {
  }

  /** Appends what one of the lists has left. */
  method FinishMerge(first: Node?, second: Node?, tail: Node?, merged: Node?, caseSensitive: bool,
                     ghost done: seq<Tree>, ghost a: seq<Tree>, ghost b: seq<Tree>) returns (result: Node?)
    requires Merging(Roots(done), first, Roots(a), second, Roots(b)) && (first == null || second == null)
    requires tail == Tail(Roots(done)) && merged == Head(Roots(done))
    requires done == [] || first != null || second != null
    modifies Roots(done)`next, Roots(a)`prev, Roots(b)`prev
    ensures Chain(result, Roots(done + Merged(a, b, caseSensitive)))
    ensures result != null ==> result.prev == old(result.prev)
    ensures result != null ==> result == if done != [] then merged else if first != null then first else second
  {
    result := merged;
    MergingHeads(Roots(done), first, Roots(a), second, Roots(b));
    if first != null {
      assert Merged(a, b, caseSensitive) == a;
      assert Roots(done + a) == Roots(done) + Roots(a);
      if result == null {
        assert done + a == a;
        return first;
      }
      AppendRest(tail, first, Roots(done), Roots(a));
    }
    if second != null {
      assert Merged(a, b, caseSensitive) == b;
      assert Roots(done + b) == Roots(done) + Roots(b);
      if result == null {
        assert done + b == b;
        return second;
      }
      AppendRest(tail, second, Roots(done), Roots(b));
    }
    if first == null && second == null {
      assert done + Merged(a, b, caseSensitive) == done;
    }
  }

  // ----- The sort -----

  lemma HalvesApart(first: Node?, s: seq<Node>, half: nat)
    requires Chain(first, s) && half <= |s|
    ensures Apart(s[..half], s[half..]) && Apart(s[half..], s[..half]) && first == Head(s)
  {
  }

  lemma SameNodes(s: seq<Tree>, t: seq<Tree>)
    requires multiset(s) == multiset(t)
    ensures forall e :: e in Roots(s) <==> e in Roots(t)
    ensures forall i :: 0 <= i < |s| ==> s[i] in t
    ensures forall i :: 0 <= i < |s| ==> s[i].node in Roots(t)
  {
    SameRoots(s, t);
    SameRoots(t, s);
  }

  lemma SameRoots(s: seq<Tree>, t: seq<Tree>)
    requires multiset(s) == multiset(t)
    ensures forall i :: 0 <= i < |s| ==> s[i] in t && s[i].node in Roots(t)
    ensures forall e :: e in Roots(s) ==> e in Roots(t)
  {
    forall i | 0 <= i < |s| ensures s[i] in t && s[i].node in Roots(t) {
      assert s[i] in multiset(t);
      var j :| 0 <= j < |t| && t[j] == s[i];
      assert Roots(t)[j] == s[i].node;
    }
  }

  /** Where the first element's `prev` points after sorting: it is kept if the element stays first,
      and a new first element has none. */
  ghost predicate HeadKept(result: Node?, s: seq<Tree>, t: seq<Tree>, prev: Node?)
    reads Just(result)`prev
  {
    s != [] && t != [] && result != null ==> result.prev == if t[0] == s[0] then prev else null
  }

  /** Given correct links inside the list, it ends up linked in the sorted order. The first element's
      `prev` is not needed, and afterwards it is the old one or null. */
  method Sort(list: Node?, caseSensitive: bool, ghost s: seq<Tree>) returns (result: Node?)
    requires Chain(list, Roots(s)) && Told(s)
    modifies Roots(s)`next, Roots(s)`prev
    ensures Chain(result, Roots(Sorted(s, caseSensitive)))
    ensures multiset(Sorted(s, caseSensitive)) == multiset(s)
    ensures s != [] ==> HeadKept(result, s, Sorted(s, caseSensitive), old(s[0].node.prev))
    decreases |s|
  {
    hide KeyLess, Rising, Merged;
    SortedKeeps(s, caseSensitive);
    if list == null || list.next == null {
      return list;
    }
    assert |s| >= 2;
    var rising := IsRising(list, caseSensitive, s);
    if rising {
      return list;
    }
    result := SortHalves(list, caseSensitive, s);
  }

  method SortHalves(list: Node, caseSensitive: bool, ghost s: seq<Tree>) returns (result: Node?)
    requires Chain(list, Roots(s)) && Told(s) && |s| >= 2 && !Rising(s, caseSensitive)
    modifies Roots(s)`next, Roots(s)`prev
    ensures Chain(result, Roots(Sorted(s, caseSensitive)))
    ensures HeadKept(result, s, Sorted(s, caseSensitive), old(s[0].node.prev))
    decreases |s|, 1
  {
    hide Merged, KeyLess, HeadKept, Rising, Told, Roots, Chain, Apart, NoRepeats;
    ghost var half := (|s| + 1) / 2;
    ghost var a, b := s[..half], s[half..];
    SortedHalves(s, caseSensitive);
    hide Sorted;
    HalvesApart(list, Roots(s), half);
    var second := FindMiddle(list, Roots(s));
    if second != null {
      Split(second, Roots(s), half);
    }
    ToldHalves(s, half);
    result := SortBoth(list, second, caseSensitive, a, b, set e | e in Roots(s));
    SameHead(result, a, s, Sorted(s, caseSensitive), old(s[0].node.prev));
  }

  lemma ToldHalves(s: seq<Tree>, half: nat)
    requires Told(s) && half <= |s|
    ensures Told(s[..half]) && Told(s[half..])
    ensures Roots(s[..half]) == Roots(s)[..half] && Roots(s[half..]) == Roots(s)[half..]
    ensures half < |s| ==> Roots(s)[half] == s[half..][0].node
    ensures forall i :: 0 <= i < half ==> Roots(s[..half])[i] in Roots(s)
    ensures forall i :: 0 <= i < |s| - half ==> Roots(s[half..])[i] in Roots(s)
  {
    assert forall i :: 0 <= i < |s| ==> Roots(s)[i] in Roots(s);
  }

  lemma SortedHalves(s: seq<Tree>, caseSensitive: bool)
    requires |s| >= 2 && !Rising(s, caseSensitive)
    ensures var half := (|s| + 1) / 2;
      Sorted(s, caseSensitive)
        == Merged(Sorted(s[..half], caseSensitive), Sorted(s[half..], caseSensitive), caseSensitive)
  {
  }

  lemma SameHead(result: Node?, a: seq<Tree>, s: seq<Tree>, t: seq<Tree>, prev: Node?)
    requires a != [] && s != [] && a[0] == s[0] && HeadKept(result, a, t, prev)
    ensures HeadKept(result, s, t, prev)
  {
  }

  method SortBoth(list: Node?, list': Node?, caseSensitive: bool, ghost a: seq<Tree>, ghost b: seq<Tree>,
                  ghost nodes: set<Node>) returns (result: Node?)
    requires Chain(list, Roots(a)) && Chain(list', Roots(b)) && Told(a) && Told(b) && a != [] && b != []
    requires Apart(Roots(a), Roots(b)) && Apart(Roots(b), Roots(a)) && b[0].node.prev == null
    requires (forall i :: 0 <= i < |a| ==> Roots(a)[i] in nodes) && (forall i :: 0 <= i < |b| ==> Roots(b)[i] in nodes)
    modifies nodes`next, nodes`prev
    ensures Chain(result, Roots(Merged(Sorted(a, caseSensitive), Sorted(b, caseSensitive), caseSensitive)))
    ensures HeadKept(result, a, Merged(Sorted(a, caseSensitive), Sorted(b, caseSensitive), caseSensitive),
                     old(a[0].node.prev))
    decreases |a| + |b|, 0
  {
    hide Chain, Sorted, Merged, KeyLess, Told, Roots;
    ghost var x, y := Sorted(a, caseSensitive), Sorted(b, caseSensitive);
    var first := Sort(list, caseSensitive, a);
    SameNodes(x, a);
    assert forall e :: e in Roots(b) ==> e.next == old(e.next) && e.prev == old(e.prev);
    assert Chain(list', Roots(b));
    label L:
    var second := Sort(list', caseSensitive, b);
    SameNodes(y, b);
    assert forall e :: e in Roots(x) ==> e.next == old@L(e.next) && e.prev == old@L(e.prev);
    assert Chain(first, Roots(x));
    ghost var m := Merged(x, y, caseSensitive);
    MergedHead(x, y, caseSensitive);
    ChainHead(first, x);
    ChainHead(second, y);
    assert first.prev == (if x[0] == a[0] then old(a[0].node.prev) else null) && second.prev == null;
    assert y[0] != a[0] by { assert a[0].node in Roots(a) && y[0].node in Roots(b); }
    ToldPermuted(x, a);
    ToldPermuted(y, b);
    result := MergeLists(first, second, caseSensitive, x, y);
    ChainHead(result, m);
  }

  lemma ToldPermuted(t: seq<Tree>, s: seq<Tree>)
    requires multiset(t) == multiset(s) && Told(s)
    ensures Told(t)
  {
    SameRoots(t, s);
  }

  lemma MergedHead(a: seq<Tree>, b: seq<Tree>, caseSensitive: bool)
    requires a != [] && b != []
    ensures var m := Merged(a, b, caseSensitive); m != [] && (m[0] == a[0] || m[0] == b[0])
  {
  }

  lemma ChainHead(first: Node?, s: seq<Tree>)
    requires Chain(first, Roots(s)) && s != []
    ensures first == s[0].node
  {
  }

  // ----- Sorting the members of an object -----

  /** The sort leaves the first and the last element where they are. */
  predicate EndsStay(s: seq<Tree>, t: seq<Tree>) {
    |s| == |t| && (s != [] ==> t[0] == s[0] && t[|t| - 1] == s[|s| - 1])
  }

  /** sort_object: a permutation in non-decreasing key order. A well-formed child list stays
      well formed exactly when its first and its last element stay where they are, because the
      first element's `prev` is not tied to the new last one. */
  method SortObject(parent: Node, caseSensitive: bool, ghost s: seq<Tree>)
    requires Chain(parent.child, Roots(s)) && Told(s)
    modifies parent`child, Roots(s)`next, Roots(s)`prev
    ensures Chain(parent.child, Roots(Sorted(s, caseSensitive))) && multiset(Sorted(s, caseSensitive)) == multiset(s)
    ensures s != [] ==> HeadKept(parent.child, s, Sorted(s, caseSensitive), old(s[0].node.prev))
    ensures s != [] && old(s[0].node.prev) == s[|s| - 1].node ==>
      (Ring(parent.child, Roots(Sorted(s, caseSensitive))) <==> EndsStay(s, Sorted(s, caseSensitive)))
  {
    hide Sorted, Chain, Ring, HeadKept, EndsStay, Told;
    ghost var t := Sorted(s, caseSensitive);
    ghost var prev := if s == [] then null else s[0].node.prev;
    var list := Sort(parent.child, caseSensitive, s);
    if s != [] && prev == s[|s| - 1].node { RingAfterSort(list, s, t, prev); }
    parent.child := list;
  }

  lemma RingAfterSort(first: Node?, s: seq<Tree>, t: seq<Tree>, prev: Node?)
    requires Chain(first, Roots(t)) && multiset(s) == multiset(t) && s != []
    requires HeadKept(first, s, t, prev) && prev == s[|s| - 1].node
    ensures Ring(first, Roots(t)) <==> EndsStay(s, t)
  {
    hide Ring, Chain;
    SameSize(s, t);
    TreesApart(first, t, s);
    RingIsChain(first, Roots(t));
  }

  lemma SameSize(s: seq<Tree>, t: seq<Tree>)
    requires multiset(s) == multiset(t)
    ensures |s| == |t| && forall i :: 0 <= i < |s| ==> s[i] in t
  {
    assert |multiset(s)| == |s| && |multiset(t)| == |t|;
    SameRoots(s, t);
  }

  /** In a list without repeats a node stands for its tree. */
  lemma TreesApart(first: Node?, t: seq<Tree>, s: seq<Tree>)
    requires Chain(first, Roots(t)) && multiset(s) == multiset(t)
    ensures t != [] ==> first == t[0].node
    ensures forall i, j :: 0 <= i < j < |t| ==> t[i] != t[j]
    ensures forall i, j :: 0 <= i < |s| && 0 <= j < |t| && s[i].node == t[j].node ==> s[i] == t[j]
  {
    SameSize(s, t);
    assert forall i :: 0 <= i < |t| ==> Roots(t)[i] == t[i].node;
    forall i, j | 0 <= i < j < |t| ensures t[i] != t[j] { assert Roots(t)[i] != Roots(t)[j]; }
    forall i, j | 0 <= i < |s| && 0 <= j < |t| && s[i].node == t[j].node ensures s[i] == t[j] {
      var k :| 0 <= k < |t| && t[k] == s[i];
      assert Roots(t)[k] == Roots(t)[j];
    }
  }

  /** What appending to a sorted child list does: it works exactly when the ends stayed. If another
      element came first the item is dropped, and if only the last one moved the list is cut off
      behind the former last element. */
  method SortThenAppend(parent: Node, item: Node, caseSensitive: bool, ghost s: seq<Tree>)
    requires Ring(parent.child, Roots(s)) && Told(s)
    requires item !in Roots(s) && item != parent && item.next == null
    modifies parent`child, Roots(s)`next, Roots(s)`prev, item`next, item`prev
    ensures var t := Roots(Sorted(s, caseSensitive));
      && (s != [] && Sorted(s, caseSensitive)[0] != s[0] ==> Chain(parent.child, t))
      && (s != [] && Sorted(s, caseSensitive)[0] == s[0] ==>
            forall k :: 0 <= k < |t| && t[k] == s[|s| - 1].node ==> Ring(parent.child, t[..k + 1] + [item]))
      && (Ring(parent.child, t + [item]) <==> EndsStay(s, Sorted(s, caseSensitive)))
  {
    hide Sorted, Told, Chain, Ring, HeadKept;
    ghost var t := Sorted(s, caseSensitive);
    ghost var prev := if s == [] then null else s[|s| - 1].node;
    RingIsChain(parent.child, Roots(s));
    SortObject(parent, caseSensitive, s);
    SameSize(s, t);
    SameRoots(t, s);
    SameRoots(s, t);
    TreesApart(parent.child, t, s);
    if s != [] { HeadAfter(parent.child, s, t, prev); }
    assert s != [] ==> t[0].node.prev == null || t[0].node.prev in Roots(t);
    var ok := AddItemToArray(parent, item, Roots(t));
    if s != [] { AppendOutcome(parent.child, s, t, item); } else { assert Roots(t) + [item] == [item]; }
  }

  lemma AppendOutcome(first: Node?, s: seq<Tree>, t: seq<Tree>, item: Node)
    requires s != [] && multiset(s) == multiset(t) && |s| == |t| && item !in Roots(t)
    requires forall i, j :: 0 <= i < j < |t| ==> t[i] != t[j]
    requires t[0] != s[0] ==> Chain(first, Roots(t))
    requires t[0] == s[0] ==>
      forall k :: 0 <= k < |t| && Roots(t)[k] == s[|s| - 1].node ==> Ring(first, Roots(t)[..k + 1] + [item])
    ensures Ring(first, Roots(t) + [item]) <==> EndsStay(s, t)
  {
    hide Ring, Chain, Roots;
    if t[0] != s[0] {
      NotAppended(first, Roots(t), |t| - 1, item);
    } else {
      SameSize(s, t);
      assert s[|s| - 1] in t;
      var k :| 0 <= k < |t| && t[k] == s[|s| - 1];
      NotAppended(first, Roots(t), k, item);
      assert k == |t| - 1 ==> Roots(t)[..k + 1] + [item] == Roots(t) + [item];
    }
  }

  lemma HeadAfter(first: Node?, s: seq<Tree>, t: seq<Tree>, prev: Node?)
    requires HeadKept(first, s, t, prev) && s != [] && t != [] && first == t[0].node
    ensures first.prev == if t[0] == s[0] then prev else null
  {
  }

  lemma NotAppended(first: Node?, t: seq<Node>, k: nat, item: Node)
    requires k < |t| && item !in t
    ensures Chain(first, t) ==> !Ring(first, t + [item])
    ensures Ring(first, t[..k + 1] + [item]) && k + 1 < |t| ==> !Ring(first, t + [item])
  {
    var n := |t| - 1;
    assert (t + [item])[n] == t[n] && (t + [item])[n + 1] == item;
    var c := t[..k + 1] + [item];
    assert c[k] == t[k] && c[k + 1] == item;
    assert (t + [item])[k] == t[k];
    if k + 1 < |t| {
      assert NextIn(t + [item], k) == t[k + 1] && NextIn(c, k) == item;
    }
  }
}
