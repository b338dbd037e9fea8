/** JSON nodes in memory: child lists whose first element's `prev` is the last element, and the
    operations that relink them. */
module Nodes {
  import opened Bytes
  import opened Json

  /** `InvalidKind` is what removing the root of a document leaves. */
  datatype Kind =
    | InvalidKind
    | NullKind
    | BoolKind(b: bool)
    | NumberKind(n: int32)
    | StringKind(s: cstring)
    | ArrayKind
    | ObjectKind

  class Node {
    var next: Node?
    var prev: Node?
    var child: Node?
    var kind: Kind
    var key: Option<cstring>

    /** cJSON_New_Item, with its payload. */
    constructor (kind: Kind, key: Option<cstring>)
      ensures next == null && prev == null && child == null && this.kind == kind && this.key == key
    {
      next, prev, child, this.kind, this.key := null, null, null, kind, key;
    }
  }

  // ----- Child lists -----

  ghost function Just(n: Node?): set<Node> { if n == null then {} else {n} }

  function Head(s: seq<Node>): Node? { if s == [] then null else s[0] }

  function NextIn(s: seq<Node>, i: nat): Node?
    requires i < |s|
  {
    if i + 1 < |s| then s[i + 1] else null
  }

  function PrevIn(s: seq<Node>, i: nat): Node
    requires i < |s|
  {
    if i == 0 then s[|s| - 1] else s[i - 1]
  }

  ghost predicate NoRepeats(s: seq<Node>) {
    forall i, j :: 0 <= i < j < |s| ==> s[i] != s[j]
  }

  /** `s` is the child list of a node whose `child` is `first`: `next` ends in null, and `prev` goes
      back from the first element to the last. */
  ghost predicate Ring(first: Node?, s: seq<Node>)
    reads s`next, s`prev
  {
    && first == Head(s) && NoRepeats(s)
    && forall i :: 0 <= i < |s| ==> s[i].next == NextIn(s, i) && s[i].prev == PrevIn(s, i)
  }

  /** `s` is linked in both directions from `first` on; the first element's `prev` is free. */
  ghost predicate Chain(first: Node?, s: seq<Node>)
    reads s`next, s`prev
  {
    && first == Head(s) && NoRepeats(s)
    && (forall i :: 0 <= i < |s| ==> s[i].next == NextIn(s, i))
    && (forall i :: 0 < i < |s| ==> s[i].prev == s[i - 1])
  }

  lemma RingIsChain(first: Node?, s: seq<Node>)
    ensures Ring(first, s) <==> Chain(first, s) && (s != [] ==> s[0].prev == s[|s| - 1])
  {
  }

  lemma ChainFacts(first: Node?, s: seq<Node>)
    requires Chain(first, s)
    ensures first == Head(s) && NoRepeats(s)
  {
  }

  lemma RingFacts(first: Node?, s: seq<Node>)
    requires Ring(first, s)
    ensures first == Head(s) && NoRepeats(s)
  {
  }

  lemma RingNext(first: Node?, s: seq<Node>, k: nat)
    requires Ring(first, s) && k < |s|
    ensures s[k].next == NextIn(s, k)
  {
  }

  lemma RingOfOne(n: Node)
    requires n.prev == n && n.next == null
    ensures Ring(n, [n])
  {
  }

  /** add_item_to_array, for a list whose first element's `prev` is the last one, or another one, or
      null: the item goes where that `prev` points, and nowhere if it is null. */
  method AddItemToArray(parent: Node?, item: Node?, ghost s: seq<Node>) returns (ok: bool)
    requires parent != null && item != null && item != parent ==>
      Chain(parent.child, s) && item !in s && (s != [] ==> s[0].prev == null || s[0].prev in s)
    modifies Just(parent)`child, s`next, s`prev, Just(item)`next, Just(item)`prev
    ensures ok == (parent != null && item != null && parent != item)
    ensures !ok || (s != [] && old(s[0].prev) == null) ==>
      unchanged(Just(parent)`child, s`next, s`prev, Just(item)`next, Just(item)`prev)
    ensures ok ==> item.next == if s == [] then null else old(item.next)
    ensures ok && s == [] ==> Ring(parent.child, [item])
    ensures ok && old(item.next) == null ==>
      forall k :: 0 <= k < |s| && old(s[0].prev) == s[k] ==> Ring(parent.child, s[..k + 1] + [item])
  {
    hide Ring, Chain, NextIn, PrevIn;
    if item == null || parent == null || parent == item {
      return false;
    }
    ok := true;
    ChainFacts(parent.child, s);
    if parent.child == null {
      parent.child := item;
      item.prev := item;
      item.next := null;
      RingOfOne(item);
    } else if parent.child.prev != null {
      ghost var k :| 0 <= k < |s| && s[k] == parent.child.prev;
      Suffix(parent, item, s, k);
      forall j | 0 <= j < |s| && s[j] == s[k] ensures j == k {}
    }
  }

  method Suffix(parent: Node, item: Node, ghost s: seq<Node>, ghost k: nat)
    requires Chain(parent.child, s) && item !in s && k < |s| && s[0].prev == s[k]
    modifies s`next, s`prev, item`prev
    ensures item.next == null ==> Ring(parent.child, s[..k + 1] + [item])
  {
    hide Ring;
    var last := parent.child.prev;
    last.next := item;
    item.prev := last;
    parent.child.prev := item;
    if item.next == null {
      CutRing(parent.child, s, k, item);
    }
  }

  /** On a well-formed list an item that points nowhere is appended, and only such an item. */
  method AppendItem(parent: Node, item: Node, ghost s: seq<Node>)
    requires Ring(parent.child, s) && item !in s && item != parent
    modifies parent`child, s`next, s`prev, item`next, item`prev
    ensures item.next == if s == [] then null else old(item.next)
    ensures Ring(parent.child, s + [item]) <==> s == [] || old(item.next) == null
  {
    RingIsChain(parent.child, s);
    if s != [] {
      var n := |s| - 1;
      assert s[..n + 1] + [item] == s + [item];
      assert (s + [item])[n + 1] == item;
    }
    var ok := AddItemToArray(parent, item, s);
  }

  lemma CutRing(first: Node?, s: seq<Node>, k: nat, x: Node)
    requires k < |s| && NoRepeats(s) && x !in s && first == s[0]
    requires x.next == null && x.prev == s[k] && s[0].prev == x && s[k].next == x
    requires forall i :: 0 <= i < k ==> s[i].next == NextIn(s, i)
    requires forall i :: 0 < i <= k ==> s[i].prev == s[i - 1]
    ensures Ring(first, s[..k + 1] + [x])
  {
    var t := s[..k + 1] + [x];
    forall i | 0 <= i < |t| ensures t[i].next == NextIn(t, i) && t[i].prev == PrevIn(t, i) {
      assert i <= k ==> t[i] == s[i];
    }
  }

  /** get_array_item. */
  method GetArrayItem(parent: Node?, index: nat, ghost s: seq<Node>) returns (r: Node?)
    requires parent != null ==> Chain(parent.child, s)
    ensures r == if parent != null && index < |s| then s[index] else null
  {
    if parent == null {
      return null;
    }
    r := parent.child;
    var left := index;
    ghost var k := 0;
    while r != null && left > 0
      invariant 0 <= left && k <= |s| && k + left == index && r == if k < |s| then s[k] else null
    {
      left := left - 1;
      r := r.next;
      k := k + 1;
    }
  }

  /** What unlinking position `k` leaves in the other nodes. */
  ghost predicate Unlinked(first: Node?, s: seq<Node>, k: nat)
    requires k < |s|
    reads s`next, s`prev
  {
    && first == (if k > 0 then s[0] else NextIn(s, k))
    && (forall i :: 0 <= i < |s| && i != k ==> s[i].next == if i + 1 == k then NextIn(s, k) else NextIn(s, i))
    && (forall i :: 0 <= i < |s| && i != k ==>
         s[i].prev == if i == k + 1 || (i == 0 && k + 1 == |s|) then PrevIn(s, k) else PrevIn(s, i))
  }

  lemma UnlinkedLinks(first: Node?, s: seq<Node>, k: nat, i: nat)
    requires k < |s| && Unlinked(first, s, k) && i + 1 < |s|
    ensures var t := RemoveAt(s, k); t[i].next == NextIn(t, i) && t[i].prev == PrevIn(t, i)
  {
    var j := if i < k then i else i + 1;
    assert RemoveAt(s, k)[i] == s[j];
  }

  lemma UnlinkedHead(first: Node?, s: seq<Node>, k: nat)
    requires k < |s| && Unlinked(first, s, k)
    ensures first == Head(RemoveAt(s, k))
  {
  }

  lemma UnlinkedRing(first: Node?, s: seq<Node>, k: nat)
    requires k < |s| && NoRepeats(s) && Unlinked(first, s, k)
    ensures Ring(first, RemoveAt(s, k))
  {
    hide NextIn, PrevIn, Unlinked;
    var t := RemoveAt(s, k);
    forall i | 0 <= i < |t| ensures t[i].next == NextIn(t, i) && t[i].prev == PrevIn(t, i) {
      UnlinkedLinks(first, s, k, i);
    }
    UnlinkedHead(first, s, k);
  }

  /** cJSON_DetachItemViaPointer. */
  method DetachItemViaPointer(parent: Node?, item: Node?, ghost s: seq<Node>, ghost k: nat) returns (r: Node?)
    requires parent != null && item != null ==> Ring(parent.child, s) && k < |s| && s[k] == item
    modifies Just(parent)`child, s`next, s`prev
    ensures parent == null || item == null ==>
      r == null && unchanged(s`next) && unchanged(s`prev) && unchanged(Just(parent)`child)
    ensures parent != null && item != null ==> r == item && item.next == null && item.prev == null
    ensures parent != null && item != null ==> Ring(parent.child, RemoveAt(s, k))
  {
    if parent == null || item == null {
      return null;
    }
    Unlink(parent, item, s, k);
    r := item;
  }

  /** Makes the neighbours of `item` point past it. */
  method Bypass(parent: Node, item: Node, ghost s: seq<Node>, ghost k: nat)
    requires Ring(parent.child, s) && k < |s| && s[k] == item
    modifies s`next, s`prev
    ensures forall i :: 0 <= i < |s| ==> s[i].next == if i + 1 == k then NextIn(s, k) else NextIn(s, i)
    ensures forall i :: 0 <= i < |s| ==> s[i].prev == if i == k + 1 then PrevIn(s, k) else PrevIn(s, i)
  {
    if item != parent.child {
      item.prev.next := item.next;
    }
    if item.next != null {
      item.next.prev := item.prev;
    }
  }

  /** Moves the parent's end of the list on and makes `item` point nowhere. */
  method Release(parent: Node, item: Node, ghost s: seq<Node>, ghost k: nat)
    requires k < |s| && s[k] == item && NoRepeats(s) && parent.child == s[0]
    requires forall i :: 0 <= i < |s| ==> s[i].next == if i + 1 == k then NextIn(s, k) else NextIn(s, i)
    requires forall i :: 0 <= i < |s| ==> s[i].prev == if i == k + 1 then PrevIn(s, k) else PrevIn(s, i)
    modifies parent`child, s`next, s`prev
    ensures Unlinked(parent.child, s, k) && item.next == null && item.prev == null
  {
    if item == parent.child {
      parent.child := item.next;
    } else if item.next == null {
      parent.child.prev := item.prev;
    }
    item.prev := null;
    item.next := null;
  }

  method Unlink(parent: Node, item: Node, ghost s: seq<Node>, ghost k: nat)
    requires Ring(parent.child, s) && k < |s| && s[k] == item
    modifies parent`child, s`next, s`prev
    ensures Ring(parent.child, RemoveAt(s, k)) && item.next == null && item.prev == null
  {
    hide Ring, NextIn, PrevIn, Unlinked;
    RingFacts(parent.child, s);
    Bypass(parent, item, s, k);
    Release(parent, item, s, k);
    UnlinkedRing(parent.child, s, k);
  }

  /** cJSON_DetachItemFromArray. */
  method DetachItemFromArray(parent: Node?, which: int, ghost s: seq<Node>) returns (r: Node?)
    requires parent != null ==> Ring(parent.child, s)
    modifies Just(parent)`child, s`next, s`prev
    ensures r == if parent != null && 0 <= which < |s| then s[which] else null
    ensures r != null ==> r.next == null && r.prev == null && Ring(parent.child, RemoveAt(s, which))
    ensures r == null && parent != null ==> Ring(parent.child, s)
  {
    if which < 0 {
      return null;
    }
    var item := GetArrayItem(parent, which, s);
    r := DetachItemViaPointer(parent, item, s, which);
  }

  function InsertAt<T>(s: seq<T>, k: nat, x: T): (r: seq<T>)
    requires k <= |s|
    ensures |r| == |s| + 1 && r[k] == x
    ensures forall i :: 0 <= i < k ==> r[i] == s[i]
    ensures forall i :: k < i < |r| ==> r[i] == s[i - 1]
  {
    s[..k] + [x] + s[k..]
  }

  /** What linking `x` in before position `k` leaves. */
  ghost predicate Spliced(first: Node?, s: seq<Node>, k: nat, x: Node)
    requires k < |s|
    reads s`next, s`prev, x`next, x`prev
  {
    && first == (if k == 0 then x else s[0]) && x.next == s[k] && x.prev == PrevIn(s, k)
    && (forall i :: 0 <= i < |s| ==> s[i].next == if i + 1 == k then x else NextIn(s, i))
    && (forall i :: 0 <= i < |s| ==> s[i].prev == if i == k then x else PrevIn(s, i))
  }

  lemma SplicedRing(first: Node?, s: seq<Node>, k: nat, x: Node)
    requires k < |s| && NoRepeats(s) && x !in s && Spliced(first, s, k, x)
    ensures Ring(first, InsertAt(s, k, x))
  {
    var t := InsertAt(s, k, x);
    forall i | 0 <= i < |t| ensures t[i].next == NextIn(t, i) {
      assert i < k ==> t[i] == s[i];
      assert i > k ==> t[i] == s[i - 1];
    }
    forall i | 0 <= i < |t| ensures t[i].prev == PrevIn(t, i) {
      assert i < k ==> t[i] == s[i];
      assert i > k ==> t[i] == s[i - 1];
    }
    InsertNoRepeats(s, k, x);
  }

  lemma InsertNoRepeats(s: seq<Node>, k: nat, x: Node)
    requires k <= |s| && NoRepeats(s) && x !in s
    ensures NoRepeats(InsertAt(s, k, x))
  {
  }

  /** cJSON_InsertItemInArray. */
  method InsertItemInArray(parent: Node?, which: int, item: Node, ghost s: seq<Node>) returns (ok: bool)
    requires parent != null ==> Ring(parent.child, s)
    requires parent != null && item != parent ==> item !in s
    requires parent == item ==> which >= |s|
    modifies Just(parent)`child, s`next, s`prev, item`next, item`prev
    ensures ok == (which >= 0 && parent != null && parent != item)
    ensures ok && (which < |s| || s == [] || old(item.next) == null) ==>
      Ring(parent.child, InsertAt(s, if which < |s| then which else |s|, item))
    ensures ok && which >= |s| && s != [] ==> item.next == old(item.next)
    ensures !ok ==> item.next == old(item.next) && (parent != null ==> Ring(parent.child, s))
  {
    if which < 0 {
      return false;
    }
    var after := GetArrayItem(parent, which, s);
    if after == null {
      if parent != null && s != [] {
        RingIsChain(parent.child, s);
        assert s[..|s| - 1 + 1] + [item] == InsertAt(s, |s|, item);
      }
      ok := AddItemToArray(parent, item, s);
    } else {
      InsertBefore(parent, after, item, s, which);
      ok := true;
    }
  }

  /** Makes `item` and the element after it point at each other. */
  method Precede(after: Node, item: Node, ghost s: seq<Node>, ghost k: nat)
    requires Ring(Head(s), s) && k < |s| && s[k] == after && item !in s
    modifies after`prev, item`next, item`prev
    ensures item.next == after && item.prev == PrevIn(s, k)
    ensures forall i :: 0 <= i < |s| ==> s[i].next == NextIn(s, i)
    ensures forall i :: 0 <= i < |s| ==> s[i].prev == if i == k then item else PrevIn(s, i)
  {
    item.next := after;
    item.prev := after.prev;
    after.prev := item;
  }

  lemma SplicedFirst(s: seq<Node>, x: Node)
    requires s != [] && x.next == s[0] && x.prev == PrevIn(s, 0)
    requires forall i :: 0 <= i < |s| ==> s[i].next == NextIn(s, i)
    requires forall i :: 0 <= i < |s| ==> s[i].prev == if i == 0 then x else PrevIn(s, i)
    ensures Spliced(x, s, 0, x)
  {
  }

  lemma SplicedLater(s: seq<Node>, k: nat, x: Node)
    requires 0 < k < |s| && x.next == s[k] && x.prev == s[k - 1] && s[k - 1].next == x
    requires forall i :: 0 <= i < |s| && i + 1 != k ==> s[i].next == NextIn(s, i)
    requires forall i :: 0 <= i < |s| ==> s[i].prev == if i == k then x else PrevIn(s, i)
    ensures Spliced(s[0], s, k, x)
  {
  }

  method Splice(parent: Node, after: Node, item: Node, ghost s: seq<Node>, ghost k: nat)
    requires Ring(parent.child, s) && k < |s| && s[k] == after && item !in s
    modifies parent`child, s`next, s`prev, item`next, item`prev
    ensures Spliced(parent.child, s, k, item)
  {
    hide Ring, NextIn, Spliced;
    RingFacts(parent.child, s);
    Precede(after, item, s, k);
    if after == parent.child {
      parent.child := item;
      SplicedFirst(s, item);
    } else {
      item.prev.next := item;
      SplicedLater(s, k, item);
    }
  }

  method InsertBefore(parent: Node, after: Node, item: Node, ghost s: seq<Node>, ghost k: nat)
    requires Ring(parent.child, s) && k < |s| && s[k] == after && item !in s
    modifies parent`child, s`next, s`prev, item`next, item`prev
    ensures Ring(parent.child, InsertAt(s, k, item))
  {
    hide Spliced;
    Splice(parent, after, item, s, k);
    SplicedRing(parent.child, s, k, item);
  }

  lemma InsertLast(s: seq<Node>, x: Node)
    ensures InsertAt(s, |s|, x) == s + [x]
  {
  }

  /** insert_item_in_array: like the public operation, but past the end it refuses. */
  method InsertInArray(parent: Node, which: nat, item: Node, ghost s: seq<Node>) returns (ok: bool)
    requires Ring(parent.child, s) && item !in s && item != parent
    modifies parent`child, s`next, s`prev, item`next, item`prev
    ensures ok == (which <= |s|)
    ensures !ok ==> Ring(parent.child, s) && item.next == old(item.next)
    ensures ok && (which < |s| || s == [] || old(item.next) == null) ==> Ring(parent.child, InsertAt(s, which, item))
    ensures ok && which == |s| && s != [] ==> item.next == old(item.next)
  {
    hide Ring, InsertAt;
    RingFacts(parent.child, s);
    var child := parent.child;
    var left := which;
    ghost var k: nat := 0;
    while child != null && left > 0
      invariant 0 <= left && k <= |s| && k + left == which && child == if k < |s| then s[k] else null
      invariant Ring(parent.child, s) && item.next == old(item.next)
    {
      RingNext(parent.child, s, k);
      child := child.next;
      left := left - 1;
      k := k + 1;
    }
    ok := left == 0;
    if ok {
      if child == null {
        InsertLast(s, item);
        AppendItem(parent, item, s);
      } else {
        InsertBefore(parent, child, item, s, k);
      }
    }
  }

  /** What putting `x` in the place of position `k` leaves. */
  ghost predicate Replaced(first: Node?, s: seq<Node>, k: nat, x: Node)
    requires k < |s|
    reads s`next, s`prev, x`next, x`prev
  {
    && first == (if k == 0 then x else s[0])
    && x.next == NextIn(s, k) && x.prev == (if |s| == 1 then x else PrevIn(s, k))
    && (forall i :: 0 <= i < |s| && i != k ==> s[i].next == if i + 1 == k then x else NextIn(s, i))
    && (forall i :: 0 <= i < |s| && i != k ==>
          s[i].prev == if i == k + 1 || (i == 0 && k + 1 == |s|) then x else PrevIn(s, i))
  }

  lemma ReplacedLinks(first: Node?, s: seq<Node>, k: nat, x: Node, i: nat)
    requires k < |s| && Replaced(first, s, k, x) && i < |s|
    ensures var t := s[k := x]; t[i].next == NextIn(t, i) && t[i].prev == PrevIn(t, i)
  {
    assert i != k ==> s[k := x][i] == s[i];
  }

  lemma ReplacedHead(first: Node?, s: seq<Node>, k: nat, x: Node)
    requires k < |s| && Replaced(first, s, k, x)
    ensures first == Head(s[k := x])
  {
  }

  lemma ReplacedRing(first: Node?, s: seq<Node>, k: nat, x: Node)
    requires k < |s| && NoRepeats(s) && x !in s && Replaced(first, s, k, x)
    ensures Ring(first, s[k := x])
  {
    var t := s[k := x];
    hide NextIn, PrevIn, Replaced;
    forall i | 0 <= i < |t| ensures t[i].next == NextIn(t, i) && t[i].prev == PrevIn(t, i) {
      ReplacedLinks(first, s, k, x, i);
    }
    ReplacedHead(first, s, k, x);
  }

  /** cJSON_ReplaceItemViaPointer. */
  method ReplaceItemViaPointer(parent: Node?, item: Node?, replacement: Node?, ghost s: seq<Node>, ghost k: nat)
    returns (ok: bool)
    requires parent != null && item != null ==> Ring(parent.child, s) && k < |s| && s[k] == item
    requires replacement != null ==> replacement !in s || replacement == item
    modifies Just(parent)`child, s`next, s`prev, Just(replacement)`next, Just(replacement)`prev
    ensures ok == (parent != null && replacement != null && item != null)
    ensures ok ==> Ring(parent.child, s[k := replacement])
    ensures !ok && parent != null && item != null ==> Ring(parent.child, s)
  {
    if parent == null || replacement == null || item == null {
      return false;
    }
    if replacement == item {
      assert s[k := replacement] == s;
      return true;
    }
    Relink(parent, item, replacement, s, k);
    ok := true;
  }

  /** Gives `replacement` the links of `item`, and its successor a link back. */
  method TakePlace(item: Node, replacement: Node, ghost s: seq<Node>, ghost k: nat)
    requires Ring(Head(s), s) && k < |s| && s[k] == item && replacement !in s
    modifies s`prev, replacement`next, replacement`prev
    ensures replacement.next == NextIn(s, k) && replacement.prev == PrevIn(s, k)
    ensures forall i :: 0 <= i < |s| ==> s[i].next == NextIn(s, i)
    ensures forall i :: 0 <= i < |s| ==> s[i].prev == if i == k + 1 then replacement else PrevIn(s, i)
  {
    replacement.next := item.next;
    replacement.prev := item.prev;
    if replacement.next != null {
      replacement.next.prev := replacement;
    }
  }

  method Relink(parent: Node, item: Node, replacement: Node, ghost s: seq<Node>, ghost k: nat)
    requires Ring(parent.child, s) && k < |s| && s[k] == item && replacement !in s
    modifies parent`child, s`next, s`prev, replacement`next, replacement`prev
    ensures Ring(parent.child, s[k := replacement])
  {
    assert k == 0 <==> s[k] == s[0];
    TakePlace(item, replacement, s, k);
    hide Replaced;
    if parent.child == item {
      RelinkFirst(parent, item, replacement, s);
    } else {
      RelinkLater(parent, item, replacement, s, k);
    }
    ReplacedRing(parent.child, s, k, replacement);
  }

  /** The rest of the relinking when `item` is not the first element. */
  method RelinkFirst(parent: Node, item: Node, replacement: Node, ghost s: seq<Node>)
    requires s != [] && s[0] == item && replacement !in s && NoRepeats(s) && parent.child == s[0]
    requires replacement.next == NextIn(s, 0) && replacement.prev == PrevIn(s, 0)
    requires forall i :: 0 <= i < |s| ==> s[i].next == NextIn(s, i)
    requires forall i :: 0 <= i < |s| ==> s[i].prev == if i == 1 then replacement else PrevIn(s, i)
    modifies parent`child, s`next, s`prev, replacement`prev
    ensures Replaced(parent.child, s, 0, replacement)
  {
    if parent.child.prev == parent.child {
      replacement.prev := replacement;
    }
    parent.child := replacement;
    item.next := null;
    item.prev := null;
  }

  method RelinkLater(parent: Node, item: Node, replacement: Node, ghost s: seq<Node>, ghost k: nat)
    requires 0 < k < |s| && s[k] == item && replacement !in s && NoRepeats(s) && parent.child == s[0]
    requires replacement.next == NextIn(s, k) && replacement.prev == PrevIn(s, k)
    requires forall i :: 0 <= i < |s| ==> s[i].next == NextIn(s, i)
    requires forall i :: 0 <= i < |s| ==> s[i].prev == if i == k + 1 then replacement else PrevIn(s, i)
    modifies s`next, s`prev
    ensures Replaced(parent.child, s, k, replacement)
  {
    if replacement.prev != null {
      replacement.prev.next := replacement;
    }
    if replacement.next == null {
      parent.child.prev := replacement;
    }
    item.next := null;
    item.prev := null;
  }
}
