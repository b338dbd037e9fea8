/** The allocation tracer: a list of live blocks and a list of the latest freed ones, each behind a
    head entry that counts. */
module MemTrace {

  const FREED_MAX: nat := 200

  /** A traced block; the pointer a caller holds is identified with its entry. */
  class Entry {
    var next: Entry?
    var file: string
    var func: string
    var lineno: int
    var size: nat
    var count: int

    constructor (file: string, func: string)
      ensures next == null && this.file == file && this.func == func && lineno == 0 && size == 0 && count == 0
    {
      next, this.file, this.func, lineno, size, count := null, file, func, 0, 0, 0;
    }
  }

  /** The node before position `i` of the list. */
  function Before(head: Entry, s: seq<Entry>, i: nat): Entry
    requires i <= |s|
  {
    if i == 0 then head else s[i - 1]
  }

  ghost predicate Linked(head: Entry, s: seq<Entry>)
    reads head`next, s`next
  {
    && (forall i {:trigger s[i]} :: 0 <= i < |s| ==> Before(head, s, i).next == s[i])
    && Before(head, s, |s|).next == null
  }

  lemma NextAt(head: Entry, s: seq<Entry>, k: nat)
    requires Linked(head, s) && k <= |s|
    ensures Before(head, s, k).next == if k < |s| then s[k] else null
  {
  }

  function Without(s: seq<Entry>, k: nat): seq<Entry>
    requires k < |s|
  {
    s[..k] + s[k + 1..]
  }

  ghost function Total(s: seq<Entry>): nat
    reads s`size
    decreases |s|
  {
    if s == [] then 0 else s[0].size + Total(s[1..])
  }

  ghost predicate Distinct(s: seq<Entry>) {
    forall i, j :: 0 <= i < j < |s| ==> s[i] != s[j]
  }

  /** Two lists that share nothing, with heads of their own. */
  ghost predicate Apart(head: Entry, s: seq<Entry>, head': Entry, s': seq<Entry>) {
    && head != head' && head !in s && head !in s' && head' !in s && head' !in s'
    && Distinct(s) && Distinct(s') && (forall e :: e in s ==> e !in s')
  }

  lemma ApartPush(head: Entry, s: seq<Entry>, head': Entry, s': seq<Entry>, e: Entry)
    requires Apart(head, s, head', s') && e != head && e != head' && e !in s && e !in s'
    ensures Apart(head, [e] + s, head', s') && Apart(head, s, head', [e] + s')
  {
  }

  lemma ApartHeads(head: Entry, s: seq<Entry>, head': Entry, s': seq<Entry>)
    requires Apart(head, s, head', s')
    ensures head != head' && head !in s && head' !in s && head !in s' && head' !in s'
    ensures Distinct(s) && Distinct(s') && forall e :: e in s ==> e !in s'
  {
  }

  lemma ApartRemove(head: Entry, s: seq<Entry>, head': Entry, s': seq<Entry>, k: nat)
    requires Apart(head, s, head', s') && k < |s|
    ensures Apart(head, Without(s, k), head', s') && |Without(s, k)| == |s| - 1
    ensures s[k] !in Without(s, k) && s[k] !in s' && s[k] != head && s[k] != head'
  {
    var t := s[..k] + s[k + 1..];
    forall i | 0 <= i < |t| ensures t[i] == s[if i < k then i else i + 1] {}
  }

  lemma ApartKept(head: Entry, s: seq<Entry>, head': Entry, s': seq<Entry>)
    requires Apart(head, s, head', s')
    ensures Apart(head, s, head', Kept(s'))
  {
  }

  lemma {:induction false} TotalRemove(s: seq<Entry>, k: nat)
    requires k < |s|
    ensures Total(s) == s[k].size + Total(Without(s, k))
  {
    if k == 0 {
      assert s[..0] + s[1..] == s[1..];
    } else {
      TotalRemove(s[1..], k - 1);
      var rest := s[..k] + s[k + 1..];
      assert rest[1..] == s[1..][..k - 1] + s[1..][k..];
    }
  }

  lemma KeptPush(e: Entry, history: seq<Entry>)
    ensures Kept([e] + Kept(history)) == Kept([e] + history) && |Kept(history)| <= FREED_MAX
  {
  }

  /** Links `e` in front of the list. */
  method Push(head: Entry, e: Entry, ghost s: seq<Entry>)
    requires Linked(head, s) && head !in s && e !in s && e != head
    modifies head`next, e`next
    ensures Linked(head, [e] + s)
  {
    e.next := head.next;
    head.next := e;
    ghost var t := [e] + s;
    forall i | 0 <= i < |t| ensures Before(head, t, i).next == t[i] {
      if i > 1 { assert Before(head, t, i) == Before(head, s, i - 1) && t[i] == s[i - 1]; }
    }
    assert Before(head, t, |t|) == if s == [] then e else Before(head, s, |s|);
  }

  /** Unlinks position `k` of the list, reached through the node before it. */
  method Unlink(head: Entry, at: Entry, ghost s: seq<Entry>, ghost k: nat) returns (e: Entry)
    requires Linked(head, s) && head !in s && Distinct(s) && k < |s| && at == Before(head, s, k)
    modifies at`next
    ensures e == s[k] && Linked(head, Without(s, k)) && e.next == old(e.next)
  {
    assert at.next == s[k];
    e := at.next;
    at.next := e.next;
    ghost var t := s[..k] + s[k + 1..];
    forall i | 0 <= i < |t| ensures Before(head, t, i).next == t[i] {
      if i < k {
        assert Before(head, t, i) == Before(head, s, i) && t[i] == s[i];
      } else {
        assert t[i] == s[i + 1] && Before(head, s, i + 1).next == s[i + 1];
        assert i > k ==> Before(head, t, i) == Before(head, s, i + 1);
      }
    }
    assert |t| > k ==> Before(head, t, |t|) == Before(head, s, |s|);
  }

  /** Walks from the first entry to the last but one. */
  method LastButOne(head: Entry, first: Entry, ghost s: seq<Entry>) returns (at: Entry)
    requires Linked(head, s) && |s| >= 2 && first == s[0]
    ensures at == s[|s| - 2]
  {
    at := first;
    ghost var k := 1;
    ghost var n := |s| - 1;
    NextAt(head, s, 1);
    NextAt(head, s, 2);
    while at.next.next != null
      invariant 1 <= k <= n && at == Before(head, s, k) && at.next == s[k]
      invariant at.next.next == if k < n then s[k + 1] else null
      decreases n - k
    {
      at := at.next;
      k := k + 1;
      NextAt(head, s, k + 1);
    }
  }

  /** Cuts off the last entry. */
  method DropLast(head: Entry, first: Entry, ghost s: seq<Entry>)
    requires Linked(head, s) && head !in s && Distinct(s) && |s| >= 2 && first == s[0]
    modifies s`next
    ensures Linked(head, s[..|s| - 1])
  {
    ghost var n := |s| - 1;
    var at := LastButOne(head, first, s);
    at.next := null;
    ghost var t := s[..n];
    forall i | 0 <= i < |t| ensures Before(head, t, i).next == t[i] {
      assert Before(head, t, i) == Before(head, s, i) && t[i] == s[i];
    }
  }

  /** A list that holds at most FREED_MAX entries, the newest first. */
  function Kept(s: seq<Entry>): seq<Entry> { if |s| <= FREED_MAX then s else s[..FREED_MAX] }

  /** prv_trace_add_free_list. */
  method AddFreeList(head: Entry, remove: Entry, file: string, func: string, lineno: int, ghost s: seq<Entry>)
    requires Linked(head, s) && head !in s && Distinct(s) && remove !in s && remove != head
    requires head.count == |s| <= FREED_MAX
    modifies head`next, head`count, s`next, remove`next, remove`file, remove`func, remove`lineno
    ensures Linked(head, Kept([remove] + s)) && head.count == |Kept([remove] + s)|
    ensures remove.file == file && remove.func == func && remove.lineno == lineno
  {
    hide Linked;
    ghost var t := [remove] + s;
    Push(head, remove, s);
    remove.file := file;
    remove.func := func;
    remove.lineno := lineno;
    if head.count < FREED_MAX {
      head.count := head.count + 1;
    } else {
      NextAt(head, t, 1);
      if remove.next != null {
        DropLast(head, remove, t);
      }
    }
  }

  datatype Report = Silent | NotMalloced | AlreadyFreed(file: string, func: string, lineno: int)

  class Tracer {
    const mallocList: Entry
    const freeList: Entry
    var counter: int
    ghost var live: seq<Entry>
    ghost var freed: seq<Entry>
    ghost var history: seq<Entry>   // every block ever freed, newest first

    ghost function Repr(): set<Entry>
      reads this
    {
      {mallocList, freeList} + (set e | e in live) + (set e | e in freed)
    }

    ghost predicate Outside(e: Entry)
      reads this
    {
      e !in live && e !in freed && e != mallocList && e != freeList
    }

    /** Both lists are linked, share nothing, and their heads count them. */
    ghost predicate Valid()
      reads this, Repr()
    {
      && Apart(mallocList, live, freeList, freed)
      && Linked(mallocList, live) && Linked(freeList, freed)
      && mallocList.count == |live| && mallocList.size == Total(live)
      && freeList.count == |freed| && freed == Kept(history)
    }

    constructor ()
      ensures Valid() && fresh(Repr()) && live == [] && history == []
    {
      mallocList := new Entry("head", "malloc");
      freeList := new Entry("head", "free");
      counter := 0;
      live, freed, history := [], [], [];
    }

    /** prv_memory_find_previous. */
    static method FindPrevious(list: Entry, memory: Entry, ghost s: seq<Entry>) returns (r: Entry?, ghost k: nat)
      requires Linked(list, s)
      ensures r == null <==> memory !in s
      ensures r != null ==> k < |s| && s[k] == memory && r == Before(list, s, k)
    {
      var at := list;
      k := 0;
      while at.next != null
        invariant k <= |s| && at == Before(list, s, k) && memory !in s[..k]
        decreases |s| - k
      {
        NextAt(list, s, k);
        if at.next == memory {
          return at, k;
        }
        assert s[..k + 1] == s[..k] + [s[k]];
        at := at.next;
        k := k + 1;
      }
      NextAt(list, s, k);
      assert s[..k] == s;
      r := null;
    }

    method Malloc(size: nat, file: string, func: string, lineno: int) returns (entry: Entry)
      requires Valid()
      modifies this, mallocList
      ensures Valid() && fresh(entry)
      ensures live == [entry] + old(live) && freed == old(freed) && history == old(history)
      ensures entry.file == file && entry.func == func && entry.lineno == lineno && entry.size == size
      ensures counter == old(counter) + 1 && entry.count == counter
    {
      hide Apart, Linked, Distinct, Kept;
      entry := new Entry(file, func);
      ApartHeads(mallocList, live, freeList, freed);
      ApartPush(mallocList, live, freeList, freed, entry);
      Push(mallocList, entry, live);
      mallocList.count := mallocList.count + 1;
      mallocList.size := mallocList.size + size;
      mallocList.lineno := 1;
      entry.lineno := lineno;
      entry.size := size;
      counter := counter + 1;
      entry.count := counter;
      ghost var before := live;
      live := [entry] + live;
      assert live[1..] == before;
    }

    method Free(mem: Entry?, file: string, func: string, lineno: int) returns (report: Report, ghost k: nat)
      requires Valid()
      modifies this`live, this`freed, this`history, Repr()
      ensures Valid() && counter == old(counter)
      ensures mem != null && mem in old(live) ==> k < |old(live)| && old(live)[k] == mem
      ensures mem != null && mem in old(live) ==>
        && live == Without(old(live), k) && history == [mem] + old(history)
        && mem.file == file && mem.func == func && mem.lineno == lineno && mem.size == old(mem.size) && report == Silent
      ensures mem == null || mem !in old(live) ==>
        && live == old(live) && freed == old(freed) && history == old(history)
        && report == if mem == null then Silent
                     else if mem in freed then AlreadyFreed(mem.file, mem.func, mem.lineno)
                     else NotMalloced
    {
      hide Apart, Linked, Distinct, Kept, Total, Without;
      report := Silent;
      k := 0;
      if mem != null {
        var entry: Entry?;
        entry, k := FindPrevious(mallocList, mem, live);
        if entry != null {
          var remove := TakeOff(entry, k);
          PutFreed(remove, file, func, lineno);
        } else {
          report := NotMalloced;
          ghost var j;
          entry, j := FindPrevious(freeList, mem, freed);
          if entry != null {
            NextAt(freeList, freed, j);
            entry := entry.next;
            report := AlreadyFreed(entry.file, entry.func, entry.lineno);
          }
        }
      }
    }

    /** Takes the entry after `entry` off the live list. */
    method TakeOff(entry: Entry, ghost k: nat) returns (remove: Entry)
      requires Valid() && k < |live| && entry == Before(mallocList, live, k)
      modifies this`live, mallocList`next, mallocList`count, mallocList`size, mallocList`lineno, live`next
      ensures Valid() && remove == old(live)[k] && Outside(remove)
      ensures live == Without(old(live), k)
    {
      hide Apart, Linked, Distinct, Kept, Total, Without;
      ghost var rest := Without(live, k);
      ApartHeads(mallocList, live, freeList, freed);
      ApartRemove(mallocList, live, freeList, freed, k);
      ApartHeads(mallocList, rest, freeList, freed);
      TotalRemove(live, k);
      assert entry == mallocList || entry in live;
      assert entry != freeList && entry !in freed;
      ghost var total := Total(rest);
      remove := Unlink(mallocList, entry, live, k);
      assert Total(rest) == total;
      mallocList.count := mallocList.count - 1;
      mallocList.size := mallocList.size - remove.size;
      mallocList.lineno := 1;
      assert Total(rest) == total;
      assert Linked(freeList, freed) && Linked(mallocList, rest);
      live := rest;
    }

    /** Puts a block that is on neither list in front of the freed ones. */
    method PutFreed(remove: Entry, file: string, func: string, lineno: int)
      requires Valid() && Outside(remove)
      modifies this`freed, this`history, freeList`next, freeList`count, freed`next
      modifies remove`next, remove`file, remove`func, remove`lineno
      ensures Valid() && history == [remove] + old(history)
      ensures remove.file == file && remove.func == func && remove.lineno == lineno
    {
      hide Apart, Linked, Distinct, Kept, Total;
      ApartHeads(mallocList, live, freeList, freed);
      ApartPush(mallocList, live, freeList, freed, remove);
      ApartKept(mallocList, live, freeList, [remove] + freed);
      KeptPush(remove, history);
      label L:
      AddFreeList(freeList, remove, file, func, lineno, freed);
      forall e | e in live ensures e.next == old@L(e.next) {
        assert e !in freed && e != remove && e != freeList;
      }
      assert Linked(mallocList, live);
      freed, history := Kept([remove] + freed), [remove] + history;
    }

    /** The walk in trace_print: neither mismatch report can fire. */
    method SelfCheck() returns (entriesDiffer: bool, totalDiffers: bool)
      requires Valid()
      ensures !entriesDiffer && !totalDiffers
    {
      var total, entries := 0, 0;
      var entry := mallocList.next;
      while entry != null
        invariant entries <= |live| && entry == Before(mallocList, live, entries).next
        invariant total + Total(live[entries..]) == Total(live)
        decreases |live| - entries
      {
        assert entries < |live| ==> entry == live[entries];
        assert live[entries..][1..] == live[entries + 1..];
        total := total + entry.size;
        entries := entries + 1;
        entry := entry.next;
      }
      entriesDiffer := entries != mallocList.count;
      totalDiffers := total != mallocList.size;
    }
  }
}
