/** The MQTT client's message handlers: a fixed table of slots that behaves as a bounded map from
    topic filter to handler, and the delivery of a message to it. */
module Handlers {

  import opened Bytes
  import opened Json
  import Topic

  /** A function pointer. */
  type Handler = nat

  datatype Slot = Slot(filter: Option<cstring>, fp: Option<Handler>)

  // ----- The slots as a map -----

  /** The first slot at or after `i` that holds `filter`, or the number of slots. */
  function SlotOf(slots: seq<Slot>, i: nat, filter: cstring): (k: nat)
    requires i <= |slots|
    ensures i <= k <= |slots| && (k < |slots| ==> slots[k].filter == Some(filter))
    ensures forall j :: i <= j < k ==> slots[j].filter != Some(filter)
    decreases |slots| - i
  {
    if i == |slots| || slots[i].filter == Some(filter) then i else SlotOf(slots, i + 1, filter)
  }

  function FreeSlot(slots: seq<Slot>, i: nat): (k: nat)
    requires i <= |slots|
    ensures i <= k <= |slots| && (k < |slots| ==> slots[k].filter.None?)
    ensures forall j :: i <= j < k ==> slots[j].filter.Some?
    decreases |slots| - i
  {
    if i == |slots| || slots[i].filter.None? then i else FreeSlot(slots, i + 1)
  }

  /** At most one slot per filter, and a handler in every slot in use. */
  predicate Valid(slots: seq<Slot>) {
    && (forall i :: 0 <= i < |slots| && slots[i].filter.Some? ==> slots[i].fp.Some?)
    && (forall i, j :: 0 <= i < j < |slots| && slots[i].filter.Some? ==> slots[i].filter != slots[j].filter)
  }

  function Filters(slots: seq<Slot>): set<cstring> {
    set i | 0 <= i < |slots| && slots[i].filter.Some? :: slots[i].filter.value
  }

  function Table(slots: seq<Slot>): map<cstring, Handler>
    requires Valid(slots)
  {
    map f | f in Filters(slots) :: slots[SlotOf(slots, 0, f)].fp.value
  }

  lemma TableAt(slots: seq<Slot>, i: nat)
    requires Valid(slots) && i < |slots| && slots[i].filter.Some?
    ensures slots[i].filter.value in Table(slots) && Table(slots)[slots[i].filter.value] == slots[i].fp.value
  {
    var f := slots[i].filter.value;
    assert f in Filters(slots);
    var k := SlotOf(slots, 0, f);
    assert k <= i;
  }

  lemma OnlySlot(slots: seq<Slot>, filter: cstring, k: nat, i: nat)
    requires Valid(slots) && k == SlotOf(slots, 0, filter) && i < |slots|
    ensures slots[i].filter == Some(filter) <==> i == k
  {
    hide SlotOf;
  }

  lemma InTable(slots: seq<Slot>, filter: cstring)
    requires Valid(slots)
    ensures filter in Table(slots) <==> SlotOf(slots, 0, filter) < |slots|
  {
    var k := SlotOf(slots, 0, filter);
    if k < |slots| {
      assert slots[k].filter.Some? && slots[k].filter.value == filter;
      assert filter in Filters(slots);
    }
  }

  /** The table is full exactly when it holds as many filters as there are slots. */
  lemma {:induction false} Full(slots: seq<Slot>)
    requires Valid(slots)
    ensures |Filters(slots)| <= |slots|
    ensures |Filters(slots)| == |slots| <==> FreeSlot(slots, 0) == |slots|
  {
    if slots != [] {
      var n := |slots| - 1;
      var rest := slots[..n];
      Full(rest);
      FiltersSplit(slots, n);
      FreeSplit(slots, rest, 0);
    }
  }

  lemma FiltersSplit(slots: seq<Slot>, n: nat)
    requires Valid(slots) && |slots| == n + 1
    ensures slots[n].filter.None? ==> Filters(slots) == Filters(slots[..n])
    ensures slots[n].filter.Some? ==>
      Filters(slots) == Filters(slots[..n]) + {slots[n].filter.value} && slots[n].filter.value !in Filters(slots[..n])
  {
    var rest := slots[..n];
    forall f | f in Filters(slots) ensures f in Filters(rest) || slots[n].filter == Some(f) {
      var i :| 0 <= i < |slots| && slots[i].filter == Some(f);
      if i < n { assert rest[i] == slots[i]; }
    }
    forall f | f in Filters(rest) ensures f in Filters(slots) {
      var i :| 0 <= i < |rest| && rest[i].filter == Some(f);
      assert slots[i] == rest[i];
    }
    if slots[n].filter.Some? { assert slots[n].filter.value in Filters(slots); }
  }

  lemma {:induction false} FreeSplit(slots: seq<Slot>, rest: seq<Slot>, i: nat)
    requires |slots| == |rest| + 1 && rest == slots[..|rest|] && i <= |rest|
    ensures FreeSlot(slots, i) == |slots| <==> FreeSlot(rest, i) == |rest| && slots[|rest|].filter.Some?
    decreases |rest| - i
  {
    if i < |rest| { FreeSplit(slots, rest, i + 1); }
  }

  // ----- Setting, removing and cleaning -----

  function SetSlots(slots: seq<Slot>, filter: cstring, handler: Option<Handler>): (r: seq<Slot>)
    ensures |r| == |slots|
  {
    var i := SlotOf(slots, 0, filter);
    if handler.None? then
      if i < |slots| then slots[i := Slot(None, None)] else slots
    else
      var k := if i < |slots| then i else FreeSlot(slots, 0);
      if k < |slots| then slots[k := Slot(Some(filter), handler)] else slots
  }

  predicate SetSucceeds(slots: seq<Slot>, filter: cstring, handler: Option<Handler>) {
    SlotOf(slots, 0, filter) < |slots| || (handler.Some? && FreeSlot(slots, 0) < |slots|)
  }

  /** The map a table of `size` slots stands for after setting `filter` to `handler`. */
  function SetMap(table: map<cstring, Handler>, size: nat, filter: cstring, handler: Option<Handler>)
    : map<cstring, Handler>
  {
    if handler.None? then table - {filter}
    else if filter in table || |table| < size then table[filter := handler.value]
    else table
  }

  lemma Stored(slots: seq<Slot>, k: nat, filter: cstring, h: Handler)
    requires Valid(slots) && k < |slots|
    requires k == SlotOf(slots, 0, filter) || (slots[k].filter.None? && SlotOf(slots, 0, filter) == |slots|)
    ensures Valid(slots[k := Slot(Some(filter), Some(h))])
    ensures Table(slots[k := Slot(Some(filter), Some(h))]) == Table(slots)[filter := h]
  {
    hide SlotOf, Table;
    var after := slots[k := Slot(Some(filter), Some(h))];
    StoredValid(slots, k, filter, h);
    assert Valid(slots);
    var table := Table(slots)[filter := h];
    forall i | 0 <= i < |after| && after[i].filter.Some?
      ensures after[i].filter.value in table && table[after[i].filter.value] == after[i].fp.value
    {
      if i != k {
        TableAt(slots, i);
        OnlySlot(slots, filter, SlotOf(slots, 0, filter), i);
      }
    }
    forall f | f in table ensures exists i :: 0 <= i < |after| && after[i].filter == Some(f) {
      if f == filter {
        assert after[k].filter == Some(f);
      } else {
        InTable(slots, f);
        assert after[SlotOf(slots, 0, f)].filter == Some(f);
      }
    }
    SameTable(after, table);
  }

  lemma StoredValid(slots: seq<Slot>, k: nat, filter: cstring, h: Handler)
    requires Valid(slots) && k < |slots|
    requires k == SlotOf(slots, 0, filter) || (slots[k].filter.None? && SlotOf(slots, 0, filter) == |slots|)
    ensures Valid(slots[k := Slot(Some(filter), Some(h))])
  {
    var after := slots[k := Slot(Some(filter), Some(h))];
    forall i, j | 0 <= i < j < |after| && after[i].filter.Some? ensures after[i].filter != after[j].filter {
      OnlySlot(slots, filter, SlotOf(slots, 0, filter), i);
      OnlySlot(slots, filter, SlotOf(slots, 0, filter), j);
    }
  }

  lemma SameTable(slots: seq<Slot>, table: map<cstring, Handler>)
    requires Valid(slots)
    requires forall i :: 0 <= i < |slots| && slots[i].filter.Some? ==>
      slots[i].filter.value in table && table[slots[i].filter.value] == slots[i].fp.value
    requires forall f :: f in table ==> exists i :: 0 <= i < |slots| && slots[i].filter == Some(f)
    ensures Table(slots) == table
  {
    forall f | f in table ensures f in Table(slots) {
      var i :| 0 <= i < |slots| && slots[i].filter == Some(f);
      TableAt(slots, i);
    }
  }

  lemma Erased(slots: seq<Slot>, k: nat, filter: cstring)
    requires Valid(slots) && k < |slots| && k == SlotOf(slots, 0, filter)
    ensures Valid(slots[k := Slot(None, None)]) && Table(slots[k := Slot(None, None)]) == Table(slots) - {filter}
  {
    hide SlotOf, Table;
    var after := slots[k := Slot(None, None)];
    assert Valid(slots);
    var table := Table(slots) - {filter};
    forall i | 0 <= i < |after| && after[i].filter.Some?
      ensures after[i].filter.value in table && table[after[i].filter.value] == after[i].fp.value
    {
      TableAt(slots, i);
      OnlySlot(slots, filter, k, i);
    }
    forall f | f in table ensures exists i :: 0 <= i < |after| && after[i].filter == Some(f) {
      InTable(slots, f);
      assert after[SlotOf(slots, 0, f)].filter == Some(f);
    }
    SameTable(after, table);
  }

  /** One call is one step of the bounded map, and fails exactly when it removes what is not there
      or adds to a full table. */
  lemma SetRefines(slots: seq<Slot>, filter: cstring, handler: Option<Handler>)
    requires Valid(slots)
    ensures Valid(SetSlots(slots, filter, handler))
    ensures Table(SetSlots(slots, filter, handler)) == SetMap(Table(slots), |slots|, filter, handler)
    ensures SetSucceeds(slots, filter, handler) <==>
      filter in Table(slots) || (handler.Some? && |Table(slots)| < |slots|)
  {
    hide SlotOf, FreeSlot, Filters;
    InTable(slots, filter);
    Full(slots);
    assert Table(slots).Keys == Filters(slots);
    var i := SlotOf(slots, 0, filter);
    if handler.None? {
      if i < |slots| { Erased(slots, i, filter); }
    } else {
      var k := if i < |slots| then i else FreeSlot(slots, 0);
      if k < |slots| { Stored(slots, k, filter, handler.value); }
    }
  }

  /** MQTTCleanSession clears the filters and leaves the handlers behind. */
  function Cleaned(slots: seq<Slot>): (r: seq<Slot>)
    ensures |r| == |slots| && forall i :: 0 <= i < |slots| ==> r[i] == slots[i].(filter := None)
  {
    seq(|slots|, i requires 0 <= i < |slots| => slots[i].(filter := None))
  }

  // ----- Runs -----

  datatype Call = Set(filter: cstring, handler: Option<Handler>) | Clean

  function RunSlots(slots: seq<Slot>, calls: seq<Call>): seq<Slot>
    decreases |calls|
  {
    if calls == [] then slots
    else RunSlots(match calls[0] case Set(f, h) => SetSlots(slots, f, h) case Clean => Cleaned(slots), calls[1..])
  }

  function RunMap(table: map<cstring, Handler>, size: nat, calls: seq<Call>): map<cstring, Handler>
    decreases |calls|
  {
    if calls == [] then table
    else RunMap(match calls[0] case Set(f, h) => SetMap(table, size, f, h) case Clean => map[], size, calls[1..])
  }

  /** Over every run the slots stand for the bounded map, at most one slot per filter. */
  lemma {:induction false} RunRefines(slots: seq<Slot>, calls: seq<Call>)
    requires Valid(slots)
    ensures Valid(RunSlots(slots, calls)) && |RunSlots(slots, calls)| == |slots|
    ensures Table(RunSlots(slots, calls)) == RunMap(Table(slots), |slots|, calls)
    ensures |RunMap(Table(slots), |slots|, calls)| <= |slots|
    decreases |calls|
  {
    if calls == [] {
      Full(slots);
      assert Table(slots).Keys == Filters(slots);
    } else {
      match calls[0]
      case Set(f, h) =>
        SetRefines(slots, f, h);
        RunRefines(SetSlots(slots, f, h), calls[1..]);
      case Clean =>
        var r := Cleaned(slots);
        assert Table(r) == map[];
        RunRefines(r, calls[1..]);
    }
  }

  // ----- Delivery -----

  /** MQTTPacket_equals or isTopicMatched. */
  predicate Hit(filter: cstring, name: bytes) { name == filter || Topic.Cursor(filter, 0, name, 0) }

  /** For well-formed filters the first test adds nothing to level-by-level matching. */
  lemma HitIsMatch(filter: cstring, name: bytes)
    requires Topic.WellFormed(Topic.Levels(filter))
    ensures Hit(filter, name) <==> Topic.Matches(Topic.Levels(filter), Topic.Levels(name))
  {
    Topic.MatchedByLevel(filter, name);
    MatchesItself(Topic.Levels(filter));
  }

  lemma {:induction false} MatchesItself(levels: seq<bytes>)
    ensures Topic.Matches(levels, levels)
  {
    if levels != [] { MatchesItself(levels[1..]); }
  }

  function Run(slot: Slot, name: bytes): seq<(cstring, Handler)> {
    if slot.filter.Some? && Hit(slot.filter.value, name) && slot.fp.Some?
    then [(slot.filter.value, slot.fp.value)] else []
  }

  /** The filters whose handlers the first `n` slots run, in order. */
  function Delivered(slots: seq<Slot>, n: nat, name: bytes): seq<(cstring, Handler)>
    requires n <= |slots|
  {
    if n == 0 then [] else Delivered(slots, n - 1, name) + Run(slots[n - 1], name)
  }

  predicate Owed(slots: seq<Slot>, name: bytes, f: cstring, h: Handler)
    requires Valid(slots)
  {
    f in Table(slots) && Table(slots)[f] == h && Hit(f, name)
  }

  /** Each matching entry of the table is called exactly once and nothing else is called. */
  lemma DeliveredOnce(slots: seq<Slot>, name: bytes, f: cstring, h: Handler)
    requires Valid(slots)
    ensures multiset(Delivered(slots, |slots|, name))[(f, h)] == if Owed(slots, name, f, h) then 1 else 0
  {
    var k := SlotOf(slots, 0, f);
    InTable(slots, f);
    if k < |slots| { TableAt(slots, k); }
    CountDelivered(slots, |slots|, name, f, h, k);
  }

  lemma CountRun(slots: seq<Slot>, i: nat, name: bytes, f: cstring, h: Handler, k: nat)
    requires Valid(slots) && i < |slots| && k == SlotOf(slots, 0, f)
    ensures multiset(Run(slots[i], name))[(f, h)] == if i == k && slots[i].fp == Some(h) && Hit(f, name) then 1 else 0
  {
    hide Hit, SlotOf, Valid;
    OnlySlot(slots, f, k, i);
  }

  lemma {:induction false} CountDelivered(slots: seq<Slot>, n: nat, name: bytes, f: cstring, h: Handler, k: nat)
    requires Valid(slots) && n <= |slots| && k == SlotOf(slots, 0, f)
    ensures multiset(Delivered(slots, n, name))[(f, h)]
      == if k < n && slots[k].fp == Some(h) && Hit(f, name) then 1 else 0
  {
    hide Hit, SlotOf, Valid, Run;
    if n > 0 {
      CountDelivered(slots, n - 1, name, f, h, k);
      CountRun(slots, n - 1, name, f, h, k);
      CountConcat(Delivered(slots, n - 1, name), Run(slots[n - 1], name), (f, h));
    }
  }

  lemma CountConcat<T>(a: seq<T>, b: seq<T>, x: T)
    ensures multiset(a + b)[x] == multiset(a)[x] + multiset(b)[x]
  {
    assert multiset(a + b) == multiset(a) + multiset(b);
  }

  // ----- The client -----

  datatype Invocation = Slotted(filter: cstring, handler: Handler) | Default(handler: Handler)

  function Invocations(slotted: seq<(cstring, Handler)>): (r: seq<Invocation>)
    ensures |r| == |slotted| && forall i :: 0 <= i < |r| ==> r[i] == Slotted(slotted[i].0, slotted[i].1)
  {
    seq(|slotted|, i requires 0 <= i < |slotted| => Slotted(slotted[i].0, slotted[i].1))
  }

  lemma OneInvocation(slotted: seq<(cstring, Handler)>, last: (cstring, Handler))
    ensures Invocations(slotted + [last]) == Invocations(slotted) + [Slotted(last.0, last.1)]
  {
  }

  class Client {
    const messageHandlers: array<Slot>
    var defaultMessageHandler: Option<Handler>

    constructor (size: nat)
      ensures fresh(messageHandlers) && messageHandlers.Length == size && defaultMessageHandler == None
      ensures Valid(messageHandlers[..]) && Table(messageHandlers[..]) == map[]
    {
      messageHandlers := new Slot[size](_ => Slot(None, None));
      defaultMessageHandler := None;
    }

    method SetMessageHandler(filter: cstring, handler: Option<Handler>) returns (success: bool)
      modifies messageHandlers
      ensures messageHandlers[..] == SetSlots(old(messageHandlers[..]), filter, handler)
      ensures success == SetSucceeds(old(messageHandlers[..]), filter, handler)
      ensures old(Valid(messageHandlers[..])) ==>
        && Valid(messageHandlers[..])
        && Table(messageHandlers[..])
          == SetMap(old(Table(messageHandlers[..])), messageHandlers.Length, filter, handler)
    {
      ghost var slots := messageHandlers[..];
      if Valid(slots) { SetRefines(slots, filter, handler); }
      success := false;
      var i: nat := 0;
      while i < messageHandlers.Length && messageHandlers[i].filter != Some(filter)
        invariant i <= messageHandlers.Length && SlotOf(slots, i, filter) == SlotOf(slots, 0, filter)
      {
        i := i + 1;
      }
      if i < messageHandlers.Length {
        if handler.None? {
          messageHandlers[i] := Slot(None, None);
        }
        success := true;
      }
      if handler.Some? {
        if !success {
          i := 0;
          while i < messageHandlers.Length && messageHandlers[i].filter.Some?
            invariant i <= messageHandlers.Length && FreeSlot(slots, i) == FreeSlot(slots, 0)
          {
            i := i + 1;
          }
          if i < messageHandlers.Length {
            success := true;
          }
        }
        if i < messageHandlers.Length {
          messageHandlers[i] := Slot(Some(filter), handler);
        }
      }
    }

    method CleanSession()
      modifies messageHandlers
      ensures messageHandlers[..] == Cleaned(old(messageHandlers[..]))
      ensures Valid(messageHandlers[..]) && Table(messageHandlers[..]) == map[]
    {
      for i := 0 to messageHandlers.Length
        invariant forall j :: 0 <= j < i ==> messageHandlers[j] == old(messageHandlers[..])[j].(filter := None)
        invariant forall j :: i <= j < messageHandlers.Length ==> messageHandlers[j] == old(messageHandlers[..])[j]
      {
        messageHandlers[i] := messageHandlers[i].(filter := None);
      }
    }

    /** The handlers run, in order. */
    method DeliverMessage(name: bytes) returns (success: bool, run: seq<Invocation>)
      ensures var slotted := Delivered(messageHandlers[..], messageHandlers.Length, name);
        run == if slotted == [] && defaultMessageHandler.Some? then [Default(defaultMessageHandler.value)]
               else Invocations(slotted)
      ensures success == (run != [])
    {
      hide Topic.Cursor, Topic.Matches, Topic.Levels, Topic.WellFormed, Invocations;
      success := false;
      ghost var slotted, slots := [], messageHandlers[..];
      run := [];
      for i := 0 to messageHandlers.Length
        invariant slotted == Delivered(slots, i, name)
        invariant run == Invocations(slotted)
        invariant success == (run != [])
      {
        var slot := messageHandlers[i];
        if slot.filter.Some? {
          var hit := name == slot.filter.value;
          if !hit { hit := Topic.IsTopicMatched(slot.filter.value, name); }
          if hit {
            if slot.fp.Some? {
              OneInvocation(slotted, (slot.filter.value, slot.fp.value));
              run := run + [Slotted(slot.filter.value, slot.fp.value)];
              slotted := slotted + [(slot.filter.value, slot.fp.value)];
              success := true;
            }
          }
        }
      }
      if !success && defaultMessageHandler.Some? {
        run := run + [Default(defaultMessageHandler.value)];
        success := true;
      }
    }
  }
}
