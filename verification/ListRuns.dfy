/** Any sequence of calls that change a child list, against the sequence of nodes the list stands for. */
module ListRuns {
  import opened Json
  import opened Nodes

  datatype Op =
    | Append(item: Node)
    | Insert(which: int, item: Node)
    | Detach(which: int)
    | Replace(which: int, item: Node)

  /** The list, and the nodes at hand that are in no list. */
  datatype State = State(list: seq<Node>, free: set<Node>)

  /** The caller gives only nodes that are in no list. */
  predicate Allowed(s: State, op: Op) { op.Detach? || op.item in s.free }

  function Step(s: State, op: Op): State {
    match op
    case Append(item) => State(s.list + [item], s.free - {item})
    case Insert(which, item) =>
      if which < 0 then s
      else State(InsertAt(s.list, if which < |s.list| then which else |s.list|, item), s.free - {item})
    case Detach(which) =>
      if 0 <= which < |s.list| then State(RemoveAt(s.list, which), s.free + {s.list[which]}) else s
    case Replace(which, item) => if 0 <= which < |s.list| then State(s.list[which := item], s.free - {item}) else s
  }

  ghost predicate Legal(s: State, ops: seq<Op>)
    decreases |ops|
  {
    ops == [] || (Allowed(s, ops[0]) && Legal(Step(s, ops[0]), ops[1..]))
  }

  function Outcome(s: State, ops: seq<Op>): State
    decreases |ops|
  {
    if ops == [] then s else Outcome(Step(s, ops[0]), ops[1..])
  }

  /** The memory holds the list, and the free nodes point nowhere. */
  ghost predicate Holds(parent: Node, s: State, nodes: set<Node>)
    reads parent`child, nodes`next, nodes`prev
  {
    && (forall n :: n in s.list ==> n in nodes) && s.free <= nodes && parent !in nodes
    && (forall n :: n in s.list ==> n !in s.free)
    && (forall n :: n in s.free ==> n.next == null)
    && Ring(parent.child, s.list)
  }

  lemma {:induction false} Conserved(s: State, ops: seq<Op>, nodes: set<Node>)
    requires Legal(s, ops) && (forall n :: n in s.list ==> n in nodes) && s.free <= nodes
    requires forall n :: n in s.list ==> n !in s.free
    requires NoRepeats(s.list)
    ensures var r := Outcome(s, ops);
      && (forall n :: n in r.list ==> n in nodes) && r.free <= nodes && NoRepeats(r.list)
      && forall n :: n in r.list ==> n !in r.free
    decreases |ops|
  {
    if ops != [] {
      StepConserves(s, ops[0], nodes);
      Conserved(Step(s, ops[0]), ops[1..], nodes);
    }
  }

  /** No call brings in a node of its own or uses one twice. */
  lemma StepConserves(s: State, op: Op, nodes: set<Node>)
    requires Allowed(s, op) && (forall n :: n in s.list ==> n in nodes) && s.free <= nodes && NoRepeats(s.list)
    requires forall n :: n in s.list ==> n !in s.free
    ensures var r := Step(s, op);
      && (forall n :: n in r.list ==> n in nodes) && r.free <= nodes && NoRepeats(r.list)
      && forall n :: n in r.list ==> n !in r.free
  {
    var list := Step(s, op).list;
    match op
    case Append(item) =>
    case Insert(which, item) =>
      if which >= 0 { InsertNoRepeats(s.list, if which < |s.list| then which else |s.list|, item); }
    case Detach(which) =>
    case Replace(which, item) =>
  }

  lemma RingUnique(first: Node?, s: seq<Node>)
    requires Ring(first, s)
    ensures NoRepeats(s)
  {
  }

  lemma FreeOutside(s: State)
    requires forall n :: n in s.list ==> n !in s.free
    ensures forall n :: n in s.free ==> n !in s.list
  {
  }

  method Call(parent: Node, op: Op, ghost s: State, ghost nodes: set<Node>)
    requires Holds(parent, s, nodes) && Allowed(s, op)
    modifies parent`child, nodes`next, nodes`prev
    ensures Holds(parent, Step(s, op), nodes)
  {
    hide Holds, Step;
    match op {
      case Append(item) => CallAppend(parent, op, s, nodes);
      case Insert(which, item) => CallInsert(parent, op, s, nodes);
      case Detach(which) => CallDetach(parent, op, s, nodes);
      case Replace(which, item) => CallReplace(parent, op, s, nodes);
    }
  }

  method CallAppend(parent: Node, op: Op, ghost s: State, ghost nodes: set<Node>)
    requires Holds(parent, s, nodes) && Allowed(s, op) && op.Append?
    modifies parent`child, nodes`next, nodes`prev
    ensures Holds(parent, Step(s, op), nodes)
  {
    hide Ring, NoRepeats, InsertAt, RemoveAt;
    RingUnique(parent.child, s.list);
    StepConserves(s, op, nodes);
    FreeOutside(s);
    AppendItem(parent, op.item, s.list);
  }

  method CallInsert(parent: Node, op: Op, ghost s: State, ghost nodes: set<Node>)
    requires Holds(parent, s, nodes) && Allowed(s, op) && op.Insert?
    modifies parent`child, nodes`next, nodes`prev
    ensures Holds(parent, Step(s, op), nodes)
  {
    hide Ring, NoRepeats, InsertAt, RemoveAt;
    RingUnique(parent.child, s.list);
    StepConserves(s, op, nodes);
    FreeOutside(s);
    var ok := InsertItemInArray(parent, op.which, op.item, s.list);
  }

  method CallDetach(parent: Node, op: Op, ghost s: State, ghost nodes: set<Node>)
    requires Holds(parent, s, nodes) && op.Detach?
    modifies parent`child, nodes`next, nodes`prev
    ensures Holds(parent, Step(s, op), nodes)
  {
    hide Ring, NoRepeats, InsertAt, RemoveAt;
    RingUnique(parent.child, s.list);
    StepConserves(s, op, nodes);
    FreeOutside(s);
    var item := DetachItemFromArray(parent, op.which, s.list);
  }

  method CallReplace(parent: Node, op: Op, ghost s: State, ghost nodes: set<Node>)
    requires Holds(parent, s, nodes) && Allowed(s, op) && op.Replace?
    modifies parent`child, nodes`next, nodes`prev
    ensures Holds(parent, Step(s, op), nodes)
  {
    hide Ring, Chain, NoRepeats, InsertAt, RemoveAt;
    RingUnique(parent.child, s.list);
    StepConserves(s, op, nodes);
    FreeOutside(s);
    if op.which >= 0 {
      RingIsChain(parent.child, s.list);
      var target := GetArrayItem(parent, op.which, s.list);
      assert Ring(parent.child, s.list);
      if target != null {
        var ok := ReplaceItemViaPointer(parent, target, op.item, s.list, op.which);
      }
    }
  }

  /** After every run of calls the child list is well formed and stands for the sequence that the run computes. */
  method CallAll(parent: Node, ops: seq<Op>, ghost s: State, ghost nodes: set<Node>)
    requires Holds(parent, s, nodes) && Legal(s, ops)
    modifies parent`child, nodes`next, nodes`prev
    ensures Holds(parent, Outcome(s, ops), nodes)
  {
    var i := 0;
    ghost var now := s;
    assert ops[0..] == ops;
    while i < |ops|
      invariant 0 <= i <= |ops| && Holds(parent, now, nodes) && Legal(now, ops[i..])
      invariant Outcome(now, ops[i..]) == Outcome(s, ops)
    {
      assert ops[i..][0] == ops[i] && ops[i..][1..] == ops[i + 1..];
      Call(parent, ops[i], now, nodes);
      now := Step(now, ops[i]);
      i := i + 1;
    }
  }
}
