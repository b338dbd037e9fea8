/** Both round trips, of patches and of merge patches, carried out on trees of nodes in memory. */
module DiffOnNodes {
  import opened Bytes
  import opened Json
  import opened Unordered
  import opened Sorting
  import opened Compare
  import opened Patch
  import opened Diff
  import opened Trees
  import Decimal
  import Children
  import DiffApply
  import MergeDiff
  import NodeMerge
  import NodePatch
  import Nodes
  import PatchSteps

  /** The patch is an object and asks for an add, a removal or a replacement. */
  predicate Changes(patch: Value) { patch.Object? && DecodeOperation(patch, true) != Test }

  predicate AllChange(patches: seq<Value>) { forall i :: 0 <= i < |patches| ==> Changes(patches[i]) }

  lemma ComposedChanges(op: cstring, path: cstring, value: Option<Value>)
    requires op == ADD || op == REMOVE || op == REPLACE
    ensures Changes(Compose(op, path, value))
  {
    PatchSteps.ComposedOperation(op, path, value);
  }

  lemma {:induction false} RemovalsChange(path: cstring, index: nat, count: nat)
    ensures AllChange(Removals(path, index, count))
    decreases count
  {
    hide Changes;
    if count > 0 {
      ComposedChanges(REMOVE, Extend(path, Decimal.Digits(index)), None);
      RemovalsChange(path, index, count - 1);
    }
  }

  lemma {:induction false} AdditionsChange(path: cstring, to: seq<Value>, i: nat)
    requires i <= |to|
    ensures AllChange(Additions(path, to, i))
    decreases |to| - i
  {
    hide Changes;
    if i < |to| {
      ComposedChanges(ADD, Extend(path, [MINUS]), Some(to[i]));
      AdditionsChange(path, to, i + 1);
    }
  }

  lemma {:induction false} ItemsChange(path: cstring, from: seq<Value>, to: seq<Value>, i: nat, n: nat)
    requires i <= |from| && i <= |to| && ItemsWithin(from, n)
    ensures AllChange(PatchItems(path, from, to, i, true, n))
    decreases n + 1, 0, |from| - i
  {
    hide Changes, Patches;
    if i < |from| && i < |to| {
      PatchesChange(path + ([SLASH] + Decimal.Digits(i)), from[i], to[i]);
      ItemsChange(path, from, to, i + 1, n);
    } else {
      RemovalsChange(path, i, |from| - i);
      AdditionsChange(path, to, i);
    }
  }

  lemma {:induction false} MembersChange(path: cstring, from: seq<Member>, to: seq<Member>, i: nat, j: nat, n: nat)
    requires i <= |from| && j <= |to| && MembersWithin(from, n)
    ensures AllChange(PatchMembers(path, from, to, i, j, true, n))
    decreases n + 1, 0, |from| - i + |to| - j
  {
    hide Changes, Patches, KeyLess, SameKey;
    if i == |from| && j == |to| {
    } else if j == |to| || (i < |from| && KeyLess(from[i].key, to[j].key, true)) {
      ComposedChanges(REMOVE, Extend(path, from[i].key), None);
      MembersChange(path, from, to, i + 1, j, n);
    } else if i == |from| || !SameKey(from[i].key, to[j].key, true) {
      ComposedChanges(ADD, Extend(path, to[j].key), Some(to[j].value));
      MembersChange(path, from, to, i, j + 1, n);
    } else {
      PatchesChange(Extend(path, from[i].key), from[i].value, to[j].value);
      MembersChange(path, from, to, i + 1, j + 1, n);
    }
  }

  /** A generated patch is never a test. */
  lemma {:induction false} PatchesChange(path: cstring, from: Value, to: Value)
    ensures AllChange(Patches(path, from, to, true))
    decreases Nesting(from), 1, 0
  {
    hide Changes, PatchItems, PatchMembers, Sort;
    ComposedChanges(REPLACE, path, Some(to));
    if SameType(from, to) {
      match from
      case Array(items) =>
        WithinNesting(items, []);
        ItemsChange(path, items, to.items, 0, ItemsNesting(items));
      case Object(members) =>
        SortedWithin(members, true);
        MembersChange(path, Sort(members, true), Sort(to.members, true), 0, 0, MembersNesting(members));
      case _ =>
    }
  }

  /** So no child list comes untied on the way. */
  lemma {:induction false} ChangesKeepTies(doc: Document, patches: seq<Value>, i: nat)
    requires i <= |patches| && AllChange(patches)
    ensures NodePatch.RunKeepsTies(doc, patches, i, true)
    decreases |patches| - i
  {
    hide ApplyPatch, DecodeOperation;
    if i < |patches| {
      assert Changes(patches[i]);
      var r := ApplyPatch(doc, patches[i], true);
      if r.Done? && r.status == 0 { ChangesKeepTies(r.doc, patches, i + 1); }
    }
  }

  lemma ObjectNamed(t: Tree)
    requires ValueOf(t).Object?
    ensures Children.Named(t)
  {
  }

  /** Applying, on nodes, the patches generated from `from` to `to` to a document that denotes `from` and
      whose child lists are well formed, such as a duplicate of `from`: every patch has status 0, the
      document then denotes `to`, and its child lists are well formed again. */
  method DiffThenApply(root: Nodes.Node, patches: Nodes.Node, ghost t: Tree, ghost ps: Tree, ghost from: Value,
                       ghost to: Value) returns (status: nat, ghost t': Tree)
    requires root == t.node && NodePatch.Held(t) && Proper(t) && Distinct(ValueOf(t))
    requires Denote(ValueOf(t)) == Denote(from)
    requires patches == ps.node && Sound(ps) && All(t) !! All(ps)
    requires ValueOf(ps) == Array(GeneratePatches(from, to, true))
    requires DiffApply.Patchable(from, to) && Distinct(from) && Distinct(to)
    modifies All(t), Below(ps)`child, Below(ps)`next, Below(ps)`prev
    ensures status == 0 && t'.node == root && NodePatch.Held(t') && Proper(t')
    ensures Denote(ValueOf(t')) == Denote(to)
  {
    ghost var doc, items := ValueOf(t), GeneratePatches(from, to, true);
    ghost var result := DiffApply.DiffThenApply(doc, from, to);
    PatchesChange([], from, to);
    ChangesKeepTies(Live(doc), items, 0);
    NodePatch.KeptFits(Live(doc), items, 0, true);
    Prepared(t, ps, items);
    hide Shaped, Linked, Below, Tied, Proper, ValueOf, Values, Denote, Distinct, DiffApply.Patchable, Children.Named,
         NodePatch.RunKeepsTies, NodePatch.RunFits, GeneratePatches, ApplyFrom;
    var crashed;
    status, crashed, t' := NodePatch.ApplyPatches(root, patches, true, t, ps);
    NodePatch.InvalidValue(t');
  }

  lemma Prepared(t: Tree, ps: Tree, items: seq<Value>)
    requires Proper(t) && ValueOf(ps) == Array(items) && AllChange(items)
    ensures ps.kind.ArrayKind? && Values(ps.kids, |ps.kids|) == items && NodePatch.DocOf(t) == Live(ValueOf(t))
    ensures forall k :: 0 <= k < |ps.kids| ==> Children.Named(ps.kids[k])
  {
    forall k | 0 <= k < |ps.kids| ensures Children.Named(ps.kids[k]) {
      assert Changes(items[k]);
      ObjectNamed(ps.kids[k]);
    }
  }

  /** Merging, on nodes, the merge patch generated from `from` to `to` into a document that denotes `from`
      and whose child lists are well formed: the result denotes `to` if and only if `to` needs no null
      member that `from` does not already have, and its child lists are well formed. */
  method GenerateThenMerge(target: Nodes.Node, patch: Nodes.Node, caseSensitive: bool, ghost t: Tree, ghost pt: Tree,
                           ghost from: Value, ghost to: Value, ghost generateCase: bool)
    returns (r: Nodes.Node, ghost d: Tree)
    requires target == t.node && target.next == null && Sound(t) && Tied(t) && All(t) !! All(pt)
    requires patch == pt.node && pt.key == patch.key && Sound(pt)
    requires Distinct(ValueOf(t)) && Denote(ValueOf(t)) == Denote(from)
    requires MergeDiff.Generate(from, to, generateCase) == Some(ValueOf(pt))
    requires Distinct(from) && Distinct(to) && MergeDiff.Fits(Denote(from), Denote(to), generateCase)
    requires MergeDiff.MergeFitsDelta(Denote(from), Denote(to), generateCase, caseSensitive)
    modifies All(t)
    ensures r == d.node && Sound(d) && Tied(d)
    ensures Denote(ValueOf(d)) == Denote(to) <==> MergeDiff.NullSafe(Denote(from), Denote(to))
  {
    hide Shaped, Linked, Below, Tied, Proper, ValueOf, Denote, Distinct, MergeDiff.Generate, MergeDiff.Fits,
         MergeDiff.NullSafe;
    MergeDiff.MergeRoundTrip(ValueOf(t), from, to, generateCase, caseSensitive);
    r, d := NodeMerge.Merge(target, patch, caseSensitive, t, pt);
  }
}
