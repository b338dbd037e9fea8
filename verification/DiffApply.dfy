/** Applying the generated patches turns the first tree into the second. */
module DiffApply {
  import opened Bytes
  import opened Decimal
  import opened Json
  import opened Unordered
  import opened Sorting
  import opened Compare
  import opened Pointer
  import opened Patch
  import opened Diff
  import opened PatchSteps

  /** Both are arrays or both are objects: their parts are compared further. */
  predicate Inside(from: Value, to: Value) { SameType(from, to) && (from.Array? || from.Object?) }

  predicate Has(members: seq<Member>, key: bytes) { exists k :: 0 <= k < |members| && members[k].key == key }

  /** A generated path that ends in `key` detaches that member, whatever the order: its last token is
      decoded to `key` again, and no sibling's key differs from it in case only. */
  predicate Detachable(members: seq<Member>, key: cstring) {
    && Survives(key)
    && forall k :: 0 <= k < |members| && members[k].key != key ==> Lower(members[k].key) != Lower(key)
  }

  /** What the generated paths need: indices in the range of `size_t`, a key that is removed or whose value
      is replaced detachable, and a key that is added intact after decoding. Keys on the way to a change
      and keys of members that stay as they are may be anything. */
  ghost predicate Patchable(from: Value, to: Value)
    decreases from
  {
    match (from, to)
    case (Array(xs), Array(ys)) =>
      && (|xs| < SIZE_MOD || |ys| < SIZE_MOD)
      && forall i :: 0 <= i < |xs| && i < |ys| ==> Patchable(xs[i], ys[i])
    case (Object(xs), Object(ys)) => MembersPatchable(xs, ys)
    case _ => true
  }

  ghost predicate MembersPatchable(xs: seq<Member>, ys: seq<Member>)
    decreases xs
  {
    && (forall i :: 0 <= i < |xs| && !Has(ys, xs[i].key) ==> Detachable(xs, xs[i].key))
    && (forall j :: 0 <= j < |ys| && !Has(xs, ys[j].key) ==> Survives(ys[j].key))
    && (forall i, j :: 0 <= i < |xs| && 0 <= j < |ys| && xs[i].key == ys[j].key ==>
          if Inside(xs[i].value, ys[j].value) then Patchable(xs[i].value, ys[j].value)
          else Denote(xs[i].value) == Denote(ys[j].value) || Detachable(xs, xs[i].key))
  }

  // ----- Runs of patches -----

  /** All of `patches` apply with status 0 and turn `from` into `to`. */
  ghost predicate Leads(from: Value, patches: seq<Value>, to: Value) {
    ApplyFrom(Live(from), patches, 0, true) == Done(Live(to), 0)
  }

  lemma {:induction false} ApplySuffix(doc: Document, a: seq<Value>, b: seq<Value>, k: nat)
    requires k <= |b|
    ensures ApplyFrom(doc, a + b, |a| + k, true) == ApplyFrom(doc, b, k, true)
    decreases |b| - k
  {
    hide ApplyPatch;
    if k < |b| {
      assert (a + b)[|a| + k] == b[k];
      var r := ApplyPatch(doc, b[k], true);
      if r.Done? && r.status == 0 { ApplySuffix(r.doc, a, b, k + 1); }
    }
  }

  lemma {:induction false} ApplyPrefix(doc: Document, a: seq<Value>, b: seq<Value>, k: nat, doc': Document)
    requires k <= |a| && ApplyFrom(doc, a, k, true) == Done(doc', 0)
    ensures ApplyFrom(doc, a + b, k, true) == ApplyFrom(doc', b, 0, true)
    decreases |a| - k
  {
    hide ApplyPatch;
    if k == |a| {
      ApplySuffix(doc, a, b, 0);
    } else {
      assert (a + b)[k] == a[k];
      var r := ApplyPatch(doc, a[k], true);
      ApplyPrefix(r.doc, a, b, k + 1, doc');
    }
  }

  lemma LeadsThrough(v: Value, a: seq<Value>, w: Value, b: seq<Value>, x: Value)
    requires Leads(v, a, w) && Leads(w, b, x)
    ensures Leads(v, a + b, x)
  {
    ApplyPrefix(Live(v), a, b, 0, Live(w));
  }

  lemma LeadsOne(v: Value, patch: Value, w: Value)
    requires ApplyPatch(Live(v), patch, true) == Done(Live(w), 0)
    ensures Leads(v, [patch], w)
  {
    hide ApplyPatch;
    assert ApplyFrom(Live(w), [patch], 1, true) == Done(Live(w), 0);
  }

  // ----- Arrays -----

  lemma RemovedIndex(root: Value, steps: seq<Step>, pos: Position, i: nat, path: cstring, cur: seq<Value>)
    requires PathBelow(root, steps, pos, Index(i), path) && ItemAt(root, pos) == Array(cur) && i < |cur|
    ensures Leads(root, [Compose(REMOVE, path, None)], PutAt(root, pos, Array(RemoveAt(cur, i))))
  {
    PathBelowFacts(root, steps, pos, Index(i), path);
    hide PathBelow, ApplyPatch, DetachPath, PutAt, Valid;
    DetachIndex(root, steps, pos, i, path);
    ComposedPatch(Live(root), REMOVE, path, None);
    LeadsOne(root, Compose(REMOVE, path, None), PutAt(root, pos, Array(RemoveAt(cur, i))));
  }

  lemma AppendedItem(root: Value, steps: seq<Step>, pos: Position, path: cstring, cur: seq<Value>, value: Value)
    requires PathBelow(root, steps, pos, Key([MINUS]), path) && ItemAt(root, pos) == Array(cur)
    ensures Leads(root, [Compose(ADD, path, Some(value))], PutAt(root, pos, Array(cur + [value])))
  {
    PathBelowFacts(root, steps, pos, Key([MINUS]), path);
    hide PathBelow, ApplyPatch, AddAt, PutAt, Valid;
    AddLast(root, steps, pos, path, value);
    ComposedPatch(Live(root), ADD, path, Some(value));
    LeadsOne(root, Compose(ADD, path, Some(value)), PutAt(root, pos, Array(cur + [value])));
  }

  lemma ReplacedIndex(root: Value, steps: seq<Step>, pos: Position, i: nat, path: cstring, cur: seq<Value>,
                      value: Value)
    requires PathBelow(root, steps, pos, Index(i), path) && ItemAt(root, pos) == Array(cur) && i < |cur|
    ensures Leads(root, [Compose(REPLACE, path, Some(value))], PutAt(root, pos, Array(cur[i := value])))
  {
    PathBelowFacts(root, steps, pos, Index(i), path);
    var shorter := RemoveAt(cur, i);
    var root' := PutAt(root, pos, Array(shorter));
    PathKept(root, steps, pos, Index(i), path, Array(shorter));
    hide PathBelow, ApplyPatch, DetachPath, AddAt, PutAt, Valid, ItemAt, Compose, Leads, RemoveAt;
    DetachIndex(root, steps, pos, i, path);
    AddIndex(root', steps, pos, i, path, value);
    SpliceBack(cur, i, value);
    PutAtTwice(root, pos, Array(shorter), Array(cur[i := value]));
    ComposedPatch(Live(root), REPLACE, path, Some(value));
    LeadsOne(root, Compose(REPLACE, path, Some(value)), PutAt(root, pos, Array(cur[i := value])));
  }

  lemma SpliceBack(cur: seq<Value>, i: nat, value: Value)
    requires i < |cur|
    ensures RemoveAt(cur, i)[..i] + [value] + RemoveAt(cur, i)[i..] == cur[i := value]
  {
  }

  lemma PathKept(root: Value, steps: seq<Step>, pos: Position, s: Step, path: cstring, x: Value)
    requires PathBelow(root, steps, pos, s, path)
    ensures Valid(root, pos)
    ensures PathBelow(PutAt(root, pos, x), steps, pos, s, path) && ItemAt(PutAt(root, pos, x), pos) == x
  {
    PutAtFacts(root, steps, pos, x);
  }

  /** The steps lead to the item at `pos`. */
  ghost predicate Settled(root: Value, steps: seq<Step>, pos: Position) {
    AllFit(steps) && Walk(root, steps) == Some(pos)
  }

  lemma SettledFacts(root: Value, steps: seq<Step>, pos: Position, s: Step)
    requires Settled(root, steps, pos) && Fits(s) && (s.Key? ==> Survives(s.key))
    ensures Valid(root, pos)
    ensures PathBelow(root, steps, pos, s, Render(steps) + ([SLASH] + StepText(s)))
    ensures s.Index? ==> Extend(Render(steps), Digits(s.i)) == Render(steps) + ([SLASH] + StepText(s))
    ensures s.Key? ==> Extend(Render(steps), s.key) == Render(steps) + ([SLASH] + StepText(s))
  {
    StepSurvives(s);
  }

  lemma SettledAfter(root: Value, steps: seq<Step>, pos: Position, x: Value)
    requires Settled(root, steps, pos)
    ensures Valid(root, pos)
    ensures Settled(PutAt(root, pos, x), steps, pos) && ItemAt(PutAt(root, pos, x), pos) == x
    ensures PutAt(root, pos, ItemAt(root, pos)) == root
  {
    PutAtFacts(root, steps, pos, x);
    PutAtSame(root, pos);
  }

  lemma LeadsNowhere(root: Value)
    ensures Leads(root, [], root)
  {
  }

  lemma {:induction false} RemovalsLead(root: Value, steps: seq<Step>, pos: Position, cur: seq<Value>, m: nat,
                                        count: nat)
    requires Settled(root, steps, pos) && ItemAt(root, pos) == Array(cur) && |cur| == m + count && m < SIZE_MOD
    ensures Valid(root, pos) && Leads(root, Removals(Render(steps), m, count), PutAt(root, pos, Array(cur[..m])))
    decreases count
  {
    hide Leads, PutAt, ItemAt, Settled, PathBelow, Extend, Compose;
    SettledAfter(root, steps, pos, Array([]));
    if count == 0 {
      assert cur[..m] == cur;
      LeadsNowhere(root);
    } else {
      var shorter := RemoveAt(cur, m);
      SettledFacts(root, steps, pos, Index(m));
      RemovedIndex(root, steps, pos, m, Extend(Render(steps), Digits(m)), cur);
      SettledAfter(root, steps, pos, Array(shorter));
      var root' := PutAt(root, pos, Array(shorter));
      RemovalsLead(root', steps, pos, shorter, m, count - 1);
      assert shorter[..m] == cur[..m];
      PutAtTwice(root, pos, Array(shorter), Array(cur[..m]));
      LeadsThrough(root, [Compose(REMOVE, Extend(Render(steps), Digits(m)), None)], root',
                   Removals(Render(steps), m, count - 1), PutAt(root, pos, Array(cur[..m])));
    }
  }

  lemma {:induction false} AdditionsLead(root: Value, steps: seq<Step>, pos: Position, cur: seq<Value>, to: seq<Value>,
                                         i: nat)
    requires Settled(root, steps, pos) && ItemAt(root, pos) == Array(cur) && i <= |to|
    ensures Valid(root, pos) && Leads(root, Additions(Render(steps), to, i), PutAt(root, pos, Array(cur + to[i..])))
    decreases |to| - i
  {
    hide Leads, PutAt, ItemAt, Settled, PathBelow, Extend, Compose, Survives, Valid, Render;
    SettledAfter(root, steps, pos, Array([]));
    if i == |to| {
      assert cur + to[i..] == cur;
      LeadsNowhere(root);
    } else {
      var longer := cur + [to[i]];
      PlainSurvives([MINUS]);
      SettledFacts(root, steps, pos, Key([MINUS]));
      AppendedItem(root, steps, pos, Extend(Render(steps), [MINUS]), cur, to[i]);
      SettledAfter(root, steps, pos, Array(longer));
      var root' := PutAt(root, pos, Array(longer));
      AdditionsLead(root', steps, pos, longer, to, i + 1);
      assert longer + to[i + 1..] == cur + to[i..];
      PutAtTwice(root, pos, Array(longer), Array(cur + to[i..]));
      LeadsThrough(root, [Compose(ADD, Extend(Render(steps), [MINUS]), Some(to[i]))], root',
                   Additions(Render(steps), to, i + 1), PutAt(root, pos, Array(cur + to[i..])));
    }
  }

  // ----- Changing one item -----

  /** When the parts are not compared further, there is nothing to do or one replacement. */
  lemma LeafPatches(path: cstring, from: Value, to: Value)
    requires !Inside(from, to)
    ensures Patches(path, from, to, true) ==
      (if Denote(from) == Denote(to) then [] else [Compose(REPLACE, path, Some(to))])
  {
  }

  /** The element at index `i` becomes what `to` denotes, the others stay. */
  lemma {:induction false} ItemChanged(root: Value, steps: seq<Step>, pos: Position, i: nat, cur: seq<Value>,
                                       from: Value, to: Value)
    returns (y: Value)
    requires Settled(root, steps, pos) && ItemAt(root, pos) == Array(cur) && i < |cur| && i < SIZE_MOD
    requires Denote(cur[i]) == Denote(from) && Distinct(cur[i])
    requires Patchable(from, to) && Distinct(from) && Distinct(to)
    ensures Denote(y) == Denote(to) && Distinct(y) && Valid(root, pos)
    ensures Leads(root, Patches(Render(steps) + ([SLASH] + Digits(i)), from, to, true),
                  PutAt(root, pos, Array(cur[i := y])))
    decreases Nesting(from), 2, 0
  {
    hide Leads, PutAt, Settled, PathBelow, Patches, Denote, Distinct, Patchable, Compose, Walk;
    var path := Render(steps) + ([SLASH] + Digits(i));
    SettledFacts(root, steps, pos, Index(i));
    SettledAfter(root, steps, pos, Array(cur));
    if Inside(from, to) {
      SettledBelow(root, steps, pos, Index(i), i);
      y := Change(root, steps + [Index(i)], pos + [i], from, to);
      PutAtChild(root, pos, i, y);
      PutInArray(cur, i, y);
    } else {
      LeafPatches(path, from, to);
      if Denote(from) == Denote(to) {
        y := cur[i];
        assert cur[i := y] == cur;
        LeadsNowhere(root);
      } else {
        y := to;
        ReplacedIndex(root, steps, pos, i, path, cur, to);
      }
    }
  }

  lemma PutInArray(cur: seq<Value>, i: nat, y: Value)
    requires i < |cur|
    ensures Valid(Array(cur), [i]) && PutAt(Array(cur), [i], y) == Array(cur[i := y])
  {
    assert [i][1..] == [];
  }

  lemma SettledBelow(root: Value, steps: seq<Step>, pos: Position, s: Step, i: nat)
    requires Settled(root, steps, pos) && Fits(s) && Valid(root, pos) && StepDown(ItemAt(root, pos), s) == Some(i)
    ensures Settled(root, steps + [s], pos + [i])
    ensures Render(steps + [s]) == Render(steps) + ([SLASH] + StepText(s))
    ensures s.Key? ==> Render(steps + [s]) == Extend(Render(steps), s.key)
    ensures Valid(root, pos + [i]) && ItemAt(root, pos + [i]) == Child(ItemAt(root, pos), i)
  {
    WalkMore(root, steps, pos, s, i);
    RenderMore(steps, s);
  }

  /** Elements before `i` denote what `to` wants, the others still what `from` had. */
  ghost predicate ItemsSoFar(cur: seq<Value>, from: seq<Value>, to: seq<Value>, i: nat)
    requires i <= |from| && i <= |to|
  {
    && |cur| == |from|
    && (forall k :: 0 <= k < i ==> Denote(cur[k]) == Denote(to[k]))
    && (forall k :: i <= k < |from| ==> Denote(cur[k]) == Denote(from[k]))
    && (forall k :: 0 <= k < |cur| ==> Distinct(cur[k]))
  }

  lemma DistinctItem(items: seq<Value>, i: nat)
    requires Distinct(Array(items)) && i < |items|
    ensures Distinct(items[i])
  {
  }

  lemma {:induction false} ItemsChanged(root: Value, steps: seq<Step>, pos: Position, cur: seq<Value>,
                                        from: seq<Value>, to: seq<Value>, i: nat, n: nat)
    returns (x: Value)
    requires Settled(root, steps, pos) && ItemAt(root, pos) == Array(cur)
    requires i <= |from| && i <= |to| && ItemsWithin(from, n) && Patchable(Array(from), Array(to))
    requires Distinct(Array(from)) && Distinct(Array(to))
    requires ItemsSoFar(cur, from, to, i)
    ensures Denote(x) == Denote(Array(to)) && Distinct(x) && Valid(root, pos)
    ensures Leads(root, PatchItems(Render(steps), from, to, i, true, n), PutAt(root, pos, x))
    decreases n + 1, 0, |from| - i
  {
    hide Leads, PutAt, Settled, Patches, Denote, Distinct, Removals, Additions;
    if i < |from| && i < |to| {
      DistinctItem(from, i);
      DistinctItem(to, i);
      var y := ItemChanged(root, steps, pos, i, cur, from[i], to[i]);
      var cur', path := cur[i := y], Render(steps) + ([SLASH] + Digits(i));
      var root' := PutAt(root, pos, Array(cur'));
      SettledAfter(root, steps, pos, Array(cur'));
      x := ItemsChanged(root', steps, pos, cur', from, to, i + 1, n);
      PutAtTwice(root, pos, Array(cur'), x);
      LeadsThrough(root, Patches(path, from[i], to[i], true), root',
                   PatchItems(Render(steps), from, to, i + 1, true, n),
                   PutAt(root, pos, x));
    } else {
      x := ItemsTrimmed(root, steps, pos, cur, from, to, i);
    }
  }

  lemma ItemsTrimmed(root: Value, steps: seq<Step>, pos: Position, cur: seq<Value>, from: seq<Value>, to: seq<Value>,
                     i: nat)
    returns (x: Value)
    requires Settled(root, steps, pos) && ItemAt(root, pos) == Array(cur)
    requires i <= |from| && i <= |to| && (i == |from| || i == |to|) && Patchable(Array(from), Array(to))
    requires Distinct(Array(to))
    requires ItemsSoFar(cur, from, to, i)
    ensures Denote(x) == Denote(Array(to)) && Distinct(x) && Valid(root, pos)
    ensures Leads(root, Removals(Render(steps), i, |from| - i) + Additions(Render(steps), to, i), PutAt(root, pos, x))
  {
    RemovalsLead(root, steps, pos, cur, i, |from| - i);
    var root' := PutAt(root, pos, Array(cur[..i]));
    SettledAfter(root, steps, pos, Array(cur[..i]));
    AdditionsLead(root', steps, pos, cur[..i], to, i);
    x := Array(cur[..i] + to[i..]);
    TrimmedMeaning(cur, to, i);
    hide Leads, PutAt, Settled, Denote, Distinct, Removals, Additions, Walk, ItemAt, Valid;
    PutAtTwice(root, pos, Array(cur[..i]), x);
    LeadsThrough(root, Removals(Render(steps), i, |from| - i), root', Additions(Render(steps), to, i),
                 PutAt(root, pos, x));
  }

  lemma TrimmedMeaning(cur: seq<Value>, to: seq<Value>, i: nat)
    requires i <= |cur| && i <= |to| && Distinct(Array(to))
    requires (forall k :: 0 <= k < i ==> Denote(cur[k]) == Denote(to[k]))
    requires (forall k :: 0 <= k < |cur| ==> Distinct(cur[k]))
    ensures Denote(Array(cur[..i] + to[i..])) == Denote(Array(to)) && Distinct(Array(cur[..i] + to[i..]))
  {
    var all := cur[..i] + to[i..];
    assert DenoteItems(all) == DenoteItems(to);
  }

  // ----- Objects: single operations -----

  lemma RemovedKey(root: Value, steps: seq<Step>, pos: Position, cur: seq<Member>, x: nat)
    requires Settled(root, steps, pos) && ItemAt(root, pos) == Object(cur) && x < |cur| && Survives(cur[x].key)
    requires FindKey(cur, 0, cur[x].key, false) == Some(x)
    ensures Valid(root, pos)
    ensures Leads(root, [Compose(REMOVE, Extend(Render(steps), cur[x].key), None)],
                  PutAt(root, pos, Object(RemoveAt(cur, x))))
  {
    hide PathBelow, ApplyPatch, DetachPath, PutAt, Settled, Survives, Extend;
    var path := Extend(Render(steps), cur[x].key);
    SettledFacts(root, steps, pos, Key(cur[x].key));
    PathBelowFacts(root, steps, pos, Key(cur[x].key), path);
    DetachKey(root, steps, pos, cur[x].key, path, x);
    ComposedPatch(Live(root), REMOVE, path, None);
    LeadsOne(root, Compose(REMOVE, path, None), PutAt(root, pos, Object(RemoveAt(cur, x))));
  }

  lemma AddedKey(root: Value, steps: seq<Step>, pos: Position, cur: seq<Member>, m: Member)
    requires Settled(root, steps, pos) && ItemAt(root, pos) == Object(cur) && Survives(m.key)
    requires FindKey(cur, 0, m.key, true) == None
    ensures Valid(root, pos)
    ensures Leads(root, [Compose(ADD, Extend(Render(steps), m.key), Some(m.value))],
                  PutAt(root, pos, Object(cur + [m])))
  {
    hide PathBelow, ApplyPatch, AddAt, PutAt, Settled, Survives, Extend;
    var path := Extend(Render(steps), m.key);
    SettledFacts(root, steps, pos, Key(m.key));
    PathBelowFacts(root, steps, pos, Key(m.key), path);
    AddKey(root, steps, pos, m.key, path, m.value);
    ComposedPatch(Live(root), ADD, path, Some(m.value));
    LeadsOne(root, Compose(ADD, path, Some(m.value)), PutAt(root, pos, Object(cur + [m])));
  }

  lemma ReplacedKey(root: Value, steps: seq<Step>, pos: Position, cur: seq<Member>, x: nat, value: Value)
    requires Settled(root, steps, pos) && ItemAt(root, pos) == Object(cur) && x < |cur| && Survives(cur[x].key)
    requires FindKey(cur, 0, cur[x].key, false) == Some(x) && UniqueKeys(cur)
    ensures Valid(root, pos)
    ensures Leads(root, [Compose(REPLACE, Extend(Render(steps), cur[x].key), Some(value))],
                  PutAt(root, pos, Object(RemoveAt(cur, x) + [Member(cur[x].key, value)])))
  {
    var key, shorter := cur[x].key, RemoveAt(cur, x);
    var path, m := Extend(Render(steps), key), Member(key, value);
    SettledFacts(root, steps, pos, Key(key));
    PathBelowFacts(root, steps, pos, Key(key), path);
    PathKept(root, steps, pos, Key(key), path, Object(shorter));
    UniqueRemove(cur, x);
    assert FindKey(shorter, 0, key, true) == None;
    hide PathBelow, ApplyPatch, DetachPath, AddAt, PutAt, Settled, Survives, Extend, Compose, Leads, RemoveAt, ItemAt,
         Valid;
    DetachKey(root, steps, pos, key, path, x);
    AddKey(PutAt(root, pos, Object(shorter)), steps, pos, key, path, value);
    PutAtTwice(root, pos, Object(shorter), Object(shorter + [m]));
    ComposedPatch(Live(root), REPLACE, path, Some(value));
    LeadsOne(root, Compose(REPLACE, path, Some(value)), PutAt(root, pos, Object(shorter + [m])));
  }

  // ----- Objects: the walk -----

  /** Everything walked over is smaller than everything still ahead in the other list. */
  predicate Apart(from: seq<Member>, to: seq<Member>, i: nat, j: nat) {
    && (forall a, b :: 0 <= a < i && a < |from| && j <= b < |to| ==> Less(from[a].key, to[b].key))
    && (forall a, b :: i <= a < |from| && 0 <= b < j && b < |to| ==> Less(to[b].key, from[a].key))
  }

  /** A detachable key still to come is found first by a lookup that ignores case. */
  predicate FoundFirst(cur: seq<Member>, from: seq<Member>, i: nat) {
    forall a :: i <= a < |from| && Detachable(from, from[a].key) ==>
      FindKey(cur, 0, from[a].key, false) == FindKey(cur, 0, from[a].key, true)
  }

  /** The object so far: what is left of `from` and what has been taken over from `to`. */
  ghost predicate MembersSoFar(cur: seq<Member>, from: seq<Member>, to: seq<Member>, i: nat, j: nat)
    requires i <= |from| && j <= |to|
  {
    && UniqueKeys(cur) && AllDistinct(cur) && FoundFirst(cur, from, i)
    && DenoteMembers(cur) == DenoteFrom(from, i) + DenoteMembers(to[..j])
  }

  lemma KeyAhead(from: seq<Member>, i: nat)
    requires KeysAscend(from) && i < |from|
    ensures from[i].key !in DenoteFrom(from, i + 1)
    ensures DenoteFrom(from, i) == DenoteFrom(from, i + 1)[from[i].key := Denote(from[i].value)]
  {
    HeadNotLater(from, i);
  }

  lemma KeyTaken(from: seq<Member>, to: seq<Member>, i: nat, j: nat)
    requires Apart(from, to, i, j) && i < |from| && j <= |to|
    ensures from[i].key !in DenoteMembers(to[..j])
  {
    if from[i].key in DenoteMembers(to[..j]) {
      var b := MemberNamed(to[..j], from[i].key);
      LessIrreflexive(from[i].key);
      assert false;
    }
  }

  lemma {:induction false} KeyNew(from: seq<Member>, to: seq<Member>, i: nat, j: nat)
    requires KeysAscend(from) && KeysAscend(to) && Apart(from, to, i, j) && i <= |from| && j < |to|
    requires i < |from| ==> Less(to[j].key, from[i].key)
    ensures to[j].key !in DenoteFrom(from, i) && to[j].key !in DenoteMembers(to[..j])
  {
    hide Denote, DenoteFrom, Less;
    var key := to[j].key;
    LessIrreflexive(key);
    if key in DenoteFrom(from, i) {
      var a := InLater(from, i, key);
      if i < a { LessTransitive(key, from[i].key, from[a].key); }
      assert false;
    }
    if key in DenoteMembers(to[..j]) {
      var b := MemberNamed(to[..j], key);
      assert false;
    }
  }

  lemma TakenMore(to: seq<Member>, j: nat)
    requires KeysAscend(to) && j < |to| && to[j].key !in DenoteMembers(to[..j])
    ensures DenoteMembers(to[..j + 1]) == DenoteMembers(to[..j])[to[j].key := Denote(to[j].value)]
  {
    assert to[..j + 1] == to[..j] + [to[j]];
    AscendUnique(to);
    DenoteAppend(to[..j], to[j]);
  }

  lemma AscendUnique(members: seq<Member>)
    requires KeysAscend(members)
    ensures UniqueKeys(members)
  {
    forall i, j | 0 <= i < j < |members| ensures members[i].key != members[j].key {
      LessIrreflexive(members[i].key);
    }
  }

  lemma FindAt(cur: seq<Member>, name: bytes, caseSensitive: bool, x: nat)
    requires x < |cur| && SameKey(name, cur[x].key, caseSensitive)
    requires forall k :: 0 <= k < x ==> !SameKey(name, cur[k].key, caseSensitive)
    ensures FindKey(cur, 0, name, caseSensitive) == Some(x)
  {
  }

  /** Removing a member that does not match leaves the same first match. */
  lemma FindAfterRemove(cur: seq<Member>, x: nat, name: bytes)
    requires x < |cur| && !SameKey(name, cur[x].key, false)
    requires FindKey(cur, 0, name, false) == FindKey(cur, 0, name, true)
    ensures FindKey(RemoveAt(cur, x), 0, name, false) == FindKey(RemoveAt(cur, x), 0, name, true)
  {
    var shorter, r := RemoveAt(cur, x), FindKey(cur, 0, name, true);
    if r.Some? {
      var y := if r.value < x then r.value else r.value - 1;
      FindAt(shorter, name, false, y);
      FindAt(shorter, name, true, y);
    }
  }

  /** Appending leaves a match that was there. */
  lemma FindAfterAppend(cur: seq<Member>, m: Member, name: bytes)
    requires FindKey(cur, 0, name, false) == FindKey(cur, 0, name, true)
    requires FindKey(cur, 0, name, true).Some? || !SameKey(name, m.key, false)
    ensures FindKey(cur + [m], 0, name, false) == FindKey(cur + [m], 0, name, true)
  {
    var longer, r := cur + [m], FindKey(cur, 0, name, true);
    if r.Some? {
      FindAt(longer, name, false, r.value);
      FindAt(longer, name, true, r.value);
    }
  }

  lemma StillThere(cur: seq<Member>, from: seq<Member>, to: seq<Member>, i: nat, j: nat, a: nat)
    requires i <= |from| && j <= |to| && MembersSoFar(cur, from, to, i, j) && i <= a < |from|
    ensures FindKey(cur, 0, from[a].key, true).Some?
  {
    InDenoted(from, i, a);
    DenoteLookup(cur, 0, from[a].key);
  }

  lemma {:induction false} InDenoted(from: seq<Member>, i: nat, a: nat)
    requires i <= a < |from|
    ensures from[a].key in DenoteFrom(from, i)
    decreases a - i
  {
    if i < a { InDenoted(from, i + 1, a); }
  }

  lemma NamesApart(from: seq<Member>, i: nat, a: nat)
    requires KeysAscend(from) && i < a < |from| && Detachable(from, from[a].key)
    ensures !SameKey(from[a].key, from[i].key, false)
  {
    LessIrreflexive(from[i].key);
  }

  lemma {:induction false} AfterRemoval(cur: seq<Member>, from: seq<Member>, to: seq<Member>, i: nat, j: nat, x: nat)
    requires i < |from| && j <= |to| && MembersSoFar(cur, from, to, i, j)
    requires KeysAscend(from) && Apart(from, to, i, j) && FindKey(cur, 0, from[i].key, true) == Some(x)
    ensures MembersSoFar(RemoveAt(cur, x), from, to, i + 1, j)
  {
    hide FindKey, DenoteFrom, Denote, Distinct, KeysAscend, Less, UniqueKeys;
    KeyAhead(from, i);
    KeyTaken(from, to, i, j);
    DenoteRemove(cur, x);
    forall a | i + 1 <= a < |from| && Detachable(from, from[a].key)
      ensures FindKey(RemoveAt(cur, x), 0, from[a].key, false) == FindKey(RemoveAt(cur, x), 0, from[a].key, true)
    {
      NamesApart(from, i, a);
      FindAfterRemove(cur, x, from[a].key);
    }
  }

  lemma {:induction false} AfterAddition(cur: seq<Member>, from: seq<Member>, to: seq<Member>, i: nat, j: nat)
    requires i <= |from| && j < |to| && MembersSoFar(cur, from, to, i, j) && Distinct(to[j].value)
    requires KeysAscend(from) && KeysAscend(to) && Apart(from, to, i, j)
    requires i < |from| ==> Less(to[j].key, from[i].key)
    ensures FindKey(cur, 0, to[j].key, true) == None
    ensures MembersSoFar(cur + [to[j]], from, to, i, j + 1)
  {
    hide FindKey, DenoteFrom, Denote, Distinct, KeysAscend, Less, UniqueKeys;
    KeyNew(from, to, i, j);
    DenoteLookup(cur, 0, to[j].key);
    TakenMore(to, j);
    DenoteAppend(cur, to[j]);
    forall a | i <= a < |from| && Detachable(from, from[a].key)
      ensures FindKey(cur + [to[j]], 0, from[a].key, false) == FindKey(cur + [to[j]], 0, from[a].key, true)
    {
      StillThere(cur, from, to, i, j, a);
      FindAfterAppend(cur, to[j], from[a].key);
    }
  }

  /** The value of the member at `x` has become `y`, in place or in a new last member. */
  predicate Revalued(cur: seq<Member>, x: nat, y: Value, cur': seq<Member>)
    requires x < |cur|
  {
    cur' == cur[x := Member(cur[x].key, y)] || cur' == RemoveAt(cur, x) + [Member(cur[x].key, y)]
  }

  lemma RevaluedMeaning(cur: seq<Member>, x: nat, y: Value, cur': seq<Member>)
    requires x < |cur| && UniqueKeys(cur) && AllDistinct(cur) && Distinct(y) && Revalued(cur, x, y, cur')
    ensures UniqueKeys(cur') && AllDistinct(cur')
    ensures DenoteMembers(cur') == DenoteMembers(cur)[cur[x].key := Denote(y)]
  {
    DenoteUpdate(cur, x, y);
    DenoteRemove(cur, x);
    DenoteAppend(RemoveAt(cur, x), Member(cur[x].key, y));
  }

  lemma RevaluedFound(cur: seq<Member>, x: nat, y: Value, cur': seq<Member>, name: bytes)
    requires x < |cur| && Revalued(cur, x, y, cur') && !SameKey(name, cur[x].key, false)
    requires FindKey(cur, 0, name, false) == FindKey(cur, 0, name, true)
    ensures FindKey(cur', 0, name, false) == FindKey(cur', 0, name, true)
  {
    if cur' == cur[x := Member(cur[x].key, y)] {
      FindKeyKeys(cur, cur', 0, name, false);
      FindKeyKeys(cur, cur', 0, name, true);
    } else {
      FindAfterRemove(cur, x, name);
      FindAfterAppend(RemoveAt(cur, x), Member(cur[x].key, y), name);
    }
  }

  lemma {:induction false} AfterChange(cur: seq<Member>, from: seq<Member>, to: seq<Member>, i: nat, j: nat, x: nat,
                                       y: Value, cur': seq<Member>)
    requires i < |from| && j < |to| && MembersSoFar(cur, from, to, i, j)
    requires KeysAscend(from) && KeysAscend(to) && Apart(from, to, i, j) && from[i].key == to[j].key
    requires FindKey(cur, 0, from[i].key, true) == Some(x) && Revalued(cur, x, y, cur')
    requires Denote(y) == Denote(to[j].value) && Distinct(y)
    ensures MembersSoFar(cur', from, to, i + 1, j + 1)
  {
    hide FindKey, DenoteFrom, Denote, Distinct, KeysAscend, Less, UniqueKeys;
    KeyAhead(from, i);
    KeyTaken(from, to, i, j);
    TakenMore(to, j);
    RevaluedMeaning(cur, x, y, cur');
    forall a | i + 1 <= a < |from| && Detachable(from, from[a].key)
      ensures FindKey(cur', 0, from[a].key, false) == FindKey(cur', 0, from[a].key, true)
    {
      NamesApart(from, i, a);
      RevaluedFound(cur, x, y, cur', from[a].key);
    }
  }

  lemma ApartNext(from: seq<Member>, to: seq<Member>, i: nat, j: nat)
    requires KeysAscend(from) && KeysAscend(to) && i <= |from| && j <= |to| && Apart(from, to, i, j)
    ensures i < |from| && (j < |to| ==> Less(from[i].key, to[j].key)) ==> Apart(from, to, i + 1, j)
    ensures j < |to| && (i < |from| ==> Less(to[j].key, from[i].key)) ==> Apart(from, to, i, j + 1)
    ensures i < |from| && j < |to| && from[i].key == to[j].key ==> Apart(from, to, i + 1, j + 1)
  {
    if i < |from| && (j < |to| ==> Less(from[i].key, to[j].key)) {
      forall b | j < b < |to| ensures Less(from[i].key, to[b].key) {
        LessTransitive(from[i].key, to[j].key, to[b].key);
      }
    }
    if j < |to| && (i < |from| ==> Less(to[j].key, from[i].key)) {
      forall a | i < a < |from| ensures Less(to[j].key, from[a].key) {
        LessTransitive(to[j].key, from[i].key, from[a].key);
      }
    }
  }

  /** The member at `x` comes to denote `to`; the others stay, though `x` may move to the end. */
  lemma {:induction false} MemberChanged(root: Value, steps: seq<Step>, pos: Position, cur: seq<Member>, x: nat,
                                         from: Value, to: Value)
    returns (y: Value, cur': seq<Member>)
    requires Settled(root, steps, pos) && ItemAt(root, pos) == Object(cur) && x < |cur| && UniqueKeys(cur)
    requires FindKey(cur, 0, cur[x].key, true) == Some(x)
    requires Denote(cur[x].value) == Denote(from) && Distinct(cur[x].value) && Distinct(from) && Distinct(to)
    requires Inside(from, to) ==> Patchable(from, to)
    requires !Inside(from, to) && Denote(from) != Denote(to) ==>
               Survives(cur[x].key) && FindKey(cur, 0, cur[x].key, false) == Some(x)
    ensures Denote(y) == Denote(to) && Distinct(y) && Revalued(cur, x, y, cur') && Valid(root, pos)
    ensures Leads(root, Patches(Extend(Render(steps), cur[x].key), from, to, true), PutAt(root, pos, Object(cur')))
    decreases Nesting(from), 2, 0
  {
    hide Leads, PutAt, Settled, PathBelow, Patches, Denote, Distinct, Patchable, Compose, Walk, Survives, Extend,
         UniqueKeys;
    var key := cur[x].key;
    SettledAfter(root, steps, pos, Object(cur));
    if Inside(from, to) {
      SettledBelow(root, steps, pos, Key(key), x);
      y := Change(root, steps + [Key(key)], pos + [x], from, to);
      PutAtChild(root, pos, x, y);
      PutInObject(cur, x, y);
      cur' := cur[x := Member(key, y)];
    } else {
      LeafPatches(Extend(Render(steps), key), from, to);
      if Denote(from) == Denote(to) {
        y, cur' := cur[x].value, cur;
        assert cur[x := Member(key, y)] == cur;
        LeadsNowhere(root);
      } else {
        y, cur' := to, RemoveAt(cur, x) + [Member(key, to)];
        ReplacedKey(root, steps, pos, cur, x, to);
      }
    }
  }

  lemma PutInObject(cur: seq<Member>, x: nat, y: Value)
    requires x < |cur|
    ensures Valid(Object(cur), [x]) && PutAt(Object(cur), [x], y) == Object(cur[x := Member(cur[x].key, y)])
  {
    assert [x][1..] == [];
  }

  /** What the walk needs to know of the two sorted member lists. */
  ghost predicate Walkable(from: seq<Member>, to: seq<Member>, i: nat, j: nat, n: nat) {
    && i <= |from| && j <= |to| && MembersWithin(from, n)
    && KeysAscend(from) && KeysAscend(to) && MembersPatchable(from, to)
    && AllDistinct(from) && AllDistinct(to) && Apart(from, to, i, j)
  }

  lemma OnlyInFrom(from: seq<Member>, to: seq<Member>, i: nat, j: nat)
    requires KeysAscend(to) && Apart(from, to, i, j) && i < |from| && j <= |to|
    requires j < |to| ==> Less(from[i].key, to[j].key)
    ensures !Has(to, from[i].key)
  {
    LessIrreflexive(from[i].key);
    forall b | 0 <= b < |to| ensures to[b].key != from[i].key {
      if j < b { LessTransitive(from[i].key, to[j].key, to[b].key); }
    }
  }

  lemma OnlyInTo(from: seq<Member>, to: seq<Member>, i: nat, j: nat)
    requires KeysAscend(from) && Apart(from, to, i, j) && i <= |from| && j < |to|
    requires i < |from| ==> Less(to[j].key, from[i].key)
    ensures !Has(from, to[j].key)
  {
    LessIrreflexive(to[j].key);
    forall a | 0 <= a < |from| ensures from[a].key != to[j].key {
      if i < a { LessTransitive(to[j].key, from[i].key, from[a].key); }
    }
  }

  lemma WalkableNext(from: seq<Member>, to: seq<Member>, i: nat, j: nat, n: nat, i': nat, j': nat)
    requires Walkable(from, to, i, j, n) && i' <= |from| && j' <= |to| && Apart(from, to, i', j')
    ensures Walkable(from, to, i', j', n)
  {
  }

  lemma ReadyToRemove(cur: seq<Member>, from: seq<Member>, to: seq<Member>, i: nat, j: nat, n: nat) returns (k: nat)
    requires Walkable(from, to, i, j, n) && MembersSoFar(cur, from, to, i, j) && i < |from|
    requires j < |to| ==> Less(from[i].key, to[j].key)
    ensures k < |cur| && cur[k].key == from[i].key && Survives(from[i].key)
    ensures FindKey(cur, 0, from[i].key, true) == FindKey(cur, 0, from[i].key, false) == Some(k)
    ensures j <= |to| && KeysAscend(from) && Apart(from, to, i, j) && MembersWithin(from, n)
  {
    hide DenoteMembers, DenoteFrom, Denote, Distinct, Less, Survives, UniqueKeys;
    StillThere(cur, from, to, i, j, i);
    OnlyInFrom(from, to, i, j);
    k := FindKey(cur, 0, from[i].key, true).value;
  }

  lemma ReadyToAdd(from: seq<Member>, to: seq<Member>, i: nat, j: nat, n: nat)
    requires Walkable(from, to, i, j, n) && j < |to|
    requires i < |from| ==> Less(to[j].key, from[i].key)
    ensures Survives(to[j].key) && Distinct(to[j].value)
    ensures i <= |from| && KeysAscend(from) && KeysAscend(to) && Apart(from, to, i, j) && MembersWithin(from, n)
  {
    hide Distinct, Less, Survives;
    OnlyInTo(from, to, i, j);
  }

  lemma ReadyToChange(cur: seq<Member>, from: seq<Member>, to: seq<Member>, i: nat, j: nat, n: nat) returns (k: nat)
    requires Walkable(from, to, i, j, n) && MembersSoFar(cur, from, to, i, j) && i < |from| && j < |to|
    requires from[i].key == to[j].key
    ensures k < |cur| && cur[k].key == from[i].key && FindKey(cur, 0, from[i].key, true) == Some(k) && UniqueKeys(cur)
    ensures Denote(cur[k].value) == Denote(from[i].value) && Distinct(cur[k].value)
    ensures Distinct(from[i].value) && Distinct(to[j].value)
    ensures if Inside(from[i].value, to[j].value) then Patchable(from[i].value, to[j].value)
            else
              || Denote(from[i].value) == Denote(to[j].value)
              || (Survives(from[i].key) && FindKey(cur, 0, from[i].key, false) == Some(k))
    ensures KeysAscend(from) && KeysAscend(to) && Apart(from, to, i, j) && MembersWithin(from, n)
  {
    hide DenoteMembers, DenoteFrom, Denote, Distinct, Less, Survives, UniqueKeys, Patchable, Inside;
    StillThere(cur, from, to, i, j, i);
    k := FindKey(cur, 0, from[i].key, true).value;
    ValueAhead(cur, from, to, i, j, k);
  }

  lemma {:induction false} MembersChanged(root: Value, steps: seq<Step>, pos: Position, cur: seq<Member>,
                                          from: seq<Member>, to: seq<Member>, i: nat, j: nat, n: nat)
    returns (x: Value)
    requires Settled(root, steps, pos) && ItemAt(root, pos) == Object(cur)
    requires Walkable(from, to, i, j, n) && MembersSoFar(cur, from, to, i, j)
    ensures Denote(x) == DObject(DenoteMembers(to)) && Distinct(x) && Valid(root, pos)
    ensures Leads(root, PatchMembers(Render(steps), from, to, i, j, true, n), PutAt(root, pos, x))
    decreases n + 1, 0, |from| - i + |to| - j
  {
    SettledAfter(root, steps, pos, Object(cur));
    ApartNext(from, to, i, j);
    if i == |from| && j == |to| {
      x := Object(cur);
      assert to[..j] == to;
      LeadsNowhere(root);
    } else if j == |to| || (i < |from| && Less(from[i].key, to[j].key)) {
      x := RemoveAndGoOn(root, steps, pos, cur, from, to, i, j, n);
    } else if i == |from| || from[i].key != to[j].key {
      if i < |from| { LessTotal(from[i].key, to[j].key); }
      x := AddAndGoOn(root, steps, pos, cur, from, to, i, j, n);
    } else {
      LessIrreflexive(from[i].key);
      x := ChangeAndGoOn(root, steps, pos, cur, from, to, i, j, n);
    }
  }

  lemma {:induction false} RemoveAndGoOn(root: Value, steps: seq<Step>, pos: Position, cur: seq<Member>,
                                         from: seq<Member>, to: seq<Member>, i: nat, j: nat, n: nat)
    returns (x: Value)
    requires Settled(root, steps, pos) && ItemAt(root, pos) == Object(cur)
    requires Walkable(from, to, i, j, n) && MembersSoFar(cur, from, to, i, j) && i < |from| && Apart(from, to, i + 1, j)
    requires j < |to| ==> Less(from[i].key, to[j].key)
    ensures Denote(x) == DObject(DenoteMembers(to)) && Distinct(x) && Valid(root, pos)
    ensures Leads(root, PatchMembers(Render(steps), from, to, i, j, true, n), PutAt(root, pos, x))
    decreases n + 1, 0, |from| - i + |to| - j, 0
  {
    hide Leads, PutAt, Settled, Walkable, MembersSoFar, Patches, Compose, Denote, DenoteFrom, DenoteMembers, FindKey,
         ItemAt, Valid, Distinct, Inside, Detachable, Survives, Patchable, MembersPatchable, UniqueKeys, Extend, Render,
         Walk, Apart, KeysAscend;
    var k := ReadyToRemove(cur, from, to, i, j, n);
    var shorter := RemoveAt(cur, k);
    RemovedKey(root, steps, pos, cur, k);
    AfterRemoval(cur, from, to, i, j, k);
    SettledAfter(root, steps, pos, Object(shorter));
    var root' := PutAt(root, pos, Object(shorter));
    WalkableNext(from, to, i, j, n, i + 1, j);
    x := MembersChanged(root', steps, pos, shorter, from, to, i + 1, j, n);
    PutAtTwice(root, pos, Object(shorter), x);
    LeadsThrough(root, [Compose(REMOVE, Extend(Render(steps), from[i].key), None)], root',
                 PatchMembers(Render(steps), from, to, i + 1, j, true, n), PutAt(root, pos, x));
  }

  lemma {:induction false} AddAndGoOn(root: Value, steps: seq<Step>, pos: Position, cur: seq<Member>,
                                      from: seq<Member>, to: seq<Member>, i: nat, j: nat, n: nat)
    returns (x: Value)
    requires Settled(root, steps, pos) && ItemAt(root, pos) == Object(cur)
    requires Walkable(from, to, i, j, n) && MembersSoFar(cur, from, to, i, j) && j < |to| && Apart(from, to, i, j + 1)
    requires i < |from| ==> Less(to[j].key, from[i].key) && !Less(from[i].key, to[j].key) && from[i].key != to[j].key
    ensures Denote(x) == DObject(DenoteMembers(to)) && Distinct(x) && Valid(root, pos)
    ensures Leads(root, PatchMembers(Render(steps), from, to, i, j, true, n), PutAt(root, pos, x))
    decreases n + 1, 0, |from| - i + |to| - j, 0
  {
    hide Leads, PutAt, Settled, Walkable, MembersSoFar, Patches, Compose, Denote, DenoteFrom, DenoteMembers, FindKey,
         ItemAt, Valid, Distinct, Inside, Detachable, Survives, Patchable, MembersPatchable, UniqueKeys, Extend, Render,
         Walk, Apart, KeysAscend;
    var longer := cur + [to[j]];
    ReadyToAdd(from, to, i, j, n);
    AfterAddition(cur, from, to, i, j);
    AddedKey(root, steps, pos, cur, to[j]);
    SettledAfter(root, steps, pos, Object(longer));
    var root' := PutAt(root, pos, Object(longer));
    WalkableNext(from, to, i, j, n, i, j + 1);
    x := MembersChanged(root', steps, pos, longer, from, to, i, j + 1, n);
    PutAtTwice(root, pos, Object(longer), x);
    LeadsThrough(root, [Compose(ADD, Extend(Render(steps), to[j].key), Some(to[j].value))], root',
                 PatchMembers(Render(steps), from, to, i, j + 1, true, n), PutAt(root, pos, x));
  }

  lemma {:induction false} ChangeAndGoOn(root: Value, steps: seq<Step>, pos: Position, cur: seq<Member>,
                                         from: seq<Member>, to: seq<Member>, i: nat, j: nat, n: nat)
    returns (x: Value)
    requires Settled(root, steps, pos) && ItemAt(root, pos) == Object(cur)
    requires Walkable(from, to, i, j, n) && MembersSoFar(cur, from, to, i, j) && i < |from| && j < |to|
    requires Apart(from, to, i + 1, j + 1) && from[i].key == to[j].key && !Less(from[i].key, to[j].key)
    ensures Denote(x) == DObject(DenoteMembers(to)) && Distinct(x) && Valid(root, pos)
    ensures Leads(root, PatchMembers(Render(steps), from, to, i, j, true, n), PutAt(root, pos, x))
    decreases n + 1, 0, |from| - i + |to| - j, 0
  {
    hide Leads, PutAt, Settled, Walkable, MembersSoFar, Patches, Compose, Denote, DenoteFrom, DenoteMembers, FindKey,
         ItemAt, Valid, Distinct, Inside, Detachable, Survives, Patchable, MembersPatchable, UniqueKeys, Extend, Render,
         Walk, Apart, KeysAscend;
    var k := ReadyToChange(cur, from, to, i, j, n);
    var y, cur' := MemberChanged(root, steps, pos, cur, k, from[i].value, to[j].value);
    AfterChange(cur, from, to, i, j, k, y, cur');
    SettledAfter(root, steps, pos, Object(cur'));
    var root' := PutAt(root, pos, Object(cur'));
    WalkableNext(from, to, i, j, n, i + 1, j + 1);
    x := MembersChanged(root', steps, pos, cur', from, to, i + 1, j + 1, n);
    PutAtTwice(root, pos, Object(cur'), x);
    LeadsThrough(root, Patches(Extend(Render(steps), from[i].key), from[i].value, to[j].value, true), root',
                 PatchMembers(Render(steps), from, to, i + 1, j + 1, true, n), PutAt(root, pos, x));
  }

  lemma ValueAhead(cur: seq<Member>, from: seq<Member>, to: seq<Member>, i: nat, j: nat, k: nat)
    requires i < |from| && j <= |to| && MembersSoFar(cur, from, to, i, j) && Apart(from, to, i, j)
    requires FindKey(cur, 0, from[i].key, true) == Some(k)
    ensures Denote(cur[k].value) == Denote(from[i].value)
  {
    KeyTaken(from, to, i, j);
    DenoteLookup(cur, 0, from[i].key);
  }

  lemma SortedHas(members: seq<Member>, key: bytes)
    ensures Has(Sort(members, true), key) <==> Has(members, key)
  {
    SortCorrect(members, true);
    var sorted := Sort(members, true);
    forall m: Member ensures m in sorted <==> m in members {
      assert m in multiset(sorted) <==> m in multiset(members);
    }
    if Has(members, key) {
      var k :| 0 <= k < |members| && members[k].key == key;
      assert members[k] in sorted;
    }
    if Has(sorted, key) {
      var k :| 0 <= k < |sorted| && sorted[k].key == key;
      assert sorted[k] in members;
    }
  }

  lemma SortedAscends(members: seq<Member>)
    requires Distinct(Object(members))
    ensures KeysAscend(Sort(members, true)) && AllDistinct(Sort(members, true))
    ensures DenoteMembers(Sort(members, true)) == DenoteMembers(members)
  {
    SortUnique(members);
  }

  lemma SortedDetachable(members: seq<Member>, key: cstring)
    requires Detachable(members, key)
    ensures Detachable(Sort(members, true), key)
  {
    var sorted := Sort(members, true);
    SortedMembers(members);
    forall k | 0 <= k < |sorted| && sorted[k].key != key ensures Lower(sorted[k].key) != Lower(key) {
      assert sorted[k] in members;
    }
  }

  lemma SortedMembers(members: seq<Member>)
    ensures forall k :: 0 <= k < |Sort(members, true)| ==> Sort(members, true)[k] in members
  {
    SortCorrect(members, true);
    forall m | m in Sort(members, true) ensures m in members {
      assert m in multiset(Sort(members, true));
    }
  }

  lemma SortedPatchable(xs: seq<Member>, ys: seq<Member>)
    requires MembersPatchable(xs, ys)
    ensures MembersPatchable(Sort(xs, true), Sort(ys, true))
  {
    var fs, ts := Sort(xs, true), Sort(ys, true);
    SortedMembers(xs);
    SortedMembers(ys);
    hide Sort, Survives, Detachable, Has, Denote, Inside;
    forall i | 0 <= i < |fs| && !Has(ts, fs[i].key) ensures Detachable(fs, fs[i].key) {
      assert fs[i] in xs;
      SortedHas(ys, fs[i].key);
      SortedDetachable(xs, fs[i].key);
    }
    forall j | 0 <= j < |ts| && !Has(fs, ts[j].key) ensures Survives(ts[j].key) {
      assert ts[j] in ys;
      SortedHas(xs, ts[j].key);
    }
    forall i, j | 0 <= i < |fs| && 0 <= j < |ts| && fs[i].key == ts[j].key
      ensures if Inside(fs[i].value, ts[j].value) then Patchable(fs[i].value, ts[j].value)
              else Denote(fs[i].value) == Denote(ts[j].value) || Detachable(fs, fs[i].key)
    {
      assert fs[i] in xs && ts[j] in ys;
      if Detachable(xs, fs[i].key) { SortedDetachable(xs, fs[i].key); }
    }
  }

  /** At the start every detachable key of `from` is found in the document, whatever the case. */
  lemma FoundFirstAtStart(cur: seq<Member>, from: seq<Member>)
    requires UniqueKeys(cur) && UniqueKeys(from) && DenoteMembers(cur) == DenoteMembers(from)
    ensures FoundFirst(cur, from, 0)
  {
    forall a | 0 <= a < |from| && Detachable(from, from[a].key)
      ensures FindKey(cur, 0, from[a].key, false) == FindKey(cur, 0, from[a].key, true)
    {
      InDenoted(from, 0, a);
      var x := MemberNamed(cur, from[a].key);
      forall k | 0 <= k < |cur| && SameKey(from[a].key, cur[k].key, false) ensures k == x {
        DenoteAt(cur, k);
        var b := MemberNamed(from, cur[k].key);
        assert a == b;
      }
      FindAt(cur, from[a].key, false, x);
    }
  }

  lemma {:induction false} ChangeObject(root: Value, steps: seq<Step>, pos: Position, from: seq<Member>,
                                        to: seq<Member>)
    returns (x: Value)
    requires Settled(root, steps, pos) && Patchable(Object(from), Object(to)) && Valid(root, pos)
    requires Distinct(Object(from)) && Distinct(Object(to))
    requires Denote(ItemAt(root, pos)) == Denote(Object(from)) && Distinct(ItemAt(root, pos))
    ensures Denote(x) == Denote(Object(to)) && Distinct(x)
    ensures Leads(root, Patches(Render(steps), Object(from), Object(to), true), PutAt(root, pos, x))
    decreases Nesting(Object(from)), 0, |from| + |to| + 1
  {
    hide Settled, Walkable, MembersSoFar, Leads, PutAt, Denote, DenoteFrom, Distinct, Valid, ItemAt, Sort, KeysAscend,
         UniqueKeys, AllDistinct, MembersPatchable, PatchMembers, Render, MembersWithin;
    ObjectDenotes(ItemAt(root, pos), from);
    ObjectDenotes(Object(to), to);
    var cur := ItemAt(root, pos).members;
    var fs, ts, n := Sort(from, true), Sort(to, true), MembersNesting(from);
    ReadyToWalk(cur, from, to);
    ObjectPatches(Render(steps), from, to);
    x := MembersChanged(root, steps, pos, cur, fs, ts, 0, 0, n);
  }

  lemma ObjectDenotes(v: Value, members: seq<Member>)
    requires Denote(v) == Denote(Object(members)) && Distinct(v)
    ensures v.Object? && DenoteMembers(v.members) == DenoteMembers(members)
    ensures UniqueKeys(v.members) && AllDistinct(v.members) && Denote(v) == DObject(DenoteMembers(members))
  {
  }

  lemma ObjectPatches(path: cstring, from: seq<Member>, to: seq<Member>)
    ensures MembersWithin(Sort(from, true), MembersNesting(from))
    ensures Patches(path, Object(from), Object(to), true)
      == PatchMembers(path, Sort(from, true), Sort(to, true), 0, 0, true, MembersNesting(from))
  {
    SortedWithin(from, true);
  }

  /** At the start of the walk the document holds all of `from` and nothing of `to`. */
  lemma {:induction false} ReadyToWalk(cur: seq<Member>, from: seq<Member>, to: seq<Member>)
    requires Distinct(Object(from)) && Distinct(Object(to)) && MembersPatchable(from, to)
    requires UniqueKeys(cur) && AllDistinct(cur) && DenoteMembers(cur) == DenoteMembers(from)
    ensures var fs, ts := Sort(from, true), Sort(to, true);
      && Walkable(fs, ts, 0, 0, MembersNesting(from)) && MembersSoFar(cur, fs, ts, 0, 0)
      && DenoteMembers(ts) == DenoteMembers(to) && |fs| == |from| && |ts| == |to|
  {
    var fs, ts := Sort(from, true), Sort(to, true);
    SortedAscends(from);
    SortedAscends(to);
    SortedPatchable(from, to);
    AscendUnique(fs);
    SortedWithin(from, true);
    FoundFirstAtStart(cur, fs);
    assert ts[..0] == [];
    SameLength(from);
    SameLength(to);
  }

  lemma SameLength(members: seq<Member>)
    ensures |Sort(members, true)| == |members|
  {
    SortCorrect(members, true);
    assert |multiset(Sort(members, true))| == |multiset(members)|;
  }

  /** Arrays and objects: the item at `pos` comes to denote what `to` does, in place. */
  lemma {:induction false} Change(root: Value, steps: seq<Step>, pos: Position, from: Value, to: Value)
    returns (x: Value)
    requires Inside(from, to) && Settled(root, steps, pos) && Patchable(from, to) && Distinct(from) && Distinct(to)
    requires Valid(root, pos) && Denote(ItemAt(root, pos)) == Denote(from) && Distinct(ItemAt(root, pos))
    ensures Denote(x) == Denote(to) && Distinct(x) && Valid(root, pos)
    ensures Leads(root, Patches(Render(steps), from, to, true), PutAt(root, pos, x))
    decreases Nesting(from), 1, 0
  {
    if from.Array? {
      WithinNesting(from.items, []);
      var cur := ItemAt(root, pos).items;
      assert forall k :: 0 <= k < |cur| ==> DenoteItems(cur)[k] == DenoteItems(from.items)[k];
      x := ItemsChanged(root, steps, pos, cur, from.items, to.items, 0, ItemsNesting(from.items));
    } else {
      x := ChangeObject(root, steps, pos, from.members, to.members);
    }
  }

  // ----- The theorem -----

  /** For any two trees that can be patched one into the other and any document that denotes the first,
      in whatever member order, the generated patches all apply with status 0 and leave a document that
      denotes the second. */
  lemma DiffThenApply(doc: Value, from: Value, to: Value) returns (result: Value)
    requires Patchable(from, to) && Distinct(from) && Distinct(to) && Distinct(doc) && Denote(doc) == Denote(from)
    ensures ApplyFrom(Live(doc), GeneratePatches(from, to, true), 0, true) == Done(Live(result), 0)
    ensures Denote(result) == Denote(to) && Distinct(result)
  {
    if Inside(from, to) {
      result := Change(doc, [], [], from, to);
    } else {
      LeafPatches([], from, to);
      if Denote(from) == Denote(to) {
        result := doc;
        LeadsNowhere(doc);
      } else {
        result := to;
        RootReplaced(Live(doc), to);
        LeadsOne(doc, Compose(REPLACE, [], Some(to)), to);
      }
    }
  }
}
