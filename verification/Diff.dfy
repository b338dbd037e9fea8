/** The patch list that create_patches builds to turn one tree into another. */
module Diff {
  import opened Bytes
  import opened Decimal
  import opened Json
  import opened Pointer
  import opened Sorting
  import opened Compare
  import Patch

  /** compose_patch: an operation object; `value` is left out of a removal. */
  function Compose(op: cstring, path: cstring, value: Option<Value>): Value {
    Object([Member(Patch.OP, String(op)), Member(Patch.PATH, String(path))]
           + if value.Some? then [Member(Patch.VALUE, value.value)] else [])
  }

  /** A path with one more, encoded, token. */
  function Extend(path: cstring, key: cstring): cstring { path + ([SLASH] + Encode(key)) }

  /** cJSON type codes differ: true and false are types of their own. */
  predicate SameType(a: Value, b: Value) {
    match (a, b)
    case (Null, Null) => true
    case (Bool(x), Bool(y)) => x == y
    case (Number(_), Number(_)) => true
    case (String(_), String(_)) => true
    case (Array(_), Array(_)) => true
    case (Object(_), Object(_)) => true
    case _ => false
  }

  function Patches(path: cstring, from: Value, to: Value, caseSensitive: bool): seq<Value>
    decreases Nesting(from), 1, 0
  {
    if !SameType(from, to) then [Compose(Patch.REPLACE, path, Some(to))]
    else
      match from
      case Number(n) => if n != to.n then [Compose(Patch.REPLACE, path, Some(to))] else []
      case String(s) => if s != to.s then [Compose(Patch.REPLACE, path, Some(to))] else []
      case Array(items) =>
        WithinNesting(items, []);
        PatchItems(path, items, to.items, 0, caseSensitive, ItemsNesting(items))
      case Object(members) =>
        SortedWithin(members, caseSensitive);
        PatchMembers(path, Sort(members, caseSensitive), Sort(to.members, caseSensitive), 0, 0, caseSensitive,
                     MembersNesting(members))
      case _ => []
  }

  /** Elements present in both, then removals of what is left over, all at the same index,
      or additions at the end. */
  function PatchItems(path: cstring, from: seq<Value>, to: seq<Value>, i: nat, caseSensitive: bool,
                      ghost n: nat): seq<Value>
    requires i <= |from| && i <= |to| && ItemsWithin(from, n)
    decreases n + 1, 0, |from| - i
  {
    if i < |from| && i < |to| then
      Patches(path + ([SLASH] + Digits(i)), from[i], to[i], caseSensitive)
      + PatchItems(path, from, to, i + 1, caseSensitive, n)
    else Removals(path, i, |from| - i) + Additions(path, to, i)
  }

  function Removals(path: cstring, index: nat, count: nat): seq<Value> {
    if count == 0 then []
    else [Compose(Patch.REMOVE, Extend(path, Digits(index)), None)] + Removals(path, index, count - 1)
  }

  function Additions(path: cstring, to: seq<Value>, i: nat): seq<Value>
    requires i <= |to|
    decreases |to| - i
  {
    if i == |to| then []
    else [Compose(Patch.ADD, Extend(path, [MINUS]), Some(to[i]))] + Additions(path, to, i + 1)
  }

  /** The walk over both sorted member lists. */
  function PatchMembers(path: cstring, from: seq<Member>, to: seq<Member>, i: nat, j: nat, caseSensitive: bool,
                        ghost n: nat): seq<Value>
    requires i <= |from| && j <= |to| && MembersWithin(from, n)
    decreases n + 1, 0, |from| - i + |to| - j
  {
    if i == |from| && j == |to| then []
    else if j == |to| || (i < |from| && KeyLess(from[i].key, to[j].key, caseSensitive)) then
      [Compose(Patch.REMOVE, Extend(path, from[i].key), None)]
        + PatchMembers(path, from, to, i + 1, j, caseSensitive, n)
    else if i == |from| || !SameKey(from[i].key, to[j].key, caseSensitive) then
      [Compose(Patch.ADD, Extend(path, to[j].key), Some(to[j].value))]
        + PatchMembers(path, from, to, i, j + 1, caseSensitive, n)
    else
      Patches(Extend(path, from[i].key), from[i].value, to[j].value, caseSensitive)
      + PatchMembers(path, from, to, i + 1, j + 1, caseSensitive, n)
  }

  /** cJSONUtils_GeneratePatches and its case-sensitive twin. */
  function GeneratePatches(from: Value, to: Value, caseSensitive: bool): seq<Value> {
    Patches([], from, to, caseSensitive)
  }

  // ----- Equal trees -----

  lemma {:induction false} ItemsAlike(path: cstring, from: seq<Value>, to: seq<Value>, i: nat, caseSensitive: bool,
                                      n: nat)
    requires i <= |from| && i <= |to| && ItemsWithin(from, n)
    ensures PatchItems(path, from, to, i, caseSensitive, n) == [] <==> CompareItems(from, to, i, caseSensitive, n)
    decreases n + 1, 0, |from| - i
  {
    hide Patches, CompareJson;
    if i < |from| && i < |to| {
      NothingToPatch(path + ([SLASH] + Digits(i)), from[i], to[i], caseSensitive);
      ItemsAlike(path, from, to, i + 1, caseSensitive, n);
    }
  }

  lemma {:induction false} MembersAlike(path: cstring, from: seq<Member>, to: seq<Member>, i: nat, caseSensitive: bool,
                                        n: nat)
    requires i <= |from| && i <= |to| && MembersWithin(from, n)
    ensures PatchMembers(path, from, to, i, i, caseSensitive, n) == []
      <==> CompareMembers(from, to, i, caseSensitive, n)
    decreases n + 1, 0, |from| - i
  {
    hide Patches, CompareJson;
    if i < |from| && i < |to| {
      LessOrSame(from[i].key, to[i].key, caseSensitive);
      NothingToPatch(Extend(path, from[i].key), from[i].value, to[i].value, caseSensitive);
      MembersAlike(path, from, to, i + 1, caseSensitive, n);
    }
  }

  lemma LessOrSame(s: bytes, t: bytes, caseSensitive: bool)
    ensures !(KeyLess(s, t, caseSensitive) && SameKey(s, t, caseSensitive))
  {
    LessIrreflexive(if caseSensitive then s else Lower(s));
  }

  /** No patch is generated exactly when the comparison finds the trees equal, for all trees and with or
      without regard to case. */
  lemma {:induction false} NothingToPatch(path: cstring, from: Value, to: Value, caseSensitive: bool)
    ensures Patches(path, from, to, caseSensitive) == [] <==> CompareJson(from, to, caseSensitive)
    decreases Nesting(from), 1, 0
  {
    hide PatchItems, PatchMembers, CompareItems, CompareMembers, Sort;
    if SameType(from, to) {
      match from
      case Array(items) =>
        WithinNesting(items, []);
        ItemsAlike(path, items, to.items, 0, caseSensitive, ItemsNesting(items));
      case Object(members) =>
        SortedWithin(members, caseSensitive);
        MembersAlike(path, Sort(members, caseSensitive), Sort(to.members, caseSensitive), 0, caseSensitive,
                     MembersNesting(members));
      case _ =>
    }
  }
}
