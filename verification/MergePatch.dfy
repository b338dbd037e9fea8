/** JSON Merge Patch (RFC 7396): merge_patch computes the function the RFC defines. */
module MergePatch {
  import opened Bytes
  import opened Json
  import opened Unordered
  import opened Compare
  import Patch

  // ----- The RFC's function, section 2, on unordered data -----

  function Entry(members: map<bytes, Data>, name: bytes): Option<Data> {
    if name in members then Some(members[name]) else None
  }

  /** The members of a target, or none when it is missing or no object. */
  function MembersOf(target: Option<Data>): map<bytes, Data> {
    if target.Some? && target.value.DObject? then target.value.members else map[]
  }

  function Merged(target: Option<Data>, patch: Data): Data
    decreases patch
  {
    if patch.DObject? then
      var t := MembersOf(target);
      DObject(map name | name in t.Keys + patch.members.Keys && (name in patch.members ==> patch.members[name] != DNull)
              :: if name in patch.members then Merged(Entry(t, name), patch.members[name]) else t[name])
    else patch
  }

  function MergedMembers(t: map<bytes, Data>, p: map<bytes, Data>): map<bytes, Data> {
    Merged(Some(DObject(t)), DObject(p)).members
  }

  // ----- merge_patch -----

  function MembersIn(target: Option<Value>): seq<Member> {
    if target.Some? && target.value.Object? then target.value.members else []
  }

  function Lookup(members: seq<Member>, name: bytes, caseSensitive: bool): Option<Value> {
    match FindKey(members, 0, name, caseSensitive)
    case None => None
    case Some(j) => Some(members[j].value)
  }

  function Merge(target: Option<Value>, patch: Value, caseSensitive: bool): Value
    decreases patch
  {
    if patch.Object? then Object(MergeFrom(MembersIn(target), patch.members, 0, caseSensitive)) else patch
  }

  /** The loop over the members of the patch from `i` on. */
  function MergeFrom(members: seq<Member>, patch: seq<Member>, i: nat, caseSensitive: bool): seq<Member>
    requires i <= |patch|
    decreases patch, |patch| - i
  {
    if i == |patch| then members
    else
      var m := patch[i];
      var rest := Patch.DeleteKey(members, m.key, caseSensitive);
      if m.value.Null? then MergeFrom(rest, patch, i + 1, caseSensitive)
      else
        var merged := Merge(Lookup(members, m.key, caseSensitive), m.value, caseSensitive);
        MergeFrom(rest + [Member(m.key, merged)], patch, i + 1, caseSensitive)
  }

  // ----- Names that differ in case only -----

  /** No two names are the same but for their case. */
  predicate TwinFree(names: set<bytes>) {
    forall k, l :: k in names && l in names && Lower(k) == Lower(l) ==> k == l
  }

  /** At every level that merging reaches, the names of target and patch together are free of twins. */
  predicate NoTwins(target: Option<Data>, patch: Data)
    decreases patch
  {
    patch.DObject? ==>
      && TwinFree(MembersOf(target).Keys + patch.members.Keys)
      && forall name :: name in patch.members ==> NoTwins(Entry(MembersOf(target), name), patch.members[name])
  }

  predicate FitMembers(members: seq<Member>) { UniqueKeys(members) && AllDistinct(members) }

  /** The same with a lookup that ignores case, unless names are told apart by it. */
  ghost predicate MergeFits(t: map<bytes, Data>, p: map<bytes, Data>, caseSensitive: bool) {
    caseSensitive || NoTwins(Some(DObject(t)), DObject(p))
  }

  lemma TwinsStep(t: map<bytes, Data>, p: map<bytes, Data>, name: bytes, v: Data, t': map<bytes, Data>,
                  caseSensitive: bool)
    requires name !in p && MergeFits(t, p[name := v], caseSensitive)
    requires t'.Keys <= t.Keys + {name} && forall k :: k != name && k in t ==> k in t' && t'[k] == t[k]
    ensures MergeFits(t', p, caseSensitive)
    ensures caseSensitive || NoTwins(Entry(t, name), v)
    ensures caseSensitive || forall k :: k in t && Lower(k) == Lower(name) ==> k == name
  {
    if !caseSensitive {
      var more := p[name := v];
      assert name in more && more[name] == v;
      forall k | k in p ensures NoTwins(Entry(t', k), p[k]) {
        assert k in more && more[k] == p[k] && Entry(t', k) == Entry(t, k);
      }
      assert t'.Keys + p.Keys <= t.Keys + more.Keys;
    }
  }

  lemma SameLookup(members: seq<Member>, name: bytes, caseSensitive: bool)
    requires FitMembers(members)
    requires caseSensitive || forall k :: k in DenoteMembers(members) && Lower(k) == Lower(name) ==> k == name
    ensures FindKey(members, 0, name, caseSensitive) == FindKey(members, 0, name, true)
  {
    if !caseSensitive {
      forall k | 0 <= k < |members|
        ensures SameKey(name, members[k].key, false) == SameKey(name, members[k].key, true)
      {
        DenoteAt(members, k);
      }
    }
  }

  // ----- One member of the patch -----

  lemma Deleted(members: seq<Member>, name: bytes, caseSensitive: bool)
    requires FitMembers(members)
    requires caseSensitive || forall k :: k in DenoteMembers(members) && Lower(k) == Lower(name) ==> k == name
    ensures FitMembers(Patch.DeleteKey(members, name, caseSensitive))
    ensures DenoteMembers(Patch.DeleteKey(members, name, caseSensitive)) == DenoteMembers(members) - {name}
  {
    SameLookup(members, name, caseSensitive);
    DenoteLookup(members, 0, name);
    var r := FindKey(members, 0, name, caseSensitive);
    if r.Some? {
      DenoteRemove(members, r.value);
      assert forall k :: 0 <= k < |members| - 1 ==> RemoveAt(members, r.value)[k] in members;
    }
  }

  lemma LookedUp(members: seq<Member>, name: bytes, caseSensitive: bool)
    requires FitMembers(members)
    requires caseSensitive || forall k :: k in DenoteMembers(members) && Lower(k) == Lower(name) ==> k == name
    ensures DenoteOption(Lookup(members, name, caseSensitive)) == Entry(DenoteMembers(members), name)
    ensures Lookup(members, name, caseSensitive).Some? ==> Distinct(Lookup(members, name, caseSensitive).value)
  {
    SameLookup(members, name, caseSensitive);
    DenoteLookup(members, 0, name);
  }

  function DenoteOption(v: Option<Value>): Option<Data> {
    match v
    case None => None
    case Some(x) => Some(Denote(x))
  }

  lemma Appended(members: seq<Member>, m: Member)
    requires FitMembers(members) && m.key !in DenoteMembers(members) && Distinct(m.value)
    ensures FitMembers(members + [m])
    ensures DenoteMembers(members + [m]) == DenoteMembers(members)[m.key := Denote(m.value)]
  {
    DenoteAppend(members, m);
  }

  /** A null removes; the members after it see only the result. */
  lemma MergedRemoval(t: map<bytes, Data>, p: map<bytes, Data>, name: bytes)
    requires name !in p
    ensures MergedMembers(t, p[name := DNull]) == MergedMembers(t - {name}, p)
  {
  }

  /** Anything else merges. */
  lemma MergedChange(t: map<bytes, Data>, p: map<bytes, Data>, name: bytes, v: Data)
    requires name !in p && v != DNull
    ensures MergedMembers(t, p[name := v]) == MergedMembers(t[name := Merged(Entry(t, name), v)], p)
  {
  }

  // ----- The theorem -----

  /** For all targets and patches with distinct keys and, if case is ignored, no twins, the loop
      computes the RFC's result. */
  lemma {:induction false} MergeIsRfc(target: Option<Value>, patch: Value, caseSensitive: bool)
    requires (target.Some? ==> Distinct(target.value)) && Distinct(patch)
    requires caseSensitive || NoTwins(DenoteOption(target), Denote(patch))
    ensures Denote(Merge(target, patch, caseSensitive)) == Merged(DenoteOption(target), Denote(patch))
    ensures Distinct(Merge(target, patch, caseSensitive))
    decreases patch
  {
    if patch.Object? {
      var t := DenoteMembers(MembersIn(target));
      assert MembersOf(DenoteOption(target)) == t;
      assert MembersOf(Some(DObject(t))) == t;
      MergeFromIsRfc(MembersIn(target), patch.members, 0, caseSensitive);
      assert Merged(DenoteOption(target), Denote(patch)) == Merged(Some(DObject(t)), Denote(patch));
    }
  }

  lemma {:induction false} MergeFromIsRfc(members: seq<Member>, patch: seq<Member>, i: nat, caseSensitive: bool)
    requires i <= |patch| && FitMembers(members) && FitMembers(patch)
    requires MergeFits(DenoteMembers(members), DenoteFrom(patch, i), caseSensitive)
    ensures FitMembers(MergeFrom(members, patch, i, caseSensitive))
    ensures DenoteMembers(MergeFrom(members, patch, i, caseSensitive))
      == MergedMembers(DenoteMembers(members), DenoteFrom(patch, i))
    decreases patch, |patch| - i
  {
    hide Merge, Merged, MergedMembers, Denote, FitMembers, MergeFits, NoTwins, Distinct;
    if i == |patch| {
      NoPatch(members);
    } else {
      var m, t, p := patch[i], DenoteMembers(members), DenoteFrom(patch, i + 1);
      MemberFit(patch, i);
      TwinsStep(t, p, m.key, Denote(m.value), t - {m.key}, caseSensitive);
      Deleted(members, m.key, caseSensitive);
      var rest := Patch.DeleteKey(members, m.key, caseSensitive);
      if m.value.Null? {
        MergedRemoval(t, p, m.key);
        MergeFromIsRfc(rest, patch, i + 1, caseSensitive);
      } else {
        var was := Lookup(members, m.key, caseSensitive);
        LookedUp(members, m.key, caseSensitive);
        MergeIsRfc(was, m.value, caseSensitive);
        var m' := Member(m.key, Merge(was, m.value, caseSensitive));
        Appended(rest, m');
        MergedChange(t, p, m.key, Denote(m.value));
        assert (t - {m.key})[m.key := Denote(m'.value)] == t[m.key := Denote(m'.value)];
        TwinsStep(t, p, m.key, Denote(m.value), t[m.key := Denote(m'.value)], caseSensitive);
        MergeFromIsRfc(rest + [m'], patch, i + 1, caseSensitive);
      }
    }
  }

  lemma NoPatch(members: seq<Member>)
    ensures MergedMembers(DenoteMembers(members), map[]) == DenoteMembers(members)
  {
  }

  lemma MemberFit(patch: seq<Member>, i: nat)
    requires i < |patch| && FitMembers(patch)
    ensures Distinct(patch[i].value) && patch[i].key !in DenoteFrom(patch, i + 1)
    ensures Denote(patch[i].value) == DNull <==> patch[i].value.Null?
  {
    DenoteLookup(patch, i + 1, patch[i].key);
  }
}
