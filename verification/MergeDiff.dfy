/** Generating merge patches, and when merging one brings the target about. */
module MergeDiff {
  import opened Bytes
  import opened Json
  import opened Unordered
  import opened Sorting
  import opened Compare
  import opened MergePatch

  // ----- generate_merge_patch -----

  /** The patch, or nothing when two objects need none. Members are compared as the caller asked,
      but nested patches are always generated without regard to case. */
  function Generate(from: Value, to: Value, caseSensitive: bool): Option<Value>
    decreases Nesting(from), 1, 0
  {
    if !to.Object? || !from.Object? then Some(to)
    else
      SortedWithin(from.members, caseSensitive);
      var members := GenerateFrom(Sort(from.members, caseSensitive), Sort(to.members, caseSensitive), 0, 0,
                                  caseSensitive, MembersNesting(from.members));
      if members == [] then None else Some(Object(members))
  }

  /** The walk over both sorted lists, always by `strcmp`. */
  function GenerateFrom(from: seq<Member>, to: seq<Member>, i: nat, j: nat, caseSensitive: bool,
                        ghost n: nat): seq<Member>
    requires i <= |from| && j <= |to| && MembersWithin(from, n)
    decreases n + 1, 0, |from| - i + |to| - j
  {
    if i == |from| && j == |to| then []
    else if j == |to| || (i < |from| && Less(from[i].key, to[j].key)) then
      [Member(from[i].key, Null)] + GenerateFrom(from, to, i + 1, j, caseSensitive, n)
    else if i == |from| || from[i].key != to[j].key then
      [to[j]] + GenerateFrom(from, to, i, j + 1, caseSensitive, n)
    else
      GenerateMember(from[i], to[j], caseSensitive, n) + GenerateFrom(from, to, i + 1, j + 1, caseSensitive, n)
  }

  /** A key in both: nothing if the values compare equal, else the nested patch if there is one. */
  function GenerateMember(from: Member, to: Member, caseSensitive: bool, ghost n: nat): seq<Member>
    requires Nesting(from.value) <= n
    decreases n, 2, 0
  {
    if CompareJson(from.value, to.value, caseSensitive) then []
    else
      match Generate(from.value, to.value, false)
      case None => []
      case Some(p) => [Member(to.key, p)]
  }

  // ----- The same on unordered data -----

  function Delta(from: Data, goal: Data): Data
    decreases goal
  {
    if from.DObject? && goal.DObject? then
      var f, g := from.members, goal.members;
      DObject(map name | name in f.Keys + g.Keys && (name in f && name in g ==> f[name] != g[name])
              :: if name !in g then DNull else if name !in f then g[name] else Delta(f[name], g[name]))
    else goal
  }

  function DeltaMembers(from: map<bytes, Data>, goal: map<bytes, Data>): map<bytes, Data> {
    Delta(DObject(from), DObject(goal)).members
  }

  // ----- When a merge patch can bring `goal` about -----

  /** No member is null, at any depth that merging reaches; arrays are taken over whole. */
  predicate NoNull(goal: Data)
    decreases goal
  {
    goal.DObject? ==> forall name :: name in goal.members ==> goal.members[name] != DNull && NoNull(goal.members[name])
  }

  /** A null member is allowed only where `from` already has an equal value, so that it is not patched. */
  predicate NullSafe(from: Data, goal: Data)
    decreases goal
  {
    if !goal.DObject? then true
    else if !from.DObject? then NoNull(goal)
    else forall name :: name in goal.members ==>
           || (name in from.members && from.members[name] == goal.members[name])
           || (goal.members[name] != DNull
               && if name in from.members
               then NullSafe(from.members[name], goal.members[name])
               else NoNull(goal.members[name]))
  }

  /** Merging a whole value into nothing, or into something that is no object. */
  lemma {:induction false} MergedWhole(target: Option<Data>, goal: Data)
    requires target.None? || !target.value.DObject?
    ensures Merged(target, goal) == goal <==> NoNull(goal)
    decreases goal
  {
    if goal.DObject? {
      forall name | name in goal.members
        ensures Merged(None, goal.members[name]) == goal.members[name] <==> NoNull(goal.members[name])
      {
        MergedWhole(None, goal.members[name]);
      }
      var m := Merged(target, goal).members;
      if NoNull(goal) {
        assert m == goal.members;
      } else {
        var name :| name in goal.members && !(goal.members[name] != DNull && NoNull(goal.members[name]));
        assert name in m ==> m[name] == Merged(None, goal.members[name]);
      }
    }
  }

  /** Merging the difference gives `goal` exactly when no null member has to be put in place. */
  lemma {:induction false} DeltaMerges(from: Data, goal: Data)
    ensures Merged(Some(from), Delta(from, goal)) == goal <==> NullSafe(from, goal)
    decreases goal
  {
    if from.DObject? && goal.DObject? {
      forall name | name in goal.members ensures MemberArrives(from, goal, name) <==> MemberSafe(from, goal, name) {
        MemberMerges(from, goal, name);
      }
      MembersArrive(from, goal);
      SafeMembers(from, goal);
    } else if goal.DObject? {
      MergedWhole(Some(from), goal);
    }
  }

  /** The member ends up as in `goal`. */
  predicate MemberArrives(from: Data, goal: Data, name: bytes)
    requires from.DObject? && goal.DObject?
  {
    var m := Merged(Some(from), Delta(from, goal)).members;
    name in goal.members && name in m && m[name] == goal.members[name]
  }

  predicate MemberSafe(from: Data, goal: Data, name: bytes)
    requires from.DObject? && goal.DObject? && name in goal.members
  {
    || (name in from.members && from.members[name] == goal.members[name])
    || (goal.members[name] != DNull
        && if name in from.members
        then NullSafe(from.members[name], goal.members[name])
        else NoNull(goal.members[name]))
  }

  lemma SafeMembers(from: Data, goal: Data)
    requires from.DObject? && goal.DObject?
    ensures NullSafe(from, goal) <==> forall name :: name in goal.members ==> MemberSafe(from, goal, name)
  {
  }

  lemma {:induction false} MemberMerges(from: Data, goal: Data, name: bytes)
    requires from.DObject? && goal.DObject? && name in goal.members
    ensures MemberArrives(from, goal, name) <==> MemberSafe(from, goal, name)
    decreases goal, 0
  {
    var t, d := goal.members[name], Delta(from, goal).members;
    var m := Merged(Some(from), DObject(d)).members;
    assert name in d && d[name] != DNull ==> name in m && m[name] == Merged(Entry(from.members, name), d[name]);
    if name !in from.members {
      assert d[name] == t;
      MergedWhole(None, t);
    } else if from.members[name] != t {
      DeltaMerges(from.members[name], t);
    }
  }

  lemma MembersArrive(from: Data, goal: Data)
    requires from.DObject? && goal.DObject?
    ensures Merged(Some(from), Delta(from, goal)) == goal
      <==> forall name :: name in goal.members ==> MemberArrives(from, goal, name)
  {
    var m := Merged(Some(from), Delta(from, goal)).members;
    var d := Delta(from, goal).members;
    assert forall name :: name in d && name !in goal.members ==> d[name] == DNull;
    assert forall name :: name in m ==> name in goal.members;
    if forall name :: name in goal.members ==> MemberArrives(from, goal, name) {
      assert forall name :: name in goal.members ==> MemberArrives(from, goal, name) ==>
        name in m && m[name] == goal.members[name];
      assert m == goal.members;
    }
  }

  // ----- Where the case flag does not matter -----

  /** Both orders put the two names the same way round. */
  predicate SameOrder(k: bytes, l: bytes) { Less(k, l) <==> Less(Lower(k), Lower(l)) }

  predicate KeysAgree(names: set<bytes>) { forall k, l :: k in names && l in names ==> SameOrder(k, l) }

  /** At every level that a comparison reaches, both orders agree on the names of both sides together. */
  predicate Agree(a: Data, b: Data)
    decreases a
  {
    match (a, b)
    case (DArray(xs), DArray(ys)) => forall i :: 0 <= i < |xs| && i < |ys| ==> Agree(xs[i], ys[i])
    case (DObject(f), DObject(g)) =>
      KeysAgree(f.Keys + g.Keys) && forall name :: name in f && name in g ==> Agree(f[name], g[name])
    case _ => true
  }

  /** The same, and members that are only in `goal` have no twins in them. */
  predicate OrdersAgree(from: Data, goal: Data)
    decreases goal
  {
    match (from, goal)
    case (DObject(f), DObject(g)) =>
      && KeysAgree(f.Keys + g.Keys)
      && forall name :: name in g ==> if name in f then OrdersAgree(f[name], g[name]) else NoTwins(None, g[name])
    case _ => Agree(from, goal) && NoTwins(None, goal)
  }

  /** All that a case-sensitive call needs: members that differ and are objects on both sides are generated
      again without regard to case. */
  predicate OrdersAgreeBelow(from: Data, goal: Data) {
    from.DObject? && goal.DObject? ==>
      forall name :: name in from.members && name in goal.members ==>
        MemberFits(from.members[name], goal.members[name], true)
  }

  /** What one member that is on both sides needs. */
  predicate MemberFits(f: Data, g: Data, caseSensitive: bool) {
    (caseSensitive && (f == g || !f.DObject? || !g.DObject?)) || OrdersAgree(f, g)
  }

  predicate Fits(from: Data, goal: Data, caseSensitive: bool) {
    if caseSensitive then OrdersAgreeBelow(from, goal) else OrdersAgree(from, goal)
  }

  lemma AgreeFits(from: Data, goal: Data, caseSensitive: bool)
    requires OrdersAgree(from, goal)
    ensures Fits(from, goal, caseSensitive)
  {
  }

  lemma {:induction false} OrdersAgreeCompared(from: Data, goal: Data)
    requires OrdersAgree(from, goal)
    ensures Agree(from, goal)
    decreases goal
  {
    if from.DObject? && goal.DObject? {
      forall name | name in from.members && name in goal.members ensures Agree(from.members[name], goal.members[name]) {
        OrdersAgreeCompared(from.members[name], goal.members[name]);
      }
    }
  }

  lemma NotSmallerTwin(k: bytes, l: bytes)
    requires SameOrder(k, l) && SameOrder(l, k) && Lower(k) == Lower(l)
    ensures k == l
  {
    LessTotal(k, l);
    LessIrreflexive(Lower(k));
  }

  lemma AgreeTwinFree(names: set<bytes>, some: set<bytes>)
    requires KeysAgree(names) && some <= names
    ensures TwinFree(some)
  {
    forall k, l | k in some && l in some && Lower(k) == Lower(l) ensures k == l { NotSmallerTwin(k, l); }
  }

  /** Merging the difference meets no twins. */
  lemma {:induction false} DeltaNoTwins(from: Data, goal: Data)
    requires OrdersAgree(from, goal)
    ensures NoTwins(Some(from), Delta(from, goal))
    decreases goal
  {
    if from.DObject? && goal.DObject? {
      var f, g, d := from.members, goal.members, Delta(from, goal).members;
      AgreeTwinFree(f.Keys + g.Keys, f.Keys + d.Keys);
      forall name | name in d ensures NoTwins(Entry(f, name), d[name]) {
        if name in g && name in f { DeltaNoTwins(f[name], g[name]); }
      }
    } else if goal.DObject? {
      NoTargetTwins(from, goal);
    }
  }

  lemma NoTargetTwins(from: Data, goal: Data)
    requires NoTwins(None, goal) && !from.DObject?
    ensures NoTwins(Some(from), goal)
  {
    if goal.DObject? { assert forall name :: Entry(MembersOf(Some(from)), name) == Entry(MembersOf(None), name); }
  }

  /** The names of one list, or of two. */
  predicate NamesAgree(a: seq<Member>, b: seq<Member>) {
    forall i, j :: 0 <= i < |a| && 0 <= j < |b| ==> SameOrder(a[i].key, b[j].key) && SameOrder(b[j].key, a[i].key)
  }

  lemma {:induction false} MergeAnyCase(a: seq<Member>, b: seq<Member>)
    requires NamesAgree(a, b)
    ensures Sorting.Merge(a, b, false) == Sorting.Merge(a, b, true)
    decreases |a| + |b|
  {
    if a != [] && b != [] {
      assert SameOrder(a[0].key, b[0].key);
      if Less(a[0].key, b[0].key) {
        MergeAnyCase(a[1..], b);
      } else {
        MergeAnyCase(a, b[1..]);
      }
    }
  }

  lemma SortedNames(a: seq<Member>, b: seq<Member>)
    requires NamesAgree(a, b)
    ensures NamesAgree(Sort(a, true), Sort(b, true))
  {
    SortCorrect(a, true);
    SortCorrect(b, true);
    var s, t := Sort(a, true), Sort(b, true);
    forall i, j | 0 <= i < |s| && 0 <= j < |t| ensures SameOrder(s[i].key, t[j].key) && SameOrder(t[j].key, s[i].key) {
      assert s[i] in multiset(a) && t[j] in multiset(b);
      var k :| 0 <= k < |a| && a[k] == s[i];
      var l :| 0 <= l < |b| && b[l] == t[j];
    }
  }

  lemma {:induction false} SortAnyCase(members: seq<Member>)
    requires NamesAgree(members, members)
    ensures Sort(members, false) == Sort(members, true)
    decreases |members|
  {
    assert StrictlyAscending(members, false) == StrictlyAscending(members, true) by {
      assert forall i :: 0 < i < |members| ==> SameOrder(members[i - 1].key, members[i].key);
    }
    if |members| > 1 && !StrictlyAscending(members, true) {
      var half := (|members| + 1) / 2;
      var a, b := members[..half], members[half..];
      SortAnyCase(a);
      SortAnyCase(b);
      SortedNames(a, b);
      MergeAnyCase(Sort(a, true), Sort(b, true));
    }
  }

  lemma AgreeNames(a: seq<Member>, b: seq<Member>)
    requires UniqueKeys(a) && UniqueKeys(b) && KeysAgree(DenoteMembers(a).Keys + DenoteMembers(b).Keys)
    ensures NamesAgree(a, b) && NamesAgree(a, a) && NamesAgree(b, b)
  {
    forall i | 0 <= i < |a| ensures a[i].key in DenoteMembers(a) { DenoteAt(a, i); }
    forall i | 0 <= i < |b| ensures b[i].key in DenoteMembers(b) { DenoteAt(b, i); }
  }

  /** Members of the same name agree. */
  ghost predicate PairsAgree(xs: seq<Member>, ys: seq<Member>) {
    forall i, j :: 0 <= i < |xs| && 0 <= j < |ys| && xs[i].key == ys[j].key ==>
      Agree(Denote(xs[i].value), Denote(ys[j].value))
  }

  lemma ObjectAgrees(xs: seq<Member>, ys: seq<Member>)
    requires Distinct(Object(xs)) && Distinct(Object(ys)) && Agree(Denote(Object(xs)), Denote(Object(ys)))
    ensures Sort(xs, false) == Sort(xs, true) && Sort(ys, false) == Sort(ys, true)
    ensures NamesAgree(Sort(xs, true), Sort(ys, true)) && PairsAgree(Sort(xs, true), Sort(ys, true))
    ensures AllDistinct(Sort(xs, true)) && AllDistinct(Sort(ys, true))
  {
    AgreeNames(xs, ys);
    SortAnyCase(xs);
    SortAnyCase(ys);
    SortedNames(xs, ys);
    SortKeeps(xs);
    SortKeeps(ys);
    var s, t := Sort(xs, true), Sort(ys, true);
    forall i, j | 0 <= i < |s| && 0 <= j < |t| && s[i].key == t[j].key
      ensures Agree(Denote(s[i].value), Denote(t[j].value))
    {
      DenoteAt(s, i);
      DenoteAt(t, j);
    }
  }

  lemma SortKeeps(members: seq<Member>)
    requires Distinct(Object(members))
    ensures var s := Sort(members, true);
      KeysAscend(s) && FitMembers(s) && DenoteMembers(s) == DenoteMembers(members)
  {
    SortUnique(members);
    var sorted := Sort(members, true);
    forall i | 0 <= i < |sorted| ensures Distinct(sorted[i].value) {
      assert sorted[i] in members;
    }
  }

  lemma {:induction false} CompareAnyCase(a: Value, b: Value)
    requires Distinct(a) && Distinct(b) && Agree(Denote(a), Denote(b))
    ensures CompareJson(a, b, false) == CompareJson(a, b, true)
    decreases Nesting(a), 1, 0
  {
    hide Sort, CompareItems, CompareMembers;
    match (a, b)
    case (Array(xs), Array(ys)) =>
      WithinNesting(xs, []);
      CompareItemsAnyCase(xs, ys, 0, ItemsNesting(xs));
    case (Object(xs), Object(ys)) =>
      SortedWithin(xs, true);
      ObjectAgrees(xs, ys);
      CompareMembersAnyCase(Sort(xs, true), Sort(ys, true), 0, MembersNesting(xs));
    case _ =>
  }

  lemma {:induction false} CompareItemsAnyCase(xs: seq<Value>, ys: seq<Value>, i: nat, n: nat)
    requires i <= |xs| && i <= |ys| && ItemsWithin(xs, n) && Distinct(Array(xs)) && Distinct(Array(ys))
    requires Agree(Denote(Array(xs)), Denote(Array(ys)))
    ensures CompareItems(xs, ys, i, false, n) == CompareItems(xs, ys, i, true, n)
    decreases n + 1, 0, |xs| - i
  {
    if i < |xs| && i < |ys| {
      CompareAnyCase(xs[i], ys[i]);
      CompareItemsAnyCase(xs, ys, i + 1, n);
    }
  }

  lemma {:induction false} CompareMembersAnyCase(xs: seq<Member>, ys: seq<Member>, i: nat, n: nat)
    requires i <= |xs| && i <= |ys| && MembersWithin(xs, n) && AllDistinct(xs) && AllDistinct(ys)
    requires NamesAgree(xs, ys) && PairsAgree(xs, ys)
    ensures CompareMembers(xs, ys, i, false, n) == CompareMembers(xs, ys, i, true, n)
    decreases n + 1, 0, |xs| - i
  {
    hide CompareJson, Agree, Denote, Distinct, Less, Lower;
    if i < |xs| && i < |ys| {
      SameNames(xs[i].key, ys[i].key);
      if xs[i].key == ys[i].key { CompareAnyCase(xs[i].value, ys[i].value); }
      CompareMembersAnyCase(xs, ys, i + 1, n);
    }
  }

  lemma SameNames(k: bytes, l: bytes)
    requires SameOrder(k, l) && SameOrder(l, k)
    ensures SameKey(k, l, false) <==> k == l
  {
    if Lower(k) == Lower(l) { NotSmallerTwin(k, l); }
  }

  // ----- The generated patch is the difference -----

  lemma DenoteCons(m: Member, rest: seq<Member>)
    ensures DenoteMembers([m] + rest) == DenoteMembers(rest)[m.key := Denote(m.value)]
  {
    ConsShift(m, rest, 0);
  }

  lemma {:induction false} ConsShift(m: Member, rest: seq<Member>, j: nat)
    requires j <= |rest|
    ensures DenoteFrom([m] + rest, j + 1) == DenoteFrom(rest, j)
    decreases |rest| - j
  {
    if j < |rest| { ConsShift(m, rest, j + 1); }
  }

  lemma ConsFit(m: Member, rest: seq<Member>)
    requires FitMembers(rest) && Distinct(m.value) && m.key !in DenoteMembers(rest)
    ensures FitMembers([m] + rest)
  {
    forall k | 0 <= k < |rest| ensures rest[k].key != m.key {
      DenoteAt(rest, k);
    }
  }

  /** A key smaller than everything from `j` on is not among it. */
  lemma SmallerNotAhead(name: bytes, members: seq<Member>, j: nat)
    requires KeysAscend(members) && j <= |members| && (j < |members| ==> Less(name, members[j].key))
    ensures name !in DenoteFrom(members, j)
  {
    if name in DenoteFrom(members, j) {
      var k := InLater(members, j, name);
      if j < k { LessTransitive(name, members[j].key, members[k].key); }
      LessIrreflexive(name);
      assert false;
    }
  }

  lemma DeltaRemoved(f: map<bytes, Data>, g: map<bytes, Data>, name: bytes, v: Data)
    requires name !in f && name !in g
    ensures DeltaMembers(f[name := v], g) == DeltaMembers(f, g)[name := DNull] && name !in DeltaMembers(f, g)
  {
  }

  lemma DeltaAdded(f: map<bytes, Data>, g: map<bytes, Data>, name: bytes, v: Data)
    requires name !in f && name !in g
    ensures DeltaMembers(f, g[name := v]) == DeltaMembers(f, g)[name := v] && name !in DeltaMembers(f, g)
  {
  }

  lemma DeltaUnchanged(f: map<bytes, Data>, g: map<bytes, Data>, name: bytes, v: Data)
    requires name !in f && name !in g
    ensures DeltaMembers(f[name := v], g[name := v]) == DeltaMembers(f, g)
  {
  }

  lemma DeltaChanged(f: map<bytes, Data>, g: map<bytes, Data>, name: bytes, v: Data, w: Data)
    requires name !in f && name !in g && v != w
    ensures DeltaMembers(f[name := v], g[name := w]) == DeltaMembers(f, g)[name := Delta(v, w)]
    ensures name !in DeltaMembers(f, g)
  {
  }

  lemma DeltaEmpty(f: map<bytes, Data>, g: map<bytes, Data>)
    ensures DeltaMembers(f, g) == map[] <==> f == g
  {
    var d := DeltaMembers(f, g);
    if d == map[] {
      assert forall name :: name in f || name in g ==> name !in d;
      assert f == g;
    }
  }

  /** What the walk needs to know of both sorted lists. */
  ghost predicate Ready(from: seq<Member>, to: seq<Member>, caseSensitive: bool, n: nat) {
    && MembersWithin(from, n) && KeysAscend(from) && KeysAscend(to) && FitMembers(from) && FitMembers(to)
    && forall i, j :: 0 <= i < |from| && 0 <= j < |to| && from[i].key == to[j].key ==>
         MemberFits(Denote(from[i].value), Denote(to[j].value), caseSensitive)
  }

  lemma {:induction false} GenerateFromExact(from: seq<Member>, to: seq<Member>, i: nat, j: nat, caseSensitive: bool,
                                             n: nat)
    requires i <= |from| && j <= |to| && Ready(from, to, caseSensitive, n)
    ensures FitMembers(GenerateFrom(from, to, i, j, caseSensitive, n))
    ensures DenoteMembers(GenerateFrom(from, to, i, j, caseSensitive, n))
      == DeltaMembers(DenoteFrom(from, i), DenoteFrom(to, j))
    decreases n + 1, 0, |from| - i + |to| - j
  {
    hide Delta, DeltaMembers, Denote, CompareJson, Generate, Distinct, FitMembers, KeysAscend, Less, MemberFits;
    if i == |from| && j == |to| {
      NothingFits();
      DeltaEmpty(map[], map[]);
    } else if j == |to| || (i < |from| && Less(from[i].key, to[j].key)) {
      var m, rest := Member(from[i].key, Null), GenerateFrom(from, to, i + 1, j, caseSensitive, n);
      GenerateFromExact(from, to, i + 1, j, caseSensitive, n);
      HeadNotLater(from, i);
      SmallerNotAhead(m.key, to, j);
      DeltaRemoved(DenoteFrom(from, i + 1), DenoteFrom(to, j), m.key, Denote(from[i].value));
      MemberFit(from, i);
      NullFits();
      DenoteCons(m, rest);
      ConsFit(m, rest);
    } else if i == |from| || from[i].key != to[j].key {
      var m, rest := to[j], GenerateFrom(from, to, i, j + 1, caseSensitive, n);
      GenerateFromExact(from, to, i, j + 1, caseSensitive, n);
      if i < |from| { LessTotal(from[i].key, to[j].key); }
      HeadNotLater(to, j);
      SmallerNotAhead(m.key, from, i);
      DeltaAdded(DenoteFrom(from, i), DenoteFrom(to, j + 1), m.key, Denote(m.value));
      MemberFit(to, j);
      DenoteCons(m, rest);
      ConsFit(m, rest);
    } else {
      GenerateBothExact(from, to, i, j, caseSensitive, n);
    }
  }

  lemma NothingFits()
    ensures FitMembers([])
  {
  }

  lemma NullFits()
    ensures Distinct(Null) && Denote(Null) == DNull
  {
  }

  lemma {:induction false} GenerateBothExact(from: seq<Member>, to: seq<Member>, i: nat, j: nat, caseSensitive: bool,
                                             n: nat)
    requires i < |from| && j < |to| && Ready(from, to, caseSensitive, n) && from[i].key == to[j].key
    requires !Less(from[i].key, to[j].key)
    ensures FitMembers(GenerateFrom(from, to, i, j, caseSensitive, n))
    ensures DenoteMembers(GenerateFrom(from, to, i, j, caseSensitive, n))
      == DeltaMembers(DenoteFrom(from, i), DenoteFrom(to, j))
    decreases n + 1, 0, |from| - i + |to| - j, 0
  {
    hide Delta, DeltaMembers, Denote, CompareJson, Generate, Distinct, FitMembers, KeysAscend, Less, MemberFits;
    var f, t, rest := from[i].value, to[j].value, GenerateFrom(from, to, i + 1, j + 1, caseSensitive, n);
    GenerateFromExact(from, to, i + 1, j + 1, caseSensitive, n);
    HeadNotLater(from, i);
    HeadNotLater(to, j);
    MemberFit(from, i);
    MemberFit(to, j);
    Compared(f, t, caseSensitive);
    NestedExact(f, t, caseSensitive, n);
    if Denote(f) == Denote(t) {
      DeltaUnchanged(DenoteFrom(from, i + 1), DenoteFrom(to, j + 1), to[j].key, Denote(f));
      assert [] + rest == rest;
    } else {
      DeltaChanged(DenoteFrom(from, i + 1), DenoteFrom(to, j + 1), to[j].key, Denote(f), Denote(t));
      var m := Member(to[j].key, Generate(f, t, false).value);
      DenoteCons(m, rest);
      ConsFit(m, rest);
    }
  }

  /** The patch of a member that differs. */
  lemma {:induction false} NestedExact(f: Value, t: Value, caseSensitive: bool, n: nat)
    requires Distinct(f) && Distinct(t) && MemberFits(Denote(f), Denote(t), caseSensitive) && Nesting(f) <= n
    ensures Denote(f) != Denote(t) ==>
      var p := Generate(f, t, false);
      p.Some? && Denote(p.value) == Delta(Denote(f), Denote(t)) && Distinct(p.value)
    decreases n, 2, 0
  {
    if OrdersAgree(Denote(f), Denote(t)) { GenerateExact(f, t, false); }
  }

  lemma Compared(a: Value, b: Value, caseSensitive: bool)
    requires Distinct(a) && Distinct(b) && MemberFits(Denote(a), Denote(b), caseSensitive)
    ensures CompareJson(a, b, caseSensitive) <==> Denote(a) == Denote(b)
  {
    CompareJsonExact(a, b);
    if !caseSensitive {
      OrdersAgreeCompared(Denote(a), Denote(b));
      CompareAnyCase(a, b);
    }
  }

  /** Where both orders agree on sibling names, at the levels that are taken without regard to case, the
      generated patch denotes the difference; between two objects there is none exactly when they are
      equal. */
  lemma {:induction false} GenerateExact(from: Value, to: Value, caseSensitive: bool)
    requires Distinct(from) && Distinct(to) && Fits(Denote(from), Denote(to), caseSensitive)
    ensures Generate(from, to, caseSensitive).None? <==> from.Object? && to.Object? && Denote(from) == Denote(to)
    ensures Generate(from, to, caseSensitive).Some? ==>
              && Denote(Generate(from, to, caseSensitive).value) == Delta(Denote(from), Denote(to))
              && Distinct(Generate(from, to, caseSensitive).value)
    decreases Nesting(from), 1, 0
  {
    if from.Object? && to.Object? {
      var n := MembersNesting(from.members);
      var fs, ts := Sort(from.members, caseSensitive), Sort(to.members, caseSensitive);
      SortedWithin(from.members, caseSensitive);
      SortedReady(from.members, to.members, caseSensitive);
      GenerateFromExact(fs, ts, 0, 0, caseSensitive, n);
      DeltaEmpty(DenoteMembers(fs), DenoteMembers(ts));
      var members := GenerateFrom(fs, ts, 0, 0, caseSensitive, n);
      if members != [] { DenoteAt(members, 0); }
    }
  }

  lemma SortedReady(from: seq<Member>, to: seq<Member>, caseSensitive: bool)
    requires Distinct(Object(from)) && Distinct(Object(to))
    requires Fits(Denote(Object(from)), Denote(Object(to)), caseSensitive)
    ensures MembersWithin(Sort(from, caseSensitive), MembersNesting(from))
    ensures var fs, ts := Sort(from, caseSensitive), Sort(to, caseSensitive);
      && Ready(fs, ts, caseSensitive, MembersNesting(from))
      && DenoteMembers(fs) == DenoteMembers(from) && DenoteMembers(ts) == DenoteMembers(to)
  {
    hide Sort;
    SortedWithin(from, caseSensitive);
    if !caseSensitive {
      AgreeNames(from, to);
      SortAnyCase(from);
      SortAnyCase(to);
    }
    SortKeeps(from);
    SortKeeps(to);
    var fs, ts := Sort(from, true), Sort(to, true);
    forall i, j | 0 <= i < |fs| && 0 <= j < |ts| && fs[i].key == ts[j].key
      ensures MemberFits(Denote(fs[i].value), Denote(ts[j].value), caseSensitive)
    {
      DenoteAt(fs, i);
      DenoteAt(ts, j);
    }
  }

  // ----- The theorem -----

  /** The target after the patch, if any, has been merged into it. */
  function After(from: Value, patch: Option<Value>, caseSensitive: bool): Value {
    match patch
    case None => from
    case Some(p) => MergePatch.Merge(Some(from), p, caseSensitive)
  }

  /** What a merge of the generated patch needs: if it ignores case, no names that differ in case only. A
      generator that ignores case has already asked for more. */
  predicate MergeFitsDelta(from: Data, goal: Data, generateCase: bool, mergeCase: bool) {
    mergeCase || !generateCase || NoTwins(Some(from), Delta(from, goal))
  }

  /** For trees with distinct keys, merging the generated patch into a document equal to `from` gives `to`
      if and only if `to` needs no null member that `from` does not already have. Both orders must agree
      on sibling names where case is ignored: with both flags set only in members that differ and are
      objects on both sides, which are generated again without regard to case. */
  lemma MergeRoundTrip(doc: Value, from: Value, to: Value, generateCase: bool, mergeCase: bool)
    requires Distinct(from) && Distinct(to) && Fits(Denote(from), Denote(to), generateCase)
    requires MergeFitsDelta(Denote(from), Denote(to), generateCase, mergeCase)
    requires Distinct(doc) && Denote(doc) == Denote(from)
    ensures Denote(After(doc, Generate(from, to, generateCase), mergeCase)) == Denote(to)
      <==> NullSafe(Denote(from), Denote(to))
  {
    hide OrdersAgree, OrdersAgreeBelow, Delta, NullSafe, NoTwins, Merged, Generate, Denote, Distinct;
    GenerateExact(from, to, generateCase);
    var patch := Generate(from, to, generateCase);
    DeltaMerges(Denote(from), Denote(to));
    if !generateCase { DeltaNoTwins(Denote(from), Denote(to)); }
    if patch.Some? {
      MergeIsRfc(Some(doc), patch.value, mergeCase);
    } else {
      NothingToMerge(Denote(from));
    }
  }

  lemma NothingToMerge(d: Data)
    ensures NullSafe(d, d)
  {
  }

  /** The comparison of two members leaves them sorted before the nested patch is generated, and the
      patch then denotes the same difference. */
  lemma GenerateAfterCompare(from: Value, to: Value, compareCase: bool, caseSensitive: bool)
    requires Distinct(from) && Distinct(to) && OrdersAgree(Denote(from), Denote(to))
    ensures var from', to' := Arrange(from, to, compareCase), Arrange(to, from, compareCase);
      var was, now := Generate(from, to, caseSensitive), Generate(from', to', caseSensitive);
      (was.None? <==> now.None?) && (was.Some? ==> Denote(now.value) == Denote(was.value))
  {
    hide OrdersAgree, Delta, Generate, Arrange, Distinct;
    ArrangeKeeps(from, to, compareCase);
    ArrangeKeeps(to, from, compareCase);
    var from', to' := Arrange(from, to, compareCase), Arrange(to, from, compareCase);
    SameKinds(from, from');
    SameKinds(to, to');
    AgreeFits(Denote(from), Denote(to), caseSensitive);
    GenerateExact(from, to, caseSensitive);
    GenerateExact(from', to', caseSensitive);
  }

  lemma SameKinds(a: Value, b: Value)
    requires Denote(a) == Denote(b)
    ensures a.Object? <==> b.Object?
  {
  }

  /** Where the orders disagree it breaks: the lists are sorted one way and walked another. Going from
      {"a":0,"B":0} to {"B":0} without regard to case ends in {}, though no null is involved. */
  lemma UpperCaseBreaks()
    ensures var a, b := Member([97], Number(0)), Member([66], Number(0));
      var from, to := Object([a, b]), Object([b]);
      && NullSafe(Denote(from), Denote(to)) && !SameOrder(a.key, b.key)
      && Generate(from, to, false) == Some(Object([b, Member([97], Null), Member([66], Null)]))
      && After(from, Generate(from, to, false), false) == Object([])
  {
    var a, b := Member([97], Number(0)), Member([66], Number(0));
    var a0, b0 := Member([97], Null), Member([66], Null);
    var fs, ts := [a, b], [b];
    SortedWithin(fs, false);
    var n := MembersNesting(fs);
    assert Lower([97]) == [97] && Lower([66]) == [98];
    assert StrictlyAscending(fs, false);
    assert Sort(fs, false) == fs && Sort(ts, false) == ts;
    assert GenerateFrom(fs, ts, 2, 1, false, n) == [];
    assert GenerateFrom(fs, ts, 1, 1, false, n) == [b0] + [];
    assert GenerateFrom(fs, ts, 0, 1, false, n) == [a0] + [b0];
    assert GenerateFrom(fs, ts, 0, 0, false, n) == [b] + ([a0] + [b0]) == [b, a0, b0];
    UpperCaseMerge(a, b, a0, b0);
    DenoteLookup(fs, 0, [66]);
    DenoteLookup(ts, 0, [66]);
    OnlyName(ts, [66]);
  }

  lemma OnlyName(members: seq<Member>, name: bytes)
    requires |members| == 1 && members[0].key == name
    ensures forall k :: k in DenoteMembers(members) ==> k == name
  {
    forall k | k in DenoteMembers(members) ensures k == name {
      DenoteLookup(members, 0, k);
    }
  }

  lemma UpperCaseMerge(a: Member, b: Member, a0: Member, b0: Member)
    requires a == Member([97], Number(0)) && b == Member([66], Number(0))
    requires a0 == Member([97], Null) && b0 == Member([66], Null)
    ensures MergePatch.Merge(Some(Object([a, b])), Object([b, a0, b0]), false) == Object([])
  {
    var patch := [b, a0, b0];
    UpperCaseKeys(a, b);
    hide FindKey, Lower, SameKey;
    assert MergeFrom([], patch, 3, false) == [];
    assert MergeFrom([b], patch, 2, false) == [];
    assert MergeFrom([a, b], patch, 1, false) == [];
    assert [a] + [Member(b.key, Number(0))] == [a, b];
    assert MergeFrom([a, b], patch, 0, false) == [];
  }

  lemma UpperCaseKeys(a: Member, b: Member)
    requires a.key == [97] && b.key == [66]
    ensures FindKey([a, b], 0, b.key, false) == Some(1) && RemoveAt([a, b], 1) == [a]
    ensures FindKey([a, b], 0, a.key, false) == Some(0) && RemoveAt([a, b], 0) == [b]
    ensures FindKey([b], 0, b.key, false) == Some(0) && RemoveAt([b], 0) == []
  {
    assert Lower([97]) == [97] && Lower([66]) == [98];
    assert !SameKey(b.key, [a, b][0].key, false) && SameKey(b.key, [a, b][1].key, false);
    assert FindKey([a, b], 0, b.key, false) == Some(1) && RemoveAt([a, b], 1) == [a];
    assert FindKey([a, b], 0, a.key, false) == Some(0) && RemoveAt([a, b], 0) == [b];
    assert FindKey([b], 0, b.key, false) == Some(0) && RemoveAt([b], 0) == [];
  }

  // ----- The loop -----

  method GenerateMergePatch(from: Value, to: Value, caseSensitive: bool) returns (patch: Option<Value>)
    ensures patch == Generate(from, to, caseSensitive)
    decreases Nesting(from), 1, 0
  {
    if !to.Object? || !from.Object? {
      return Some(to);
    }
    SortedWithin(from.members, caseSensitive);
    ghost var n := MembersNesting(from.members);
    var fs, ts := Sort(from.members, caseSensitive), Sort(to.members, caseSensitive);
    var members := GenerateLoop(fs, ts, caseSensitive, n);
    return if members == [] then None else Some(Object(members));
  }

  method GenerateLoop(from: seq<Member>, to: seq<Member>, caseSensitive: bool, ghost n: nat)
    returns (members: seq<Member>)
    requires MembersWithin(from, n)
    ensures members == GenerateFrom(from, to, 0, 0, caseSensitive, n)
    decreases n + 1, 0, 1
  {
    hide GenerateFrom;
    members := [];
    ghost var goal := GenerateFrom(from, to, 0, 0, caseSensitive, n);
    var i, j := 0, 0;
    while i < |from| || j < |to|
      invariant i <= |from| && j <= |to|
      invariant members + GenerateFrom(from, to, i, j, caseSensitive, n) == goal
      decreases |from| - i + |to| - j
    {
      ghost var was := members;
      var more, i', j' := GenerateTurn(from, to, i, j, caseSensitive, n);
      assert was + (more + GenerateFrom(from, to, i', j', caseSensitive, n))
          == was + more + GenerateFrom(from, to, i', j', caseSensitive, n);
      members, i, j := members + more, i', j';
    }
    GenerateEnd(from, to, caseSensitive, n);
    assert members + [] == members;
  }

  lemma GenerateEnd(from: seq<Member>, to: seq<Member>, caseSensitive: bool, n: nat)
    requires MembersWithin(from, n)
    ensures GenerateFrom(from, to, |from|, |to|, caseSensitive, n) == []
  {
  }

  /** One turn of the walk: the members it adds to the patch and where it goes on. */
  method GenerateTurn(from: seq<Member>, to: seq<Member>, i: nat, j: nat, caseSensitive: bool, ghost n: nat)
    returns (more: seq<Member>, i': nat, j': nat)
    requires i <= |from| && j <= |to| && (i < |from| || j < |to|) && MembersWithin(from, n)
    ensures i <= i' <= |from| && j <= j' <= |to| && i + j < i' + j'
    ensures GenerateFrom(from, to, i, j, caseSensitive, n) == more + GenerateFrom(from, to, i', j', caseSensitive, n)
    decreases n + 1, 0, 0, 0
  {
    more, i', j' := [], i, j;
    if j == |to| || (i < |from| && Less(from[i].key, to[j].key)) {
      more, i' := [Member(from[i].key, Null)], i + 1;
    } else if i == |from| || from[i].key != to[j].key {
      more, j' := [to[j]], j + 1;
    } else {
      i', j' := i + 1, j + 1;
      if !CompareJson(from[i].value, to[j].value, caseSensitive) {
        var nested := GenerateMergePatch(from[i].value, to[j].value, false);
        if nested.Some? {
          more := [Member(to[j].key, nested.value)];
        }
      }
    }
  }
}
