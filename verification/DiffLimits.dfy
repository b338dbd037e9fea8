/** Where diff and apply part: both premises on keys are needed. */
module DiffLimits {
  import opened Bytes
  import opened Json
  import opened Unordered
  import opened Sorting
  import opened Compare
  import opened Pointer
  import opened Patch
  import opened Diff
  import opened PatchSteps

  // ----- A slash in a key does not survive -----

  /** The in-place decoder leaves the byte at `j`, where the key has its first slash, as the
      encoder wrote it, and the encoder never writes a slash. */
  lemma {:induction false} FirstSlashLost(key: cstring, m: nat, b: bytes, r: nat, j: nat)
    requires j < |key| && key[j] == SLASH && forall i :: 0 <= i < j ==> key[i] != SLASH
    requires m <= |key| && m <= r && 0 !in b && |key| <= |b| && r + |EncodeFrom(key, m)| == |b|
    requires At(b, r, EncodeFrom(key, m)) && b[j] != SLASH
    ensures var s := DecodeLoop(b, r, m); |s| == |key| && s[j] != SLASH
    decreases |key| - m
  {
    hide EncodeFrom, At, DecodeLoop;
    if m == |key| {
      DecodeEnd(key, b, r);
    } else {
      EncodedByteAt(b, r, key, m);
      EncodedStep(key, m);
      DecodeStep(b, r, m);
      var rest := EncodeFrom(key, m + 1);
      var b' := if key[m] == TILDE then b[m := TILDE] else if key[m] == SLASH then b[m + 1 := SLASH] else b;
      var r' := r + |EncodeByte(key[m])|;
      SuffixKept(b, b', r', rest);
      FirstSlashLost(key, m + 1, b', r', j);
    }
  }

  lemma DecodeEnd(key: cstring, b: bytes, r: nat)
    requires |key| <= r && r + |EncodeFrom(key, |key|)| == |b| && 0 !in b
    ensures DecodeLoop(b, r, |key|) == b[..|key|]
  {
  }

  lemma DecodeStep(b: bytes, r: nat, w: nat)
    requires w <= r < |b| && 0 !in b
    ensures b[r] != TILDE ==> DecodeLoop(b, r, w) == DecodeLoop(b, r + 1, w + 1)
    ensures b[r] == TILDE && r + 1 < |b| && b[r + 1] == ZERO ==>
      DecodeLoop(b, r, w) == DecodeLoop(b[w := TILDE], r + 2, w + 1)
    ensures b[r] == TILDE && r + 1 < |b| && b[r + 1] == ONE ==>
      DecodeLoop(b, r, w) == DecodeLoop(b[w + 1 := SLASH], r + 2, w + 1)
  {
  }

  lemma EncodedStep(key: cstring, m: nat)
    requires m < |key|
    ensures |EncodeFrom(key, m)| == |EncodeByte(key[m])| + |EncodeFrom(key, m + 1)|
  {
  }

  lemma SuffixKept(b: bytes, b': bytes, r: nat, t: bytes)
    requires |b| == |b'| && At(b, r, t) && forall i :: r <= i < |b| ==> b[i] == b'[i]
    ensures At(b', r, t)
  {
    assert b'[r..r + |t|] == b[r..r + |t|];
  }

  lemma {:induction false} FirstSlash(key: cstring, n: nat) returns (j: nat)
    requires n <= |key| && SLASH in key[n..] && SLASH !in key[..n]
    ensures j < |key| && key[j] == SLASH && forall i :: 0 <= i < j ==> key[i] != SLASH
    decreases |key| - n
  {
    if key[n] == SLASH {
      j := n;
      assert forall i :: 0 <= i < n ==> key[i] in key[..n];
    } else {
      assert key[n..] == [key[n]] + key[n + 1..] && key[..n + 1] == key[..n] + [key[n]];
      j := FirstSlash(key, n + 1);
    }
  }

  lemma {:induction false} EncodedLonger(key: cstring, i: nat)
    requires i <= |key|
    ensures |EncodeFrom(key, i)| >= |key| - i
    decreases |key| - i
  {
    if i < |key| { EncodedLonger(key, i + 1); }
  }

  /** No key with a slash survives, not even up to case. */
  lemma SlashDoesNotSurvive(key: cstring)
    requires SLASH in key
    ensures !Survives(key) && Lower(DecodeInPlace(Encode(key))) != Lower(key)
  {
    assert key[0..] == key && key[..0] == [];
    var j := FirstSlash(key, 0);
    var b := Encode(key);
    EncodedLonger(key, 0);
    assert b[0..|b|] == b;
    assert b[j] in b;
    FirstSlashLost(key, 0, b, 0, j);
    var s := DecodeInPlace(b);
    assert Lower(key)[j] == SLASH && Lower(s)[j] == ToLower(s[j]);
  }

  /** The first `m` bytes are decoded: tildes restored, every other byte of the encoded text left
      where it stood; the rest is as encoded. */
  predicate Restored(key: cstring, encoded: bytes, m: nat, b: bytes) {
    && m <= |key| <= |b| == |encoded|
    && (forall w :: 0 <= w < m ==> b[w] == if key[w] == TILDE then TILDE else encoded[w])
    && (forall w :: m <= w < |b| ==> b[w] == encoded[w])
  }

  lemma RestoredStep(key: cstring, encoded: bytes, m: nat, b: bytes)
    requires Restored(key, encoded, m, b) && m < |key|
    ensures Restored(key, encoded, m + 1, if key[m] == TILDE then b[m := TILDE] else b)
  {
  }

  lemma {:induction false} TildesRestored(key: cstring, encoded: bytes, m: nat, b: bytes, r: nat)
    requires SLASH !in key && m <= |key| && m <= r && 0 !in b && Restored(key, encoded, m, b)
    requires r + |EncodeFrom(key, m)| == |b| && At(b, r, EncodeFrom(key, m))
    ensures exists b' :: Restored(key, encoded, |key|, b') && DecodeLoop(b, r, m) == b'[..|key|]
    decreases |key| - m
  {
    hide EncodeFrom, At, DecodeLoop, Restored;
    if m == |key| {
      DecodeEnd(key, b, r);
    } else {
      assert key[m] in key;
      EncodedByteAt(b, r, key, m);
      EncodedStep(key, m);
      DecodeStep(b, r, m);
      RestoredStep(key, encoded, m, b);
      if key[m] == TILDE {
        SuffixKept(b, b[m := TILDE], r + 2, EncodeFrom(key, m + 1));
        TildesRestored(key, encoded, m + 1, b[m := TILDE], r + 2);
      } else {
        TildesRestored(key, encoded, m + 1, b, r + 1);
      }
    }
  }

  /** The keys that survive: no slash, and the encoded text has the key's own byte wherever the key
      has no tilde. */
  lemma SurvivesExact(key: cstring)
    ensures Survives(key) <==>
      SLASH !in key && forall w :: 0 <= w < |key| && key[w] != TILDE ==> w < |Encode(key)| && Encode(key)[w] == key[w]
  {
    EncodedLonger(key, 0);
    var b := Encode(key);
    assert b[0..|b|] == b;
    if SLASH in key {
      SlashDoesNotSurvive(key);
    } else {
      TildesRestored(key, b, 0, b, 0);
      var s := DecodeInPlace(b);
      if forall w :: 0 <= w < |key| && key[w] != TILDE ==> b[w] == key[w] {
        assert s == key;
      }
    }
  }

  lemma RemovePatch(key: cstring, v: Value)
    ensures GeneratePatches(Object([Member(key, v)]), Object([]), true) == [Compose(REMOVE, Extend([], key), None)]
  {
    var from := [Member(key, v)];
    SortedWithin(from, true);
    var n := MembersNesting(from);
    assert Sort(from, true) == from && Sort([], true) == [];
    assert PatchMembers([], from, [], 1, 0, true, n) == [];
    assert PatchMembers([], from, [], 0, 0, true, n) == [Compose(REMOVE, Extend([], key), None)] + [];
  }

  /** Detaching a member of the root goes by the decoded token, in any case. */
  lemma DetachFromRoot(members: seq<Member>, key: cstring)
    ensures DetachPath(Object(members), Extend([], key), true) ==
      match FindKey(members, 0, DecodeInPlace(Encode(key)), false) {
        case None => None
        case Some(x) => Some(Detached(Object(RemoveAt(members, x)), members[x].value))
      }
  {
    hide FindKey, DecodeInPlace, Encode, LastSlash, Locate, RemoveAt;
    var path := Extend([], key);
    NoSlash(key);
    PathSplit([], Encode(key), path);
    RootLocated(members);
    assert path[..0] == [];
  }

  lemma RootLocated(members: seq<Member>)
    ensures Locate(Object(members), [], 0, true) == Some([])
  {
  }

  lemma RemovedFromRoot(members: seq<Member>, key: cstring)
    ensures ApplyFrom(Live(Object(members)), [Compose(REMOVE, Extend([], key), None)], 0, true) ==
      match FindKey(members, 0, DecodeInPlace(Encode(key)), false) {
        case None => Done(Live(Object(members)), 13)
        case Some(x) => Done(Live(Object(RemoveAt(members, x))), 0)
      }
  {
    var doc, patch := Live(Object(members)), Compose(REMOVE, Extend([], key), None);
    DetachFromRoot(members, key);
    ComposedPatch(doc, REMOVE, Extend([], key), None);
    hide ApplyPatch, DetachPath, DecodeInPlace, Compose, FindKey;
    var r := ApplyPatch(doc, patch, true);
    if r.Done? && r.status == 0 {
      assert ApplyFrom(r.doc, [patch], 1, true) == Done(r.doc, 0);
    }
  }

  /** Removing such a member fails with status 13, for every key with a slash. */
  lemma SlashKeyNotRemoved(key: cstring, v: Value)
    requires SLASH in key
    ensures var doc := Object([Member(key, v)]);
      ApplyFrom(Live(doc), GeneratePatches(doc, Object([]), true), 0, true) == Done(Live(doc), 13)
  {
    RemovePatch(key, v);
    SlashDoesNotSurvive(key);
    RemovedFromRoot([Member(key, v)], key);
    hide ApplyFrom, GeneratePatches;
    assert FindKey([Member(key, v)], 0, DecodeInPlace(Encode(key)), false) == None;
  }

  // ----- Keys that differ in case only -----

  lemma SortedPair(a: Member, b: Member)
    requires a.key != b.key
    ensures Sort([a, b], true) == if Less(a.key, b.key) then [a, b] else [b, a]
  {
    if !Less(a.key, b.key) {
      assert !KeyLess([a, b][0].key, [a, b][1].key, true);
      assert [a, b][..1] == [a] && [a, b][1..] == [b];
      assert Sort([a], true) == [a] && Sort([b], true) == [b];
      assert Merge([a], [b], true) == [b] + Merge([a], [], true);
    }
  }

  /** The walk over the sorted pair and the single member that stays. */
  lemma CollisionWalk(a: cstring, b: cstring, from: seq<Member>, n: nat)
    requires a != b && MembersWithin(from, n)
    requires from == if Less(a, b) then [Member(a, Null), Member(b, Null)] else [Member(b, Null), Member(a, Null)]
    requires Less(a, b) || Less(b, a)
    requires !Less(a, a) && Patches(Extend([], a), Null, Null, true) == []
    ensures PatchMembers([], from, [Member(a, Null)], 0, 0, true, n) == [Compose(REMOVE, Extend([], b), None)]
  {
    hide Less, Compose, Extend, Patches;
    var to, removal := [Member(a, Null)], [Compose(REMOVE, Extend([], b), None)];
    assert PatchMembers([], from, to, 2, 1, true, n) == [];
    if Less(a, b) {
      assert PatchMembers([], from, to, 1, 1, true, n) == removal;
      assert PatchMembers([], from, to, 0, 0, true, n) == [] + removal;
    } else {
      assert PatchMembers([], from, to, 1, 0, true, n) == [] + [];
      assert PatchMembers([], from, to, 0, 0, true, n) == removal;
    }
  }

  lemma CollisionPatch(a: cstring, b: cstring)
    requires a != b
    ensures GeneratePatches(Object([Member(a, Null), Member(b, Null)]), Object([Member(a, Null)]), true)
      == [Compose(REMOVE, Extend([], b), None)]
  {
    hide PatchMembers, Less, Extend, Compose, MembersWithin;
    var x, y := Member(a, Null), Member(b, Null);
    SortedPair(x, y);
    SortedWithin([x, y], true);
    assert Sort([x], true) == [x];
    LessIrreflexive(a);
    LessTotal(a, b);
    assert Patches(Extend([], a), Null, Null, true) == [];
    CollisionWalk(a, b, Sort([x, y], true), MembersNesting([x, y]));
  }
}
