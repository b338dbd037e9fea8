/** The loops and in-place steps behind patching: create_patches appends to a list,
    decode_pointer_inplace overwrites its string. */
module PatchLoops {
  import opened Bytes
  import opened Decimal
  import opened Json
  import opened Pointer
  import opened Sorting
  import opened Compare
  import opened Patch
  import opened Diff

  /** The array that create_patches fills. */
  class PatchList {
    var patches: seq<Value>

    constructor ()
      ensures patches == []
    {
      patches := [];
    }

    /** compose_patch with and without a suffix. */
    method ComposePatch(op: cstring, path: cstring, suffix: Option<cstring>, value: Option<Value>)
      modifies this
      ensures patches == old(patches)
        + [Compose(op, if suffix.Some? then Extend(path, suffix.value) else path, value)]
    {
      var full := path;
      if suffix.Some? {
        var length := EncodedLength(suffix.value);
        var buffer := new byte[|path| + length + 2];
        forall i | 0 <= i < |path| + 1 {
          buffer[i] := if i < |path| then path[i] else SLASH;
        }
        assert buffer[..|path| + 1] == path + [SLASH];
        EncodeInto(buffer, |path| + 1, suffix.value);
        assert buffer[..|path| + 1 + length] == buffer[..|path| + 1 + length + 1][..|path| + 1 + length];
        assert buffer[..|path| + 1 + length] == path + [SLASH] + Encode(suffix.value) == Extend(path, suffix.value);
        full := buffer[..|path| + 1 + length];
      }
      patches := patches + [Compose(op, full, value)];
    }

    /** create_patches. */
    method CreatePatches(path: cstring, from: Value, to: Value, caseSensitive: bool)
      modifies this
      ensures patches == old(patches) + Patches(path, from, to, caseSensitive)
      decreases Nesting(from), 1, 0
    {
      if !SameType(from, to) {
        ComposePatch(REPLACE, path, None, Some(to));
        return;
      }
      match from
      case Number(n) =>
        if n != to.n { ComposePatch(REPLACE, path, None, Some(to)); }
      case String(s) =>
        if s != to.s { ComposePatch(REPLACE, path, None, Some(to)); }
      case Array(items) =>
        WithinNesting(items, []);
        PatchArray(path, items, to.items, caseSensitive, ItemsNesting(items));
      case Object(members) =>
        SortedWithin(members, caseSensitive);
        PatchObject(path, Sort(members, caseSensitive), Sort(to.members, caseSensitive), caseSensitive,
                    MembersNesting(members));
      case _ =>
    }

    method PatchArray(path: cstring, from: seq<Value>, to: seq<Value>, caseSensitive: bool, ghost n: nat)
      requires ItemsWithin(from, n)
      modifies this
      ensures patches == old(patches) + PatchItems(path, from, to, 0, caseSensitive, n)
      decreases n + 1, 0, |from| + 1
    {
      hide Patches, Compose, Extend, Digits;
      ghost var goal := patches + PatchItems(path, from, to, 0, caseSensitive, n);
      var index := 0;
      while index < |from| && index < |to|
        invariant index <= |from| && index <= |to|
        invariant patches + PatchItems(path, from, to, index, caseSensitive, n) == goal
      {
        ghost var was, rest := patches, PatchItems(path, from, to, index + 1, caseSensitive, n);
        CreatePatches(path + ([SLASH] + Digits(index)), from[index], to[index], caseSensitive);
        Regroup(was, Patches(path + ([SLASH] + Digits(index)), from[index], to[index], caseSensitive), rest);
        index := index + 1;
      }
      var left := index;
      ghost var after := Additions(path, to, index);
      while left < |from|
        invariant index <= left <= |from|
        invariant patches + (Removals(path, index, |from| - left) + after) == goal
      {
        ghost var was, rest := patches, Removals(path, index, |from| - left - 1);
        ghost var one := [Compose(REMOVE, Extend(path, Digits(index)), None)];
        ComposePatch(REMOVE, path, Some(Digits(index)), None);
        Regroup(one, rest, after);
        Regroup(was, one, rest + after);
        left := left + 1;
      }
      assert [] + after == after;
      while index < |to|
        invariant index <= |to|
        invariant patches + Additions(path, to, index) == goal
      {
        ghost var was, rest := patches, Additions(path, to, index + 1);
        ghost var one := [Compose(ADD, Extend(path, [MINUS]), Some(to[index]))];
        ComposePatch(ADD, path, Some([MINUS]), Some(to[index]));
        Regroup(was, one, rest);
        index := index + 1;
      }
      assert patches + [] == patches;
    }

    method PatchObject(path: cstring, from: seq<Member>, to: seq<Member>, caseSensitive: bool, ghost n: nat)
      requires MembersWithin(from, n)
      modifies this
      ensures patches == old(patches) + PatchMembers(path, from, to, 0, 0, caseSensitive, n)
      decreases n + 1, 0, |from| + 1
    {
      ghost var goal := patches + PatchMembers(path, from, to, 0, 0, caseSensitive, n);
      var i, j := 0, 0;
      while i < |from| || j < |to|
        invariant i <= |from| && j <= |to|
        invariant patches + PatchMembers(path, from, to, i, j, caseSensitive, n) == goal
        decreases |from| - i + |to| - j
      {
        i, j := PatchMember(path, from, to, i, j, caseSensitive, n, goal);
      }
      assert patches + [] == patches;
    }

    /** One turn of the walk over both sorted lists. */
    method PatchMember(path: cstring, from: seq<Member>, to: seq<Member>, i: nat, j: nat, caseSensitive: bool,
                       ghost n: nat, ghost goal: seq<Value>)
      returns (i': nat, j': nat)
      requires i <= |from| && j <= |to| && (i < |from| || j < |to|) && MembersWithin(from, n)
      requires patches + PatchMembers(path, from, to, i, j, caseSensitive, n) == goal
      modifies this
      ensures i <= i' <= |from| && j <= j' <= |to| && i + j < i' + j'
      ensures patches + PatchMembers(path, from, to, i', j', caseSensitive, n) == goal
      decreases n + 1, 0, 0
    {
      ghost var was := patches;
      ghost var one;
      var diff: int;
      if i == |from| {
        diff := 1;
      } else if j == |to| {
        diff := -1;
      } else if KeyLess(from[i].key, to[j].key, caseSensitive) {
        diff := -1;
      } else if SameKey(from[i].key, to[j].key, caseSensitive) {
        diff := 0;
      } else {
        diff := 1;
      }
      i', j' := if diff <= 0 then i + 1 else i, if diff >= 0 then j + 1 else j;
      if diff == 0 {
        one := Patches(Extend(path, from[i].key), from[i].value, to[j].value, caseSensitive);
        CreatePatches(Extend(path, from[i].key), from[i].value, to[j].value, caseSensitive);
      } else if diff < 0 {
        one := [Compose(REMOVE, Extend(path, from[i].key), None)];
        ComposePatch(REMOVE, path, Some(from[i].key), None);
      } else {
        one := [Compose(ADD, Extend(path, to[j].key), Some(to[j].value))];
        ComposePatch(ADD, path, Some(to[j].key), Some(to[j].value));
      }
      hide KeyLess, Patches, Compose, SameKey;
      Regroup(was, one, PatchMembers(path, from, to, i', j', caseSensitive, n));
    }
  }

  lemma Regroup(a: seq<Value>, b: seq<Value>, c: seq<Value>)
    ensures a + b + c == a + (b + c)
  {
  }

  /** decode_pointer_inplace on the C string between `start` and `end`. */
  method DecodePointerInPlace(a: array<byte>, start: nat, end: nat) returns (decoded: nat)
    requires start <= end < a.Length && a[end] == NUL && 0 !in a[start..end]
    modifies a
    ensures start <= decoded <= end && a[start..decoded] == DecodeInPlace(old(a[start..end])) && a[decoded] == NUL
    ensures a[..start] == old(a[..start])
  {
    ghost var goal := DecodeInPlace(a[start..end]);
    var r, w := start, start;
    while r < end
      invariant start <= w <= r <= end && a[end] == NUL && 0 !in a[start..end] && a[..start] == old(a[..start])
      invariant DecodeLoop(a[start..end], r - start, w - start) == goal
    {
      ghost var was := a[start..end];
      assert was[r - start] == a[r];
      if a[r] == TILDE {
        assert r + 1 < end ==> was[r + 1 - start] == a[r + 1];
        if a[r + 1] == ZERO {
          a[w] := TILDE;
          assert a[start..end] == was[w - start := TILDE];
        } else if a[r + 1] == ONE {
          a[w + 1] := SLASH;
          assert a[start..end] == was[w + 1 - start := SLASH];
        } else {
          return end;
        }
        r := r + 1;
      }
      r, w := r + 1, w + 1;
    }
    ghost var was := a[start..end];
    a[w] := NUL;
    assert a[start..w] == was[..w - start];
    return w;
  }

  /** strrchr: the place behind the last slash, 0 if there is none. */
  method SearchSlash(a: array<byte>, path: cstring) returns (k: nat)
    requires |path| <= a.Length && a[..|path|] == path
    ensures LastSlash(path, |path|) == if k == 0 then None else Some(k - 1)
  {
    k := |path|;
    while k > 0 && a[k - 1] != SLASH
      invariant k <= |path| && LastSlash(path, k) == LastSlash(path, |path|)
    {
      assert path[k - 1] == a[k - 1];
      k := k - 1;
    }
  }

  /** How detach_path and apply_patch take a path apart: a copy is cut at its last slash and the part
      behind it decoded in place. */
  method SplitPath(path: cstring) returns (parent: Option<cstring>, child: cstring)
    ensures match LastSlash(path, |path|)
      case None => parent == None
      case Some(k) => parent == Some(path[..k]) && child == DecodeInPlace(path[k + 1..])
  {
    hide DecodeInPlace, LastSlash;
    var copy := new byte[|path| + 1](i requires 0 <= i <= |path| => if i < |path| then path[i] else NUL);
    assert copy[..|path|] == path;
    var k := SearchSlash(copy, path);
    if k == 0 {
      return None, [];
    }
    copy[k - 1] := NUL;
    ghost var rest := path[k..];
    assert copy[k..|path|] == rest;
    assert copy[..k - 1] == path[..k - 1];
    var end := DecodePointerInPlace(copy, k, |path|);
    assert copy[..k - 1] == copy[..k][..k - 1] == path[..k - 1];
    parent := Some(copy[..k - 1]);
    child := copy[k..end];
  }
}
