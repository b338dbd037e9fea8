/** The loops of cJSON_Compare, over the members in the order their lists hold them. */
module CompareLoops {
  import opened Bytes
  import opened Json
  import opened Compare

  /** cJSON_Compare. */
  method CompareByLookup(a: Value, b: Value, caseSensitive: bool) returns (r: bool)
    ensures r == LookupCompare(a, b, caseSensitive)
    decreases Nesting(a) + Nesting(b), 1
  {
    match a {
      case Null => return b.Null?;
      case Bool(x) => return b.Bool? && b.b == x;
      case Number(x) => return b.Number? && b.n == x;
      case String(x) => return b.String? && b.s == x;
      case Array(xs) =>
        if b.Array? {
          WithinNesting(xs, []);
          WithinNesting(b.items, []);
          r := ByIndex(xs, b.items, caseSensitive, ItemsNesting(xs), ItemsNesting(b.items));
        } else {
          return false;
        }
      case Object(xs) =>
        if b.Object? {
          WithinNesting([], xs);
          WithinNesting([], b.members);
          r := EveryKey(xs, b.members, caseSensitive, MembersNesting(xs), MembersNesting(b.members));
          if r {
            r := EveryKey(b.members, xs, caseSensitive, MembersNesting(b.members), MembersNesting(xs));
          }
        } else {
          return false;
        }
    }
  }

  method ByIndex(xs: seq<Value>, ys: seq<Value>, caseSensitive: bool, ghost n: nat, ghost m: nat) returns (r: bool)
    requires ItemsWithin(xs, n) && ItemsWithin(ys, m)
    ensures r == LookupItems(xs, ys, 0, caseSensitive, n, m)
    decreases n + m + 2, 0
  {
    hide LookupCompare;
    var i: nat := 0;
    while i < |xs| && i < |ys|
      invariant i <= |xs| && i <= |ys|
      invariant LookupItems(xs, ys, 0, caseSensitive, n, m) == LookupItems(xs, ys, i, caseSensitive, n, m)
    {
      var same := CompareByLookup(xs[i], ys[i], caseSensitive);
      if !same {
        return false;
      }
      i := i + 1;
    }
    return i == |xs| && i == |ys|;
  }

  /** Every member of `xs` has a member of `ys` of the same name that compares equal. */
  method EveryKey(xs: seq<Member>, ys: seq<Member>, caseSensitive: bool, ghost n: nat, ghost m: nat) returns (r: bool)
    requires MembersWithin(xs, n) && MembersWithin(ys, m)
    ensures r == LookupMembers(xs, ys, 0, caseSensitive, n, m)
    decreases n + m + 2, 0
  {
    hide LookupCompare;
    var i: nat := 0;
    while i < |xs|
      invariant i <= |xs|
      invariant LookupMembers(xs, ys, 0, caseSensitive, n, m) == LookupMembers(xs, ys, i, caseSensitive, n, m)
    {
      var found := GetObjectItem(ys, xs[i].key, caseSensitive);
      if found.None? {
        return false;
      }
      var same := CompareByLookup(xs[i].value, ys[found.value].value, caseSensitive);
      if !same {
        return false;
      }
      i := i + 1;
    }
    return true;
  }

  /** get_object_item, on members that all have a name. */
  method GetObjectItem(members: seq<Member>, name: bytes, caseSensitive: bool) returns (r: Option<nat>)
    ensures r == FindKey(members, 0, name, caseSensitive)
  {
    var j: nat := 0;
    while j < |members| && !SameKey(name, members[j].key, caseSensitive)
      invariant j <= |members| && FindKey(members, j, name, caseSensitive) == FindKey(members, 0, name, caseSensitive)
    {
      j := j + 1;
    }
    return if j == |members| then None else Some(j);
  }
}
