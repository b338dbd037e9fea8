/** JSON values as trees whose objects keep their members in order. */
module Json {
  import opened Bytes

  datatype Value =
    | Null
    | Bool(b: bool)
    | Number(n: int32)
    | String(s: cstring)
    | Array(items: seq<Value>)
    | Object(members: seq<Member>)

  datatype Member = Member(key: cstring, value: Value)

  datatype Option<+T> = None | Some(value: T)

  /** How deeply arrays and objects are nested; a scalar has depth 0. */
  function Nesting(v: Value): nat {
    match v
    case Array(items) => 1 + ItemsNesting(items)
    case Object(members) => 1 + MembersNesting(members)
    case _ => 0
  }

  function ItemsNesting(items: seq<Value>): nat {
    if items == [] then 0 else Max(Nesting(items[0]), ItemsNesting(items[1..]))
  }

  function MembersNesting(members: seq<Member>): nat {
    if members == [] then 0 else Max(Nesting(members[0].value), MembersNesting(members[1..]))
  }

  function Max(a: nat, b: nat): nat { if a < b then b else a }

  predicate UniqueKeys(members: seq<Member>) {
    forall i, j :: 0 <= i < j < |members| ==> members[i].key != members[j].key
  }

  /** No object of the tree has two members with the same key. */
  predicate Distinct(v: Value) {
    match v
    case Array(items) => forall i :: 0 <= i < |items| ==> Distinct(items[i])
    case Object(members) => UniqueKeys(members) && forall i :: 0 <= i < |members| ==> Distinct(members[i].value)
    case _ => true
  }

  predicate SameKey(a: bytes, b: bytes, caseSensitive: bool) {
    if caseSensitive then a == b else Lower(a) == Lower(b)
  }

  /** get_object_item: the first member from `j` on with the given name. */
  function FindKey(members: seq<Member>, j: nat, name: bytes, caseSensitive: bool): (r: Option<nat>)
    requires j <= |members|
    ensures r.Some? ==> j <= r.value < |members| && SameKey(name, members[r.value].key, caseSensitive)
    ensures r.Some? ==> forall k :: j <= k < r.value ==> !SameKey(name, members[k].key, caseSensitive)
    ensures r.None? ==> forall k :: j <= k < |members| ==> !SameKey(name, members[k].key, caseSensitive)
    decreases |members| - j
  {
    if j == |members| then None
    else if SameKey(name, members[j].key, caseSensitive) then Some(j)
    else FindKey(members, j + 1, name, caseSensitive)
  }

  function RemoveAt<T>(s: seq<T>, i: nat): (r: seq<T>)
    requires i < |s|
    ensures |r| == |s| - 1
    ensures forall k :: 0 <= k < i ==> r[k] == s[k]
    ensures forall k :: i <= k < |r| ==> r[k] == s[k + 1]
  {
    s[..i] + s[i + 1..]
  }
}
