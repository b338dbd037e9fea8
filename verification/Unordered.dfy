/** JSON data as RFC 8259 means it: the members of an object are unordered. */
module Unordered {
  import opened Bytes
  import opened Json

  datatype Data =
    | DNull
    | DBool(b: bool)
    | DNumber(n: int32)
    | DString(s: cstring)
    | DArray(items: seq<Data>)
    | DObject(members: map<bytes, Data>)

  /** What a tree denotes. Where a key is repeated the first member counts, as in a lookup. */
  function Denote(v: Value): Data
    decreases v
  {
    match v
    case Null => DNull
    case Bool(b) => DBool(b)
    case Number(n) => DNumber(n)
    case String(s) => DString(s)
    case Array(items) => DArray(DenoteItems(items))
    case Object(members) => DObject(DenoteFrom(members, 0))
  }

  function DenoteItems(items: seq<Value>): (r: seq<Data>)
    ensures |r| == |items| && forall i :: 0 <= i < |items| ==> r[i] == Denote(items[i])
    decreases items
  {
    seq(|items|, i requires 0 <= i < |items| => Denote(items[i]))
  }

  function DenoteFrom(members: seq<Member>, j: nat): map<bytes, Data>
    requires j <= |members|
    decreases members, |members| - j
  {
    if j == |members| then map[] else DenoteFrom(members, j + 1)[members[j].key := Denote(members[j].value)]
  }

  function DenoteMembers(members: seq<Member>): map<bytes, Data> { DenoteFrom(members, 0) }

  /** A name is in the object exactly when a lookup finds it, and then with that member's value. */
  lemma {:induction false} DenoteLookup(members: seq<Member>, j: nat, name: bytes)
    requires j <= |members|
    ensures name in DenoteFrom(members, j) <==> FindKey(members, j, name, true).Some?
    ensures name in DenoteFrom(members, j) ==>
              DenoteFrom(members, j)[name] == Denote(members[FindKey(members, j, name, true).value].value)
    decreases |members| - j
  {
    if j < |members| { DenoteLookup(members, j + 1, name); }
  }

  lemma FindUnique(members: seq<Member>, x: nat)
    requires UniqueKeys(members) && x < |members|
    ensures FindKey(members, 0, members[x].key, true) == Some(x)
  {
    var r := FindKey(members, 0, members[x].key, true);
    assert r.Some?;
  }

  lemma DenoteAt(members: seq<Member>, x: nat)
    requires UniqueKeys(members) && x < |members|
    ensures members[x].key in DenoteMembers(members)
    ensures DenoteMembers(members)[members[x].key] == Denote(members[x].value)
  {
    FindUnique(members, x);
    DenoteLookup(members, 0, members[x].key);
  }

  lemma MemberNamed(members: seq<Member>, name: bytes) returns (x: nat)
    requires name in DenoteMembers(members)
    ensures x < |members| && members[x].key == name && FindKey(members, 0, name, true) == Some(x)
    ensures DenoteMembers(members)[name] == Denote(members[x].value)
  {
    DenoteLookup(members, 0, name);
    x := FindKey(members, 0, name, true).value;
  }

  /** A map is what `members` denotes once it agrees with every member and has no other name. */
  lemma DenoteIs(members: seq<Member>, m: map<bytes, Data>)
    requires UniqueKeys(members)
    requires forall x :: 0 <= x < |members| ==> members[x].key in m && m[members[x].key] == Denote(members[x].value)
    requires forall name :: name in m ==> exists x :: 0 <= x < |members| && members[x].key == name
    ensures DenoteMembers(members) == m
  {
    forall name | name in DenoteMembers(members)
      ensures name in m && m[name] == DenoteMembers(members)[name]
    {
      var x := MemberNamed(members, name);
    }
    forall name | name in m
      ensures name in DenoteMembers(members)
    {
      var x :| 0 <= x < |members| && members[x].key == name;
      DenoteAt(members, x);
    }
  }

  lemma DenoteAppend(members: seq<Member>, m: Member)
    requires UniqueKeys(members) && m.key !in DenoteMembers(members)
    ensures UniqueKeys(members + [m])
    ensures DenoteMembers(members + [m]) == DenoteMembers(members)[m.key := Denote(m.value)]
  {
    var longer, all := members + [m], DenoteMembers(members)[m.key := Denote(m.value)];
    forall i, j | 0 <= i < j < |longer| ensures longer[i].key != longer[j].key {
      DenoteAt(members, i);
    }
    forall x | 0 <= x < |longer|
      ensures longer[x].key in all && all[longer[x].key] == Denote(longer[x].value)
    {
      if x < |members| { DenoteAt(members, x); }
    }
    forall name | name in all
      ensures exists x :: 0 <= x < |longer| && longer[x].key == name
    {
      if name == m.key {
        assert longer[|members|].key == name;
      } else {
        var x := MemberNamed(members, name);
        assert longer[x].key == name;
      }
    }
    DenoteIs(longer, all);
  }

  lemma UniqueRemove(members: seq<Member>, x: nat)
    requires UniqueKeys(members) && x < |members|
    ensures UniqueKeys(RemoveAt(members, x))
    ensures forall i :: 0 <= i < |members| - 1 ==> RemoveAt(members, x)[i].key != members[x].key
  {
  }

  lemma DenoteRemove(members: seq<Member>, x: nat)
    requires UniqueKeys(members) && x < |members|
    ensures UniqueKeys(RemoveAt(members, x))
    ensures DenoteMembers(RemoveAt(members, x)) == DenoteMembers(members) - {members[x].key}
  {
    var shorter, m := RemoveAt(members, x), DenoteMembers(members) - {members[x].key};
    UniqueRemove(members, x);
    forall i | 0 <= i < |shorter|
      ensures shorter[i].key in m && m[shorter[i].key] == Denote(shorter[i].value)
    {
      DenoteAt(members, if i < x then i else i + 1);
    }
    forall name | name in m
      ensures exists i :: 0 <= i < |shorter| && shorter[i].key == name
    {
      var y := MemberNamed(members, name);
      assert shorter[if y < x then y else y - 1].key == name;
    }
    DenoteIs(shorter, m);
  }

  lemma DenoteUpdate(members: seq<Member>, x: nat, v: Value)
    requires UniqueKeys(members) && x < |members|
    ensures UniqueKeys(members[x := Member(members[x].key, v)])
    ensures DenoteMembers(members[x := Member(members[x].key, v)])
      == DenoteMembers(members)[members[x].key := Denote(v)]
  {
    var key := members[x].key;
    var updated, m := members[x := Member(key, v)], DenoteMembers(members)[key := Denote(v)];
    forall i | 0 <= i < |updated|
      ensures updated[i].key in m && m[updated[i].key] == Denote(updated[i].value)
    {
      DenoteAt(members, i);
    }
    forall name | name in m
      ensures exists i :: 0 <= i < |updated| && updated[i].key == name
    {
      if name == key {
        assert updated[x].key == name;
      } else {
        var y := MemberNamed(members, name);
        assert updated[y].key == name;
      }
    }
    DenoteIs(updated, m);
  }

  /** Reordering members changes nothing. */
  lemma DenotePermuted(a: seq<Member>, b: seq<Member>)
    requires multiset(a) == multiset(b) && UniqueKeys(a) && UniqueKeys(b)
    ensures DenoteMembers(a) == DenoteMembers(b)
  {
    forall x | 0 <= x < |a|
      ensures a[x].key in DenoteMembers(b) && DenoteMembers(b)[a[x].key] == Denote(a[x].value)
    {
      assert a[x] in multiset(b);
      var y :| 0 <= y < |b| && b[y] == a[x];
      DenoteAt(b, y);
    }
    forall name | name in DenoteMembers(b)
      ensures exists x :: 0 <= x < |a| && a[x].key == name
    {
      var y := MemberNamed(b, name);
      assert b[y] in multiset(a);
      var x :| 0 <= x < |a| && a[x] == b[y];
    }
    DenoteIs(a, DenoteMembers(b));
  }

  lemma TwiceInMultiset<T>(s: seq<T>, i: nat, j: nat)
    requires i < j < |s| && s[i] == s[j]
    ensures multiset(s)[s[i]] >= 2
  {
    assert s == s[..j] + s[j..];
    assert s[..j][i] in multiset(s[..j]) && s[j..][0] in multiset(s[j..]);
  }

  lemma {:induction false} OnceInMultiset<T>(s: seq<T>, x: T)
    requires multiset(s)[x] >= 2
    ensures exists i, j :: 0 <= i < j < |s| && s[i] == x && s[j] == x
    decreases |s|
  {
    var n := |s| - 1;
    assert s == s[..n] + [s[n]];
    if s[n] == x {
      assert x in multiset(s[..n]);
      var i :| 0 <= i < n && s[..n][i] == x;
      assert s[i] == x;
    } else {
      OnceInMultiset(s[..n], x);
      var i, j :| 0 <= i < j < n && s[..n][i] == x && s[..n][j] == x;
      assert s[i] == x && s[j] == x;
    }
  }

  lemma UniqueOnce(members: seq<Member>, m: Member)
    requires UniqueKeys(members)
    ensures multiset(members)[m] <= 1
  {
    if multiset(members)[m] >= 2 { OnceInMultiset(members, m); }
  }

  lemma UniquePermuted(a: seq<Member>, b: seq<Member>)
    requires multiset(a) == multiset(b) && UniqueKeys(a)
    ensures UniqueKeys(b)
  {
    forall i, j | 0 <= i < j < |b| ensures b[i].key != b[j].key {
      UniqueOnce(a, b[i]);
      if b[i] == b[j] {
        TwiceInMultiset(b, i, j);
      } else {
        assert b[i] in multiset(a) && b[j] in multiset(a);
        var x :| 0 <= x < |a| && a[x] == b[i];
        var y :| 0 <= y < |a| && a[y] == b[j];
      }
    }
  }
}
