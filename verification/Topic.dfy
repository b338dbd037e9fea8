/** MQTT topic filters: the cursor loop of isTopicMatched against matching level by level
    (section 4.7.1 of MQTT 3.1.1). */
module Topic {

  import opened Bytes

  const PLUS: byte := 0x2b
  const HASH: byte := 0x23

  // ----- Levels -----

  /** The first separator at or after `i`, or the end. */
  function LevelEnd(s: bytes, i: nat): (e: nat)
    requires i <= |s|
    ensures i <= e <= |s| && (e < |s| ==> s[e] == SLASH) && forall k :: i <= k < e ==> s[k] != SLASH
    decreases |s| - i
  {
    if i == |s| || s[i] == SLASH then i else LevelEnd(s, i + 1)
  }

  function LevelsFrom(s: bytes, i: nat): (levels: seq<bytes>)
    requires i <= |s|
    ensures |levels| > 0 && levels[0] == s[i..LevelEnd(s, i)]
    decreases |s| - i
  {
    var e := LevelEnd(s, i);
    if e == |s| then [s[i..e]] else [s[i..e]] + LevelsFrom(s, e + 1)
  }

  function Levels(s: bytes): seq<bytes> { LevelsFrom(s, 0) }

  /** Levels joined again, with the separator between them. */
  function Joined(levels: seq<bytes>): bytes {
    if levels == [] then []
    else if |levels| == 1 then levels[0]
    else levels[0] + (Ascii("/") + Joined(levels[1..]))
  }

  /** Splitting a name into levels loses nothing, and no level holds a separator. */
  lemma {:induction false} LevelsExact(s: bytes, i: nat)
    requires i <= |s|
    ensures Joined(LevelsFrom(s, i)) == s[i..]
    ensures forall k :: 0 <= k < |LevelsFrom(s, i)| ==> Ascii("/")[0] !in LevelsFrom(s, i)[k]
    decreases |s| - i
  {
    var e, all := LevelEnd(s, i), LevelsFrom(s, i);
    assert Ascii("/") == [SLASH];
    hide Ascii;
    if e < |s| {
      LevelsExact(s, e + 1);
      assert all[1..] == LevelsFrom(s, e + 1);
      assert s[i..] == s[i..e] + ([SLASH] + s[e + 1..]);
    }
  }

  lemma Wildcards()
    ensures [PLUS] == Ascii("+") && [HASH] == Ascii("#")
  {
  }

  predicate Wild(b: byte) { b == PLUS || b == HASH }

  predicate Plain(level: bytes) { forall k :: 0 <= k < |level| ==> !Wild(level[k]) }

  /** A wildcard fills its level, and `#` only the last one. */
  predicate WellFormed(levels: seq<bytes>) {
    forall k :: 0 <= k < |levels| ==> LevelOk(levels[k], k == |levels| - 1)
  }

  predicate LevelOk(level: bytes, last: bool) {
    level == [PLUS] || (level == [HASH] && last) || Plain(level)
  }

  lemma WellFormedStep(levels: seq<bytes>)
    requires levels != [] && WellFormed(levels)
    ensures LevelOk(levels[0], |levels| == 1) && WellFormed(levels[1..])
    ensures levels[0] == [HASH] ==> |levels| == 1
  {
    var rest := levels[1..];
    forall k | 0 <= k < |rest| ensures LevelOk(rest[k], k == |rest| - 1) { assert rest[k] == levels[k + 1]; }
    if levels[0] == [HASH] { assert Wild(levels[0][0]); }
  }

  /** What this client matches: `+` one non-empty level, `#` one or more levels of which the first
      is not empty. */
  predicate Matches(filter: seq<bytes>, name: seq<bytes>) {
    if filter == [] then name == []
    else if name == [] then false
    else if filter[0] == [HASH] then name[0] != []
    else (if filter[0] == [PLUS] then name[0] != [] else filter[0] == name[0]) && Matches(filter[1..], name[1..])
  }

  /** What the standard matches: `+` any one level, `#` any number of levels, none included. */
  predicate StandardMatches(filter: seq<bytes>, name: seq<bytes>) {
    if filter == [] then name == []
    else if filter[0] == [HASH] then true
    else name != [] && (filter[0] == [PLUS] || filter[0] == name[0]) && StandardMatches(filter[1..], name[1..])
  }

  // ----- The cursor loop -----

  /** The loop from filter position `i` and name position `j`. */
  predicate Cursor(f: bytes, i: nat, n: bytes, j: nat)
    requires i <= |f| && j <= |n|
    decreases |f| - i
  {
    if i == |f| || j == |n| then i == |f| && j == |n|
    else if n[j] == SLASH && f[i] != SLASH then false
    else if !Wild(f[i]) && f[i] != n[j] then false
    else if f[i] == PLUS then Cursor(f, i + 1, n, LevelEnd(n, j + 1))
    else if f[i] == HASH then Cursor(f, i + 1, n, |n|)
    else Cursor(f, i + 1, n, j + 1)
  }

  method IsTopicMatched(filter: cstring, name: bytes) returns (r: bool)
    ensures r == Cursor(filter, 0, name, 0)
    ensures WellFormed(Levels(filter)) ==> r == Matches(Levels(filter), Levels(name))
  {
    hide WellFormed, Levels, Matches;
    if WellFormed(Levels(filter)) { MatchedByLevel(filter, name); }
    var i: nat, j: nat := 0, 0;
    while i < |filter| && j < |name|
      invariant i <= |filter| && j <= |name|
      invariant Cursor(filter, i, name, j) == Cursor(filter, 0, name, 0)
    {
      if name[j] == SLASH && filter[i] != SLASH {
        break;
      }
      if filter[i] != PLUS && filter[i] != HASH && filter[i] != name[j] {
        break;
      }
      if filter[i] == PLUS {
        ghost var start := j;
        var next := j + 1;
        while next < |name| && name[next] != SLASH
          invariant start <= j < |name| && next == j + 1 && LevelEnd(name, next) == LevelEnd(name, start + 1)
        {
          j := j + 1;
          next := j + 1;
        }
      } else if filter[i] == HASH {
        j := |name| - 1;
      }
      i := i + 1;
      j := j + 1;
    }
    r := j == |name| && i == |filter|;
  }

  // ----- Cursor and levels agree -----

  predicate Literal(f: bytes, i: nat)
    requires i <= |f|
  {
    forall k :: i <= k < LevelEnd(f, i) ==> !Wild(f[k])
  }

  /** What is left to decide once both cursors stand at the end of a level. */
  predicate Rest(f: bytes, i: nat, n: bytes, j: nat)
    requires i <= |f| && j <= |n|
  {
    if i == |f| then j == |n| else j < |n| && Cursor(f, i + 1, n, j + 1)
  }

  lemma AtEnds(f: bytes, i: nat, n: bytes, j: nat)
    requires i <= |f| && j <= |n|
    requires (i < |f| ==> f[i] == SLASH) && (j < |n| ==> n[j] == SLASH)
    ensures Cursor(f, i, n, j) == Rest(f, i, n, j)
  {
  }

  lemma {:induction false} LiteralLevel(f: bytes, i: nat, n: bytes, j: nat, a: nat, b: nat)
    requires i <= |f| && j <= |n| && Literal(f, i) && a == LevelEnd(f, i) && b == LevelEnd(n, j)
    ensures Cursor(f, i, n, j) == (f[i..a] == n[j..b] && Rest(f, a, n, b))
    decreases |f| - i
  {
    if i < a && j < b {
      LiteralLevel(f, i + 1, n, j + 1, a, b);
      assert f[i..a] == [f[i]] + f[i + 1..a] && n[j..b] == [n[j]] + n[j + 1..b];
    } else if i == a && j == b {
      AtEnds(f, i, n, j);
    }
  }

  lemma LevelsStep(s: bytes, i: nat, e: nat)
    requires i <= |s| && e == LevelEnd(s, i)
    ensures LevelsFrom(s, i)[0] == s[i..e]
    ensures LevelsFrom(s, i)[1..] == if e == |s| then [] else LevelsFrom(s, e + 1)
    ensures |LevelsFrom(s, i)| == 1 <==> e == |s|
  {
  }

  lemma HashLevel(f: bytes, i: nat, n: bytes, j: nat)
    requires i < |f| && j <= |n| && i + 1 == |f| && f[i] == HASH
    ensures Cursor(f, i, n, j) == (j < LevelEnd(n, j))
  {
  }

  lemma PlusLevel(f: bytes, i: nat, n: bytes, j: nat, b: nat)
    requires i < |f| && j <= |n| && f[i] == PLUS && b == LevelEnd(n, j) && (i + 1 < |f| ==> f[i + 1] == SLASH)
    ensures Cursor(f, i, n, j) == (j < b && Rest(f, i + 1, n, b))
  {
    if j < b { AtEnds(f, i + 1, n, b); }
  }

  /** The first level of the filter decides, up to what follows it. */
  lemma FirstLevel(f: bytes, i: nat, n: bytes, j: nat, a: nat, b: nat)
    requires i <= |f| && j <= |n| && a == LevelEnd(f, i) && b == LevelEnd(n, j) && LevelOk(f[i..a], a == |f|)
    ensures Cursor(f, i, n, j) ==
      if f[i..a] == [HASH] then j < b
      else (if f[i..a] == [PLUS] then j < b else f[i..a] == n[j..b]) && Rest(f, a, n, b)
  {
    hide Cursor, Rest, LevelEnd;
    var level := f[i..a];
    if level == [HASH] {
      assert level[0] == f[i] && Wild(level[0]);
      HashLevel(f, i, n, j);
    } else if level == [PLUS] {
      assert level[0] == f[i] && |level| == a - i;
      PlusLevel(f, i, n, j, b);
    } else {
      forall k | i <= k < a ensures !Wild(f[k]) { assert f[k] == level[k - i]; }
      LiteralLevel(f, i, n, j, a, b);
    }
  }

  lemma {:induction false} CursorByLevel(f: bytes, i: nat, n: bytes, j: nat)
    requires i <= |f| && j <= |n| && WellFormed(LevelsFrom(f, i))
    ensures Cursor(f, i, n, j) == Matches(LevelsFrom(f, i), LevelsFrom(n, j))
    decreases |f| - i
  {
    hide Cursor, LevelEnd, LevelsFrom, WellFormed, LevelOk;
    var a, b := LevelEnd(f, i), LevelEnd(n, j);
    LevelsStep(f, i, a);
    LevelsStep(n, j, b);
    WellFormedStep(LevelsFrom(f, i));
    FirstLevel(f, i, n, j, a, b);
    if a < |f| && b < |n| {
      CursorByLevel(f, a + 1, n, b + 1);
    }
  }

  /** For every topic name and every well-formed filter the loop matches level by level. */
  lemma MatchedByLevel(filter: bytes, name: bytes)
    requires WellFormed(Levels(filter))
    ensures Cursor(filter, 0, name, 0) == Matches(Levels(filter), Levels(name))
  {
    CursorByLevel(filter, 0, name, 0);
  }

  // ----- Against the standard -----

  predicate NoEmptyLevel(levels: seq<bytes>) { forall k :: 0 <= k < |levels| ==> levels[k] != [] }

  /** The filter ends in `#` one level below the whole name. */
  predicate ParentOf(filter: seq<bytes>, name: seq<bytes>) {
    |filter| == |name| + 1 && filter[|name|] == [HASH]
  }

  predicate WildLevel(level: bytes) { level == [PLUS] || level == [HASH] }

  /** A wildcard of the filter stands where the name has an empty level. */
  predicate WildOnEmpty(filter: seq<bytes>, name: seq<bytes>) {
    exists k :: 0 <= k < |filter| && k < |name| && WildLevel(filter[k]) && name[k] == []
  }

  lemma WildOnEmptyStep(filter: seq<bytes>, name: seq<bytes>)
    requires filter != [] && name != []
    ensures WildOnEmpty(filter, name)
      <==> (WildLevel(filter[0]) && name[0] == []) || WildOnEmpty(filter[1..], name[1..])
  {
    var f, n := filter[1..], name[1..];
    if WildOnEmpty(filter, name) {
      var k :| 0 <= k < |filter| && k < |name| && WildLevel(filter[k]) && name[k] == [];
      if k > 0 { assert f[k - 1] == filter[k] && n[k - 1] == name[k]; }
    }
    if WildOnEmpty(f, n) {
      var k :| 0 <= k < |f| && k < |n| && WildLevel(f[k]) && n[k] == [];
      assert filter[k + 1] == f[k] && name[k + 1] == n[k];
    }
  }

  /** Exactly where the client departs from the standard: `#` does not match the parent level, and
      neither wildcard matches an empty level. */
  lemma {:induction false} StandardExact(filter: seq<bytes>, name: seq<bytes>)
    requires WellFormed(filter)
    ensures Matches(filter, name) <==>
      StandardMatches(filter, name) && !ParentOf(filter, name) && !WildOnEmpty(filter, name)
  {
    if filter != [] {
      WellFormedStep(filter);
      if name != [] {
        WildOnEmptyStep(filter, name);
        if filter[0] != [HASH] {
          StandardExact(filter[1..], name[1..]);
        }
      }
    }
  }

  /** Where no level of the name is empty only the parent level is left. */
  lemma StandardUpToParent(filter: seq<bytes>, name: seq<bytes>)
    requires WellFormed(filter) && NoEmptyLevel(name)
    ensures Matches(filter, name) <==> StandardMatches(filter, name) && !ParentOf(filter, name)
  {
    StandardExact(filter, name);
  }

  /** With empty levels too, whatever the client matches the standard matches. */
  lemma {:induction false} MatchIsStandard(filter: seq<bytes>, name: seq<bytes>)
    requires Matches(filter, name)
    ensures StandardMatches(filter, name)
  {
    if filter != [] && filter[0] != [HASH] {
      MatchIsStandard(filter[1..], name[1..]);
    }
  }

  /** Two names with an empty level that the standard matches and the client does not. */
  lemma EmptyLevelRefused()
    ensures StandardMatches([[PLUS], [0x61]], [[], [0x61]]) && !Matches([[PLUS], [0x61]], [[], [0x61]])
    ensures StandardMatches([[0x61], [HASH]], [[0x61], []]) && !Matches([[0x61], [HASH]], [[0x61], []])
  {
    assert [[0x61], [HASH]][1..] == [[HASH]] && [[0x61], []][1..] == [[]];
    assert [[PLUS], [0x61]][1..] == [[0x61]] && [[], [0x61]][1..] == [[0x61]];
  }
}
