/** Applying one JSON Patch operation (RFC 6902) to a document, as apply_patch does it. */
module Patch {
  import opened Bytes
  import opened Json
  import opened Pointer
  import Compare

  // ----- The parts of a path -----

  /** strrchr(path, '/'): the last slash before `n`. */
  function LastSlash(path: bytes, n: nat): (r: Option<nat>)
    requires n <= |path|
    ensures r.Some? ==> r.value < n && path[r.value] == SLASH
    ensures r.Some? ==> forall k :: r.value < k < n ==> path[k] != SLASH
    ensures r.None? ==> forall k :: 0 <= k < n ==> path[k] != SLASH
  {
    if n == 0 then None else if path[n - 1] == SLASH then Some(n - 1) else LastSlash(path, n - 1)
  }

  /** decode_pointer_inplace from read index `r` and write index `w`: it decodes `~0`, misplaces
      the slash of `~1` by one, and copies nothing else. */
  function DecodeLoop(b: bytes, r: nat, w: nat): (s: bytes)
    requires w <= r <= |b| && 0 !in b
    ensures 0 !in s
    decreases |b| - r
  {
    if r == |b| then b[..w]
    else if b[r] != TILDE then DecodeLoop(b, r + 1, w + 1)
    else if r + 1 < |b| && b[r + 1] == ZERO then DecodeLoop(b[w := TILDE], r + 2, w + 1)
    else if r + 1 < |b| && b[r + 1] == ONE then DecodeLoop(b[w + 1 := SLASH], r + 2, w + 1)
    else b
  }

  function DecodeInPlace(s: cstring): cstring { DecodeLoop(s, 0, 0) }

  // ----- Changing the document -----

  /** The tree with the item at `pos` replaced. */
  function PutAt(v: Value, pos: Position, x: Value): Value
    requires Valid(v, pos)
    decreases |pos|
  {
    if pos == [] then x
    else if v.Array? then Array(v.items[pos[0] := PutAt(v.items[pos[0]], pos[1..], x)])
    else
      var m := v.members[pos[0]];
      Object(v.members[pos[0] := Member(m.key, PutAt(m.value, pos[1..], x))])
  }

  /** The document left and what was taken out of it. */
  datatype Detached = Detached(root: Value, item: Value)

  /** The parent without the child at `i`. */
  function Without(parent: Value, i: nat): Value
    requires Valid(parent, [i])
  {
    if parent.Array? then Array(RemoveAt(parent.items, i)) else Object(RemoveAt(parent.members, i))
  }

  /** detach_path: keys are looked up without regard to case, whatever the caller asked for. */
  function DetachPath(root: Value, path: cstring, caseSensitive: bool): Option<Detached> {
    match LastSlash(path, |path|)
    case None => None
    case Some(k) =>
      match Locate(root, path[..k], 0, caseSensitive)
      case None => None
      case Some(pos) =>
        var child := DecodeInPlace(path[k + 1..]);
        match ItemAt(root, pos)
        case Array(items) =>
          (match DecodeIndex(child, 0)
           case None => None
           case Some(i) =>
             if i < |items| then Some(Detached(PutAt(root, pos, Array(RemoveAt(items, i))), items[i])) else None)
        case Object(members) =>
          (match FindKey(members, 0, child, false)
           case None => None
           case Some(j) => Some(Detached(PutAt(root, pos, Object(RemoveAt(members, j))), members[j].value)))
        case _ => None
  }

  /** cJSON_DeleteItemFromObject(CaseSensitive): the first member with the name goes. */
  function DeleteKey(members: seq<Member>, name: bytes, caseSensitive: bool): seq<Member> {
    match FindKey(members, 0, name, caseSensitive)
    case None => members
    case Some(j) => RemoveAt(members, j)
  }

  /** A tree, or the invalid item that removing the root leaves. */
  datatype Document = Live(root: Value) | Invalid

  /** The document and the status code; `NullString` is a read through a null pointer, which
      a move whose "from" is not a string runs into. */
  datatype Outcome = Done(doc: Document, status: nat) | NullString

  /** The last part of apply_patch: put `value` at `path`. */
  function AddAt(root: Value, path: cstring, value: Value, caseSensitive: bool): Outcome {
    match LastSlash(path, |path|)
    case None => Done(Live(root), 9)
    case Some(k) =>
      match Locate(root, path[..k], 0, caseSensitive)
      case None => Done(Live(root), 9)
      case Some(pos) =>
        var child := DecodeInPlace(path[k + 1..]);
        match ItemAt(root, pos)
        case Array(items) =>
          if child == [MINUS] then Done(Live(PutAt(root, pos, Array(items + [value]))), 0)
          else
            (match DecodeIndex(child, 0)
             case None => Done(Live(root), 11)
             case Some(i) =>
               if i <= |items| then Done(Live(PutAt(root, pos, Array(items[..i] + [value] + items[i..]))), 0)
               else Done(Live(root), 10))
        case Object(members) =>
          Done(Live(PutAt(root, pos, Object(DeleteKey(members, child, caseSensitive) + [Member(child, value)]))), 0)
        case _ => Done(Live(root), 9)
  }

  // ----- Operations -----

  const OP: cstring := [111, 112]
  const PATH: cstring := [112, 97, 116, 104]
  const VALUE: cstring := [118, 97, 108, 117, 101]
  const FROM: cstring := [102, 114, 111, 109]
  const ADD: cstring := [97, 100, 100]
  const REMOVE: cstring := [114, 101, 109, 111, 118, 101]
  const REPLACE: cstring := [114, 101, 112, 108, 97, 99, 101]
  const MOVE: cstring := [109, 111, 118, 101]
  const COPY: cstring := [99, 111, 112, 121]
  const TEST: cstring := [116, 101, 115, 116]

  /** get_object_item on any item: only the members of an object have names. */
  function Field(v: Value, name: cstring, caseSensitive: bool): Option<Value> {
    if !v.Object? then None
    else
      match FindKey(v.members, 0, name, caseSensitive)
      case None => None
      case Some(j) => Some(v.members[j].value)
  }

  datatype Operation = NoOperation | Add | Remove | Replace | Move | Copy | Test

  function DecodeOperation(patch: Value, caseSensitive: bool): Operation {
    match Field(patch, OP, caseSensitive)
    case Some(String(s)) =>
      if s == ADD then Add
      else if s == REMOVE then Remove
      else if s == REPLACE then Replace
      else if s == MOVE then Move
      else if s == COPY then Copy
      else if s == TEST then Test
      else NoOperation
    case _ => NoOperation
  }

  /** apply_patch. */
  function ApplyPatch(doc: Document, patch: Value, caseSensitive: bool): Outcome {
    var value := Field(patch, VALUE, caseSensitive);
    match Field(patch, PATH, caseSensitive)
    case Some(String(path)) =>
      (match DecodeOperation(patch, caseSensitive)
       case NoOperation => Done(doc, 3)
       case Test => Done(TestedDocument(doc, path, value, caseSensitive), TestStatus(doc, path, value, caseSensitive))
       case Remove =>
         if path == [] then Done(Invalid, 0) else RemoveStep(doc, path, caseSensitive)
       case Replace =>
         if path == [] then RootStep(doc, value)
         else
           var removed := RemoveStep(doc, path, caseSensitive);
           if removed.Done? && removed.status == 0 then AddStep(removed.doc, path, value, 7, caseSensitive) else removed
       case Add =>
         if path == [] then RootStep(doc, value) else AddStep(doc, path, value, 7, caseSensitive)
       case Move =>
         (match Field(patch, FROM, caseSensitive)
          case None => Done(doc, 4)
          case Some(String(from)) =>
            (match Taken(doc, from, caseSensitive)
             case None => Done(doc, 5)
             case Some(d) => AddStep(Live(d.root), path, Some(d.item), 5, caseSensitive))
          case _ => NullString)
       case Copy =>
         (match Field(patch, FROM, caseSensitive)
          case None => Done(doc, 4)
          case Some(from) => CopyStep(doc, from, path, caseSensitive)))
    case _ => Done(doc, 2)
  }

  function TestStatus(doc: Document, path: cstring, value: Option<Value>, caseSensitive: bool): nat {
    match doc
    case Invalid => 1
    case Live(root) =>
      match Locate(root, path, 0, caseSensitive)
      case None => 1
      case Some(pos) =>
        if value.Some? && Compare.CompareJson(ItemAt(root, pos), value.value, caseSensitive) then 0 else 1
  }

  /** A test leaves the objects it compared sorted. */
  function TestedDocument(doc: Document, path: cstring, value: Option<Value>, caseSensitive: bool): Document {
    match doc
    case Invalid => doc
    case Live(root) =>
      match Locate(root, path, 0, caseSensitive)
      case None => doc
      case Some(pos) =>
        if value.None? then doc
        else Live(PutAt(root, pos, Compare.Arrange(ItemAt(root, pos), value.value, caseSensitive)))
  }

  function RootStep(doc: Document, value: Option<Value>): Outcome {
    match value
    case None => Done(doc, 7)
    case Some(v) => Done(Live(v), 0)
  }

  function Taken(doc: Document, path: cstring, caseSensitive: bool): Option<Detached> {
    if doc.Invalid? then None else DetachPath(doc.root, path, caseSensitive)
  }

  function RemoveStep(doc: Document, path: cstring, caseSensitive: bool): Outcome {
    match Taken(doc, path, caseSensitive)
    case None => Done(doc, 13)
    case Some(d) => Done(Live(d.root), 0)
  }

  function AddStep(doc: Document, path: cstring, value: Option<Value>, missing: nat, caseSensitive: bool): Outcome {
    match value
    case None => Done(doc, missing)
    case Some(v) => if doc.Invalid? then Done(doc, 9) else AddAt(doc.root, path, v, caseSensitive)
  }

  /** A copy whose "from" is not a string finds nothing; on an invalid root only the root itself
      can be named, and it has no place to go. */
  function CopyStep(doc: Document, from: Value, path: cstring, caseSensitive: bool): Outcome {
    if !from.String? then Done(doc, 5)
    else
      match doc
      case Invalid => Done(doc, if from.s != [] && from.s[0] == SLASH then 5 else 9)
      case Live(root) =>
        match Locate(root, from.s, 0, caseSensitive)
        case None => Done(doc, 5)
        case Some(pos) => AddAt(root, path, ItemAt(root, pos), caseSensitive)
  }

  /** cJSONUtils_ApplyPatches from patch `i` on: it stops at the first status that is not 0. */
  function ApplyFrom(doc: Document, patches: seq<Value>, i: nat, caseSensitive: bool): Outcome
    requires i <= |patches|
    decreases |patches| - i
  {
    if i == |patches| then Done(doc, 0)
    else
      var r := ApplyPatch(doc, patches[i], caseSensitive);
      if r.Done? && r.status == 0 then ApplyFrom(r.doc, patches, i + 1, caseSensitive) else r
  }
}
