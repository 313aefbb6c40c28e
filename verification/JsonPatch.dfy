/**
 JSON Patch in cJSON_Utils: comparing two trees, generating the patches from one to the other,
 and applying patches.

 Trees are values here; the pointer surgery on sibling lists is in JsonSiblings.
 */
module JsonPatch {
  import opened Lists
  import opened JsonNumbers
  import opened JsonStrings
  import opened JsonText
  import opened JsonKeys
  import opened JsonPointer

  function KeyOf(m: Member): string {
    m.key
  }

  // ---------- depth, the measure of the recursions that sort on their way down ----------

  function Depth(j: Json): nat {
    match j
    case Arr(items) => 1 + ItemsDepth(items)
    case Obj(members) => 1 + MembersDepth(members)
    case _ => 0
  }

  function ItemsDepth(items: seq<Json>): (d: nat)
    ensures forall v <- items :: Depth(v) <= d
  {
    if items == [] then 0 else Max(Depth(items[0]), ItemsDepth(items[1..]))
  }

  function MembersDepth(members: seq<Member>): (d: nat)
    ensures forall m <- members :: Depth(m.val) <= d
  {
    if members == [] then 0 else Max(Depth(members[0].val), MembersDepth(members[1..]))
  }

  function Max(a: nat, b: nat): nat {
    if a < b then b else a
  }

  predicate Below(members: seq<Member>, d: nat) {
    forall m <- members :: Depth(m.val) < d
  }

  /** The members of an object in the order SortObject leaves them. */
  function Sorted(j: Json): (s: seq<Member>)
    requires j.Obj?
    ensures multiset(s) == multiset(j.members) && Below(s, Depth(j))
  {
    SortElements(j.members, KeyOf);
    var s := Sort(j.members, KeyOf);
    assert forall m <- s :: m in multiset(s) && m in j.members;
    s
  }

  // ---------- comparing ----------

  predicate SameKind(a: Json, b: Json) {
    match a
    case Null => b.Null?
    case False => b.False?
    case True => b.True?
    case Num(_, _) => b.Num?
    case Str(_) => b.Str?
    case Arr(_) => b.Arr?
    case Obj(_) => b.Obj?
  }

  /** Compare: 0, or what differs first. */
  function Compare(a: Json, b: Json): int
    decreases Depth(a), 1, 0
  {
    if !SameKind(a, b) then -1
    else
      match a
      case Num(mant, exp) => if Normal(mant, exp) != Normal(b.mant, b.exp) then -2 else 0
      case Str(s) => if s != b.s then -3 else 0
      case Arr(items) => CompareItems(Depth(a), items, b.items)
      case Obj(_) => CompareMembers(Depth(a), Sorted(a), Sorted(b))
      case _ => 0
  }

  function CompareItems(d: nat, s: seq<Json>, t: seq<Json>): int
    requires forall v <- s :: Depth(v) < d
    decreases d, 0, |s|
  {
    if s == [] || t == [] then (if s == [] && t == [] then 0 else -4)
    else if Compare(s[0], t[0]) != 0 then Compare(s[0], t[0])
    else CompareItems(d, s[1..], t[1..])
  }

  function CompareMembers(d: nat, s: seq<Member>, t: seq<Member>): int
    requires Below(s, d)
    decreases d, 0, |s|
  {
    if s == [] || t == [] then (if s == [] && t == [] then 0 else -5)
    else if CaseCmp(s[0].key, t[0].key) != 0 then -6
    else if Compare(s[0].val, t[0].val) != 0 then Compare(s[0].val, t[0].val)
    else CompareMembers(d, s[1..], t[1..])
  }

  // ---------- the trees after a comparison ----------

  /** Two lists put in front of a pair of lists. */
  function Behind<T>(x: seq<T>, y: seq<T>, r: (seq<T>, seq<T>)): (seq<T>, seq<T>) {
    (x + r.0, y + r.1)
  }

  /** Both trees as Compare leaves them: the objects it came to are sorted, in place. */
  function Compared(a: Json, b: Json): (Json, Json)
    decreases Depth(a), 1, 0
  {
    if !SameKind(a, b) then (a, b)
    else
      match a
      case Arr(items) =>
        var r := ComparedItems(Depth(a), items, b.items);
        (Arr(r.0), Arr(r.1))
      case Obj(_) =>
        var r := ComparedMembers(Depth(a), Sorted(a), Sorted(b));
        (Obj(r.0), Obj(r.1))
      case _ => (a, b)
  }

  function ComparedItems(d: nat, s: seq<Json>, t: seq<Json>): (seq<Json>, seq<Json>)
    requires forall v <- s :: Depth(v) < d
    decreases d, 0, |s|
  {
    if s == [] || t == [] then (s, t)
    else
      var (x, y) := Compared(s[0], t[0]);
      Behind([x], [y], if Compare(s[0], t[0]) != 0 then (s[1..], t[1..]) else ComparedItems(d, s[1..], t[1..]))
  }

  function ComparedMembers(d: nat, s: seq<Member>, t: seq<Member>): (seq<Member>, seq<Member>)
    requires Below(s, d)
    decreases d, 0, |s|
  {
    if s == [] || t == [] || CaseCmp(s[0].key, t[0].key) != 0 then (s, t)
    else
      var (x, y) := Compared(s[0].val, t[0].val);
      Behind([Member(s[0].key, x)], [Member(t[0].key, y)],
        if Compare(s[0].val, t[0].val) != 0 then (s[1..], t[1..]) else ComparedMembers(d, s[1..], t[1..]))
  }

  // ---------- generating ----------

  /** One generated patch: an operation, the whole path, and a value unless something is removed. */
  datatype Edit = Edit(op: string, path: string, val: Option<Json>)

  /** GeneratePatch: the patch as an object. */
  function Patch(e: Edit): Json {
    Obj([Member("op", Str(e.op)), Member("path", Str(e.path))]
      + if e.val.None? then [] else [Member("value", e.val.value)])
  }

  function PatchList(edits: seq<Edit>): seq<Json> {
    if edits == [] then [] else [Patch(edits[0])] + PatchList(edits[1..])
  }

  /** CompareToPatch: the patches that lead from one tree to the other, for documents in which
      the trees are at `path`. */
  function Diff(path: string, from: Json, to: Json): seq<Edit>
    decreases Depth(from), 1, 0
  {
    if !SameKind(from, to) then [Edit("replace", path, Some(to))]
    else
      match from
      case Num(mant, exp) =>
        if Normal(mant, exp) != Normal(to.mant, to.exp) then [Edit("replace", path, Some(to))] else []
      case Str(s) => if s != to.s then [Edit("replace", path, Some(to))] else []
      case Arr(items) => DiffItems(Depth(from), path, 0, items, to.items)
      case Obj(_) => DiffMembers(Depth(from), path, Sorted(from), Sorted(to))
      case _ => []
  }

  /** From position `c` on. */
  function DiffItems(d: nat, path: string, c: nat, from: seq<Json>, to: seq<Json>): seq<Edit>
    requires forall v <- from :: Depth(v) < d
    decreases d, 0, |from| + |to|
  {
    if from != [] && to != [] then
      Diff(path + "/" + Decimal(c), from[0], to[0]) + DiffItems(d, path, c + 1, from[1..], to[1..])
    else if from != [] then [Edit("remove", path + "/" + Encode(Decimal(c)), None)]
      + DiffItems(d, path, c + 1, from[1..], to)
    else if to != [] then [Edit("add", path + "/" + Encode("-"), Some(to[0]))]
      + DiffItems(d, path, c + 1, from, to[1..])
    else []
  }

  /** The step of the merge: by the names, and a list that has ended comes last. */
  function MergeOrder(from: seq<Member>, to: seq<Member>): int
    requires from != [] || to != []
  {
    if from == [] then 1 else if to == [] then -1 else CaseCmp(from[0].key, to[0].key)
  }

  function DiffMembers(d: nat, path: string, from: seq<Member>, to: seq<Member>): seq<Edit>
    requires Below(from, d)
    decreases d, 0, |from| + |to|
  {
    if from == [] && to == [] then []
    else if MergeOrder(from, to) == 0 then
      Diff(path + "/" + Encode(from[0].key), from[0].val, to[0].val) + DiffMembers(d, path, from[1..], to[1..])
    else if MergeOrder(from, to) < 0 then
      [Edit("remove", path + "/" + Encode(from[0].key), None)] + DiffMembers(d, path, from[1..], to)
    else
      [Edit("add", path + "/" + Encode(to[0].key), Some(to[0].val))] + DiffMembers(d, path, from, to[1..])
  }

  /** Both trees as CompareToPatch leaves them: every object that has a counterpart is sorted. */
  function Diffed(from: Json, to: Json): (Json, Json)
    decreases Depth(from), 1, 0
  {
    if !SameKind(from, to) then (from, to)
    else
      match from
      case Arr(items) =>
        var r := DiffedItems(Depth(from), items, to.items);
        (Arr(r.0), Arr(r.1))
      case Obj(_) =>
        var r := DiffedMembers(Depth(from), Sorted(from), Sorted(to));
        (Obj(r.0), Obj(r.1))
      case _ => (from, to)
  }

  function DiffedItems(d: nat, from: seq<Json>, to: seq<Json>): (seq<Json>, seq<Json>)
    requires forall v <- from :: Depth(v) < d
    decreases d, 0, |from|
  {
    if from == [] || to == [] then (from, to)
    else
      var (x, y) := Diffed(from[0], to[0]);
      Behind([x], [y], DiffedItems(d, from[1..], to[1..]))
  }

  function DiffedMembers(d: nat, from: seq<Member>, to: seq<Member>): (seq<Member>, seq<Member>)
    requires Below(from, d)
    decreases d, 0, |from| + |to|
  {
    if from == [] && to == [] then ([], [])
    else if MergeOrder(from, to) == 0 then
      var (x, y) := Diffed(from[0].val, to[0].val);
      Behind([Member(from[0].key, x)], [Member(to[0].key, y)], DiffedMembers(d, from[1..], to[1..]))
    else if MergeOrder(from, to) < 0 then Behind([from[0]], [], DiffedMembers(d, from[1..], to))
    else Behind([], [to[0]], DiffedMembers(d, from, to[1..]))
  }

  /** GeneratePatches */
  function Patches(from: Json, to: Json): seq<Json> {
    PatchList(Diff("", from, to))
  }

  // ---------- applying ----------

  /** A return code and the document, or a null pointer dereferenced or a string overrun. */
  datatype Applied = Done(code: int, doc: Json) | Crash

  /** The first member with a name, case aside. */
  function FindKey(members: seq<Member>, key: string): (r: Option<nat>)
    ensures r.Some? ==> r.value < |members| && CaseCmp(members[r.value].key, key) == 0
    ensures forall i | 0 <= i < (if r.Some? then r.value else |members|) :: CaseCmp(members[i].key, key) != 0
  {
    if members == [] then None
    else if CaseCmp(members[0].key, key) == 0 then Some(0)
    else
      match FindKey(members[1..], key)
      case None => None
      case Some(i) => Some(i + 1)
  }

  /** cJSON_GetObjectItem */
  function GetItem(j: Json, key: string): Option<Json> {
    if !j.Obj? || FindKey(j.members, key).None? then None else Some(j.members[FindKey(j.members, key).value].val)
  }

  /** A path cut at its last slash. */
  function SplitLast(p: string): (r: Option<(string, string)>)
    ensures r.Some? ==> |r.value.0| < |p|
  {
    if p == "" then None
    else
      match SplitLast(p[1..])
      case Some((parent, child)) => Some(([p[0]] + parent, child))
      case None => if p[0] == '/' then Some(("", p[1..])) else None
  }

  predicate Space(c: char) {
    c == ' ' || 9 <= c as int <= 13
  }

  function Atoi(s: string): int {
    if s != "" && Space(s[0]) then Atoi(s[1..])
    else if At(s, 0) == '-' then 0 - ReadDigits(s[1..], 0).0
    else if At(s, 0) == '+' then ReadDigits(s[1..], 0).0
    else ReadDigits(s, 0).0
  }

  /** The position the list walks stop at: a negative count walks nowhere. */
  function Index(s: string): nat {
    if Atoi(s) < 0 then 0 else Atoi(s)
  }

  /** cJSON_DetachItemFromArray and cJSON_DetachItemFromObject: the child and the parent without it. */
  function Detach(parent: Json, child: string): (Option<Json>, Json) {
    if parent.Arr? && Index(child) < |parent.items| then
      (Some(parent.items[Index(child)]), Arr(Without(parent.items, Index(child))))
    else if parent.Obj? && FindKey(parent.members, child).Some? then
      var i := FindKey(parent.members, child).value;
      (Some(parent.members[i].val), Obj(Without(parent.members, i)))
    else (None, parent)
  }

  /** Add a value to a parent under a name or at a position. */
  function AddChild(parent: Json, child: string, val: Json): Json {
    if parent.Arr? then
      if child == "-" || Index(child) >= |parent.items| then Arr(parent.items + [val])
      else Arr(InsertAt(parent.items, Index(child), val))
    else if parent.Obj? then Obj(Detach(parent, child).1.members + [Member(child, val)])
    else parent
  }

  function SetChild(j: Json, i: nat, c: Json): (r: Json)
    requires i < ChildCount(j)
    ensures ChildCount(r) == ChildCount(j) && SameKind(r, j)
  {
    if j.Arr? then Arr(j.items[i := c]) else Obj(j.members[i := Member(j.members[i].key, c)])
  }

  /** The document with another node at a path. */
  function Put(j: Json, p: Path, c: Json): Json
    requires ValidPath(j, p)
    decreases |p|
  {
    if p == [] then c else SetChild(j, p[0], Put(Child(j, p[0]), p[1..], c))
  }

  /** The parent a path leads to, if any, and the child's decoded name; None where the code crashes. */
  function Target(doc: Json, path: string): (r: Option<(Option<Path>, string)>)
    ensures r.Some? && r.value.0.Some? ==> ValidPath(doc, r.value.0.value)
  {
    match SplitLast(path)
    case None => None
    case Some((parent, child)) =>
      match DecodeToken(child)
      case None => None
      case Some(name) =>
        Some((GetPointer(doc, parent), name))
  }

  /** PatchDetach: what was detached, if anything, and the document without it. */
  function PatchDetach(doc: Json, path: string): Option<(Option<Json>, Json)> {
    match Target(doc, path)
    case None => None
    case Some((None, _)) => Some((None, doc))
    case Some((Some(p), name)) =>
      var (removed, parent) := Detach(Get(doc, p), name);
      Some((removed, Put(doc, p, parent)))
  }

  /** The last step of add, replace, move and copy. */
  function PatchAdd(doc: Json, path: Json, val: Json): Applied {
    if !path.Str? then Crash
    else
      match Target(doc, path.s)
      case None => Crash
      case Some((None, _)) => Done(9, doc)
      case Some((Some(p), name)) => Done(0, Put(doc, p, AddChild(Get(doc, p), name, val)))
  }

  /** Add or replace: the value comes from the patch. */
  function AddValue(doc: Json, patch: Json, path: Json): Applied {
    match GetItem(patch, "value")
    case None => Done(7, doc)
    case Some(val) => PatchAdd(doc, path, val)
  }

  /** Move or copy: the value comes from the document. */
  function AddFrom(doc: Json, patch: Json, path: Json, move: bool): Applied {
    match GetItem(patch, "from")
    case None => Done(4, doc)
    case Some(from) =>
      if !from.Str? then Crash
      else if move then
        match PatchDetach(doc, from.s)
        case None => Crash
        case Some((None, rest)) => Done(5, rest)
        case Some((Some(val), rest)) => PatchAdd(rest, path, val)
      else
        match GetPointer(doc, from.s)
        case None => Done(5, doc)
        case Some(p) => PatchAdd(doc, path, Get(doc, p))
  }

  /** Remove, and the first half of replace. */
  function Remove(doc: Json, path: Json): Applied {
    if !path.Str? || PatchDetach(doc, path.s).None? then Crash else Done(0, PatchDetach(doc, path.s).value.1)
  }

  /** Test: the code of the comparison, which sorts in the document what it compares. */
  function Test(doc: Json, patch: Json, path: Json): Applied {
    if !path.Str? || GetPointer(doc, path.s).None? || GetItem(patch, "value").None? then Crash
    else
      var p, val := GetPointer(doc, path.s).value, GetItem(patch, "value").value;
      Done(Compare(Get(doc, p), val), Put(doc, p, Compared(Get(doc, p), val).0))
  }

  /** ApplyPatch */
  function ApplyPatch(doc: Json, patch: Json): Applied {
    match (GetItem(patch, "op"), GetItem(patch, "path"))
    case (Some(op), Some(path)) =>
      if !op.Str? then Crash
      else if op.s == "add" then AddValue(doc, patch, path)
      else if op.s == "remove" then Remove(doc, path)
      else if op.s == "replace" then
        (match Remove(doc, path)
         case Crash => Crash
         case Done(_, rest) => AddValue(rest, patch, path))
      else if op.s == "move" then AddFrom(doc, patch, path, true)
      else if op.s == "copy" then AddFrom(doc, patch, path, false)
      else if op.s == "test" then Test(doc, patch, path)
      else Done(3, doc)
    case _ => Done(2, doc)
  }

  /** ApplyPatches: stop at the first code that is not 0. */
  function ApplyAll(doc: Json, patches: seq<Json>): Applied
    decreases |patches|
  {
    if patches == [] then Done(0, doc)
    else
      match ApplyPatch(doc, patches[0])
      case Crash => Crash
      case Done(code, next) => if code != 0 then Done(code, next) else ApplyAll(next, patches[1..])
  }
}
