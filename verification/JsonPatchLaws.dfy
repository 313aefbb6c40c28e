/**
 Laws of the patch interpreter for every document and every path: what a removal of nothing does,
 what a move and a copy are, what a test tells, and that an addition can be read back.
 */
module JsonPatchLaws {
  import opened Lists
  import opened JsonStrings
  import opened JsonText
  import opened JsonKeys
  import opened JsonPointer
  import opened JsonPatch
  import opened JsonMeaning
  import opened JsonPatchSteps
  import opened JsonPatchPaths

  // ---------- putting a node into a document ----------

  lemma {:induction false} GetPut(j: Json, p: Path, c: Json)
    requires ValidPath(j, p)
    ensures ValidPath(Put(j, p, c), p) && Get(Put(j, p, c), p) == c
    decreases |p|
  {
    if p != [] {
      GetPut(Child(j, p[0]), p[1..], c);
    }
  }

  lemma {:induction false} PutSame(j: Json, p: Path)
    requires ValidPath(j, p)
    ensures Put(j, p, Get(j, p)) == j
    decreases |p|
  {
    if p != [] {
      PutSame(Child(j, p[0]), p[1..]);
      SetSame(j, p[0]);
    }
  }

  // ---------- removing ----------

  /** The interpreter finds a child to remove: the parent is found, and it has the position that the
      last token begins with, or 0 if it begins with none, or a member with the decoded name. */
  predicate Present(doc: Json, path: string)
    requires Target(doc, path).Some?
  {
    var (p, name) := Target(doc, path).value;
    p.Some? && Has(Get(doc, p.value), name)
  }

  predicate Has(parent: Json, name: string) {
    (parent.Arr? && Index(name) < |parent.items|)
    || (parent.Obj? && exists i | 0 <= i < |parent.members| :: CaseCmp(parent.members[i].key, name) == 0)
  }

  lemma DetachChanges(parent: Json, name: string)
    ensures Has(parent, name) <==> Detach(parent, name).0.Some?
    ensures Has(parent, name) ==> ChildCount(Detach(parent, name).1) == ChildCount(parent) - 1
    ensures !Has(parent, name) ==> Detach(parent, name).1 == parent
  {
  }

  /** A remove whose path has a parent part returns 0 always, and the document stays as it was
      exactly when the interpreter finds no child.  Whether that child is the one the path names is
      said by RemoveRight. */
  lemma RemoveAlways(doc: Json, path: string)
    ensures Target(doc, path).None? <==> Remove(doc, Str(path)).Crash?
    ensures Target(doc, path).Some? ==> Remove(doc, Str(path)).code == 0
    ensures Target(doc, path).Some? ==> (Remove(doc, Str(path)).doc == doc <==> !Present(doc, path))
  {
    if Target(doc, path).Some? && Target(doc, path).value.0.Some? {
      var (place, name) := Target(doc, path).value;
      var parent := Get(doc, place.value);
      DetachChanges(parent, name);
      GetPut(doc, place.value, Detach(parent, name).1);
      PutSame(doc, place.value);
    }
  }

  /** The same of every patch with the operation "remove". */
  lemma RemovePatch(doc: Json, patch: Json, path: string)
    requires GetItem(patch, "op") == Some(Str("remove")) && GetItem(patch, "path") == Some(Str(path))
    requires Target(doc, path).Some?
    ensures var r := ApplyPatch(doc, patch); r.Done? && r.code == 0 && (r.doc == doc <==> !Present(doc, path))
    ensures At(path, 0) == '/' ==>
      (ApplyPatch(doc, patch).doc == Meant(doc, path) <==> !Present(doc, path) || ReadsExactly(doc, path))
  {
    RemoveAlways(doc, path);
    if At(path, 0) == '/' {
      RemoveRight(doc, path);
    }
  }

  // ---------- what a path names, and what is removed ----------

  /** The last token of a path, as it is written. */
  function LastToken(path: string): string
    requires SplitLast(path).Some?
  {
    SplitLast(path).value.1
  }

  /** The place of the child that the interpreter finds. */
  function FoundPlace(doc: Json, path: string): Path
    requires Target(doc, path).Some? && Present(doc, path)
  {
    var (p, name) := Target(doc, path).value;
    p.value + [Place(Get(doc, p.value), name).value]
  }

  /** The parent is read alike both ways: an array by a token of digits, an object by an encoded name. */
  predicate ReadsExactly(doc: Json, path: string)
    requires Target(doc, path).Some? && Target(doc, path).value.0.Some?
  {
    Exact(Get(doc, Target(doc, path).value.0.value), LastToken(path))
  }

  /** A pointer leads to the child that the interpreter finds for it, or nowhere: to the child
      exactly when its last token is digits for an array, and for an object has no tilde without a
      0 or 1 behind it. */
  lemma PointerOrNowhere(doc: Json, path: string)
    requires Target(doc, path).Some? && At(path, 0) == '/'
    ensures GetPointer(doc, path) ==
      if Present(doc, path) && ReadsExactly(doc, path) then Some(FoundPlace(doc, path)) else None
  {
    var (parent, tok) := SplitLast(path).value;
    SplitWhole(path);
    SplitStart(path);
    PointerOn(doc, parent, "/" + tok);
    if GetPointer(doc, parent).Some? {
      TokenPlace(Get(doc, GetPointer(doc, parent).value), tok);
    }
  }

  /** The removed node is the one the path names, for every path that finds one, exactly when the
      path starts with a slash and its last token is read alike both ways. */
  lemma RemoveNames(doc: Json, path: string)
    requires Target(doc, path).Some? && Present(doc, path)
    ensures var q := FoundPlace(doc, path);
      ValidPath(doc, q) && PatchDetach(doc, path).value.0 == Some(Get(doc, q))
      && (GetPointer(doc, path) == Some(q) <==> At(path, 0) == '/' && ReadsExactly(doc, path))
  {
    var (p, name) := Target(doc, path).value;
    var parent := Get(doc, p.value);
    GetBelow(doc, p.value, Place(parent, name).value);
    if At(path, 0) == '/' {
      PointerOrNowhere(doc, path);
    }
  }

  /** The document without the node at a path. */
  function CutOut(doc: Json, q: Path): Json
    requires ValidPath(doc, q) && q != []
  {
    var p := q[..|q| - 1];
    UpperPath(doc, q);
    var parent := Get(doc, p);
    var i := q[|q| - 1];
    Put(doc, p, if parent.Arr? then Arr(Without(parent.items, i)) else Obj(Without(parent.members, i)))
  }

  lemma {:induction false} UpperPath(doc: Json, q: Path)
    requires ValidPath(doc, q) && q != []
    ensures ValidPath(doc, q[..|q| - 1]) && q[|q| - 1] < ChildCount(Get(doc, q[..|q| - 1]))
    decreases |q|
  {
    if |q| > 1 {
      UpperPath(Child(doc, q[0]), q[1..]);
      assert q[..|q| - 1][1..] == q[1..][..|q| - 2];
    }
  }

  /** What a remove should do: take out what the path names, and nothing if it names nothing. */
  function Meant(doc: Json, path: string): Json {
    match GetPointer(doc, path)
    case None => doc
    case Some(q) => if q == [] then doc else CutOut(doc, q)
  }

  /** A remove does that exactly when it finds nothing or reads its last token alike both ways. */
  lemma RemoveRight(doc: Json, path: string)
    requires Target(doc, path).Some? && At(path, 0) == '/'
    ensures Remove(doc, Str(path)).Done?
    ensures Remove(doc, Str(path)).doc == Meant(doc, path) <==> !Present(doc, path) || ReadsExactly(doc, path)
  {
    RemoveAlways(doc, path);
    PointerOrNowhere(doc, path);
    if Present(doc, path) {
      RemoveCuts(doc, path);
    }
  }

  /** What is removed is the child the interpreter found, and nothing else. */
  lemma RemoveCuts(doc: Json, path: string)
    requires Target(doc, path).Some? && Present(doc, path)
    ensures var q := FoundPlace(doc, path);
      q != [] && ValidPath(doc, q) && Remove(doc, Str(path)) == Done(0, CutOut(doc, q))
  {
    var (p, name) := Target(doc, path).value;
    var q := FoundPlace(doc, path);
    RemoveNames(doc, path);
    assert q[..|q| - 1] == p.value;
  }

  /** In an array "-1" names nothing, and removing it takes the first element. */
  lemma RemoveMinusOne(v: Json)
    ensures GetPointer(Arr([v]), "/-1").None? && Remove(Arr([v]), Str("/-1")) == Done(0, Arr([]))
  {
    var path := "/" + "-1";
    SplitToken("-1");
    PlainDecode("-1");
    assert Atoi("-1") <= 0;
    assert !AllDigits("-1") by {
      assert !Digit("-1"[0]);
    }
    PointerOrNowhere(Arr([v]), path);
    assert Without([v], 0) == [];
  }

  /** In an object "~x" names nothing, and removing it takes the member called "/". */
  lemma RemoveTilde(v: Json)
    ensures var doc := Obj([Member("/", v)]);
      GetPointer(doc, "/~x").None? && Remove(doc, Str("/~x")) == Done(0, Obj([]))
  {
    var ms := [Member("/", v)];
    var path := "/" + "~x";
    SplitToken("~x");
    assert "~x"[2..] == "" && DecodeToken("~x") == Some("/" + "");
    assert !Coded("~x") by {
      assert "~x"[0] == '~' && "~x"[1] == 'x';
    }
    assert CaseCmp(ms[0].key, "/") == 0;
    PointerOrNowhere(Obj(ms), path);
    assert Without(ms, 0) == [];
  }

  /** Removing "/b" from an object that has only "a". */
  lemma RemoveMissing(v: Json)
    ensures ApplyPatch(Obj([Member("a", v)]), Patch(Edit("remove", "/b", None))) == Done(0, Obj([Member("a", v)]))
  {
    var ms := [Member("a", v)];
    assert Encode("b") == "b" by {
      PlainCode("b");
    }
    assert "/" + "b" == "/b";
    Applies(Obj(ms), Edit("remove", "/b", None));
    RemoveField(ms, "b");
    assert CaseCmp("a", "b") != 0;
    assert FindKey(ms, "b").None?;
  }

  // ---------- moving and copying ----------

  /** A move takes the value out and adds it at the other path (section 4.4 of RFC 6902). */
  lemma MoveIsRemoveAdd(doc: Json, patch: Json, from: string, path: string)
    requires GetItem(patch, "op") == Some(Str("move")) && GetItem(patch, "path") == Some(Str(path))
    requires GetItem(patch, "from") == Some(Str(from)) && Target(doc, from).Some?
    ensures var r := ApplyPatch(doc, patch);
      if Present(doc, from) then
        r == ApplyAll(doc,
          [Patch(Edit("remove", from, None)), Patch(Edit("add", path, PatchDetach(doc, from).value.0))])
      else r == Done(5, doc)
  {
    var (place, name) := Target(doc, from).value;
    MovesOrCopies(doc, patch);
    if place.Some? {
      DetachChanges(Get(doc, place.value), name);
      PutSame(doc, place.value);
    }
    if Present(doc, from) {
      var (val, rest) := PatchDetach(doc, from).value;
      Removes(doc, from);
      Adds(rest, path, val.value);
      ApplyTwo(doc, Patch(Edit("remove", from, None)), Patch(Edit("add", path, val)));
    }
  }

  lemma ApplyTwo(doc: Json, first: Json, second: Json)
    ensures ApplyAll(doc, [first, second]) ==
      match ApplyPatch(doc, first)
      case Crash => Crash
      case Done(code, next) => if code != 0 then Done(code, next) else ApplyPatch(next, second)
  {
    assert [first, second][1..] == [second];
    if ApplyPatch(doc, first).Done? {
      ApplyOne(ApplyPatch(doc, first).doc, second);
    }
  }

  lemma ApplyOne(doc: Json, patch: Json)
    ensures ApplyAll(doc, [patch]) == ApplyPatch(doc, patch)
  {
  }

  lemma MovesOrCopies(doc: Json, patch: Json)
    requires GetItem(patch, "path").Some? && GetItem(patch, "op") in [Some(Str("move")), Some(Str("copy"))]
    ensures ApplyPatch(doc, patch)
      == AddFrom(doc, patch, GetItem(patch, "path").value, GetItem(patch, "op") == Some(Str("move")))
  {
  }

  lemma Removes(doc: Json, path: string)
    ensures ApplyPatch(doc, Patch(Edit("remove", path, None))) == Remove(doc, Str(path))
  {
    Names(Edit("remove", path, None));
  }

  lemma Adds(doc: Json, path: string, val: Json)
    ensures ApplyPatch(doc, Patch(Edit("add", path, Some(val)))) == PatchAdd(doc, Str(path), val)
  {
    Names(Edit("add", path, Some(val)));
  }

  /** A copy adds the value that the other path leads to (section 4.5 of RFC 6902). */
  lemma CopyIsAdd(doc: Json, patch: Json, from: string, path: string)
    requires GetItem(patch, "op") == Some(Str("copy")) && GetItem(patch, "path") == Some(Str(path))
    requires GetItem(patch, "from") == Some(Str(from))
    ensures var r := ApplyPatch(doc, patch);
      match GetPointer(doc, from)
      case None => r == Done(5, doc)
      case Some(p) => r == ApplyPatch(doc, Patch(Edit("add", path, Some(Get(doc, p)))))
  {
    MovesOrCopies(doc, patch);
    if GetPointer(doc, from).Some? {
      Adds(doc, path, Get(doc, GetPointer(doc, from).value));
    }
  }

  // ---------- comparing leaves both documents as they were but for the order of members ----------

  lemma {:induction false} ComparedKeeps(a: Json, b: Json)
    requires WellKeyed(a) && WellKeyed(b)
    ensures var (x, y) := Compared(a, b); Means(x, a) && Means(y, b)
    decreases Depth(a), 1, 0
  {
    if SameKind(a, b) {
      match a
      case Arr(items) =>
        var d := Depth(a);
        ComparedItemsKeep(d, items, b.items);
        var (x, y) := ComparedItems(d, items, b.items);
        ArrayMeans(x, a);
        ArrayMeans(y, b);
      case Obj(_) =>
        var d, s, t := Depth(a), Sorted(a), Sorted(b);
        SortedKeyed(a);
        SortedKeyed(b);
        ComparedMembersKeep(d, s, t);
        var (x, y) := ComparedMembers(d, s, t);
        ObjectMeans(x, a);
        ObjectMeans(y, b);
      case _ =>
    }
  }

  /** The same document, and as well formed. */
  predicate Means(x: Json, a: Json) {
    WellKeyed(x) && Meaning(x) == Meaning(a)
  }

  predicate ItemsMean(s: seq<Json>, t: seq<Json>) {
    (forall v <- s :: WellKeyed(v)) && ItemsMeaning(s) == ItemsMeaning(t)
  }

  /** Member by member. */
  predicate MembersMean(s: seq<Member>, t: seq<Member>) {
    |s| == |t| && forall i | 0 <= i < |s| :: s[i].key == t[i].key && Means(s[i].val, t[i].val)
  }

  lemma {:induction false} FieldsMean(s: seq<Member>, t: seq<Member>)
    requires MembersMean(s, t) && KeyedMembers(t)
    ensures KeyedMembers(s) && Fields(s) == Fields(t)
  {
    if s != [] {
      assert s[0].key == t[0].key && Means(s[0].val, t[0].val);
      TailDistinct(t);
      assert forall m <- t[1..] :: m in t;
      assert MembersMean(s[1..], t[1..]);
      FieldsMean(s[1..], t[1..]);
    }
  }

  lemma ArrayMeans(x: seq<Json>, a: Json)
    requires a.Arr? && ItemsMean(x, a.items)
    ensures Means(Arr(x), a)
  {
  }

  lemma ObjectMeans(x: seq<Member>, a: Json)
    requires a.Obj? && WellKeyed(a) && MembersMean(x, Sorted(a))
    ensures Means(Obj(x), a)
  {
    SortedFields(a);
    FieldsMean(x, Sorted(a));
  }

  lemma SortedKeyed(a: Json)
    requires a.Obj? && WellKeyed(a)
    ensures Keyed(Sorted(a))
  {
    SortedFields(a);
  }

  lemma ItemsCons(x: Json, u: seq<Json>, s: seq<Json>)
    requires s != [] && Means(x, s[0]) && ItemsMean(u, s[1..])
    ensures ItemsMean([x] + u, s)
  {
    assert ([x] + u)[1..] == u;
  }

  lemma MembersCons(m: Member, u: seq<Member>, s: seq<Member>)
    requires s != [] && m.key == s[0].key && Means(m.val, s[0].val) && MembersMean(u, s[1..])
    ensures MembersMean([m] + u, s)
  {
    var all := [m] + u;
    forall i | 0 <= i < |s| ensures all[i].key == s[i].key && Means(all[i].val, s[i].val) {
      assert i > 0 ==> all[i] == u[i - 1] && s[i] == s[1..][i - 1];
    }
  }

  predicate Keyed(s: seq<Member>) {
    forall m <- s :: WellKeyed(m.val)
  }

  lemma KeyedSame(s: seq<Member>)
    requires Keyed(s)
    ensures MembersMean(s, s)
  {
  }

  lemma {:induction false} ComparedItemsKeep(d: nat, s: seq<Json>, t: seq<Json>)
    requires (forall v <- s :: Depth(v) < d && WellKeyed(v)) && forall v <- t :: WellKeyed(v)
    ensures var (x, y) := ComparedItems(d, s, t); ItemsMean(x, s) && ItemsMean(y, t)
    decreases d, 0, |s|
  {
    if s != [] && t != [] {
      ComparedKeeps(s[0], t[0]);
      var (x, y) := Compared(s[0], t[0]);
      ComparedItemsKeep(d, s[1..], t[1..]);
      var (u, v) := if Compare(s[0], t[0]) != 0 then (s[1..], t[1..]) else ComparedItems(d, s[1..], t[1..]);
      ItemsCons(x, u, s);
      ItemsCons(y, v, t);
    }
  }

  lemma {:induction false} ComparedMembersKeep(d: nat, s: seq<Member>, t: seq<Member>)
    requires Below(s, d) && Keyed(s) && Keyed(t)
    ensures var (x, y) := ComparedMembers(d, s, t); MembersMean(x, s) && MembersMean(y, t)
    decreases d, 0, |s|
  {
    KeyedSame(s);
    KeyedSame(t);
    if s != [] && t != [] && CaseCmp(s[0].key, t[0].key) == 0 {
      ComparedKeeps(s[0].val, t[0].val);
      var (x, y) := Compared(s[0].val, t[0].val);
      KeyedSame(s[1..]);
      KeyedSame(t[1..]);
      ComparedMembersKeep(d, s[1..], t[1..]);
      var (u, v) := if Compare(s[0].val, t[0].val) != 0 then (s[1..], t[1..]) else ComparedMembers(d, s[1..], t[1..]);
      MembersCons(Member(s[0].key, x), u, s);
      MembersCons(Member(t[0].key, y), v, t);
    }
  }

  /** Generating patches keeps both documents, too, so the patches fit the document they were made from. */
  lemma {:induction false} DiffedKeeps(from: Json, to: Json)
    requires WellKeyed(from) && WellKeyed(to)
    ensures var (x, y) := Diffed(from, to); Means(x, from) && Means(y, to)
    decreases Depth(from), 1, 0
  {
    if SameKind(from, to) {
      match from
      case Arr(items) =>
        var d := Depth(from);
        DiffedItemsKeep(d, items, to.items);
        var (x, y) := DiffedItems(d, items, to.items);
        ArrayMeans(x, from);
        ArrayMeans(y, to);
      case Obj(_) =>
        var d, s, t := Depth(from), Sorted(from), Sorted(to);
        SortedKeyed(from);
        SortedKeyed(to);
        DiffedMembersKeep(d, s, t);
        var (x, y) := DiffedMembers(d, s, t);
        ObjectMeans(x, from);
        ObjectMeans(y, to);
      case _ =>
    }
  }

  lemma {:induction false} DiffedItemsKeep(d: nat, s: seq<Json>, t: seq<Json>)
    requires (forall v <- s :: Depth(v) < d && WellKeyed(v)) && forall v <- t :: WellKeyed(v)
    ensures var (x, y) := DiffedItems(d, s, t); ItemsMean(x, s) && ItemsMean(y, t)
    decreases d, 0, |s|
  {
    if s != [] && t != [] {
      DiffedKeeps(s[0], t[0]);
      var (x, y) := Diffed(s[0], t[0]);
      DiffedItemsKeep(d, s[1..], t[1..]);
      var (u, v) := DiffedItems(d, s[1..], t[1..]);
      ItemsCons(x, u, s);
      ItemsCons(y, v, t);
    }
  }

  lemma {:induction false} DiffedMembersKeep(d: nat, s: seq<Member>, t: seq<Member>)
    requires Below(s, d) && Keyed(s) && Keyed(t)
    ensures var (x, y) := DiffedMembers(d, s, t); MembersMean(x, s) && MembersMean(y, t)
    decreases d, 0, |s| + |t|
  {
    if s == [] && t == [] {
    } else if MergeOrder(s, t) == 0 {
      DiffedKeeps(s[0].val, t[0].val);
      var (x, y) := Diffed(s[0].val, t[0].val);
      DiffedMembersKeep(d, s[1..], t[1..]);
      var (u, v) := DiffedMembers(d, s[1..], t[1..]);
      MembersCons(Member(s[0].key, x), u, s);
      MembersCons(Member(t[0].key, y), v, t);
    } else if MergeOrder(s, t) < 0 {
      DiffedMembersKeep(d, s[1..], t);
      MembersCons(s[0], DiffedMembers(d, s[1..], t).0, s);
    } else {
      DiffedMembersKeep(d, s, t[1..]);
      MembersCons(t[0], DiffedMembers(d, s, t[1..]).1, t);
    }
  }

  // ---------- testing ----------

  /** Another node that means the same. */
  lemma {:induction false} PutKeeps(j: Json, p: Path, c: Json)
    requires WellKeyed(j) && ValidPath(j, p) && Means(c, Get(j, p))
    ensures Means(Put(j, p, c), j)
    decreases |p|
  {
    if p != [] {
      assert WellKeyed(Child(j, p[0])) by {
        assert j.Obj? ==> j.members[p[0]] in j.members;
      }
      PutKeeps(Child(j, p[0]), p[1..], c);
      SetKeeps(j, p[0], Put(Child(j, p[0]), p[1..], c));
    }
  }

  lemma SetKeeps(j: Json, i: nat, c: Json)
    requires WellKeyed(j) && i < ChildCount(j) && Means(c, Child(j, i))
    ensures Means(SetChild(j, i, c), j)
  {
    if j.Arr? {
      assert ItemsMeaning(j.items[i := c]) == ItemsMeaning(j.items);
    } else {
      var s := j.members[i := Member(j.members[i].key, c)];
      assert forall m <- j.members :: WellKeyed(m.val);
      FieldsMean(s, j.members);
    }
  }

  /** A test whose path and value are there returns 0 exactly when the node means the value, and
      the document means afterwards what it meant before. */
  lemma TestTells(doc: Json, patch: Json, path: string, val: Json)
    requires GetItem(patch, "op") == Some(Str("test")) && GetItem(patch, "path") == Some(Str(path))
    requires GetItem(patch, "value") == Some(val) && WellKeyed(doc) && WellKeyed(val) && GetPointer(doc, path).Some?
    ensures var r := ApplyPatch(doc, patch);
      r.Done? && Means(r.doc, doc) && (r.code == 0 <==> Meaning(Get(doc, GetPointer(doc, path).value)) == Meaning(val))
  {
    var p := GetPointer(doc, path).value;
    Tests(doc, patch);
    NodeKeyed(doc, p);
    CompareSame(Get(doc, p), val);
    ComparedKeeps(Get(doc, p), val);
    PutKeeps(doc, p, Compared(Get(doc, p), val).0);
  }

  lemma Tests(doc: Json, patch: Json)
    requires GetItem(patch, "op") == Some(Str("test")) && GetItem(patch, "path").Some?
    ensures ApplyPatch(doc, patch) == Test(doc, patch, GetItem(patch, "path").value)
  {
  }

  lemma {:induction false} NodeKeyed(j: Json, p: Path)
    requires WellKeyed(j) && ValidPath(j, p)
    ensures WellKeyed(Get(j, p))
    decreases |p|
  {
    if p != [] {
      assert j.Obj? ==> j.members[p[0]] in j.members;
      NodeKeyed(Child(j, p[0]), p[1..]);
    }
  }

  // ---------- what was added is there ----------

  /** The path of a child called `name` under the node at `p`. */
  function PathBelow(doc: Json, p: Path, name: string): string
    requires ValidPath(doc, p)
  {
    PathText(doc, p) + ("/" + Encode(name))
  }

  lemma TargetBelow(doc: Json, p: Path, name: string)
    requires WellKeyed(doc) && ValidPath(doc, p)
    ensures Target(doc, PathBelow(doc, p, name)) == Some((Some(p), name))
  {
    EncodeDecode(name);
    SplitToken(Encode(name));
    SplitUnder(PathText(doc, p), "/" + Encode(name));
    assert PathText(doc, p) + "" == PathText(doc, p);
    PointerOfNode(doc, p);
    PointerRoundTrip(doc, p);
  }

  /** Putting a node in changes no name on the way to it. */
  lemma {:induction false} PutOnTheWay(j: Json, p: Path, c: Json)
    requires ValidPath(j, p)
    ensures ValidPath(Put(j, p, c), p) && PathText(Put(j, p, c), p) == PathText(j, p)
    ensures Reachable(j, p) ==> Reachable(Put(j, p, c), p)
    decreases |p|
  {
    if p != [] {
      PutOnTheWay(Child(j, p[0]), p[1..], c);
    }
  }

  lemma {:induction false} GetBelow(j: Json, p: Path, i: nat)
    requires ValidPath(j, p) && i < ChildCount(Get(j, p))
    ensures ValidPath(j, p + [i]) && Get(j, p + [i]) == Child(Get(j, p), i)
    decreases |p|
  {
    if p == [] {
      assert p + [i] == [i];
    } else {
      GetBelow(Child(j, p[0]), p[1..], i);
      assert (p + [i])[1..] == p[1..] + [i];
    }
  }

  /** Where a value can be added so that its path names it: under any name of an object, at any
      position of an array up to its end. */
  predicate Fits(parent: Json, name: string) {
    parent.Obj? || (parent.Arr? && AllDigits(name) && Index(name) <= |parent.items|)
  }

  lemma {:induction false} EncodeCoded(s: string)
    ensures Coded(Encode(s))
  {
    if s != "" {
      EncodeCoded(s[1..]);
      var e, n := Encode(s), |EncodeChar(s[0])|;
      assert e[n..] == Encode(s[1..]);
      CodedShift(e, n);
    }
  }

  lemma {:induction false} EncodeDigits(s: string)
    ensures AllDigits(Encode(s)) <==> AllDigits(s)
  {
    if s != "" {
      EncodeDigits(s[1..]);
      var e, n := Encode(s), |EncodeChar(s[0])|;
      assert e[n..] == Encode(s[1..]) && e[..n] == EncodeChar(s[0]) && s[..1] == [s[0]];
      DigitsShift(e, n);
      DigitsShift(s, 1);
      DigitsChar(s[0]);
    }
  }

  lemma DigitsChar(c: char)
    ensures AllDigits(EncodeChar(c)) <==> AllDigits([c])
  {
    assert !Digit('~') && !Digit('/');
    assert EncodeChar(c) != [c] ==> EncodeChar(c)[0] == '~' && [c][0] in ['~', '/'];
  }

  lemma DigitsShift(s: string, n: nat)
    requires n <= |s|
    ensures AllDigits(s) <==> AllDigits(s[..n]) && AllDigits(s[n..])
  {
    assert forall i | n <= i < |s| :: s[i] == s[n..][i - n];
  }

  /** Of what was added to a node, the token leads to the value where it fits, and else nowhere. */
  lemma AddToken(parent: Json, name: string, val: Json)
    requires parent.Obj? ==> DistinctKeys(parent.members)
    ensures var next := AddChild(parent, name, val);
      var r := GetPointer(next, "/" + Encode(name));
      if Fits(parent, name) then r.Some? && |r.value| == 1 && Child(next, r.value[0]) == val else r.None?
  {
    var next := AddChild(parent, name, val);
    EncodeDecode(name);
    EncodeCoded(name);
    EncodeDigits(name);
    TokenPlace(next, Encode(name));
    if parent.Obj? {
      var ms := Detach(parent, name).1.members;
      if FindKey(parent.members, name).Some? {
        DropMember(parent.members, name);
      }
      AppendMember(ms, name, val);
    } else if parent.Arr? && AllDigits(name) {
      assert !Digit('-') && (name != "" ==> Digit(name[0]));
    }
  }

  /** In a document with distinct names an addition at a node returns 0, whatever the node and the
      token.  Its path leads to the value exactly when the node is an object, or an array with that
      position, and else nowhere. */
  lemma AddFound(doc: Json, p: Path, name: string, val: Json)
    requires WellKeyed(doc) && ValidPath(doc, p)
    ensures var path := PathBelow(doc, p, name);
      var r := PatchAdd(doc, Str(path), val);
      r.Done? && r.code == 0
      && if Fits(Get(doc, p), name) then
          GetPointer(r.doc, path).Some? && Get(r.doc, GetPointer(r.doc, path).value) == val
        else GetPointer(r.doc, path).None?
  {
    var t := "/" + Encode(name);
    var parent := AddChild(Get(doc, p), name, val);
    TargetBelow(doc, p, name);
    NodeKeyed(doc, p);
    AddToken(Get(doc, p), name, val);
    var next := Put(doc, p, parent);
    KeyedReachable(doc, p);
    PutOnTheWay(doc, p, parent);
    GetPut(doc, p, parent);
    PointerFollows(next, p, t);
    if Fits(Get(doc, p), name) {
      var i := GetPointer(parent, t).value[0];
      assert GetPointer(parent, t).value == [i];
      GetBelow(next, p, i);
    }
  }

  lemma {:induction false} CompareSelf(v: Json)
    ensures Compare(v, v) == 0
    decreases Depth(v), 1, 0
  {
    match v
    case Arr(items) => ItemsSelf(Depth(v), items);
    case Obj(_) => MembersSelf(Depth(v), Sorted(v));
    case _ =>
  }

  lemma {:induction false} ItemsSelf(d: nat, s: seq<Json>)
    requires forall v <- s :: Depth(v) < d
    ensures CompareItems(d, s, s) == 0
    decreases d, 0, |s|
  {
    if s != [] {
      CompareSelf(s[0]);
      ItemsSelf(d, s[1..]);
    }
  }

  lemma {:induction false} MembersSelf(d: nat, s: seq<Member>)
    requires Below(s, d)
    ensures CompareMembers(d, s, s) == 0
    decreases d, 0, |s|
  {
    if s != [] {
      CaseFold(s[0].key, s[0].key);
      CompareSelf(s[0].val);
      MembersSelf(d, s[1..]);
    }
  }

  /** The patch that tests for a value. */
  predicate TestPatch(patch: Json, path: string, val: Json) {
    GetItem(patch, "op") == Some(Str("test")) && GetItem(patch, "path") == Some(Str(path))
      && GetItem(patch, "value") == Some(val)
  }

  /** Adding a value and testing for it at the same path succeeds exactly when the value fits there;
      else the test has no node to compare and crashes. */
  lemma AddThenTest(doc: Json, p: Path, name: string, val: Json, test: Json)
    requires WellKeyed(doc) && ValidPath(doc, p) && TestPatch(test, PathBelow(doc, p, name), val)
    ensures var r := ApplyAll(doc, [Patch(Edit("add", PathBelow(doc, p, name), Some(val))), test]);
      if Fits(Get(doc, p), name) then r.Done? && r.code == 0 else r.Crash?
  {
    var path := PathBelow(doc, p, name);
    Adds(doc, path, val);
    AddFound(doc, p, name, val);
    var next := PatchAdd(doc, Str(path), val).doc;
    Tests(next, test);
    CompareSelf(val);
    ApplyTwo(doc, Patch(Edit("add", path, Some(val))), test);
  }

  /** The same of copying a node and testing for it at the new path. */
  lemma CopyThenTest(doc: Json, from: string, p: Path, name: string, copy: Json, test: Json)
    requires WellKeyed(doc) && ValidPath(doc, p) && GetPointer(doc, from).Some?
    requires GetItem(copy, "op") == Some(Str("copy")) && GetItem(copy, "from") == Some(Str(from))
    requires GetItem(copy, "path") == Some(Str(PathBelow(doc, p, name)))
    requires TestPatch(test, PathBelow(doc, p, name), Get(doc, GetPointer(doc, from).value))
    ensures var r := ApplyAll(doc, [copy, test]);
      if Fits(Get(doc, p), name) then r.Done? && r.code == 0 else r.Crash?
  {
    var path, val := PathBelow(doc, p, name), Get(doc, GetPointer(doc, from).value);
    CopyIsAdd(doc, copy, from, path);
    AddThenTest(doc, p, name, val, test);
    ApplyTwo(doc, copy, test);
    ApplyTwo(doc, Patch(Edit("add", path, Some(val))), test);
  }
}
