/**
 Patches under a path: what a patch does to a child, it does to the document that holds the
 child when the child's token is put in front of its path.
 */
module JsonPatchSteps {
  import opened Lists
  import opened JsonStrings
  import opened JsonText
  import opened JsonKeys
  import opened JsonPointer
  import opened JsonPatch
  import opened JsonMeaning

  /** The edits a diff is made of, with a path that is empty or starts with a token. */
  predicate Good(e: Edit) {
    (if e.op == "remove" then e.val.None? else e.op in ["add", "replace"] && e.val.Some?)
    && TokenEnd(e.path) && (e.path == "" ==> e.op == "replace")
  }

  function Under(t: string, edits: seq<Edit>): seq<Edit> {
    if edits == [] then [] else [edits[0].(path := t + edits[0].path)] + Under(t, edits[1..])
  }

  /** What an edit does to a tree, where a replacement at the empty path is taken to replace the tree:
      its parent does that. */
  function Step(j: Json, e: Edit): Option<Json> {
    if e.path == "" then e.val
    else
      match ApplyPatch(j, Patch(e))
      case Crash => None
      case Done(code, doc) => if code == 0 then Some(doc) else None
  }

  function Run(j: Json, edits: seq<Edit>): Option<Json>
    decreases |edits|
  {
    if edits == [] then Some(j)
    else
      match Step(j, edits[0])
      case None => None
      case Some(next) => Run(next, edits[1..])
  }

  lemma {:induction false} RunConcat(j: Json, es: seq<Edit>, fs: seq<Edit>)
    ensures Run(j, es + fs) == (match Run(j, es) case None => None case Some(x) => Run(x, fs))
    decreases |es|
  {
    if es == [] {
      assert es + fs == fs;
    } else {
      assert (es + fs)[1..] == es[1..] + fs;
      if Step(j, es[0]).Some? {
        RunConcat(Step(j, es[0]).value, es[1..], fs);
      }
    }
  }

  lemma RunCons(j: Json, e: Edit, es: seq<Edit>, next: Json)
    requires Step(j, e) == Some(next)
    ensures Run(j, [e] + es) == Run(next, es)
  {
    assert ([e] + es)[1..] == es;
  }

  // ---------- what ApplyPatch makes of an edit ----------

  lemma Names(e: Edit)
    ensures GetItem(Patch(e), "op") == Some(Str(e.op)) && GetItem(Patch(e), "path") == Some(Str(e.path))
    ensures GetItem(Patch(e), "value") == e.val
  {
    var ms := Patch(e).members;
    CaseFold("op", "op");
    CaseFold("path", "path");
    CaseFold("value", "value");
    assert CaseCmp("op", "path") != 0 && CaseCmp("op", "value") != 0 && CaseCmp("path", "value") != 0;
    assert ms[0].key == "op" && ms[1].key == "path" && (e.val.Some? ==> ms[2].key == "value");
    assert ms[1..][0] == ms[1] && (e.val.Some? ==> ms[1..][1..][0] == ms[2]);
    assert |ms[1..][1..]| == if e.val.Some? then 1 else 0;
  }

  function Replace(j: Json, path: Json, val: Json): Applied {
    match Remove(j, path)
    case Crash => Crash
    case Done(_, rest) => PatchAdd(rest, path, val)
  }

  lemma Applies(j: Json, e: Edit)
    requires Good(e)
    ensures e.op == "remove" ==> ApplyPatch(j, Patch(e)) == Remove(j, Str(e.path))
    ensures e.op == "add" ==> ApplyPatch(j, Patch(e)) == PatchAdd(j, Str(e.path), e.val.value)
    ensures e.op == "replace" ==> ApplyPatch(j, Patch(e)) == Replace(j, Str(e.path), e.val.value)
  {
    Names(e);
    Dispatch(j, Patch(e), e);
  }

  /** The branch of the interpreter for the operation. */
  lemma Dispatch(j: Json, patch: Json, e: Edit)
    requires GetItem(patch, "op") == Some(Str(e.op)) && GetItem(patch, "path") == Some(Str(e.path))
    requires GetItem(patch, "value") == e.val
    ensures e.op == "remove" ==> ApplyPatch(j, patch) == Remove(j, Str(e.path))
    ensures e.op == "add" && e.val.Some? ==> ApplyPatch(j, patch) == PatchAdd(j, Str(e.path), e.val.value)
    ensures e.op == "replace" && e.val.Some? ==> ApplyPatch(j, patch) == Replace(j, Str(e.path), e.val.value)
  {
  }

  // ---------- inside a child ----------

  /** The token `t` leads from `j` to its child `i`, whatever comes after it. */
  ghost predicate Leads(j: Json, t: string, i: nat) {
    i < ChildCount(j) && At(t, 0) == '/'
    && forall rest: string | TokenEnd(rest) :: NextChild(j, t + rest) == Some((i, rest))
  }

  lemma {:induction false} SplitUnder(t: string, p: string)
    requires SplitLast(p).Some?
    ensures SplitLast(t + p) == Some((t + SplitLast(p).value.0, SplitLast(p).value.1))
  {
    if t == "" {
      assert t + p == p && "" + SplitLast(p).value.0 == SplitLast(p).value.0;
    } else {
      assert (t + p)[1..] == t[1..] + p;
      SplitUnder(t[1..], p);
      assert [t[0]] + (t[1..] + SplitLast(p).value.0) == t + SplitLast(p).value.0;
    }
  }

  lemma {:induction false} SplitStart(p: string)
    requires SplitLast(p).Some? && TokenEnd(p)
    ensures TokenEnd(SplitLast(p).value.0)
  {
  }

  /** A pointer through a child. */
  lemma PointerThrough(j: Json, t: string, i: nat, p: string)
    requires Leads(j, t, i) && TokenEnd(p)
    ensures GetPointer(j, t + p) == Onto([i], GetPointer(Child(j, i), p))
  {
    assert NextChild(j, t + p) == Some((i, p));
    assert At(t + p, 0) == At(t, 0);
    GetPointerStep(j, t + p);
  }

  /** The target of a path through a child is the target in the child. */
  lemma TargetThrough(j: Json, t: string, i: nat, p: string)
    requires Leads(j, t, i) && TokenEnd(p) && Target(Child(j, i), p).Some?
    ensures Target(j, t + p) == Some((Onto([i], Target(Child(j, i), p).value.0), Target(Child(j, i), p).value.1))
  {
    SplitUnder(t, p);
    SplitStart(p);
    PointerThrough(j, t, i, SplitLast(p).value.0);
  }

  lemma PutThrough(j: Json, i: nat, p: Path, c: Json)
    requires i < ChildCount(j) && ValidPath(Child(j, i), p)
    ensures ValidPath(j, [i] + p) && Get(j, [i] + p) == Get(Child(j, i), p)
    ensures Put(j, [i] + p, c) == SetChild(j, i, Put(Child(j, i), p, c))
  {
    assert ([i] + p)[1..] == p;
  }

  lemma SetSame(j: Json, i: nat)
    requires i < ChildCount(j)
    ensures SetChild(j, i, Child(j, i)) == j
  {
    if j.Arr? {
      assert j.items[i := j.items[i]] == j.items;
    } else {
      assert j.members[i := j.members[i]] == j.members;
    }
  }

  lemma SetTwice(j: Json, i: nat, c: Json, e: Json)
    requires i < ChildCount(j)
    ensures Child(SetChild(j, i, c), i) == c && SetChild(SetChild(j, i, c), i, e) == SetChild(j, i, e)
  {
  }

  lemma RemoveThrough(j: Json, t: string, i: nat, p: string)
    requires Leads(j, t, i) && TokenEnd(p) && Remove(Child(j, i), Str(p)).Done?
    ensures Remove(j, Str(t + p)) == Done(0, SetChild(j, i, Remove(Child(j, i), Str(p)).doc))
  {
    var c := Child(j, i);
    TargetThrough(j, t, i, p);
    SetSame(j, i);
    match Target(c, p).value.0
    case None =>
    case Some(path) => PutThrough(j, i, path, Detach(Get(c, path), Target(c, p).value.1).1);
  }

  lemma AddThrough(j: Json, t: string, i: nat, p: string, v: Json)
    requires Leads(j, t, i) && TokenEnd(p)
    requires PatchAdd(Child(j, i), Str(p), v).Done? && PatchAdd(Child(j, i), Str(p), v).code == 0
    ensures PatchAdd(j, Str(t + p), v) == Done(0, SetChild(j, i, PatchAdd(Child(j, i), Str(p), v).doc))
  {
    var c := Child(j, i);
    TargetThrough(j, t, i, p);
    var path := Target(c, p).value.0.value;
    PutThrough(j, i, path, AddChild(Get(c, path), Target(c, p).value.1, v));
  }

  /** An edit below a child. */
  lemma StepInside(j: Json, t: string, i: nat, e: Edit)
    requires Leads(j, t, i) && Good(e) && e.path != "" && Step(Child(j, i), e).Some?
    requires forall c: Json :: Leads(SetChild(j, i, c), t, i)
    ensures Step(j, e.(path := t + e.path)) == Some(SetChild(j, i, Step(Child(j, i), e).value))
  {
    var c := Child(j, i);
    Applies(c, e);
    Applies(j, e.(path := t + e.path));
    if e.op == "remove" {
      RemoveThrough(j, t, i, e.path);
    } else if e.op == "add" {
      AddThrough(j, t, i, e.path, e.val.value);
    } else {
      RemoveThrough(j, t, i, e.path);
      var mid := Remove(c, Str(e.path)).doc;
      SetTwice(j, i, mid, Step(c, e).value);
      AddThrough(SetChild(j, i, mid), t, i, e.path, e.val.value);
    }
  }

  // ---------- elements ----------

  lemma {:induction false} PlainCode(s: string)
    requires '/' !in s && '~' !in s
    ensures Encode(s) == s
  {
    if s != "" {
      PlainCode(s[1..]);
    }
  }

  lemma DecimalCode(c: nat)
    ensures Encode(Decimal(c)) == Decimal(c) && DecodeToken(Decimal(c)) == Some(Decimal(c)) && '/' !in Decimal(c)
    ensures Atoi(Decimal(c)) == Index(Decimal(c)) == c && Decimal(c) != "-"
  {
    assert !Digit('/') && !Digit('~') && !Digit('-');
    PlainCode(Decimal(c));
    EncodeDecode(Decimal(c));
    assert Digit(Decimal(c)[0]);
    assert Decimal(c) + "" == Decimal(c);
    ReadDigitsBack(c, "");
  }

  lemma {:induction false} SplitToken(s: string)
    requires '/' !in s
    ensures SplitLast(s).None? && SplitLast("/" + s) == Some(("", s))
  {
    assert ("/" + s)[1..] == s;
    if s != "" {
      SplitToken(s[1..]);
    }
  }

  lemma LeadsItem(items: seq<Json>, c: nat)
    requires c < |items|
    ensures Leads(Arr(items), "/" + Decimal(c), c)
  {
    forall rest: string | TokenEnd(rest) ensures NextChild(Arr(items), "/" + Decimal(c) + rest) == Some((c, rest)) {
      assert ("/" + Decimal(c) + rest)[1..] == Digits(c) + rest;
      ReadDigitsBack(c, rest);
    }
  }

  /** The target of a single position. */
  lemma TargetItem(items: seq<Json>, c: nat)
    ensures Target(Arr(items), "/" + Decimal(c)) == Some((Some([]), Decimal(c)))
  {
    DecimalCode(c);
    SplitToken(Decimal(c));
  }

  lemma RemoveItem(items: seq<Json>, c: nat)
    ensures Remove(Arr(items), Str("/" + Decimal(c))) == Done(0, Arr(if c < |items| then Without(items, c) else items))
  {
    DecimalCode(c);
    TargetItem(items, c);
  }

  lemma AddItem(items: seq<Json>, c: nat, v: Json)
    ensures PatchAdd(Arr(items), Str("/" + Decimal(c)), v)
      == Done(0, Arr(if c >= |items| then items + [v] else InsertAt(items, c, v)))
  {
    DecimalCode(c);
    TargetItem(items, c);
  }

  lemma ReplaceItem(items: seq<Json>, c: nat, v: Json)
    requires c < |items|
    ensures Replace(Arr(items), Str("/" + Decimal(c)), v) == Done(0, Arr(items[c := v]))
  {
    RemoveItem(items, c);
    AddItem(Without(items, c), c, v);
    PutInstead(items, c, v);
  }

  lemma PutInstead<T>(items: seq<T>, c: nat, v: T)
    requires c < |items|
    ensures var rest := Without(items, c); (if c >= |rest| then rest + [v] else InsertAt(rest, c, v)) == items[c := v]
  {
  }

  lemma StepItem(items: seq<Json>, c: nat, e: Edit)
    requires c < |items| && Good(e) && Step(items[c], e).Some?
    ensures Step(Arr(items), e.(path := "/" + Decimal(c) + e.path)) == Some(Arr(items[c := Step(items[c], e).value]))
  {
    if e.path == "" {
      var f := e.(path := "/" + Decimal(c));
      assert "/" + Decimal(c) + "" == "/" + Decimal(c);
      Applies(Arr(items), f);
      ReplaceItem(items, c, e.val.value);
    } else {
      LeadsItem(items, c);
      forall x: Json ensures Leads(SetChild(Arr(items), c, x), "/" + Decimal(c), c) {
        LeadsItem(items[c := x], c);
      }
      StepInside(Arr(items), "/" + Decimal(c), c, e);
    }
  }

  /** A run of edits under the position `c` is the run on the element there. */
  lemma {:induction false} RunItem(items: seq<Json>, c: nat, es: seq<Edit>)
    requires c < |items| && (forall e <- es :: Good(e)) && Run(items[c], es).Some?
    ensures Run(Arr(items), Under("/" + Decimal(c), es)) == Some(Arr(items[c := Run(items[c], es).value]))
    decreases |es|
  {
    if es == [] {
      assert items[c := items[c]] == items;
    } else {
      StepItem(items, c, es[0]);
      var x := Step(items[c], es[0]).value;
      RunItem(items[c := x], c, es[1..]);
      assert items[c := x][c := Run(x, es[1..]).value] == items[c := Run(x, es[1..]).value];
    }
  }

  // ---------- members ----------

  lemma {:induction false} TokenFind(members: seq<Member>, k: string, rest: string)
    requires TokenEnd(rest)
    ensures FindToken(members, Encode(k) + rest) == FindKey(members, k)
  {
    if members != [] {
      EncodedMatches(members[0].key, k, rest);
      TokenFind(members[1..], k, rest);
    }
  }

  lemma LeadsMember(members: seq<Member>, k: string, i: nat)
    requires FindKey(members, k) == Some(i)
    ensures Leads(Obj(members), "/" + Encode(k), i)
  {
    forall rest: string | TokenEnd(rest) ensures NextChild(Obj(members), "/" + Encode(k) + rest) == Some((i, rest)) {
      LeadsOn(members, k, i, rest);
    }
  }

  lemma LeadsOn(members: seq<Member>, k: string, i: nat, rest: string)
    requires FindKey(members, k) == Some(i) && TokenEnd(rest)
    ensures NextChild(Obj(members), "/" + Encode(k) + rest) == Some((i, rest))
  {
    assert ("/" + Encode(k) + rest)[1..] == Encode(k) + rest;
    TokenFind(members, k, rest);
    AfterEncoded(k, rest);
  }

  lemma TargetMember(members: seq<Member>, k: string)
    ensures Target(Obj(members), "/" + Encode(k)) == Some((Some([]), k))
  {
    EncodeDecode(k);
    SplitToken(Encode(k));
  }

  lemma FindSet(members: seq<Member>, k: string, i: nat, c: Json)
    requires FindKey(members, k) == Some(i)
    ensures FindKey(members[i := Member(members[i].key, c)], k) == Some(i)
  {
    var ns := members[i := Member(members[i].key, c)];
    assert forall j | 0 <= j < |ns| :: ns[j].key == members[j].key;
  }

  /** `to` is `from` with the field `k` set to `x`, and no other member is new. */
  ghost predicate FieldSet(from: seq<Member>, k: string, x: Json, to: seq<Member>) {
    DistinctKeys(to) && FindKey(to, k).Some? && to[FindKey(to, k).value].val == x
    && Fields(to) == Fields(from)[Fold(k) := Meaning(x)]
    && forall m <- to :: Fold(m.key) != Fold(k) ==> m in from
  }

  /** With distinct names, the first member found is the only one with its name. */
  lemma FindIs(members: seq<Member>, k: string)
    requires DistinctKeys(members)
    ensures forall j | 0 <= j < |members| :: Fold(members[j].key) == Fold(k) <==> FindKey(members, k) == Some(j)
    ensures FindKey(members, k).Some? <==> Fold(k) in Fields(members)
    ensures FindKey(members, k).Some? ==> Fields(members)[Fold(k)] == Meaning(members[FindKey(members, k).value].val)
  {
    FieldsAre(members);
    FindOnly(members, k);
    if FindKey(members, k).Some? {
      CaseFold(members[FindKey(members, k).value].key, k);
    }
  }

  lemma FindOnly(members: seq<Member>, k: string)
    requires DistinctKeys(members)
    ensures forall j | 0 <= j < |members| :: Fold(members[j].key) == Fold(k) <==> FindKey(members, k) == Some(j)
  {
    forall j | 0 <= j < |members| ensures CaseCmp(members[j].key, k) == 0 <==> Fold(members[j].key) == Fold(k) {
      CaseFold(members[j].key, k);
    }
  }

  /** A member and the others. */
  lemma Front(ms: seq<Member>, i: nat)
    requires i < |ms| && DistinctKeys(ms)
    ensures var rest := Without(ms, i);
      DistinctKeys(rest) && Fold(ms[i].key) !in Fields(rest)
      && Fields(ms) == Fields(rest)[Fold(ms[i].key) := Meaning(ms[i].val)]
  {
    var rest := Without(ms, i);
    var front := [ms[i]] + rest;
    WithoutElements(ms, i);
    assert front[1..] == rest;
    PermFields(ms, front);
    TailDistinct(front);
    FieldsAre(rest);
    assert forall j | 0 <= j < |rest| :: rest[j] == front[j + 1];
  }

  /** A member with a new name among the others. */
  lemma Among(ns: seq<Member>, i: nat)
    requires i < |ns| && DistinctKeys(Without(ns, i)) && Fold(ns[i].key) !in Fields(Without(ns, i))
    ensures DistinctKeys(ns) && Fields(ns) == Fields(Without(ns, i))[Fold(ns[i].key) := Meaning(ns[i].val)]
  {
    FieldsAre(Without(ns, i));
    DistinctBack(ns, i);
    Front(ns, i);
  }

  lemma SetFields(ms: seq<Member>, i: nat, x: Json)
    requires i < |ms| && DistinctKeys(ms)
    ensures var ns := ms[i := Member(ms[i].key, x)];
      DistinctKeys(ns) && Fields(ns) == Fields(ms)[Fold(ms[i].key) := Meaning(x)]
  {
    var ns := ms[i := Member(ms[i].key, x)];
    Front(ms, i);
    assert Without(ns, i) == Without(ms, i);
    Among(ns, i);
  }

  lemma SetMember(ms: seq<Member>, k: string, x: Json)
    requires DistinctKeys(ms) && FindKey(ms, k).Some?
    ensures var i := FindKey(ms, k).value; FieldSet(ms, k, x, ms[i := Member(ms[i].key, x)])
  {
    var i := FindKey(ms, k).value;
    FindSet(ms, k, i, x);
    CaseFold(ms[i].key, k);
    SetFields(ms, i, x);
    var ns := ms[i := Member(ms[i].key, x)];
    assert forall j | 0 <= j < |ns| && j != i :: ns[j] == ms[j];
  }

  lemma AppendMember(ms: seq<Member>, k: string, x: Json)
    requires DistinctKeys(ms) && FindKey(ms, k).None?
    ensures FieldSet(ms, k, x, ms + [Member(k, x)])
  {
    var ns := ms + [Member(k, x)];
    FindIs(ms, k);
    assert Without(ns, |ms|) == ms;
    Among(ns, |ms|);
    FindIs(ns, k);
    assert ns[|ms|] == Member(k, x);
  }

  lemma DropMember(ms: seq<Member>, k: string)
    requires DistinctKeys(ms) && FindKey(ms, k).Some?
    ensures var ns := Without(ms, FindKey(ms, k).value);
      DistinctKeys(ns) && FindKey(ns, k).None? && Fields(ns) == Fields(ms) - {Fold(k)} && forall m <- ns :: m in ms
  {
    var i := FindKey(ms, k).value;
    CaseFold(ms[i].key, k);
    Front(ms, i);
    FindIs(Without(ms, i), k);
    TakeOut(Fields(Without(ms, i)), Fold(k), Meaning(ms[i].val));
  }

  lemma TakeOut(m: map<string, Doc>, k: string, v: Doc)
    requires k !in m
    ensures m[k := v] - {k} == m
  {
  }

  lemma RemoveField(ms: seq<Member>, k: string)
    ensures Remove(Obj(ms), Str("/" + Encode(k)))
      == Done(0, Obj(if FindKey(ms, k).Some? then Without(ms, FindKey(ms, k).value) else ms))
  {
    TargetMember(ms, k);
  }

  lemma AddField(ms: seq<Member>, k: string, v: Json)
    requires FindKey(ms, k).None?
    ensures PatchAdd(Obj(ms), Str("/" + Encode(k)), v) == Done(0, Obj(ms + [Member(k, v)]))
  {
    TargetMember(ms, k);
  }

  /** A field taken out and put in again at the end. */
  lemma MoveMember(ms: seq<Member>, k: string, v: Json)
    requires DistinctKeys(ms) && FindKey(ms, k).Some?
    ensures var rest := Without(ms, FindKey(ms, k).value);
      FindKey(rest, k).None? && FieldSet(ms, k, v, rest + [Member(k, v)])
  {
    var rest := Without(ms, FindKey(ms, k).value);
    DropMember(ms, k);
    AppendMember(rest, k, v);
    PutBack(Fields(ms), Fold(k), Meaning(v));
  }

  lemma PutBack(m: map<string, Doc>, k: string, v: Doc)
    ensures (m - {k})[k := v] == m[k := v]
  {
  }

  lemma ReplaceField(ms: seq<Member>, k: string, v: Json)
    requires DistinctKeys(ms) && FindKey(ms, k).Some?
    ensures var ns := Without(ms, FindKey(ms, k).value) + [Member(k, v)];
      Replace(Obj(ms), Str("/" + Encode(k)), v) == Done(0, Obj(ns)) && FieldSet(ms, k, v, ns)
  {
    MoveMember(ms, k, v);
    RemoveField(ms, k);
    AddField(Without(ms, FindKey(ms, k).value), k, v);
  }

  /** An edit at or below a field of an object. */
  lemma StepField(ms: seq<Member>, k: string, e: Edit)
    requires DistinctKeys(ms) && FindKey(ms, k).Some? && Good(e) && Step(ms[FindKey(ms, k).value].val, e).Some?
    ensures var r := Step(Obj(ms), e.(path := "/" + Encode(k) + e.path));
      r.Some? && r.value.Obj? && FieldSet(ms, k, Step(ms[FindKey(ms, k).value].val, e).value, r.value.members)
  {
    var i := FindKey(ms, k).value;
    if e.path == "" {
      assert "/" + Encode(k) + "" == "/" + Encode(k);
      Applies(Obj(ms), e.(path := "/" + Encode(k)));
      ReplaceField(ms, k, e.val.value);
    } else {
      LeadsMember(ms, k, i);
      forall x: Json ensures Leads(SetChild(Obj(ms), i, x), "/" + Encode(k), i) {
        FindSet(ms, k, i, x);
        LeadsMember(ms[i := Member(ms[i].key, x)], k, i);
      }
      StepInside(Obj(ms), "/" + Encode(k), i, e);
      SetMember(ms, k, Step(ms[i].val, e).value);
    }
  }

  lemma SetTwiceField(ms: seq<Member>, k: string, x: Json, ns: seq<Member>, y: Json, os: seq<Member>)
    requires FieldSet(ms, k, x, ns) && FieldSet(ns, k, y, os)
    ensures FieldSet(ms, k, y, os)
  {
    assert Fields(ms)[Fold(k) := Meaning(x)][Fold(k) := Meaning(y)] == Fields(ms)[Fold(k) := Meaning(y)];
  }

  lemma SetNoField(ms: seq<Member>, k: string)
    requires DistinctKeys(ms) && FindKey(ms, k).Some?
    ensures FieldSet(ms, k, ms[FindKey(ms, k).value].val, ms)
  {
    FindIs(ms, k);
  }

  /** A run of edits under a field is the run on its value. */
  lemma {:induction false} RunField(ms: seq<Member>, k: string, es: seq<Edit>)
    requires DistinctKeys(ms) && FindKey(ms, k).Some? && (forall e <- es :: Good(e))
    requires Run(ms[FindKey(ms, k).value].val, es).Some?
    ensures var r := Run(Obj(ms), Under("/" + Encode(k), es));
      r.Some? && r.value.Obj? && FieldSet(ms, k, Run(ms[FindKey(ms, k).value].val, es).value, r.value.members)
    decreases |es|
  {
    if es == [] {
      SetNoField(ms, k);
    } else {
      StepField(ms, k, es[0]);
      var c := ms[FindKey(ms, k).value].val;
      var x := Step(c, es[0]).value;
      var ns := Step(Obj(ms), es[0].(path := "/" + Encode(k) + es[0].path)).value.members;
      RunField(ns, k, es[1..]);
      SetTwiceField(ms, k, x, ns, Run(x, es[1..]).value, Run(Obj(ns), Under("/" + Encode(k), es[1..])).value.members);
    }
  }
}
