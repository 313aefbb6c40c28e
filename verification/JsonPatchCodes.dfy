/**
 What the return codes of comparing and of applying a patch say: each is returned exactly when
 what it stands for is the case.
 */
module JsonPatchCodes {
  import opened JsonFractions
  import opened JsonNumbers
  import opened JsonStrings
  import opened JsonText
  import opened JsonKeys
  import opened JsonPointer
  import opened JsonPatch
  import opened JsonPatchLaws

  // ---------- comparing ----------

  /** The first two nodes that differ in kind, value or text give the code. */
  lemma AtomCodes(a: Json, b: Json)
    ensures !SameKind(a, b) ==> Compare(a, b) == -1
    ensures a.Num? && b.Num? && a.exp >= b.exp ==>
      Compare(a, b) == if Scale(a.mant, a.exp - b.exp) == b.mant then 0 else -2
    ensures a.Num? && b.Num? && a.exp < b.exp ==>
      Compare(a, b) == if Scale(b.mant, b.exp - a.exp) == a.mant then 0 else -2
    ensures a.Str? && b.Str? ==> Compare(a, b) == if a.s == b.s then 0 else -3
    ensures a == b && (a.Null? || a.True? || a.False?) ==> Compare(a, b) == 0
  {
    if a.Num? && b.Num? {
      if a.exp >= b.exp {
        SameNumber(a.mant, a.exp, b.mant, b.exp);
      } else {
        SameNumber(b.mant, b.exp, a.mant, a.exp);
      }
    }
  }

  /** In arrays that agree before `i`, the elements at `i` give the code if they differ, and -4 says
      that only one of the two ends there. */
  lemma ArrayCode(a: seq<Json>, b: seq<Json>, i: nat)
    requires i <= |a| && i <= |b| && forall k | 0 <= k < i :: Compare(a[k], b[k]) == 0
    ensures var c := Compare(Arr(a), Arr(b));
      if i == |a| && i == |b| then c == 0
      else if i == |a| || i == |b| then c == -4
      else Compare(a[i], b[i]) != 0 ==> c == Compare(a[i], b[i])
  {
    ItemsCode(Depth(Arr(a)), a, b, i);
  }

  lemma {:induction false} ItemsCode(d: nat, a: seq<Json>, b: seq<Json>, i: nat)
    requires (forall v <- a :: Depth(v) < d) && i <= |a| && i <= |b|
    requires forall k | 0 <= k < i :: Compare(a[k], b[k]) == 0
    ensures var c := CompareItems(d, a, b);
      if i == |a| && i == |b| then c == 0
      else if i == |a| || i == |b| then c == -4
      else Compare(a[i], b[i]) != 0 ==> c == Compare(a[i], b[i])
    decreases i
  {
    if i > 0 {
      assert forall k | 0 <= k < i - 1 :: a[1..][k] == a[k + 1] && b[1..][k] == b[k + 1];
      ItemsCode(d, a[1..], b[1..], i - 1);
    }
  }

  /** In objects whose members, in the order of their names, agree before the one at `i`, -6 says
      that the names there differ, -5 that only one of the two ends there, and otherwise the values
      there give the code if they differ. */
  lemma ObjectCode(a: Json, b: Json, i: nat)
    requires a.Obj? && b.Obj? && i <= |Sorted(a)| && i <= |Sorted(b)|
    requires forall k | 0 <= k < i ::
      CaseCmp(Sorted(a)[k].key, Sorted(b)[k].key) == 0 && Compare(Sorted(a)[k].val, Sorted(b)[k].val) == 0
    ensures MembersDiffer(Sorted(a), Sorted(b), i, Compare(a, b))
  {
    MembersCode(Depth(a), Sorted(a), Sorted(b), i);
  }

  ghost predicate MembersDiffer(a: seq<Member>, b: seq<Member>, i: nat, c: int)
    requires i <= |a| && i <= |b|
  {
    if i == |a| && i == |b| then c == 0
    else if i == |a| || i == |b| then c == -5
    else if CaseCmp(a[i].key, b[i].key) != 0 then c == -6
    else Compare(a[i].val, b[i].val) != 0 ==> c == Compare(a[i].val, b[i].val)
  }

  lemma {:induction false} MembersCode(d: nat, a: seq<Member>, b: seq<Member>, i: nat)
    requires Below(a, d) && i <= |a| && i <= |b|
    requires forall k | 0 <= k < i :: CaseCmp(a[k].key, b[k].key) == 0 && Compare(a[k].val, b[k].val) == 0
    ensures MembersDiffer(a, b, i, CompareMembers(d, a, b))
    decreases i
  {
    if i > 0 {
      assert forall k | 0 <= k < i - 1 :: a[1..][k] == a[k + 1] && b[1..][k] == b[k + 1];
      MembersCode(d, a[1..], b[1..], i - 1);
      DifferLater(a, b, i, CompareMembers(d, a[1..], b[1..]));
    }
  }

  lemma DifferLater(a: seq<Member>, b: seq<Member>, i: nat, c: int)
    requires 0 < i <= |a| && i <= |b| && MembersDiffer(a[1..], b[1..], i - 1, c)
    ensures MembersDiffer(a, b, i, c)
  {
    assert i < |a| ==> a[1..][i - 1] == a[i];
    assert i < |b| ==> b[1..][i - 1] == b[i];
  }

  /** There is no other code. */
  lemma {:induction false} CompareRange(a: Json, b: Json)
    ensures -6 <= Compare(a, b) <= 0
    decreases Depth(a), 1, 0
  {
    if SameKind(a, b) {
      if a.Arr? {
        ItemsRange(Depth(a), a.items, b.items);
      } else if a.Obj? {
        MembersRange(Depth(a), Sorted(a), Sorted(b));
      }
    }
  }

  lemma {:induction false} ItemsRange(d: nat, a: seq<Json>, b: seq<Json>)
    requires forall v <- a :: Depth(v) < d
    ensures -6 <= CompareItems(d, a, b) <= 0
    decreases d, 0, |a|
  {
    if a != [] && b != [] {
      CompareRange(a[0], b[0]);
      ItemsRange(d, a[1..], b[1..]);
    }
  }

  lemma {:induction false} MembersRange(d: nat, a: seq<Member>, b: seq<Member>)
    requires Below(a, d)
    ensures -6 <= CompareMembers(d, a, b) <= 0
    decreases d, 0, |a|
  {
    if a != [] && b != [] {
      CompareRange(a[0].val, b[0].val);
      MembersRange(d, a[1..], b[1..]);
    }
  }

  // ---------- applying ----------

  /** The patch has this operation, and a path. */
  predicate Op(patch: Json, op: string) {
    GetItem(patch, "op") == Some(Str(op)) && GetItem(patch, "path").Some?
  }

  predicate HasCode(doc: Json, patch: Json, code: int) {
    ApplyPatch(doc, patch).Done? && ApplyPatch(doc, patch).code == code
  }

  /** 2 says that the operation or the path is missing, 3 that the operation is none of the six; the
      document stays as it is.  No other patch returns one of them. */
  lemma MalformedCodes(doc: Json, patch: Json)
    ensures HasCode(doc, patch, 2) <==> GetItem(patch, "op").None? || GetItem(patch, "path").None?
    ensures HasCode(doc, patch, 3) <==> Unknown(patch)
    ensures HasCode(doc, patch, 2) || HasCode(doc, patch, 3) ==> ApplyPatch(doc, patch).doc == doc
  {
    if GetItem(patch, "op").Some? && GetItem(patch, "path").Some? && !Unknown(patch) {
      KnownCodes(doc, patch);
    }
  }

  /** The operation is none of the six. */
  predicate Unknown(patch: Json) {
    GetItem(patch, "path").Some?
    && GetItem(patch, "op").Some? && GetItem(patch, "op").value.Str?
    && GetItem(patch, "op").value.s !in ["add", "remove", "replace", "move", "copy", "test"]
  }

  lemma KnownCodes(doc: Json, patch: Json)
    requires GetItem(patch, "op").Some? && GetItem(patch, "path").Some? && !Unknown(patch)
    ensures !HasCode(doc, patch, 2) && !HasCode(doc, patch, 3)
  {
    if Op(patch, "add") {
      AddCodes(doc, patch);
    } else if Op(patch, "replace") {
      ReplaceCodes(doc, patch);
    } else if Op(patch, "move") {
      MoveCodes(doc, patch);
    } else if Op(patch, "copy") {
      CopyCodes(doc, patch);
    } else if Op(patch, "test") {
      TestCodes(doc, patch);
    } else if Op(patch, "remove") {
      RemoveCode(doc, patch);
    } else {
      assert !GetItem(patch, "op").value.Str?;
    }
  }

  /** The path can be cut and its last token decoded, but its first part leads nowhere. */
  predicate NoParent(doc: Json, path: Json) {
    path.Str? && Target(doc, path.s).Some? && Target(doc, path.s).value.0.None?
  }

  /** What the last step of a patch returns. */
  ghost predicate LastStep(r: Applied, doc: Json, path: Json) {
    r.Done? ==> r.code == if NoParent(doc, path) then 9 else 0
  }

  lemma PatchAddCode(doc: Json, path: Json, val: Json)
    ensures LastStep(PatchAdd(doc, path, val), doc, path)
    ensures NoParent(doc, path) ==> PatchAdd(doc, path, val) == Done(9, doc)
  {
  }

  /** An add returns 7 exactly without a value, 9 exactly if there is one and its path has no parent;
      either way the document stays as it is. */
  lemma AddCodes(doc: Json, patch: Json)
    requires Op(patch, "add")
    ensures var r := ApplyPatch(doc, patch);
      if GetItem(patch, "value").None? then r == Done(7, doc)
      else LastStep(r, doc, GetItem(patch, "path").value) && (r.Done? && r.code == 9 ==> r.doc == doc)
  {
    if GetItem(patch, "value").Some? {
      PatchAddCode(doc, GetItem(patch, "path").value, GetItem(patch, "value").value);
    }
  }

  /** A replace removes first: with 7, and with 9, what was there is gone. */
  lemma ReplaceCodes(doc: Json, patch: Json)
    requires Op(patch, "replace")
    ensures var r, first := ApplyPatch(doc, patch), Remove(doc, GetItem(patch, "path").value);
      if first.Crash? then r.Crash?
      else if GetItem(patch, "value").None? then r == Done(7, first.doc)
      else LastStep(r, first.doc, GetItem(patch, "path").value) && (r.Done? && r.code == 9 ==> r.doc == first.doc)
  {
    var first := Remove(doc, GetItem(patch, "path").value);
    if first.Done? && GetItem(patch, "value").Some? {
      PatchAddCode(first.doc, GetItem(patch, "path").value, GetItem(patch, "value").value);
    }
  }

  /** A copy returns 4 exactly without a "from", 5 exactly if that leads nowhere, and otherwise 9
      exactly if its path has no parent; the document stays as it is. */
  lemma CopyCodes(doc: Json, patch: Json)
    requires Op(patch, "copy")
    ensures CopiesFrom(doc, GetItem(patch, "from"), GetItem(patch, "path").value, ApplyPatch(doc, patch))
  {
    var from := GetItem(patch, "from");
    if from.Some? && from.value.Str? && GetPointer(doc, from.value.s).Some? {
      PatchAddCode(doc, GetItem(patch, "path").value, Get(doc, GetPointer(doc, from.value.s).value));
    }
  }

  ghost predicate CopiesFrom(doc: Json, from: Option<Json>, path: Json, r: Applied) {
    if from.None? then r == Done(4, doc)
    else if !from.value.Str? then r.Crash?
    else if GetPointer(doc, from.value.s).None? then r == Done(5, doc)
    else LastStep(r, doc, path) && (r.Done? && r.code == 9 ==> r.doc == doc)
  }

  /** A move returns 4 exactly without a "from", 5 exactly if nothing is found to detach there; then
      the document stays as it is.  With 9, when its path has no parent, what was detached is lost. */
  lemma MoveCodes(doc: Json, patch: Json)
    requires Op(patch, "move")
    ensures MovesFrom(doc, GetItem(patch, "from"), GetItem(patch, "path").value, ApplyPatch(doc, patch))
  {
    var from := GetItem(patch, "from");
    if from.Some? && from.value.Str? && Target(doc, from.value.s).Some? {
      DetachAlways(doc, from.value.s);
      if Present(doc, from.value.s) {
        var d := PatchDetach(doc, from.value.s).value;
        PatchAddCode(d.1, GetItem(patch, "path").value, d.0.value);
      }
    }
  }

  ghost predicate MovesFrom(doc: Json, from: Option<Json>, path: Json, r: Applied) {
    if from.None? then r == Done(4, doc)
    else if !from.value.Str? || Target(doc, from.value.s).None? then r.Crash?
    else if !Present(doc, from.value.s) then r == Done(5, doc)
    else
      var rest := Remove(doc, from.value);
      rest.Done? && rest.doc != doc && LastStep(r, rest.doc, path) && (r.Done? && r.code == 9 ==> r.doc == rest.doc)
  }

  lemma DetachAlways(doc: Json, path: string)
    requires Target(doc, path).Some?
    ensures PatchDetach(doc, path).Some? && (Present(doc, path) <==> PatchDetach(doc, path).value.0.Some?)
    ensures Remove(doc, Str(path)) == Done(0, PatchDetach(doc, path).value.1)
    ensures PatchDetach(doc, path).value.1 == doc <==> !Present(doc, path)
  {
    RemoveAlways(doc, path);
    if Target(doc, path).value.0.Some? {
      DetachChanges(Get(doc, Target(doc, path).value.0.value), Target(doc, path).value.1);
    }
  }

  /** A test returns the code of the comparison, which is none of the others. */
  lemma TestCodes(doc: Json, patch: Json)
    requires Op(patch, "test")
    ensures var r := ApplyPatch(doc, patch); r.Done? ==> -6 <= r.code <= 0
    ensures var path, val := GetItem(patch, "path").value, GetItem(patch, "value");
      path.Str? && val.Some? && GetPointer(doc, path.s).Some? ==>
        HasCode(doc, patch, Compare(Get(doc, GetPointer(doc, path.s).value), val.value))
  {
    Tests(doc, patch);
    var path := GetItem(patch, "path").value;
    if path.Str? && GetPointer(doc, path.s).Some? && GetItem(patch, "value").Some? {
      CompareRange(Get(doc, GetPointer(doc, path.s).value), GetItem(patch, "value").value);
    }
  }

  lemma RemoveCode(doc: Json, patch: Json)
    requires Op(patch, "remove")
    ensures ApplyPatch(doc, patch).Done? ==> ApplyPatch(doc, patch).code == 0
  {
  }

  /** The first code that is not 0 is returned, with the document as it is by then. */
  lemma {:induction false} StopsAt(doc: Json, patches: seq<Json>, n: nat, before: Json, after: Json, code: int)
    requires n < |patches| && ApplyAll(doc, patches[..n]) == Done(0, before)
    requires ApplyPatch(before, patches[n]) == Done(code, after) && code != 0
    ensures ApplyAll(doc, patches) == Done(code, after)
    decreases n
  {
    if n > 0 {
      var next := ApplyPatch(doc, patches[0]).doc;
      assert patches[..n][0] == patches[0] && patches[..n][1..] == patches[1..][..n - 1];
      StopsAt(next, patches[1..], n - 1, before, after, code);
    }
  }

  // ---------- generating ----------

  /** No patch is generated exactly when the comparison finds no difference. */
  lemma {:induction false} NoEdits(path: string, from: Json, to: Json)
    ensures Diff(path, from, to) == [] <==> Compare(from, to) == 0
    decreases Depth(from), 1, 0
  {
    if SameKind(from, to) {
      if from.Arr? {
        NoItemEdits(Depth(from), path, 0, from.items, to.items);
      } else if from.Obj? {
        NoMemberEdits(Depth(from), path, Sorted(from), Sorted(to));
      }
    }
  }

  lemma {:induction false} NoItemEdits(d: nat, path: string, c: nat, from: seq<Json>, to: seq<Json>)
    requires forall v <- from :: Depth(v) < d
    ensures DiffItems(d, path, c, from, to) == [] <==> CompareItems(d, from, to) == 0
    decreases d, 0, |from|
  {
    if from != [] && to != [] {
      NoEdits(path + "/" + Decimal(c), from[0], to[0]);
      NoItemEdits(d, path, c + 1, from[1..], to[1..]);
    }
  }

  lemma {:induction false} NoMemberEdits(d: nat, path: string, from: seq<Member>, to: seq<Member>)
    requires Below(from, d)
    ensures DiffMembers(d, path, from, to) == [] <==> CompareMembers(d, from, to) == 0
    decreases d, 0, |from|
  {
    if from != [] && to != [] && CaseCmp(from[0].key, to[0].key) == 0 {
      NoEdits(path + "/" + Encode(from[0].key), from[0].val, to[0].val);
      NoMemberEdits(d, path, from[1..], to[1..]);
    }
  }

  // ---------- positions ----------

  /** Where the digits of a position end. */
  predicate Stops(sign: string, digits: string, u: string) {
    !Digit(At(u, 0)) && (digits == "" && sign == "" ==> At(u, 0) !in ['+', '-'] && !Space(At(u, 0)))
  }

  /** A position is read as a number behind blanks and a sign: the digits up to the first other
      character, and 0 if there are none. */
  lemma {:induction false} AtoiMeans(blanks: string, sign: string, digits: string, u: string)
    requires (forall c <- blanks :: Space(c)) && sign in ["", "+", "-"] && AllDigits(digits) && Stops(sign, digits, u)
    ensures Atoi(blanks + (sign + (digits + u))) == if sign == "-" then 0 - Val(digits) else Val(digits)
    decreases blanks
  {
    var t := sign + (digits + u);
    if blanks != "" {
      assert (blanks + t)[1..] == blanks[1..] + t && blanks[0] in blanks;
      assert forall c <- blanks[1..] :: c in blanks;
      AtoiMeans(blanks[1..], sign, digits, u);
    } else {
      assert blanks + t == t;
      DigitsRead(digits, u, 0);
      ScaleZero(|digits|);
      DigitsBegin(sign, digits, u);
      if sign == "" {
        assert t == digits + u;
      } else {
        Drop(sign, digits + u);
      }
    }
  }

  lemma DigitsBegin(sign: string, digits: string, u: string)
    requires AllDigits(digits) && Stops(sign, digits, u)
    ensures sign == "" ==> At(digits + u, 0) !in ['+', '-'] && !Space(At(digits + u, 0))
  {
    if digits == "" {
      assert digits + u == u;
    } else {
      assert Digit(digits[0]) && At(digits + u, 0) == digits[0];
    }
  }
}
