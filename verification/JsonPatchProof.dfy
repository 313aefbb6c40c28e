/**
 The round trip of JSON Patch: what applying the patches from one document to another to a copy
 of the first one gives, and when that is the second one.

 The removals for an array that shrinks are generated at increasing positions, and each one
 moves the elements behind it: of those to be removed, every second one stays.
 */
module JsonPatchProof {
  import opened Lists
  import opened JsonStrings
  import opened JsonText
  import opened JsonKeys
  import opened JsonPointer
  import opened JsonPatch
  import opened JsonMeaning
  import opened JsonPatchSteps

  // ---------- the outcome ----------

  /** The elements that survive the removals. */
  function EverySecond<T>(s: seq<T>): (r: seq<T>)
    ensures |r| == |s| / 2
    decreases |s|
  {
    if |s| < 2 then [] else [s[1]] + EverySecond(s[2..])
  }

  /** What the patches from `from` to `to` make of a document that means `from`. */
  function Outcome(from: Json, to: Json): Doc
    decreases Depth(from), 1, 0
  {
    if from.Arr? && to.Arr? then List(OutcomeItems(Depth(from), from.items, to.items))
    else if from.Obj? && to.Obj? then Dict(OutcomeMembers(Depth(from), Sorted(from), Sorted(to)))
    else Meaning(to)
  }

  function OutcomeItems(d: nat, from: seq<Json>, to: seq<Json>): seq<Doc>
    requires forall v <- from :: Depth(v) < d
    decreases d, 0, |from|
  {
    if from == [] then ItemsMeaning(to)
    else if to == [] then ItemsMeaning(EverySecond(from))
    else [Outcome(from[0], to[0])] + OutcomeItems(d, from[1..], to[1..])
  }

  function OutcomeMembers(d: nat, from: seq<Member>, to: seq<Member>): map<string, Doc>
    requires Below(from, d)
    decreases d, 0, |from| + |to|
  {
    if from == [] && to == [] then map[]
    else if MergeOrder(from, to) == 0 then
      OutcomeMembers(d, from[1..], to[1..])[Fold(from[0].key) := Outcome(from[0].val, to[0].val)]
    else if MergeOrder(from, to) < 0 then OutcomeMembers(d, from[1..], to)
    else OutcomeMembers(d, from, to[1..])[Fold(to[0].key) := Meaning(to[0].val)]
  }

  /** Arrays that are matched lose at most one element, all the way down. */
  predicate Gentle(from: Json, to: Json)
    decreases from
  {
    if from.Arr? && to.Arr? then
      |from.items| <= |to.items| + 1
      && forall i | 0 <= i < |from.items| && i < |to.items| :: Gentle(from.items[i], to.items[i])
    else if from.Obj? && to.Obj? then
      forall m <- from.members, n <- to.members :: Fold(m.key) == Fold(n.key) ==> Gentle(m.val, n.val)
    else true
  }

  // ---------- the outcome is the goal exactly for gentle changes ----------

  ghost predicate GentleBy(from: seq<Json>, to: seq<Json>) {
    forall i | 0 <= i < |from| && i < |to| :: Gentle(from[i], to[i])
  }

  lemma GentleByHead(from: seq<Json>, to: seq<Json>)
    requires from != [] && to != []
    ensures GentleBy(from, to) <==> Gentle(from[0], to[0]) && GentleBy(from[1..], to[1..])
  {
    var f, t := from[1..], to[1..];
    assert forall i | 0 <= i < |f| && i < |t| :: f[i] == from[i + 1] && t[i] == to[i + 1];
    assert forall i | 0 < i < |from| && i < |to| :: from[i] == f[i - 1] && to[i] == t[i - 1];
  }

  lemma {:induction false} GentleItems(d: nat, from: seq<Json>, to: seq<Json>)
    requires (forall v <- from :: Depth(v) < d && WellKeyed(v)) && forall v <- to :: WellKeyed(v)
    ensures OutcomeItems(d, from, to) == ItemsMeaning(to) <==> |from| <= |to| + 1 && GentleBy(from, to)
    decreases d, 0, |from|
  {
    if from != [] && to != [] {
      GentleSame(from[0], to[0]);
      GentleItems(d, from[1..], to[1..]);
      GentleByHead(from, to);
      assert OutcomeItems(d, from, to)[1..] == OutcomeItems(d, from[1..], to[1..]);
      assert ItemsMeaning(to)[1..] == ItemsMeaning(to[1..]);
    }
  }

  ghost predicate GentlePairs(from: seq<Member>, to: seq<Member>) {
    forall i, j | 0 <= i < |from| && 0 <= j < |to| ::
      Fold(from[i].key) == Fold(to[j].key) ==> Gentle(from[i].val, to[j].val)
  }

  /** Names of the outcome are names of the goal. */
  lemma {:induction false} OutcomeNames(d: nat, from: seq<Member>, to: seq<Member>)
    requires Below(from, d)
    ensures forall k | k in OutcomeMembers(d, from, to) :: k in Fields(to)
    decreases d, 0, |from| + |to|
  {
    if from == [] && to == [] {
    } else if MergeOrder(from, to) == 0 {
      OutcomeNames(d, from[1..], to[1..]);
      CaseFold(from[0].key, to[0].key);
    } else if MergeOrder(from, to) < 0 {
      OutcomeNames(d, from[1..], to);
    } else {
      OutcomeNames(d, from, to[1..]);
    }
  }

  lemma NoPair(f: Member, from: seq<Member>, to: seq<Member>)
    requires from != [] && from[0] == f && forall j | 0 <= j < |to| :: Fold(to[j].key) != Fold(f.key)
    ensures GentlePairs(from, to) <==> GentlePairs(from[1..], to)
  {
    assert forall i | 0 <= i < |from[1..]| :: from[1..][i] == from[i + 1];
    assert forall i | 0 < i < |from| :: from[i] == from[1..][i - 1];
  }

  lemma NoPairTo(t: Member, from: seq<Member>, to: seq<Member>)
    requires to != [] && to[0] == t && forall i | 0 <= i < |from| :: Fold(from[i].key) != Fold(t.key)
    ensures GentlePairs(from, to) <==> GentlePairs(from, to[1..])
  {
    assert forall i | 0 <= i < |to[1..]| :: to[1..][i] == to[i + 1];
    assert forall i | 0 < i < |to| :: to[i] == to[1..][i - 1];
  }

  /** The keys of a sorted list are not below its first one. */
  lemma Outside(key: string, s: seq<Member>)
    requires Rising(s, KeyOf) && DistinctKeys(s) && (s != [] ==> CaseCmp(key, s[0].key) < 0)
    ensures forall j | 0 <= j < |s| :: Fold(s[j].key) != Fold(key)
  {
    NotBefore(key, s);
    FieldsAre(s);
  }

  lemma OutsideTail(s: seq<Member>)
    requires s != [] && Rising(s, KeyOf) && KeyedMembers(s)
    ensures forall j | 0 <= j < |s[1..]| :: Fold(s[1..][j].key) != Fold(s[0].key)
  {
    TailKeyed(s);
    FieldsAre(s[1..]);
  }

  lemma PairHead(from: seq<Member>, to: seq<Member>)
    requires from != [] && to != [] && Fold(from[0].key) == Fold(to[0].key)
    requires forall j | 0 <= j < |to[1..]| :: Fold(to[1..][j].key) != Fold(to[0].key)
    requires forall j | 0 <= j < |from[1..]| :: Fold(from[1..][j].key) != Fold(from[0].key)
    ensures GentlePairs(from, to) <==> Gentle(from[0].val, to[0].val) && GentlePairs(from[1..], to[1..])
  {
    var f, t := from[1..], to[1..];
    assert forall i | 0 <= i < |f| :: f[i] == from[i + 1];
    assert forall i | 0 <= i < |t| :: t[i] == to[i + 1];
    assert forall i | 0 < i < |from| :: from[i] == f[i - 1];
    assert forall i | 0 < i < |to| :: to[i] == t[i - 1];
  }

  lemma {:induction false} GentleMembers(d: nat, from: seq<Member>, to: seq<Member>)
    requires Below(from, d) && Rising(from, KeyOf) && Rising(to, KeyOf) && KeyedMembers(from) && KeyedMembers(to)
    ensures OutcomeMembers(d, from, to) == Fields(to) <==> GentlePairs(from, to)
    decreases d, 0, |from| + |to|
  {
    if from == [] && to == [] {
    } else if MergeOrder(from, to) == 0 {
      TailKeyed(from);
      TailKeyed(to);
      OutsideTail(from);
      OutsideTail(to);
      CaseFold(from[0].key, to[0].key);
      GentleSame(from[0].val, to[0].val);
      GentleMembers(d, from[1..], to[1..]);
      PairHead(from, to);
      OutcomeNames(d, from[1..], to[1..]);
      Entry(OutcomeMembers(d, from[1..], to[1..]), Fields(to[1..]), Fold(to[0].key), Outcome(from[0].val, to[0].val),
        Meaning(to[0].val));
    } else if MergeOrder(from, to) < 0 {
      TailKeyed(from);
      Outside(from[0].key, to);
      NoPair(from[0], from, to);
      GentleMembers(d, from[1..], to);
    } else {
      TailKeyed(to);
      if from != [] {
        CaseFlip(from[0].key, to[0].key);
      }
      Outside(to[0].key, from);
      NoPairTo(to[0], from, to);
      GentleMembers(d, from, to[1..]);
      OutcomeNames(d, from, to[1..]);
      Entry(OutcomeMembers(d, from, to[1..]), Fields(to[1..]), Fold(to[0].key), Meaning(to[0].val), Meaning(to[0].val));
    }
  }

  lemma PairsOf(from: Json, to: Json)
    requires from.Obj? && to.Obj?
    ensures GentlePairs(Sorted(from), Sorted(to)) <==> Gentle(from, to)
  {
    SortedElements(from);
    SortedElements(to);
    forall m <- from.members, n <- to.members | GentlePairs(Sorted(from), Sorted(to)) && Fold(m.key) == Fold(n.key)
      ensures Gentle(m.val, n.val)
    {
      var i, j :| 0 <= i < |Sorted(from)| && 0 <= j < |Sorted(to)| && Sorted(from)[i] == m && Sorted(to)[j] == n;
    }
  }

  lemma SortedElements(j: Json)
    requires j.Obj?
    ensures forall m :: m in Sorted(j) <==> m in j.members
  {
    forall m ensures m in Sorted(j) <==> m in j.members {
      assert m in Sorted(j) <==> m in multiset(Sorted(j));
      assert m in j.members <==> m in multiset(j.members);
    }
  }

  /** The outcome means the goal exactly when the change is gentle. */
  lemma {:induction false} GentleSame(from: Json, to: Json)
    requires WellKeyed(from) && WellKeyed(to)
    ensures Outcome(from, to) == Meaning(to) <==> Gentle(from, to)
    decreases Depth(from), 1, 0
  {
    if from.Arr? && to.Arr? {
      GentleItems(Depth(from), from.items, to.items);
    } else if from.Obj? && to.Obj? {
      SortedFields(from);
      SortedFields(to);
      GentleMembers(Depth(from), Sorted(from), Sorted(to));
      PairsOf(from, to);
    }
  }

  // ---------- paths ----------

  lemma UnderConcat(t: string, es: seq<Edit>, fs: seq<Edit>)
    ensures Under(t, es + fs) == Under(t, es) + Under(t, fs)
    decreases |es|
  {
    if es == [] {
      assert es + fs == fs;
    } else {
      assert (es + fs)[1..] == es[1..] + fs;
      UnderConcat(t, es[1..], fs);
    }
  }

  lemma {:induction false} UnderTwice(t: string, u: string, es: seq<Edit>)
    ensures Under(t, Under(u, es)) == Under(t + u, es)
    decreases |es|
  {
    if es != [] {
      Group3(t, u, es[0].path);
      UnderTwice(t, u, es[1..]);
    }
  }

  /** The edits for a path are the edits for the root with the path in front. */
  lemma {:induction false} DiffUnder(path: string, from: Json, to: Json)
    ensures Diff(path, from, to) == Under(path, Diff("", from, to))
    decreases Depth(from), 1, 0
  {
    assert path + "" == path;
    if SameKind(from, to) {
      match from
      case Arr(items) => DiffItemsUnder(Depth(from), path, 0, items, to.items);
      case Obj(_) => DiffMembersUnder(Depth(from), path, Sorted(from), Sorted(to));
      case _ =>
    }
  }

  /** One child's edits and the others'. */
  lemma ChildUnder(path: string, token: string, es: seq<Edit>, rest: seq<Edit>)
    ensures Under(path, Under("" + "/" + token, es) + rest) == Under(path + "/" + token, es) + Under(path, rest)
  {
    assert "" + "/" + token == "/" + token;
    UnderConcat(path, Under("/" + token, es), rest);
    UnderTwice(path, "/" + token, es);
    Group3(path, "/", token);
  }

  lemma EditUnder(path: string, token: string, op: string, val: Option<Json>, rest: seq<Edit>)
    ensures Under(path, [Edit(op, "" + "/" + token, val)] + rest)
      == [Edit(op, path + "/" + token, val)] + Under(path, rest)
  {
    AppendPath(token);
    Group3(path, "/", token);
    UnderFirst(path, Edit(op, "/" + token, val), rest);
  }

  lemma UnderFirst(path: string, e: Edit, rest: seq<Edit>)
    ensures Under(path, [e] + rest) == [e.(path := path + e.path)] + Under(path, rest)
  {
    assert ([e] + rest)[1..] == rest;
  }

  lemma {:induction false} DiffItemsUnder(d: nat, path: string, c: nat, from: seq<Json>, to: seq<Json>)
    requires forall v <- from :: Depth(v) < d
    ensures DiffItems(d, path, c, from, to) == Under(path, DiffItems(d, "", c, from, to))
    decreases d, 0, |from| + |to|
  {
    if from != [] && to != [] {
      DiffUnder(path + "/" + Decimal(c), from[0], to[0]);
      DiffUnder("" + "/" + Decimal(c), from[0], to[0]);
      DiffItemsUnder(d, path, c + 1, from[1..], to[1..]);
      ChildUnder(path, Decimal(c), Diff("", from[0], to[0]), DiffItems(d, "", c + 1, from[1..], to[1..]));
    } else if from != [] {
      DiffItemsUnder(d, path, c + 1, from[1..], to);
      EditUnder(path, Encode(Decimal(c)), "remove", None, DiffItems(d, "", c + 1, from[1..], to));
    } else if to != [] {
      DiffItemsUnder(d, path, c + 1, from, to[1..]);
      EditUnder(path, Encode("-"), "add", Some(to[0]), DiffItems(d, "", c + 1, from, to[1..]));
    }
  }

  lemma {:induction false} DiffMembersUnder(d: nat, path: string, from: seq<Member>, to: seq<Member>)
    requires Below(from, d)
    ensures DiffMembers(d, path, from, to) == Under(path, DiffMembers(d, "", from, to))
    decreases d, 0, |from| + |to|
  {
    if from == [] && to == [] {
    } else if MergeOrder(from, to) == 0 {
      var token := Encode(from[0].key);
      DiffUnder(path + "/" + token, from[0].val, to[0].val);
      DiffUnder("" + "/" + token, from[0].val, to[0].val);
      DiffMembersUnder(d, path, from[1..], to[1..]);
      ChildUnder(path, token, Diff("", from[0].val, to[0].val), DiffMembers(d, "", from[1..], to[1..]));
    } else if MergeOrder(from, to) < 0 {
      DiffMembersUnder(d, path, from[1..], to);
      EditUnder(path, Encode(from[0].key), "remove", None, DiffMembers(d, "", from[1..], to));
    } else {
      DiffMembersUnder(d, path, from, to[1..]);
      EditUnder(path, Encode(to[0].key), "add", Some(to[0].val), DiffMembers(d, "", from, to[1..]));
    }
  }

  /** Edits below the root. */
  ghost predicate Inner(es: seq<Edit>) {
    forall e <- es :: Good(e) && e.path != ""
  }

  ghost predicate AllGood(es: seq<Edit>) {
    forall e <- es :: Good(e)
  }

  lemma {:induction false} UnderGood(token: string, es: seq<Edit>)
    requires AllGood(es)
    ensures Inner(Under("/" + token, es))
    decreases |es|
  {
    if es != [] {
      assert AllGood(es[1..]) && Good(es[0]);
      UnderGood(token, es[1..]);
      assert ("/" + token + es[0].path)[0] == '/';
    }
  }

  lemma {:induction false} DiffGood(from: Json, to: Json)
    ensures AllGood(Diff("", from, to))
    ensures SameKind(from, to) && (from.Arr? || from.Obj?) ==> Inner(Diff("", from, to))
    decreases Depth(from), 1, 0
  {
    if SameKind(from, to) {
      match from
      case Arr(items) => DiffItemsGood(Depth(from), 0, items, to.items);
      case Obj(_) => DiffMembersGood(Depth(from), Sorted(from), Sorted(to));
      case _ =>
    }
  }

  lemma {:induction false} DiffItemsGood(d: nat, c: nat, from: seq<Json>, to: seq<Json>)
    requires forall v <- from :: Depth(v) < d
    ensures Inner(DiffItems(d, "", c, from, to))
    decreases d, 0, |from| + |to|
  {
    if from != [] && to != [] {
      DiffGood(from[0], to[0]);
      DiffItemsGood(d, c + 1, from[1..], to[1..]);
      ChildGood(Decimal(c), from[0], to[0], DiffItems(d, "", c + 1, from[1..], to[1..]));
    } else if from != [] {
      DiffItemsGood(d, c + 1, from[1..], to);
      FirstGood(Edit("remove", "" + "/" + Encode(Decimal(c)), None), DiffItems(d, "", c + 1, from[1..], to));
    } else if to != [] {
      DiffItemsGood(d, c + 1, from, to[1..]);
      FirstGood(Edit("add", "" + "/" + Encode("-"), Some(to[0])), DiffItems(d, "", c + 1, from, to[1..]));
    }
  }

  /** The edits of one child, and those of the others. */
  lemma ChildGood(token: string, a: Json, b: Json, more: seq<Edit>)
    requires AllGood(Diff("", a, b)) && Inner(more)
    ensures Inner(Diff("" + "/" + token, a, b) + more)
  {
    DiffUnder("" + "/" + token, a, b);
    assert "" + "/" + token == "/" + token;
    UnderGood(token, Diff("", a, b));
  }

  lemma FirstGood(e: Edit, more: seq<Edit>)
    requires Good(e) && e.path != "" && Inner(more)
    ensures Inner([e] + more)
  {
  }

  lemma {:induction false} DiffMembersGood(d: nat, from: seq<Member>, to: seq<Member>)
    requires Below(from, d)
    ensures Inner(DiffMembers(d, "", from, to))
    decreases d, 0, |from| + |to|
  {
    if from == [] && to == [] {
    } else if MergeOrder(from, to) == 0 {
      DiffGood(from[0].val, to[0].val);
      DiffMembersGood(d, from[1..], to[1..]);
      ChildGood(Encode(from[0].key), from[0].val, to[0].val, DiffMembers(d, "", from[1..], to[1..]));
    } else if MergeOrder(from, to) < 0 {
      DiffMembersGood(d, from[1..], to);
      FirstGood(Edit("remove", "" + "/" + Encode(from[0].key), None), DiffMembers(d, "", from[1..], to));
    } else {
      DiffMembersGood(d, from, to[1..]);
      FirstGood(Edit("add", "" + "/" + Encode(to[0].key), Some(to[0].val)), DiffMembers(d, "", from, to[1..]));
    }
  }

  // ---------- arrays ----------

  lemma StepRemoveItem(items: seq<Json>, c: nat)
    ensures Step(Arr(items), Edit("remove", "" + "/" + Encode(Decimal(c)), None))
      == Some(Arr(if c < |items| then Without(items, c) else items))
  {
    DecimalCode(c);
    AppendPath(Decimal(c));
    RemoveItem(items, c);
    StepRemoves(Arr(items), "/" + Decimal(c));
  }

  lemma AppendItem(items: seq<Json>, v: Json)
    ensures PatchAdd(Arr(items), Str("/" + "-"), v) == Done(0, Arr(items + [v]))
  {
    PlainCode("-");
    TargetToken(Arr(items), "-");
  }

  /** The token "-" appends. */
  lemma StepAddItem(items: seq<Json>, v: Json)
    ensures Step(Arr(items), Edit("add", "" + "/" + Encode("-"), Some(v))) == Some(Arr(items + [v]))
  {
    PlainCode("-");
    AppendPath("-");
    AppendItem(items, v);
    StepAdds(Arr(items), "/" + "-", v);
  }

  lemma StepAdds(j: Json, path: string, v: Json)
    requires TokenEnd(path) && path != "" && PatchAdd(j, Str(path), v).Done? && PatchAdd(j, Str(path), v).code == 0
    ensures Step(j, Edit("add", path, Some(v))) == Some(PatchAdd(j, Str(path), v).doc)
  {
    Applies(j, Edit("add", path, Some(v)));
  }

  lemma AppendPath(s: string)
    ensures "" + "/" + s == "/" + s
  {
  }

  lemma TargetToken(j: Json, k: string)
    requires Encode(k) == k
    ensures Target(j, "/" + k) == Some((Some([]), k))
  {
    EncodeDecode(k);
    SplitToken(k);
  }

  /** Removing at `c`, `c + 1` and so on takes away every other element from `c` on. */
  lemma {:induction false} RunRemovals(d: nat, c: nat, from: seq<Json>, p: seq<Json>, q: seq<Json>)
    requires (forall v <- from :: Depth(v) < d) && |q| <= 2 * |from| && (|p| == c || (q == [] && |p| <= c))
    ensures Run(Arr(p + q), DiffItems(d, "", c, from, [])) == Some(Arr(p + EverySecond(q)))
    decreases |from|
  {
    if from == [] {
      assert p + q == p && p + EverySecond(q) == p;
    } else {
      var more := DiffItems(d, "", c + 1, from[1..], []);
      RunRemoval(p + q, c, more);
      var (p', q') := Removal(p, q);
      NextRemoval(c, p, q);
      RunRemovals(d, c + 1, from[1..], p', q');
    }
  }

  /** One removal after `p`: the first element of `q` goes, the second one is passed over. */
  function Removal<T>(p: seq<T>, q: seq<T>): (seq<T>, seq<T>) {
    if |q| >= 2 then (p + [q[1]], q[2..]) else (p, [])
  }

  lemma NextRemoval<T>(c: nat, p: seq<T>, q: seq<T>)
    requires |p| == c || (q == [] && |p| <= c)
    ensures var (p', q') := Removal(p, q);
      (if c < |p + q| then Without(p + q, c) else p + q) == p' + q' && p' + EverySecond(q') == p + EverySecond(q)
  {
    if |q| >= 2 {
      TakeOne(p, q);
    } else {
      TakeLast(p, q);
    }
  }

  lemma RunRemoval(items: seq<Json>, c: nat, more: seq<Edit>)
    ensures Run(Arr(items), [Edit("remove", "" + "/" + Encode(Decimal(c)), None)] + more)
      == Run(Arr(if c < |items| then Without(items, c) else items), more)
  {
    StepRemoveItem(items, c);
    RunCons(Arr(items), Edit("remove", "" + "/" + Encode(Decimal(c)), None), more,
      Arr(if c < |items| then Without(items, c) else items));
  }

  lemma TakeOne<T>(p: seq<T>, q: seq<T>)
    requires |q| >= 2
    ensures Without(p + q, |p|) == (p + [q[1]]) + q[2..]
    ensures (p + [q[1]]) + EverySecond(q[2..]) == p + EverySecond(q)
  {
    TwoFirst(q);
    WithoutAt(p, q[0], [q[1]] + q[2..]);
    Append3(p, [q[1]], q[2..]);
    Append3(p, [q[1]], EverySecond(q[2..]));
  }

  lemma TwoFirst<T>(q: seq<T>)
    requires |q| >= 2
    ensures q == [q[0]] + ([q[1]] + q[2..])
  {
  }

  lemma WithoutAt<T>(p: seq<T>, x: T, r: seq<T>)
    ensures Without(p + ([x] + r), |p|) == p + r
  {
  }

  lemma Append3<T>(a: seq<T>, b: seq<T>, c: seq<T>)
    ensures (a + b) + c == a + (b + c)
  {
  }

  lemma TakeLast<T>(p: seq<T>, q: seq<T>)
    requires |q| < 2
    ensures (if q == [] then p + q else Without(p + q, |p|)) == p + []
    ensures p + EverySecond(q) == p + EverySecond([])
  {
  }

  lemma RunAddition(d: nat, c: nat, to: seq<Json>, p: seq<Json>)
    requires to != []
    ensures Run(Arr(p), DiffItems(d, "", c, [], to)) == Run(Arr(p + [to[0]]), DiffItems(d, "", c + 1, [], to[1..]))
  {
    StepAddItem(p, to[0]);
    RunCons(Arr(p), Edit("add", "" + "/" + Encode("-"), Some(to[0])), DiffItems(d, "", c + 1, [], to[1..]),
      Arr(p + [to[0]]));
  }

  lemma Shift(p: seq<Json>, to: seq<Json>)
    requires to != []
    ensures (p + [to[0]]) + to[1..] == p + to
  {
  }

  lemma {:induction false} RunAdditions(d: nat, c: nat, to: seq<Json>, p: seq<Json>)
    ensures Run(Arr(p), DiffItems(d, "", c, [], to)) == Some(Arr(p + to))
    decreases |to|
  {
    if to == [] {
      assert p + to == p;
    } else {
      RunAddition(d, c, to, p);
      RunAdditions(d, c + 1, to[1..], p + [to[0]]);
      Shift(p, to);
    }
  }

  lemma {:induction false} SecondMeaning(s: seq<Json>, t: seq<Json>)
    requires ItemsMeaning(s) == ItemsMeaning(t)
    ensures ItemsMeaning(EverySecond(s)) == ItemsMeaning(EverySecond(t)) && forall v <- EverySecond(s) :: v in s
    decreases |s|
  {
    assert |s| == |ItemsMeaning(s)| == |ItemsMeaning(t)| == |t|;
    if |s| >= 2 {
      MeaningTail(s);
      MeaningTail(t);
      MeaningTail(s[1..]);
      MeaningTail(t[1..]);
      assert s[1..][1..] == s[2..] && t[1..][1..] == t[2..];
      SecondMeaning(s[2..], t[2..]);
      assert Meaning(s[1]) == ItemsMeaning(s)[1] == ItemsMeaning(t)[1] == Meaning(t[1]);
    }
  }

  lemma MeaningTail(s: seq<Json>)
    requires s != []
    ensures ItemsMeaning(s)[1..] == ItemsMeaning(s[1..]) && ItemsMeaning(s)[0] == Meaning(s[0])
  {
  }

  lemma ItemPlace(p: seq<Json>, q: seq<Json>, x: Json, r: seq<Json>)
    requires q != []
    ensures (p + q)[|p|] == q[0] && (p + q)[|p| := x] == (p + [x]) + q[1..] && (p + [x]) + r == p + ([x] + r)
  {
  }

  /** One element of both arrays. */
  lemma RunPair(d: nat, c: nat, from: seq<Json>, to: seq<Json>, p: seq<Json>, q: seq<Json>)
    requires from != [] && to != [] && q != [] && |p| == c && forall v <- from :: Depth(v) < d
    requires Run(q[0], Diff("", from[0], to[0])).Some?
    ensures Run(Arr(p + q), DiffItems(d, "", c, from, to))
      == Run(Arr((p + [Run(q[0], Diff("", from[0], to[0])).value]) + q[1..]),
        DiffItems(d, "", c + 1, from[1..], to[1..]))
  {
    var es := Diff("", from[0], to[0]);
    AppendPath(Decimal(c));
    DiffUnder("/" + Decimal(c), from[0], to[0]);
    DiffGood(from[0], to[0]);
    var x := Run(q[0], es).value;
    ItemPlace(p, q, x, []);
    RunItem(p + q, c, es);
    RunConcat(Arr(p + q), Under("/" + Decimal(c), es), DiffItems(d, "", c + 1, from[1..], to[1..]));
  }

  lemma {:induction false} RunItems(d: nat, c: nat, from: seq<Json>, to: seq<Json>, p: seq<Json>, q: seq<Json>)
    returns (r: seq<Json>)
    requires |p| == c && (forall v <- from :: Depth(v) < d && WellKeyed(v))
    requires (forall v <- to :: WellKeyed(v)) && (forall v <- q :: WellKeyed(v))
    requires ItemsMeaning(q) == ItemsMeaning(from)
    ensures Run(Arr(p + q), DiffItems(d, "", c, from, to)) == Some(Arr(p + r))
    ensures (forall v <- r :: WellKeyed(v)) && ItemsMeaning(r) == OutcomeItems(d, from, to)
    decreases d, 0, |from|
  {
    assert |q| == |ItemsMeaning(q)| == |from|;
    if from == [] {
      RunAdditions(d, c, to, p);
      assert p + q == p;
      r := to;
    } else if to == [] {
      RunRemovals(d, c, from, p, q);
      SecondMeaning(q, from);
      r := EverySecond(q);
    } else {
      MeaningTail(q);
      MeaningTail(from);
      var x := DiffRuns(from[0], to[0], q[0]);
      RunPair(d, c, from, to, p, q);
      var more := RunItems(d, c + 1, from[1..], to[1..], p + [x], q[1..]);
      r := [x] + more;
      ItemPlace(p, q, x, more);
    }
  }

  // ---------- objects ----------

  lemma MergeSet(m: map<string, Doc>, k: string, v: Doc, o: map<string, Doc>)
    requires k !in o
    ensures m[k := v] + o == m + o[k := v]
  {
  }

  /** Halfway through the merge: the fields still to be matched are there, the ones still to be added are not. */
  ghost predicate Ready(from: seq<Member>, to: seq<Member>, ms: seq<Member>) {
    KeyedMembers(ms) && ReadyMaps(Fields(from), Fields(to), Fields(ms))
  }

  ghost predicate ReadyMaps(f: map<string, Doc>, t: map<string, Doc>, m: map<string, Doc>) {
    (forall k | k in f :: k in m && m[k] == f[k]) && forall k | k in t && k in m :: k in f
  }

  /** The fields after the merge. */
  ghost function After(d: nat, from: seq<Member>, to: seq<Member>, ms: seq<Member>): map<string, Doc>
    requires Below(from, d)
  {
    (Fields(ms) - Fields(from).Keys) + OutcomeMembers(d, from, to)
  }

  lemma KeptKeyed(ms: seq<Member>, k: string, x: Json, ns: seq<Member>)
    requires KeyedMembers(ms) && FieldSet(ms, k, x, ns) && WellKeyed(x)
    ensures KeyedMembers(ns)
  {
    FindIs(ns, k);
    forall m | m in ns ensures WellKeyed(m.val) {
      if Fold(m.key) == Fold(k) {
        var j :| 0 <= j < |ns| && ns[j] == m;
        assert FindKey(ns, k) == Some(j);
      } else {
        assert m in ms;
      }
    }
  }

  lemma RunMatched(d: nat, from: seq<Member>, to: seq<Member>, ms: seq<Member>, x: Json) returns (ns: seq<Member>)
    requires from != [] && to != [] && MergeOrder(from, to) == 0 && Below(from, d)
    requires KeyedMembers(ms) && FindKey(ms, from[0].key).Some? && WellKeyed(x)
    requires Run(ms[FindKey(ms, from[0].key).value].val, Diff("", from[0].val, to[0].val)) == Some(x)
    ensures KeyedMembers(ns) && Fields(ns) == Fields(ms)[Fold(from[0].key) := Meaning(x)]
    ensures Run(Obj(ms), DiffMembers(d, "", from, to)) == Run(Obj(ns), DiffMembers(d, "", from[1..], to[1..]))
  {
    var k, es := from[0].key, Diff("", from[0].val, to[0].val);
    AppendPath(Encode(k));
    DiffUnder("/" + Encode(k), from[0].val, to[0].val);
    DiffGood(from[0].val, to[0].val);
    RunField(ms, k, es);
    ns := Run(Obj(ms), Under("/" + Encode(k), es)).value.members;
    KeptKeyed(ms, k, x, ns);
    RunConcat(Obj(ms), Under("/" + Encode(k), es), DiffMembers(d, "", from[1..], to[1..]));
  }

  lemma RunDropped(d: nat, from: seq<Member>, to: seq<Member>, ms: seq<Member>) returns (ns: seq<Member>)
    requires from != [] && MergeOrder(from, to) < 0 && Below(from, d)
    requires KeyedMembers(ms) && FindKey(ms, from[0].key).Some?
    ensures KeyedMembers(ns) && Fields(ns) == Fields(ms) - {Fold(from[0].key)}
    ensures Run(Obj(ms), DiffMembers(d, "", from, to)) == Run(Obj(ns), DiffMembers(d, "", from[1..], to))
  {
    var k := from[0].key;
    ns := Without(ms, FindKey(ms, k).value);
    AppendPath(Encode(k));
    DropMember(ms, k);
    RemoveField(ms, k);
    StepRemoves(Obj(ms), "/" + Encode(k));
    RunCons(Obj(ms), Edit("remove", "/" + Encode(k), None), DiffMembers(d, "", from[1..], to), Obj(ns));
  }

  lemma StepRemoves(j: Json, path: string)
    requires TokenEnd(path) && path != "" && Remove(j, Str(path)).Done?
    ensures Step(j, Edit("remove", path, None)) == Some(Remove(j, Str(path)).doc)
  {
    Applies(j, Edit("remove", path, None));
  }

  lemma RunAdded(d: nat, from: seq<Member>, to: seq<Member>, ms: seq<Member>) returns (ns: seq<Member>)
    requires to != [] && MergeOrder(from, to) > 0 && Below(from, d)
    requires KeyedMembers(ms) && FindKey(ms, to[0].key).None? && WellKeyed(to[0].val)
    ensures KeyedMembers(ns) && Fields(ns) == Fields(ms)[Fold(to[0].key) := Meaning(to[0].val)]
    ensures Run(Obj(ms), DiffMembers(d, "", from, to)) == Run(Obj(ns), DiffMembers(d, "", from, to[1..]))
  {
    var k, v := to[0].key, to[0].val;
    ns := ms + [Member(k, v)];
    AppendPath(Encode(k));
    AppendMember(ms, k, v);
    KeptKeyed(ms, k, v, ns);
    AddField(ms, k, v);
    StepAdds(Obj(ms), "/" + Encode(k), v);
    RunCons(Obj(ms), Edit("add", "/" + Encode(k), Some(v)), DiffMembers(d, "", from, to[1..]), Obj(ns));
  }

  lemma FindReady(from: seq<Member>, to: seq<Member>, ms: seq<Member>)
    requires Ready(from, to, ms) && KeyedMembers(from) && from != []
    ensures FindKey(ms, from[0].key).Some?
    ensures Meaning(ms[FindKey(ms, from[0].key).value].val) == Meaning(from[0].val)
    ensures WellKeyed(ms[FindKey(ms, from[0].key).value].val)
  {
    FieldsAre(from);
    FindIs(ms, from[0].key);
  }

  lemma {:induction false} RunMembers(d: nat, from: seq<Member>, to: seq<Member>, ms: seq<Member>)
    returns (ns: seq<Member>)
    requires Below(from, d) && Rising(from, KeyOf) && Rising(to, KeyOf) && KeyedMembers(from) && KeyedMembers(to)
    requires Ready(from, to, ms)
    ensures Run(Obj(ms), DiffMembers(d, "", from, to)) == Some(Obj(ns)) && KeyedMembers(ns)
    ensures Fields(ns) == After(d, from, to, ms)
    decreases d, 0, |from| + |to|
  {
    if from == [] && to == [] {
      ns := ms;
      assert Fields(ms) - Fields(from).Keys == Fields(ms);
    } else if MergeOrder(from, to) == 0 {
      TailKeyed(from);
      TailKeyed(to);
      FindReady(from, to, ms);
      var x := DiffRuns(from[0].val, to[0].val, ms[FindKey(ms, from[0].key).value].val);
      var mid := RunMatched(d, from, to, ms, x);
      MatchedReady(d, from, to, ms, mid, x);
      ns := RunMembers(d, from[1..], to[1..], mid);
    } else if MergeOrder(from, to) < 0 {
      TailKeyed(from);
      FindReady(from, to, ms);
      var mid := RunDropped(d, from, to, ms);
      DroppedReady(d, from, to, ms, mid);
      ns := RunMembers(d, from[1..], to, mid);
    } else {
      TailKeyed(to);
      AddedFresh(from, to, ms);
      var mid := RunAdded(d, from, to, ms);
      AddedReady(d, from, to, ms, mid);
      ns := RunMembers(d, from, to[1..], mid);
    }
  }

  lemma MapMatched(m: map<string, Doc>, f: map<string, Doc>, t: map<string, Doc>, o: map<string, Doc>, k: string,
      u: Doc, v: Doc, w: Doc)
    requires k !in f && k !in t && k !in o && ReadyMaps(f[k := u], t[k := w], m)
    ensures ReadyMaps(f, t, m[k := v])
    ensures (m[k := v] - f.Keys) + o == (m - f[k := u].Keys) + o[k := v]
  {
    assert m[k := v] - f.Keys == (m - f[k := u].Keys)[k := v];
    MergeSet(m - f[k := u].Keys, k, v, o);
  }

  lemma MapDropped(m: map<string, Doc>, f: map<string, Doc>, t: map<string, Doc>, k: string, u: Doc)
    requires k !in f && ReadyMaps(f[k := u], t, m)
    ensures ReadyMaps(f, t, m - {k}) && (m - {k}) - f.Keys == m - f[k := u].Keys
  {
  }

  lemma MapAdded(m: map<string, Doc>, f: map<string, Doc>, t: map<string, Doc>, o: map<string, Doc>, k: string, v: Doc)
    requires k !in f && k !in t && k !in m && k !in o && ReadyMaps(f, t[k := v], m)
    ensures ReadyMaps(f, t, m[k := v])
    ensures (m[k := v] - f.Keys) + o == (m - f.Keys) + o[k := v]
  {
    assert m[k := v] - f.Keys == (m - f.Keys)[k := v];
    MergeSet(m - f.Keys, k, v, o);
  }

  lemma MatchedReady(d: nat, from: seq<Member>, to: seq<Member>, ms: seq<Member>, ns: seq<Member>, x: Json)
    requires from != [] && to != [] && MergeOrder(from, to) == 0 && Below(from, d) && Ready(from, to, ms)
    requires Rising(from, KeyOf) && Rising(to, KeyOf) && KeyedMembers(from) && KeyedMembers(to)
    requires KeyedMembers(ns) && Fields(ns) == Fields(ms)[Fold(from[0].key) := Meaning(x)]
    requires Meaning(x) == Outcome(from[0].val, to[0].val)
    ensures Ready(from[1..], to[1..], ns) && After(d, from[1..], to[1..], ns) == After(d, from, to, ms)
  {
    TailKeyed(from);
    TailKeyed(to);
    CaseFold(from[0].key, to[0].key);
    OutcomeNames(d, from[1..], to[1..]);
    MapMatched(Fields(ms), Fields(from[1..]), Fields(to[1..]), OutcomeMembers(d, from[1..], to[1..]), Fold(from[0].key),
      Meaning(from[0].val), Meaning(x), Meaning(to[0].val));
  }

  lemma DroppedReady(d: nat, from: seq<Member>, to: seq<Member>, ms: seq<Member>, ns: seq<Member>)
    requires from != [] && MergeOrder(from, to) < 0 && Below(from, d) && Ready(from, to, ms)
    requires Rising(from, KeyOf) && Rising(to, KeyOf) && KeyedMembers(from) && KeyedMembers(to)
    requires KeyedMembers(ns) && Fields(ns) == Fields(ms) - {Fold(from[0].key)}
    ensures Ready(from[1..], to, ns) && After(d, from[1..], to, ns) == After(d, from, to, ms)
  {
    TailKeyed(from);
    MapDropped(Fields(ms), Fields(from[1..]), Fields(to), Fold(from[0].key), Meaning(from[0].val));
  }

  lemma AddedFresh(from: seq<Member>, to: seq<Member>, ms: seq<Member>)
    requires to != [] && MergeOrder(from, to) > 0 && Ready(from, to, ms)
    requires Rising(from, KeyOf) && KeyedMembers(from)
    ensures Fold(to[0].key) !in Fields(from) && Fold(to[0].key) !in Fields(ms) && FindKey(ms, to[0].key).None?
  {
    if from != [] {
      CaseFlip(from[0].key, to[0].key);
    }
    NotBefore(to[0].key, from);
    FindIs(ms, to[0].key);
    assert Fold(to[0].key) in Fields(to);
  }

  lemma AddedReady(d: nat, from: seq<Member>, to: seq<Member>, ms: seq<Member>, ns: seq<Member>)
    requires to != [] && MergeOrder(from, to) > 0 && Below(from, d) && Ready(from, to, ms)
    requires Rising(from, KeyOf) && Rising(to, KeyOf) && KeyedMembers(from) && KeyedMembers(to)
    requires KeyedMembers(ns) && Fields(ns) == Fields(ms)[Fold(to[0].key) := Meaning(to[0].val)]
    requires Fold(to[0].key) !in Fields(from) && Fold(to[0].key) !in Fields(ms)
    ensures Ready(from, to[1..], ns) && After(d, from, to[1..], ns) == After(d, from, to, ms)
  {
    TailKeyed(to);
    OutcomeNames(d, from, to[1..]);
    MapAdded(Fields(ms), Fields(from), Fields(to[1..]), OutcomeMembers(d, from, to[1..]), Fold(to[0].key),
      Meaning(to[0].val));
  }

  lemma ObjectDone(from: Json, to: Json, ms: seq<Member>, ns: seq<Member>)
    requires from.Obj? && to.Obj? && KeyedMembers(from.members) && Fields(ms) == Fields(from.members)
    requires Fields(ns) == After(Depth(from), Sorted(from), Sorted(to), ms)
    ensures Meaning(Obj(ns)) == Outcome(from, to)
  {
    SortedFields(from);
    assert Fields(ms) - Fields(Sorted(from)).Keys == map[];
    var o := OutcomeMembers(Depth(from), Sorted(from), Sorted(to));
    assert map[] + o == o;
  }

  /** Trees that are replaced as a whole or left alone. */
  lemma ScalarRuns(from: Json, to: Json, j: Json) returns (x: Json)
    requires !(from.Arr? && to.Arr?) && !(from.Obj? && to.Obj?) && WellKeyed(to) && Meaning(j) == Meaning(from)
    ensures Run(j, Diff("", from, to)) == Some(x) && WellKeyed(x) && Meaning(x) == Outcome(from, to)
  {
    if Diff("", from, to) == [] {
      x := j;
    } else {
      x := to;
    }
  }

  /** The edits from one tree to another, run on any tree that means the first. */
  lemma {:induction false} DiffRuns(from: Json, to: Json, j: Json) returns (x: Json)
    requires WellKeyed(from) && WellKeyed(to) && WellKeyed(j) && Meaning(j) == Meaning(from)
    ensures Run(j, Diff("", from, to)) == Some(x) && WellKeyed(x) && Meaning(x) == Outcome(from, to)
    decreases Depth(from), 1, 0
  {
    if from.Arr? && to.Arr? {
      var r := RunItems(Depth(from), 0, from.items, to.items, [], j.items);
      x := Arr(r);
      ArrayDone(from, to, j, r);
    } else if from.Obj? && to.Obj? {
      x := ObjectRuns(from, to, j);
    } else {
      x := ScalarRuns(from, to, j);
    }
  }

  lemma ArrayDone(from: Json, to: Json, j: Json, r: seq<Json>)
    requires from.Arr? && to.Arr? && j.Arr? && ItemsMeaning(r) == OutcomeItems(Depth(from), from.items, to.items)
    requires Run(Arr([] + j.items), DiffItems(Depth(from), "", 0, from.items, to.items)) == Some(Arr([] + r))
    ensures Run(j, Diff("", from, to)) == Some(Arr(r)) && Meaning(Arr(r)) == Outcome(from, to)
  {
    assert [] + j.items == j.items && [] + r == r;
  }

  lemma {:induction false} ObjectRuns(from: Json, to: Json, j: Json) returns (x: Json)
    requires from.Obj? && to.Obj? && WellKeyed(from) && WellKeyed(to) && WellKeyed(j) && Meaning(j) == Meaning(from)
    ensures Run(j, Diff("", from, to)) == Some(x) && WellKeyed(x) && Meaning(x) == Outcome(from, to)
    decreases Depth(from), 0, |Sorted(from)| + |Sorted(to)| + 1
  {
    SortedFields(from);
    SortedFields(to);
    var ns := RunMembers(Depth(from), Sorted(from), Sorted(to), j.members);
    ObjectDone(from, to, j.members, ns);
    x := Obj(ns);
  }

  // ---------- the round trip ----------

  lemma {:induction false} ApplyRun(doc: Json, es: seq<Edit>)
    requires Inner(es) && Run(doc, es).Some?
    ensures ApplyAll(doc, PatchList(es)) == Done(0, Run(doc, es).value)
    decreases |es|
  {
    if es != [] {
      assert es[0].path != "" && Inner(es[1..]);
      ApplyRun(Step(doc, es[0]).value, es[1..]);
      assert PatchList(es)[1..] == PatchList(es[1..]);
    }
  }

  /** The whole document would have to be replaced. */
  predicate RootReplaced(from: Json, to: Json) {
    !SameKind(from, to) || (!from.Arr? && !from.Obj? && Meaning(from) != Meaning(to))
  }

  lemma RootCrash(from: Json, to: Json, doc: Json)
    requires RootReplaced(from, to)
    ensures ApplyAll(doc, Patches(from, to)).Crash?
  {
    var e := Edit("replace", "", Some(to));
    assert Diff("", from, to) == [e];
    Applies(doc, e);
    assert PatchList([e]) == [Patch(e)];
  }

  /** Applying the patches from one document to another to a copy of the first: a patch of the
      whole document has no parent to look for and crashes the interpreter; otherwise every
      patch returns 0, and the result compares equal to the second document exactly when no
      matched array loses more than one element. */
  lemma PatchRoundTrip(from: Json, to: Json, doc: Json) returns (result: Json)
    requires WellKeyed(from) && WellKeyed(to) && WellKeyed(doc) && Meaning(doc) == Meaning(from)
    ensures ApplyAll(doc, Patches(from, to)) == if RootReplaced(from, to) then Crash else Done(0, result)
    ensures !RootReplaced(from, to) ==> (Compare(result, to) == 0 <==> Gentle(from, to))
    ensures !RootReplaced(from, to) ==> Meaning(result) == Outcome(from, to)
  {
    if RootReplaced(from, to) {
      RootCrash(from, to, doc);
      result := doc;
    } else {
      result := DiffRuns(from, to, doc);
      DiffGood(from, to);
      ApplyRun(doc, Diff("", from, to));
      GentleSame(from, to);
      CompareSame(result, to);
    }
  }

  /** An array of three elements that should become empty keeps its second one. */
  lemma ShrinkByThree(a: Json, b: Json, c: Json)
    requires WellKeyed(a) && WellKeyed(b) && WellKeyed(c)
    ensures var r := ApplyAll(Arr([a, b, c]), Patches(Arr([a, b, c]), Arr([])));
      r.Done? && r.code == 0 && Meaning(r.doc) == List([Meaning(b)]) && Compare(r.doc, Arr([])) != 0
  {
    var from, to := [a, b, c], [];
    assert WellKeyed(Arr(from));
    var r := PatchRoundTrip(Arr(from), Arr(to), Arr(from));
    ThreeLeaveOne(a, b, c);
  }

  lemma ThreeLeaveOne(a: Json, b: Json, c: Json)
    ensures Outcome(Arr([a, b, c]), Arr([])) == List([Meaning(b)]) && !Gentle(Arr([a, b, c]), Arr([]))
  {
    var s := [a, b, c];
    assert s[2..] == [c];
    assert EverySecond(s) == [b];
    assert ItemsMeaning([b]) == [Meaning(b)];
  }
}
