/**
 What two JSON documents have in common when they are equal: arrays are sequences, objects are
 maps from names, case aside.  Compare decides exactly this equality.
 */
module JsonMeaning {
  import opened Lists
  import opened JsonNumbers
  import opened JsonStrings
  import opened JsonText
  import opened JsonKeys
  import opened JsonPointer
  import opened JsonPatch

  datatype Doc =
    | Atom(value: Json)
    | List(docs: seq<Doc>)
    | Dict(fields: map<string, Doc>)

  function Meaning(j: Json): Doc {
    match j
    case Arr(items) => List(ItemsMeaning(items))
    case Obj(members) => Dict(Fields(members))
    case Num(mant, exp) => Atom(Num(Normal(mant, exp).0, Normal(mant, exp).1))
    case _ => Atom(j)
  }

  function ItemsMeaning(items: seq<Json>): (docs: seq<Doc>)
    ensures |docs| == |items| && forall i | 0 <= i < |items| :: docs[i] == Meaning(items[i])
  {
    if items == [] then [] else [Meaning(items[0])] + ItemsMeaning(items[1..])
  }

  /** The first member with a name gives its value. */
  function Fields(members: seq<Member>): map<string, Doc> {
    if members == [] then map[] else Fields(members[1..])[Fold(members[0].key) := Meaning(members[0].val)]
  }

  /** No object has two names that differ in case at most. */
  predicate WellKeyed(j: Json)
    decreases j
  {
    match j
    case Arr(items) => forall v <- items :: WellKeyed(v)
    case Obj(members) => KeyedMembers(members)
    case _ => true
  }

  predicate KeyedMembers(members: seq<Member>)
    decreases members
  {
    DistinctKeys(members) && forall m <- members :: WellKeyed(m.val)
  }

  predicate DistinctKeys(members: seq<Member>) {
    forall i, j | 0 <= i < j < |members| :: Fold(members[i].key) != Fold(members[j].key)
  }

  // ---------- fields ----------

  /** Members with distinct names are the entries of the map, and its only ones. */
  lemma {:induction false} FieldsAre(members: seq<Member>)
    requires DistinctKeys(members)
    ensures forall i | 0 <= i < |members| ::
      Fold(members[i].key) in Fields(members) && Fields(members)[Fold(members[i].key)] == Meaning(members[i].val)
    ensures forall k | k in Fields(members) :: exists i | 0 <= i < |members| :: Fold(members[i].key) == k
  {
    if members != [] {
      var tail := members[1..];
      assert forall i | 0 <= i < |tail| :: tail[i] == members[i + 1];
      FieldsAre(tail);
      forall i | 0 <= i < |members|
        ensures Fold(members[i].key) in Fields(members)
        ensures Fields(members)[Fold(members[i].key)] == Meaning(members[i].val)
      {
        if i > 0 {
          assert members[i] == tail[i - 1];
        }
      }
      forall k | k in Fields(members) ensures exists i | 0 <= i < |members| :: Fold(members[i].key) == k {
        if k != Fold(members[0].key) {
          var i :| 0 <= i < |tail| && Fold(tail[i].key) == k;
          assert Fold(members[i + 1].key) == k;
        }
      }
    }
  }

  /** Reordering members changes nothing. */
  lemma {:induction false} PermDistinct(ms: seq<Member>, ns: seq<Member>)
    requires DistinctKeys(ms) && multiset(ms) == multiset(ns)
    ensures DistinctKeys(ns)
    decreases |ms|
  {
    if ms == [] {
      assert ns == [] by {
        assert |ns| == |multiset(ns)| == |multiset(ms)| == |ms|;
      }
    } else {
      assert ms[0] in multiset(ns);
      var j :| 0 <= j < |ns| && ns[j] == ms[0];
      WithoutElements(ms, 0);
      WithoutElements(ns, j);
      assert Without(ms, 0) == ms[1..];
      TailDistinct(ms);
      PermDistinct(ms[1..], Without(ns, j));
      PermStep(ms, ns, j);
    }
  }

  lemma TailDistinct(ms: seq<Member>)
    requires ms != [] && DistinctKeys(ms)
    ensures DistinctKeys(ms[1..])
  {
    assert forall i | 0 <= i < |ms[1..]| :: ms[1..][i] == ms[i + 1];
  }

  lemma PermStep(ms: seq<Member>, ns: seq<Member>, j: nat)
    requires ms != [] && j < |ns| && ns[j] == ms[0] && DistinctKeys(ms)
    requires DistinctKeys(Without(ns, j)) && multiset(Without(ns, j)) == multiset(ms[1..])
    ensures DistinctKeys(ns)
  {
    var others := Without(ns, j);
    forall i | 0 <= i < |others| ensures Fold(others[i].key) != Fold(ns[j].key) {
      HeadDistinct(ms, others[i], others);
    }
    DistinctBack(ns, j);
  }

  lemma WithoutElements(ns: seq<Member>, j: nat)
    requires j < |ns|
    ensures multiset(Without(ns, j)) == multiset(ns) - multiset{ns[j]}
  {
    assert ns == ns[..j] + [ns[j]] + ns[j + 1..];
  }

  lemma HeadDistinct(ms: seq<Member>, m: Member, others: seq<Member>)
    requires ms != [] && DistinctKeys(ms) && m in others && multiset(others) == multiset(ms[1..])
    ensures Fold(m.key) != Fold(ms[0].key)
  {
    assert m in multiset(others) && m in ms[1..];
    var i :| 0 <= i < |ms| - 1 && ms[1..][i] == m;
    assert ms[i + 1] == m;
  }

  lemma DistinctBack(ns: seq<Member>, j: nat)
    requires j < |ns| && DistinctKeys(Without(ns, j))
    requires forall i | 0 <= i < |ns| - 1 :: Fold(Without(ns, j)[i].key) != Fold(ns[j].key)
    ensures DistinctKeys(ns)
  {
    var others := Without(ns, j);
    forall a, b | 0 <= a < b < |ns| ensures Fold(ns[a].key) != Fold(ns[b].key) {
      assert a != j ==> ns[a] == others[if a < j then a else a - 1];
      assert b != j ==> ns[b] == others[if b < j then b else b - 1];
    }
  }

  lemma PermFields(ms: seq<Member>, ns: seq<Member>)
    requires DistinctKeys(ms) && multiset(ms) == multiset(ns)
    ensures DistinctKeys(ns) && Fields(ms) == Fields(ns)
  {
    PermDistinct(ms, ns);
    FieldsAre(ms);
    FieldsAre(ns);
    FieldsWithin(ms, ns);
    FieldsWithin(ns, ms);
  }

  lemma FieldsWithin(ms: seq<Member>, ns: seq<Member>)
    requires DistinctKeys(ms) && DistinctKeys(ns) && multiset(ms) == multiset(ns)
    ensures forall k | k in Fields(ms) :: k in Fields(ns) && Fields(ns)[k] == Fields(ms)[k]
  {
    FieldsAre(ms);
    FieldsAre(ns);
    forall k | k in Fields(ms) ensures k in Fields(ns) && Fields(ns)[k] == Fields(ms)[k] {
      var i :| 0 <= i < |ms| && Fold(ms[i].key) == k;
      assert ms[i] in multiset(ns);
      var j :| 0 <= j < |ns| && ns[j] == ms[i];
    }
  }

  lemma SortedFields(j: Json)
    requires j.Obj? && KeyedMembers(j.members)
    ensures Rising(Sorted(j), KeyOf) && KeyedMembers(Sorted(j)) && Fields(Sorted(j)) == Fields(j.members)
  {
    SortSorts(j.members, KeyOf);
    PermFields(j.members, Sorted(j));
    forall m <- Sorted(j) ensures WellKeyed(m.val) {
      assert m in multiset(Sorted(j)) && m in j.members;
    }
  }

  // ---------- Compare ----------

  lemma TailKeyed(s: seq<Member>)
    requires s != [] && Rising(s, KeyOf) && KeyedMembers(s)
    ensures Rising(s[1..], KeyOf) && KeyedMembers(s[1..]) && WellKeyed(s[0].val)
    ensures Fold(s[0].key) !in Fields(s[1..])
    ensures Fields(s) == Fields(s[1..])[Fold(s[0].key) := Meaning(s[0].val)]
  {
    var tail := s[1..];
    assert forall i | 0 <= i < |tail| :: tail[i] == s[i + 1];
    assert forall m <- tail :: m in s;
    assert DistinctKeys(tail);
    FieldsAre(tail);
  }

  /** A name before the first of a sorted list is not in the list. */
  lemma NotBefore(key: string, s: seq<Member>)
    requires Rising(s, KeyOf) && DistinctKeys(s) && (s != [] ==> CaseCmp(key, s[0].key) < 0)
    ensures Fold(key) !in Fields(s)
  {
    FieldsAre(s);
    if Fold(key) in Fields(s) {
      var i :| 0 <= i < |s| && Fold(s[i].key) == Fold(key);
      CaseFold(s[i].key, key);
      if i > 0 {
        assert s[i] == s[1..][i - 1];
        CaseTrans(s[0].key, s[i].key, key);
        CaseFlip(s[0].key, key);
      } else {
        CaseFlip(s[0].key, key);
      }
      assert false;
    }
  }

  lemma {:induction false} CompareMembersSame(d: nat, s: seq<Member>, t: seq<Member>)
    requires Below(s, d) && Rising(s, KeyOf) && Rising(t, KeyOf) && KeyedMembers(s) && KeyedMembers(t)
    ensures CompareMembers(d, s, t) == 0 <==> Fields(s) == Fields(t)
    decreases d, 0, |s|
  {
    if s != [] && t != [] {
      var a, b := s[0], t[0];
      TailKeyed(s);
      TailKeyed(t);
      assert Fold(a.key) in Fields(s) && Fold(b.key) in Fields(t);
      CaseFold(a.key, b.key);
      if CaseCmp(a.key, b.key) < 0 {
        NotBefore(a.key, t);
      } else if CaseCmp(a.key, b.key) > 0 {
        CaseFlip(a.key, b.key);
        NotBefore(b.key, s);
      } else {
        CompareSame(a.val, b.val);
        CompareMembersSame(d, s[1..], t[1..]);
        Entry(Fields(s[1..]), Fields(t[1..]), Fold(a.key), Meaning(a.val), Meaning(b.val));
      }
    } else if s != [] {
      assert Fold(s[0].key) in Fields(s);
    } else if t != [] {
      assert Fold(t[0].key) in Fields(t);
    }
  }

  lemma Entry(m: map<string, Doc>, n: map<string, Doc>, k: string, v: Doc, w: Doc)
    requires k !in m && k !in n
    ensures m[k := v] == n[k := w] <==> v == w && m == n
  {
    if m[k := v] == n[k := w] {
      assert m[k := v][k] == v && n[k := w][k] == w;
      assert m == m[k := v] - {k} && n == n[k := w] - {k};
    }
  }

  lemma {:induction false} CompareItemsSame(d: nat, s: seq<Json>, t: seq<Json>)
    requires (forall v <- s :: Depth(v) < d && WellKeyed(v)) && forall v <- t :: WellKeyed(v)
    ensures CompareItems(d, s, t) == 0 <==> ItemsMeaning(s) == ItemsMeaning(t)
    decreases d, 0, |s|
  {
    if s != [] && t != [] {
      CompareSame(s[0], t[0]);
      CompareItemsSame(d, s[1..], t[1..]);
      assert ItemsMeaning(s)[1..] == ItemsMeaning(s[1..]) && ItemsMeaning(t)[1..] == ItemsMeaning(t[1..]);
    }
  }

  /** Compare finds two documents equal exactly when they mean the same. */
  lemma {:induction false} CompareSame(a: Json, b: Json)
    requires WellKeyed(a) && WellKeyed(b)
    ensures Compare(a, b) == 0 <==> Meaning(a) == Meaning(b)
    decreases Depth(a), 1, 0
  {
    if SameKind(a, b) {
      match a
      case Arr(items) => CompareItemsSame(Depth(a), items, b.items);
      case Obj(_) =>
        SortedFields(a);
        SortedFields(b);
        CompareMembersSame(Depth(a), Sorted(a), Sorted(b));
      case _ =>
    }
  }

  /** Two numbers compare equal exactly when their values are: 1.0 and 1 do. */
  lemma CompareNumbers(m: int, e: int, n: int, f: int)
    requires e >= f
    ensures Compare(Num(m, e), Num(n, f)) == 0 <==> Scale(m, e - f) == n
    ensures Compare(Num(10, -1), Num(1, 0)) == 0
  {
    SameNumber(m, e, n, f);
    SameNumber(1, 0, 10, -1);
  }

  /** Where names are distinct no node is hidden, so every node's pointer leads back to it. */
  lemma {:induction false} KeyedReachable(j: Json, p: Path)
    requires WellKeyed(j) && ValidPath(j, p)
    ensures Reachable(j, p)
    decreases |p|
  {
    if p != [] {
      if j.Obj? {
        forall i | 0 <= i < p[0] ensures CaseCmp(j.members[i].key, j.members[p[0]].key) != 0 {
          CaseFold(j.members[i].key, j.members[p[0]].key);
        }
        assert j.members[p[0]] in j.members;
      }
      KeyedReachable(Child(j, p[0]), p[1..]);
    }
  }

  lemma PointerOfNode(root: Json, target: Path)
    requires WellKeyed(root) && ValidPath(root, target)
    ensures FindPointer(root, [], target).Some? && GetPointer(root, FindPointer(root, [], target).value) == Some(target)
  {
    PointerRoundTrip(root, target);
    KeyedReachable(root, target);
  }

  /** SortObject changes no document's meaning. */
  lemma SortKeepsMeaning(j: Json)
    requires WellKeyed(j) && j.Obj?
    ensures Meaning(Obj(Sorted(j))) == Meaning(j) && WellKeyed(Obj(Sorted(j)))
  {
    SortedFields(j);
  }

  /** The entry of a name is that of the first member with it. */
  lemma {:induction false} FieldsFirst(members: seq<Member>, name: string)
    ensures var ms := Named(members, KeyOf, name);
      (Fold(name) in Fields(members) <==> ms != [])
      && (ms != [] ==> Fields(members)[Fold(name)] == Meaning(ms[0].val))
  {
    if members != [] {
      FieldsFirst(members[1..], name);
      CaseFold(name, KeyOf(members[0]));
      NamedFirst(members[0], members[1..], KeyOf, name);
      assert members == [members[0]] + members[1..];
    }
  }

  /** Every entry is that of some member's name. */
  lemma {:induction false} FieldNamed(members: seq<Member>, k: string) returns (name: string)
    requires k in Fields(members)
    ensures Fold(name) == k
  {
    if Fold(members[0].key) == k {
      name := members[0].key;
    } else {
      name := FieldNamed(members[1..], k);
    }
  }

  lemma {:induction false} ReversedEnds<T>(xs: seq<T>)
    requires xs != []
    ensures |Reversed(xs)| == |xs| && Reversed(xs)[0] == xs[|xs| - 1]
  {
    if |xs| > 1 {
      ReversedEnds(xs[1..]);
    } else {
      assert Reversed(xs[1..]) == [];
    }
  }

  /** The first and the last member with a name mean the same. */
  ghost predicate EndsAgree(members: seq<Member>, name: string) {
    var ms := Named(members, KeyOf, name);
    ms != [] ==> Meaning(ms[0].val) == Meaning(ms[|ms| - 1].val)
  }

  lemma SortedEntry(j: Json, name: string)
    requires j.Obj?
    ensures Fold(name) in Fields(Sorted(j)) <==> Fold(name) in Fields(j.members)
    ensures Fold(name) in Fields(j.members) ==>
      (EndsAgree(j.members, name) <==> Fields(Sorted(j))[Fold(name)] == Fields(j.members)[Fold(name)])
  {
    FieldsFirst(j.members, name);
    FieldsFirst(Sorted(j), name);
    SortReverses(j.members, KeyOf, name);
    var ms := Named(j.members, KeyOf, name);
    if ms != [] {
      ReversedEnds(ms);
    }
  }

  /** Sorting changes what an object means exactly when some name occurs twice and its first and last
      member mean different things: SortList turns equal names round, and the first one counts. */
  lemma SortMeans(j: Json)
    requires j.Obj?
    ensures Meaning(Obj(Sorted(j))) == Meaning(j) <==> forall name: string :: EndsAgree(j.members, name)
  {
    var f, g := Fields(Sorted(j)), Fields(j.members);
    forall name: string | f == g ensures EndsAgree(j.members, name) {
      SortedEntry(j, name);
      FieldsFirst(j.members, name);
    }
    if forall name: string :: EndsAgree(j.members, name) {
      forall k ensures (k in f <==> k in g) && (k in g ==> f[k] == g[k]) {
        if k in f || k in g {
          var name := FieldNamed(if k in f then Sorted(j) else j.members, k);
          SortedEntry(j, name);
        }
      }
    }
  }

  /** {"a":1,"A":2} means another thing when it is sorted. */
  lemma SortTwice()
    ensures var j := Obj([Member("a", Num(1, 0)), Member("A", Num(2, 0))]); Meaning(Obj(Sorted(j))) != Meaning(j)
  {
    var j := Obj([Member("a", Num(1, 0)), Member("A", Num(2, 0))]);
    SortMeans(j);
    BothNamed(j.members[0], j.members[1]);
    OneIsNotTwo();
    assert !EndsAgree(j.members, "a");
  }

  lemma OneIsNotTwo()
    ensures Meaning(Num(1, 0)) != Meaning(Num(2, 0))
  {
    SameNumber(1, 0, 2, 0);
  }

  lemma BothNamed(a: Member, b: Member)
    requires a.key == "a" && b.key == "A"
    ensures Named([a, b], KeyOf, "a") == [a, b]
  {
    assert CaseCmp("a", "A") == 0 && CaseCmp("a", "a") == 0;
    NamedFirst(b, [], KeyOf, "a");
    NamedFirst(a, [b], KeyOf, "a");
    assert [b] + [] == [b] && [a] + [b] == [a, b];
  }
}
