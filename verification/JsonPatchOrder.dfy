/**
 What comparing and generating leave behind: the objects they came to have their members in order.
 */
module JsonPatchOrder {
  import opened JsonText
  import opened JsonKeys
  import opened JsonPatch

  /** The same names in the same places. */
  ghost predicate SameNames(s: seq<Member>, t: seq<Member>) {
    |s| == |t| && forall i | 0 <= i < |s| :: s[i].key == t[i].key
  }

  lemma {:induction false} NamesRising(s: seq<Member>, t: seq<Member>)
    requires SameNames(s, t) && Rising(t, KeyOf)
    ensures Rising(s, KeyOf)
  {
    if s != [] {
      assert forall i | 0 <= i < |s| - 1 :: s[1..][i].key == t[1..][i].key;
      NamesRising(s[1..], t[1..]);
    }
  }

  lemma ConsNames(m: Member, s: seq<Member>, t: seq<Member>)
    requires t != [] && m.key == t[0].key && SameNames(s, t[1..])
    ensures SameNames([m] + s, t)
  {
    assert forall i | 0 < i < |t| :: t[i] == t[1..][i - 1];
  }

  // ---------- comparing ----------

  lemma {:induction false} ComparedNames(d: nat, s: seq<Member>, t: seq<Member>)
    requires Below(s, d)
    ensures SameNames(ComparedMembers(d, s, t).0, s) && SameNames(ComparedMembers(d, s, t).1, t)
    decreases |s|
  {
    if s != [] && t != [] && CaseCmp(s[0].key, t[0].key) == 0 {
      var (x, y) := Compared(s[0].val, t[0].val);
      var rest := if Compare(s[0].val, t[0].val) != 0 then (s[1..], t[1..]) else ComparedMembers(d, s[1..], t[1..]);
      if Compare(s[0].val, t[0].val) == 0 {
        ComparedNames(d, s[1..], t[1..]);
      }
      ConsNames(Member(s[0].key, x), rest.0, s);
      ConsNames(Member(t[0].key, y), rest.1, t);
    }
  }

  /** Two objects that were compared have their members in order, whatever the outcome. */
  lemma ComparedInOrder(a: Json, b: Json)
    requires a.Obj? && b.Obj?
    ensures var (x, y) := Compared(a, b);
      x.Obj? && y.Obj? && SameNames(x.members, Sorted(a)) && SameNames(y.members, Sorted(b))
      && Rising(x.members, KeyOf) && Rising(y.members, KeyOf)
  {
    ComparedNames(Depth(a), Sorted(a), Sorted(b));
    SortSorts(a.members, KeyOf);
    SortSorts(b.members, KeyOf);
    NamesRising(Compared(a, b).0.members, Sorted(a));
    NamesRising(Compared(a, b).1.members, Sorted(b));
  }

  /** All objects of a tree have their members in order. */
  ghost predicate InOrder(j: Json)
    decreases j
  {
    match j
    case Arr(items) => forall v <- items :: InOrder(v)
    case Obj(members) => Rising(members, KeyOf) && MembersInOrder(members)
    case _ => true
  }

  ghost predicate MembersInOrder(members: seq<Member>)
    decreases members
  {
    forall m <- members :: InOrder(m.val)
  }

  /** After a comparison that finds no difference, both trees are in order all the way down. */
  lemma {:induction false} EqualInOrder(a: Json, b: Json)
    requires Compare(a, b) == 0
    ensures InOrder(Compared(a, b).0) && InOrder(Compared(a, b).1)
    decreases Depth(a), 1, 0
  {
    match a
    case Arr(items) => EqualItems(Depth(a), items, b.items);
    case Obj(_) =>
      ComparedInOrder(a, b);
      EqualMembers(Depth(a), Sorted(a), Sorted(b));
    case _ =>
  }

  lemma {:induction false} EqualItems(d: nat, s: seq<Json>, t: seq<Json>)
    requires (forall v <- s :: Depth(v) < d) && CompareItems(d, s, t) == 0
    ensures (forall v <- ComparedItems(d, s, t).0 :: InOrder(v)) && forall v <- ComparedItems(d, s, t).1 :: InOrder(v)
    decreases d, 0, |s|
  {
    if s != [] && t != [] {
      EqualInOrder(s[0], t[0]);
      EqualItems(d, s[1..], t[1..]);
    }
  }

  lemma {:induction false} EqualMembers(d: nat, s: seq<Member>, t: seq<Member>)
    requires Below(s, d) && CompareMembers(d, s, t) == 0
    ensures MembersInOrder(ComparedMembers(d, s, t).0) && MembersInOrder(ComparedMembers(d, s, t).1)
    decreases d, 0, |s|
  {
    if s != [] && t != [] {
      EqualInOrder(s[0].val, t[0].val);
      EqualMembers(d, s[1..], t[1..]);
    }
  }

  // ---------- generating ----------

  lemma {:induction false} DiffedNames(d: nat, from: seq<Member>, to: seq<Member>)
    requires Below(from, d)
    ensures SameNames(DiffedMembers(d, from, to).0, from) && SameNames(DiffedMembers(d, from, to).1, to)
    decreases |from| + |to|
  {
    if from == [] && to == [] {
    } else if MergeOrder(from, to) == 0 {
      var (x, y) := Diffed(from[0].val, to[0].val);
      var rest := DiffedMembers(d, from[1..], to[1..]);
      DiffedNames(d, from[1..], to[1..]);
      ConsNames(Member(from[0].key, x), rest.0, from);
      ConsNames(Member(to[0].key, y), rest.1, to);
    } else if MergeOrder(from, to) < 0 {
      var rest := DiffedMembers(d, from[1..], to);
      DiffedNames(d, from[1..], to);
      ConsNames(from[0], rest.0, from);
    } else {
      var rest := DiffedMembers(d, from, to[1..]);
      DiffedNames(d, from, to[1..]);
      ConsNames(to[0], rest.1, to);
    }
  }

  /** Two objects that patches were generated for have their members in order. */
  lemma DiffedInOrder(from: Json, to: Json)
    requires from.Obj? && to.Obj?
    ensures var (x, y) := Diffed(from, to);
      x.Obj? && y.Obj? && SameNames(x.members, Sorted(from)) && SameNames(y.members, Sorted(to))
      && Rising(x.members, KeyOf) && Rising(y.members, KeyOf)
  {
    DiffedNames(Depth(from), Sorted(from), Sorted(to));
    SortSorts(from.members, KeyOf);
    SortSorts(to.members, KeyOf);
    NamesRising(Diffed(from, to).0.members, Sorted(from));
    NamesRising(Diffed(from, to).1.members, Sorted(to));
  }

  /** The elements of two arrays are left as generating patches for each pair leaves them. */
  lemma {:induction false} DiffedElement(d: nat, from: seq<Json>, to: seq<Json>, i: nat)
    requires (forall v <- from :: Depth(v) < d) && i < |from| && i < |to|
    ensures var (x, y) := DiffedItems(d, from, to);
      |x| == |from| && |y| == |to| && (x[i], y[i]) == Diffed(from[i], to[i])
    decreases i
  {
    if i > 0 {
      DiffedElement(d, from[1..], to[1..], i - 1);
      assert from[1..][i - 1] == from[i] && to[1..][i - 1] == to[i];
    } else {
      DiffedLengths(d, from[1..], to[1..]);
    }
  }

  lemma {:induction false} DiffedLengths(d: nat, from: seq<Json>, to: seq<Json>)
    requires forall v <- from :: Depth(v) < d
    ensures |DiffedItems(d, from, to).0| == |from| && |DiffedItems(d, from, to).1| == |to|
    decreases |from|
  {
    if from != [] && to != [] {
      DiffedLengths(d, from[1..], to[1..]);
    }
  }

  /** Where there is no difference, generating leaves what comparing leaves. */
  lemma {:induction false} DiffedEqual(a: Json, b: Json)
    requires Compare(a, b) == 0
    ensures Diffed(a, b) == Compared(a, b)
    decreases Depth(a), 1, 0
  {
    match a
    case Arr(items) => ItemsEqual(Depth(a), items, b.items);
    case Obj(_) => MembersEqual(Depth(a), Sorted(a), Sorted(b));
    case _ =>
  }

  lemma {:induction false} ItemsEqual(d: nat, s: seq<Json>, t: seq<Json>)
    requires (forall v <- s :: Depth(v) < d) && CompareItems(d, s, t) == 0
    ensures DiffedItems(d, s, t) == ComparedItems(d, s, t)
    decreases d, 0, |s|
  {
    if s != [] && t != [] {
      DiffedEqual(s[0], t[0]);
      ItemsEqual(d, s[1..], t[1..]);
    }
  }

  lemma {:induction false} MembersEqual(d: nat, s: seq<Member>, t: seq<Member>)
    requires Below(s, d) && CompareMembers(d, s, t) == 0
    ensures DiffedMembers(d, s, t) == ComparedMembers(d, s, t)
    decreases d, 0, |s|
  {
    if s != [] && t != [] {
      DiffedEqual(s[0].val, t[0].val);
      MembersEqual(d, s[1..], t[1..]);
    }
  }
}
