/**
 The steps of the patch interpreter that take a child out of a node or put one in, on the sibling
 lists of the heap: they do to the lists what the functions of JsonPatch do to values.
 */
module JsonChildren {
  import opened Lists
  import opened JsonStrings
  import opened JsonText
  import opened JsonKeys
  import opened JsonPatch
  import opened JsonSiblings

  /** A function on every element. */
  function Map<T, U>(f: T -> U, xs: seq<T>): (ys: seq<U>) {
    seq(|xs|, i requires 0 <= i < |xs| => f(xs[i]))
  }

  lemma MapWithout<T, U>(f: T -> U, xs: seq<T>, i: nat)
    requires i < |xs|
    ensures Map(f, Without(xs, i)) == Without(Map(f, xs), i)
  {
  }

  lemma MapInsert<T, U>(f: T -> U, xs: seq<T>, i: nat, x: T)
    requires i <= |xs|
    ensures Map(f, InsertAt(xs, i, x)) == InsertAt(Map(f, xs), i, f(x))
  {
  }

  lemma MapAppend<T, U>(f: T -> U, xs: seq<T>, x: T)
    ensures Map(f, xs + [x]) == Map(f, xs) + [f(x)]
  {
  }

  function MemberOf(x: Item): Member {
    Member(x.name, x.val)
  }

  function ValueOf(x: Item): Json {
    x.val
  }

  /** The object and the array that have the list `xs`. */
  function ObjectOf(xs: seq<Item>): Json {
    Obj(Map(MemberOf, xs))
  }

  function ArrayOf(xs: seq<Item>): Json {
    Arr(Map(ValueOf, xs))
  }

  // ---------- detaching ----------

  /** The `prev` of the first item, which a sort may have left pointing anywhere. */
  ghost function FirstPrev(xs: seq<Item>): Item?
    reads Items(xs)
  {
    if xs == [] then null else xs[0].prev
  }

  /** The first `prev` does not point to another item of the list. */
  predicate Loose(xs: seq<Item>, stale: Item?) {
    xs == [] || stale == null || stale !in xs[1..]
  }

  /** A child `c` was taken out of the list `xs`, if there was one, and `ys` are the others.  They
      are a list, unless `c` was the first item and `stale`, its `prev`, another one: then they are
      a ring. */
  ghost predicate TakenOut(parent: Parent, xs: seq<Item>, stale: Item?, c: Item?, ys: seq<Item>)
    reads parent, Items(xs), Items(ys), if c == null then {} else {c}
  {
    Items(ys) <= Items(xs)
    && (c == null ==> ys == xs)
    && (c != null ==> c in xs && c !in ys && c.next == c.prev == null)
    && (List(parent.child, ys) <==> c == null || c != xs[0] || Loose(xs, stale))
    && (parent.child == null <==> ys == []) && (ys != [] ==> parent.child == ys[0] && ys[0].prev == stale)
    && (c != null && c == xs[0] && !Loose(xs, stale) ==> Circles(ys, stale))
  }

  method TakeOut(parent: Parent, which: nat, ghost xs: seq<Item>) returns (c: Item?, ghost ys: seq<Item>)
    requires List(parent.child, xs)
    modifies parent, Items(xs), if FirstPrev(xs) == null then {} else {FirstPrev(xs)}
    ensures TakenOut(parent, xs, old(FirstPrev(xs)), c, ys)
    ensures if which < |xs| then c == xs[which] && ys == Without(xs, which) else c == null
  {
    ghost var stale := FirstPrev(xs);
    if which < |xs| {
      WithoutApart(xs, which);
    }
    assert xs != [] ==> xs[0] in Items(xs);
    c := parent.Detach(which, xs);
    ys := if which < |xs| then Without(xs, which) else xs;
    if which == 0 && xs != [] {
      FirstTaken(parent, xs, stale, xs[0]);
    } else if which < |xs| {
      LaterTaken(parent, xs, stale, which);
    }
  }

  lemma FirstTaken(parent: Parent, xs: seq<Item>, stale: Item?, c: Item)
    requires xs != [] && Distinct(xs) && c == xs[0] && c.next == c.prev == null && parent.FirstGone(xs, stale)
    ensures TakenOut(parent, xs, stale, c, Without(xs, 0))
  {
    WithoutApart(xs, 0);
    assert Without(xs, 0) == xs[1..];
  }

  lemma LaterTaken(parent: Parent, xs: seq<Item>, stale: Item?, which: nat)
    requires 0 < which < |xs| && Distinct(xs) && xs[which].next == xs[which].prev == null
    requires List(parent.child, Without(xs, which)) && parent.child == xs[0] && xs[0].prev == stale
    ensures TakenOut(parent, xs, stale, xs[which], Without(xs, which))
  {
    WithoutApart(xs, which);
  }

  lemma WithoutApart(xs: seq<Item>, i: nat)
    requires i < |xs| && Distinct(xs)
    ensures Items(Without(xs, i)) <= Items(xs) && xs[i] !in Without(xs, i)
    ensures Without(xs, i) != [] ==> Without(xs, i)[0] == if i == 0 then xs[1] else xs[0]
  {
  }

  /** cJSON_DetachItemFromArray */
  method DetachFromArray(parent: Parent, child: string, ghost xs: seq<Item>) returns (c: Item?, ghost ys: seq<Item>)
    requires List(parent.child, xs)
    modifies parent, Items(xs), if FirstPrev(xs) == null then {} else {FirstPrev(xs)}
    ensures TakenOut(parent, xs, old(FirstPrev(xs)), c, ys)
    ensures Detach(ArrayOf(xs), child) == (if c == null then None else Some(c.val), ArrayOf(ys))
  {
    var which := Index(child);
    c, ys := TakeOut(parent, which, xs);
    if which < |xs| {
      MapWithout(ValueOf, xs, which);
      assert Map(ValueOf, xs)[which] == ValueOf(xs[which]);
    }
  }

  /** cJSON_DetachItemFromObject */
  method DetachFromObject(parent: Parent, child: string, ghost xs: seq<Item>) returns (c: Item?, ghost ys: seq<Item>)
    requires List(parent.child, xs)
    modifies parent, Items(xs), if FirstPrev(xs) == null then {} else {FirstPrev(xs)}
    ensures TakenOut(parent, xs, old(FirstPrev(xs)), c, ys)
    ensures Detach(ObjectOf(xs), child) == (if c == null then None else Some(c.val), ObjectOf(ys))
    ensures c != null && c == xs[0] ==> FindKey(Map(MemberOf, xs), child) == Some(0)
  {
    var which := FindName(parent, child, xs);
    c, ys := TakeOut(parent, which, xs);
    if which < |xs| {
      MapWithout(MemberOf, xs, which);
      assert Map(MemberOf, xs)[which] == MemberOf(xs[which]);
    }
  }

  /** The first loop of cJSON_DetachItemFromObject: how many items come before the one with the name. */
  method FindName(parent: Parent, key: string, ghost xs: seq<Item>) returns (i: nat)
    requires List(parent.child, xs)
    ensures i <= |xs|
    ensures FindKey(Map(MemberOf, xs), key) == if i < |xs| then Some(i) else None
  {
    var c := parent.child;
    i := 0;
    while c != null && CaseCmp(c.name, key) != 0
      invariant i <= |xs| && c == (if i < |xs| then xs[i] else null)
      invariant forall k | 0 <= k < i :: CaseCmp(xs[k].name, key) != 0
      decreases |xs| - i
    {
      Neighbour(xs, i);
      c := c.next;
      i := i + 1;
    }
    assert forall k | 0 <= k < |xs| :: Map(MemberOf, xs)[k] == MemberOf(xs[k]);
    assert i < |xs| ==> CaseCmp(Map(MemberOf, xs)[i].key, key) == 0;
  }

  // ---------- adding ----------

  /** cJSON_AddItemToArray for "-", cJSON_InsertItemInArray for a position. */
  method AddToArray(parent: Parent, child: string, item: Item, ghost xs: seq<Item>) returns (ghost ys: seq<Item>)
    requires List(parent.child, xs) && item !in xs && item.next == null
    modifies parent, Items(xs), item
    ensures List(parent.child, ys) && ArrayOf(ys) == AddChild(ArrayOf(xs), child, item.val)
    ensures parent.child.prev == if xs == [] then old(item.prev) else old(parent.child.prev)
  {
    var which := Index(child);
    if child == "-" || which >= |xs| {
      MapAppend(ValueOf, xs, item);
    } else {
      MapInsert(ValueOf, xs, which, item);
    }
    if child == "-" {
      parent.Add(item, xs);
      ys := xs + [item];
    } else {
      parent.Insert(which, item, xs);
      ys := if which < |xs| then InsertAt(xs, which, item) else xs + [item];
    }
  }

  /** cJSON_DeleteItemFromObject and cJSON_AddItemToObject: the new member comes last.  The member
      it replaces must not leave a ring, on which the code looks for the last item forever
      (JsonSiblings.CirclesEndless). */
  method AddToObject(parent: Parent, item: Item, ghost xs: seq<Item>) returns (ghost ys: seq<Item>)
    requires List(parent.child, xs) && item !in xs && item.next == null && item != FirstPrev(xs)
    requires FindKey(Map(MemberOf, xs), item.name) == Some(0) ==> Loose(xs, FirstPrev(xs))
    modifies parent, Items(xs), item, if FirstPrev(xs) == null then {} else {FirstPrev(xs)}
    ensures List(parent.child, ys) && ObjectOf(ys) == AddChild(ObjectOf(xs), item.name, item.val)
    ensures |ys| > 1 ==> parent.child.prev == old(FirstPrev(xs))
  {
    var gone;
    gone, ys := DetachFromObject(parent, item.name, xs);
    MapAppend(MemberOf, ys, item);
    assert item !in ys by {
      assert item !in Items(xs);
    }
    parent.Add(item, ys);
    ys := ys + [item];
  }

  // ---------- sorting ----------

  lemma {:induction false} MapOrdered(xs: seq<Item>)
    ensures Ordered(Map(MemberOf, xs), KeyOf) <==> Ordered(xs, Name)
  {
    if |xs| >= 2 {
      assert Map(MemberOf, xs)[1..] == Map(MemberOf, xs[1..]);
      MapOrdered(xs[1..]);
    }
  }

  lemma MapCons(x: Item, xs: seq<Item>)
    ensures Map(MemberOf, [x] + xs) == [MemberOf(x)] + Map(MemberOf, xs)
  {
  }

  lemma {:induction false} MapMerge(xs: seq<Item>, ys: seq<Item>)
    ensures Map(MemberOf, Merge(xs, ys, Name)) == Merge(Map(MemberOf, xs), Map(MemberOf, ys), KeyOf)
  {
    if xs != [] && ys != [] {
      assert Map(MemberOf, xs)[1..] == Map(MemberOf, xs[1..]);
      assert Map(MemberOf, ys)[1..] == Map(MemberOf, ys[1..]);
      if CaseCmp(xs[0].name, ys[0].name) < 0 {
        MapMerge(xs[1..], ys);
        MapCons(xs[0], Merge(xs[1..], ys, Name));
      } else {
        MapMerge(xs, ys[1..]);
        MapCons(ys[0], Merge(xs, ys[1..], Name));
      }
    }
  }

  lemma {:induction false} MapSort(xs: seq<Item>)
    ensures Map(MemberOf, Sort(xs, Name)) == Sort(Map(MemberOf, xs), KeyOf)
    decreases |xs|
  {
    MapOrdered(xs);
    if !Ordered(xs, Name) {
      var mid := (|xs| + 1) / 2;
      var us, vs := SortParts(xs, Name, mid);
      var ps, qs := SortParts(Map(MemberOf, xs), KeyOf, mid);
      MapSort(xs[..mid]);
      MapSort(xs[mid..]);
      MapHalves(xs, mid);
      MapMerge(us, vs);
    }
  }

  /** The sorted halves. */
  lemma SortParts<T>(xs: seq<T>, key: T -> string, mid: nat) returns (us: seq<T>, vs: seq<T>)
    requires !Ordered(xs, key) && mid == (|xs| + 1) / 2
    ensures us == Sort(xs[..mid], key) && vs == Sort(xs[mid..], key) && Sort(xs, key) == Merge(us, vs, key)
  {
    us, vs := Sort(xs[..mid], key), Sort(xs[mid..], key);
  }

  lemma MapHalves(xs: seq<Item>, mid: nat)
    requires mid <= |xs|
    ensures Map(MemberOf, xs)[..mid] == Map(MemberOf, xs[..mid]) && Map(MemberOf, xs)[mid..] == Map(MemberOf, xs[mid..])
  {
  }

  /** SortObject: the object has the members that `Sorted` gives, on a list whose first `prev` may be stale. */
  method SortObject(parent: Parent, ghost xs: seq<Item>)
    requires List(parent.child, xs)
    modifies parent, Items(xs)
    ensures List(parent.child, Sort(xs, Name)) && ObjectOf(Sort(xs, Name)) == Obj(Sorted(ObjectOf(xs)))
  {
    MapSort(xs);
    parent.child := SortList(parent.child, xs);
  }
}
