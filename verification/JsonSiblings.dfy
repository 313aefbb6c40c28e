/**
 The sibling lists of a cJSON tree, on the heap: the in-place merge sort of cJSON_Utils, and
 the list operations of cJSON that the patch interpreter uses.

 A list is a chain of `next` links.  `prev` of the first item is not part of the list's shape:
 the sort leaves it pointing wherever it pointed.
 */
module JsonSiblings {
  import opened Lists
  import opened JsonText
  import opened JsonKeys

  class Item {
    var next: Item?
    var prev: Item?
    const name: string
    const val: Json

    constructor (name: string, val: Json)
      ensures this.name == name && this.val == val && next == null && prev == null
    {
      this.name, this.val := name, val;
      next, prev := null, null;
    }
  }

  function Name(x: Item): string {
    x.name
  }

  ghost function Items(xs: seq<Item>): set<Item> {
    set x | x in xs
  }

  ghost predicate Distinct(xs: seq<Item>) {
    forall i, j | 0 <= i < j < |xs| :: xs[i] != xs[j]
  }

  /** Neighbours point to each other. */
  ghost predicate Linked(xs: seq<Item>)
    reads Items(xs)
  {
    forall i | 0 < i < |xs| :: xs[i].prev == xs[i - 1] && xs[i - 1].next == xs[i]
  }

  /** `head` is the first of exactly the items `xs`. */
  ghost predicate List(head: Item?, xs: seq<Item>)
    reads Items(xs)
  {
    Distinct(xs) && Linked(xs) && (if xs == [] then head == null else head == xs[0] && xs[|xs| - 1].next == null)
  }

  lemma DistinctCons(x: Item, xs: seq<Item>)
    ensures Distinct([x] + xs) <==> x !in xs && Distinct(xs)
  {
    var all := [x] + xs;
    assert forall i | 0 <= i < |xs| :: xs[i] == all[i + 1];
    if Distinct(all) {
      forall i, j | 0 <= i < j < |xs| ensures xs[i] != xs[j] {
        assert all[i + 1] != all[j + 1];
      }
      forall i | 0 <= i < |xs| ensures xs[i] != x {
        assert all[0] != all[i + 1];
      }
    }
    if x !in xs && Distinct(xs) {
      forall i, j | 0 <= i < j < |all| ensures all[i] != all[j] {
        assert all[j] == xs[j - 1];
      }
    }
  }

  lemma {:induction false} DistinctMultiset(xs: seq<Item>)
    ensures Distinct(xs) <==> forall x | x in xs :: multiset(xs)[x] == 1
  {
    if xs != [] {
      var m := multiset(xs[1..]);
      DistinctMultiset(xs[1..]);
      assert xs == [xs[0]] + xs[1..];
      DistinctCons(xs[0], xs[1..]);
      assert forall x | x in xs :: multiset(xs)[x] == m[x] + if x == xs[0] then 1 else 0;
      if xs[0] in xs[1..] {
        assert multiset(xs)[xs[0]] > 1;
      } else {
        assert m[xs[0]] == 0;
        assert forall x | x in xs[1..] :: x in xs;
      }
    }
  }

  ghost predicate Apart(xs: seq<Item>, ys: seq<Item>) {
    forall x | x in xs :: x !in ys
  }

  // ---------- the merge ----------

  /** The three parts of a merge under way: the output `zs`, and what is left of both lists. */
  ghost predicate Merging(list: Item?, ptr: Item?, zs: seq<Item>, first: Item?, xs: seq<Item>, second: Item?,
      ys: seq<Item>)
    reads Items(zs), Items(xs), Items(ys)
  {
    Distinct(zs) && Linked(zs) && (if zs == [] then list == null else list == zs[0] && ptr == zs[|zs| - 1])
    && List(first, xs) && List(second, ys) && Apart(zs, xs) && Apart(zs, ys) && Apart(xs, ys)
  }

  lemma ListTail(head: Item?, xs: seq<Item>)
    requires List(head, xs) && head != null
    ensures xs != [] && List(head.next, xs[1..]) && head !in xs[1..]
  {
    forall i, j | 0 <= i < j < |xs[1..]| ensures xs[1..][i] != xs[1..][j] {
      assert xs[i + 1] != xs[j + 1];
    }
    forall i | 0 < i < |xs[1..]| ensures xs[1..][i].prev == xs[1..][i - 1] && xs[1..][i - 1].next == xs[1..][i] {
      assert xs[1..][i] == xs[i + 1] && xs[1..][i - 1] == xs[i];
    }
    if |xs| > 1 {
      assert xs[1].prev == xs[0];
    }
  }

  /** Move the first item of one list behind the output. */
  method Take(list: Item?, ptr: Item?, first: Item, second: Item?, ghost zs: seq<Item>, ghost xs: seq<Item>,
      ghost ys: seq<Item>)
    returns (list': Item, ptr': Item, first': Item?)
    requires Merging(list, ptr, zs, first, xs, second, ys)
    modifies Items(zs), Items(xs)
    ensures xs != [] && Merging(list', ptr', zs + [xs[0]], first', xs[1..], second, ys)
    ensures list' == (if list == null then first else list) && list'.prev == old(list'.prev)
  {
    ListTail(first, xs);
    assert first == xs[0] && forall x | x in xs[1..] :: x in xs;
    ghost var rest := xs[1..];
    first' := first.next;
    if list == null {
      list', ptr' := first, first;
    } else {
      assert ptr in zs && ptr !in xs && ptr !in rest && ptr !in ys && first !in ys;
      ptr.next := first;
      first.prev := ptr;
      list', ptr' := list, first;
    }
    assert List(first', rest);
    assert List(second, ys);
    ghost var out := zs + [first];
    assert first !in zs;
    assert Distinct(out);
    assert Linked(out);
    assert Apart(out, rest);
    assert Apart(out, ys);
  }

  /** Put what is left of a list behind the output. */
  method Attach(list: Item?, ptr: Item?, rest: Item, ghost zs: seq<Item>, ghost xs: seq<Item>) returns (list': Item)
    requires Merging(list, ptr, zs, rest, xs, null, [])
    modifies Items(zs), Items(xs)
    ensures List(list', zs + xs)
    ensures list' == (if list == null then rest else list) && list'.prev == old(list'.prev)
  {
    if list == null {
      assert zs + xs == xs;
      return rest;
    }
    assert ptr in zs && ptr !in xs && rest in xs && rest !in zs;
    assert forall i | 0 <= i < |zs| - 1 :: zs[i] != ptr;
    assert forall i | 0 < i < |xs| :: xs[i] != rest;
    ptr.next := rest;
    rest.prev := ptr;
    assert Linked(zs) && Linked(xs);
    ghost var all := zs + xs;
    assert Distinct(all) by {
      forall i, j | 0 <= i < j < |all| ensures all[i] != all[j] {
        if i < |zs| <= j {
          assert all[i] in zs && all[j] in xs;
        }
      }
    }
    return list;
  }

  /** The heads of the two lists, and their `prev`. */
  datatype Heads = Heads(a: Item?, p: Item?, b: Item?, q: Item?) {
    ghost function Both(): set<Item> {
      (if a == null then {} else {a}) + if b == null then {} else {b}
    }
  }

  /** The output starts with one of the two heads, whose `prev` is as it was. */
  ghost predicate Headed(list: Item?, first: Item?, second: Item?, h: Heads)
    reads h.Both()
  {
    if list == null then
      first == h.a && second == h.b && (h.a != null ==> h.a.prev == h.p) && (h.b != null ==> h.b.prev == h.q)
    else (list == h.a && h.a.prev == h.p) || (list == h.b && h.b.prev == h.q)
  }

  /** A merge under way whose outcome will be `goal`, made of the items `all`. */
  ghost predicate Going(list: Item?, ptr: Item?, zs: seq<Item>, first: Item?, us: seq<Item>, second: Item?,
      vs: seq<Item>, h: Heads, goal: seq<Item>, all: set<Item>)
    reads h.Both(), Items(zs), Items(us), Items(vs)
  {
    Merging(list, ptr, zs, first, us, second, vs) && Headed(list, first, second, h)
    && zs + Merge(us, vs, Name) == goal && (zs != [] ==> us != [] || vs != []) && Items3(zs, us, vs) <= all
  }

  /** One round of the merge: the smaller head goes behind the output, the second one on a tie. */
  method MergeRound(list: Item?, ptr: Item?, first: Item, second: Item, ghost zs: seq<Item>, ghost us: seq<Item>,
      ghost vs: seq<Item>, ghost h: Heads, ghost goal: seq<Item>, ghost all: set<Item>)
    returns (list': Item, ptr': Item, first': Item?, second': Item?, ghost zs': seq<Item>, ghost us': seq<Item>,
      ghost vs': seq<Item>)
    requires Going(list, ptr, zs, first, us, second, vs, h, goal, all)
    modifies all
    ensures Going(list', ptr', zs', first', us', second', vs', h, goal, all)
    ensures |us'| + |vs'| + 1 == |us| + |vs|
  {
    zs', us', vs', first', second' := zs, us, vs, first, second;
    if CaseCmp(first.name, second.name) < 0 {
      MergeStep(zs, us[0], Merge(us[1..], vs, Name));
      list', ptr', first' := Take(list, ptr, first, second, zs, us, vs);
      zs', us' := zs + [us[0]], us[1..];
    } else {
      MergeStep(zs, vs[0], Merge(us, vs[1..], Name));
      MergingSwap(list, ptr, zs, first, us, second, vs);
      list', ptr', second' := Take(list, ptr, second, first, zs, vs, us);
      zs', vs' := zs + [vs[0]], vs[1..];
      MergingSwap(list', ptr', zs', second', vs', first', us');
    }
  }

  ghost function Items3(zs: seq<Item>, us: seq<Item>, vs: seq<Item>): set<Item> {
    Items(zs) + Items(us) + Items(vs)
  }

  lemma MergingSwap(list: Item?, ptr: Item?, zs: seq<Item>, first: Item?, xs: seq<Item>, second: Item?, ys: seq<Item>)
    requires Merging(list, ptr, zs, first, xs, second, ys)
    ensures Merging(list, ptr, zs, second, ys, first, xs)
  {
  }

  lemma MergeStep(zs: seq<Item>, x: Item, rest: seq<Item>)
    ensures zs + ([x] + rest) == (zs + [x]) + rest
  {
  }

  /** Merge two sorted lists by relinking their items. */
  method MergeLists(a: Item?, b: Item?, ghost xs: seq<Item>, ghost ys: seq<Item>) returns (list: Item?)
    requires List(a, xs) && List(b, ys) && Apart(xs, ys)
    modifies Items(xs), Items(ys)
    ensures List(list, Merge(xs, ys, Name))
    ensures list != null ==> (list == a || list == b) && list.prev == old(list.prev)
  {
    ghost var all := Items(xs) + Items(ys);
    ghost var h := Heads(a, if a == null then null else a.prev, b, if b == null then null else b.prev);
    MergeStart(a, b, xs, ys, h, all);
    list := MergeLoop(a, b, xs, ys, h, Merge(xs, ys, Name), all);
  }

  lemma MergeStart(a: Item?, b: Item?, xs: seq<Item>, ys: seq<Item>, h: Heads, all: set<Item>)
    requires List(a, xs) && List(b, ys) && Apart(xs, ys) && all == Items(xs) + Items(ys)
    requires h == Heads(a, if a == null then null else a.prev, b, if b == null then null else b.prev)
    ensures Going(null, null, [], a, xs, b, ys, h, Merge(xs, ys, Name), all)
  {
    assert [] + Merge(xs, ys, Name) == Merge(xs, ys, Name);
  }

  method MergeLoop(a: Item?, b: Item?, ghost xs: seq<Item>, ghost ys: seq<Item>, ghost h: Heads, ghost goal: seq<Item>,
      ghost all: set<Item>)
    returns (list: Item?)
    requires Going(null, null, [], a, xs, b, ys, h, goal, all)
    modifies all
    ensures List(list, goal) && Headed(list, null, null, h)
  {
    var first, second, ptr: Item? := a, b, null;
    list := null;
    ghost var zs: seq<Item>, us, vs := [], xs, ys;
    while first != null && second != null
      invariant Going(list, ptr, zs, first, us, second, vs, h, goal, all)
      decreases |us| + |vs|
    {
      list, ptr, first, second, zs, us, vs := MergeRound(list, ptr, first, second, zs, us, vs, h, goal, all);
    }
    list := AttachRest(list, ptr, first, second, zs, us, vs, h, goal, all);
  }

  method AttachRest(list: Item?, ptr: Item?, first: Item?, second: Item?, ghost zs: seq<Item>, ghost us: seq<Item>,
      ghost vs: seq<Item>, ghost h: Heads, ghost goal: seq<Item>, ghost all: set<Item>)
    returns (list': Item?)
    requires Going(list, ptr, zs, first, us, second, vs, h, goal, all) && (first == null || second == null)
    modifies all
    ensures List(list', goal)
    ensures Headed(list', null, null, h)
  {
    list' := list;
    if first != null {
      list' := Attach(list, ptr, first, zs, us);
    }
    if second != null {
      MergingSwap(list, ptr, zs, first, us, second, vs);
      list' := Attach(list, ptr, second, zs, vs);
    }
  }

  // ---------- the sort ----------

  /** Whether the list is in strict order already. */
  method InOrder(list: Item, ghost xs: seq<Item>) returns (ordered: bool)
    requires List(list, xs)
    ensures ordered <==> Ordered(xs, Name)
  {
    var ptr := list;
    ghost var k := 0;
    assert xs[0..] == xs;
    while ptr.next != null && CaseCmp(ptr.name, ptr.next.name) < 0
      invariant 0 <= k < |xs| && ptr == xs[k]
      invariant Ordered(xs, Name) <==> Ordered(xs[k..], Name)
      decreases |xs| - k
    {
      Neighbour(xs, k);
      assert xs[k..][1..] == xs[k + 1..];
      ptr := ptr.next;
      k := k + 1;
    }
    if ptr.next != null {
      Neighbour(xs, k);
    }
    ordered := ptr.next == null;
  }

  /** The last item has no next one, any other has. */
  lemma Neighbour(xs: seq<Item>, k: nat)
    requires k < |xs| && Linked(xs) && xs[|xs| - 1].next == null
    ensures xs[k].next == (if k + 1 < |xs| then xs[k + 1] else null)
  {
    assert k + 1 < |xs| ==> xs[k + 1].prev == xs[k + 1 - 1];
  }

  /** Two pointers, one twice as fast, find the middle. */
  method Middle(list: Item, ghost xs: seq<Item>) returns (second: Item)
    requires List(list, xs) && |xs| >= 2
    ensures second == xs[(|xs| + 1) / 2]
  {
    var ptr: Item?;
    second, ptr := list, list;
    ghost var k := 0;
    while ptr != null
      invariant 0 <= k <= (|xs| + 1) / 2 && second == xs[k] && ptr == (if 2 * k < |xs| then xs[2 * k] else null)
      decreases |xs| - k
    {
      Neighbour(xs, k);
      second := second.next;
      Neighbour(xs, 2 * k);
      ptr := ptr.next;
      if ptr != null {
        Neighbour(xs, 2 * k + 1);
        ptr := ptr.next;
      }
      k := k + 1;
    }
  }

  /** Cut the list before its middle item. */
  method Split(list: Item, second: Item, ghost xs: seq<Item>, ghost mid: nat)
    requires List(list, xs) && 0 < mid < |xs| && second == xs[mid]
    modifies Items(xs)
    ensures List(list, xs[..mid]) && List(second, xs[mid..]) && Apart(xs[..mid], xs[mid..])
    ensures Items(xs[..mid]) + Items(xs[mid..]) <= Items(xs)
    ensures forall x | x in Items(xs) :: x.prev == old(x.prev)
  {
    assert xs[mid].prev == xs[mid - 1];
    second.prev.next := null;
    Halves(xs, mid);
  }

  lemma Halves(xs: seq<Item>, mid: nat)
    requires 0 < mid < |xs| && Distinct(xs)
    ensures Apart(xs[..mid], xs[mid..]) && Distinct(xs[..mid]) && Distinct(xs[mid..])
    ensures forall i | 0 <= i < |xs| - mid :: xs[mid..][i] == xs[i + mid]
    ensures Items(xs[..mid]) + Items(xs[mid..]) <= Items(xs)
  {
  }

  /** SortList: the same items in order, on the next chain, with every prev but the first one right. */
  method SortList(list: Item?, ghost xs: seq<Item>) returns (sorted: Item?)
    requires List(list, xs)
    modifies Items(xs)
    ensures List(sorted, Sort(xs, Name))
    ensures sorted != null ==> sorted in Items(xs) && sorted.prev == old(sorted.prev)
    ensures Ordered(xs, Name) ==> sorted == list && forall x | x in Items(xs) :: unchanged(x)
    decreases |xs|, 1
  {
    if list == null || list.next == null {
      if list != null {
        Neighbour(xs, 0);
      }
      return list;
    }
    var ordered := InOrder(list, xs);
    if ordered {
      return list;
    }
    ghost var mid := (|xs| + 1) / 2;
    Neighbour(xs, 0);
    var second := Middle(list, xs);
    Split(list, second, xs, mid);
    sorted := SortHalves(list, second, xs[..mid], xs[mid..], Items(xs));
  }

  method SortHalves(first: Item?, second: Item?, ghost us: seq<Item>, ghost vs: seq<Item>, ghost all: set<Item>)
    returns (sorted: Item?)
    requires List(first, us) && List(second, vs) && Apart(us, vs) && us != [] && vs != []
    requires Items(us) + Items(vs) <= all
    modifies all
    ensures List(sorted, Merge(Sort(us, Name), Sort(vs, Name), Name))
    ensures sorted != null ==> sorted in all && sorted.prev == old(sorted.prev)
    decreases |us| + |vs|, 0
  {
    SortItems(us);
    SortItems(vs);
    assert Items(us) !! Items(vs);
    var a := SortList(first, us);
    assert List(second, vs);
    var b := SortList(second, vs);
    assert List(a, Sort(us, Name));
    sorted := MergeLists(a, b, Sort(us, Name), Sort(vs, Name));
  }

  lemma SortItems(xs: seq<Item>)
    ensures Items(Sort(xs, Name)) == Items(xs)
  {
    SortElements(xs, Name);
    SameItems(Sort(xs, Name), xs);
  }

  lemma SameItems(xs: seq<Item>, ys: seq<Item>)
    requires multiset(xs) == multiset(ys)
    ensures Items(xs) == Items(ys)
  {
    forall x | x in xs ensures x in ys {
      assert x in multiset(xs);
    }
    forall x | x in ys ensures x in xs {
      assert x in multiset(ys);
    }
  }

  // ---------- the list operations ----------

  /** Array or object: the owner of a list. */
  class Parent {
    var child: Item?

    /** The children are `xs`, and the first one has no `prev`, as in a parsed or a built tree. */
    ghost predicate Holds(xs: seq<Item>)
      reads this, Items(xs)
    {
      List(child, xs) && (xs != [] ==> xs[0].prev == null)
    }

    /** The item `which` places down the list, if the list is that long. */
    method Walk(which: nat, ghost xs: seq<Item>) returns (c: Item?)
      requires List(child, xs)
      ensures c == if which < |xs| then xs[which] else null
    {
      var k := 0;
      c := child;
      while c != null && k < which
        invariant k <= which && c == if k < |xs| then xs[k] else null
      {
        Neighbour(xs, k);
        c := c.next;
        k := k + 1;
      }
    }

    /** The last item. */
    method Last(ghost xs: seq<Item>) returns (c: Item)
      requires List(child, xs) && child != null
      ensures xs != [] && c == xs[|xs| - 1]
    {
      c := child;
      ghost var k := 0;
      while c.next != null
        invariant 0 <= k < |xs| && c == xs[k]
        decreases |xs| - k
      {
        Neighbour(xs, k);
        c := c.next;
        k := k + 1;
      }
      Neighbour(xs, k);
    }

    /** cJSON_AddItemToArray: the first item's `prev` stays what it was. */
    method Add(item: Item, ghost xs: seq<Item>)
      requires List(child, xs) && item !in xs && item.next == null
      modifies this, item, Items(xs)
      ensures List(child, xs + [item])
      ensures child.prev == if xs == [] then old(item.prev) else old(child.prev)
    {
      if child == null {
        child := item;
        assert xs + [item] == [item];
        return;
      }
      var c := Last(xs);
      c.next := item;
      item.prev := c;
      assert Distinct(xs + [item]);
    }

    /** cJSON_InsertItemInArray: the first item's `prev` is handed on. */
    method Insert(which: nat, item: Item, ghost xs: seq<Item>)
      requires List(child, xs) && item !in xs && item.next == null
      modifies this, item, Items(xs)
      ensures List(child, if which < |xs| then InsertAt(xs, which, item) else xs + [item])
      ensures child.prev == if xs == [] then old(item.prev) else old(child.prev)
    {
      var c := Walk(which, xs);
      if c == null {
        Add(item, xs);
        return;
      }
      Between(xs, which);
      DistinctInsert(xs, which, item);
      item.next := c;
      item.prev := c.prev;
      c.prev := item;
      if c == child {
        child := item;
      } else {
        item.prev.next := item;
      }
      Inserted(xs, which, item);
    }

    lemma Between(xs: seq<Item>, which: nat)
      requires List(child, xs) && which < |xs|
      ensures which > 0 ==> xs[which].prev == xs[which - 1]
      ensures xs[which].next == (if which + 1 < |xs| then xs[which + 1] else null)
      ensures xs[which] == child <==> which == 0
      ensures xs[which] in Items(xs) && (which > 0 ==> xs[which - 1] in Items(xs))
      ensures which + 1 < |xs| ==> xs[which + 1] in Items(xs)
    {
      Neighbour(xs, which);
    }

    /** What is left when the first item, whose `prev` was `stale`, is gone: a list exactly when
        `stale` was not one of the others; else `stale` comes before the first one again, and the
        items up to it are a ring. */
    ghost predicate FirstGone(xs: seq<Item>, stale: Item?)
      requires xs != []
      reads this, Items(xs)
    {
      child == (if |xs| > 1 then xs[1] else null)
      && (child != null ==> child.prev == stale)
      && (List(child, xs[1..]) <==> stale == null || stale !in xs[1..])
      && (stale != null && stale in xs[1..] ==> Circles(xs[1..], stale))
    }

    /** cJSON_DetachItemFromArray.  Behind the first place it always takes exactly one item out.
        At the first place it follows that item's `prev`, so it does exactly when this is not one
        of the other items; else that item comes before the new first one, and the list is a ring. */
    method Detach(which: nat, ghost xs: seq<Item>) returns (c: Item?)
      requires List(child, xs)
      modifies this, Items(xs), if xs == [] || xs[0].prev == null then {} else {xs[0].prev}
      ensures which >= |xs| ==> c == null && child == old(child) && forall x | x in Items(xs) :: unchanged(x)
      ensures which < |xs| ==> c == xs[which] && c.next == c.prev == null
      ensures 0 < which < |xs| ==> List(child, Without(xs, which)) && child == old(child)
      ensures 0 < which < |xs| ==> child.prev == old(child.prev)
      ensures which == 0 < |xs| ==> FirstGone(xs, old(xs[0].prev))
    {
      c := Walk(which, xs);
      if c == null {
        return;
      }
      if which == 0 {
        DetachFirst(c, xs);
        assert Without(xs, 0) == xs[1..];
      } else {
        DetachLater(which, c, xs);
      }
    }

    /** The first item, whatever its `prev`. */
    method DetachFirst(c: Item, ghost xs: seq<Item>)
      requires List(child, xs) && child == c
      modifies this, Items(xs), if c.prev == null then {} else {c.prev}
      ensures c.next == c.prev == null
      ensures child == (if |xs| > 1 then xs[1] else null) && (child != null ==> child.prev == old(c.prev))
      ensures List(child, xs[1..]) <==> old(c.prev) == null || old(c.prev) !in xs[1..]
      ensures old(c.prev) != null && old(c.prev) in xs[1..] ==> Circles(xs[1..], old(c.prev))
    {
      Neighbour(xs, 0);
      ghost var stale := c.prev;
      assert forall i | 0 <= i < |xs| :: xs[i] in Items(xs);
      Unlink(c);
      if stale == null || stale !in xs[1..] {
        RestLinked(child, xs);
      } else {
        var k :| 0 < k < |xs| && xs[k] == stale;
        TurnsBack(xs, k);
        Ring(child, xs[1..], stale);
      }
    }

    /** Any other item. */
    method DetachLater(which: nat, c: Item, ghost xs: seq<Item>)
      requires List(child, xs) && 0 < which < |xs| && c == xs[which]
      modifies this, Items(xs)
      ensures c.next == c.prev == null
      ensures List(child, Without(xs, which)) && child == old(child) && child.prev == old(child.prev)
    {
      Between(xs, which);
      DistinctRemove(xs, which);
      Unlink(c);
      Detached(xs, which);
    }

    /** Take `c` out of the list it is linked into. */
    method Unlink(c: Item)
      requires c.next != c
      modifies this, c, if c.prev == null then {} else {c.prev}, if c.next == null then {} else {c.next}
      ensures c.next == null && c.prev == null
      ensures old(c.prev) != null && old(c.prev) != c ==> old(c.prev).next == old(c.next)
      ensures old(c.next) != null ==> old(c.next).prev == old(c.prev)
      ensures old(c.prev) !in {null, c, old(c.next)} ==> old(c.prev).prev == old(c.prev.prev)
      ensures old(c.next) != null && old(c.prev) != old(c.next) ==> old(c.next).next == old(c.next.next)
      ensures child == if old(child) == c then old(c.next) else old(child)
    {
      if c.prev != null {
        c.prev.next := c.next;
      }
      if c.next != null {
        c.next.prev := c.prev;
      }
      if c == child {
        child := c.next;
      }
      c.prev, c.next := null, null;
    }

    lemma Detached(xs: seq<Item>, which: nat)
      requires 0 < which < |xs| && Distinct(Without(xs, which))
      requires forall i | 0 < i < which :: xs[i].prev == xs[i - 1] && xs[i - 1].next == xs[i]
      requires forall i | which + 1 < i < |xs| :: xs[i].prev == xs[i - 1] && xs[i - 1].next == xs[i]
      requires which + 1 < |xs| ==> xs[|xs| - 1].next == null && xs[which + 1].prev == xs[which - 1]
      requires xs[which - 1].next == (if which + 1 < |xs| then xs[which + 1] else null)
      requires child == xs[0]
      ensures List(child, Without(xs, which))
    {
      var all := Without(xs, which);
      forall i | 0 < i < |all| ensures all[i].prev == all[i - 1] && all[i - 1].next == all[i] {
        if i > which {
          assert all[i] == xs[i + 1] && all[i - 1] == xs[i] && xs[i + 1].prev == xs[i + 1 - 1];
        } else if i < which {
          assert all[i] == xs[i] && all[i - 1] == xs[i - 1];
        }
      }
    }

    lemma Inserted(xs: seq<Item>, which: nat, item: Item)
      requires which < |xs| && Distinct(InsertAt(xs, which, item))
      requires forall i | 0 < i < which :: xs[i].prev == xs[i - 1] && xs[i - 1].next == xs[i]
      requires forall i | which < i < |xs| :: xs[i].prev == xs[i - 1] && xs[i - 1].next == xs[i]
      requires xs[|xs| - 1].next == null && xs[which].prev == item && item.next == xs[which]
      requires which > 0 ==> item.prev == xs[which - 1] && xs[which - 1].next == item
      requires child == if which == 0 then item else xs[0]
      ensures List(child, InsertAt(xs, which, item))
    {
      var all := InsertAt(xs, which, item);
      forall i | 0 < i < |all| ensures all[i].prev == all[i - 1] && all[i - 1].next == all[i] {
        if i > which + 1 {
          assert all[i] == xs[i - 1] && all[i - 1] == xs[i - 2] && xs[i - 1].prev == xs[i - 1 - 1];
        } else if i < which {
          assert all[i] == xs[i] && all[i - 1] == xs[i - 1];
        }
      }
    }
  }

  lemma RestLinked(head: Item?, xs: seq<Item>)
    requires Distinct(xs) && xs != [] && head == (if |xs| > 1 then xs[1] else null)
    requires forall i | 1 < i < |xs| :: xs[i].prev == xs[i - 1] && xs[i - 1].next == xs[i]
    requires |xs| > 1 ==> xs[|xs| - 1].next == null
    ensures List(head, xs[1..])
  {
    forall i | 0 < i < |xs[1..]| ensures xs[1..][i].prev == xs[1..][i - 1] && xs[1..][i - 1].next == xs[1..][i] {
      assert xs[1..][i] == xs[i + 1] && xs[1..][i - 1] == xs[i] && xs[i + 1].prev == xs[i + 1 - 1];
    }
  }

  /** From the first item the way leads to `last` and from there back to the first. */
  ghost predicate Circles(ys: seq<Item>, last: Item)
    reads Items(ys)
  {
    exists k | 0 <= k < |ys| :: ys[k] == last && ys[k].next == ys[0] && forall i | 0 <= i < k :: ys[i].next == ys[i + 1]
  }

  lemma TurnsBack(xs: seq<Item>, k: nat)
    requires 0 < k < |xs| && xs[k].next == xs[1] && forall i | 0 < i < k :: xs[i].next == xs[i + 1]
    ensures Circles(xs[1..], xs[k])
  {
    var ys := xs[1..];
    assert forall i | 0 <= i < |ys| :: ys[i] == xs[i + 1];
  }

  /** So no number of steps from the first item reaches an end. */
  lemma CirclesEndless(ys: seq<Item>, last: Item, n: nat)
    requires Circles(ys, last)
    ensures Ahead(ys[0], n) != null
  {
    var k :| 0 <= k < |ys| && ys[k] == last && ys[k].next == ys[0] && forall i | 0 <= i < k :: ys[i].next == ys[i + 1];
    Endless(ys[..k + 1], 0, n);
  }

  lemma Ring(head: Item?, ys: seq<Item>, last: Item)
    requires Circles(ys, last)
    ensures !List(head, ys)
  {
    if List(head, ys) {
      var k :| 0 <= k < |ys| && ys[k] == last;
      Neighbour(ys, k);
    }
  }

  /** The item `n` steps ahead. */
  ghost function Ahead(c: Item?, n: nat): Item?
    reads *
    decreases n
  {
    if c == null || n == 0 then c else Ahead(c.next, n - 1)
  }

  /** On a ring no number of steps reaches an end. */
  lemma {:induction false} Endless(ring: seq<Item>, i: nat, n: nat)
    requires i < |ring| && forall k | 0 <= k < |ring| :: ring[k].next == ring[if k + 1 < |ring| then k + 1 else 0]
    ensures Ahead(ring[i], n) != null
    decreases n
  {
    if n > 0 {
      Endless(ring, if i + 1 < |ring| then i + 1 else 0, n - 1);
    }
  }

  lemma DistinctRemove(xs: seq<Item>, which: nat)
    requires Distinct(xs) && which < |xs|
    ensures Distinct(Without(xs, which))
  {
    var all := Without(xs, which);
    forall i, j | 0 <= i < j < |all| ensures all[i] != all[j] {
      assert all[i] == xs[if i < which then i else i + 1] && all[j] == xs[if j < which then j else j + 1];
    }
  }

  lemma DistinctInsert(xs: seq<Item>, which: nat, item: Item)
    requires Distinct(xs) && item !in xs && which < |xs|
    ensures Distinct(InsertAt(xs, which, item))
  {
    var all := InsertAt(xs, which, item);
    forall i, j | 0 <= i < j < |all| ensures all[i] != all[j] {
      var a, b := if i <= which then i else i - 1, if j <= which then j else j - 1;
      assert i != which ==> all[i] == xs[a];
      assert j != which ==> all[j] == xs[b];
    }
  }

  // ---------- the sort and then the list operations ----------

  /** The item that the sort will put first has a `prev` among the others unless it is first now. */
  lemma SortedHead(xs: seq<Item>, ys: seq<Item>)
    requires Distinct(xs) && Linked(xs) && xs != [] && xs[0].prev == null && ys == Sort(xs, Name)
    ensures |ys| == |xs| && Items(ys) == Items(xs)
    ensures if ys[0] == xs[0] then ys[0].prev == null else ys[0].prev != null && ys[0].prev in ys[1..]
  {
    SortElements(xs, Name);
    SortItems(xs);
    assert |multiset(ys)| == |multiset(xs)|;
    assert ys[0] in Items(ys);
    var i :| 0 <= i < |xs| && xs[i] == ys[0];
    if i > 0 {
      assert xs[i].prev == xs[i - 1] && xs[i - 1] in Items(xs);
      assert xs[i - 1] in ys && xs[i - 1] != ys[0];
    }
  }

  /** Sort the members of an object, as a comparison does, then detach the first one: what is left
      is a list exactly when that item was the first one before. */
  method SortThenDetach(owner: Parent, ghost xs: seq<Item>) returns (c: Item)
    requires owner.Holds(xs) && xs != []
    modifies owner, Items(xs)
    ensures |Sort(xs, Name)| == |xs| && c == Sort(xs, Name)[0]
    ensures owner.child == if |xs| > 1 then Sort(xs, Name)[1] else null
    ensures List(owner.child, Sort(xs, Name)[1..]) <==> c == xs[0]
  {
    ghost var ys := Sort(xs, Name);
    SortedHead(xs, ys);
    owner.child := SortList(owner.child, xs);
    c := owner.child;
    owner.DetachFirst(c, ys);
  }

  /** Two members, the second with the lesser name: after the sort and the removal the other one
      follows itself. */
  method SortThenDetachRing(owner: Parent, a: Item, b: Item)
    requires owner.Holds([b, a]) && CaseCmp(a.name, b.name) < 0
    modifies owner, a, b
    ensures owner.child == b && b.next == b
  {
    var ys := [a, b];
    SortTwo(a, b);
    assert Items([b, a]) == {a, b};
    assert a.prev == [b, a][0];
    owner.child := SortList(owner.child, [b, a]);
    owner.DetachFirst(a, ys);
  }

  lemma SortTwo(a: Item, b: Item)
    requires CaseCmp(a.name, b.name) < 0
    ensures Sort([b, a], Name) == [a, b]
  {
    CaseFlip(a.name, b.name);
    assert [b, a][..1] == [b] && [b, a][1..] == [a];
    assert Merge([b], [a], Name) == [a] + Merge([b], [], Name);
  }
}
