/**
 The loops of JSON Patch: the comparison, the generator that appends to a list of patches, and
 the interpreter that changes a document patch by patch.
 */
module JsonPatchRun {
  import opened JsonNumbers
  import opened JsonStrings
  import opened JsonText
  import opened JsonKeys
  import opened JsonPointer
  import opened JsonPatch

  lemma BehindMore<T>(x: seq<T>, y: seq<T>, u: seq<T>, v: seq<T>, r: (seq<T>, seq<T>))
    ensures Behind(x, y, Behind(u, v, r)) == Behind(x + u, y + v, r)
  {
    assert x + (u + r.0) == (x + u) + r.0 && y + (v + r.1) == (y + v) + r.1;
  }

  lemma BehindNone<T>(r: (seq<T>, seq<T>))
    ensures Behind([], [], r) == r
  {
    assert [] + r.0 == r.0 && [] + r.1 == r.1;
  }

  /** Compare: the code of the first difference, and both trees with the objects sorted that were compared. */
  method CompareTrees(a: Json, b: Json) returns (err: int, a': Json, b': Json)
    ensures err == Compare(a, b) && (a', b') == Compared(a, b)
    decreases Depth(a), 1
  {
    if !SameKind(a, b) {
      return -1, a, b;
    }
    match a
    case Num(mant, exp) => return if Normal(mant, exp) != Normal(b.mant, b.exp) then -2 else 0, a, b;
    case Str(s) => return if s != b.s then -3 else 0, a, b;
    case Arr(items) =>
      var s, t;
      err, s, t := CompareLists(Depth(a), items, b.items);
      return err, Arr(s), Arr(t);
    case Obj(_) =>
      var s, t;
      err, s, t := CompareObjects(Depth(a), Sorted(a), Sorted(b));
      return err, Obj(s), Obj(t);
    case _ => return 0, a, b;
  }

  method CompareLists(ghost d: nat, s: seq<Json>, t: seq<Json>) returns (err: int, s': seq<Json>, t': seq<Json>)
    requires forall v <- s :: Depth(v) < d
    ensures err == CompareItems(d, s, t) && (s', t') == ComparedItems(d, s, t)
    decreases d, 0
  {
    var x, y, u, v := s, t, [], [];
    BehindNone(ComparedItems(d, s, t));
    while x != [] && y != []
      invariant (forall v <- x :: Depth(v) < d) && CompareItems(d, x, y) == CompareItems(d, s, t)
      invariant Behind(u, v, ComparedItems(d, x, y)) == ComparedItems(d, s, t)
      decreases |x|
    {
      var e, p, q := CompareTrees(x[0], y[0]);
      BehindMore(u, v, [p], [q], if e != 0 then (x[1..], y[1..]) else ComparedItems(d, x[1..], y[1..]));
      x, y, u, v := x[1..], y[1..], u + [p], v + [q];
      if e != 0 {
        return e, u + x, v + y;
      }
    }
    return if x != [] || y != [] then -4 else 0, u + x, v + y;
  }

  method CompareObjects(ghost d: nat, s: seq<Member>, t: seq<Member>)
    returns (err: int, s': seq<Member>, t': seq<Member>)
    requires Below(s, d)
    ensures err == CompareMembers(d, s, t) && (s', t') == ComparedMembers(d, s, t)
    decreases d, 0
  {
    var x, y, u, v := s, t, [], [];
    BehindNone(ComparedMembers(d, s, t));
    while x != [] && y != []
      invariant Below(x, d) && CompareMembers(d, x, y) == CompareMembers(d, s, t)
      invariant Behind(u, v, ComparedMembers(d, x, y)) == ComparedMembers(d, s, t)
      decreases |x|
    {
      if CaseCmp(x[0].key, y[0].key) != 0 {
        return -6, u + x, v + y;
      }
      var e, p, q := CompareTrees(x[0].val, y[0].val);
      var m, n := Member(x[0].key, p), Member(y[0].key, q);
      BehindMore(u, v, [m], [n], if e != 0 then (x[1..], y[1..]) else ComparedMembers(d, x[1..], y[1..]));
      x, y, u, v := x[1..], y[1..], u + [m], v + [n];
      if e != 0 {
        return e, u + x, v + y;
      }
    }
    return if x != [] || y != [] then -5 else 0, u + x, v + y;
  }

  /** The array of patches under construction. */
  class PatchArray {
    var patches: seq<Edit>

    constructor ()
      ensures patches == []
    {
      patches := [];
    }

    /** GeneratePatch */
    method Generate(op: string, path: string, val: Option<Json>)
      modifies this
      ensures patches == old(patches) + [Edit(op, path, val)]
    {
      patches := patches + [Edit(op, path, val)];
    }

    /** CompareToPatch: appends the edits, and sorts the objects it compares. */
    method CompareToPatch(path: string, from: Json, to: Json) returns (from': Json, to': Json)
      modifies this
      ensures patches == old(patches) + Diff(path, from, to) && (from', to') == Diffed(from, to)
      decreases Depth(from), 1
    {
      from', to' := from, to;
      if !SameKind(from, to) {
        Generate("replace", path, Some(to));
        return;
      }
      match from {
        case Num(mant, exp) =>
          if Normal(mant, exp) != Normal(to.mant, to.exp) {
            Generate("replace", path, Some(to));
          }
        case Str(s) =>
          if s != to.s {
            Generate("replace", path, Some(to));
          }
        case Arr(items) =>
          var f, t := CompareItemsToPatch(path, Depth(from), items, to.items);
          from', to' := Arr(f), Arr(t);
        case Obj(_) =>
          var f, t := CompareMembersToPatch(path, Depth(from), Sorted(from), Sorted(to));
          from', to' := Obj(f), Obj(t);
        case _ =>
      }
    }

    method CompareItemsToPatch(path: string, ghost d: nat, from: seq<Json>, to: seq<Json>)
      returns (from': seq<Json>, to': seq<Json>)
      requires forall v <- from :: Depth(v) < d
      modifies this
      ensures patches == old(patches) + DiffItems(d, path, 0, from, to) && (from', to') == DiffedItems(d, from, to)
      decreases d, 0
    {
      var c, f, t, x, y := 0, from, to, [], [];
      BehindNone(DiffedItems(d, from, to));
      while f != [] && t != []
        invariant forall v <- f :: Depth(v) < d
        invariant patches + DiffItems(d, path, c, f, t) == old(patches) + DiffItems(d, path, 0, from, to)
        invariant Behind(x, y, DiffedItems(d, f, t)) == DiffedItems(d, from, to)
        decreases |f|
      {
        Regroup(patches, Diff(path + "/" + Decimal(c), f[0], t[0]), DiffItems(d, path, c + 1, f[1..], t[1..]));
        var p, q := CompareToPatch(path + "/" + Decimal(c), f[0], t[0]);
        BehindMore(x, y, [p], [q], DiffedItems(d, f[1..], t[1..]));
        c, f, t, x, y := c + 1, f[1..], t[1..], x + [p], y + [q];
      }
      from', to' := x + f, y + t;
      RestItems(path, d, c, f, t);
    }

    /** The last two loops: elements that are left over on one side. */
    method RestItems(path: string, ghost d: nat, from: nat, f: seq<Json>, t: seq<Json>)
      requires (forall v <- f :: Depth(v) < d) && (f == [] || t == [])
      modifies this
      ensures patches == old(patches) + DiffItems(d, path, from, f, t)
    {
      RemoveItems(path, d, from, f);
      AddItems(path, d, from, t);
    }

    method RemoveItems(path: string, ghost d: nat, from: nat, f: seq<Json>)
      requires forall v <- f :: Depth(v) < d
      modifies this
      ensures patches == old(patches) + DiffItems(d, path, from, f, [])
    {
      var c, rest := from, f;
      while rest != []
        invariant forall v <- rest :: Depth(v) < d
        invariant patches + DiffItems(d, path, c, rest, []) == old(patches) + DiffItems(d, path, from, f, [])
        decreases |rest|
      {
        Regroup(patches, [Edit("remove", path + "/" + Encode(Decimal(c)), None)],
          DiffItems(d, path, c + 1, rest[1..], []));
        Generate("remove", path + "/" + Encode(Decimal(c)), None);
        c, rest := c + 1, rest[1..];
      }
    }

    method AddItems(path: string, ghost d: nat, from: nat, t: seq<Json>)
      modifies this
      ensures patches == old(patches) + DiffItems(d, path, from, [], t)
    {
      var rest := t;
      ghost var c := from;
      while rest != []
        invariant patches + DiffItems(d, path, c, [], rest) == old(patches) + DiffItems(d, path, from, [], t)
        decreases |rest|
      {
        Regroup(patches, [Edit("add", path + "/" + Encode("-"), Some(rest[0]))],
          DiffItems(d, path, c + 1, [], rest[1..]));
        Generate("add", path + "/" + Encode("-"), Some(rest[0]));
        rest := rest[1..];
        c := c + 1;
      }
    }

    method CompareMembersToPatch(path: string, ghost d: nat, from: seq<Member>, to: seq<Member>)
      returns (from': seq<Member>, to': seq<Member>)
      requires Below(from, d)
      modifies this
      ensures patches == old(patches) + DiffMembers(d, path, from, to) && (from', to') == DiffedMembers(d, from, to)
      decreases d, 0
    {
      var a, b := from, to;
      from', to' := [], [];
      BehindNone(DiffedMembers(d, from, to));
      while a != [] || b != []
        invariant Below(a, d)
        invariant patches + DiffMembers(d, path, a, b) == old(patches) + DiffMembers(d, path, from, to)
        invariant Behind(from', to', DiffedMembers(d, a, b)) == DiffedMembers(d, from, to)
        decreases |a| + |b|
      {
        var diff := MergeOrder(a, b);
        if diff == 0 {
          var newpath := path + "/" + Encode(a[0].key);
          Regroup(patches, Diff(newpath, a[0].val, b[0].val), DiffMembers(d, path, a[1..], b[1..]));
          var p, q := CompareToPatch(newpath, a[0].val, b[0].val);
          var m, n := Member(a[0].key, p), Member(b[0].key, q);
          BehindMore(from', to', [m], [n], DiffedMembers(d, a[1..], b[1..]));
          a, b, from', to' := a[1..], b[1..], from' + [m], to' + [n];
        } else if diff < 0 {
          Regroup(patches, [Edit("remove", path + "/" + Encode(a[0].key), None)], DiffMembers(d, path, a[1..], b));
          Generate("remove", path + "/" + Encode(a[0].key), None);
          BehindMore(from', to', [a[0]], [], DiffedMembers(d, a[1..], b));
          a, from' := a[1..], from' + [a[0]];
          assert to' + [] == to';
        } else {
          Regroup(patches, [Edit("add", path + "/" + Encode(b[0].key), Some(b[0].val))],
            DiffMembers(d, path, a, b[1..]));
          Generate("add", path + "/" + Encode(b[0].key), Some(b[0].val));
          BehindMore(from', to', [], [b[0]], DiffedMembers(d, a, b[1..]));
          b, to' := b[1..], to' + [b[0]];
          assert from' + [] == from';
        }
      }
      assert from' + [] == from' && to' + [] == to';
    }
  }

  lemma Regroup(a: seq<Edit>, b: seq<Edit>, c: seq<Edit>)
    ensures a + (b + c) == (a + b) + c
  {
  }

  class Document {
    var root: Json

    constructor (root: Json)
      ensures this.root == root
    {
      this.root := root;
    }

    /** ApplyPatches: None when the interpreter crashes. */
    method ApplyPatches(patches: Json) returns (code: Option<int>)
      modifies this
      ensures !patches.Arr? ==> code == Some(1) && root == old(root)
      ensures patches.Arr? ==> (match ApplyAll(old(root), patches.items)
        case Crash => code == None
        case Done(c, doc) => code == Some(c) && root == doc)
    {
      if !patches.Arr? {
        return Some(1);
      }
      var todo := patches.items;
      while todo != []
        invariant ApplyAll(old(root), patches.items) == ApplyAll(root, todo)
        decreases |todo|
      {
        match ApplyPatch(root, todo[0]) {
          case Crash => return None;
          case Done(err, doc) =>
            root := doc;
            if err != 0 {
              return Some(err);
            }
        }
        todo := todo[1..];
      }
      return Some(0);
    }
  }
}
