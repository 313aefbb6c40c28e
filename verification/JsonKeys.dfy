/**
 Names of object members: the case-insensitive order, and the merge sort of cJSON_Utils as a
 function on sequences.
 */
module JsonKeys {
  function Lower(c: char): char {
    if 'A' <= c <= 'Z' then (c as int + 32) as char else c
  }

  function Fold(s: string): (r: string)
    ensures |r| == |s|
  {
    if s == "" then "" else [Lower(s[0])] + Fold(s[1..])
  }

  /** The sign of strcasecmp: the first difference decides, and the end of a name comes first. */
  function CaseCmp(s: string, t: string): int {
    if s == "" && t == "" then 0
    else if s == "" then -1
    else if t == "" then 1
    else if Lower(s[0]) == Lower(t[0]) then CaseCmp(s[1..], t[1..])
    else if Lower(s[0]) < Lower(t[0]) then -1
    else 1
  }

  // ---------- the order ----------

  lemma {:induction false} CaseFold(s: string, t: string)
    ensures CaseCmp(s, t) == 0 <==> Fold(s) == Fold(t)
  {
    if s != "" && t != "" {
      CaseFold(s[1..], t[1..]);
      assert Fold(s)[1..] == Fold(s[1..]) && Fold(t)[1..] == Fold(t[1..]);
      assert Fold(s)[0] == Lower(s[0]) && Fold(t)[0] == Lower(t[0]);
    }
  }

  lemma {:induction false} CaseFlip(s: string, t: string)
    ensures CaseCmp(s, t) == -CaseCmp(t, s)
  {
    if s != "" && t != "" {
      CaseFlip(s[1..], t[1..]);
    }
  }

  lemma {:induction false} CaseTrans(s: string, t: string, u: string)
    requires CaseCmp(s, t) <= 0 && CaseCmp(t, u) <= 0
    ensures CaseCmp(s, u) <= 0 && (CaseCmp(s, t) < 0 || CaseCmp(t, u) < 0 ==> CaseCmp(s, u) < 0)
  {
    if s != "" && t != "" && u != "" && Lower(s[0]) == Lower(t[0]) == Lower(u[0]) {
      CaseTrans(s[1..], t[1..], u[1..]);
    }
  }

  // ---------- what the order is ----------

  const CAPITALS := "ABCDEFGHIJKLMNOPQRSTUVWXYZ"
  const SMALL := "abcdefghijklmnopqrstuvwxyz"

  /** `d` is the small letter to `c`, or `c` itself if it is no capital. */
  predicate SmallTo(c: char, d: char) {
    (exists i | 0 <= i < 26 :: CAPITALS[i] == c && SMALL[i] == d) || (c !in CAPITALS && d == c)
  }

  lemma LowerSmall(c: char, d: char)
    ensures Lower(c) == d <==> SmallTo(c, d)
  {
    forall i | 0 <= i < 26 ensures Lower(CAPITALS[i]) == SMALL[i] {
      Letter(i);
    }
    if 'A' <= c <= 'Z' {
      Letter(c as int - 65);
      assert CAPITALS[c as int - 65] == c;
    } else if c in CAPITALS {
      var i :| 0 <= i < 26 && CAPITALS[i] == c;
      Letter(i);
    }
  }

  /** The letters follow each other, the small ones 32 places behind. */
  lemma Letter(i: nat)
    requires i < 26
    ensures CAPITALS[i] as int == 65 + i && SMALL[i] as int == 97 + i
  {
  }

  /** Letters alike but for case. */
  predicate Alike(c: char, d: char) {
    exists e :: SmallTo(c, e) && SmallTo(d, e)
  }

  /** `c` comes before `d` once both are small. */
  predicate Earlier(c: char, d: char) {
    exists e, f :: SmallTo(c, e) && SmallTo(d, f) && e < f
  }

  /** The names are alike up to `i`, where the first ends or goes on with a lesser character. */
  predicate Precedes(s: string, t: string, i: nat) {
    i <= |s| && i < |t| && (forall j | 0 <= j < i :: Alike(s[j], t[j])) && (i == |s| || Earlier(s[i], t[i]))
  }

  lemma AlikeLower(c: char, d: char)
    ensures Alike(c, d) <==> Lower(c) == Lower(d)
    ensures Earlier(c, d) <==> Lower(c) < Lower(d)
  {
    LowerSmall(c, Lower(c));
    LowerSmall(d, Lower(d));
    forall e, f | SmallTo(c, e) && SmallTo(d, f) ensures e == Lower(c) && f == Lower(d) {
      LowerSmall(c, e);
      LowerSmall(d, f);
    }
  }

  /** A name comes before another exactly when it does so letter by letter, as in a dictionary. */
  lemma {:induction false} CaseBefore(s: string, t: string)
    ensures CaseCmp(s, t) < 0 <==> exists i: nat :: Precedes(s, t, i)
  {
    if s != "" && t != "" {
      AlikeLower(s[0], t[0]);
      CaseBefore(s[1..], t[1..]);
      forall i: nat | Precedes(s[1..], t[1..], i) && Alike(s[0], t[0]) ensures Precedes(s, t, i + 1) {
        PrecedesOn(s, t, i);
      }
      forall i: nat | i > 0 && Precedes(s, t, i) ensures Alike(s[0], t[0]) && Precedes(s[1..], t[1..], i - 1) {
        PrecedesOn(s, t, i - 1);
      }
      if Earlier(s[0], t[0]) {
        assert Precedes(s, t, 0);
      }
    } else if t != "" {
      assert Precedes(s, t, 0);
    }
  }

  lemma PrecedesOn(s: string, t: string, i: nat)
    requires s != "" && t != ""
    ensures Precedes(s, t, i + 1) <==> Alike(s[0], t[0]) && Precedes(s[1..], t[1..], i)
  {
    assert forall j | 0 <= j < |s| - 1 :: s[1..][j] == s[j + 1];
    assert forall j | 0 <= j < |t| - 1 :: t[1..][j] == t[j + 1];
    if Precedes(s, t, i + 1) {
      forall j | 0 <= j < i ensures Alike(s[1..][j], t[1..][j]) {
        assert Alike(s[j + 1], t[j + 1]);
      }
    }
    if Alike(s[0], t[0]) && Precedes(s[1..], t[1..], i) {
      forall j | 0 <= j < i + 1 ensures Alike(s[j], t[j]) {
        assert j > 0 ==> Alike(s[1..][j - 1], t[1..][j - 1]);
      }
    }
  }

  // ---------- the sort ----------

  /** Every name comes before the next one. */
  predicate Ordered<T>(xs: seq<T>, key: T -> string) {
    |xs| < 2 || (CaseCmp(key(xs[0]), key(xs[1])) < 0 && Ordered(xs[1..], key))
  }

  function Merge<T>(xs: seq<T>, ys: seq<T>, key: T -> string): seq<T> {
    if xs == [] then ys
    else if ys == [] then xs
    else if CaseCmp(key(xs[0]), key(ys[0])) < 0 then [xs[0]] + Merge(xs[1..], ys, key)
    else [ys[0]] + Merge(xs, ys[1..], key)
  }

  /** SortList: a list in strict order is left alone, any other is halved, sorted and merged. */
  function Sort<T>(xs: seq<T>, key: T -> string): seq<T>
    decreases |xs|
  {
    if Ordered(xs, key) then xs
    else
      var mid := (|xs| + 1) / 2;
      Merge(Sort(xs[..mid], key), Sort(xs[mid..], key), key)
  }

  /** Nondecreasing: each name is at most every later one. */
  ghost predicate Rising<T>(xs: seq<T>, key: T -> string) {
    xs != [] ==> AtMost(key(xs[0]), xs[1..], key) && Rising(xs[1..], key)
  }

  ghost predicate AtMost<T>(k: string, xs: seq<T>, key: T -> string) {
    forall i | 0 <= i < |xs| :: CaseCmp(k, key(xs[i])) <= 0
  }

  lemma {:induction false} MergeElements<T>(xs: seq<T>, ys: seq<T>, key: T -> string)
    ensures multiset(Merge(xs, ys, key)) == multiset(xs) + multiset(ys)
  {
    if xs != [] && ys != [] {
      assert xs == [xs[0]] + xs[1..] && ys == [ys[0]] + ys[1..];
      if CaseCmp(key(xs[0]), key(ys[0])) < 0 {
        MergeElements(xs[1..], ys, key);
      } else {
        MergeElements(xs, ys[1..], key);
      }
    }
  }

  lemma {:induction false} SortElements<T>(xs: seq<T>, key: T -> string)
    ensures multiset(Sort(xs, key)) == multiset(xs)
    decreases |xs|
  {
    if !Ordered(xs, key) {
      var mid := (|xs| + 1) / 2;
      SortElements(xs[..mid], key);
      SortElements(xs[mid..], key);
      HalvesElements(xs, mid, Sort(xs[..mid], key), Sort(xs[mid..], key));
      MergeElements(Sort(xs[..mid], key), Sort(xs[mid..], key), key);
    }
  }

  lemma HalvesElements<T>(xs: seq<T>, mid: nat, us: seq<T>, vs: seq<T>)
    requires mid <= |xs| && multiset(us) == multiset(xs[..mid]) && multiset(vs) == multiset(xs[mid..])
    ensures multiset(us) + multiset(vs) == multiset(xs)
  {
    assert xs == xs[..mid] + xs[mid..];
  }

  lemma AtMostAll<T>(k: string, xs: seq<T>, ys: seq<T>, zs: seq<T>, key: T -> string)
    requires AtMost(k, xs, key) && AtMost(k, ys, key) && multiset(zs) == multiset(xs) + multiset(ys)
    ensures AtMost(k, zs, key)
  {
    forall i | 0 <= i < |zs| ensures CaseCmp(k, key(zs[i])) <= 0 {
      assert zs[i] in multiset(zs);
      assert zs[i] in xs || zs[i] in ys;
    }
  }

  lemma AtMostBelow<T>(k: string, xs: seq<T>, key: T -> string)
    requires xs != [] && CaseCmp(k, key(xs[0])) <= 0 && Rising(xs, key)
    ensures AtMost(k, xs, key)
  {
    forall i | 0 <= i < |xs| ensures CaseCmp(k, key(xs[i])) <= 0 {
      if i > 0 {
        assert xs[i] == xs[1..][i - 1];
        CaseTrans(k, key(xs[0]), key(xs[i]));
      }
    }
  }

  lemma {:induction false} MergeRising<T>(xs: seq<T>, ys: seq<T>, key: T -> string)
    requires Rising(xs, key) && Rising(ys, key)
    ensures Rising(Merge(xs, ys, key), key)
  {
    if xs != [] && ys != [] {
      if CaseCmp(key(xs[0]), key(ys[0])) < 0 {
        AtMostBelow(key(xs[0]), ys, key);
        MergeElements(xs[1..], ys, key);
        AtMostAll(key(xs[0]), xs[1..], ys, Merge(xs[1..], ys, key), key);
        MergeRising(xs[1..], ys, key);
      } else {
        CaseFlip(key(xs[0]), key(ys[0]));
        AtMostBelow(key(ys[0]), xs, key);
        MergeElements(xs, ys[1..], key);
        AtMostAll(key(ys[0]), xs, ys[1..], Merge(xs, ys[1..], key), key);
        MergeRising(xs, ys[1..], key);
      }
    }
  }

  lemma {:induction false} OrderedRising<T>(xs: seq<T>, key: T -> string)
    requires Ordered(xs, key)
    ensures Rising(xs, key)
  {
    if |xs| >= 2 {
      OrderedRising(xs[1..], key);
      AtMostBelow(key(xs[0]), xs[1..], key);
    }
  }

  /** The sorted list has the same elements in nondecreasing order; a strictly increasing one is untouched. */
  lemma {:induction false} SortSorts<T>(xs: seq<T>, key: T -> string)
    ensures Rising(Sort(xs, key), key) && multiset(Sort(xs, key)) == multiset(xs)
    ensures Ordered(xs, key) ==> Sort(xs, key) == xs
    decreases |xs|
  {
    SortElements(xs, key);
    if Ordered(xs, key) {
      OrderedRising(xs, key);
    } else {
      var mid := (|xs| + 1) / 2;
      SortSorts(xs[..mid], key);
      SortSorts(xs[mid..], key);
      MergeRising(Sort(xs[..mid], key), Sort(xs[mid..], key), key);
    }
  }

  // ---------- equal names ----------

  /** The elements with a name, case aside, in order. */
  function Named<T>(xs: seq<T>, key: T -> string, name: string): seq<T> {
    if xs == [] then []
    else Alone(xs[0], key, name) + Named(xs[1..], key, name)
  }

  function Alone<T>(x: T, key: T -> string, name: string): seq<T> {
    if CaseCmp(name, key(x)) == 0 then [x] else []
  }

  function Reversed<T>(xs: seq<T>): seq<T> {
    if xs == [] then [] else Reversed(xs[1..]) + [xs[0]]
  }

  lemma {:induction false} NamedConcat<T>(xs: seq<T>, ys: seq<T>, key: T -> string, name: string)
    ensures Named(xs + ys, key, name) == Named(xs, key, name) + Named(ys, key, name)
  {
    if xs == [] {
      assert xs + ys == ys;
    } else {
      assert (xs + ys)[1..] == xs[1..] + ys;
      NamedConcat(xs[1..], ys, key, name);
      Group(Alone(xs[0], key, name), Named(xs[1..], key, name), Named(ys, key, name));
    }
  }

  lemma {:induction false} ReversedConcat<T>(xs: seq<T>, ys: seq<T>)
    ensures Reversed(xs + ys) == Reversed(ys) + Reversed(xs)
  {
    if xs == [] {
      assert xs + ys == ys;
    } else {
      assert (xs + ys)[1..] == xs[1..] + ys;
      ReversedConcat(xs[1..], ys);
    }
  }

  /** Names that all come later are not this one. */
  lemma {:induction false} NoneNamed<T>(k: string, name: string, xs: seq<T>, key: T -> string)
    requires AtMost(k, xs, key) && CaseCmp(name, k) < 0
    ensures Named(xs, key, name) == []
  {
    if xs != [] {
      CaseTrans(name, k, key(xs[0]));
      assert forall i | 0 <= i < |xs| - 1 :: xs[1..][i] == xs[i + 1];
      NoneNamed(k, name, xs[1..], key);
    }
  }

  lemma {:induction false} OrderedOnce<T>(xs: seq<T>, key: T -> string, name: string)
    requires Ordered(xs, key)
    ensures Reversed(Named(xs, key, name)) == Named(xs, key, name)
  {
    if |xs| >= 2 {
      OrderedOnce(xs[1..], key, name);
      if CaseCmp(name, key(xs[0])) == 0 {
        OrderedRising(xs[1..], key);
        CaseTrans(name, key(xs[0]), key(xs[1]));
        AtMostSelf(xs[1..], key);
        NoneNamed(key(xs[1]), name, xs[1..], key);
        assert Named(xs, key, name) == [xs[0]];
      } else {
        assert Named(xs, key, name) == Named(xs[1..], key, name);
      }
    } else if |xs| == 1 {
      assert Named(xs[1..], key, name) == [];
    }
  }

  /** Of two lists in order, the second one's elements with a name come first. */
  lemma {:induction false} MergeNamed<T>(xs: seq<T>, ys: seq<T>, key: T -> string, name: string)
    requires Rising(xs, key) && Rising(ys, key)
    ensures Named(Merge(xs, ys, key), key, name) == Named(ys, key, name) + Named(xs, key, name)
  {
    if xs != [] && ys != [] {
      if CaseCmp(key(xs[0]), key(ys[0])) < 0 {
        NamedFirst(xs[0], Merge(xs[1..], ys, key), key, name);
        MergeNamed(xs[1..], ys, key, name);
        FirstOrNone(xs, ys, key, name);
        Pass(Alone(xs[0], key, name), Named(ys, key, name), Named(xs[1..], key, name));
      } else {
        NamedFirst(ys[0], Merge(xs, ys[1..], key), key, name);
        MergeNamed(xs, ys[1..], key, name);
        Group(Alone(ys[0], key, name), Named(ys[1..], key, name), Named(xs, key, name));
      }
    }
  }

  lemma Pass<T>(o: seq<T>, a: seq<T>, b: seq<T>)
    requires o == [] || a == []
    ensures o + (a + b) == a + (o + b)
  {
  }

  lemma Group<T>(a: seq<T>, b: seq<T>, c: seq<T>)
    ensures (a + b) + c == a + (b + c)
  {
  }

  lemma NamedFirst<T>(x: T, xs: seq<T>, key: T -> string, name: string)
    ensures Named([x] + xs, key, name) == Alone(x, key, name) + Named(xs, key, name)
  {
    assert ([x] + xs)[1..] == xs;
  }

  /** If the first list's first element has the name, the second list, which comes later, has none. */
  lemma FirstOrNone<T>(xs: seq<T>, ys: seq<T>, key: T -> string, name: string)
    requires xs != [] && ys != [] && CaseCmp(key(xs[0]), key(ys[0])) < 0 && Rising(ys, key)
    ensures CaseCmp(name, key(xs[0])) == 0 ==> Named(ys, key, name) == []
  {
    if CaseCmp(name, key(xs[0])) == 0 {
      CaseTrans(name, key(xs[0]), key(ys[0]));
      AtMostSelf(ys, key);
      NoneNamed(key(ys[0]), name, ys, key);
    }
  }

  lemma AtMostSelf<T>(xs: seq<T>, key: T -> string)
    requires xs != [] && Rising(xs, key)
    ensures AtMost(key(xs[0]), xs, key)
  {
    CaseFold(key(xs[0]), key(xs[0]));
    AtMostBelow(key(xs[0]), xs, key);
  }

  /** Elements with equal names come out in the opposite order. */
  lemma {:induction false} SortReverses<T>(xs: seq<T>, key: T -> string, name: string)
    ensures Named(Sort(xs, key), key, name) == Reversed(Named(xs, key, name))
    decreases |xs|
  {
    if Ordered(xs, key) {
      OrderedOnce(xs, key, name);
    } else {
      var mid := (|xs| + 1) / 2;
      var a, b := xs[..mid], xs[mid..];
      assert xs == a + b;
      SortSorts(a, key);
      SortSorts(b, key);
      SortReverses(a, key, name);
      SortReverses(b, key, name);
      MergeNamed(Sort(a, key), Sort(b, key), key, name);
      NamedConcat(a, b, key, name);
      ReversedConcat(Named(a, key, name), Named(b, key, name));
    }
  }
}
