/**
 Natural numbers as rows of bits: the masks and shifts of the program, and the arithmetic they do.
 */
module Bits {
  function Pow2(n: nat): (p: nat)
    ensures p > 0
  {
    if n == 0 then 1 else 2 * Pow2(n - 1)
  }

  lemma {:induction false} Pow2Add(a: nat, b: nat)
    ensures Pow2(a + b) == Pow2(a) * Pow2(b)
  {
    if a > 0 {
      Pow2Add(a - 1, b);
      assert 2 * (Pow2(a - 1) * Pow2(b)) == (2 * Pow2(a - 1)) * Pow2(b);
    }
  }

  lemma {:induction false} Pow2Mono(a: nat, b: nat)
    requires a <= b
    ensures Pow2(a) <= Pow2(b)
  {
    if a < b {
      Pow2Mono(a, b - 1);
    }
  }

  /** `a << k` */
  function Shl(a: nat, k: nat): nat {
    if k == 0 then a else 2 * Shl(a, k - 1)
  }

  /** `a >> k` */
  function Shr(a: nat, k: nat): (r: nat)
    ensures r <= a
  {
    if k == 0 then a else Shr(a / 2, k - 1)
  }

  /** The lowest `k` bits. */
  function Low(a: nat, k: nat): (r: nat)
    ensures r < Pow2(k)
  {
    if k == 0 then 0 else 2 * Low(a / 2, k - 1) + a % 2
  }

  /** `a & b` */
  function And(a: nat, b: nat): nat {
    if a == 0 || b == 0 then 0 else 2 * And(a / 2, b / 2) + if a % 2 == 1 && b % 2 == 1 then 1 else 0
  }

  /** `a | b` */
  function Or(a: nat, b: nat): nat {
    if a == 0 then b else if b == 0 then a else 2 * Or(a / 2, b / 2) + if a % 2 == 1 || b % 2 == 1 then 1 else 0
  }

  // ---------- the bits from a place on, and those below ----------

  /** `high` from bit `k` on and `low` below. */
  function Join(high: nat, low: nat, k: nat): nat {
    Shl(high, k) + low
  }

  lemma {:induction false} Cut(a: nat, k: nat)
    ensures a == Join(Shr(a, k), Low(a, k), k)
  {
    if k > 0 {
      Cut(a / 2, k - 1);
    }
  }

  lemma {:induction false} ShrJoin(high: nat, low: nat, k: nat)
    requires low < Pow2(k)
    ensures Shr(Join(high, low, k), k) == high
  {
    if k > 0 {
      ShrJoin(high, low / 2, k - 1);
    }
  }

  lemma AndBit(x: nat, p: nat, y: nat, q: nat)
    requires p < 2 && q < 2
    ensures And(2 * x + p, 2 * y + q) == 2 * And(x, y) + And(p, q)
  {
    var a, b := 2 * x + p, 2 * y + q;
    assert a / 2 == x && a % 2 == p && b / 2 == y && b % 2 == q;
  }

  lemma JoinBit(high: nat, low: nat, p: nat, k: nat)
    ensures Join(high, 2 * low + p, k + 1) == 2 * Join(high, low, k) + p
  {
  }

  lemma OrBit(x: nat, p: nat, y: nat, q: nat)
    requires p < 2 && q < 2
    ensures Or(2 * x + p, 2 * y + q) == 2 * Or(x, y) + Or(p, q)
  {
    var a, b := 2 * x + p, 2 * y + q;
    assert a / 2 == x && a % 2 == p && b / 2 == y && b % 2 == q;
  }

  lemma AndLow(a: nat, x: nat, p: nat, b: nat, y: nat, q: nat, k: nat)
    requires p < 2 && q < 2 && And(Join(a, x, k), Join(b, y, k)) == Join(And(a, b), And(x, y), k)
    ensures And(Join(a, 2 * x + p, k + 1), Join(b, 2 * y + q, k + 1))
      == Join(And(a, b), And(2 * x + p, 2 * y + q), k + 1)
  {
    JoinBit(a, x, p, k);
    JoinBit(b, y, q, k);
    AndBit(Join(a, x, k), p, Join(b, y, k), q);
    AndBit(x, p, y, q);
    JoinBit(And(a, b), And(x, y), And(p, q), k);
  }

  lemma {:induction false} AndJoin(a: nat, c: nat, b: nat, d: nat, k: nat)
    requires c < Pow2(k) && d < Pow2(k)
    ensures And(Join(a, c, k), Join(b, d, k)) == Join(And(a, b), And(c, d), k)
  {
    if k > 0 {
      var (x, p, y, q) := (c / 2, c % 2, d / 2, d % 2);
      AndJoin(a, x, b, y, k - 1);
      AndLow(a, x, p, b, y, q, k - 1);
    }
  }

  lemma OrLow(a: nat, x: nat, p: nat, b: nat, y: nat, q: nat, k: nat)
    requires p < 2 && q < 2 && Or(Join(a, x, k), Join(b, y, k)) == Join(Or(a, b), Or(x, y), k)
    ensures Or(Join(a, 2 * x + p, k + 1), Join(b, 2 * y + q, k + 1)) == Join(Or(a, b), Or(2 * x + p, 2 * y + q), k + 1)
  {
    JoinBit(a, x, p, k);
    JoinBit(b, y, q, k);
    OrBit(Join(a, x, k), p, Join(b, y, k), q);
    OrBit(x, p, y, q);
    JoinBit(Or(a, b), Or(x, y), Or(p, q), k);
  }

  lemma {:induction false} OrJoin(a: nat, c: nat, b: nat, d: nat, k: nat)
    requires c < Pow2(k) && d < Pow2(k)
    ensures Or(Join(a, c, k), Join(b, d, k)) == Join(Or(a, b), Or(c, d), k)
  {
    if k > 0 {
      var (x, p, y, q) := (c / 2, c % 2, d / 2, d % 2);
      OrJoin(a, x, b, y, k - 1);
      OrLow(a, x, p, b, y, q, k - 1);
    }
  }

  lemma {:induction false} OrBelow(a: nat, b: nat, k: nat)
    requires a < Pow2(k) && b < Pow2(k)
    ensures Or(a, b) < Pow2(k)
  {
    if k > 0 {
      OrBelow(a / 2, b / 2, k - 1);
    }
  }

  /** A mask of `k` ones leaves the lowest bits. */
  lemma {:induction false} AndOnes(a: nat, k: nat)
    ensures And(a, Pow2(k) - 1) == Low(a, k)
  {
    if k > 0 {
      AndOnes(a / 2, k - 1);
      assert (Pow2(k) - 1) / 2 == Pow2(k - 1) - 1;
    }
  }

  /** And joined on, it fills them. */
  lemma {:induction false} OrOnes(a: nat, k: nat)
    requires a < Pow2(k)
    ensures Or(a, Pow2(k) - 1) == Pow2(k) - 1
  {
    if k > 0 {
      OrOnes(a / 2, k - 1);
      OrBit(a / 2, a % 2, Pow2(k - 1) - 1, 1);
    }
  }

  /** Where the bits of two numbers do not meet, joining them is adding. */
  lemma OrAdds(high: nat, low: nat, k: nat)
    requires low < Pow2(k)
    ensures Or(Shl(high, k), low) == Shl(high, k) + low && Or(low, Shl(high, k)) == Shl(high, k) + low
  {
    OrJoin(high, 0, 0, low, k);
    OrJoin(0, low, high, 0, k);
  }

  lemma ShrOr(a: nat, b: nat, k: nat)
    ensures Shr(Or(a, b), k) == Or(Shr(a, k), Shr(b, k))
  {
    Cut(a, k);
    Cut(b, k);
    OrJoin(Shr(a, k), Low(a, k), Shr(b, k), Low(b, k), k);
    OrBelow(Low(a, k), Low(b, k), k);
    ShrJoin(Or(Shr(a, k), Shr(b, k)), Or(Low(a, k), Low(b, k)), k);
  }

  lemma {:induction false} ShrShr(a: nat, i: nat, j: nat)
    ensures Shr(Shr(a, i), j) == Shr(a, i + j)
  {
    if i > 0 {
      ShrShr(a / 2, i - 1, j);
    }
  }

  // ---------- rows of ones ----------

  lemma {:induction false} JoinOnes(a: nat, k: nat)
    ensures Join(Pow2(a) - 1, Pow2(k) - 1, k) == Pow2(a + k) - 1
  {
    if k > 0 {
      JoinOnes(a, k - 1);
    }
  }

  lemma ShrOnes(a: nat, k: nat)
    ensures Shr(Pow2(a + k) - 1, k) == Pow2(a) - 1
  {
    JoinOnes(a, k);
    ShrJoin(Pow2(a) - 1, Pow2(k) - 1, k);
  }

  /** A number of at most `n` bits, the highest `m` of them ones. */
  predicate Topped(a: nat, n: nat, m: nat) {
    m <= n && a < Pow2(n) && Shr(a, n - m) == Pow2(m) - 1
  }

  /** One step of the smear doubles the number of ones. */
  lemma ToppedTwice(a: nat, n: nat, m: nat)
    requires Topped(a, n, m)
    ensures Topped(Or(a, Shr(a, m)), n, if 2 * m <= n then 2 * m else n)
  {
    OrBelow(a, Shr(a, m), n);
    if 2 * m <= n {
      ToppedOver(a, n - 2 * m, m);
    } else {
      ToppedUnder(a, n - m, 2 * m - n);
    }
  }

  /** Behind the ones there are `j` places and as many again as there are ones. */
  lemma ToppedOver(a: nat, j: nat, m: nat)
    requires Shr(a, j + m) == Pow2(m) - 1
    ensures Shr(Or(a, Shr(a, m)), j) == Pow2(m + m) - 1
  {
    ShrOr(a, Shr(a, m), j);
    ShrShr(a, m, j);
    ShrShr(a, j, m);
    OnesBelow(Shr(a, j), m, m);
  }

  /** There are `k` places only, `e` fewer than there are ones. */
  lemma ToppedUnder(a: nat, k: nat, e: nat)
    requires Shr(a, k) == Pow2(e + k) - 1
    ensures Or(a, Shr(a, k + e)) == Pow2((e + k) + k) - 1
  {
    ShrShr(a, k, e);
    ShrOnes(k, e);
    assert k + e == e + k;
    OnesBelow(a, e + k, k);
  }

  /** Ones put below ones. */
  lemma OnesBelow(a: nat, m: nat, k: nat)
    requires Shr(a, k) == Pow2(m) - 1
    ensures Or(a, Pow2(k) - 1) == Pow2(m + k) - 1
  {
    Cut(a, k);
    OrJoin(Pow2(m) - 1, Low(a, k), 0, Pow2(k) - 1, k);
    OrOnes(Low(a, k), k);
    ShlZero(k);
    JoinOnes(m, k);
  }

  lemma {:induction false} ShlZero(k: nat)
    ensures Shl(0, k) == 0
  {
    if k > 0 {
      ShlZero(k - 1);
    }
  }

  /** How many bits a number has. */
  function Width(a: nat): (n: nat)
    ensures a < Pow2(n) && (a > 0 ==> n > 0 && Pow2(n - 1) <= a)
  {
    if a == 0 then 0 else 1 + Width(a / 2)
  }

  lemma {:induction false} FirstBit(a: nat)
    requires a > 0
    ensures Shr(a, Width(a) - 1) == 1
  {
    if a > 1 {
      FirstBit(a / 2);
      assert Width(a) == Width(a / 2) + 1;
    }
  }

  // ---------- the arithmetic ----------

  lemma {:induction false} ShlTimes(a: nat, k: nat)
    ensures Shl(a, k) == Pow2(k) * a
  {
    if k > 0 {
      ShlTimes(a, k - 1);
      assert 2 * (Pow2(k - 1) * a) == (2 * Pow2(k - 1)) * a;
    }
  }
  /** Shifting right is dividing, and the lowest bits are the remainder. */
  lemma LowHigh(u: nat, k: nat)
    ensures Low(u, k) == u % Pow2(k) && Shr(u, k) == u / Pow2(k)
  {
    Cut(u, k);
    ShlTimes(Shr(u, k), k);
    DivMod(Pow2(k), Shr(u, k), Low(u, k));
  }

  lemma DivMod(p: nat, q: nat, r: nat)
    requires r < p
    ensures (p * q + r) / p == q && (p * q + r) % p == r
  {
    var a := p * q + r;
    assert a == p * (a / p) + a % p;
    Unique(p, q, r, a / p, a % p);
  }

  lemma Unique(p: nat, q: nat, r: nat, s: nat, t: nat)
    requires r < p && t < p && p * q + r == p * s + t
    ensures q == s && r == t
  {
    if q < s {
      Times(p, q, s);
    }
    if s < q {
      Times(p, s, q);
    }
  }

  lemma {:induction false} Times(p: nat, q: nat, s: nat)
    requires q < s
    ensures p * s >= p * q + p
  {
    assert p * s == p * (s - 1) + p;
    if q < s - 1 {
      Times(p, q, s - 1);
    }
  }

  lemma Powers()
    ensures Pow2(3) == 8 && Pow2(4) == 16 && Pow2(5) == 32 && Pow2(6) == 64 && Pow2(10) == 1024
    ensures Pow2(31) == 0x8000_0000
  {
    assert Pow2(3) == 8 && Pow2(4) == 16 && Pow2(5) == 32 && Pow2(6) == 64;
    Pow2Add(5, 5);
    Pow2Add(10, 10);
    Pow2Add(20, 10);
  }

  /** Joining `mark` on from bit `k`, and masking with it and `k` ones. */
  lemma Marked(high: nat, low: nat, k: nat, mark: nat)
    requires low < Pow2(k)
    ensures And(Or(Join(high, low, k), Join(mark, 0, k)), Join(mark, Pow2(k) - 1, k))
      == Join(And(Or(high, mark), mark), low, k)
  {
    OrJoin(high, low, mark, 0, k);
    AndJoin(Or(high, mark), low, mark, Pow2(k) - 1, k);
    AndOnes(low, k);
    LowSelf(low, k);
  }

  lemma {:induction false} LowSelf(a: nat, k: nat)
    requires a < Pow2(k)
    ensures Low(a, k) == a
  {
    if k > 0 {
      LowSelf(a / 2, k - 1);
    }
  }

  lemma OrAtLeast(a: nat, b: nat)
    ensures Or(a, b) >= a
  {
  }
}
