/**
 JSON numbers as the parser reads them, a whole number times a power of ten, and when two of them
 are the same.
 */
module JsonNumbers {
  /** A whole number with `k` zeros behind its digits. */
  function Scale(m: int, k: nat): int {
    if k == 0 then m else 10 * Scale(m, k - 1)
  }

  lemma {:induction false} ScaleAdd(m: int, a: nat, b: nat)
    ensures Scale(m, a + b) == Scale(Scale(m, a), b)
  {
    if b > 0 {
      ScaleAdd(m, a, b - 1);
    }
  }

  /** The number with no zeros at the end of its digits; zero has the exponent zero. */
  function Normal(mant: int, exp: int): (int, int)
    decreases if mant < 0 then -mant else mant
  {
    if mant == 0 then (0, 0) else if mant % 10 == 0 then Normal(mant / 10, exp + 1) else (mant, exp)
  }

  /** A zero more is one more in the exponent. */
  lemma NormalTen(mant: int, exp: int)
    ensures Normal(10 * mant, exp) == Normal(mant, exp + 1)
  {
    assert (10 * mant) % 10 == 0 && (10 * mant) / 10 == mant;
  }

  lemma {:induction false} NormalScale(mant: int, exp: int, k: nat)
    ensures Normal(Scale(mant, k), exp) == Normal(mant, exp + k)
    decreases k
  {
    if k > 0 {
      NormalTen(Scale(mant, k - 1), exp);
      NormalScale(mant, exp + 1, k - 1);
    }
  }

  /** What normalising takes from the digits it puts into the exponent. */
  lemma {:induction false} NormalValue(mant: int, exp: int)
    requires mant != 0
    ensures var (m, e) := Normal(mant, exp); m != 0 && e >= exp && mant == Scale(m, e - exp)
    decreases if mant < 0 then -mant else mant
  {
    if mant % 10 == 0 {
      NormalValue(mant / 10, exp + 1);
    }
  }

  lemma NormalZero(mant: int, exp: int)
    ensures Normal(mant, exp).0 == 0 <==> mant == 0
  {
    if mant != 0 {
      NormalValue(mant, exp);
    }
  }

  /** Two numbers have the same normal form exactly when they are equal: the one with the greater
      exponent, written with the other one's, has the other one's digits. */
  lemma SameNumber(m: int, e: int, n: int, f: int)
    requires e >= f
    ensures Normal(m, e) == Normal(n, f) <==> Scale(m, e - f) == n
  {
    NormalScale(m, f, e - f);
    NormalZero(m, e);
    NormalZero(n, f);
    if Normal(m, e) == Normal(n, f) {
      if n == 0 {
        ScaleZero(e - f);
      } else {
        NormalValue(m, e);
        NormalValue(n, f);
        ScaleAdd(Normal(m, e).0, Normal(m, e).1 - e, e - f);
      }
    }
  }

  lemma {:induction false} ScaleZero(k: nat)
    ensures Scale(0, k) == 0
  {
    if k > 0 {
      ScaleZero(k - 1);
    }
  }
}
