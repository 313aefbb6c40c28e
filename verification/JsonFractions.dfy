/**
 Which number a text stands for: every number of section 6 of RFC 8259, with its fraction and its
 exponent, is parsed to its value.
 */
module JsonFractions {
  import opened JsonNumbers
  import opened JsonStrings
  import opened JsonText

  predicate AllDigits(s: string) {
    forall i | 0 <= i < |s| :: Digit(s[i])
  }

  /** The whole number that digits stand for: each counts for as many tens as there are digits behind it. */
  function Val(s: string): nat
    requires AllDigits(s)
  {
    if s == "" then 0 else assert Digit(s[0]); Tens(s[0] as int - '0' as int, |s| - 1) + Val(s[1..])
  }

  function Tens(m: nat, k: nat): (r: nat)
    ensures r == Scale(m, k)
  {
    if k == 0 then m else 10 * Tens(m, k - 1)
  }

  datatype Exponent = NoExponent | Exponent(mark: char, sign: string, digits: string)
  {
    predicate Valid() {
      Exponent? ==> mark in ['e', 'E'] && sign in ["", "+", "-"] && digits != "" && AllDigits(digits)
    }

    function Text(): string {
      if NoExponent? then "" else [mark] + (sign + digits)
    }

    function Value(): int
      requires Valid()
    {
      if NoExponent? then 0 else if sign == "-" then 0 - Val(digits) else Val(digits)
    }
  }

  /** A whole part as it is written: zero alone, or no zero in front. */
  predicate WholePart(s: string) {
    s != "" && AllDigits(s) && (s == "0" || s[0] != '0')
  }

  function FractionText(s: string): string {
    if s == "" then "" else "." + s
  }

  // ---------- digits ----------

  lemma {:induction false} ScaleSum(m: int, n: int, k: nat)
    ensures Scale(10 * m + n, k) == Scale(m, k + 1) + Scale(n, k)
  {
    if k > 0 {
      ScaleSum(m, n, k - 1);
    }
  }

  /** Digits read into `acc` put it in front of the number they stand for. */
  lemma {:induction false} ValueIs(s: string, acc: nat)
    requires AllDigits(s)
    ensures Value(s, acc) == Scale(acc, |s|) + Val(s)
  {
    if s != "" {
      assert Digit(s[0]);
      var d := s[0] as int - '0' as int;
      ValueIs(s[1..], acc * 10 + d);
      ScaleSum(acc, d, |s| - 1);
    }
  }

  lemma DigitsRead(s: string, u: string, acc: nat)
    requires AllDigits(s) && !Digit(At(u, 0))
    ensures ReadDigits(s + u, acc) == (Scale(acc, |s|) + Val(s), u)
  {
    ReadDigitsApp(s, u, acc);
    ValueIs(s, acc);
  }

  /** Digits printed stand for the number that is printed. */
  lemma DigitsVal(n: nat)
    ensures Val(Digits(n)) == n
  {
    DigitsValue(n);
    ValueIs(Digits(n), 0);
    ScaleZero(|Digits(n)|);
  }

  // ---------- the parts of a number ----------

  lemma WholeRead(s: string, u: string)
    requires WholePart(s) && !Digit(At(u, 0))
    ensures ParseWhole(if At(s + u, 0) == '0' then (s + u)[1..] else s + u) == (Val(s), u)
  {
    if s == "0" {
      assert (s + u)[1..] == u;
      assert Val(s) == Val("");
    } else {
      assert Digit(s[0]);
      DigitsRead(s, u, 0);
      ScaleZero(|s|);
    }
  }

  lemma FractionRead(s: string, u: string, acc: nat)
    requires AllDigits(s) && !Digit(At(u, 0)) && At(u, 0) != '.'
    ensures ParseFraction(FractionText(s) + u, acc) == (Scale(acc, |s|) + Val(s), -|s|, u)
  {
    if s == "" {
      assert FractionText(s) + u == u;
    } else {
      var t := FractionText(s) + u;
      assert t == "." + (s + u);
      Drop(".", s + u);
      assert Digit(s[0]) && At(t, 1) == s[0];
      DigitsRead(s, u, acc);
    }
  }

  lemma ExponentRead(e: Exponent, u: string)
    requires e.Valid() && !Continues(u)
    ensures ParseExponent(e.Text() + u) == (e.Value(), u)
  {
    if e.NoExponent? {
      assert e.Text() + u == u;
    } else {
      var t := e.sign + e.digits + u;
      assert (e.Text() + u)[1..] == t;
      SignRead(e.sign, e.digits, u);
    }
  }

  lemma SignRead(sign: string, s: string, u: string)
    requires sign in ["", "+", "-"] && s != "" && AllDigits(s) && !Continues(u)
    ensures ParseSigned(sign + s + u) == (if sign == "-" then 0 - Val(s) else Val(s), u)
  {
    Group3(sign, s, u);
    assert Digit(s[0]) && (s + u)[0] == s[0];
    DigitsRead(s, u, 0);
    ScaleZero(|s|);
    SignOff(sign, s + u, Val(s), u);
  }

  lemma SignOff(sign: string, t: string, n: nat, u: string)
    requires sign in ["", "+", "-"] && t != "" && Digit(t[0]) && ReadDigits(t, 0) == (n, u)
    ensures ParseSigned(sign + t) == (if sign == "-" then 0 - n else n, u)
  {
    if sign == "" {
      assert sign + t == t;
    } else {
      Drop(sign, t);
    }
  }

  /** An exponent does not begin with a digit. */
  lemma ExponentBegins(e: Exponent, u: string)
    requires e.Valid() && !Continues(u)
    ensures !Digit(At(e.Text() + u, 0)) && At(e.Text() + u, 0) != '.'
  {
    assert e.NoExponent? ==> e.Text() + u == u;
  }

  lemma FractionBegins(s: string, u: string)
    requires !Digit(At(u, 0))
    ensures !Digit(At(FractionText(s) + u, 0))
  {
    assert s == "" ==> FractionText(s) + u == u;
  }

  /** The digits of the whole part and the fraction together. */
  function Together(whole: string, fraction: string): nat
    requires AllDigits(whole) && AllDigits(fraction)
  {
    Tens(Val(whole), |fraction|) + Val(fraction)
  }

  lemma UnsignedRead(whole: string, fraction: string, t3: string, x: int, u: string)
    requires WholePart(whole) && AllDigits(fraction) && !Digit(At(t3, 0)) && At(t3, 0) != '.'
    requires ParseExponent(t3) == (x, u)
    ensures ParseUnsigned(whole + (FractionText(fraction) + t3)) == (Together(whole, fraction), x - |fraction|, u)
  {
    var t2 := FractionText(fraction) + t3;
    FractionBegins(fraction, t3);
    FractionRead(fraction, t3, Val(whole));
    WholeRead(whole, t2);
    UnsignedStep(whole + t2, Val(whole), t2, Together(whole, fraction), -|fraction|, t3, x, u);
  }

  /** The three parts one after the other. */
  lemma UnsignedStep(t: string, w: nat, t2: string, n: nat, scale: int, t3: string, x: int, u: string)
    requires ParseWhole(if At(t, 0) == '0' then t[1..] else t) == (w, t2)
    requires ParseFraction(t2, w) == (n, scale, t3) && ParseExponent(t3) == (x, u)
    ensures ParseUnsigned(t) == (n, scale + x, u)
  {
  }

  lemma SignStep(neg: bool, t: string, n: nat, x: int, u: string)
    requires t != "" && t[0] != '-' && ParseUnsigned(t) == (n, x, u)
    ensures ParseNumber((if neg then "-" else "") + t) == (Num(if neg then 0 - n else n, x), u)
  {
    assert if neg then ("-" + t)[1..] == t else "" + t == t;
  }

  /** Every number is parsed to the value it is written for: the digits of the whole part and the
      fraction together, times ten to the exponent less the length of the fraction.  What follows
      is left, if it does not go on with the number. */
  lemma NumberMeans(neg: bool, whole: string, fraction: string, e: Exponent, u: string)
    requires WholePart(whole) && AllDigits(fraction) && e.Valid() && !Continues(u)
    ensures var n := Together(whole, fraction);
      ParseNumber((if neg then "-" else "") + (whole + (FractionText(fraction) + (e.Text() + u))))
        == (Num(if neg then 0 - n else n, e.Value() - |fraction|), u)
  {
    var t3 := e.Text() + u;
    ExponentRead(e, u);
    ExponentBegins(e, u);
    UnsignedRead(whole, fraction, t3, e.Value(), u);
    WholeBegins(whole, FractionText(fraction) + t3);
    SignStep(neg, whole + (FractionText(fraction) + t3), Together(whole, fraction), e.Value() - |fraction|, u);
  }

  lemma WholeBegins(s: string, u: string)
    requires WholePart(s)
    ensures s + u != "" && (s + u)[0] != '-'
  {
    assert Digit(s[0]);
  }
}
