/** Decimal digit strings, correct rounding, and the long division that the
    digit loops of dtoa carry out. */
module Decimals {
  import opened Words

  type Digit = d: int | 0 <= d <= 9

  /** The number written by a digit string, most significant digit first. */
  function DecVal(ds: seq<Digit>): nat
  {
    if |ds| == 0 then 0 else 10 * DecVal(ds[..|ds| - 1]) + ds[|ds| - 1]
  }

  /** Neither end of the string is a zero digit. */
  predicate Tight(ds: seq<Digit>)
  {
    |ds| >= 1 && ds[0] != 0 && ds[|ds| - 1] != 0
  }

  lemma DecSnoc(ds: seq<Digit>, d: Digit)
    ensures DecVal(ds + [d]) == 10 * DecVal(ds) + d
  {
    assert (ds + [d])[..|ds|] == ds;
  }

  lemma {:induction false} DecConcat(s: seq<Digit>, t: seq<Digit>)
    ensures DecVal(s + t) == DecVal(s) * Pow(10, |t|) + DecVal(t)
  {
    if |t| == 0 {
      assert s + t == s;
    } else {
      var n := |t| - 1;
      DecConcat(s, t[..n]);
      assert (s + t)[..|s| + n] == s + t[..n];
      TimesTen(DecVal(s), n);
    }
  }

  lemma TimesTen(v: nat, n: nat)
    ensures v * Pow(10, n + 1) == 10 * (v * Pow(10, n))
  {
    MulAssoc(10, v, Pow(10, n));
    MulAssoc(v, 10, Pow(10, n));
  }

  lemma {:induction false} DecBounds(ds: seq<Digit>)
    ensures DecVal(ds) < Pow(10, |ds|)
    ensures |ds| > 0 && ds[0] != 0 ==> Pow(10, |ds| - 1) <= DecVal(ds)
  {
    if |ds| > 0 {
      var n := |ds| - 1;
      DecBounds(ds[..n]);
      if n > 0 {
        assert ds[..n][0] == ds[0];
      } else {
        assert Pow(10, 0) == 1;
      }
    }
  }

  // ---------- correct rounding ----------

  /** q is the integer nearest to a/d, the even one of two equally near. */
  predicate NearestEven(q: nat, a: nat, d: nat)
  {
    var e := q * d - a;
    2 * e <= d && -2 * e <= d && (2 * e == d || -2 * e == d ==> q % 2 == 0)
  }

  /** At most one integer is nearest-even. */
  lemma NearestEvenUnique(p: nat, q: nat, a: nat, d: nat)
    requires d > 0 && NearestEven(p, a, d) && NearestEven(q, a, d)
    ensures p == q
  {
    if p < q {
      Gap(p, q, d);
    } else if q < p {
      Gap(q, p, d);
    }
  }

  lemma Gap(p: nat, q: nat, d: nat)
    requires p < q
    ensures q * d >= p * d + d && (q > p + 1 ==> q * d >= p * d + 2 * d)
  {
    var g := q - p;
    assert q * d == p * d + g * d;
    MulMonotone(1, g, d);
    if g >= 2 {
      MulMonotone(2, g, d);
    }
  }

  /** Rounding a quotient with its remainder: up past one half, and at one
      half when the quotient is odd. */
  lemma RoundQuotient(v: nat, r: nat, a: nat, s: nat)
    requires r < s && v * s + r == a
    ensures 2 * r > s || (2 * r == s && v % 2 == 1) ==> NearestEven(v + 1, a, s)
    ensures !(2 * r > s || (2 * r == s && v % 2 == 1)) ==> NearestEven(v, a, s)
  {
    assert (v + 1) * s == v * s + s;
  }

  // ---------- long division ----------

  /** Quotient and remainder by repeated subtraction; QuoRem says they are `/`
      and `%`. */
  function Quo(m: nat, s: nat): nat
    requires s > 0
  {
    if m < s then 0 else 1 + Quo(m - s, s)
  }

  function Rem(m: nat, s: nat): nat
    requires s > 0
  {
    if m < s then m else Rem(m - s, s)
  }

  lemma {:induction false} QuoRem(m: nat, s: nat)
    requires s > 0
    ensures m == Quo(m, s) * s + Rem(m, s) && Rem(m, s) < s
    ensures Quo(m, s) == m / s && Rem(m, s) == m % s
  {
    if m >= s {
      QuoRem(m - s, s);
      assert Quo(m, s) * s == Quo(m - s, s) * s + s;
    } else {
      assert Quo(m, s) * s == 0;
    }
    DivUnique(m, s, Quo(m, s), Rem(m, s));
  }

  /** The numerator divided at step i + 1: n itself, then ten times each
      remainder. */
  function Numerator(n: nat, s: nat, i: nat): nat
    requires s > 0
    decreases i, 1
  {
    if i == 0 then n else 10 * LongDivision(n, s, i).1
  }

  /** i steps of long division of n by s: the digits and the remainder. */
  function LongDivision(n: nat, s: nat, i: nat): (r: (seq<nat>, nat))
    requires s > 0
    ensures |r.0| == i
    decreases i, 0
  {
    if i == 0 then ([], n)
    else
      var m := Numerator(n, s, i - 1);
      (LongDivision(n, s, i - 1).0 + [Quo(m, s)], Rem(m, s))
  }

  /** The first i digits of n/s, read as a number. */
  function Leading(n: nat, s: nat, i: nat): nat
    requires s > 0
  {
    if i == 0 then 0 else 10 * Leading(n, s, i - 1) + Quo(Numerator(n, s, i - 1), s)
  }

  lemma {:induction false} LeadingIsDecVal(n: nat, s: nat, i: nat, ds: seq<Digit>)
    requires s > 0 && |ds| == i && ds == LongDivision(n, s, i).0
    ensures DecVal(ds) == Leading(n, s, i)
  {
    if i > 0 {
      LeadingIsDecVal(n, s, i - 1, ds[..i - 1]);
    }
  }

  /** What is left over after i digits is exactly the remainder. */
  lemma {:induction false} LeadingRemainder(n: nat, s: nat, i: nat)
    requires s > 0 && i >= 1
    ensures Leading(n, s, i) * s + LongDivision(n, s, i).1 == n * Pow(10, i - 1)
    ensures LongDivision(n, s, i).1 < s
  {
    var m := Numerator(n, s, i - 1);
    QuoRem(m, s);
    if i == 1 {
      assert Leading(n, s, 1) == Quo(m, s);
      assert n * Pow(10, 0) == n;
    } else {
      LeadingRemainder(n, s, i - 1);
      TimesTen(n, i - 2);
      LeadingStep(Leading(n, s, i - 1), LongDivision(n, s, i - 1).1, Quo(m, s), Rem(m, s), s, n * Pow(10, i - 2));
    }
  }

  lemma LeadingStep(v: nat, r: nat, q: nat, r': nat, s: nat, a: nat)
    requires v * s + r == a && 10 * r == q * s + r'
    ensures (10 * v + q) * s + r' == 10 * a
  {
    assert (10 * v + q) * s == 10 * (v * s) + q * s;
  }

  /** With s <= n < 10*s every step yields one decimal digit, the first of
      them nonzero. */
  lemma DigitRange(n: nat, s: nat, i: nat)
    requires s > 0 && n < 10 * s && i >= 1
    ensures Quo(Numerator(n, s, i - 1), s) <= 9
    ensures i == 1 && s <= n ==> Quo(Numerator(n, s, i - 1), s) >= 1
  {
    var m := Numerator(n, s, i - 1);
    if i > 1 {
      LeadingRemainder(n, s, i - 1);
    }
    QuoRem(m, s);
    MulCancelLess(Quo(m, s), 10, s);
  }

  // ---------- carrying and trimming ----------

  /** One unit in the last place of ds, e places up, makes v. */
  ghost predicate Carried(ds: seq<Digit>, e: nat, v: nat)
  {
    (DecVal(ds) + 1) * Pow(10, e) == v
  }

  /** Nines at the end are dropped and the digit before them is raised; when all
      digits are nines a single 1 is left and the exponent grows. */
  method RoundUp(ds0: seq<Digit>) returns (ds: seq<Digit>, carry: nat)
    requires |ds0| >= 1 && ds0[0] != 0
    ensures Tight(ds) && |ds| <= |ds0| && carry <= 1
    ensures DecVal(ds) * Pow(10, |ds0| - |ds| + carry) == DecVal(ds0) + 1
    ensures carry == 1 <==> DecVal(ds0) + 1 == Pow(10, |ds0|)
    ensures carry == 1 ==> ds == [1]
    ensures |ds| < |ds0| ==> ds0[|ds0| - 1] == 9
    ensures carry == 1 || ds0[|ds0| - 1] == 9 || (|ds| == |ds0| && ds == ds0[..|ds0| - 1] + [ds0[|ds0| - 1] + 1])
  {
    hide Pow, DecVal, Carried, Tight;
    ds := ds0;
    ghost var e, v := 0, DecVal(ds0) + 1;
    NothingDropped(ds0);
    while true
      invariant 1 <= |ds| <= |ds0| && ds == ds0[..|ds|]
      invariant e == |ds0| - |ds| && Carried(ds, e, v)
      invariant |ds| < |ds0| ==> ds0[|ds0| - 1] == 9
      decreases |ds|
    {
      var s := |ds| - 1;
      if ds[s] != 9 {
        break;
      }
      if s == 0 {
        AllNines(ds0, e);
        return [1], 1;
      }
      NineDropped(ds, s, e, v);
      ds := ds[..s];
      e := e + 1;
    }
    var s := |ds| - 1;
    ghost var was := ds;
    ds := ds[..s] + [ds[s] + 1];
    carry := 0;
    LastRaised(was, ds, s, e, v, |ds0|);
  }

  lemma NothingDropped(ds: seq<Digit>)
    ensures Carried(ds, 0, DecVal(ds) + 1)
  {
    hide DecVal;
    assert Pow(10, 0) == 1;
  }

  lemma NineDropped(ds: seq<Digit>, s: nat, e: nat, v: nat)
    requires |ds| == s + 1 && ds[s] == 9 && Carried(ds, e, v)
    ensures Carried(ds[..s], e + 1, v)
  {
    hide Pow, DecVal;
    DecSnoc(ds[..s], 9);
    assert ds == ds[..s] + [9];
    TimesTen(DecVal(ds[..s]) + 1, e);
    MulAssoc(10, DecVal(ds[..s]) + 1, Pow(10, e));
  }

  lemma AllNines(ds0: seq<Digit>, e: nat)
    requires |ds0| == e + 1 && ds0[0] == 9 && Carried(ds0[..1], e, DecVal(ds0) + 1)
    ensures Tight([1]) && DecVal(ds0) + 1 == Pow(10, |ds0|) == DecVal([1]) * Pow(10, e + 1)
  {
    assert ds0[..1] == [9];
    OneDigit(9);
    OneDigit(1);
    hide DecVal;
    assert Pow(10, e + 1) == 10 * Pow(10, e);
  }

  lemma OneDigit(d: Digit)
    ensures DecVal([d]) == d
  {
    assert [d][..0] == [];
  }

  lemma LastRaised(was: seq<Digit>, ds: seq<Digit>, s: nat, e: nat, v: nat, len: nat)
    requires |was| == s + 1 && was[s] != 9 && Carried(was, e, v) && ds == was[..s] + [was[s] + 1]
    requires was[0] != 0 && len == s + 1 + e
    ensures Tight(ds) && DecVal(ds) * Pow(10, e) == v < Pow(10, len)
  {
    hide Pow, DecVal;
    DecSnoc(was[..s], was[s]);
    DecSnoc(was[..s], was[s] + 1);
    assert was == was[..s] + [was[s]];
    DecBounds(was[..s]);
    TimesTen(1, s);
    PowAdd(10, s + 1, e);
    PowPositive(10, e);
    MulStrict(DecVal(was) + 1, Pow(10, s + 1), Pow(10, e));
  }

  /** Drops the zeros at the end. */
  method TrimDigits(ds0: seq<Digit>) returns (ds: seq<Digit>)
    requires |ds0| >= 1 && ds0[0] != 0
    ensures Tight(ds) && |ds| <= |ds0|
    ensures DecVal(ds) * Pow(10, |ds0| - |ds|) == DecVal(ds0)
  {
    ds := ds0;
    assert Pow(10, 0) == 1;
    while ds[|ds| - 1] == 0
      invariant 1 <= |ds| <= |ds0| && ds[0] != 0
      invariant DecVal(ds) * Pow(10, |ds0| - |ds|) == DecVal(ds0)
      decreases |ds|
    {
      TimesTen(DecVal(ds[..|ds| - 1]), |ds0| - |ds|);
      MulAssoc(10, DecVal(ds[..|ds| - 1]), Pow(10, |ds0| - |ds|));
      ds := ds[..|ds| - 1];
    }
  }
}
