/** The big-integer part of dtoa from the scaled ratio on: align the divisor,
    correct the estimate of the decimal exponent, generate the digits. */
module DecimalConversion {
  import opened Words
  import opened Bigints
  import opened Division
  import opened Alignment
  import opened Decimals
  import opened FixedPrecision
  import opened ShortestPrecision

  // ---------- common factors change nothing ----------

  lemma CommonFactor(a: int, b: int, m: nat)
    requires m > 0
    ensures a * m <= b * m <==> a <= b
    ensures a * m == b * m <==> a == b
  {
    if a < b {
      MulStrict(a, b, m);
    } else if b < a {
      MulStrict(b, a, m);
    }
  }

  lemma NearestEvenScaled(q: nat, a: nat, d: nat, m: nat)
    requires m > 0
    ensures NearestEven(q, a * m, d * m) <==> NearestEven(q, a, d)
  {
    var e := q * d - a;
    assert q * (d * m) - a * m == e * m by {
      MulAssoc(q, d, m);
      assert (q * d - a) * m == q * d * m - a * m;
    }
    MulAssoc(2, e, m);
    MulAssoc(-2, e, m);
    CommonFactor(2 * e, d, m);
    CommonFactor(-2 * e, d, m);
  }

  /** The interval with every quantity multiplied by m. */
  function Scale(iv: Interval, m: nat): Interval
  {
    Interval(iv.n * m, iv.s * m, iv.mlo * m, iv.mhi * m, iv.closed)
  }

  lemma HoldsCommonFactor(iv: Interval, m: nat, v: nat, lev: nat)
    requires m > 0 && lev >= 1
    ensures Scale(iv, m).Holds(v, lev) <==> iv.Holds(v, lev)
  {
    hide Pow;
    var p := Pow(10, lev - 1);
    Swap(iv.n, m, p);
    Swap(iv.mlo, m, p);
    Swap(iv.mhi, m, p);
    MulAssoc(v, iv.s, m);
    var lo, hi, x := iv.n * p - iv.mlo * p, iv.n * p + iv.mhi * p, v * iv.s;
    assert lo * m == iv.n * p * m - iv.mlo * p * m;
    assert hi * m == iv.n * p * m + iv.mhi * p * m;
    CommonFactor(lo, x, m);
    CommonFactor(x, hi, m);
  }

  lemma ShortestCommonFactor(iv: Interval, m: nat, ds: seq<Digit>, carry: nat)
    requires m > 0
    ensures Shortest(Scale(iv, m), ds, carry) <==> Shortest(iv, ds, carry)
  {
    hide Scale, DecVal, Pow;
    if |ds| >= 1 {
      HoldsCommonFactor(iv, m, DecVal(ds) * Pow(10, carry), |ds|);
    }
    forall lev: nat, v: nat | 1 <= lev < |ds|
      ensures Scale(iv, m).Holds(v, lev) <==> iv.Holds(v, lev)
    {
      HoldsCommonFactor(iv, m, v, lev);
    }
  }

  lemma OffCommonFactor(iv: Interval, m: nat, v: nat, lev: nat)
    requires lev >= 1
    ensures Off(Scale(iv, m), v, lev) == Off(iv, v, lev) * m
  {
    hide Pow;
    var p := Pow(10, lev - 1);
    Swap(iv.n, m, p);
    MulAssoc(v, iv.s, m);
    DistScaled(v * iv.s, iv.n * p, m);
  }

  lemma DistScaled(a: nat, b: nat, m: nat)
    ensures Dist(a * m, b * m) == Dist(a, b) * m
  {
    if a < b {
      MulMonotone(a, b, m);
      assert (b - a) * m == b * m - a * m;
    } else {
      MulMonotone(b, a, m);
      assert (a - b) * m == a * m - b * m;
    }
  }

  lemma SpannedCommonFactor(iv: Interval, m: nat, lev: nat)
    requires m > 0 && lev >= 1
    ensures Spanned(Scale(iv, m), lev) <==> Spanned(iv, lev)
  {
    hide Pow;
    var p, w := Pow(10, lev - 1), iv.mlo + iv.mhi;
    assert iv.mlo * m + iv.mhi * m == w * m;
    Swap(w, m, p);
    CommonFactor(w * p, iv.s, m);
  }

  lemma NearestCommonFactor(iv: Interval, m: nat, v: nat, lev: nat)
    requires m > 0 && lev >= 1
    ensures Nearest(Scale(iv, m), v, lev) <==> Nearest(iv, v, lev)
  {
    SpannedCommonFactor(iv, m, lev);
    hide Off, Scale, Spanned;
    OffCommonFactor(iv, m, v, lev);
    forall w: nat
      ensures Scale(iv, m).Holds(w, lev) <==> iv.Holds(w, lev)
      ensures Off(Scale(iv, m), v, lev) <= Off(Scale(iv, m), w, lev) <==> Off(iv, v, lev) <= Off(iv, w, lev)
      ensures Off(Scale(iv, m), v, lev) == Off(Scale(iv, m), w, lev) <==> Off(iv, v, lev) == Off(iv, w, lev)
    {
      HoldsCommonFactor(iv, m, w, lev);
      OffCommonFactor(iv, m, w, lev);
      CommonFactor(Off(iv, v, lev), Off(iv, w, lev), m);
    }
  }

  lemma LostCommonFactor(iv: Interval, m: nat, one: bool)
    requires m > 0
    ensures Lost(Scale(iv, m), one) <==> Lost(iv, one)
  {
    CommonFactor(iv.n + iv.mhi, 10 * iv.s, m);
    CommonFactor(19 * iv.s, 2 * iv.n, m);
    CommonFactor(9 * iv.s, iv.n, m);
    CommonFactor(iv.n, 9 * iv.s, m);
    CommonFactor(iv.n, 9 * iv.s + iv.mlo, m);
    LostProducts(iv.n, iv.s, iv.mlo, iv.mhi, m);
  }

  lemma LostProducts(n: nat, s: nat, lo: nat, hi: nat, m: nat)
    ensures (n + hi) * m == n * m + hi * m
    ensures 10 * s * m == 10 * (s * m) && 19 * s * m == 19 * (s * m) && 9 * s * m == 9 * (s * m)
    ensures (9 * s + lo) * m == 9 * (s * m) + lo * m && 2 * n * m == 2 * (n * m)
  {
  }

  lemma AnsweredCommonFactor(iv: Interval, m: nat, ds: seq<Digit>, carry: nat, one: bool)
    requires m > 0
    ensures Answered(Scale(iv, m), ds, carry, one) <==> Answered(iv, ds, carry, one)
  {
    hide Nearest, Lost, Scale;
    ShortestCommonFactor(iv, m, ds, carry);
    LostCommonFactor(iv, m, one);
    if |ds| >= 1 {
      NearestCommonFactor(iv, m, DecVal(ds) * Pow(10, carry), |ds|);
    }
  }

  // ---------- correcting the estimate of k ----------

  /** An estimate one too large is noticed by a numerator below the divisor, and
      corrected by multiplying it by ten. */
  method CheckEstimate(b0: Bigint, S: Bigint, check: bool, k0: int) returns (b: Bigint, k: int)
    requires b0.Normalised() && S.Normalised() && Apart(b0, S)
    requires b0.Num() < 10 * S.Num() && S.Num() <= (if check then 10 * b0.Num() else b0.Num())
    modifies b0, b0.x
    ensures Owned(b0, b) && Apart(b, S) && b.Normalised()
    ensures S.Num() <= b.Num() < 10 * S.Num()
    ensures if old(b0.Num()) < S.Num() then k == k0 - 1 && b.Num() == 10 * old(b0.Num()) && b != S
            else k == k0 && b.Num() == old(b0.Num())
  {
    b, k := b0, k0;
    if check {
      var c := Cmp(b, S);
      if c < 0 {
        k := k - 1;
        b := Multadd(b, 10, 0);
      }
    }
  }

  /** The numerator and the decimal exponent once the first digit is at the
      units place. */
  function Units(n: nat, d: nat, k: int): (nat, int)
  {
    if n < d then (10 * n, k - 1) else (n, k)
  }

  /** Alignment and correction of k together: both numbers are the wanted ones
      times a common factor f. */
  method Prepare(b0: Bigint, S0: Bigint, b2: nat, m2: nat, s2: nat, k: int, check: bool, ghost n: nat, ghost d: nat)
    returns (b: Bigint, S: Bigint, m2': nat, k': int, ghost i: nat)
    requires b0.Normalised() && S0.Normalised() && Apart(b0, S0) && b0.Num() > 0 && S0.Num() > 0
    requires n == b0.Num() * Pow(2, b2) && d == S0.Num() * Pow(2, s2)
    requires n < 10 * d && d <= (if check then 10 * n else n)
    modifies b0, b0.x
    ensures Owned(b0, b) && Owned(S0, S) && Apart(b, S) && b.Normalised() && S.Normalised() && Aligned(S.Digits())
    ensures b.Num() == Units(n, d, k).0 * Pow(2, i) && S.Num() == d * Pow(2, i)
    ensures 0 < S.Num() <= b.Num() < 10 * S.Num()
    ensures S.wds == 1 <==> d < 0x1000_0000
    ensures k' == Units(n, d, k).1 && m2' == m2 + i
  {
    b, S, m2', i := AlignDivisor(b0, S0, b2, m2, s2);
    ghost var f := Pow(2, i);
    AlignedRatio(b0.Num(), b2, n, i, f);
    AlignedRatio(S0.Num(), s2, d, i, f);
    RatioScaled(n, d, f);
    OneWordLeft(S.Digits(), d, i);
    b, k' := CheckEstimate(b, S, check, k);
  }

  /** The shift is below 32, so a divisor that started below 2^28 stays in one word. */
  lemma OneWordLeft(s: seq<Word>, d: nat, i: nat)
    requires Aligned(s) && Value(s) == d * Pow(2, i) && i < 32
    ensures |s| == 1 <==> d < 0x1000_0000
  {
    ValueTop(s);
    assert Weight(0) == 1 && Weight(1) == 0x1_0000_0000;
    if |s| == 1 {
      PowPositive(2, i);
      MulMonotone(1, Pow(2, i), d);
      assert s == [s[0]] && Value(s[..0]) == 0;
    } else {
      WeightMonotone(1, |s| - 1);
      MulMonotone(0x800_0000, s[|s| - 1], Weight(|s| - 1));
      PowMonotone(2, i, 31);
      Pow2Of32();
      assert Pow(2, 32) == 2 * Pow(2, 31);
      if d < 0x1000_0000 {
        MulMonotone(d, 0x1000_0000, Pow(2, i));
      }
    }
  }

  /** Mode 2 on a ratio n/d = (b * 2^b2) / (S * 2^s2) with an estimate k that
      is right, or one too large where k_check asks for a test: the digits are
      the correctly rounded ones of that ratio. */
  method DtoaFixed(b0: Bigint, S0: Bigint, b2: nat, s2: nat, k: int, check: bool, ilim: nat, ghost n: nat, ghost d: nat)
    returns (ds: seq<Digit>, decpt: int)
    requires b0.Normalised() && S0.Normalised() && Apart(b0, S0) && b0.Num() > 0 && S0.Num() > 0 && ilim >= 1
    requires n == b0.Num() * Pow(2, b2) && d == S0.Num() * Pow(2, s2)
    requires n < 10 * d && d <= (if check then 10 * n else n)
    modifies b0, b0.x
    ensures Tight(ds) && |ds| <= ilim
    ensures Units(n, d, k).1 + 1 <= decpt <= Units(n, d, k).1 + 2
    ensures var (num, e) := Units(n, d, k);
            NearestEven(DecVal(ds) * Pow(10, ilim - |ds| + (decpt - e - 1)), num * Pow(10, ilim - 1), d)
  {
    hide NearestEven, Aligned, Normal, Value, Pow, DecVal, Tight, Units;
    ghost var (num, e) := Units(n, d, k);
    ghost var i;
    var b, S, m2, k1;
    b, S, m2, k1, i := Prepare(b0, S0, b2, 0, s2, k, check, n, d);
    ghost var a, s := b.Num(), S.Num();
    ds, k1 := FixedDigits(b, S, ilim, k1);
    decpt := k1 + 1;
    FixedUnscaled(DecVal(ds), ilim - |ds| + (k1 - e), ilim, a, s, num, d, Pow(2, i));
  }

  lemma FixedUnscaled(v: nat, x: nat, ilim: nat, a: nat, s: nat, num: nat, d: nat, f: nat)
    requires a == num * f && s == d * f && s > 0 && ilim >= 1
    requires NearestEven(v * Pow(10, x), a * Pow(10, ilim - 1), s)
    ensures NearestEven(v * Pow(10, x), num * Pow(10, ilim - 1), d)
  {
    Swap(num, f, Pow(10, ilim - 1));
    NearestEvenScaled(v * Pow(10, x), num * Pow(10, ilim - 1), d, f);
  }

  /** The half-width: times ten along with the numerator, then shifted. */
  method ScaleWidth(m0: Bigint, m2: nat, ten: bool, ghost h: nat, ghost e2: nat, ghost i: nat) returns (m: Bigint)
    requires m0.Normalised() && m0.Num() > 0 && m2 == e2 + i && h == m0.Num() * Pow(2, e2)
    modifies m0, m0.x
    ensures Owned(m0, m) && m.Normalised() && m.Num() > 0
    ensures m.Num() == (if ten then 10 * h else h) * Pow(2, i)
  {
    ghost var v := m0.Num();
    m := m0;
    if ten {
      m := Multadd(m, 10, 0);
    }
    ghost var w := m.Num();
    if m2 > 0 {
      m := Lshift(m, m2);
    }
    WidthScaled(v, w, e2, i, h, ten);
  }

  lemma WidthScaled(v: nat, w: nat, e2: nat, i: nat, h: nat, ten: bool)
    requires v > 0 && h == v * Pow(2, e2) && w == if ten then 10 * v else v
    ensures w * Pow(2, e2 + i) == (if ten then 10 * h else h) * Pow(2, i)
    ensures w * Pow(2, e2 + i) > 0
    ensures e2 + i == 0 ==> w * Pow(2, e2 + i) == w
  {
    AlignedRatio(v, e2, h, i, Pow(2, i));
    MulAssoc(10, v, Pow(2, e2 + i));
    MulAssoc(10, h, Pow(2, i));
    PowPositive(2, e2 + i);
    MulStrict(0, w, Pow(2, e2 + i));
    assert e2 + i == 0 ==> Pow(2, e2 + i) == 1;
  }

  lemma ShortestUnscaled(a: nat, s: nat, w: nat, twice: bool, closed: bool, num: nat, d: nat, lo: nat, f: nat,
                         ds: seq<Digit>, carry: nat, one: bool)
    requires a == num * f && s == d * f && w == lo * f && f > 0
    requires Answered(Interval(a, s, w, if twice then 2 * w else w, closed), ds, carry, one)
    ensures Answered(Interval(num, d, lo, if twice then 2 * lo else lo, closed), ds, carry, one)
  {
    MulAssoc(2, lo, f);
    AnsweredCommonFactor(Interval(num, d, lo, if twice then 2 * lo else lo, closed), f, ds, carry, one);
  }

  /** Modes 0 and 1 on the same ratio, with the half-width h/d below: the digits
      are a shortest decimal in the rounding interval, and a nearest one of their
      length except for a lost tie. */
  method DtoaShortest(b0: Bigint, S0: Bigint, m0: Bigint, b2: nat, m2: nat, s2: nat, k: int, check: bool,
                      powerOfTwo: bool, closed: bool, ghost n: nat, ghost d: nat, ghost h: nat)
    returns (ds: seq<Digit>, decpt: int)
    requires b0.Normalised() && S0.Normalised() && m0.Normalised() && Separate(b0, S0, m0, m0)
    requires b0.Num() > 0 && S0.Num() > 0 && m0.Num() > 0
    requires n == b0.Num() * Pow(2, b2) && d == S0.Num() * Pow(2, s2) && h == m0.Num() * Pow(2, m2)
    requires n < 10 * d && d <= (if check then 10 * n else n)
    modifies b0, b0.x, m0, m0.x
    ensures var (num, e) := Units(n, d, k);
            var lo := if n < d then 10 * h else h;
            var iv := Interval(num, d, lo, if powerOfTwo then 2 * lo else lo, closed);
            e + 1 <= decpt <= e + 2 && Answered(iv, ds, decpt - e - 1, d < 0x1000_0000)
  {
    hide Answered, Aligned, Normal, Value, Pow;
    ghost var i;
    var b, S, m, m2', k1;
    b, S, m2', k1, i := Prepare(b0, S0, b2, m2, s2, k, check, n, d);
    m := ScaleWidth(m0, m2', k1 < k, h, m2, i);
    ghost var e, a, s, w, one := k1, b.Num(), S.Num(), m.Num(), S.wds == 1;
    ds, k1 := ShortestDigits(b, S, m, powerOfTwo, closed, k1);
    decpt := k1 + 1;
    PowPositive(2, i);
    ShortestUnscaled(a, s, w, powerOfTwo, closed, Units(n, d, k).0, d, if n < d then 10 * h else h, Pow(2, i),
      ds, k1 - e, one);
  }

  lemma AlignedRatio(b: nat, b2: nat, n: nat, i: nat, f: nat)
    requires n == b * Pow(2, b2) && f == Pow(2, i)
    ensures b * Pow(2, b2 + i) == n * f && f > 0
  {
    PowAdd(2, b2, i);
    PowPositive(2, i);
    MulAssoc(b, Pow(2, b2), f);
  }

  lemma RatioScaled(n: nat, d: nat, f: nat)
    requires f > 0
    ensures n * f < 10 * (d * f) <==> n < 10 * d
    ensures d * f <= 10 * (n * f) <==> d <= 10 * n
    ensures d * f <= n * f <==> d <= n
    ensures 10 * n * f == 10 * (n * f)
  {
    MulAssoc(10, d, f);
    MulAssoc(10, n, f);
    CommonFactor(10 * d, n, f);
    CommonFactor(d, 10 * n, f);
    CommonFactor(d, n, f);
  }
}
