/** The big-integer part of dtoa as a whole: from the two words of a double to its
    decimal digits, and why reading the shortest ones gives the double back. */
module Doubles {
  import opened Words
  import opened Bigints
  import opened Alignment
  import opened Decimals
  import opened PowersOfFive
  import opened ShortestPrecision
  import opened DecimalConversion
  import opened DoubleBits

  // ---------- doubles against powers of ten ----------

  function Up(i: int): nat
  {
    if i > 0 then i else 0
  }

  /** m * 2^u over 10^e is m * Unit(u, e) over Place(e). */
  function Unit(u: int, e: int): nat
    requires u >= -1074
  {
    Pow(2, u + 1074) * Pow(10, Up(-e))
  }

  function Place(e: int): nat
  {
    Pow(2, 1074) * Pow(10, Up(e))
  }

  /** 10^e <= x < 10^(e+1) */
  predicate Spans(x: Double, e: int)
    requires x.Valid()
  {
    Place(e) <= x.m * Unit(x.u, e) < 10 * Place(e)
  }

  /** k is the decimal exponent of x or, when that is going to be checked, one more. */
  predicate Estimate(x: Double, k: int, check: bool)
    requires x.Valid()
  {
    x.m * Unit(x.u, k) < 10 * Place(k) && Place(k) <= (if check then 10 else 1) * (x.m * Unit(x.u, k))
  }

  /** x over 10^e and half the way to its neighbours, everything four times: the gap
      below is a quarter of a unit when x is the least double of its exponent. */
  function Around(x: Double, e: int, closed: bool): Interval
    requires x.Valid()
  {
    var unit := Unit(x.u, e);
    Interval(4 * (x.m * unit), 4 * Place(e), if x.Boundary() then unit else 2 * unit, 2 * unit, closed)
  }

  /** x in units of 10^(e + 1 - lev), over Place(e). */
  function AtScale(x: Double, e: int, lev: nat): nat
    requires x.u >= -1074 && lev >= 1
  {
    x.m * Unit(x.u, e) * Pow(10, lev - 1)
  }

  // ---------- powers of two and five ----------

  function TwoFive(x: nat, y: nat): nat
  {
    Pow(2, x) * Pow(5, y)
  }

  lemma TwoFiveAdd(x: nat, y: nat, x': nat, y': nat)
    ensures TwoFive(x, y) * TwoFive(x', y') == TwoFive(x + x', y + y')
  {
    hide Pow;
    PowAdd(2, x, x');
    PowAdd(5, y, y');
    Shuffle(Pow(2, x), Pow(5, y), Pow(2, x'), Pow(5, y'));
  }

  lemma Shuffle(a: nat, b: nat, c: nat, d: nat)
    ensures a * b * (c * d) == a * c * (b * d)
  {
    MulAssoc(a, b, c * d);
    MulAssoc(b, c, d);
    MulAssoc(c, b, d);
    MulAssoc(a, c, b * d);
  }

  lemma {:induction false} Tens(k: nat)
    ensures Pow(10, k) == TwoFive(k, k)
  {
    if k > 0 {
      Tens(k - 1);
      TwoFiveAdd(1, 1, k - 1, k - 1);
      assert Pow(2, 1) == 2 && Pow(5, 1) == 5;
      assert TwoFive(1, 1) == 10;
    }
  }

  lemma TwoFivePositive(x: nat, y: nat)
    ensures TwoFive(x, y) > 0
  {
    PowPositive(2, x);
    PowPositive(5, y);
    MulStrict(0, Pow(2, x), Pow(5, y));
  }

  lemma PlaceForm(e: int, low: nat)
    requires low == 1074
    ensures Place(e) == TwoFive(low + Up(e), Up(e)) > 0
  {
    hide Pow;
    Tens(Up(e));
    PowAdd(2, low, Up(e));
    MulAssoc(Pow(2, low), Pow(2, Up(e)), Pow(5, Up(e)));
    TwoFivePositive(low + Up(e), Up(e));
  }

  lemma UnitForm(u: int, e: int, low: nat)
    requires low == 1074 && u + low >= 0
    ensures Unit(u, e) == TwoFive(u + low + Up(-e), Up(-e)) > 0
  {
    hide Pow;
    Tens(Up(-e));
    PowAdd(2, u + low, Up(-e));
    MulAssoc(Pow(2, u + low), Pow(2, Up(-e)), Pow(5, Up(-e)));
    TwoFivePositive(u + low + Up(-e), Up(-e));
  }

  /** The half-width 2^m2 * 5^b5 over the divisor 2^s2 * 5^s5 is half a unit of x
      over 10^k; c tells whether k is one too large. */
  lemma Balance(m2: nat, b5: nat, s2: nat, s5: nat, u: int, k: int, c: nat, h: nat)
    requires c <= 1 && u >= -1074 && b5 == Up(-k) && s5 == Up(k) && m2 - s2 == u - k - 1
    requires h == TwoFive(m2, b5) * Pow(10, c)
    ensures 2 * h * Place(k - c) == TwoFive(s2, s5) * Unit(u, k - c)
  {
    var low, e := 1074, k - c;
    PlaceForm(e, low);
    UnitForm(u, e, low);
    TwoHalves(m2, b5, c, h);
    hide TwoFive, Pow, Place, Unit;
    TwoFiveAdd(1 + m2 + c, b5 + c, low + Up(e), Up(e));
    TwoFiveAdd(s2, s5, u + low + Up(-e), Up(-e));
    assert 1 + m2 + c + (low + Up(e)) == s2 + (u + low + Up(-e));
    assert b5 + c + Up(e) == s5 + Up(-e);
  }

  lemma TwoHalves(m2: nat, b5: nat, c: nat, h: nat)
    requires h == TwoFive(m2, b5) * Pow(10, c)
    ensures 2 * h == TwoFive(1 + m2 + c, b5 + c)
  {
    Tens(c);
    TwoFiveAdd(m2, b5, c, c);
    assert Pow(2, 1 + m2 + c) == 2 * Pow(2, m2 + c);
    MulAssoc(2, Pow(2, m2 + c), Pow(5, b5 + c));
  }

  // ---------- the exponents ----------

  /** The powers of two and five that b and S still lack; j is the number of binary
      places of d. */
  method Arrange(bbits: nat, i: int, k: int) returns (b2: nat, b5: nat, s2: nat, s5: nat)
    ensures b5 == Up(-k) && s5 == Up(k) && b2 - s2 == i + 1 - bbits - k
  {
    var j := bbits - i - 1;
    if j >= 0 {
      b2, s2 := 0, j;
    } else {
      b2, s2 := -j, 0;
    }
    if k >= 0 {
      b5, s5 := 0, k;
      s2 := s2 + k;
    } else {
      b2 := b2 - k;
      b5, s5 := -k, 0;
    }
  }

  /** Common factors of two are left out. */
  method CancelTwos(b2: nat, m2: nat, s2: nat) returns (b2': nat, m2': nat, s2': nat)
    requires m2 <= b2
    ensures b2' - m2' == b2 - m2 && m2' - s2' == m2 - s2 && (m2' == 0 || s2' == 0)
  {
    b2', m2', s2' := b2, m2, s2;
    if m2 > 0 && s2 > 0 {
      var i := if m2 < s2 then m2 else s2;
      b2', m2', s2' := b2 - i, m2 - i, s2 - i;
    }
  }

  lemma Commute(a: nat, b: nat)
    requires a > 0 && b > 0
    ensures a * b == b * a > 0
  {
  }

  /** The numerator and the half-width with their powers of five. */
  method TimesFives(b0: Bigint, b5: nat, p5s: Pow5List) returns (b: Bigint, mhi: Bigint)
    requires b0.Normalised() && b0.Num() > 0 && p5s.Valid() && p5s.Clear(b0)
    modifies p5s
    ensures b.Normalised() && b.Num() == b0.Num() * Pow(5, b5) > 0 && (b == b0 || (fresh(b) && fresh(b.x)))
    ensures mhi.Normalised() && mhi.Num() == Pow(5, b5) > 0 && fresh(mhi) && fresh(mhi.x)
    ensures Apart(b, mhi) && p5s.Valid() && p5s.Grown() && p5s.Clear(b) && p5s.Clear(mhi)
  {
    ghost var v, f := b0.Num(), Pow(5, b5);
    assert b5 == 0 ==> f == 1;
    PowPositive(5, b5);
    Commute(v, f);
    hide Pow, Value, Normal;
    b := b0;
    mhi := I2b(1);
    if b5 > 0 {
      mhi := Pow5mult(mhi, b5, p5s);
      b := Mult(mhi, b0);
    }
  }

  /** S as a power of five. */
  method Divisor(s5: nat, p5s: Pow5List) returns (S: Bigint)
    requires p5s.Valid()
    modifies p5s
    ensures S.Normalised() && S.Num() == Pow(5, s5) > 0 && fresh(S) && fresh(S.x)
    ensures p5s.Valid() && p5s.Grown() && p5s.Clear(S)
  {
    assert Pow(5, 0) == 1;
    PowPositive(5, s5);
    S := I2b(1);
    if s5 > 0 {
      S := Pow5mult(S, s5, p5s);
    }
  }

  // ---------- the ratio on numbers ----------

  /** n/d is x over 10^k. */
  lemma SameRatio(n: nat, d: nat, mu: nat, p: nat, check: bool)
    requires n * p == mu * d && d > 0 && p > 0
    requires mu < 10 * p && p <= (if check then 10 else 1) * mu
    ensures n < 10 * d && d <= (if check then 10 * n else n)
  {
    var c := if check then 10 else 1;
    MulStrict(mu, 10 * p, d);
    MulMonotone(p, c * mu, d);
    MulAssoc(10, p, d);
    MulAssoc(c, mu, d);
    assert p * d == d * p;
    MulAssoc(10, d, p);
    MulAssoc(c, n, p);
    CommonFactor(10 * d, n, p);
    CommonFactor(d, c * n, p);
  }

  /** The numerator is twice m half-widths. */
  lemma NumeratorForm(v: nat, t: nat, m: nat, m2: nat, b5: nat, b2: nat, h: nat, five: nat)
    requires v * Pow(2, t) == m && b2 == m2 + 1 + t && five == Pow(5, b5) && h == five * Pow(2, m2)
    ensures v * five * Pow(2, b2) == 2 * m * h && h == TwoFive(m2, b5)
  {
    assert Pow(2, 1) == 2;
    PowAdd(2, 1, t);
    PowAdd(2, m2, 1 + t);
    hide Pow;
    FormAlgebra(v, five, Pow(2, m2), Pow(2, t), Pow(2, 1 + t), Pow(2, b2), m, h);
  }

  lemma FormAlgebra(v: nat, f: nat, a: nat, b: nat, b1: nat, c: nat, m: nat, h: nat)
    requires v * b == m && b1 == 2 * b && c == a * b1 && h == f * a
    ensures v * f * c == 2 * m * h && f * a == a * f
  {
    Shuffle(v, f, b1, a);
    assert a * b1 == b1 * a && v * b1 == 2 * m;
  }

  /** What dtoa computes with, in terms of x: numerator, divisor and half-width. */
  ghost predicate Represents(x: Double, k: int, n: nat, d: nat, h: nat)
    requires x.Valid()
  {
    && n == 2 * x.m * h && d > 0 && h > 0
    && 2 * h * Place(k) == d * Unit(x.u, k)
    && 2 * (10 * h) * Place(k - 1) == d * Unit(x.u, k - 1)
  }

  lemma RepresentsForms(x: Double, k: int, v: nat, t: nat, b2: nat, m2: nat, b5: nat, s2: nat, s5: nat,
                        vb: nat, vs: nat, vh: nat, n: nat, d: nat, h: nat)
    requires x.Valid() && v * Pow(2, t) == x.m && b5 == Up(-k) && s5 == Up(k)
    requires b2 == m2 + 1 + t && b2 - s2 == x.u + t - k
    requires vb == v * Pow(5, b5) && vs == Pow(5, s5) && vh == Pow(5, b5)
    requires n == vb * Pow(2, b2) && d == vs * Pow(2, s2) && h == vh * Pow(2, m2)
    ensures Represents(x, k, n, d, h)
  {
    assert x.u >= -1074;
    hide *;
    NumeratorForm(v, t, x.m, m2, b5, b2, h, vh);
    FivesFirst(m2, b5, vh, h);
    FivesFirst(s2, s5, vs, d);
    HalfWidths(m2, b5, s2, s5, x.u, k, h, d);
    RepresentsParts(x, k, n, d, h);
  }

  lemma FivesFirst(x: nat, y: nat, v: nat, n: nat)
    requires v == Pow(5, y) && n == v * Pow(2, x)
    ensures n == TwoFive(x, y) > 0
  {
    TwoFivePositive(x, y);
  }

  lemma HalfWidths(m2: nat, b5: nat, s2: nat, s5: nat, u: int, k: int, h: nat, d: nat)
    requires u >= -1074 && b5 == Up(-k) && s5 == Up(k) && m2 - s2 == u - k - 1
    requires h == TwoFive(m2, b5) && d == TwoFive(s2, s5)
    ensures 2 * h * Place(k) == d * Unit(u, k)
    ensures 2 * (10 * h) * Place(k - 1) == d * Unit(u, k - 1)
  {
    assert Pow(10, 0) == 1 && Pow(10, 1) == 10;
    hide *;
    Balance(m2, b5, s2, s5, u, k, 0, h);
    Balance(m2, b5, s2, s5, u, k, 1, 10 * h);
  }

  lemma RepresentsParts(x: Double, k: int, n: nat, d: nat, h: nat)
    requires x.Valid() && n == 2 * x.m * h && d > 0 && h > 0
    requires 2 * h * Place(k) == d * Unit(x.u, k)
    requires 2 * (10 * h) * Place(k - 1) == d * Unit(x.u, k - 1)
    ensures Represents(x, k, n, d, h)
  {
  }

  // ---------- no tie is lost ----------

  lemma {:induction false} PowerEven(n: nat)
    requires n > 0
    ensures Pow(2, n) % 2 == 0
  {
  }

  lemma {:induction false} NoFactorFive(n: nat)
    ensures Pow(2, n) % 5 != 0
  {
    if n > 0 {
      NoFactorFive(n - 1);
    }
  }

  lemma OddTimesTen(a: nat, y: nat, n: nat)
    requires n > 0 && a % 2 == 1
    ensures a * Pow(10, y) != Pow(2, n)
  {
    PowerEven(n);
    NoFactorFive(n);
    assert y == 0 ==> Pow(10, y) == 1;
    hide Pow;
    if y > 0 {
      TimesTen(a, y - 1);
      MultipleOfFive(a * Pow(10, y - 1), Pow(2, n));
    }
  }

  lemma MultipleOfFive(z: nat, p: nat)
    requires p % 5 != 0
    ensures 10 * z != p
  {
    assert 10 * z % 5 == 0;
  }

  /** A tie could only be lost by one of the nine least doubles, and there the upper
      end of the interval would have to be a power of ten. */
  lemma NeverLost(x: Double, e: int, closed: bool, one: bool)
    requires x.Valid()
    ensures !Lost(Around(x, e, closed), one)
  {
    hide Place, Unit;
    var iv, unit, place := Around(x, e, closed), Unit(x.u, e), Place(e);
    if Lost(iv, one) {
      TenIsClose(x.m, unit, place);
      UpperEnd(x.m, x.u, e, unit, place);
    }
  }

  lemma TenIsClose(m: nat, unit: nat, place: nat)
    requires 4 * (m * unit) + 2 * unit == 40 * place && 8 * (m * unit) < 76 * place && m > 0
    ensures m <= 9
  {
    if m >= 10 {
      MulMonotone(10, m, unit);
    }
  }

  lemma UpperEnd(m: nat, u: int, e: int, unit: nat, place: nat)
    requires u == -1074 && unit == Unit(u, e) && place == Place(e)
    ensures 4 * (m * unit) + 2 * unit != 40 * place
  {
    var low, a := 1074, 2 * m + 1;
    assert 4 * (m * unit) + 2 * unit == 2 * (a * unit);
    EndForms(u, e, unit, place, low);
    hide Pow;
    if e >= 0 {
      assert a * unit == a;
    } else {
      var y := Up(-e) - 1;
      OddTimesTen(a, y, low + 1);
      TimesTen(a, y);
    }
  }

  lemma EndForms(u: int, e: int, unit: nat, place: nat, low: nat)
    requires low == 1074 && u + low == 0 && unit == Unit(u, e) && place == Place(e)
    ensures e >= 0 ==> unit == 1
    ensures e < 0 ==> unit == Pow(10, Up(-e) - 1 + 1) && 2 * place == Pow(2, low + 1)
  {
    assert Pow(2, 0) == 1 && Pow(10, 0) == 1;
    assert Pow(2, low + 1) == 2 * Pow(2, low);
    hide Pow;
  }

  // ---------- ties ----------

  /** Of two decimals of that length that are as near, the even one. */
  ghost predicate TieToEven(iv: Interval, v: nat, lev: nat)
    requires lev >= 1
  {
    forall w: nat :: iv.Holds(w, lev) && w != v && Off(iv, w, lev) == Off(iv, v, lev) ==> v % 2 == 0
  }

  /** Two numbers in the interval as far from the middle, the interval no wider than their distance. */
  lemma HalfWay(a: nat, lo: nat, hi: nat, x: nat, y: nat, s: nat, closed: bool)
    requires Within(a, lo, hi, x, closed) && Within(a, lo, hi, y, closed) && Dist(x, a) == Dist(y, a)
    requires x < y && lo + hi == s
    ensures x + y == 2 * a && y - x <= s
  {
  }

  lemma NextTo(v: nat, w: nat, s: nat)
    requires v < w && s > 0
    ensures w == v + 1 || w * s - v * s > s
  {
    if w > v + 1 {
      MulMonotone(v + 2, w, s);
      assert (v + 2) * s == v * s + 2 * s;
    }
  }

  lemma EndsApart(a: nat, lo: nat, hi: nat, v: nat, w: nat, s: nat, closed: bool)
    requires Within(a, lo, hi, v * s, closed) && Within(a, lo, hi, w * s, closed)
    requires Dist(v * s, a) == Dist(w * s, a) && v < w && lo + hi == s > 0
    ensures w == v + 1 && v * s + (v + 1) * s == 2 * a
  {
    MulStrict(v, w, s);
    HalfWay(a, lo, hi, v * s, w * s, s, closed);
    NextTo(v, w, s);
  }

  /** Half way between neighbours is an odd number of half intervals, and a double is an even one. */
  lemma NoHalfWay(m: nat, unit: nat, width: nat, p: nat, s: nat, t: nat)
    requires (width == 3 * unit || width == 4 * unit) && unit > 0 && p > 0 && width * p == s
    ensures t * s + (t + 1) * s != 2 * (4 * (m * unit) * p)
  {
    var k, mu := 2 * t + 1, m * unit;
    var a := k * width;
    MulAssoc(k, width, p);
    OddSum(t, s);
    FourTimes(mu, p);
    Parity(t, m, unit, width, a);
    CommonFactor(a, 8 * mu, p);
  }

  lemma OddSum(t: nat, s: nat)
    ensures t * s + (t + 1) * s == (2 * t + 1) * s
  {
  }

  lemma FourTimes(a: nat, p: nat)
    ensures 2 * (4 * a * p) == 8 * a * p
  {
  }

  lemma Parity(t: nat, m: nat, unit: nat, width: nat, a: nat)
    requires (width == 3 * unit || width == 4 * unit) && unit > 0 && a == (2 * t + 1) * width
    ensures a != 8 * (m * unit)
  {
    var c := if width == 3 * unit then 3 * (2 * t + 1) else 4 * (2 * t + 1);
    assert c != 8 * m;
    assert a == c * unit;
    MulAssoc(8, m, unit);
    CommonFactor(c, 8 * m, unit);
  }

  lemma AroundParts(x: Double, e: int, closed: bool)
    requires x.Valid()
    ensures var iv, unit := Around(x, e, closed), Unit(x.u, e);
      && unit > 0 && iv.s > 0 && iv.n == 4 * (x.m * unit) && iv.closed == closed
      && (iv.mlo + iv.mhi == 3 * unit || iv.mlo + iv.mhi == 4 * unit)
  {
    hide Unit, Place;
    PlacePositive(e);
    UnitPositive(x.u, e);
  }

  lemma NotEnds(x: Double, e: int, closed: bool, v: nat, w: nat, lev: nat)
    requires x.Valid() && lev >= 1 && v < w && Off(Around(x, e, closed), w, lev) == Off(Around(x, e, closed), v, lev)
    requires Around(x, e, closed).Holds(v, lev) && Around(x, e, closed).Holds(w, lev)
    ensures !Spanned(Around(x, e, closed), lev)
  {
    hide Around, Unit, Within, Dist, Pow;
    var iv, p := Around(x, e, closed), Pow(10, lev - 1);
    AroundParts(x, e, closed);
    PowPositive(10, lev - 1);
    NoHalfWay(x.m, Unit(x.u, e), iv.mlo + iv.mhi, p, (iv.mlo + iv.mhi) * p, v);
    if Spanned(iv, lev) {
      Distribute(iv.mlo, iv.mhi, p);
      EndsApart(iv.n * p, iv.mlo * p, iv.mhi * p, v, w, iv.s, closed);
    }
  }

  lemma Distribute(a: nat, b: nat, p: nat)
    ensures (a + b) * p == a * p + b * p
  {
  }

  lemma UnitPositive(u: int, e: int)
    requires u >= -1074
    ensures Unit(u, e) > 0
  {
    PowPositive(2, u + 1074);
    PowPositive(10, Up(-e));
    hide Pow;
    MulStrict(0, Pow(2, u + 1074), Pow(10, Up(-e)));
  }

  lemma NearestTies(x: Double, e: int, closed: bool, v: nat, lev: nat)
    requires x.Valid() && lev >= 1 && Around(x, e, closed).Holds(v, lev) && Nearest(Around(x, e, closed), v, lev)
    ensures TieToEven(Around(x, e, closed), v, lev)
  {
    hide Around, Off, Spanned;
    var iv := Around(x, e, closed);
    forall w: nat | iv.Holds(w, lev) && w != v && Off(iv, w, lev) == Off(iv, v, lev)
      ensures v % 2 == 0
    {
      if v < w {
        NotEnds(x, e, closed, v, w, lev);
      } else {
        NotEnds(x, e, closed, w, v, lev);
      }
    }
  }

  // ---------- from the ratio to the double ----------

  /** The interval dtoa works with is the one around x, times a common factor. */
  lemma Proportional(m: nat, h: nat, p: nat, d: nat, u: nat, spec: bool, num: nat, d1: nat)
    requires 2 * h * p == d * u
    requires if spec then num == 4 * m * h && d1 == 2 * d else num == 2 * m * h && d1 == d
    ensures num * (4 * p) == 4 * (m * u) * d1 && d1 * (4 * p) == 4 * p * d1
    ensures h * (4 * p) == (if spec then u else 2 * u) * d1
    ensures (if spec then 2 * h else h) * (4 * p) == 2 * u * d1
  {
    var w := h * p;
    assert 2 * w == d * u;
    assert h * (4 * p) == 4 * w;
    MulAssoc(m, h, p);
    MulAssoc(m, d, u);
    MulAssoc(m, u, d);
    assert m * u * d == m * (2 * w) by { assert u * d == d * u; }
    assert m * h * (4 * p) == 4 * (m * w);
  }

  lemma SpansFrom(num: nat, d1: nat, p: nat, mu: nat)
    requires num * (4 * p) == 4 * mu * d1 && d1 <= num < 10 * d1 && p > 0
    ensures p <= mu < 10 * p
  {
    MulMonotone(d1, num, 4 * p);
    assert d1 * (4 * p) == 4 * p * d1;
    CommonFactor(4 * p, 4 * mu, d1);
    MulStrict(num, 10 * d1, 4 * p);
    assert 10 * d1 * (4 * p) == 40 * p * d1;
    CommonFactor(40 * p, 4 * mu, d1);
  }

  lemma UnitsWidth(m: nat, n: nat, h: nat, lo: nat, k: int, e: int, num: nat, d1: nat, spec: bool)
    requires n == 2 * m * h && lo == (if e < k then 10 * h else h)
    requires (num, e) == Units(if spec then 2 * n else n, d1, k)
    ensures num == if spec then 4 * m * lo else 2 * m * lo
  {
    var w := m * h;
    assert m * (10 * h) == 10 * w;
    MulAssoc(2, m, h);
    MulAssoc(2, m, lo);
    MulAssoc(4, m, lo);
  }

  lemma PlacePositive(e: int)
    ensures Place(e) > 0
  {
    PlaceForm(e, 1074);
  }

  lemma AnsweredMeans(iv: Interval, ds: seq<Digit>, carry: nat, one: bool)
    requires Answered(iv, ds, carry, one) && !Lost(iv, one)
    ensures Shortest(iv, ds, carry) && Nearest(iv, DecVal(ds) * Pow(10, carry), |ds|)
  {
  }

  lemma Conclude(x: Double, k: int, n: nat, d: nat, h: nat, closed: bool, d1: nat, num: nat, e: int, lo: nat,
                 iv: Interval, ds: seq<Digit>, carry: nat, one: bool)
    requires x.Valid() && Represents(x, k, n, d, h)
    requires d1 == if x.Boundary() then 2 * d else d
    requires (num, e) == Units(if x.Boundary() then 2 * n else n, d1, k) && d1 <= num < 10 * d1
    requires lo == if e < k then 10 * h else h
    requires iv == Interval(num, d1, lo, if x.Boundary() then 2 * lo else lo, closed) && Answered(iv, ds, carry, one)
    ensures Spans(x, e) && Shortest(Around(x, e, closed), ds, carry)
    ensures Nearest(Around(x, e, closed), DecVal(ds) * Pow(10, carry), |ds|)
    ensures TieToEven(Around(x, e, closed), DecVal(ds) * Pow(10, carry), |ds|)
  {
    hide Place, Unit, Answered, Lost;
    var p, u, around := Place(e), Unit(x.u, e), Around(x, e, closed);
    UnitsWidth(x.m, n, h, lo, k, e, num, d1, x.Boundary());
    Proportional(x.m, lo, p, d, u, x.Boundary(), num, d1);
    PlacePositive(e);
    SpansFrom(num, d1, p, x.m * u);
    assert Scale(iv, 4 * p) == Scale(around, d1);
    AnsweredCommonFactor(iv, 4 * p, ds, carry, one);
    AnsweredCommonFactor(around, d1, ds, carry, one);
    NeverLost(x, e, closed, one);
    AnsweredMeans(around, ds, carry, one);
    NearestTies(x, e, closed, DecVal(ds) * Pow(10, carry), |ds|);
  }

  // ---------- modes 0 and 1 ----------

  /** All exponents: with a half-width to carry along, the numerator is made twice the
      number of half-widths; t zero bits of the number have been dropped by d2b. */
  method Exponents(w0: Word, be: int, bbits: nat, k: int, leftright: bool, ghost x: Double, ghost t: nat)
    returns (b2: nat, b5: nat, s2: nat, s5: nat, m2: nat)
    requires x.u == (if w0 / 0x10_0000 == 0 then -1074 else w0 / 0x10_0000 - 1075) && be == x.u + t
    requires w0 / 0x10_0000 != 0 ==> bbits == 53 - t
    ensures b5 == Up(-k) && s5 == Up(k) && b2 - s2 == be - k
    ensures if leftright then b2 == m2 + 1 + t else b2 == m2
  {
    var i: int := w0 / 0x10_0000;
    var denorm := i == 0;
    i := if denorm then bbits + be - 1 else i - 1023;
    b2, b5, s2, s5 := Arrange(bbits, i, k);
    m2 := b2;
    if leftright {
      i := if denorm then be + 1075 else 54 - bbits;
      b2 := b2 + i;
      s2 := s2 + i;
    }
    b2, m2, s2 := CancelTwos(b2, m2, s2);
  }

  /** The estimate of k is one for the ratio, too. */
  lemma RatioReady(x: Double, k: int, check: bool, n: nat, d: nat, h: nat, n1: nat, d1: nat)
    requires x.Valid() && Estimate(x, k, check) && Represents(x, k, n, d, h)
    requires (n1 == n && d1 == d) || (n1 == 2 * n && d1 == 2 * d)
    ensures n1 < 10 * d1 && d1 <= (if check then 10 * n1 else n1)
  {
    hide Place, Unit;
    var p, u := Place(k), Unit(x.u, k);
    PlacePositive(k);
    RatioProducts(x.m, h, p, d, u);
    SameRatio(n, d, x.m * u, p, check);
  }

  lemma RatioProducts(m: nat, h: nat, p: nat, d: nat, u: nat)
    requires 2 * h * p == d * u
    ensures 2 * m * h * p == m * u * d
  {
    var w := h * p;
    assert 2 * w == d * u;
    MulAssoc(m, u, d);
    assert u * d == d * u;
    assert 2 * m * h * p == m * (2 * w);
  }

  /** One more factor of two on both sides. */
  lemma OneMoreTwo(v: nat, n: nat, e: nat, e1: nat, n1: nat, spec: bool)
    requires n == v * Pow(2, e) && e1 == (if spec then e + 1 else e) && n1 == if spec then 2 * n else n
    ensures n1 == v * Pow(2, e1)
  {
    if spec {
      assert Pow(2, e1) == 2 * Pow(2, e);
      MulAssoc(v, 2, Pow(2, e));
      MulAssoc(2, v, Pow(2, e));
    }
  }

  /** Modes 0 and 1 of dtoa on a positive finite double, from an estimate k on: the
      digits are a shortest decimal in the interval around it, and no decimal of
      that length in the interval is nearer; of two as near it is the even one. m5 always equals b5, so the numerator is
      multiplied by the half-width's power of five and by nothing else. */
  method ShortestOf(w0: Word, w1: Word, mode: int, k: int, check: bool, p5s: Pow5List)
    returns (ds: seq<Digit>, decpt: int, ghost e: int)
    requires Finite(w0, w1) && (mode == 0 || mode == 1)
    requires Estimate(Decode(w0, w1), k, check) && p5s.Valid()
    modifies p5s
    ensures p5s.Valid() && p5s.Grown()
    ensures var x := Decode(w0, w1);
            var iv := Around(x, e, mode == 0 && x.m % 2 == 0);
            && Spans(x, e) && e + 1 <= decpt <= e + 2
            && Shortest(iv, ds, decpt - e - 1) && Nearest(iv, DecVal(ds) * Pow(10, decpt - e - 1), |ds|)
            && TieToEven(iv, DecVal(ds) * Pow(10, decpt - e - 1), |ds|)
  {
    hide Decode, Pow, Estimate, Represents, Spans, Shortest, Nearest, TieToEven, Value, Normal, Around, Place, Unit;
    var b, S, mhi, b2, m2, s2;
    ghost var n, d, h;
    b, S, mhi, b2, m2, s2, n, d, h := Operands(w0, w1, k, p5s);
    ds, decpt, e := Convert(Decode(w0, w1), b, S, mhi, b2, m2, s2, k, check, w0, w1, mode == 0 && w1 % 2 == 0, n, d, h);
  }

  /** The double as a multiword integer, and all exponents. */
  method Start(w0: Word, w1: Word, k: int, leftright: bool)
    returns (b: Bigint, b2: nat, b5: nat, s2: nat, s5: nat, m2: nat, ghost t: nat)
    requires Finite(w0, w1)
    ensures fresh(b) && fresh(b.x) && b.Normalised() && b.Num() > 0
    ensures var x := Decode(w0, w1); b.Num() * Pow(2, t) == x.m && b2 - s2 == x.u + t - k
    ensures b5 == Up(-k) && s5 == Up(k)
    ensures if leftright then b2 == m2 + 1 + t else b2 == m2
  {
    hide Decode, Pow, Value, Normal, Up;
    var be, bbits;
    b, be, bbits, t := D2b(w0, w1);
    b2, b5, s2, s5, m2 := Exponents(w0, be, bbits, k, leftright, Decode(w0, w1), t);
  }

  /** The three numbers the digit loop of modes 0 and 1 starts from, with the powers
      of two they still lack. */
  method Operands(w0: Word, w1: Word, k: int, p5s: Pow5List)
    returns (b: Bigint, S: Bigint, mhi: Bigint, b2: nat, m2: nat, s2: nat, ghost n: nat, ghost d: nat, ghost h: nat)
    requires Finite(w0, w1) && p5s.Valid()
    modifies p5s
    ensures p5s.Valid() && p5s.Grown() && p5s.Clear(b) && p5s.Clear(mhi)
    ensures fresh(b) && fresh(b.x) && fresh(mhi) && fresh(mhi.x)
    ensures b.Normalised() && S.Normalised() && mhi.Normalised() && Separate(b, S, mhi, mhi)
    ensures b.Num() > 0 && S.Num() > 0 && mhi.Num() > 0
    ensures n == b.Num() * Pow(2, b2) && d == S.Num() * Pow(2, s2) && h == mhi.Num() * Pow(2, m2)
    ensures Represents(Decode(w0, w1), k, n, d, h)
  {
    hide Decode, Pow, Represents, Value, Normal, Place, Unit, Up;
    ghost var x := Decode(w0, w1);
    var b5, s5;
    ghost var t;
    b, b2, b5, s2, s5, m2, t := Start(w0, w1, k, true);
    ghost var v := b.Num();
    b, mhi := TimesFives(b, b5, p5s);
    S := Divisor(s5, p5s);
    ghost var vb, vs, vh := b.Num(), S.Num(), mhi.Num();
    n, d, h := vb * Pow(2, b2), vs * Pow(2, s2), vh * Pow(2, m2);
    RepresentsForms(x, k, v, t, b2, m2, b5, s2, s5, vb, vs, vh, n, d, h);
  }

  /** The test for a power of two, and the conversion. */
  method Convert(ghost x: Double, b: Bigint, S: Bigint, mhi: Bigint, b2: nat, m2: nat, s2: nat, k: int, check: bool,
                 w0: Word, w1: Word, closed: bool, ghost n: nat, ghost d: nat, ghost h: nat)
    returns (ds: seq<Digit>, decpt: int, ghost e: int)
    requires Finite(w0, w1) && x == Decode(w0, w1) && Estimate(x, k, check) && Represents(x, k, n, d, h)
    requires b.Normalised() && S.Normalised() && mhi.Normalised() && Separate(b, S, mhi, mhi)
    requires b.Num() > 0 && S.Num() > 0 && mhi.Num() > 0
    requires n == b.Num() * Pow(2, b2) && d == S.Num() * Pow(2, s2) && h == mhi.Num() * Pow(2, m2)
    modifies b, b.x, mhi, mhi.x
    ensures var iv := Around(x, e, closed);
            && Spans(x, e) && e + 1 <= decpt <= e + 2
            && Shortest(iv, ds, decpt - e - 1) && Nearest(iv, DecVal(ds) * Pow(10, decpt - e - 1), |ds|)
            && TieToEven(iv, DecVal(ds) * Pow(10, decpt - e - 1), |ds|)
  {
    hide Pow, Estimate, Represents, Spans, Shortest, Nearest, TieToEven, Answered, Value, Normal, Around, Place, Unit;
    var spec := w1 == 0 && w0 % 0x10_0000 == 0 && w0 / 0x20_0000 != 0;
    assert spec == x.Boundary();
    var c2, t2 := b2, s2;
    if spec {
      c2, t2 := b2 + 1, s2 + 1;
    }
    ghost var n1, d1 := if spec then 2 * n else n, if spec then 2 * d else d;
    OneMoreTwo(b.Num(), n, b2, c2, n1, spec);
    OneMoreTwo(S.Num(), d, s2, t2, d1, spec);
    RatioReady(x, k, check, n, d, h, n1, d1);
    ds, decpt := DtoaShortest(b, S, mhi, c2, m2, t2, k, check, spec, closed, n1, d1, h);
    ghost var (num, e') := Units(n1, d1, k);
    e := e';
    ghost var lo := if e < k then 10 * h else h;
    ghost var iv := Interval(num, d1, lo, if spec then 2 * lo else lo, closed);
    Conclude(x, k, n, d, h, closed, d1, num, e, lo, iv, ds, decpt - e - 1, d1 < 0x1000_0000);
  }

  // ---------- mode 2 ----------

  /** Without a half-width the ratio alone has to come out right. */
  lemma RatioBalance(b2: nat, b5: nat, s2: nat, s5: nat, u: int, t: nat, k: int, c: nat, w: nat, d: nat)
    requires c <= 1 && u >= -1074 && b5 == Up(-k) && s5 == Up(k) && b2 - s2 == u + t - k
    requires w == TwoFive(b2, b5) * Pow(10, c) && d == TwoFive(s2, s5)
    ensures w * Place(k - c) == Pow(2, t) * (Unit(u, k - c) * d)
  {
    var low, e := 1074, k - c;
    PlaceForm(e, low);
    UnitForm(u, e, low);
    Tens(c);
    PowerAsTwoFive(t);
    hide TwoFive, Pow, Place, Unit;
    TwoFiveAdd(b2, b5, c, c);
    TwoFiveAdd(b2 + c, b5 + c, low + Up(e), Up(e));
    TwoFiveAdd(u + low + Up(-e), Up(-e), s2, s5);
    TwoFiveAdd(t, 0, u + low + Up(-e) + s2, Up(-e) + s5);
    assert b2 + c + (low + Up(e)) == t + (u + low + Up(-e) + s2);
    assert b5 + c + Up(e) == 0 + (Up(-e) + s5);
  }

  lemma PowerAsTwoFive(t: nat)
    ensures Pow(2, t) == TwoFive(t, 0)
  {
    assert Pow(5, 0) == 1;
  }

  /** n/d is x over 10^k, and ten times that is x over 10^(k-1). */
  ghost predicate IsRatio(x: Double, k: int, n: nat, d: nat)
    requires x.Valid()
  {
    && d > 0
    && n * Place(k) == x.m * Unit(x.u, k) * d
    && 10 * n * Place(k - 1) == x.m * Unit(x.u, k - 1) * d
  }

  lemma RatioForms(x: Double, k: int, v: nat, t: nat, b2: nat, b5: nat, s2: nat, s5: nat, w: nat, n: nat, d: nat)
    requires x.Valid() && v * Pow(2, t) == x.m && b5 == Up(-k) && s5 == Up(k) && b2 - s2 == x.u + t - k
    requires w == TwoFive(b2, b5) && d == TwoFive(s2, s5) > 0 && n == v * w
    ensures IsRatio(x, k, n, d)
  {
    assert x.u >= -1074;
    hide *;
    RatioWithTens(b2, b5, s2, s5, x.u, t, k, w, d);
    IsRatioParts(x, k, v, Pow(2, t), w, n, d);
  }

  lemma WithoutHalf(v: nat, x: nat, y: nat, vb: nat, n: nat, w: nat)
    requires vb == v * Pow(5, y) && n == vb * Pow(2, x) && w == TwoFive(x, y)
    ensures n == v * w
  {
    hide Pow;
    MulAssoc(v, Pow(5, y), Pow(2, x));
    MulAssoc(v, Pow(2, x), Pow(5, y));
    assert Pow(5, y) * Pow(2, x) == Pow(2, x) * Pow(5, y);
  }

  lemma RatioWithTens(b2: nat, b5: nat, s2: nat, s5: nat, u: int, t: nat, k: int, w: nat, d: nat)
    requires u >= -1074 && b5 == Up(-k) && s5 == Up(k) && b2 - s2 == u + t - k
    requires w == TwoFive(b2, b5) && d == TwoFive(s2, s5)
    ensures w * Place(k) == Pow(2, t) * (Unit(u, k) * d)
    ensures 10 * w * Place(k - 1) == Pow(2, t) * (Unit(u, k - 1) * d)
  {
    assert Pow(10, 0) == 1 && Pow(10, 1) == 10;
    hide *;
    RatioBalance(b2, b5, s2, s5, u, t, k, 0, w, d);
    RatioBalance(b2, b5, s2, s5, u, t, k, 1, 10 * w, d);
  }

  lemma RatioTimes(v: nat, f: nat, w: nat, m: nat, p: nat, u: nat, d: nat, n: nat, c: nat)
    requires v * f == m && n == v * w && c * w * p == f * (u * d)
    ensures c * n * p == m * u * d
  {
    MulAssoc(c, w, p);
    MulAssoc(v, w, p);
    MulAssoc(c, n, p);
    MulAssoc(m, u, d);
    MulAssoc(v, f, u * d);
    assert c * (v * (w * p)) == v * (c * (w * p));
  }

  lemma IsRatioParts(x: Double, k: int, v: nat, f: nat, w: nat, n: nat, d: nat)
    requires x.Valid() && d > 0 && v * f == x.m && n == v * w
    requires w * Place(k) == f * (Unit(x.u, k) * d)
    requires 10 * w * Place(k - 1) == f * (Unit(x.u, k - 1) * d)
    ensures IsRatio(x, k, n, d)
  {
    hide Place, Unit;
    RatioTimes(v, f, w, x.m, Place(k), Unit(x.u, k), d, n, 1);
    RatioTimes(v, f, w, x.m, Place(k - 1), Unit(x.u, k - 1), d, n, 10);
  }

  /** The correctly rounded quotient does not depend on how the ratio is written. */
  lemma RoundedFrom(q: nat, num: nat, d: nat, mu: nat, p: nat, f: nat)
    requires num * p == mu * d && d > 0 && p > 0 && NearestEven(q, num * f, d)
    ensures NearestEven(q, mu * f, p)
  {
    hide NearestEven;
    NearestEvenScaled(q, num * f, d, p);
    NearestEvenScaled(q, mu * f, p, d);
    Swap(num, f, p);
    Swap(mu, f, d);
    assert d * p == p * d;
  }

  lemma SpansRatio(num: nat, d: nat, p: nat, mu: nat)
    requires num * p == mu * d && d <= num < 10 * d && p > 0
    ensures p <= mu < 10 * p
  {
    MulMonotone(d, num, p);
    MulStrict(num, 10 * d, p);
    assert d * p == p * d;
    MulAssoc(10, d, p);
    MulAssoc(10, p, d);
    CommonFactor(p, mu, d);
    CommonFactor(10 * p, mu, d);
  }

  lemma UnitsRatio(x: Double, k: int, n: nat, d: nat, num: nat, e: int)
    requires x.Valid() && IsRatio(x, k, n, d) && (num, e) == Units(n, d, k)
    ensures d > 0 && num * Place(e) == x.m * Unit(x.u, e) * d
  {
    hide Place, Unit;
  }

  lemma Rounded(x: Double, n: nat, d: nat, num: nat, e: int, q: nat, f: nat, lev: nat)
    requires x.Valid() && d > 0 && num * Place(e) == x.m * Unit(x.u, e) * d && d <= num < 10 * d
    requires lev >= 1 && f == Pow(10, lev - 1) && NearestEven(q, num * f, d)
    ensures Spans(x, e) && NearestEven(q, AtScale(x, e, lev), Place(e))
  {
    hide Place, Unit, NearestEven, Pow;
    var p, mu := Place(e), x.m * Unit(x.u, e);
    PlacePositive(e);
    SpansRatio(num, d, p, mu);
    RoundedFrom(q, num, d, mu, p, f);
  }

  lemma RatioEstimate(x: Double, k: int, check: bool, n: nat, d: nat)
    requires x.Valid() && Estimate(x, k, check) && IsRatio(x, k, n, d)
    ensures n < 10 * d && d <= (if check then 10 * n else n)
  {
    hide Place, Unit;
    PlacePositive(k);
    SameRatio(n, d, x.m * Unit(x.u, k), Place(k), check);
  }

  /** Mode 2 of dtoa on a positive finite double, from an estimate k on: x rounded to
      ndigits significant digits, ties to even, without trailing zeros. */
  method RoundedOf(w0: Word, w1: Word, ndigits: int, k: int, check: bool, p5s: Pow5List)
    returns (ds: seq<Digit>, decpt: int, ghost e: int)
    requires Finite(w0, w1) && Estimate(Decode(w0, w1), k, check) && p5s.Valid()
    modifies p5s
    ensures p5s.Valid() && p5s.Grown()
    ensures var x, ilim := Decode(w0, w1), if ndigits <= 0 then 1 else ndigits;
            && Spans(x, e) && e + 1 <= decpt <= e + 2 && Tight(ds) && |ds| <= ilim
            && NearestEven(DecVal(ds) * Pow(10, ilim - |ds| + (decpt - e - 1)), AtScale(x, e, ilim), Place(e))
  {
    hide Decode, Pow, Estimate, IsRatio, Spans, AtScale, Value, Normal, Place, Unit, NearestEven, DecVal;
    var b, S, b2, s2;
    ghost var n, d;
    b, S, b2, s2, n, d := FixedOperands(w0, w1, k, p5s);
    ghost var x := Decode(w0, w1);
    RatioEstimate(x, k, check, n, d);
    var ilim: nat := if ndigits <= 0 then 1 else ndigits;
    ds, decpt := DtoaFixed(b, S, b2, s2, k, check, ilim, n, d);
    ghost var (num, e') := Units(n, d, k);
    e := e';
    ghost var q := DecVal(ds) * Pow(10, ilim - |ds| + (decpt - e - 1));
    UnitsRatio(x, k, n, d, num, e);
    Rounded(x, n, d, num, e, q, Pow(10, ilim - 1), ilim);
  }

  /** The numerator with its power of five. */
  method TimesFive(b0: Bigint, b5: nat, p5s: Pow5List) returns (b: Bigint)
    requires b0.Normalised() && b0.Num() > 0 && p5s.Valid() && p5s.Clear(b0)
    modifies b0, b0.x, p5s
    ensures b.Normalised() && b.Num() == old(b0.Num()) * Pow(5, b5) > 0 && (b == b0 || (fresh(b) && fresh(b.x)))
    ensures p5s.Valid() && p5s.Grown() && p5s.Clear(b)
  {
    assert Pow(5, 0) == 1;
    PowPositive(5, b5);
    Commute(b0.Num(), Pow(5, b5));
    hide Pow, Value, Normal;
    b := b0;
    if b5 > 0 {
      b := Pow5mult(b, b5, p5s);
    }
  }

  /** The two numbers the digit loop of mode 2 starts from. */
  method FixedOperands(w0: Word, w1: Word, k: int, p5s: Pow5List)
    returns (b: Bigint, S: Bigint, b2: nat, s2: nat, ghost n: nat, ghost d: nat)
    requires Finite(w0, w1) && p5s.Valid()
    modifies p5s
    ensures p5s.Valid() && p5s.Grown() && p5s.Clear(b) && fresh(b) && fresh(b.x)
    ensures b.Normalised() && S.Normalised() && Apart(b, S) && b.Num() > 0 && S.Num() > 0
    ensures n == b.Num() * Pow(2, b2) && d == S.Num() * Pow(2, s2)
    ensures IsRatio(Decode(w0, w1), k, n, d)
  {
    hide Decode, Pow, TwoFive, IsRatio, Value, Normal, Up;
    var b5, s5, m2;
    ghost var t;
    b, b2, b5, s2, s5, m2, t := Start(w0, w1, k, false);
    ghost var v := b.Num();
    b := TimesFive(b, b5, p5s);
    S := Divisor(s5, p5s);
    ghost var vb, vs := b.Num(), S.Num();
    n, d := vb * Pow(2, b2), vs * Pow(2, s2);
    ghost var w := TwoFive(b2, b5);
    WithoutHalf(v, b2, b5, vb, n, w);
    FivesFirst(s2, s5, vs, d);
    RatioForms(Decode(w0, w1), k, v, t, b2, b5, s2, s5, w, n, d);
  }
}
