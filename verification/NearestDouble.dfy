/** Why the digits of modes 0 and 1 are enough: a decimal in the interval around a
    double is nearer to it than to every other double, or as near as to one with an
    odd number when its own is even. Reading it with rounding to nearest, ties to
    even, gives the double back. */
module NearestDouble {
  import opened Words
  import opened Decimals
  import opened ShortestPrecision
  import opened DoubleBits
  import opened Doubles
  import opened PowersOfFive
  import opened DecimalConversion

  // ---------- what a reading can give ----------

  /** Zero, and the power of two above the largest double, which stands for overflow:
      nearest to it, or half way and the number below odd, a reading gives infinity. */
  const ZERO := Double(0, -1074)
  const HUGE := Double(0x10_0000_0000_0000, 972)

  predicate Readable(y: Double)
  {
    y.Valid() || y == ZERO || y == HUGE
  }

  // ---------- the doubles in order ----------

  /** x in units of the least positive double. */
  function Val(x: Double): nat
    requires Readable(x)
  {
    x.m * Pow(2, x.u + 1074)
  }

  function Gap(x: Double): (w: nat)
    requires Readable(x)
    ensures w > 0
  {
    PowPositive(2, x.u + 1074);
    Pow(2, x.u + 1074)
  }

  /** A double with at least the same exponent is a multiple of the gap. */
  lemma OnGrid(x: Double, y: Double) returns (c: nat)
    requires Readable(x) && Readable(y) && y.u >= x.u
    ensures Val(y) == c * Gap(x)
    ensures y.u == x.u ==> c == y.m
    ensures y.u > x.u ==> c % 2 == 0
  {
    var k := y.u - x.u;
    c := y.m * Pow(2, k);
    PowAdd(2, k, x.u + 1074);
    assert k == 0 ==> Pow(2, k) == 1;
    assert k > 0 ==> Pow(2, k) == 2 * Pow(2, k - 1);
    hide Pow;
    MulAssoc(y.m, Pow(2, k), Pow(2, x.u + 1074));
    if k > 0 {
      Doubled(y.m, Pow(2, k - 1), c);
    }
  }

  lemma Doubled(a: nat, b: nat, c: nat)
    requires c == a * (2 * b)
    ensures c % 2 == 0
  {
    assert c == 2 * (a * b);
  }

  /** A double with a smaller exponent is smaller. */
  lemma OffGrid(x: Double, y: Double)
    requires Readable(x) && Readable(y) && y.u < x.u
    ensures x.m >= 0x10_0000_0000_0000 && x.u > -1074
    ensures 2 * Val(y) <= 0x1F_FFFF_FFFF_FFFF * Gap(x)
    ensures 2 * Val(y) == 0x1F_FFFF_FFFF_FFFF * Gap(x) ==> y.m % 2 == 1
  {
    var k := x.u - y.u - 1;
    PowAdd(2, k, y.u + 1074);
    assert Pow(2, x.u + 1074) == 2 * Pow(2, x.u + 1073);
    PowPositive(2, k);
    PowPositive(2, y.u + 1074);
    hide Pow;
    MulMonotone(1, Pow(2, k), Pow(2, y.u + 1074));
    OffGridBound(y.m, Pow(2, y.u + 1074), Gap(x));
  }

  lemma OffGridBound(m: nat, q: nat, w: nat)
    requires m <= 0x1F_FFFF_FFFF_FFFF && 2 * q <= w && w > 0
    ensures 2 * (m * q) <= 0x1F_FFFF_FFFF_FFFF * w
    ensures 2 * (m * q) == 0x1F_FFFF_FFFF_FFFF * w ==> m % 2 == 1
  {
    MulMonotone(2 * q, w, m);
    assert 2 * q * m == 2 * (m * q);
    if m < 0x1F_FFFF_FFFF_FFFF {
      MulMonotone(m, 0x1F_FFFF_FFFF_FFFE, w);
    } else {
      MulMonotone(m, 0x1F_FFFF_FFFF_FFFF, w);
    }
  }

  /** The next double above is one gap away or more. */
  lemma Above(x: Double, y: Double)
    requires x.Valid() && Readable(y) && Val(x) < Val(y)
    ensures Val(x) + Gap(x) <= Val(y)
    ensures Val(x) + Gap(x) == Val(y) && x.m % 2 == 0 ==> y.m % 2 == 1
  {
    var w := Gap(x);
    ValIsGaps(x);
    hide Pow, Val, Gap;
    if y.u < x.u {
      OffGrid(x, y);
      SmallerExponent(x.m, Val(x), Val(y), w);
    } else {
      var c := OnGrid(x, y);
      MulCancelLess(x.m, c, w);
      NextUp(x.m, c, w);
    }
  }

  lemma SmallerExponent(m: nat, s: nat, t: nat, w: nat)
    requires s == m * w && w > 0 && m >= 0x10_0000_0000_0000 && 2 * t <= 0x1F_FFFF_FFFF_FFFF * w
    ensures t < s
  {
    MulMonotone(0x10_0000_0000_0000, m, w);
  }

  lemma ValIsGaps(x: Double)
    requires Readable(x)
    ensures Val(x) == x.m * Gap(x)
  {
  }

  lemma NextUp(m: nat, c: nat, w: nat)
    requires m < c && w > 0
    ensures m * w + w <= c * w && (m * w + w == c * w ==> c == m + 1)
  {
    assert (m + 1) * w == m * w + w;
    MulMonotone(m + 1, c, w);
    if c > m + 1 {
      MulStrict(m + 1, c, w);
    }
  }

  /** The next double below is one gap away or more; half a gap at a boundary. */
  lemma Below(x: Double, y: Double)
    requires x.Valid() && Readable(y) && Val(y) < Val(x)
    ensures var g := if x.Boundary() then Gap(x) else 2 * Gap(x);
            2 * Val(y) + g <= 2 * Val(x) && (2 * Val(y) + g == 2 * Val(x) && x.m % 2 == 0 ==> y.m % 2 == 1)
  {
    var w := Gap(x);
    ValIsGaps(x);
    hide *;
    if y.u < x.u {
      OffGrid(x, y);
      LeastOfExponent(x);
      HalfGap(x.m, Val(x), Val(y), w, x.Boundary());
    } else {
      var c := OnGrid(x, y);
      GridBelow(x.m, c, Val(x), Val(y), w, x.Boundary());
    }
  }

  lemma LeastOfExponent(x: Double)
    requires x.Valid() && x.m >= 0x10_0000_0000_0000 && x.u > -1074
    ensures if x.Boundary() then x.m == 0x10_0000_0000_0000 else x.m >= 0x10_0000_0000_0001
  {
  }

  lemma GridBelow(m: nat, c: nat, s: nat, t: nat, w: nat, boundary: bool)
    requires s == m * w && t == c * w && t < s && w > 0
    ensures var g := if boundary then w else 2 * w;
            2 * t + g <= 2 * s && (2 * t + g == 2 * s && m % 2 == 0 ==> c % 2 == 1)
  {
    MulCancelLess(c, m, w);
    NextUp(c, m, w);
  }

  /** From the double below a power of two it is half a gap, otherwise more than a whole one. */
  lemma HalfGap(m: nat, s: nat, t: nat, w: nat, boundary: bool)
    requires s == m * w && w > 0 && 2 * t <= 0x1F_FFFF_FFFF_FFFF * w
    requires if boundary then m == 0x10_0000_0000_0000 else m >= 0x10_0000_0000_0001
    ensures if boundary then 2 * t + w <= 2 * s else 2 * t + 2 * w < 2 * s
    ensures boundary && 2 * t + w == 2 * s ==> 2 * t == 0x1F_FFFF_FFFF_FFFF * w
  {
    if !boundary {
      MulMonotone(0x10_0000_0000_0001, m, w);
    }
  }

  /** Different doubles are different numbers. */
  lemma Distinct(x: Double, y: Double)
    requires x.Valid() && Readable(y) && Val(x) == Val(y)
    ensures x == y
  {
    if y.u < x.u {
      OffGrid(x, y);
      MulMonotone(0x10_0000_0000_0000, x.m, Gap(x));
    } else if x.u < y.u {
      OffGrid(y, x);
      MulMonotone(0x10_0000_0000_0000, y.m, Gap(y));
    } else {
      hide Pow;
      if x.m < y.m {
        MulStrict(x.m, y.m, Gap(x));
      } else if y.m < x.m {
        MulStrict(y.m, x.m, Gap(x));
      }
    }
  }

  // ---------- the decimal ----------

  /** How far v * 10^(e + 1 - lev) is off a double. */
  function Far(v: nat, e: int, lev: nat, x: Double): nat
    requires Readable(x) && lev >= 1
  {
    Dist(v * Place(e), AtScale(x, e, lev))
  }

  lemma AtScaleVal(x: Double, e: int, lev: nat, g: nat)
    requires Readable(x) && lev >= 1 && g == Pow(10, Up(-e)) * Pow(10, lev - 1)
    ensures AtScale(x, e, lev) == Val(x) * g && Unit(x.u, e) * Pow(10, lev - 1) == Gap(x) * g && g > 0
  {
    PowPositive(10, Up(-e));
    PowPositive(10, lev - 1);
    hide Pow;
    MulStrict(0, Pow(10, Up(-e)), Pow(10, lev - 1));
    ScaleProduct(x.m, Pow(2, x.u + 1074), Pow(10, Up(-e)), Pow(10, lev - 1));
  }

  lemma ScaleProduct(m: nat, w: nat, t: nat, p: nat)
    ensures m * (w * t) * p == m * w * (t * p) && w * t * p == w * (t * p)
  {
    MulAssoc(m, w, t);
    MulAssoc(m * w, t, p);
    MulAssoc(w, t, p);
  }

  /** What lying in the interval means: a is four times the double, d four times the
      decimal, w the gap. */
  lemma HoldsMeans(x: Double, e: int, closed: bool, v: nat, lev: nat, a: nat, w: nat, d: nat)
    requires x.Valid() && lev >= 1 && Around(x, e, closed).Holds(v, lev)
    requires a == 4 * AtScale(x, e, lev) && w == Unit(x.u, e) * Pow(10, lev - 1) && d == 4 * (v * Place(e))
    ensures Within(a, if x.Boundary() then w else 2 * w, 2 * w, d, closed)
  {
    hide Pow, Place, Unit;
    var p, u := Pow(10, lev - 1), Unit(x.u, e);
    MulAssoc(4, x.m * u, p);
    MulAssoc(2, u, p);
    assert v * (4 * Place(e)) == d;
  }

  /** Four times a number x, the decimal d and another number y, the gap between the
      two at least as wide as the interval promises. */
  lemma Nearer(a: nat, w: nat, d: nat, b: nat, lo: nat, closed: bool)
    requires Within(a, lo, 2 * w, d, closed) && w > 0 && lo > 0
    requires b >= a + 4 * w || b + 2 * lo <= a
    ensures Dist(d, a) <= Dist(d, b)
    ensures Dist(d, a) == Dist(d, b) ==> closed && (b == a + 4 * w || b + 2 * lo == a)
  {
  }

  lemma FourTimes(v: nat, e: int, lev: nat, x: Double, q: nat, s: nat)
    requires Readable(x) && lev >= 1 && q == v * Place(e) && s == AtScale(x, e, lev)
    ensures Dist(4 * q, 4 * s) == 4 * Far(v, e, lev, x)
  {
    hide Place, AtScale;
  }

  /** Four times the neighbours, in the units of the decimal. */
  lemma Neighbours(x: Double, y: Double, a: nat, b: nat, w: nat, lo: nat, g: nat)
    requires x.Valid() && Readable(y) && x != y && g > 0
    requires a == Val(x) * g && b == Val(y) * g && w == Gap(x) * g
    requires lo == if x.Boundary() then w else 2 * w
    ensures b >= a + w || 2 * b + lo <= 2 * a
    ensures b == a + w || 2 * b + lo == 2 * a ==> x.m % 2 == 0 ==> y.m % 2 == 1
  {
    hide Val, Gap;
    if Val(x) < Val(y) {
      Above(x, y);
      StepUp(Val(x), Val(y), Gap(x), g, a, b, w);
    } else if Val(y) < Val(x) {
      Below(x, y);
      var gap := if x.Boundary() then Gap(x) else 2 * Gap(x);
      MulAssoc(2, Gap(x), g);
      StepDown(Val(x), Val(y), gap, g, a, b, lo);
    } else {
      Distinct(x, y);
    }
  }

  /** The same in the units of a decimal with its last digit at 10^(e + 1 - lev). */
  lemma ScaledNeighbours(x: Double, y: Double, e: int, lev: nat, s: nat, t: nat, w: nat, lo: nat)
    requires x.Valid() && Readable(y) && x != y && lev >= 1
    requires s == AtScale(x, e, lev) && t == AtScale(y, e, lev) && w == Unit(x.u, e) * Pow(10, lev - 1)
    requires lo == if x.Boundary() then w else 2 * w
    ensures w > 0 && (t >= s + w || 2 * t + lo <= 2 * s)
    ensures t == s + w || 2 * t + lo == 2 * s ==> x.m % 2 == 0 ==> y.m % 2 == 1
  {
    assert Readable(x) && x.u >= -1074 && y.u >= -1074;
    hide *;
    var g := Pow(10, Up(-e)) * Pow(10, lev - 1);
    AtScaleVal(x, e, lev, g);
    AtScaleVal(y, e, lev, g);
    GapPositive(x, g);
    Neighbours(x, y, s, t, w, lo, g);
  }

  lemma StepUp(s: nat, t: nat, w: nat, g: nat, a: nat, b: nat, c: nat)
    requires s + w <= t && g > 0 && w > 0 && a == s * g && b == t * g && c == w * g
    ensures b >= a + c > a && (b == a + c ==> t == s + w)
  {
    assert (s + w) * g == a + c;
    MulMonotone(s + w, t, g);
    MulStrict(0, w, g);
    if s + w < t {
      MulStrict(s + w, t, g);
    }
  }

  lemma StepDown(s: nat, t: nat, w: nat, g: nat, a: nat, b: nat, c: nat)
    requires 2 * t + w <= 2 * s && g > 0 && w > 0 && a == s * g && b == t * g && c == w * g
    ensures 2 * b + c <= 2 * a && c > 0 && (2 * b + c == 2 * a ==> 2 * t + w == 2 * s)
  {
    assert (2 * t + w) * g == 2 * b + c && 2 * s * g == 2 * a;
    MulMonotone(2 * t + w, 2 * s, g);
    MulStrict(0, w, g);
    if 2 * t + w < 2 * s {
      MulStrict(2 * t + w, 2 * s, g);
    }
  }

  /** Nothing else a reading can give is nearer to a decimal in the interval; what is as
      near has an odd number, and the double of the interval an even one. */
  lemma ReadsBack(x: Double, y: Double, e: int, closed: bool, v: nat, lev: nat)
    requires x.Valid() && Readable(y) && x != y && lev >= 1 && (closed ==> x.m % 2 == 0)
    requires Around(x, e, closed).Holds(v, lev)
    ensures Far(v, e, lev, x) <= Far(v, e, lev, y)
    ensures Far(v, e, lev, x) == Far(v, e, lev, y) ==> x.m % 2 == 0 && y.m % 2 == 1
  {
    assert Readable(x) && x.u >= -1074 && y.u >= -1074;
    hide *;
    var s, t, w, q := AtScale(x, e, lev), AtScale(y, e, lev), Unit(x.u, e) * Pow(10, lev - 1), v * Place(e);
    var lo := if x.Boundary() then w else 2 * w;
    HoldsMeans(x, e, closed, v, lev, 4 * s, w, 4 * q);
    ScaledNeighbours(x, y, e, lev, s, t, w, lo);
    Nearer(4 * s, w, 4 * q, 4 * t, lo, closed);
    FourTimes(v, e, lev, x, q, s);
    FourTimes(v, e, lev, y, q, t);
  }

  lemma GapPositive(x: Double, g: nat)
    requires x.Valid() && g > 0
    ensures Gap(x) * g > 0
  {
    MulStrict(0, Gap(x), g);
  }

  // ---------- the digits ----------

  /** v * 10^e is read as x: everything else a reading can give is farther away, or as far
      with an odd number where that of x is even. */
  ghost predicate ReadsAs(v: nat, e: int, x: Double)
    requires x.Valid()
  {
    forall y :: Readable(y) && y != x ==>
      Far(v, e, 1, x) < Far(v, e, 1, y) || (Far(v, e, 1, x) == Far(v, e, 1, y) && x.m % 2 == 0 && y.m % 2 == 1)
  }

  /** A decimal is read as one double only. */
  lemma ReadsAsOne(v: nat, e: int, x: Double, y: Double)
    requires x.Valid() && y.Valid() && ReadsAs(v, e, x) && ReadsAs(v, e, y)
    ensures x == y
  {
    hide Far;
  }

  /** Distances with the point elsewhere. */
  lemma FarElsewhere(v: nat, e: int, lev: nat, d: nat, c: nat, z: int, y: Double, f: nat, h: nat)
    requires Readable(y) && lev >= 1 && v == d * Pow(10, c) && z == e + 1 + c - lev
    requires f == Up(-z) && h == Up(-e) + lev - 1
    ensures Far(v, e, lev, y) * Pow(10, f) == Far(d, z, 1, y) * Pow(10, h)
  {
    hide Pow, Place, AtScale, Far;
    assert y.u >= -1074;
    assert c + Up(e) + f == Up(z) + h;
    hide *;
    var a, b, a', b' := v * Place(e), AtScale(y, e, lev), d * Place(z), AtScale(y, z, 1);
    PlaceElsewhere(v, e, d, c, z, f, h);
    ScaleElsewhere(y, e, lev, z, f, h);
    FarIs(v, e, lev, y, a, b);
    FarIs(d, z, 1, y, a', b');
    ProportionalDist(a, b, Pow(10, f), a', b', Pow(10, h));
  }

  lemma ScaleElsewhere(y: Double, e: int, lev: nat, z: int, f: nat, h: nat)
    requires Readable(y) && lev >= 1 && f == Up(-z) && h == Up(-e) + lev - 1
    ensures AtScale(y, e, lev) * Pow(10, f) == AtScale(y, z, 1) * Pow(10, h)
  {
    assert y.u >= -1074;
    hide *;
    ScaleIsTens(y, e, lev, h);
    ScaleIsTens(y, z, 1, f);
    SwapFactors(Val(y), Pow(10, f), Pow(10, h));
  }

  lemma FarIs(v: nat, e: int, lev: nat, x: Double, a: nat, b: nat)
    requires Readable(x) && lev >= 1 && a == v * Place(e) && b == AtScale(x, e, lev)
    ensures Far(v, e, lev, x) == Dist(a, b)
  {
    hide Place, AtScale;
  }

  lemma ProportionalDist(a: nat, b: nat, p: nat, a': nat, b': nat, r: nat)
    requires a * p == a' * r && b * p == b' * r
    ensures Dist(a, b) * p == Dist(a', b') * r
  {
    DistScaled(a, b, p);
    DistScaled(a', b', r);
  }

  lemma ScaleIsTens(y: Double, e: int, lev: nat, h: nat)
    requires Readable(y) && lev >= 1 && h == Up(-e) + lev - 1
    ensures AtScale(y, e, lev) == Val(y) * Pow(10, h)
  {
    hide Pow, Val, AtScale;
    var a, b := Up(-e), lev - 1;
    PowAdd(10, a, b);
    AtScaleVal(y, e, lev, Pow(10, a) * Pow(10, b));
  }

  lemma SwapFactors(a: nat, b: nat, c: nat)
    ensures a * b * c == a * c * b
  {
    MulAssoc(a, b, c);
    MulAssoc(a, c, b);
  }

  lemma PlaceElsewhere(v: nat, e: int, d: nat, c: nat, z: int, f: nat, h: nat)
    requires v == d * Pow(10, c) && c + Up(e) + f == Up(z) + h
    ensures v * Place(e) * Pow(10, f) == d * Place(z) * Pow(10, h)
  {
    hide Pow;
    var p, u := Pow(2, 1074), c + Up(e);
    assert Place(e) == p * Pow(10, Up(e)) && Place(z) == p * Pow(10, Up(z));
    hide *;
    PowAdd(10, c, Up(e));
    SameTens(u, f, Up(z), h);
    PlaceNumbers(d, Pow(10, c), v, Place(e), Place(z), Pow(10, Up(e)), Pow(10, f), Pow(10, Up(z)), Pow(10, h), p,
      Pow(10, u));
  }

  lemma SameTens(u: nat, f: nat, g: nat, h: nat)
    requires u + f == g + h
    ensures Pow(10, u) * Pow(10, f) == Pow(10, g) * Pow(10, h)
  {
    hide Pow;
    PowAdd(10, u, f);
    PowAdd(10, g, h);
  }

  lemma PlaceNumbers(d: nat, a: nat, v: nat, x: nat, y: nat, b: nat, f: nat, g: nat, h: nat, p: nat, u: nat)
    requires v == d * a && x == p * b && y == p * g && u == a * b && u * f == g * h
    ensures v * x * f == d * y * h
  {
    Shuffle(d, a, p, b);
    MulAssoc(d * p, u, f);
    MulAssoc(d, p, g);
    MulAssoc(d * p, g, h);
  }

  /** A comparison of two distances does not depend on where the point is. */
  lemma SameOrder(v: nat, e: int, lev: nat, d: nat, c: nat, z: int, x: Double, y: Double)
    requires Readable(x) && Readable(y) && lev >= 1 && v == d * Pow(10, c) && z == e + 1 + c - lev
    ensures Far(v, e, lev, x) <= Far(v, e, lev, y) <==> Far(d, z, 1, x) <= Far(d, z, 1, y)
    ensures Far(v, e, lev, x) == Far(v, e, lev, y) <==> Far(d, z, 1, x) == Far(d, z, 1, y)
  {
    var f, h := Up(-z), Up(-e) + lev - 1;
    FarElsewhere(v, e, lev, d, c, z, x, f, h);
    FarElsewhere(v, e, lev, d, c, z, y, f, h);
    PowPositive(10, f);
    PowPositive(10, h);
    hide Far, Pow;
    CommonFactor(Far(v, e, lev, x), Far(v, e, lev, y), Pow(10, f));
    CommonFactor(Far(d, z, 1, x), Far(d, z, 1, y), Pow(10, h));
  }

  /** The digits found in the interval around a double are read as that double. */
  lemma ShortestReadsBack(x: Double, e: int, closed: bool, ds: seq<Digit>, decpt: int)
    requires x.Valid() && (closed ==> x.m % 2 == 0) && e + 1 <= decpt
    requires Shortest(Around(x, e, closed), ds, decpt - e - 1)
    ensures ReadsAs(DecVal(ds), decpt - |ds|, x)
  {
    var c, lev, d, z := decpt - e - 1, |ds|, DecVal(ds), decpt - |ds|;
    var v := d * Pow(10, c);
    hide Far, Pow, DecVal, Around;
    forall y | Readable(y) && y != x
      ensures Far(d, z, 1, x) < Far(d, z, 1, y)
           || (Far(d, z, 1, x) == Far(d, z, 1, y) && x.m % 2 == 0 && y.m % 2 == 1)
    {
      ReadsBack(x, y, e, closed, v, lev);
      SameOrder(v, e, lev, d, c, z, x, y);
    }
  }

  /** Modes 0 and 1 of dtoa on the words of a finite positive double: read with rounding to
      nearest, ties to even, the digits give that double and nothing else, neither zero nor
      infinity. */
  method Dtoa(w0: Word, w1: Word, mode: int, k: int, check: bool, p5s: Pow5List)
    returns (ds: seq<Digit>, decpt: int)
    requires Finite(w0, w1) && (mode == 0 || mode == 1)
    requires Estimate(Decode(w0, w1), k, check) && p5s.Valid()
    modifies p5s
    ensures p5s.Valid() && p5s.Grown()
    ensures Tight(ds) && ReadsAs(DecVal(ds), decpt - |ds|, Decode(w0, w1))
  {
    hide Around, Estimate, ReadsAs, Nearest, Spans, DecVal, Decode;
    ghost var e;
    ds, decpt, e := ShortestOf(w0, w1, mode, k, check, p5s);
    ghost var x := Decode(w0, w1);
    ShortestReadsBack(x, e, mode == 0 && x.m % 2 == 0, ds, decpt);
  }
}
