/** fpconv_g_fmt as a whole: the text of a double denotes the double rounded to the
    precision asked for, and the number scan takes it back wherever it stands. */
module DoubleText {
  import opened Words
  import opened Decimals
  import opened TextLayout
  import opened Characters
  import opened NumberScan
  import opened NumberText
  import opened JsonValues
  import JsonEncode
  import opened PowersOfFive
  import opened DoubleBits
  import opened Doubles
  import opened PrintfText

  // ---------- the decimal exponents of doubles ----------

  lemma {:induction false} EightToTen(k: nat)
    ensures Pow(2, 3 * k) <= Pow(10, k)
  {
    if k > 0 {
      EightToTen(k - 1);
      assert Pow(2, 3) == 8;
      PowAdd(2, 3, 3 * (k - 1));
    }
  }

  lemma SmallerPower(a: nat, b: nat)
    requires Pow(2, a) < Pow(2, b)
    ensures a < b
  {
    if b <= a {
      PowMonotone(2, b, a);
    }
  }

  /** A double is below 2^1024. */
  lemma AtMost(x: Double, e: int, low: nat, k: nat)
    requires x.Valid() && low == 1074 && e >= 0 && k == 3 * e && Place(e) <= x.m * Unit(x.u, e)
    ensures k < 1024
  {
    var w, top := x.u + low, 2045;
    UnitAbove(x.u, e, low, w);
    Pow2Of53();
    PowMonotone(2, w, top);
    EightToTen(e);
    PowPositive(2, w);
    hide Pow;
    AtMostNumbers(x.m, Pow(2, w), Pow(2, top), Pow(2, low), Pow(10, e), Pow(2, k));
    PowAdd(2, 53, top);
    PowAdd(2, low, k);
    SmallerPower(low + k, 53 + top);
  }

  lemma UnitAbove(u: int, e: int, low: nat, w: nat)
    requires low == 1074 && e >= 0 && w == u + low
    ensures Unit(u, e) == Pow(2, w) && Place(e) == Pow(2, low) * Pow(10, e)
  {
    assert Pow(10, 0) == 1;
    hide Pow;
  }

  lemma AtMostNumbers(m: nat, w: nat, top: nat, p: nat, t: nat, k: nat)
    requires p * t <= m * w && m < 0x20_0000_0000_0000 && 0 < w <= top && k <= t
    ensures p * k < 0x20_0000_0000_0000 * top
  {
    MulMonotone(k, t, p);
    MulStrict(m, 0x20_0000_0000_0000, w);
    MulMonotone(w, top, 0x20_0000_0000_0000);
  }

  /** A double is at least 2^-1074. */
  lemma AtLeast(x: Double, e: int, low: nat, k: nat)
    requires x.Valid() && low == 1074 && e < 0 && k == 3 * (0 - e) && x.m * Unit(x.u, e) < 10 * Place(e)
    ensures k < 1078
  {
    var w := x.u + low;
    assert Pow(10, 0) == 1 && Pow(2, 4) == 16;
    PowPositive(2, w);
    PowPositive(10, 0 - e);
    PowAdd(2, 4, low);
    EightToTen(0 - e);
    hide Pow;
    MulMonotone(1, Pow(2, w), Pow(10, 0 - e));
    MulMonotone(1, x.m, Unit(x.u, e));
    SmallerPower(k, 1078);
  }

  lemma ExponentRange(x: Double, e: int)
    requires x.Valid() && Spans(x, e)
    ensures -360 < e < 342
  {
    hide Place, Unit;
    if e >= 0 {
      AtMost(x, e, 1074, 3 * e);
    } else {
      AtLeast(x, e, 1074, 3 * (0 - e));
    }
  }

  // ---------- the text ----------

  /** The same decimal with more digits. */
  lemma MoreDigits(s: nat, x: int, d: nat, y: int, q: nat, z: int)
    requires SameDecimal(s, x, d, y) && z <= y && q == d * Pow(10, y - z)
    ensures SameDecimal(s, x, q, z)
  {
    if x >= y {
      PowAdd(10, x - y, y - z);
      MulAssoc(s, Pow(10, x - y), Pow(10, y - z));
    } else if x >= z {
      PowAdd(10, y - x, x - z);
      MulAssoc(d, Pow(10, y - x), Pow(10, x - z));
    } else {
      PowAdd(10, y - z, z - x);
      MulAssoc(d, Pow(10, y - z), Pow(10, z - x));
    }
  }

  /** What was scanned is x rounded to so many significant digits, ties to even, exactly and
      without overflow of the accumulators, and ends at `end`. */
  ghost predicate Denotes(r: Scanned, neg: bool, x: Double, precision: nat, end: nat)
    requires x.Valid() && precision >= 1
  {
    && r.Number? && r.neg == neg && r.end == end
    && r.acc.y < 0x1_0000_0000 && r.acc.z < 0x1_0000_0000
    && exists q: nat, e: int :: Spans(x, e) && NearestEven(q, AtScale(x, e, precision), Place(e))
                             && SameDecimal(Significand(r.acc), r.e, q, e + 1 - precision)
  }

  lemma TextDenotes(s: string, p: nat, neg: bool, ds: seq<Digit>, decpt: int, precision: nat, t: string,
                    x: Double, e: int, q: nat)
    requires Tight(ds) && |ds| <= precision <= 14 && x.Valid() && Spans(x, e) && e + 1 <= decpt <= e + 2
    requires q == DecVal(ds) * Pow(10, precision - |ds| + (decpt - e - 1))
    requires NearestEven(q, AtScale(x, e, precision), Place(e))
    requires t == Layout(neg, Chars(ds), decpt, precision) && TextAt(s, p, t) && Stops(At(s, p + |t|))
    ensures Denotes(ScanFrom(s, p), neg, x, precision, p + |t|)
  {
    hide ScanFrom, Layout, TextAt, Stops, NearestEven, AtScale, Place, SameDecimal, Significand, DecVal, Pow;
    ExponentRange(x, e);
    LayoutReadBack(s, p, neg, ds, decpt, precision, t);
    var r := ScanFrom(s, p);
    MoreDigits(Significand(r.acc), r.e, DecVal(ds), decpt - |ds|, q, e + 1 - precision);
  }

  /** t is the text of x rounded to so many significant digits, ties to even, in the notation that
      its size asks for: what printf makes with %g of the digits ps of this number. */
  ghost predicate Formatted(t: string, neg: bool, x: Double, precision: nat)
    requires x.Valid() && precision >= 1
  {
    exists q: nat, e: int, ps: seq<Digit>, k: int ::
      && Spans(x, e) && NearestEven(q, AtScale(x, e, precision), Place(e))
      && Notation(t, q, e + 1 - precision, precision)
      && |ps| == precision && ps[0] != 0 && SameDecimal(DecVal(ps), k + 1 - precision, q, e + 1 - precision)
      && t == General(neg, ps, k)
  }

  lemma TextFormatted(t: string, neg: bool, ds: seq<Digit>, decpt: int, precision: nat, x: Double, e: int, q: nat)
    requires Tight(ds) && |ds| <= precision <= 14 && x.Valid() && Spans(x, e) && e + 1 <= decpt <= e + 2
    requires q == DecVal(ds) * Pow(10, precision - |ds| + (decpt - e - 1))
    requires NearestEven(q, AtScale(x, e, precision), Place(e))
    requires t == Layout(neg, Chars(ds), decpt, precision)
    ensures Formatted(t, neg, x, precision)
  {
    hide Layout, Chars, Notation, General, NearestEven, AtScale, Place, Spans, DecVal, Pow;
    var n, c := precision - |ds|, decpt - e - 1;
    ExponentRange(x, e);
    NotationBySize(neg, ds, decpt, precision, n + c, q, e + 1 - precision);
    LayoutIsGeneral(neg, ds, decpt, precision);
    var ps := Padded(ds, n);
    PaddedDigits(ds, n);
    PowAdd(10, n, c);
    MulAssoc(DecVal(ds), Pow(10, n), Pow(10, c));
    assert ps[0] == ds[0];
    assert SameDecimal(DecVal(ps), decpt - precision, q, e + 1 - precision);
  }

  /** fpconv_g_fmt on the words of a finite double other than zero and a precision the
      encoder allows. */
  method FormatDouble(buf: array<char>, neg: bool, w0: Word, w1: Word, precision: nat, k: int, check: bool,
                      p5s: Pow5List)
    returns (len: nat)
    requires buf.Length >= 32 && 1 <= precision <= 14 && p5s.Valid()
    requires Finite(w0, w1) && Estimate(Decode(w0, w1), k, check)
    modifies buf, p5s
    ensures p5s.Valid() && len < 32 && buf[len] == '\0' && Numeral(buf[..len])
    ensures Formatted(buf[..len], neg, Decode(w0, w1), precision)
    ensures forall s: string, p: nat :: TextAt(s, p, buf[..len]) && Stops(At(s, p + len)) ==>
              Denotes(ScanFrom(s, p), neg, Decode(w0, w1), precision, p + len)
  {
    hide Decode, Estimate, Spans, NearestEven, AtScale, Place, DecVal, Pow, Layout, Denotes, Numeral, TextAt, Stops,
         ScanFrom, Formatted;
    var ds, decpt;
    ghost var e;
    ds, decpt, e := RoundedOf(w0, w1, precision, k, check, p5s);
    ghost var x, q := Decode(w0, w1), DecVal(ds) * Pow(10, precision - |ds| + (decpt - e - 1));
    ExponentRange(x, e);
    len := GFmt(buf, Chars(ds), decpt, neg, precision);
    ghost var t := buf[..len];
    JsonEncode.LayoutNumeral(neg, ds, decpt, precision);
    TextFormatted(t, neg, ds, decpt, precision, x, e, q);
    forall s: string, p: nat | TextAt(s, p, t) && Stops(At(s, p + len))
      ensures Denotes(ScanFrom(s, p), neg, x, precision, p + len)
    {
      TextDenotes(s, p, neg, ds, decpt, precision, t, x, e, q);
    }
  }
}
