/** What a scanned number denotes: for every text with at most sixteen digits that
    count and an exponent below the cut-off, the two accumulators and the exponent
    are exactly the decimal that is written there. */
module ScannedValue {
  import opened Words
  import opened Decimals
  import opened Characters
  import opened NumberScan
  import opened NumberText

  // ---------- what is written ----------

  /** The exponent written at p, however large; 0 without one. */
  function WrittenExponent(s: string, p: nat): int
  {
    if At(s, p) != 'e' && At(s, p) != 'E' then 0
    else
      var q := if At(s, p + 1) == '-' || At(s, p + 1) == '+' then p + 2 else p + 1;
      if !IsDigit(At(s, q)) then 0
      else
        var v: int := DecVal(DigitsOf(s, q, SpanDigits(s, q)));
        if At(s, p + 1) == '-' then -v else v
  }

  /** All digits after a point at d, and all digits of the number whose first digit
      or point is at b. */
  function FractionDigits(s: string, d: nat): seq<Digit>
  {
    if At(s, d) == '.' then DigitsOf(s, d + 1, FractionEnd(s, d)) else []
  }

  function AllDigits(s: string, b: nat): seq<Digit>
  {
    var d := SpanDigits(s, b);
    DigitsOf(s, b, d) + FractionDigits(s, d)
  }

  /** The power of ten of the last digit. */
  function LastPlace(s: string, b: nat): int
  {
    var d := SpanDigits(s, b);
    WrittenExponent(s, FractionEnd(s, d)) - |FractionDigits(s, d)|
  }

  /** Where the digits start, after blanks and a sign. */
  function AfterSign(s: string, p: nat): nat
  {
    var a := SpanBlank(s, p);
    if At(s, a) == '-' || At(s, a) == '+' then a + 1 else a
  }

  // ---------- the exponent ----------

  /** Without its leading zeros a number of more than eight digits is above the cut-off. */
  lemma ManyDigits(s: string, q: nat, t: nat, u: nat)
    requires t == SpanZeros(s, q) && u == SpanDigits(s, t) && u - t > 8
    ensures DecVal(DigitsOf(s, t, u)) > 19999
  {
    var ds := DigitsOf(s, t, u);
    hide SpanZeros, SpanDigits, DigitsOf, DecVal;
    AfterZeros(s, q);
    SpanStart(s, t);
    FirstDigit(s, t, u);
    DecBounds(ds);
    PowMonotone(10, 8, |ds| - 1);
    assert Pow(10, 4) == 10000;
    PowAdd(10, 4, 4);
  }

  lemma DigitsExact(s: string, q: nat)
    ensures var v := DecVal(DigitsOf(s, q, SpanDigits(s, q)));
            ExponentDigits(s, q) == (if v <= 19999 then v else 19999, SpanDigits(s, q))
  {
    var t := SpanZeros(s, q);
    var u := SpanDigits(s, t);
    hide SpanZeros, SpanDigits, DigitsOf, DecVal;
    LeadingZeros(s, q);
    SpanBefore(s, q);
    SplitZeros(s, q, t, u, DigitsOf(s, q, u));
    if u - t > 8 {
      ManyDigits(s, q, t, u);
    }
  }

  /** The exponent read is the one written if and only if that is within the cut-off. */
  lemma ExponentExact(s: string, p: nat)
    ensures Exponent(s, p).0 == WrittenExponent(s, p) <==> -19999 <= WrittenExponent(s, p) <= 19999
  {
    hide ExponentDigits, DecVal, DigitsOf, SpanDigits, At;
    DigitsExact(s, if At(s, p + 1) == '-' || At(s, p + 1) == '+' then p + 2 else p + 1);
  }

  // ---------- the digits ----------

  lemma {:induction false} TrimStartValue(ds: seq<Digit>)
    ensures DecVal(TrimStart(ds)) == DecVal(ds)
  {
    if |ds| > 0 && ds[0] == 0 {
      TrimStartValue(ds[1..]);
      ZerosInFront(1, ds[1..]);
      assert ZeroDigits(1) == [0] by { assert ZeroDigits(0) == []; }
      assert ds == [0] + ds[1..];
    }
  }

  /** Leading zeros, digits, digits after the point and trailing zeros, against the
      digits that count. */
  lemma CountedDigits(z: nat, ip: seq<Digit>, fp: seq<Digit>, n: nat, sig: seq<Digit>)
    requires n == |fp| - |TrimEnd(fp)| && sig == Significant(ip, TrimEnd(fp))
    ensures DecVal(ZeroDigits(z) + ip + fp) == DecVal(sig) * Pow(10, n)
  {
    var kept := TrimEnd(fp);
    hide DecVal, TrimEnd, TrimStart, ZeroDigits, Pow;
    TrimEndSplit(fp);
    Grouped(ZeroDigits(z), ip, kept, ZeroDigits(n), fp);
    ZerosInFront(z, ip + kept + ZeroDigits(n));
    DecPadded(ip + kept, n);
    if ip == [] {
      assert ip + kept == kept;
      TrimStartValue(kept);
    }
  }

  lemma Grouped(z: seq<Digit>, ip: seq<Digit>, kept: seq<Digit>, n: seq<Digit>, fp: seq<Digit>)
    requires fp == kept + n
    ensures z + ip + fp == z + (ip + kept + n)
  {
  }

  /** All digits, with the leading zeros set off. */
  lemma AllDigitsSplit(s: string, b: nat, c: nat, d: nat)
    requires c == SpanZeros(s, b) && d == SpanDigits(s, c)
    ensures c <= d == SpanDigits(s, b)
    ensures AllDigits(s, b) == ZeroDigits(c - b) + DigitsOf(s, c, d) + FractionDigits(s, d)
    ensures Fraction(s, d) == TrimEnd(FractionDigits(s, d))
  {
    assert TrimEnd([]) == [];
    hide SpanZeros, SpanDigits, DigitsOf, ZeroDigits, TrimEnd;
    LeadingZeros(s, b);
    SpanBefore(s, b);
    DigitsOfSplit(s, b, c, d);
    SpanZerosDigits(s, b, c);
  }

  /** Zero is the same with every exponent, and so is a number with its places shifted. */
  lemma ZeroSame(x: int, y: int)
    ensures SameDecimal(0, x, 0, y)
  {
  }

  lemma ShiftedSame(v: nat, x: int, w: nat, y: int, n: nat)
    requires w == v * Pow(10, n) && x == y + n
    ensures SameDecimal(v, x, w, y)
  {
  }

  /** The digits that count, k of them after the point and n zeros behind, against the
      value v of all digits, the last of them y places up. */
  lemma Joined(sig: seq<Digit>, e: int, v: nat, y: int, n: nat)
    requires |sig| <= 16 && v == DecVal(sig) * Pow(10, n) && e == y + n
    ensures SameDecimal(Significand(PushAll(NoDigits, sig)), e, v, y)
    ensures sig == [] ==> SameDecimal(Significand(NoDigits), 0, v, y)
  {
    AccumulatesValue(sig);
    hide Significand, SameDecimal, PushAll;
    ShiftedSame(DecVal(sig), e, v, y, n);
    if sig == [] {
      NothingCounts(n);
      ZeroSame(0, y);
    }
  }

  lemma NothingCounts(n: nat)
    ensures DecVal([]) * Pow(10, n) == 0 == Significand(NoDigits)
  {
  }

  lemma PlaceOfLast(s: string, b: nat, d: nat)
    requires d == SpanDigits(s, b)
    ensures LastPlace(s, b) == WrittenExponent(s, FractionEnd(s, d)) - |FractionDigits(s, d)|
  {
    hide SpanDigits, WrittenExponent, FractionEnd, FractionDigits;
  }

  /** What Mantissa makes of the digits that count. */
  lemma MantissaForm(s: string, b: nat, neg: bool, d: nat, f: nat, sig: seq<Digit>, k: nat)
    requires d == SpanDigits(s, SpanZeros(s, b)) && f == FractionEnd(s, d) && k == |Fraction(s, d)|
    requires sig == Significant(DigitsOf(s, SpanZeros(s, b), d), Fraction(s, d)) && Mantissa(s, b, neg).Number?
    ensures var r := Mantissa(s, b, neg);
      && r.neg == neg && r.acc.nd == |sig|
      && if sig == [] then r.acc == NoDigits && r.e == 0
         else r.acc == PushAll(NoDigits, sig) && r.e == Exponent(s, f).0 - k
  {
    hide SpanZeros, SpanDigits, DigitsOf, Fraction, FractionEnd, Exponent, Significant, PushAll, At;
  }

  /** The mantissa that starts at b. */
  lemma MantissaDenotes(s: string, b: nat, neg: bool)
    requires Mantissa(s, b, neg).Number? && Mantissa(s, b, neg).acc.nd <= 16
    requires -19999 <= WrittenExponent(s, FractionEnd(s, SpanDigits(s, b))) <= 19999
    ensures var r := Mantissa(s, b, neg);
            r.neg == neg && SameDecimal(Significand(r.acc), r.e, DecVal(AllDigits(s, b)), LastPlace(s, b))
  {
    hide *;
    var c := SpanZeros(s, b);
    var d := SpanDigits(s, c);
    AllDigitsSplit(s, b, c, d);
    var x, y := WrittenExponent(s, FractionEnd(s, d)), LastPlace(s, b);
    PlaceOfLast(s, b, d);
    var ip, fp := DigitsOf(s, c, d), FractionDigits(s, d);
    var k := |TrimEnd(fp)|;
    var sig := Significant(ip, TrimEnd(fp));
    CountedDigits(c - b, ip, fp, |fp| - k, sig);
    ExponentExact(s, FractionEnd(s, d));
    MantissaForm(s, b, neg, d, FractionEnd(s, d), sig, k);
    Joined(sig, x - k, DecVal(AllDigits(s, b)), y, |fp| - k);
  }

  /** Every text: the number read is the one written, with its sign. */
  lemma ScanDenotes(s: string, p: nat)
    requires ScanFrom(s, p).Number? && ScanFrom(s, p).acc.nd <= 16
    requires -19999 <= WrittenExponent(s, FractionEnd(s, SpanDigits(s, AfterSign(s, p)))) <= 19999
    ensures var r, b := ScanFrom(s, p), AfterSign(s, p);
      && r.neg == (At(s, SpanBlank(s, p)) == '-')
      && SameDecimal(Significand(r.acc), r.e, DecVal(AllDigits(s, b)), LastPlace(s, b))
  {
    hide SpanBlank, SpanDigits, FractionEnd, WrittenExponent, Mantissa, SameDecimal, Significand, AllDigits,
         LastPlace, At;
    MantissaDenotes(s, AfterSign(s, p), At(s, SpanBlank(s, p)) == '-');
  }
}
