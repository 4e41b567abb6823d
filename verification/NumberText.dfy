/** What fpconv_g_fmt writes, the scan of fpconv_strtod reads back as exactly
    the same decimal number, whatever surrounds the text. */
module NumberText {
  import opened Words
  import opened Decimals
  import opened TextLayout
  import opened Characters
  import opened NumberScan

  /** a * 10^x == b * 10^y */
  predicate SameDecimal(a: nat, x: int, b: nat, y: int)
  {
    if x >= y then a * Pow(10, x - y) == b else a == b * Pow(10, y - x)
  }

  /** No character that would carry a number on. */
  predicate Stops(c: char)
  {
    !IsDigit(c) && c !in {'.', 'e', 'E', 'x', 'X'}
  }

  /** The text t stands at position p of s. */
  predicate TextAt(s: string, p: nat, t: string)
  {
    p + |t| <= |s| && s[p..p + |t|] == t
  }

  lemma PartAt(s: string, p: nat, t: string, i: nat, u: string)
    requires TextAt(s, p, t) && i + |u| <= |t| && t[i..i + |u|] == u
    ensures TextAt(s, p + i, u)
  {
    forall k | 0 <= k < |u|
      ensures s[p + i..p + i + |u|][k] == u[k]
    {
      assert s[p..p + |t|][i + k] == t[i + k] == t[i..i + |u|][k];
    }
  }

  lemma CharAt(s: string, p: nat, t: string, i: nat)
    requires TextAt(s, p, t) && i < |t|
    ensures At(s, p + i) == t[i]
  {
    assert s[p..p + |t|][i] == s[p + i];
  }

  /** The digits ds stand at position c of s, and no further digit follows. */
  predicate DigitsAt(s: string, c: nat, ds: seq<Digit>)
  {
    TextAt(s, c, Chars(ds)) && !IsDigit(At(s, c + |ds|))
  }

  lemma {:induction false} DigitsRead(s: string, c: nat, ds: seq<Digit>)
    requires DigitsAt(s, c, ds)
    ensures SpanDigits(s, c) == c + |ds| && DigitsOf(s, c, c + |ds|) == ds
  {
    SpanTo(s, c, ds, 0);
    ReadPrefix(s, c, ds, |ds|);
    assert ds[..|ds|] == ds;
  }

  lemma {:induction false} SpanTo(s: string, c: nat, ds: seq<Digit>, n: nat)
    requires DigitsAt(s, c, ds) && n <= |ds|
    ensures SpanDigits(s, c + n) == c + |ds|
    decreases |ds| - n
  {
    if n < |ds| {
      CharAt(s, c, Chars(ds), n);
      SpanTo(s, c, ds, n + 1);
    }
  }

  lemma {:induction false} ReadPrefix(s: string, c: nat, ds: seq<Digit>, n: nat)
    requires DigitsAt(s, c, ds) && n <= |ds|
    ensures DigitsOf(s, c, c + n) == ds[..n]
  {
    if n > 0 {
      ReadPrefix(s, c, ds, n - 1);
      CharAt(s, c, Chars(ds), n - 1);
      assert ds[..n] == ds[..n - 1] + [ds[n - 1]];
    }
  }

  lemma NoZeros(s: string, i: nat)
    requires At(s, i) != '0'
    ensures SpanZeros(s, i) == i
  {
  }

  /** A tight digit string has nothing to trim. */
  lemma NothingTrimmed(ds: seq<Digit>)
    ensures |ds| > 0 && ds[|ds| - 1] != 0 ==> TrimEnd(ds) == ds
    ensures |ds| > 0 && ds[0] != 0 ==> TrimStart(ds) == ds
  {
  }

  // ---------- the exponent ----------

  /** `e`, a sign and digits at position p are read as the exponent x. */
  lemma ExponentRead(s: string, p: nat, x: int)
    requires -999 <= x <= 999 && TextAt(s, p, ExpText(x)) && !IsDigit(At(s, p + |ExpText(x)|))
    ensures Exponent(s, p) == (x, p + |ExpText(x)|)
  {
    hide Exponent, DecVal, DigitsOf, SpanZeros, SpanDigits, LowDigits, Pow;
    var a := if x < 0 then -x else x;
    var ds := LowDigits(a, ExpWidth(a));
    var t := ExpText(x);
    assert t[2..2 + |ds|] == Chars(ds);
    PartAt(s, p, t, 2, Chars(ds));
    CharAt(s, p, t, 0);
    CharAt(s, p, t, 1);
    ExponentDigitsRead(s, p + 2, ds, SpanZeros(s, p + 2));
    PowersOfTen();
    LowDigitsValue(a, ExpWidth(a));
    ExponentParts(s, p, x, p + 2 + |ds|);
  }

  lemma ExponentParts(s: string, p: nat, x: int, end: nat)
    requires At(s, p) == 'e' && At(s, p + 1) == (if x < 0 then '-' else '+') && IsDigit(At(s, p + 2))
    requires var t := SpanZeros(s, p + 2);
             var u := SpanDigits(s, t);
             u == end && u - t <= 8 && DecVal(DigitsOf(s, t, u)) == (if x < 0 then -x else x) <= 999
    ensures Exponent(s, p) == (x, end)
  {
  }

  lemma PowersOfTen()
    ensures Pow(10, 2) == 100 && Pow(10, 3) == 1000
  {
  }

  /** Leading zeros of the exponent are skipped without changing its value. */
  lemma ExponentDigitsRead(s: string, q: nat, ds: seq<Digit>, t: nat)
    requires DigitsAt(s, q, ds) && 1 <= |ds| <= 3 && t == SpanZeros(s, q)
    ensures t <= q + |ds| && SpanDigits(s, t) == q + |ds|
    ensures DecVal(DigitsOf(s, t, q + |ds|)) == DecVal(ds) <= 999
    ensures IsDigit(At(s, q))
  {
    hide DecVal, DigitsOf, SpanZeros, SpanDigits, Pow;
    var u := q + |ds|;
    DigitsRead(s, q, ds);
    LeadingZeros(s, q);
    SpanBefore(s, q);
    SplitZeros(s, q, t, u, ds);
    ShortValue(ds);
    CharAt(s, q, Chars(ds), 0);
  }

  lemma SplitZeros(s: string, q: nat, t: nat, u: nat, ds: seq<Digit>)
    requires q <= t <= u && t == SpanZeros(s, q) && ds == DigitsOf(s, q, u)
    ensures DecVal(DigitsOf(s, t, u)) == DecVal(ds)
  {
    var rest := DigitsOf(s, t, u);
    DigitsOfSplit(s, q, t, u);
    SpanZerosDigits(s, q, t);
    ZerosInFront(t - q, rest);
    assert ds == ZeroDigits(t - q) + rest;
  }

  lemma {:induction false} SpanBefore(s: string, i: nat)
    ensures SpanZeros(s, i) <= SpanDigits(s, i)
    decreases |s| - i
  {
    if i < |s| && s[i] == '0' {
      SpanBefore(s, i + 1);
    }
  }

  lemma ShortValue(ds: seq<Digit>)
    requires |ds| <= 3
    ensures DecVal(ds) <= 999
  {
    DecBounds(ds);
    PowersOfTen();
    PowMonotone(10, |ds|, 3);
  }

  lemma {:induction false} ZerosInFront(n: nat, ds: seq<Digit>)
    ensures DecVal(ZeroDigits(n) + ds) == DecVal(ds)
  {
    if |ds| == 0 {
      assert ZeroDigits(n) + ds == ZeroDigits(n);
      ZeroDigitsValue(n);
    } else {
      var z := ZeroDigits(n) + ds;
      assert z[..|z| - 1] == ZeroDigits(n) + ds[..|ds| - 1];
      ZerosInFront(n, ds[..|ds| - 1]);
    }
  }

  lemma {:induction false} ZeroDigitsValue(n: nat)
    ensures DecVal(ZeroDigits(n)) == 0
  {
    if n > 0 {
      ZeroDigitsValue(n - 1);
      assert ZeroDigits(n)[..n - 1] == ZeroDigits(n - 1);
    }
  }

  // ---------- the three shapes of the mantissa ----------

  /** The parts of a mantissa, put together. */
  lemma MantissaParts(s: string, b: nat, neg: bool, c: nat, d: nat, f: nat, ip: seq<Digit>, kept: seq<Digit>,
                      sig: seq<Digit>, x: int, e: int, end: nat)
    requires e == x - |kept|
    requires SpanZeros(s, b) == c && SpanDigits(s, c) == d && FractionEnd(s, d) == f && b < d
    requires DigitsOf(s, c, d) == ip && Fraction(s, d) == kept && Exponent(s, f) == (x, end)
    requires sig == Significant(ip, kept) && sig != []
    ensures Mantissa(s, b, neg) == Number(neg, PushAll(NoDigits, sig), e, end)
  {
  }

  lemma FirstNotZero(s: string, b: nat, ip: seq<Digit>)
    requires ip != [] && ip[0] != 0 && DigitsAt(s, b, ip)
    ensures SpanZeros(s, b) == b
  {
    CharAt(s, b, Chars(ip), 0);
    NoZeros(s, b);
  }

  /** Digits up to position d, without a point. */
  lemma IntegerRead(s: string, b: nat, neg: bool, ip: seq<Digit>, d: nat, x: int, end: nat)
    requires ip != [] && ip[0] != 0 && DigitsAt(s, b, ip) && d == b + |ip|
    requires At(s, d) != '.' && Exponent(s, d) == (x, end)
    ensures Mantissa(s, b, neg) == Number(neg, PushAll(NoDigits, ip), x, end)
  {
    FirstNotZero(s, b, ip);
    DigitsRead(s, b, ip);
    assert ip + [] == ip;
    MantissaParts(s, b, neg, b, d, d, ip, [], ip, x, x, end);
  }

  /** Digits, a point at position d, and more digits up to f. */
  lemma PointRead(s: string, b: nat, neg: bool, ip: seq<Digit>, fp: seq<Digit>, d: nat, f: nat, x: int,
                  ds: seq<Digit>, e: int, end: nat)
    requires ds == ip + fp && e == x - |fp|
    requires ip != [] && ip[0] != 0 && fp != [] && fp[|fp| - 1] != 0
    requires d == b + |ip| && f == d + 1 + |fp|
    requires DigitsAt(s, b, ip) && At(s, d) == '.' && DigitsAt(s, d + 1, fp) && Exponent(s, f) == (x, end)
    ensures Mantissa(s, b, neg) == Number(neg, PushAll(NoDigits, ds), e, end)
  {
    hide SpanZeros, SpanDigits, DigitsOf, FractionEnd, Fraction, Exponent, Mantissa, PushAll, DigitsAt, At;
    FirstNotZero(s, b, ip);
    DigitsRead(s, b, ip);
    FractionRead(s, d, fp);
    MantissaParts(s, b, neg, b, d, f, ip, fp, ds, x, e, end);
  }

  lemma FractionRead(s: string, d: nat, fp: seq<Digit>)
    requires At(s, d) == '.' && DigitsAt(s, d + 1, fp) && fp != [] && fp[|fp| - 1] != 0
    ensures FractionEnd(s, d) == d + 1 + |fp| && Fraction(s, d) == fp
  {
    DigitsRead(s, d + 1, fp);
    NothingTrimmed(fp);
  }

  /** `0.`, zeros and digits. */
  lemma ZeroPointRead(s: string, b: nat, neg: bool, z: nat, ds: seq<Digit>, end: nat)
    requires Tight(ds) && At(s, b) == '0' && At(s, b + 1) == '.' && end == b + 2 + z + |ds|
    requires DigitsAt(s, b + 2, ZeroDigits(z) + ds) && Exponent(s, end) == (0, end)
    ensures Mantissa(s, b, neg) == Number(neg, PushAll(NoDigits, ds), 0 - z - |ds|, end)
  {
    NoZeros(s, b + 1);
    assert SpanZeros(s, b) == b + 1;
    assert SpanDigits(s, b + 1) == b + 1 && DigitsOf(s, b + 1, b + 1) == [];
    var fp := ZeroDigits(z) + ds;
    assert fp[|fp| - 1] == ds[|ds| - 1];
    FractionRead(s, b + 1, fp);
    TrimStartAfterZeros(z, ds);
    MantissaParts(s, b, neg, b + 1, b + 1, end, [], fp, ds, 0, 0 - z - |ds|, end);
  }

  // ---------- the round trip ----------

  /** The exact outcome of scanning a laid-out number after its sign. */
  predicate ReadBack(r: Scanned, neg: bool, ds: seq<Digit>, decpt: int, end: nat)
  {
    && r.Number? && r.neg == neg && r.end == end
    && SameDecimal(Significand(r.acc), r.e, DecVal(ds), decpt - |ds|)
    && r.acc.y < 0x1_0000_0000 && r.acc.z < 0x1_0000_0000
  }

  lemma ExactDigits(neg: bool, ds: seq<Digit>, decpt: int, end: nat)
    requires |ds| <= 16
    ensures ReadBack(Number(neg, PushAll(NoDigits, ds), decpt - |ds|, end), neg, ds, decpt, end)
  {
    AccumulatesValue(ds);
    assert Pow(10, 0) == 1;
  }

  lemma ScientificRead(s: string, b: nat, neg: bool, ds: seq<Digit>, decpt: int, t: string)
    requires Tight(ds) && |ds| <= 14 && -998 <= decpt <= 1000
    requires t == [DigitChar(ds[0])] + (if |ds| > 1 then "." + Chars(ds)[1..] else "") + ExpText(decpt - 1)
    requires TextAt(s, b, t) && !IsDigit(At(s, b + |t|))
    ensures ReadBack(Mantissa(s, b, neg), neg, ds, decpt, b + |t|)
  {
    hide Exponent, Mantissa, ExpText, ReadBack, PushAll;
    var x := decpt - 1;
    if |ds| == 1 {
      ExponentAt(s, b, t, 1, b + 1, x, b + |t|);
      assert t[0..0 + 1] == Chars(ds);
      PartAt(s, b, t, 0, Chars(ds));
      IntegerRead(s, b, neg, ds, b + 1, x, b + |t|);
    } else {
      ScientificPoint(s, b, neg, ds, ds[..1], ds[1..], x, t, decpt - |ds|, b + |t|);
    }
    ExactDigits(neg, ds, decpt, b + |t|);
  }

  lemma ScientificPoint(s: string, b: nat, neg: bool, ds: seq<Digit>, ip: seq<Digit>, fp: seq<Digit>, x: int, t: string,
                        e: int, end: nat)
    requires e == x - |fp| && end == b + |t|
    requires Tight(ds) && |ds| > 1 && ip == ds[..1] && fp == ds[1..] && -999 <= x <= 999
    requires t == [DigitChar(ds[0])] + ("." + Chars(ds)[1..]) + ExpText(x)
    requires TextAt(s, b, t) && !IsDigit(At(s, end))
    ensures Mantissa(s, b, neg) == Number(neg, PushAll(NoDigits, ds), e, end)
  {
    hide Exponent, Mantissa, ExpText, PushAll, TextAt, IsDigit, At;
    hide Chars, Tight;
    var m := 2 + |fp|;
    CharsSplit(ds, ip, fp);
    var front := Chars(ip) + "." + Chars(fp);
    var tail, f := ExpText(x), b + m;
    assert t == front + tail && |front| == m;
    ExponentAt(s, b, t, m, f, x, end);
    assert PointText(t, ip, fp, tail);
    hide PointText;
    TextPointRead(s, b, neg, ip, fp, tail, t, f, x, ds, e, end);
  }

  lemma CharsSplit(ds: seq<Digit>, ip: seq<Digit>, fp: seq<Digit>)
    requires Tight(ds) && |ds| > 1 && ip == ds[..1] && fp == ds[1..]
    ensures [DigitChar(ds[0])] == Chars(ip) && Chars(ds)[1..] == Chars(fp)
    ensures |ip| == 1 && ip[0] != 0 && fp != [] && fp[|fp| - 1] != 0 && ip + fp == ds
  {
  }

  lemma ExponentAt(s: string, b: nat, t: string, m: nat, f: nat, x: int, end: nat)
    requires m <= |t| && f == b + m && end == b + |t| && TextAt(s, b, t)
    requires t[m..] == ExpText(x) && -999 <= x <= 999 && !IsDigit(At(s, end))
    ensures Exponent(s, f) == (x, end) && !IsDigit(At(s, f)) && At(s, f) != '.'
  {
    hide Exponent, ExpText;
    ExpStarts(x);
    assert t[m..m + |ExpText(x)|] == t[m..];
    PartAt(s, b, t, m, ExpText(x));
    ExponentRead(s, f, x);
    CharAt(s, f, ExpText(x), 0);
  }

  lemma ExpStarts(x: int)
    ensures ExpText(x) != [] && ExpText(x)[0] == 'e'
  {
  }

  predicate PointText(t: string, ip: seq<Digit>, fp: seq<Digit>, tail: string)
  {
    t == Chars(ip) + "." + Chars(fp) + tail
  }

  /** Digits, the point and more digits, as part of a text. */
  lemma TextPointRead(s: string, b: nat, neg: bool, ip: seq<Digit>, fp: seq<Digit>, tail: string, t: string,
                      f: nat, x: int, ds: seq<Digit>, e: int, end: nat)
    requires ip != [] && ip[0] != 0 && fp != [] && fp[|fp| - 1] != 0
    requires ds == ip + fp && e == x - |fp| && end == b + |t|
    requires PointText(t, ip, fp, tail) && TextAt(s, b, t)
    requires f == b + |ip| + 1 + |fp| && !IsDigit(At(s, f)) && Exponent(s, f) == (x, end)
    ensures Mantissa(s, b, neg) == Number(neg, PushAll(NoDigits, ds), e, end)
  {
    hide *;
    var d := b + |ip|;
    PointSplit(s, b, ip, fp, tail, t, d, f);
    PointRead(s, b, neg, ip, fp, d, f, x, ds, e, end);
  }

  lemma PointSplit(s: string, b: nat, ip: seq<Digit>, fp: seq<Digit>, tail: string, t: string, d: nat, f: nat)
    requires PointText(t, ip, fp, tail) && TextAt(s, b, t)
    requires d == b + |ip| && f == d + 1 + |fp| && !IsDigit(At(s, f))
    ensures DigitsAt(s, b, ip) && At(s, d) == '.' && DigitsAt(s, d + 1, fp)
  {
    var n := |ip|;
    assert t[0..0 + n] == Chars(ip) && t[n + 1..n + 1 + |fp|] == Chars(fp) && t[n] == '.';
    PartAt(s, b, t, 0, Chars(ip));
    PartAt(s, b, t, n + 1, Chars(fp));
    CharAt(s, b, t, n);
  }

  lemma NoExponent(s: string, p: nat)
    requires Stops(At(s, p))
    ensures Exponent(s, p) == (0, p)
  {
  }

  lemma SmallFractionRead(s: string, b: nat, neg: bool, ds: seq<Digit>, z: nat, t: string)
    requires Tight(ds) && |ds| <= 14
    requires t == "0." + Zeros(z) + Chars(ds) && TextAt(s, b, t) && Stops(At(s, b + |t|))
    ensures ReadBack(Mantissa(s, b, neg), neg, ds, -(z as int), b + |t|)
  {
    var all := ZeroDigits(z) + ds;
    ZeroChars(z);
    assert t[2..2 + |all|] == Chars(all);
    PartAt(s, b, t, 2, Chars(all));
    CharAt(s, b, t, 0);
    CharAt(s, b, t, 1);
    NoExponent(s, b + |t|);
    ZeroPointRead(s, b, neg, z, ds, b + |t|);
    ExactDigits(neg, ds, -(z as int), b + |t|);
  }

  lemma {:induction false} ZeroChars(z: nat)
    ensures Chars(ZeroDigits(z)) == Zeros(z)
  {
    if z > 0 {
      ZeroChars(z - 1);
      assert Zeros(z) == Zeros(z - 1) + ['0'];
      assert Chars(ZeroDigits(z)) == Chars(ZeroDigits(z - 1)) + ['0'];
    }
  }

  lemma PlainPointRead(s: string, b: nat, neg: bool, ds: seq<Digit>, decpt: nat, t: string)
    requires Tight(ds) && |ds| <= 14 && 0 < decpt < |ds|
    requires t == Chars(ds)[..decpt] + "." + Chars(ds)[decpt..] && TextAt(s, b, t) && Stops(At(s, b + |t|))
    ensures ReadBack(Mantissa(s, b, neg), neg, ds, decpt, b + |t|)
  {
    hide Exponent, Mantissa, ReadBack, PushAll;
    PlainPointMantissa(s, b, neg, ds, decpt, t, decpt - |ds|, b + |t|);
    ExactDigits(neg, ds, decpt, b + |t|);
  }

  lemma PlainPointMantissa(s: string, b: nat, neg: bool, ds: seq<Digit>, decpt: nat, t: string, e: int, end: nat)
    requires Tight(ds) && |ds| <= 14 && 0 < decpt < |ds| && e == decpt - |ds| && end == b + |t|
    requires t == Chars(ds)[..decpt] + "." + Chars(ds)[decpt..] && TextAt(s, b, t) && Stops(At(s, end))
    ensures Mantissa(s, b, neg) == Number(neg, PushAll(NoDigits, ds), e, end)
  {
    hide Exponent, Mantissa, ReadBack, PushAll, At, TextAt;
    var ip, fp := ds[..decpt], ds[decpt..];
    assert t == Chars(ip) + "." + Chars(fp) + "";
    NoExponent(s, end);
    assert ip + fp == ds && |t| == |ds| + 1;
    TextPointRead(s, b, neg, ip, fp, "", t, end, 0, ds, e, end);
  }

  lemma PlainZerosRead(s: string, b: nat, neg: bool, ds: seq<Digit>, decpt: nat, t: string)
    requires Tight(ds) && |ds| <= decpt <= 14
    requires t == Chars(ds) + Zeros(decpt - |ds|) && TextAt(s, b, t) && Stops(At(s, b + |t|))
    ensures ReadBack(Mantissa(s, b, neg), neg, ds, decpt, b + |t|)
  {
    var z := decpt - |ds|;
    var all := ds + ZeroDigits(z);
    ZeroChars(z);
    assert t == Chars(all);
    NoExponent(s, b + |t|);
    IntegerRead(s, b, neg, all, b + |t|, 0, b + |t|);
    PaddedValue(neg, ds, z, b + |t|);
  }

  lemma {:induction false} DecPadded(ds: seq<Digit>, z: nat)
    ensures DecVal(ds + ZeroDigits(z)) == DecVal(ds) * Pow(10, z)
  {
    if z == 0 {
      assert ds + ZeroDigits(0) == ds;
    } else {
      DecPadded(ds, z - 1);
      assert ds + ZeroDigits(z) == ds + ZeroDigits(z - 1) + [0];
      DecSnoc(ds + ZeroDigits(z - 1), 0);
      TimesTen(DecVal(ds), z - 1);
    }
  }

  lemma PaddedValue(neg: bool, ds: seq<Digit>, z: nat, end: nat)
    requires |ds| + z <= 14
    ensures ReadBack(Number(neg, PushAll(NoDigits, ds + ZeroDigits(z)), 0, end), neg, ds, |ds| + z, end)
  {
    var all := ds + ZeroDigits(z);
    AccumulatesValue(all);
    DecPadded(ds, z);
    PaddedSame(Significand(PushAll(NoDigits, all)), DecVal(ds), z);
  }

  lemma PaddedSame(v: nat, w: nat, z: nat)
    requires v == w * Pow(10, z)
    ensures SameDecimal(v, 0, w, z)
  {
    assert Pow(10, 0) == 1;
  }

  lemma BodyReadBack(s: string, b: nat, neg: bool, ds: seq<Digit>, decpt: int, precision: nat, t: string)
    requires Tight(ds) && |ds| <= precision <= 14 && -998 <= decpt <= 1000
    requires t == Body(Chars(ds), decpt, precision) && TextAt(s, b, t) && Stops(At(s, b + |t|))
    ensures ReadBack(Mantissa(s, b, neg), neg, ds, decpt, b + |t|)
  {
    hide Mantissa, ReadBack, ExpText;
    if decpt <= -4 || decpt > precision {
      ScientificRead(s, b, neg, ds, decpt, t);
    } else if decpt <= 0 {
      SmallFractionRead(s, b, neg, ds, -decpt, t);
    } else if decpt < |ds| {
      PlainPointRead(s, b, neg, ds, decpt, t);
    } else {
      PlainZerosRead(s, b, neg, ds, decpt, t);
    }
  }

  lemma BodyStart(ds: seq<Digit>, decpt: int, precision: nat)
    requires Tight(ds)
    ensures var t := Body(Chars(ds), decpt, precision);
            |t| > 0 && IsDigit(t[0]) && (t[0] == '0' ==> |t| > 1 && t[1] == '.')
  {
  }

  /** The text of every finite nonzero number, wherever it stands and whatever
      follows it as long as no digit, point or exponent letter does, is scanned
      to its end and denotes the number it was made from, without rounding and
      without overflow of the two digit accumulators. */
  lemma LayoutReadBack(s: string, p: nat, neg: bool, ds: seq<Digit>, decpt: int, precision: nat, t: string)
    requires Tight(ds) && |ds| <= precision <= 14 && -998 <= decpt <= 1000
    requires t == Layout(neg, Chars(ds), decpt, precision) && TextAt(s, p, t) && Stops(At(s, p + |t|))
    ensures ReadBack(ScanFrom(s, p), neg, ds, decpt, p + |t|)
  {
    hide Mantissa, ScanFrom, ReadBack, Body;
    var body := Body(Chars(ds), decpt, precision);
    var n := if neg then 1 else 0;
    BodyStart(ds, decpt, precision);
    assert t[n..n + |body|] == body;
    PartAt(s, p, t, n, body);
    BodyReadBack(s, p + n, neg, ds, decpt, precision, body);
    ScanStarts(s, p, neg, body);
    CharAt(s, p, t, 0);
  }

  /** A sign or a digit starts the mantissa at once. */
  lemma ScanStarts(s: string, p: nat, neg: bool, body: string)
    requires var b := if neg then p + 1 else p;
             TextAt(s, b, body) && |body| > 0 && IsDigit(body[0]) && (body[0] == '0' ==> |body| > 1 && body[1] == '.')
    requires neg ==> At(s, p) == '-'
    ensures ScanFrom(s, p) == Mantissa(s, if neg then p + 1 else p, neg)
  {
    hide Mantissa;
    var b := if neg then p + 1 else p;
    CharAt(s, b, body, 0);
    if |body| > 1 {
      CharAt(s, b, body, 1);
    }
  }
}
