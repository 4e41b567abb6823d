/** fpconv_g_fmt against the conversion %g of printf (section 7.21.6.1 of ISO/IEC 9899:2011): the
    notation is chosen by the size of the number, and what the conversion strips was never
    written. */
module PrintfText {
  import opened Words
  import opened Decimals
  import opened TextLayout

  // ---------- the conversion of the standard ----------

  /** Style f of the digits ps, the first of them worth 10^x. */
  function StyleF(ps: seq<Digit>, x: int): string
    requires x < |ps|
  {
    if x < 0 then "0." + Zeros(-x - 1) + Chars(ps)
    else Chars(ps[..x + 1]) + (if x + 1 < |ps| then "." else "") + Chars(ps[x + 1..])
  }

  /** Style e up to the exponent. */
  function StyleE(ps: seq<Digit>): string
    requires ps != []
  {
    Chars(ps[..1]) + (if |ps| > 1 then "." else "") + Chars(ps[1..])
  }

  function Decimal(n: nat): (ds: seq<Digit>)
  {
    if n < 10 then [n] else Decimal(n / 10) + [n % 10]
  }

  /** The exponent has at least two digits, and only as many more as it needs. */
  function Exponent(x: int): string
  {
    var n := if x < 0 then -x else x;
    (if x < 0 then "e-" else "e+") + (if n < 10 then "0" else "") + Chars(Decimal(n))
  }

  /** Trailing zeros are removed from the fraction, and the point when nothing is left of it. */
  function Stripped(t: string): string
  {
    if '.' in t then Cut(t) else t
  }

  function Cut(t: string): string
  {
    if t == "" then t
    else if t[|t| - 1] == '0' then Cut(t[..|t| - 1])
    else if t[|t| - 1] == '.' then t[..|t| - 1]
    else t
  }

  /** %.Pg, where P is |ps|, of a number whose style e has the digits ps and the exponent x. */
  function General(neg: bool, ps: seq<Digit>, x: int): string
    requires ps != []
  {
    (if neg then "-" else "") + Magnitude(ps, x)
  }

  function Magnitude(ps: seq<Digit>, x: int): string
    requires ps != []
  {
    if |ps| > x >= -4 then Stripped(StyleF(ps, x)) else Stripped(StyleE(ps)) + Exponent(x)
  }

  // ---------- stripping ----------

  lemma {:induction false} CutZeros(t: string, n: nat)
    requires t != "" && t[|t| - 1] != '0'
    ensures Cut(t + Zeros(n)) == if t[|t| - 1] == '.' then t[..|t| - 1] else t
  {
    var u := t + Zeros(n);
    if n == 0 {
      assert u == t;
    } else {
      assert u[..|u| - 1] == t + Zeros(n - 1);
      CutZeros(t, n - 1);
    }
  }

  /** ds and n zeros. */
  function Padded(ds: seq<Digit>, n: nat): (ps: seq<Digit>)
    ensures |ps| == |ds| + n
  {
    ds + seq(n, _ => 0)
  }

  lemma {:induction false} PaddedDigits(ds: seq<Digit>, n: nat)
    ensures DecVal(Padded(ds, n)) == DecVal(ds) * Pow(10, n)
  {
    hide DecVal;
    if n == 0 {
      assert Padded(ds, 0) == ds;
    } else {
      PaddedDigits(ds, n - 1);
      assert Padded(ds, n) == Padded(ds, n - 1) + [0];
      DecSnoc(Padded(ds, n - 1), 0);
      TimesTen(DecVal(ds), n - 1);
    }
  }

  lemma PaddedChars(ds: seq<Digit>, n: nat)
    ensures Chars(Padded(ds, n)) == Chars(ds) + Zeros(n)
  {
  }

  lemma CharsPart(ps: seq<Digit>, i: nat, j: nat)
    requires i <= j <= |ps|
    ensures Chars(ps[i..j]) == Chars(ps)[i..j]
  {
  }

  lemma NoPoint(ds: seq<Digit>)
    ensures '.' !in Chars(ds) && 'e' !in Chars(ds)
  {
  }

  /** Digits with a point among or before them, and zeros behind. */
  lemma StripFraction(head: string, ds: seq<Digit>, n: nat)
    requires ds != [] && ds[|ds| - 1] != 0 && '.' in head
    ensures Stripped(head + Chars(ds) + Zeros(n)) == head + Chars(ds)
  {
    var t := head + Chars(ds);
    assert t[|t| - 1] == DigitChar(ds[|ds| - 1]);
    assert '.' in t && '.' in t + Zeros(n);
    CutZeros(t, n);
  }

  /** Digits, a point and zeros. */
  lemma StripPoint(head: string, n: nat)
    requires '.' !in head
    ensures Stripped(head + (if n > 0 then "." else "") + Zeros(n)) == head
  {
    if n > 0 {
      var t := head + ".";
      assert t[|t| - 1] == '.' && '.' in t + Zeros(n);
      CutZeros(t, n);
      assert t[..|t| - 1] == head;
    } else {
      assert head + "" + Zeros(0) == head;
    }
  }

  // ---------- the same text ----------

  lemma ExponentTexts(x: int)
    requires -999 <= x <= 999
    ensures Exponent(x) == ExpText(x)
  {
    var n := if x < 0 then -x else x;
    var w := ExpWidth(n);
    ExponentDigits(n, w);
    assert n >= 10 ==> Decimal(n / 10) == if n < 100 then [n / 10] else Decimal(n / 100) + [n / 10 % 10];
    var ds := LowDigits(n, w);
    if n < 10 {
      assert Chars(ds) == "0" + Chars([n]);
    } else if n < 100 {
      assert Decimal(n) == [n / 10] + [n % 10] == ds;
    } else {
      assert Decimal(n) == [n / 100] + [n / 10 % 10] + [n % 10] == ds;
    }
  }

  lemma PartsOf(c: string, z: string, i: nat)
    requires i <= |c|
    ensures (c + z)[..i] == c[..i] && (c + z)[i..] == c[i..] + z
  {
  }

  /** The digits before and after a point, with n zeros behind. */
  lemma CutDigits(ds: seq<Digit>, n: nat, i: nat)
    requires i <= |ds|
    ensures i <= |Padded(ds, n)| && Chars(Padded(ds, n)[..i]) == Chars(ds)[..i] == Chars(ds[..i])
    ensures Chars(Padded(ds, n)[i..]) == Chars(ds[i..]) + Zeros(n) && Chars(ds[i..]) == Chars(ds)[i..]
  {
    hide Padded, Chars, Zeros;
    var ps := Padded(ds, n);
    PaddedChars(ds, n);
    CharsPart(ps, 0, i);
    CharsPart(ps, i, |ps|);
    CharsPart(ds, 0, i);
    CharsPart(ds, i, |ds|);
    PartsOf(Chars(ds), Zeros(n), i);
  }

  lemma Grouped(a: string, b: string, c: string, d: string)
    ensures a + b + (c + d) == a + b + c + d
  {
  }

  lemma MantissaTexts(ds: seq<Digit>, n: nat)
    requires Tight(ds)
    ensures Stripped(StyleE(Padded(ds, n))) == [Chars(ds)[0]] + (if |ds| > 1 then "." + Chars(ds)[1..] else "")
  {
    FirstDigit(ds);
    hide Stripped, StyleE, Chars, Padded;
    if |ds| > 1 {
      LongMantissa(ds, n);
      Grouped(Chars(ds)[..1], "", ".", Chars(ds)[1..]);
      assert Chars(ds)[..1] + "" == Chars(ds)[..1];
    } else {
      ShortMantissa(ds, n);
      assert [Chars(ds)[0]] + "" == [Chars(ds)[0]];
    }
  }

  lemma FirstDigit(ds: seq<Digit>)
    requires |ds| >= 1
    ensures Chars(ds)[..1] == [Chars(ds)[0]] && '.' !in Chars(ds)[..1]
  {
  }

  lemma LongMantissa(ds: seq<Digit>, n: nat)
    requires Tight(ds) && |ds| > 1
    ensures Stripped(StyleE(Padded(ds, n))) == Chars(ds)[..1] + "." + Chars(ds)[1..]
  {
    CutDigits(ds, n, 1);
    assert |Padded(ds, n)| > 1 && ds[1..][|ds| - 2] == ds[|ds| - 1];
    hide Stripped, Chars, Padded, Zeros;
    var head := Chars(ds)[..1] + ".";
    assert head[|head| - 1] == '.';
    StripFraction(head, ds[1..], n);
    Grouped(Chars(ds)[..1], ".", Chars(ds[1..]), Zeros(n));
  }

  lemma ShortMantissa(ds: seq<Digit>, n: nat)
    requires Tight(ds) && |ds| == 1
    ensures Stripped(StyleE(Padded(ds, n))) == Chars(ds)[..1]
  {
    FirstDigit(ds);
    CutDigits(ds, n, 1);
    assert |Padded(ds, n)| == 1 + n && Chars(ds)[1..] == "";
    hide Stripped, Chars, Padded, Zeros;
    assert "" + Zeros(n) == Zeros(n);
    StripPoint(Chars(ds)[..1], n);
  }

  lemma SmallTexts(ds: seq<Digit>, n: nat, x: int)
    requires Tight(ds) && x < 0
    ensures Stripped(StyleF(Padded(ds, n), x)) == "0." + Zeros(-x - 1) + Chars(ds)
  {
    PaddedChars(ds, n);
    var head := "0." + Zeros(-x - 1);
    assert head[1] == '.';
    assert StyleF(Padded(ds, n), x) == head + Chars(ds) + Zeros(n);
    StripFraction(head, ds, n);
  }

  /** The last digit is behind the point. */
  lemma MixedTexts(ds: seq<Digit>, n: nat, x: nat)
    requires Tight(ds) && x + 1 < |ds|
    ensures Stripped(StyleF(Padded(ds, n), x)) == Chars(ds)[..x + 1] + "." + Chars(ds)[x + 1..]
  {
    CutDigits(ds, n, x + 1);
    var rest := ds[x + 1..];
    assert rest != [] && rest[|rest| - 1] == ds[|ds| - 1];
    hide Stripped, Chars, Padded, Zeros;
    var head := Chars(ds)[..x + 1] + ".";
    assert '.' in head by { assert head[x + 1] == '.'; }
    Grouped(Chars(ds)[..x + 1], ".", Chars(rest), Zeros(n));
    StripFraction(head, rest, n);
  }

  lemma WholeTexts(ds: seq<Digit>, n: nat, x: nat)
    requires Tight(ds) && |ds| <= x + 1 <= |ds| + n
    ensures Stripped(StyleF(Padded(ds, n), x)) == Chars(ds) + Zeros(x + 1 - |ds|)
  {
    var ps, k := Padded(ds, n), |ds| + n - x - 1;
    PaddedChars(ds, n);
    CharsPart(ps, 0, x + 1);
    CharsPart(ps, x + 1, |ps|);
    NoPoint(ds);
    var head := Chars(ds) + Zeros(x + 1 - |ds|);
    assert Chars(ps[..x + 1]) == head && Chars(ps[x + 1..]) == Zeros(k);
    StripPoint(head, k);
  }

  /** What is laid out is what printf writes with %g and the precision for these digits. */
  lemma LayoutIsGeneral(neg: bool, ds: seq<Digit>, decpt: int, precision: nat)
    requires Tight(ds) && |ds| <= precision && -998 <= decpt <= 1000
    ensures Layout(neg, Chars(ds), decpt, precision) == General(neg, Padded(ds, precision - |ds|), decpt - 1)
  {
    hide Magnitude, Body, Chars, Padded;
    SameBody(ds, decpt, precision, precision - |ds|);
  }

  lemma SameBody(ds: seq<Digit>, decpt: int, precision: nat, n: nat)
    requires Tight(ds) && n + |ds| == precision && -998 <= decpt <= 1000
    ensures Body(Chars(ds), decpt, precision) == Magnitude(Padded(ds, n), decpt - 1)
  {
    hide Stripped, StyleE, StyleF, Exponent, ExpText, Chars, Zeros, Padded;
    if decpt <= -4 || decpt > precision {
      MantissaTexts(ds, n);
      ExponentTexts(decpt - 1);
    } else if decpt <= 0 {
      SmallTexts(ds, n, decpt - 1);
    } else if decpt < |ds| {
      MixedTexts(ds, n, decpt - 1);
    } else {
      WholeTexts(ds, n, decpt - 1);
    }
  }

  // ---------- the notation, by the size of the number ----------

  function Up(x: int): nat { if x > 0 then x else 0 }

  /** d * 10^x < 10^k */
  predicate Below(d: nat, x: int, k: int)
  {
    d * Pow(10, Up(x - k)) < Pow(10, Up(k - x))
  }

  predicate Times(d: nat, n: nat, p: nat)
  {
    d == n * p
  }

  ghost predicate Multiple(d: nat, p: nat)
  {
    exists n: nat :: Times(d, n, p)
  }

  /** d * 10^x is an integer. */
  ghost predicate Whole(d: nat, x: int)
  {
    x >= 0 || Multiple(d, Pow(10, -x))
  }

  lemma BelowPower(d: nat, n: nat, x: int, k: int)
    requires n >= 1 && Pow(10, n - 1) <= d < Pow(10, n)
    ensures Below(d, x, k) <==> x + n <= k
  {
    PowPositive(10, n - 1);
    PowPositive(10, Up(x - k));
    assert Pow(10, 0) == 1;
    hide Pow;
    if x + n <= k {
      PowMonotone(10, n, k - x);
    } else if x >= k {
      MulMonotone(1, d, Pow(10, Up(x - k)));
    } else {
      PowMonotone(10, k - x, n - 1);
    }
  }

  /** The digits and zeros behind them. */
  lemma PaddedSize(ds: seq<Digit>, m: nat, q: nat)
    requires Tight(ds) && q == DecVal(ds) * Pow(10, m)
    ensures Pow(10, |ds| + m - 1) <= q < Pow(10, |ds| + m)
  {
    DecBounds(ds);
    PowAdd(10, |ds| - 1, m);
    PowAdd(10, |ds|, m);
    PowPositive(10, m);
    hide Pow, DecVal;
    MulMonotone(Pow(10, |ds| - 1), DecVal(ds), Pow(10, m));
    MulStrict(DecVal(ds), Pow(10, |ds|), Pow(10, m));
  }

  lemma LastDigit(ds: seq<Digit>)
    requires |ds| >= 1
    ensures DecVal(ds) % 10 == ds[|ds| - 1]
  {
    assert ds == ds[..|ds| - 1] + [ds[|ds| - 1]];
    DecSnoc(ds[..|ds| - 1], ds[|ds| - 1]);
  }

  lemma TensBehind(n: nat, j: nat, p: nat)
    requires p == Pow(10, j) && j >= 1
    ensures (n * p) % 10 == 0
  {
    var r := Pow(10, j - 1);
    assert p == 10 * r;
    hide Pow;
    assert n * p == 10 * (n * r);
  }

  lemma CancelTens(d: nat, n: nat, m: nat, j: nat)
    requires d * Pow(10, m) == n * Pow(10, m + j)
    ensures d == n * Pow(10, j)
  {
    PowAdd(10, m, j);
    PowPositive(10, m);
    hide Pow;
    var p, r := Pow(10, m), Pow(10, j);
    assert n * (p * r) == (n * r) * p;
    if d < n * r {
      MulStrict(d, n * r, p);
    } else if n * r < d {
      MulStrict(n * r, d, p);
    }
  }

  /** The number is an integer if and only if no digit is behind the point. */
  lemma WholeDigits(ds: seq<Digit>, m: nat, q: nat, z: int)
    requires Tight(ds) && q == DecVal(ds) * Pow(10, m)
    ensures Whole(q, z) <==> z + m >= 0
  {
    if z < 0 <= z + m {
      PowAdd(10, m + z, -z);
      MulAssoc(DecVal(ds), Pow(10, m + z), Pow(10, -z));
      assert Times(q, DecVal(ds) * Pow(10, m + z), Pow(10, -z));
    } else if z < 0 && Whole(q, z) {
      hide Pow;
      var n: nat :| Times(q, n, Pow(10, -z));
      var j := -z - m;
      CancelTens(DecVal(ds), n, m, j);
      TensBehind(n, j, Pow(10, j));
      LastDigit(ds);
    }
  }

  lemma SignAside(neg: bool, body: string, c: char)
    requires c != '-'
    ensures c in (if neg then "-" else "") + body <==> c in body
  {
  }

  /** Which characters the text holds. */
  lemma LayoutChars(neg: bool, ds: seq<Digit>, decpt: int, precision: nat)
    requires Tight(ds) && |ds| <= precision
    ensures var t := Layout(neg, Chars(ds), decpt, precision);
      && ('e' in t <==> decpt <= -4 || decpt > precision)
      && ('e' !in t ==> ('.' in t <==> decpt < |ds|))
  {
    hide LowDigits, ExpWidth;
    NoPoint(ds);
    var body := Body(Chars(ds), decpt, precision);
    SignAside(neg, body, 'e');
    SignAside(neg, body, '.');
    if decpt <= -4 || decpt > precision {
      assert ExpText(decpt - 1)[0] == 'e';
    } else if decpt <= 0 {
      assert body[1] == '.';
    } else if decpt < |ds| {
      assert body[decpt] == '.';
    }
  }

  /** The text of q * 10^z, where q is the digits and m zeros behind them: an exponent is written
      if and only if the number is below 10^-4 or at least 10^precision, and without one a point
      if and only if the number is no integer. */
  ghost predicate Notation(t: string, q: nat, z: int, precision: nat)
  {
    && ('e' in t <==> Below(q, z, -4) || !Below(q, z, precision))
    && ('e' !in t ==> ('.' in t <==> !Whole(q, z)))
  }

  lemma NotationBySize(neg: bool, ds: seq<Digit>, decpt: int, precision: nat, m: nat, q: nat, z: int)
    requires Tight(ds) && |ds| <= precision && q == DecVal(ds) * Pow(10, m) && z == decpt - |ds| - m
    ensures Notation(Layout(neg, Chars(ds), decpt, precision), q, z, precision)
  {
    hide Layout, Chars, Below, Whole, Pow;
    LayoutChars(neg, ds, decpt, precision);
    PaddedSize(ds, m, q);
    BelowPower(q, |ds| + m, z, -4);
    BelowPower(q, |ds| + m, z, precision);
    WholeDigits(ds, m, q, z);
  }
}
