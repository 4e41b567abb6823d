/** Numbers against a grammar: what the strict decoder takes as a number is exactly a text of this
    form, which is that of section 6 of RFC 8259 except that digits may be missing on one side of
    the point. */
module NumberTexts {
  import opened Characters
  import opened SpecialNumbers
  import opened NumberScan
  import opened NumberText
  import opened JsonGrammar
  import opened JsonStrings
  import opened JsonTokens

  /** A sign, digits, a point with further digits, and an exponent part. */
  datatype Form = Form(neg: bool, whole: string, point: bool, fraction: string, exponent: string)

  predicate Digits(u: string)
  {
    forall i :: 0 <= i < |u| ==> IsDigit(u[i])
  }

  /** Nothing, or the letter, a sign if there is one, and a digit at least. */
  predicate ExponentForm(u: string)
  {
    u == "" || (|u| > 1 && u[0] in {'e', 'E'} && |u| > DigitsAfter(u) && Digits(u[DigitsAfter(u)..]))
  }

  function DigitsAfter(u: string): nat
    requires |u| > 1
  {
    if u[1] in {'+', '-'} then 2 else 1
  }

  /** No leading zeros, and a digit somewhere. Before a point that opens the text there is a
      sign. */
  predicate Legal(f: Form)
  {
    && Digits(f.whole) && Digits(f.fraction) && ExponentForm(f.exponent)
    && (|f.whole| > 1 ==> f.whole[0] != '0')
    && (f.whole == "" ==> f.neg && f.fraction != "")
    && (!f.point ==> f.fraction == "")
  }

  function Spelling(f: Form): string
  {
    (if f.neg then "-" else "") + Magnitude(f)
  }

  function Magnitude(f: Form): string
  {
    f.whole + (PointPart(f) + f.exponent)
  }

  function PointPart(f: Form): string
  {
    if f.point then "." + f.fraction else ""
  }

  /** The grammar of section 6: digits on both sides of a point. */
  predicate Proper(f: Form)
  {
    Legal(f) && f.whole != "" && (f.point ==> f.fraction != "")
  }

  // ---------- runs of digits ----------

  lemma {:induction false} DigitsSpan(t: string, p: nat, u: string)
    requires Digits(u) && TextAt(t, p, u) && !IsDigit(At(t, p + |u|))
    ensures SpanDigits(t, p) == p + |u|
    decreases |u|
  {
    if u != "" {
      CharAt(t, p, u, 0);
      assert u == [u[0]] + u[1..];
      TextSplit(t, p, [u[0]], u[1..]);
      DigitsSpan(t, p + 1, u[1..]);
    }
  }

  lemma {:induction false} SpanHolds(t: string, p: nat)
    requires p <= |t|
    ensures SpanDigits(t, p) <= |t| && Digits(t[p..SpanDigits(t, p)])
    decreases |t| - p
  {
    if p < |t| && IsDigit(t[p]) {
      SpanHolds(t, p + 1);
      var q := SpanDigits(t, p);
      assert t[p..q] == [t[p]] + t[p + 1..q];
    }
  }

  /** The end of an exponent part is that of its digits. */
  lemma ExponentEnd(t: string, f: nat)
    ensures Exponent(t, f).1 ==
      if At(t, f) != 'e' && At(t, f) != 'E' then f
      else
        var q := if At(t, f + 1) == '-' || At(t, f + 1) == '+' then f + 2 else f + 1;
        if IsDigit(At(t, q)) then SpanDigits(t, q) else f
  {
    hide SpanZeros, SpanDigits, DigitsOf, At, IsDigit;
    LeadingZeros(t, f + 1);
    LeadingZeros(t, f + 2);
  }

  /** The end of the mantissa, when it is a number. */
  lemma MantissaEnd(t: string, b: nat, neg: bool)
    ensures var d := SpanDigits(t, b);
            var f := FractionEnd(t, d);
      if b < d || f > d + 1 then Mantissa(t, b, neg).Number? && Mantissa(t, b, neg).end == Exponent(t, f).1
      else !Mantissa(t, b, neg).Number?
  {
    hide SpanZeros, SpanDigits, DigitsOf, Fraction, Exponent, NameEnd, At;
    LeadingZeros(t, b);
    SpanBefore(t, b);
  }

  // ---------- a text of this form is taken whole ----------

  lemma ExponentTaken(t: string, f: nat, u: string)
    requires ExponentForm(u) && TextAt(t, f, u) && Stops(At(t, f + |u|))
    ensures Exponent(t, f).1 == f + |u|
  {
    hide SpanDigits, Exponent;
    ExponentEnd(t, f);
    if u != "" {
      var k := DigitsAfter(u);
      CharAt(t, f, u, 0);
      CharAt(t, f, u, 1);
      CharAt(t, f, u, k);
      assert u[k] == u[k..][0];
      assert u == u[..k] + u[k..];
      TextSplit(t, f, u[..k], u[k..]);
      DigitsSpan(t, f + k, u[k..]);
    }
  }

  /** What follows the digits is none. */
  lemma ExponentNoDigit(t: string, f: nat, u: string)
    requires ExponentForm(u) && TextAt(t, f, u) && Stops(At(t, f + |u|))
    ensures !IsDigit(At(t, f)) && At(t, f) != '.' && At(t, f) != 'x' && At(t, f) != 'X'
  {
    if u != "" {
      CharAt(t, f, u, 0);
    }
  }

  lemma FractionTaken(t: string, d: nat, f: Form)
    requires Digits(f.fraction) && ExponentForm(f.exponent) && (!f.point ==> f.fraction == "")
    requires TextAt(t, d, PointPart(f) + f.exponent)
    requires Stops(At(t, d + |PointPart(f) + f.exponent|))
    ensures var e := d + |PointPart(f)|;
      && FractionEnd(t, d) == e && TextAt(t, e, f.exponent)
      && !IsDigit(At(t, d)) && At(t, d) != 'x' && At(t, d) != 'X' && (At(t, d) == '.' <==> f.point)
  {
    hide SpanDigits, ExponentForm;
    TextSplit(t, d, PointPart(f), f.exponent);
    ExponentNoDigit(t, d + |PointPart(f)|, f.exponent);
    if f.point {
      TextSplit(t, d, ".", f.fraction);
      CharAt(t, d, ".", 0);
      DigitsSpan(t, d + 1, f.fraction);
    }
  }

  lemma MagnitudeTaken(t: string, b: nat, f: Form)
    requires Legal(f) && TextAt(t, b, Magnitude(f)) && Stops(At(t, b + |Magnitude(f)|))
    ensures Mantissa(t, b, f.neg).Number? && Mantissa(t, b, f.neg).end == b + |Magnitude(f)|
    ensures IsDigit(At(t, b)) || At(t, b) == '.'
    ensures At(t, b) == '0' ==> At(t, b + 1) != 'x' && At(t, b + 1) != 'X' && !IsDigit(At(t, b + 1))
  {
    var rest := PointPart(f) + f.exponent;
    var d := b + |f.whole|;
    PointLength(f);
    hide SpanDigits, ExponentForm, PointPart, Exponent, FractionEnd, Mantissa, TextAt;
    TextSplit(t, b, f.whole, rest);
    TextSplit(t, d, PointPart(f), f.exponent);
    FractionTaken(t, d, f);
    if f.whole != "" {
      CharAt(t, b, f.whole, 0);
    }
    DigitsSpan(t, b, f.whole);
    MantissaEnd(t, b, f.neg);
    ExponentTaken(t, d + |PointPart(f)|, f.exponent);
  }

  lemma PointLength(f: Form)
    ensures |PointPart(f)| == if f.point then 1 + |f.fraction| else 0
  {
  }

  /** A text of this form is taken whole, wherever it stands. */
  lemma NumberTaken(t: string, p: nat, f: Form)
    requires p <= |t| && Legal(f) && TextAt(t, p, Spelling(f)) && Stops(At(t, p + |Spelling(f)|))
    ensures NumberEnd(t, p) == Some(p + |Spelling(f)|) && !InvalidNumber(t, p)
    ensures At(t, p) == '-' || IsDigit(At(t, p))
  {
    hide Mantissa, Magnitude;
    var b := if f.neg then p + 1 else p;
    if f.neg {
      TextSplit(t, p, "-", Magnitude(f));
      CharAt(t, p, "-", 0);
    } else {
      assert Spelling(f) == Magnitude(f);
    }
    MagnitudeTaken(t, b, f);
    if !f.neg {
      StartsWithDigit(t, b, f);
    }
  }

  lemma StartsWithDigit(t: string, b: nat, f: Form)
    requires Legal(f) && !f.neg && TextAt(t, b, Magnitude(f))
    ensures IsDigit(At(t, b))
  {
    TextSplit(t, b, f.whole, PointPart(f) + f.exponent);
    CharAt(t, b, f.whole, 0);
  }

  // ---------- what is taken has this form ----------

  lemma ExponentShape(t: string, f: nat)
    requires f <= |t|
    ensures f <= Exponent(t, f).1 <= |t| && ExponentForm(t[f..Exponent(t, f).1])
  {
    hide SpanDigits, Exponent;
    ExponentEnd(t, f);
    var e := Exponent(t, f).1;
    if e > f {
      var q := if At(t, f + 1) == '-' || At(t, f + 1) == '+' then f + 2 else f + 1;
      SpanHolds(t, q);
      SpanMoves(t, q);
      assert t[f..e][q - f..] == t[q..e];
      assert t[f..e][0] == t[f] && t[f..e][1] == t[f + 1];
    }
  }

  lemma SpanMoves(t: string, q: nat)
    requires IsDigit(At(t, q))
    ensures SpanDigits(t, q) > q
  {
  }

  /** The parts of a mantissa that ends at `end`. */
  lemma PartsShape(t: string, b: nat, neg: bool) returns (f: Form)
    requires b <= |t|
    ensures var d := SpanDigits(t, b);
            var e := FractionEnd(t, d);
            var end := Exponent(t, e).1;
      && b <= d <= e <= end <= |t|
      && f == Form(neg, t[b..d], At(t, d) == '.', if e > d then t[d + 1..e] else "", t[e..end])
      && (At(t, d) == '.' <==> e > d)
      && Digits(f.whole) && Digits(f.fraction) && ExponentForm(f.exponent)
  {
    hide SpanDigits, Exponent, ExponentForm;
    SpanHolds(t, b);
    var d := SpanDigits(t, b);
    var e := FractionEnd(t, d);
    if At(t, d) == '.' {
      SpanHolds(t, d + 1);
    }
    ExponentShape(t, e);
    f := Form(neg, t[b..d], At(t, d) == '.', if e > d then t[d + 1..e] else "", t[e..Exponent(t, e).1]);
  }

  lemma PartsSpell(t: string, b: nat, d: nat, e: nat, end: nat, f: Form)
    requires b <= d <= e <= end <= |t| && (f.point <==> e > d) && (e > d ==> At(t, d) == '.')
    requires f.whole == t[b..d] && f.fraction == (if e > d then t[d + 1..e] else "") && f.exponent == t[e..end]
    ensures Magnitude(f) == t[b..end]
  {
    hide PointPart;
    assert PointPart(f) == t[d..e] by { PointSpells(t, d, e, f); }
    Cut(t, b, d, e, end);
  }

  lemma Cut(t: string, b: nat, d: nat, e: nat, end: nat)
    requires b <= d <= e <= end <= |t|
    ensures t[b..end] == t[b..d] + (t[d..e] + t[e..end])
  {
    assert t[d..end] == t[d..e] + t[e..end];
    assert t[b..end] == t[b..d] + t[d..end];
  }

  lemma PointSpells(t: string, d: nat, e: nat, f: Form)
    requires d <= e <= |t| && (f.point <==> e > d) && (e > d ==> At(t, d) == '.')
    requires f.fraction == if e > d then t[d + 1..e] else ""
    ensures PointPart(f) == t[d..e]
  {
  }

  /** Where the whole part starts with a digit or there is a sign, and some digit counts. */
  lemma PartsLegal(t: string, b: nat, d: nat, e: nat, f: Form)
    requires b <= d <= e <= |t| && (f.point <==> e > d) && (b < d || e > d + 1)
    requires f.whole == t[b..d] && f.fraction == (if e > d then t[d + 1..e] else "")
    requires Digits(f.whole) && Digits(f.fraction) && ExponentForm(f.exponent)
    requires (b < d || f.neg) && (At(t, b) == '0' ==> d <= b + 1)
    ensures Legal(f)
  {
    hide Digits, ExponentForm;
  }

  lemma MagnitudeShape(t: string, b: nat, neg: bool) returns (f: Form)
    requires b <= |t| && Mantissa(t, b, neg).Number?
    requires At(t, b) == '0' ==> !IsDigit(At(t, b + 1))
    ensures b < Mantissa(t, b, neg).end <= |t| && Magnitude(f) == t[b..Mantissa(t, b, neg).end]
    ensures f.neg == neg && (IsDigit(At(t, b)) || neg ==> Legal(f))
  {
    hide *;
    MantissaEnd(t, b, neg);
    var d := SpanDigits(t, b);
    var e := FractionEnd(t, d);
    f := PartsShape(t, b, neg);
    PartsSpell(t, b, d, e, Exponent(t, e).1, f);
    if At(t, b) == '0' {
      OneZero(t, b);
    }
    if IsDigit(At(t, b)) {
      SpanMoves(t, b);
    }
    if IsDigit(At(t, b)) || neg {
      PartsLegal(t, b, d, e, f);
    }
  }

  lemma OneZero(t: string, b: nat)
    requires At(t, b) == '0' && !IsDigit(At(t, b + 1))
    ensures SpanDigits(t, b) <= b + 1
  {
  }

  /** What the strict decoder takes as a number has this form. */
  lemma NumberShape(t: string, p: nat, end: nat) returns (f: Form)
    requires p <= |t| && (At(t, p) == '-' || IsDigit(At(t, p)))
    requires NumberEnd(t, p) == Some(end) && !InvalidNumber(t, p)
    ensures Legal(f) && p < end <= |t| && t[p..end] == Spelling(f)
  {
    var neg := At(t, p) == '-';
    var b := if neg then p + 1 else p;
    PlainMantissa(t, p, b, neg, end);
    hide *;
    f := MagnitudeShape(t, b, neg);
    Signed(t, p, b, end, f);
  }

  lemma Signed(t: string, p: nat, b: nat, end: nat, f: Form)
    requires p <= b <= end <= |t| && b == (if f.neg then p + 1 else p) && (f.neg ==> At(t, p) == '-')
    requires Magnitude(f) == t[b..end]
    ensures t[p..end] == (if f.neg then "-" else "") + Magnitude(f)
  {
    var m := t[b..end];
    if f.neg {
      assert t[p] == '-';
      hide *;
      assert t[p..end] == [t[p]] + m;
    } else {
      hide *;
      assert "" + m == m;
    }
  }

  lemma PlainMantissa(t: string, p: nat, b: nat, neg: bool, end: nat)
    requires p <= |t| && (At(t, p) == '-' || IsDigit(At(t, p)))
    requires neg == (At(t, p) == '-') && b == (if neg then p + 1 else p)
    requires NumberEnd(t, p) == Some(end) && !InvalidNumber(t, p)
    ensures b <= |t| && Mantissa(t, b, neg).Number? && Mantissa(t, b, neg).end == end
    ensures At(t, b) == '0' ==> !IsDigit(At(t, b + 1))
    ensures neg || IsDigit(At(t, b))
  {
    hide Mantissa, HexEnd, BeginsAnyCase;
    NoName(t, b, neg);
    assert SpanBlank(t, p) == p;
    assert ScanFrom(t, p) == Unsigned(t, b, neg) == Mantissa(t, b, neg);
  }

  /** Names are what the strict decoder refuses beforehand. */
  lemma NoName(t: string, b: nat, neg: bool)
    requires At(t, b) > '9' ==> !BeginsAnyCase(t, b, "inf") && !BeginsAnyCase(t, b, "nan")
    ensures !Mantissa(t, b, neg).Name? && !Mantissa(t, b, neg).HexNumber?
  {
    hide Exponent, DigitsOf, Fraction;
    var c := SpanZeros(t, b);
    var d := SpanDigits(t, c);
    if Mantissa(t, b, neg).Name? {
      assert b == c == d;
      if Lower(At(t, b)) == 'i' {
        NameLetters(t, b, "nf");
      } else {
        NameLetters(t, b, "an");
      }
    }
  }

  lemma NameLetters(t: string, b: nat, word: string)
    requires |word| == 2 && '\0' !in word && Matches(t, b, word) && Lower(At(t, b)) != '\0'
    ensures BeginsAnyCase(t, b, [Lower(At(t, b))] + word)
  {
    var w := [Lower(At(t, b))] + word;
    assert word[0] in word && word[1] in word && word[1..][0] == word[1];
    assert Matches(t, b + 1, word[1..]);
    assert Lower(At(t, b + 1)) == w[1] && Lower(At(t, b + 2)) == w[2];
  }

  /** In front of what cannot carry a number on, exactly the texts of this form are numbers. */
  lemma NumbersExactly(t: string, p: nat, end: nat)
    requires p <= end <= |t| && (At(t, p) == '-' || IsDigit(At(t, p))) && Stops(At(t, end))
    ensures NumberEnd(t, p) == Some(end) && !InvalidNumber(t, p) <==>
      exists f :: Legal(f) && Spelling(f) == t[p..end]
  {
    hide NumberEnd, InvalidNumber, Legal, Spelling;
    if NumberEnd(t, p) == Some(end) && !InvalidNumber(t, p) {
      var f := NumberShape(t, p, end);
    }
    if f :| Legal(f) && Spelling(f) == t[p..end] {
      assert TextAt(t, p, Spelling(f));
      NumberTaken(t, p, f);
    }
  }

  // ---------- hexadecimal numbers ----------

  /** What follows 0x: hexadecimal digits around at most one point, and a binary exponent. */
  datatype HexForm = HexForm(whole: string, point: bool, fraction: string, exponent: string)

  predicate HexDigits(u: string)
  {
    forall i :: 0 <= i < |u| ==> IsHex(u[i])
  }

  predicate BinaryForm(u: string)
  {
    u == "" || (|u| > 1 && u[0] in {'p', 'P'} && |u| > DigitsAfter(u) && Digits(u[DigitsAfter(u)..]))
  }

  predicate LegalHex(f: HexForm)
  {
    && HexDigits(f.whole) && HexDigits(f.fraction) && BinaryForm(f.exponent)
    && (f.whole != "" || f.fraction != "") && (!f.point ==> f.fraction == "")
  }

  function HexText(f: HexForm): string
  {
    f.whole + (HexPoint(f) + f.exponent)
  }

  function HexPoint(f: HexForm): string
  {
    if f.point then "." + f.fraction else ""
  }

  predicate HexStops(c: char)
  {
    !IsHex(c) && c !in {'.', 'p', 'P'}
  }

  lemma {:induction false} HexSpan(t: string, p: nat, u: string)
    requires HexDigits(u) && TextAt(t, p, u) && !IsHex(At(t, p + |u|))
    ensures SpanHex(t, p) == p + |u|
    decreases |u|
  {
    if u != "" {
      CharAt(t, p, u, 0);
      assert u == [u[0]] + u[1..];
      TextSplit(t, p, [u[0]], u[1..]);
      HexSpan(t, p + 1, u[1..]);
    }
  }

  lemma BinaryTaken(t: string, f: nat, u: string)
    requires BinaryForm(u) && TextAt(t, f, u) && HexStops(At(t, f + |u|))
    ensures BinaryExponentEnd(t, f) == f + |u| && !IsHex(At(t, f)) && At(t, f) != '.'
  {
    hide SpanDigits;
    if u != "" {
      var k := DigitsAfter(u);
      CharAt(t, f, u, 0);
      CharAt(t, f, u, 1);
      CharAt(t, f, u, k);
      assert u[k] == u[k..][0];
      assert u == u[..k] + u[k..];
      TextSplit(t, f, u[..k], u[k..]);
      DigitsSpan(t, f + k, u[k..]);
    }
  }

  lemma HexPointTaken(t: string, d: nat, f: HexForm)
    requires LegalHex(f) && TextAt(t, d, HexPoint(f)) && !IsHex(At(t, d + |HexPoint(f)|))
    requires At(t, d + |HexPoint(f)|) != '.'
    ensures !IsHex(At(t, d)) && (At(t, d) == '.' <==> f.point)
    ensures (if f.point then SpanHex(t, d + 1) else d) == d + |HexPoint(f)|
    ensures f.fraction != "" ==> IsHex(At(t, d + 1))
  {
    hide SpanHex, BinaryForm;
    if f.point {
      TextSplit(t, d, ".", f.fraction);
      CharAt(t, d, ".", 0);
      HexSpan(t, d + 1, f.fraction);
      if f.fraction != "" {
        CharAt(t, d + 1, f.fraction, 0);
      }
    }
  }

  lemma HexSplit(t: string, q: nat, f: HexForm, d: nat, e: nat)
    requires TextAt(t, q, HexText(f)) && d == q + |f.whole| && e == d + |HexPoint(f)|
    ensures TextAt(t, q, f.whole) && TextAt(t, d, HexPoint(f)) && TextAt(t, e, f.exponent)
    ensures q + |HexText(f)| == e + |f.exponent|
  {
    hide TextAt, HexPoint;
    TextSplit(t, q, f.whole, HexPoint(f) + f.exponent);
    TextSplit(t, d, HexPoint(f), f.exponent);
  }

  lemma HexDigitsTaken(t: string, q: nat, f: HexForm, d: nat, e: nat)
    requires LegalHex(f) && d == q + |f.whole| && e == d + |HexPoint(f)|
    requires TextAt(t, q, f.whole) && TextAt(t, d, HexPoint(f)) && !IsHex(At(t, e)) && At(t, e) != '.'
    ensures HexDigitsEnd(t, q) == e && (f.whole == "" ==> At(t, q) == '.' && IsHex(At(t, q + 1)))
  {
    assert f.whole == "" ==> f.point && f.fraction != "";
    hide SpanHex, BinaryForm, HexPoint, TextAt, IsHex, At;
    HexPointTaken(t, d, f);
    HexSpan(t, q, f.whole);
  }

  /** A hexadecimal number is taken whole. */
  lemma HexTaken(t: string, b: nat, f: HexForm)
    requires b + 1 < |t| && LegalHex(f) && TextAt(t, b + 2, HexText(f))
    requires HexStops(At(t, b + 2 + |HexText(f)|))
    ensures HexEnd(t, b) == b + 2 + |HexText(f)|
  {
    hide SpanHex, SpanZeros, BinaryForm, BinaryExponentEnd, HexText, HexPoint, TextAt, At;
    var q := b + 2;
    var d := q + |f.whole|;
    var e := d + |HexPoint(f)|;
    HexSplit(t, q, f, d, e);
    BinaryTaken(t, e, f.exponent);
    HexDigitsTaken(t, q, f, d, e);
    ZerosAreHex(t, q);
    if f.whole != "" {
      HexStarts(t, q, f);
    }
  }

  lemma HexStarts(t: string, q: nat, f: HexForm)
    requires LegalHex(f) && f.whole != "" && TextAt(t, q, HexText(f))
    ensures IsHex(At(t, q)) && (SpanZeros(t, q) == q ==> At(t, SpanZeros(t, q)) == At(t, q))
  {
    TextSplit(t, q, f.whole, HexPoint(f) + f.exponent);
    CharAt(t, q, f.whole, 0);
  }
}
