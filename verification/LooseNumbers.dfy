/** The numbers that the tolerant decoder takes, its default: besides those of the strict one any
    sign, leading zeros, hexadecimal numbers, and the names of infinity and of not-a-number. */
module LooseNumbers {
  import opened Characters
  import opened SpecialNumbers
  import opened NumberScan
  import opened NumberText
  import opened JsonGrammar
  import opened JsonStrings
  import opened JsonTokens
  import opened NumberTexts

  /** A sign, and a decimal number, a hexadecimal number behind its 0x, or a name. */
  datatype Loose = Loose(sign: string, number: Kind)

  datatype Kind =
    | Decimal(f: Form)
    | Hexadecimal(x: string, h: HexForm)
    | Named(name: string)

  predicate LegalDecimal(f: Form)
  {
    && !f.neg && Digits(f.whole) && Digits(f.fraction) && ExponentForm(f.exponent)
    && (f.whole != "" || f.fraction != "") && (!f.point ==> f.fraction == "")
  }

  /** The same letters, in either case. */
  predicate SameLetters(u: string, word: string)
  {
    |u| == |word| && forall i :: 0 <= i < |u| ==> Lower(u[i]) == word[i]
  }

  /** A name; behind nan anything in parentheses. */
  predicate NameForm(u: string)
  {
    || SameLetters(u, "inf") || SameLetters(u, "infinity") || SameLetters(u, "nan")
    || (|u| >= 5 && SameLetters(u[..3], "nan") && u[3] == '(' && u[|u| - 1] == ')' && Inner(u[4..|u| - 1]))
  }

  predicate Inner(u: string)
  {
    forall i :: 0 <= i < |u| ==> u[i] != ')' && u[i] != '\0'
  }

  predicate LegalUnsigned(n: Kind)
  {
    match n
    case Decimal(f) => LegalDecimal(f)
    case Hexadecimal(x, h) => x in {"0x", "0X"} && LegalHex(h)
    case Named(name) => NameForm(name)
  }

  /** A point opens the text only behind a sign. */
  predicate LegalLoose(n: Loose)
  {
    && n.sign in {"", "-", "+"} && LegalUnsigned(n.number)
    && (n.sign == "" && n.number.Decimal? ==> n.number.f.whole != "")
  }

  function UnsignedText(n: Kind): string
  {
    match n
    case Decimal(f) => Magnitude(f)
    case Hexadecimal(x, h) => x + HexText(h)
    case Named(name) => name
  }

  function LooseText(n: Loose): string
  {
    n.sign + UnsignedText(n.number)
  }

  /** What can follow a number in a text. */
  predicate Ending(c: char)
  {
    Stops(c) && HexStops(c) && c != '(' && Lower(c) != 'i'
  }

  // ---------- a text of this form is taken whole ----------

  /** What the scan makes of what follows the sign. */
  ghost predicate Takes(t: string, b: nat, neg: bool, end: nat)
  {
    !Unsigned(t, b, neg).NoNumber? && Unsigned(t, b, neg).end == end
  }

  lemma DecimalTaken(t: string, b: nat, f: Form, neg: bool)
    requires LegalDecimal(f) && TextAt(t, b, Magnitude(f)) && Stops(At(t, b + |Magnitude(f)|))
    ensures Takes(t, b, neg, b + |Magnitude(f)|)
    ensures f.whole != "" ==> IsDigit(At(t, b))
  {
    LooseMagnitude(t, b, f, neg);
    hide Mantissa, Magnitude;
  }

  lemma LooseMagnitude(t: string, b: nat, f: Form, neg: bool)
    requires LegalDecimal(f) && TextAt(t, b, Magnitude(f)) && Stops(At(t, b + |Magnitude(f)|))
    ensures Mantissa(t, b, neg).Number? && Mantissa(t, b, neg).end == b + |Magnitude(f)|
    ensures At(t, b) != '\0' && (f.whole != "" ==> IsDigit(At(t, b)))
    ensures At(t, b) == '0' ==> At(t, b + 1) != 'x' && At(t, b + 1) != 'X'
  {
    var d := b + |f.whole|;
    PointLength(f);
    hide SpanDigits, ExponentForm, PointPart, Exponent, FractionEnd, Mantissa, TextAt;
    TextSplit(t, b, f.whole, PointPart(f) + f.exponent);
    TextSplit(t, d, PointPart(f), f.exponent);
    FractionTaken(t, d, f);
    if f.whole != "" {
      CharAt(t, b, f.whole, 0);
      if |f.whole| > 1 {
        CharAt(t, b, f.whole, 1);
      }
    }
    DigitsSpan(t, b, f.whole);
    MantissaEnd(t, b, neg);
    ExponentTaken(t, d + |PointPart(f)|, f.exponent);
  }

  lemma HexadecimalTaken(t: string, b: nat, x: string, h: HexForm, neg: bool)
    requires x in {"0x", "0X"} && LegalHex(h) && TextAt(t, b, x + HexText(h))
    requires HexStops(At(t, b + 2 + |HexText(h)|))
    ensures Takes(t, b, neg, b + 2 + |HexText(h)|) && At(t, b) == '0'
  {
    TextSplit(t, b, x, HexText(h));
    CharAt(t, b, x, 0);
    CharAt(t, b, x, 1);
    hide HexEnd, HexText, LegalHex;
    HexTaken(t, b, h);
  }

  lemma {:induction false} LettersMatch(t: string, b: nat, u: string, word: string)
    requires TextAt(t, b, u) && SameLetters(u, word) && word != ""
    ensures Lower(At(t, b)) == word[0] && Matches(t, b, word[1..])
    decreases |u|
  {
    CharAt(t, b, u, 0);
    if |u| > 1 {
      assert u == [u[0]] + u[1..];
      TextSplit(t, b, [u[0]], u[1..]);
      LettersMatch(t, b + 1, u[1..], word[1..]);
    }
  }

  lemma LettersBegin(t: string, b: nat, u: string, word: string)
    requires TextAt(t, b, u) && |u| >= |word| && SameLetters(u[..|word|], word)
    ensures BeginsAnyCase(t, b, word)
  {
    forall i | 0 <= i < |word|
      ensures Lower(t[b + i]) == word[i]
    {
      CharAt(t, b, u, i);
      assert u[..|word|][i] == u[i];
    }
  }

  lemma {:induction false} ClosesAt(t: string, p: nat, u: string)
    requires TextAt(t, p, u + ")") && Inner(u)
    ensures p <= |t| && CloseFrom(t, p) == p + |u| + 1
    decreases |u|
  {
    CharAt(t, p, u + ")", 0);
    if u != "" {
      assert u + ")" == [u[0]] + (u[1..] + ")");
      TextSplit(t, p, [u[0]], u[1..] + ")");
      ClosesAt(t, p + 1, u[1..]);
    }
  }

  lemma InfTaken(t: string, b: nat, u: string)
    requires TextAt(t, b, u) && (SameLetters(u, "inf") || SameLetters(u, "infinity"))
    requires Lower(At(t, b + |u|)) != 'i'
    ensures NameEnd(t, b) == b + |u| && Lower(At(t, b)) == 'i' && BeginsAnyCase(t, b, "inf")
  {
    if |u| == 3 {
      LettersMatch(t, b, u, "inf");
      assert !Matches(t, b + 2, "inity");
      assert u[..3] == u;
    } else {
      assert u == u[..3] + u[3..];
      TextSplit(t, b, u[..3], u[3..]);
      LettersMatch(t, b, u[..3], "inf");
      LettersMatch(t, b + 3, u[3..], "inity");
      assert "inity"[1..] == "nity";
      assert Matches(t, b + 2, "inity");
    }
    LettersBegin(t, b, u, "inf");
  }

  lemma NanTaken(t: string, b: nat, u: string)
    requires TextAt(t, b, u) && NameForm(u) && |u| >= 3 && SameLetters(u[..3], "nan")
    requires At(t, b + |u|) != '('
    ensures NameEnd(t, b) == b + |u| && Lower(At(t, b)) == 'n' && BeginsAnyCase(t, b, "nan")
  {
    assert u == u[..3] + u[3..];
    TextSplit(t, b, u[..3], u[3..]);
    LettersMatch(t, b, u[..3], "nan");
    assert "nan"[1..] == "an";
    LettersBegin(t, b, u, "nan");
    if |u| > 3 {
      var v := u[4..|u| - 1];
      assert u[3..] == "(" + (v + ")");
      TextSplit(t, b + 3, "(", v + ")");
      CharAt(t, b + 3, "(", 0);
      ClosesAt(t, b + 4, v);
    }
  }

  lemma NameStarts(t: string, b: nat)
    requires NameEnd(t, b) > b
    ensures !IsDigit(At(t, b)) && At(t, b) != '.' && At(t, b) != '\0' && At(t, b) > '9'
  {
  }

  lemma NamedTaken(t: string, b: nat, u: string, neg: bool)
    requires NameForm(u) && TextAt(t, b, u) && Ending(At(t, b + |u|))
    ensures Takes(t, b, neg, b + |u|) && At(t, b) > '9'
    ensures BeginsAnyCase(t, b, "inf") || BeginsAnyCase(t, b, "nan")
    ensures Lower(At(t, b)) == 'i' || Lower(At(t, b)) == 'n'
  {
    if SameLetters(u, "inf") || SameLetters(u, "infinity") {
      InfTaken(t, b, u);
    } else {
      assert u[..3] == if |u| == 3 then u else u[..3];
      NanTaken(t, b, u);
    }
    NameStarts(t, b);
    hide NameEnd, NameForm, BeginsAnyCase;
    assert SpanZeros(t, b) == b && SpanDigits(t, b) == b;
  }

  lemma UnsignedTaken(t: string, b: nat, n: Kind, neg: bool)
    requires LegalUnsigned(n) && TextAt(t, b, UnsignedText(n)) && Ending(At(t, b + |UnsignedText(n)|))
    ensures Takes(t, b, neg, b + |UnsignedText(n)|)
    ensures (n.Decimal? && n.f.whole != "") || n.Hexadecimal? ==> IsDigit(At(t, b))
    ensures n.Named? ==> Lower(At(t, b)) == 'i' || Lower(At(t, b)) == 'n'
    ensures n.Named? ==> At(t, b) > '9' && (BeginsAnyCase(t, b, "inf") || BeginsAnyCase(t, b, "nan"))
  {
    hide Takes, Magnitude, HexText, NameForm, LegalHex, LegalDecimal, BeginsAnyCase, TextAt;
    match n
    case Decimal(f) => DecimalTaken(t, b, f, neg);
    case Hexadecimal(x, h) => HexadecimalTaken(t, b, x, h, neg);
    case Named(name) => NamedTaken(t, b, name, neg);
  }

  /** Where the tolerant decoder looks for a number. */
  predicate Tried(t: string, p: nat)
    requires p <= |t|
  {
    || At(t, p) == '-' || IsDigit(At(t, p))
    || ((At(t, p) == '+' || Lower(At(t, p)) == 'i' || Lower(At(t, p)) == 'n') && InvalidNumber(t, p))
  }

  /** A text of this form is taken whole, wherever it stands. */
  lemma LooseTaken(t: string, p: nat, n: Loose)
    requires p <= |t| && LegalLoose(n) && TextAt(t, p, LooseText(n)) && Ending(At(t, p + |LooseText(n)|))
    ensures NumberEnd(t, p) == Some(p + |LooseText(n)|) && Tried(t, p)
  {
    var b := p + |n.sign|;
    assert |LooseText(n)| == |n.sign| + |UnsignedText(n.number)| && LegalUnsigned(n.number);
    TextSplit(t, p, n.sign, UnsignedText(n.number));
    if n.sign != "" {
      CharAt(t, p, n.sign, 0);
    }
    hide *;
    UnsignedTaken(t, b, n.number, n.sign == "-");
    StartsSigned(t, p, b, n);
    SignedScan(t, p, b, n.sign, b + |UnsignedText(n.number)|);
  }

  lemma SignedScan(t: string, p: nat, b: nat, sign: string, end: nat)
    requires p <= |t| && b == p + |sign| && sign in {"", "-", "+"} && !IsBlank(At(t, p))
    requires if sign == "" then At(t, p) != '-' && At(t, p) != '+' else At(t, p) == sign[0]
    requires Takes(t, b, sign == "-", end)
    ensures NumberEnd(t, p) == Some(end)
  {
    NotBlank(t, p);
    hide Unsigned;
  }

  lemma NotBlank(t: string, p: nat)
    requires !IsBlank(At(t, p))
    ensures SpanBlank(t, p) == p
  {
  }

  lemma StartsSigned(t: string, p: nat, b: nat, n: Loose)
    requires p <= |t| && LegalLoose(n) && b == p + |n.sign| && (n.sign != "" ==> At(t, p) == n.sign[0])
    requires (n.number.Decimal? && n.number.f.whole != "") || n.number.Hexadecimal? ==> IsDigit(At(t, b))
    requires n.number.Named? ==> Lower(At(t, b)) == 'i' || Lower(At(t, b)) == 'n'
    requires n.number.Named? ==> At(t, b) > '9' && (BeginsAnyCase(t, b, "inf") || BeginsAnyCase(t, b, "nan"))
    ensures Tried(t, p) && !IsBlank(At(t, p)) && n.sign in {"", "-", "+"}
    ensures n.sign == "" ==> At(t, p) != '-' && At(t, p) != '+'
  {
    hide BeginsAnyCase, LegalUnsigned;
  }

  // ---------- what is taken has this form ----------

  lemma DecimalShape(t: string, b: nat, neg: bool) returns (f: Form)
    requires b <= |t| && Mantissa(t, b, neg).Number?
    ensures b < Mantissa(t, b, neg).end <= |t| && LegalDecimal(f) && Magnitude(f) == t[b..Mantissa(t, b, neg).end]
    ensures IsDigit(At(t, b)) ==> f.whole != ""
    ensures f.whole == "" ==> At(t, b) == '.'
  {
    hide *;
    MantissaEnd(t, b, neg);
    var d := SpanDigits(t, b);
    var e := FractionEnd(t, d);
    f := PartsShape(t, b, false);
    PartsSpell(t, b, d, e, Exponent(t, e).1, f);
    if IsDigit(At(t, b)) {
      SpanMoves(t, b);
    }
    PartsDecimal(t, b, d, e, f);
  }

  lemma PartsDecimal(t: string, b: nat, d: nat, e: nat, f: Form)
    requires b <= d <= e <= |t| && (f.point <==> e > d) && (b < d || e > d + 1) && !f.neg
    requires f.whole == t[b..d] && f.fraction == (if e > d then t[d + 1..e] else "")
    requires Digits(f.whole) && Digits(f.fraction) && ExponentForm(f.exponent)
    ensures LegalDecimal(f) && (b < d <==> f.whole != "")
  {
    hide Digits, ExponentForm;
  }

  lemma {:induction false} HexHolds(t: string, p: nat)
    requires p <= |t|
    ensures p <= SpanHex(t, p) <= |t| && HexDigits(t[p..SpanHex(t, p)])
    decreases |t| - p
  {
    if p < |t| && IsHex(t[p]) {
      HexHolds(t, p + 1);
      var q := SpanHex(t, p);
      assert t[p..q] == [t[p]] + t[p + 1..q];
    }
  }

  lemma BinaryShape(t: string, f: nat)
    requires f <= |t|
    ensures f <= BinaryExponentEnd(t, f) <= |t| && BinaryForm(t[f..BinaryExponentEnd(t, f)])
  {
    hide SpanDigits;
    var e := BinaryExponentEnd(t, f);
    if e > f {
      var q := if At(t, f + 1) == '-' || At(t, f + 1) == '+' then f + 2 else f + 1;
      SpanHolds(t, q);
      SpanMoves(t, q);
      assert t[f..e][q - f..] == t[q..e];
      assert t[f..e][0] == t[f] && t[f..e][1] == t[f + 1];
    }
  }

  /** What HexEnd finds behind 0x, unless it takes the 0 alone. */
  lemma HexParts(t: string, b: nat) returns (d: nat, e: nat, end: nat)
    requires b + 1 < |t| && HexEnd(t, b) != b + 1
    ensures b + 2 <= d <= e <= end <= |t| && end == HexEnd(t, b) && (e > d <==> At(t, d) == '.')
    ensures HexDigits(t[b + 2..d]) && (e > d ==> HexDigits(t[d + 1..e])) && BinaryForm(t[e..end])
    ensures b + 2 < d || e > d + 1
  {
    hide SpanHex, SpanZeros, BinaryExponentEnd, HexDigits, BinaryForm;
    var q := b + 2;
    ZerosAreHex(t, q);
    HexHolds(t, q);
    d := SpanHex(t, q);
    HexDigitsSame(t, q);
    e := HexDigitsEnd(t, q);
    if At(t, d) == '.' {
      HexHolds(t, d + 1);
    }
    BinaryShape(t, e);
    end := BinaryExponentEnd(t, e);
    if d == q {
      NoZerosFirst(t, q);
    }
    if At(t, d) == '.' && IsHex(At(t, d + 1)) {
      HexMoves(t, d + 1);
    }
  }

  lemma HexDigitsSame(t: string, q: nat)
    requires SpanHex(t, SpanZeros(t, q)) == SpanHex(t, q)
    ensures HexDigitsEnd(t, SpanZeros(t, q)) == HexDigitsEnd(t, q)
  {
  }

  lemma NoZerosFirst(t: string, q: nat)
    requires SpanHex(t, q) == q
    ensures SpanZeros(t, q) == q && !IsHex(At(t, q))
  {
  }

  lemma HexMoves(t: string, q: nat)
    requires IsHex(At(t, q))
    ensures SpanHex(t, q) > q
  {
  }

  lemma HexSpell(t: string, q: nat, d: nat, e: nat, end: nat, h: HexForm)
    requires q <= d <= e <= end <= |t| && (e > d <==> h.point) && (e > d ==> At(t, d) == '.')
    requires h.whole == t[q..d] && h.fraction == (if e > d then t[d + 1..e] else "") && h.exponent == t[e..end]
    ensures HexText(h) == t[q..end]
  {
    assert HexPoint(h) == t[d..e];
    hide HexPoint;
    Cut(t, q, d, e, end);
  }

  lemma HexShape(t: string, b: nat) returns (h: HexForm)
    requires b + 1 < |t| && HexEnd(t, b) != b + 1
    ensures b + 2 <= HexEnd(t, b) <= |t| && LegalHex(h) && HexText(h) == t[b + 2..HexEnd(t, b)]
  {
    hide HexText, HexDigits, BinaryForm, HexEnd;
    var d, e, end := HexParts(t, b);
    h := HexForm(t[b + 2..d], e > d, if e > d then t[d + 1..e] else "", t[e..end]);
    HexSpell(t, b + 2, d, e, end, h);
    assert HexDigits("") by { NoHexDigits(); }
  }

  lemma NoHexDigits()
    ensures HexDigits("")
  {
  }

  lemma {:induction false} MatchLetters(t: string, b: nat, word: string)
    requires b + |word| <= |t| && word != "" && Lower(At(t, b)) == word[0] && Matches(t, b, word[1..])
    ensures SameLetters(t[b..b + |word|], word)
    decreases |word|
  {
    if |word| > 1 {
      var w := word[1..];
      MatchLetters(t, b + 1, w);
      assert t[b..b + |word|] == [t[b]] + t[b + 1..b + 1 + |w|];
      assert word == [word[0]] + w;
    }
  }

  lemma {:induction false} CloseShape(t: string, i: nat)
    requires i <= |t| && CloseFrom(t, i) > 0
    ensures i < CloseFrom(t, i) <= |t| && t[CloseFrom(t, i) - 1] == ')' && Inner(t[i..CloseFrom(t, i) - 1])
    decreases |t| - i
  {
    if t[i] != ')' {
      CloseShape(t, i + 1);
      var e := CloseFrom(t, i) - 1;
      assert t[i..e] == [t[i]] + t[i + 1..e];
    }
  }

  lemma LettersJoin(u: string, v: string, a: string, b: string)
    requires SameLetters(u, a) && SameLetters(v, b)
    ensures SameLetters(u + v, a + b)
  {
  }

  lemma InfShape(t: string, b: nat)
    requires b <= |t| && Lower(At(t, b)) == 'i' && Matches(t, b, "nf")
    ensures NameEnd(t, b) <= |t| && NameForm(t[b..NameEnd(t, b)])
  {
    MatchInside(t, b, "nf");
    if Matches(t, b + 2, "inity") {
      MatchInside(t, b + 2, "inity");
      assert "inf"[1..] == "nf" && "inity"[1..] == "nity";
      MatchLetters(t, b, "inf");
      MatchLetters(t, b + 3, "inity");
      LettersJoin(t[b..b + 3], t[b + 3..b + 8], "inf", "inity");
      assert t[b..b + 8] == t[b..b + 3] + t[b + 3..b + 8] && "inf" + "inity" == "infinity";
    } else {
      MatchLetters(t, b, "inf");
    }
  }

  lemma NanShape(t: string, b: nat)
    requires b <= |t| && Lower(At(t, b)) == 'n' && Matches(t, b, "an")
    ensures NameEnd(t, b) <= |t| && NameForm(t[b..NameEnd(t, b)])
  {
    MatchInside(t, b, "an");
    MatchLetters(t, b, "nan");
    if NameEnd(t, b) != b + 3 {
      CloseShape(t, b + 4);
      var e := NameEnd(t, b);
      var u := t[b..e];
      assert u[..3] == t[b..b + 3] && u[3] == '(' && u[|u| - 1] == ')';
      assert u[4..|u| - 1] == t[b + 4..e - 1];
    }
  }

  lemma NameShape(t: string, b: nat)
    requires b <= |t| && NameEnd(t, b) > b
    ensures NameEnd(t, b) <= |t| && NameForm(t[b..NameEnd(t, b)])
  {
    if Lower(At(t, b)) == 'i' {
      InfShape(t, b);
    } else {
      NanShape(t, b);
    }
  }

  lemma NamesOnly(t: string, b: nat, neg: bool)
    ensures Mantissa(t, b, neg).Name? ==> Mantissa(t, b, neg).end == NameEnd(t, b) > b
    ensures !Mantissa(t, b, neg).HexNumber?
  {
    hide Exponent, DigitsOf, Fraction, NameEnd;
  }

  /** The zero of 0x without digits. */
  lemma BareZero(t: string, b: nat) returns (f: Form)
    requires b < |t| && t[b] == '0'
    ensures LegalDecimal(f) && f.whole != "" && Magnitude(f) == t[b..b + 1]
  {
    f := Form(false, "0", false, "", "");
    assert "0" + ("" + "") == "0" == t[b..b + 1];
  }

  lemma UnsignedShape(t: string, b: nat, neg: bool, end: nat) returns (n: Kind)
    requires b <= |t| && Takes(t, b, neg, end)
    ensures LegalUnsigned(n) && b < end <= |t| && UnsignedText(n) == t[b..end]
    ensures n.Decimal? && IsDigit(At(t, b)) ==> n.f.whole != ""
    ensures n.Decimal? && n.f.whole == "" ==> At(t, b) == '.'
  {
    hide Mantissa, HexEnd, Magnitude, HexText, NameForm, LegalHex, LegalDecimal;
    if At(t, b) == '0' && (At(t, b + 1) == 'x' || At(t, b + 1) == 'X') {
      if HexEnd(t, b) == b + 1 {
        var f := BareZero(t, b);
        n := Decimal(f);
      } else {
        var h := HexShape(t, b);
        n := Hexadecimal(t[b..b + 2], h);
        assert t[b..b + 2] == [t[b], t[b + 1]];
        assert t[b..end] == t[b..b + 2] + t[b + 2..end];
      }
    } else {
      NamesOnly(t, b, neg);
      if Mantissa(t, b, neg).Name? {
        NameShape(t, b);
        n := Named(t[b..end]);
      } else {
        var f := DecimalShape(t, b, neg);
        n := Decimal(f);
      }
    }
  }

  /** What the tolerant decoder takes as a number has this form. */
  lemma LooseShape(t: string, p: nat, end: nat) returns (n: Loose)
    requires p <= |t| && Tried(t, p) && NumberEnd(t, p) == Some(end)
    ensures LegalLoose(n) && p < end <= |t| && LooseText(n) == t[p..end]
  {
    hide Unsigned, UnsignedText, LegalUnsigned, InvalidNumber;
    var c := At(t, p);
    NotBlank(t, p);
    if c == '-' || c == '+' {
      var u := UnsignedShape(t, p + 1, c == '-', end);
      n := Loose([c], u);
      assert t[p..end] == [t[p]] + t[p + 1..end];
    } else {
      var u := UnsignedShape(t, p, false, end);
      n := Loose("", u);
      assert "" + t[p..end] == t[p..end];
    }
  }
}
