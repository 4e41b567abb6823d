/** The input of json_decode is a NUL-terminated string: what stands behind the
    first NUL plays no part, although the length of the input is known. */
module JsonNul {
  import opened Characters
  import opened SpecialNumbers
  import opened NumberScan
  import opened NumberText
  import opened JsonGrammar
  import opened JsonStrings
  import opened JsonTokens
  import opened JsonDecode

  /** w is what comes before the first NUL of t, or before its end. */
  predicate Cut(w: string, t: string)
  {
    |w| <= |t| && t[..|w|] == w && '\0' !in w && At(t, |w|) == '\0'
  }

  lemma SameAt(w: string, t: string, i: nat)
    requires Cut(w, t) && i <= |w|
    ensures At(t, i) == At(w, i) && (i < |w| <==> At(w, i) != '\0')
  {
    if i < |w| {
      assert t[..|w|][i] == t[i];
      assert w[i] in w;
    }
  }

  lemma SamePart(w: string, t: string, i: nat, j: nat)
    requires Cut(w, t) && i <= j <= |w|
    ensures t[i..j] == w[i..j]
  {
    forall k | i <= k < j
      ensures t[k] == w[k]
    {
      SameAt(w, t, k);
    }
  }

  // ---------- numbers ----------

  lemma {:induction false} Spans(w: string, t: string, i: nat)
    requires Cut(w, t) && i <= |w|
    ensures SpanBlank(t, i) == SpanBlank(w, i) <= |w|
    ensures SpanZeros(t, i) == SpanZeros(w, i) <= |w|
    ensures SpanDigits(t, i) == SpanDigits(w, i) <= |w|
    ensures SpanHex(t, i) == SpanHex(w, i) <= |w|
    decreases |w| - i
  {
    SameAt(w, t, i);
    if i < |w| {
      Spans(w, t, i + 1);
    }
  }

  lemma {:induction false} SameDigits(w: string, t: string, i: nat, j: nat)
    requires Cut(w, t) && i <= j <= |w|
    ensures DigitsOf(t, i, j) == DigitsOf(w, i, j)
    decreases j - i
  {
    if i < j {
      SameDigits(w, t, i, j - 1);
      SameAt(w, t, j - 1);
    }
  }

  lemma SameExponentDigits(w: string, t: string, q: nat)
    requires Cut(w, t) && q <= |w|
    ensures ExponentDigits(t, q) == ExponentDigits(w, q)
  {
    hide SpanZeros, SpanDigits, DigitsOf;
    Spans(w, t, q);
    Spans(w, t, SpanZeros(w, q));
    SameDigits(w, t, SpanZeros(w, q), SpanDigits(w, SpanZeros(w, q)));
  }

  lemma SameExponent(w: string, t: string, p: nat)
    requires Cut(w, t) && p <= |w|
    ensures Exponent(t, p) == Exponent(w, p)
  {
    hide ExponentDigits, At, Cut;
    SameAt(w, t, p);
    if p < |w| {
      SameAt(w, t, p + 1);
      var q := if At(w, p + 1) == '-' || At(w, p + 1) == '+' then p + 2 else p + 1;
      SameAt(w, t, q);
      SameExponentDigits(w, t, q);
    }
  }

  lemma SameFraction(w: string, t: string, d: nat)
    requires Cut(w, t) && d <= |w|
    ensures FractionEnd(t, d) == FractionEnd(w, d) <= |w| && Fraction(t, d) == Fraction(w, d)
  {
    hide SpanDigits, DigitsOf, TrimEnd, At, Cut;
    SameAt(w, t, d);
    if At(w, d) == '.' {
      Spans(w, t, d + 1);
      SameDigits(w, t, d + 1, SpanDigits(w, d + 1));
    }
  }

  lemma SameBinaryExponent(w: string, t: string, f: nat)
    requires Cut(w, t) && f <= |w|
    ensures BinaryExponentEnd(t, f) == BinaryExponentEnd(w, f)
  {
    hide SpanDigits, At, Cut;
    SameAt(w, t, f);
    if f < |w| {
      SameAt(w, t, f + 1);
      var q := if At(w, f + 1) == '-' || At(w, f + 1) == '+' then f + 2 else f + 1;
      SameAt(w, t, q);
      Spans(w, t, q);
    }
  }

  lemma SameHexDigits(w: string, t: string, q: nat)
    requires Cut(w, t) && q <= |w|
    ensures HexDigitsEnd(t, q) == HexDigitsEnd(w, q) <= |w|
  {
    hide SpanHex, At, Cut;
    Spans(w, t, q);
    var r := SpanHex(w, q);
    SameAt(w, t, r);
    if At(w, r) == '.' {
      Spans(w, t, r + 1);
    }
  }

  lemma SameHexEnd(w: string, t: string, b: nat)
    requires Cut(w, t) && b + 1 < |w|
    ensures HexEnd(t, b) == HexEnd(w, b)
  {
    hide SpanZeros, HexDigitsEnd, BinaryExponentEnd, At;
    Spans(w, t, b + 2);
    var q := SpanZeros(w, b + 2);
    SameAt(w, t, q);
    if q < |w| {
      SameAt(w, t, q + 1);
    }
    SameHexDigits(w, t, q);
    SameBinaryExponent(w, t, HexDigitsEnd(w, q));
  }

  lemma {:induction false} SameMatches(w: string, t: string, p: nat, word: string)
    requires Cut(w, t) && p < |w| && '\0' !in word
    ensures Matches(t, p, word) == Matches(w, p, word)
    decreases |word|
  {
    hide At, Cut;
    SameAt(w, t, p + 1);
    if word != "" && Lower(At(w, p + 1)) == word[0] {
      assert word[0] in word;
      SameMatches(w, t, p + 1, word[1..]);
    }
  }

  lemma {:induction false} SameClose(w: string, t: string, i: nat)
    requires Cut(w, t) && i <= |w|
    ensures CloseFrom(t, i) == CloseFrom(w, i)
    decreases |w| - i
  {
    SameAt(w, t, i);
    if i < |w| {
      SameClose(w, t, i + 1);
    }
  }

  lemma SameNameEnd(w: string, t: string, d: nat)
    requires Cut(w, t) && d <= |w|
    ensures NameEnd(t, d) == NameEnd(w, d)
  {
    hide Matches, CloseFrom;
    SameAt(w, t, d);
    if d < |w| {
      SameMatches(w, t, d, "nf");
      SameMatches(w, t, d, "an");
      if Matches(w, d, "nf") {
        MatchInside(w, d, "nf");
        SameMatches(w, t, d + 2, "inity");
      }
      if Matches(w, d, "an") {
        MatchInside(w, d, "an");
        SameAt(w, t, d + 3);
        if d + 3 < |w| {
          SameClose(w, t, d + 4);
        }
      }
    }
  }

  lemma SameMantissa(w: string, t: string, b: nat, neg: bool)
    requires Cut(w, t) && b <= |w|
    ensures Mantissa(t, b, neg) == Mantissa(w, b, neg)
  {
    hide SpanZeros, SpanDigits, DigitsOf, Fraction, FractionEnd, Exponent, NameEnd, Significant, PushAll, At, Cut;
    Spans(w, t, b);
    var c := SpanZeros(w, b);
    Spans(w, t, c);
    var d := SpanDigits(w, c);
    SameDigits(w, t, c, d);
    SameFraction(w, t, d);
    SameExponent(w, t, FractionEnd(w, d));
    SameAt(w, t, d);
    SameNameEnd(w, t, d);
  }

  lemma SameUnsigned(w: string, t: string, b: nat, neg: bool)
    requires Cut(w, t) && b <= |w|
    ensures Unsigned(t, b, neg) == Unsigned(w, b, neg)
  {
    hide Mantissa, HexEnd;
    SameAt(w, t, b);
    if b < |w| {
      SameAt(w, t, b + 1);
      if b + 1 < |w| {
        SameHexEnd(w, t, b);
      }
    }
    SameMantissa(w, t, b, neg);
  }

  lemma SameScan(w: string, t: string, p: nat)
    requires Cut(w, t) && p <= |w|
    ensures ScanFrom(t, p) == ScanFrom(w, p)
  {
    hide SpanBlank, Unsigned, At, Cut;
    Spans(w, t, p);
    var a := SpanBlank(w, p);
    SameAt(w, t, a);
    SameUnsigned(w, t, a, At(w, a) == '-');
    if a < |w| {
      SameUnsigned(w, t, a + 1, At(w, a) == '-');
    }
  }

  lemma SameNumber(w: string, t: string, p: nat)
    requires Cut(w, t) && p <= |w|
    ensures NumberFrom(t, p) == NumberFrom(w, p)
  {
    hide ScanFrom;
    SameScan(w, t, p);
    match NumberEnd(w, p)
    case None =>
    case Some(e) => SamePart(w, t, p, e);
  }

  // ---------- strings ----------

  lemma SameHex4(w: string, t: string, p: nat)
    requires Cut(w, t) && p <= |w|
    ensures Hex4(t, p) == Hex4(w, p)
  {
    hide HexDigit, At, Cut;
    assert HexDigit('\0') < 0;
    SameAt(w, t, p);
    if p < |w| {
      SameAt(w, t, p + 1);
      if p + 1 < |w| {
        SameAt(w, t, p + 2);
        if p + 2 < |w| {
          SameAt(w, t, p + 3);
        }
      }
    }
  }

  lemma SameCodePoint(w: string, t: string, p: nat)
    requires Cut(w, t) && p + 2 <= |w|
    ensures CodePoint(t, p) == CodePoint(w, p)
  {
    hide Hex4, Utf8, At, Cut;
    SameHex4(w, t, p + 2);
    if Hex4(w, p + 2) >= 0 {
      SameAt(w, t, p + 6);
      if p + 6 < |w| {
        SameAt(w, t, p + 7);
        if p + 7 < |w| {
          SameHex4(w, t, p + 8);
        }
      }
    }
  }

  lemma {:induction false} SameString(w: string, t: string, p: nat)
    requires Cut(w, t) && p <= |w|
    ensures StringFrom(t, p) == StringFrom(w, p)
    decreases |w| - p
  {
    hide CodePoint, Utf8, Unescape, At, Cut;
    SameAt(w, t, p);
    if p < |w| && At(w, p) != '"' {
      SameAt(w, t, p + 1);
      if At(w, p) != '\\' {
        SameString(w, t, p + 1);
      } else if p + 1 < |w| {
        SameCodePoint(w, t, p);
        SameString(w, t, p + 2);
        if CodePoint(w, p).Escape? {
          SameString(w, t, p + CodePoint(w, p).len);
        }
      }
    }
  }

  // ---------- tokens ----------

  lemma SameText(w: string, t: string, p: nat, word: string)
    requires Cut(w, t) && p <= |w| && '\0' !in word
    ensures TextAt(t, p, word) == TextAt(w, p, word)
  {
    if p + |word| <= |w| {
      SamePart(w, t, p, p + |word|);
    } else if p + |word| <= |t| {
      assert t[p..p + |word|][|w| - p] == '\0';
    }
  }

  lemma SameBegins(w: string, t: string, p: nat, word: string)
    requires Cut(w, t) && p <= |w| && '\0' !in word
    ensures BeginsAnyCase(t, p, word) == BeginsAnyCase(w, p, word)
  {
    forall i | p <= i < |w|
      ensures t[i] == w[i]
    {
      SameAt(w, t, i);
    }
    if |w| < p + |word| <= |t| {
      assert Lower(t[p + (|w| - p)]) == '\0' != word[|w| - p];
    }
  }

  lemma SameInvalid(w: string, t: string, p: nat)
    requires Cut(w, t) && p <= |w|
    ensures InvalidNumber(t, p) == InvalidNumber(w, p)
  {
    hide BeginsAnyCase;
    SameAt(w, t, p);
    var q := if At(w, p) == '-' then p + 1 else p;
    SameAt(w, t, q);
    if q < |w| {
      SameAt(w, t, q + 1);
    }
    SameBegins(w, t, q, "inf");
    SameBegins(w, t, q, "nan");
  }

  lemma {:induction false} SameBlanks(w: string, t: string, p: nat)
    requires Cut(w, t) && p <= |w|
    ensures SkipBlanks(t, p) == SkipBlanks(w, p)
    decreases |w| - p
  {
    SameAt(w, t, p);
    if p < |w| {
      SameBlanks(w, t, p + 1);
    }
  }

  lemma SameTokenAt(w: string, t: string, p: nat, invalid: bool)
    requires Cut(w, t) && p <= |w|
    ensures TokenAt(t, p, invalid) == TokenAt(w, p, invalid)
  {
    hide StringFrom, InvalidNumber, NumberFrom, TextAt, At, Cut;
    SameAt(w, t, p);
    SameText(w, t, p, "true");
    SameText(w, t, p, "false");
    SameText(w, t, p, "null");
    SameInvalid(w, t, p);
    SameNumber(w, t, p);
    if p < |w| {
      SameString(w, t, p + 1);
    }
  }

  lemma SameNext(w: string, t: string, p: nat, invalid: bool)
    requires Cut(w, t) && p <= |w|
    ensures NextToken(t, p, invalid) == NextToken(w, p, invalid)
  {
    hide TokenAt, SkipBlanks;
    SameBlanks(w, t, p);
    SameTokenAt(w, t, SkipBlanks(w, p), invalid);
  }

  lemma {:induction false} SameTokens(w: string, t: string, p: nat, invalid: bool)
    requires Cut(w, t) && p <= |w|
    ensures Tokens(t, p, invalid) == Tokens(w, p, invalid)
    decreases |w| - p
  {
    hide NextToken;
    SameNext(w, t, p, invalid);
    var n := NextToken(w, p, invalid);
    if n.tok !in {End, Error} {
      SameTokens(w, t, n.end, invalid);
    }
  }

  lemma NoTokens(t: string, invalid: bool)
    requires At(t, 0) == '\0'
    ensures Tokens(t, 0, invalid) == [End]
  {
  }

  /** Of every input only what comes before its first NUL, at position z, decides:
      past the second character the rest is never looked at, and any sooner the
      input is taken for UTF-16 or UTF-32 and refused. */
  lemma NulHidesTheRest(t: string, z: nat, cfg: Config)
    requires z < |t| && t[z] == '\0' && '\0' !in t[..z]
    ensures Decoded(t, cfg) == if z >= 2 then Decoded(t[..z], cfg) else None
  {
    hide Tokens;
    var w := t[..z];
    if z >= 2 {
      assert w[0] in w && w[1] in w && t[0] == w[0] && t[1] == w[1];
      SameTokens(w, t, 0, cfg.invalid);
    } else if |t| == 1 {
      NoTokens(t, cfg.invalid);
    }
  }
}
