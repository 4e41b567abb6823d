/** Where fpconv_strtod stops on texts that are no decimal numbers: hexadecimal
    numbers and the names of infinity and of not-a-number. */
module SpecialNumbers {
  import opened Characters

  // ---------- hexadecimal numbers ----------

  /** The binary exponent at f; without a digit nothing is taken. */
  function BinaryExponentEnd(s: string, f: nat): (e: nat)
    ensures f <= e && (f < e ==> e <= |s|)
  {
    if At(s, f) != 'p' && At(s, f) != 'P' then f
    else
      var q := if At(s, f + 1) == '-' || At(s, f + 1) == '+' then f + 2 else f + 1;
      if IsDigit(At(s, q)) then SpanDigits(s, q) else f
  }

  /** The end of the digits from q on, around at most one point. A point that no
      digit follows still counts as read. */
  function HexDigitsEnd(s: string, q: nat): (f: nat)
    ensures q <= f && (q < f ==> f <= |s|)
  {
    var r := SpanHex(s, q);
    if At(s, r) == '.' then SpanHex(s, r + 1) else r
  }

  /** The number whose 0x is at b. With no digit at all only the 0 is read. */
  function HexEnd(s: string, b: nat): (e: nat)
    requires b + 1 < |s|
    ensures b < e <= |s|
  {
    var q := SpanZeros(s, b + 2);
    var f := HexDigitsEnd(s, q);
    if q == b + 2 && !IsHex(At(s, q)) && !(At(s, q) == '.' && IsHex(At(s, q + 1))) then b + 1
    else BinaryExponentEnd(s, f)
  }

  /** The exponent part of gethex. */
  method SkipExponent(s: string, s1: nat) returns (p: nat)
    requires s1 <= |s|
    ensures p == BinaryExponentEnd(s, s1) && p <= |s|
  {
    p := s1;
    if Peek(s, p) == 'p' || Peek(s, p) == 'P' {
      p := p + 1;
      if Peek(s, p) == '-' || Peek(s, p) == '+' {
        p := p + 1;
      }
      if !IsDigit(Peek(s, p)) {
        return s1;
      }
      ghost var q := p;
      p := p + 1;
      while IsDigit(Peek(s, p))
        invariant q < p <= |s| && SpanDigits(s, p) == SpanDigits(s, q)
        decreases |s| - p
      {
        p := p + 1;
      }
    }
  }

  lemma {:induction false} ZerosAreHex(s: string, i: nat)
    ensures SpanHex(s, SpanZeros(s, i)) == SpanHex(s, i)
    decreases |s| - i
  {
    if i < |s| && s[i] == '0' {
      ZerosAreHex(s, i + 1);
    }
  }

  /** gethex, as far as it moves its pointer; no character behind the terminator is read. */
  method GetHex(s: string, b: nat) returns (sp: nat)
    requires b + 1 < |s|
    ensures sp == HexEnd(s, b)
  {
    hide SpanHex, SpanZeros, BinaryExponentEnd;
    var s0 := SkipZeros(s, b + 2);
    var havedig := s0 > b + 2;
    var p, point := s0, false;
    if IsHex(Peek(s, p)) {
      havedig := true;
      p := SkipHex(s, p);
      if Peek(s, p) == '.' {
        p := SkipHex(s, p + 1);
      }
    } else if Peek(s, p) == '.' {
      assert SpanHex(s, p) == p by { NoHex(s, p); }
      p := p + 1;
      if IsHex(Peek(s, p)) {
        havedig := true;
        ZerosAreHex(s, p);
        p := SkipZeros(s, p);
        p := SkipHex(s, p);
      } else {
        NoHex(s, p);
      }
    } else {
      NoHex(s, p);
    }
    sp := SkipExponent(s, p);
    if !havedig {
      sp := s0 - 1;
    }
  }

  lemma NoHex(s: string, i: nat)
    requires !IsHex(At(s, i))
    ensures SpanHex(s, i) == i
  {
  }

  // ---------- names ----------

  /** The characters after p are those of the word, in either case. */
  predicate Matches(s: string, p: nat, word: string)
    decreases |word|
  {
    word == "" || (Lower(At(s, p + 1)) == word[0] && Matches(s, p + 1, word[1..]))
  }

  /** Behind the first closing parenthesis at or after i, if there is one. */
  function CloseFrom(s: string, i: nat): (e: nat)
    requires i <= |s|
    ensures e == 0 || i < e <= |s|
    decreases |s| - i
  {
    if At(s, i) == '\0' then 0
    else if s[i] == ')' then i + 1
    else CloseFrom(s, i + 1)
  }

  /** The name at d and what belongs to it; d itself when there is none. */
  function NameEnd(s: string, d: nat): (e: nat)
    ensures d <= e
  {
    if Lower(At(s, d)) == 'i' && Matches(s, d, "nf") then
      if Matches(s, d + 2, "inity") then d + 8 else d + 3
    else if Lower(At(s, d)) == 'n' && Matches(s, d, "an") then
      if d + 3 < |s| && s[d + 3] == '(' && CloseFrom(s, d + 4) > 0 then CloseFrom(s, d + 4) else d + 3
    else d
  }

  lemma {:induction false} MatchInside(s: string, p: nat, word: string)
    requires '\0' !in word && p <= |s| && Matches(s, p, word) && word != ""
    ensures p + |word| < |s|
    decreases |word|
  {
    assert word[0] in word;
    if |word| > 1 {
      MatchInside(s, p + 1, word[1..]);
    }
  }

  lemma NameInside(s: string, d: nat)
    requires d <= |s|
    ensures NameEnd(s, d) <= |s|
  {
    if Lower(At(s, d)) == 'i' && Matches(s, d, "nf") {
      MatchInside(s, d, "nf");
      if Matches(s, d + 2, "inity") {
        MatchInside(s, d + 2, "inity");
      }
    } else if Lower(At(s, d)) == 'n' && Matches(s, d, "an") {
      MatchInside(s, d, "an");
    }
  }

  /** match: moves behind the word if it is there. */
  method Match(s: string, sp: nat, t: string) returns (ok: bool, sp': nat)
    requires sp < |s| && '\0' !in t
    ensures ok == Matches(s, sp, t) && sp' == (if ok then sp + |t| + 1 else sp) && sp' <= |s|
  {
    var p, i := sp, 0;
    assert t[0..] == t;
    while i < |t|
      invariant 0 <= i <= |t| && p == sp + i < |s|
      invariant Matches(s, p, t[i..]) == Matches(s, sp, t)
    {
      p := p + 1;
      assert t[i] in t && t[i..][1..] == t[i + 1..];
      if Lower(Peek(s, p)) != t[i] {
        return false, sp;
      }
      i := i + 1;
    }
    ok, sp' := true, p + 1;
  }

  /** hexnan, as far as it moves its pointer: from the opening parenthesis behind
      the closing one, when there is one. */
  method HexNan(s: string, q: nat) returns (sp: nat)
    requires q < |s| && s[q] == '('
    ensures sp == if CloseFrom(s, q + 1) > 0 then CloseFrom(s, q + 1) else q
  {
    var p := q;
    while Peek(s, p + 1) != '\0' && Peek(s, p + 1) <= ' '
      invariant q <= p < |s| && CloseFrom(s, p + 1) == CloseFrom(s, q + 1)
      decreases |s| - p
    {
      p := p + 1;
    }
    if Peek(s, p + 1) == '0' {
      if Peek(s, p + 2) == 'x' || Peek(s, p + 2) == 'X' {
        p := p + 2;
      }
    }
    p := p + 1;
    while Peek(s, p) != '\0' && (IsHex(Peek(s, p)) || Peek(s, p) <= ' ')
      invariant q < p <= |s| && CloseFrom(s, p) == CloseFrom(s, q + 1)
      decreases |s| - p
    {
      p := p + 1;
    }
    sp := Close(s, p);
    if sp == 0 {
      sp := q;
    }
  }

  /** The search for the closing parenthesis. */
  method Close(s: string, i: nat) returns (e: nat)
    requires i <= |s|
    ensures e == CloseFrom(s, i)
  {
    var p := i;
    while Peek(s, p) != '\0'
      invariant i <= p <= |s| && CloseFrom(s, p) == CloseFrom(s, i)
      decreases |s| - p
    {
      if Peek(s, p) == ')' {
        return p + 1;
      }
      p := p + 1;
    }
    e := 0;
  }

  /** The branch for names, with the pointer at d. */
  method ScanName(s: string, d: nat) returns (e: nat)
    requires d <= |s|
    ensures e == NameEnd(s, d) && e <= |s|
  {
    e := d;
    var c := Peek(s, d);
    var ok;
    if c == 'i' || c == 'I' {
      ok, e := Match(s, d, "nf");
      if ok {
        e := e - 1;
        ok, e := Match(s, e, "inity");
        if !ok {
          e := e + 1;
        }
      }
    } else if c == 'n' || c == 'N' {
      ok, e := Match(s, d, "an");
      if ok && Peek(s, e) == '(' {
        e := HexNan(s, e);
      }
    }
  }
}
