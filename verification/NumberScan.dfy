/** The digit and exponent scan at the head of fpconv_strtod. */
module NumberScan {
  import opened Words
  import opened Decimals
  import opened Characters
  import opened SpecialNumbers

  // ---------- digits ----------

  function DigitOf(c: char): Digit
  {
    if IsDigit(c) then c as int - '0' as int else 0
  }

  /** The digits at positions i..j. */
  function DigitsOf(s: string, i: nat, j: nat): (ds: seq<Digit>)
    requires i <= j
    ensures |ds| == j - i
    decreases j - i
  {
    if i == j then [] else DigitsOf(s, i, j - 1) + [DigitOf(At(s, j - 1))]
  }

  // ---------- accumulating digits ----------

  /** nd digits read so far: the first nine in y, the next seven in z, both
      held in 32-bit words. */
  datatype Acc = Acc(y: nat, z: nat, nd: nat)

  const NoDigits := Acc(0, 0, 0)

  function Push(a: Acc, d: Digit): Acc
  {
    if a.nd < 9 then Acc(10 * a.y + d, a.z, a.nd + 1)
    else if a.nd < 16 then Acc(a.y, 10 * a.z + d, a.nd + 1)
    else Acc(a.y, a.z, a.nd + 1)
  }

  function PushAll(a: Acc, ds: seq<Digit>): (r: Acc)
    ensures r.nd == a.nd + |ds|
  {
    if |ds| == 0 then a else Push(PushAll(a, ds[..|ds| - 1]), ds[|ds| - 1])
  }

  /** The two accumulators joined: exact while at most 16 digits count. */
  function Significand(a: Acc): nat
  {
    if a.nd <= 9 then a.y else a.y * Pow(10, (if a.nd < 16 then a.nd else 16) - 9) + a.z
  }

  lemma PushAllNext(a: Acc, ds: seq<Digit>, d: Digit)
    ensures PushAll(a, ds + [d]) == Push(PushAll(a, ds), d)
  {
    assert (ds + [d])[..|ds|] == ds;
  }

  lemma {:induction false} PushAllConcat(a: Acc, ds: seq<Digit>, es: seq<Digit>)
    ensures PushAll(PushAll(a, ds), es) == PushAll(a, ds + es)
  {
    if |es| == 0 {
      assert ds + es == ds;
    } else {
      var n := |es| - 1;
      PushAllConcat(a, ds, es[..n]);
      assert ds + es == (ds + es[..n]) + [es[n]];
      PushAllNext(a, ds + es[..n], es[n]);
    }
  }

  /** Up to 16 digits are kept exactly, in two words that do not overflow. */
  lemma {:induction false} AccumulatesValue(ds: seq<Digit>)
    requires |ds| <= 16
    ensures var a := PushAll(NoDigits, ds);
            Significand(a) == DecVal(ds) && a.y < 0x1_0000_0000 && a.z < 0x1_0000_0000
  {
    AccumulatesParts(ds);
    var a := PushAll(NoDigits, ds);
    assert Pow(10, 4) == 10_000 && Pow(10, 5) == 100_000;
    PowAdd(10, 4, 5);
    PowAdd(10, 4, 3);
    assert Pow(10, 3) == 1000;
    DecBounds(ds);
    if |ds| <= 9 {
      PowMonotone(10, |ds|, 9);
    } else {
      var hi, lo := ds[..9], ds[9..];
      DecConcat(hi, lo);
      assert hi + lo == ds;
      DecBounds(hi);
      DecBounds(lo);
      PowMonotone(10, |lo|, 7);
    }
  }

  lemma {:induction false} AccumulatesParts(ds: seq<Digit>)
    requires |ds| <= 16
    ensures var a := PushAll(NoDigits, ds);
            a.nd == |ds| && a.y == DecVal(if |ds| <= 9 then ds else ds[..9])
            && a.z == DecVal(if |ds| <= 9 then [] else ds[9..])
  {
    if |ds| > 0 {
      var n := |ds| - 1;
      AccumulatesParts(ds[..n]);
      if n >= 9 {
        assert ds[..n][..9] == ds[..9];
        assert ds[9..][..n - 9] == ds[..n][9..];
        assert ds[..9] == if n == 9 then ds[..n] else ds[..n][..9];
      }
    }
  }

  // ---------- what is scanned ----------

  /** A number stands for (-1)^neg * Significand(acc) * 10^e. What is read ends
      before position `end`; of hexadecimal numbers and names only that is said. */
  datatype Scanned =
    | NoNumber
    | Number(neg: bool, acc: Acc, e: int, end: nat)
    | HexNumber(end: nat)
    | Name(end: nat)

  /** Without trailing zeros. */
  function TrimEnd(ds: seq<Digit>): (t: seq<Digit>)
    ensures |t| <= |ds|
  {
    if |ds| > 0 && ds[|ds| - 1] == 0 then TrimEnd(ds[..|ds| - 1]) else ds
  }

  /** Without leading zeros. */
  function TrimStart(ds: seq<Digit>): (t: seq<Digit>)
    ensures |t| <= |ds|
  {
    if |ds| > 0 && ds[0] == 0 then TrimStart(ds[1..]) else ds
  }

  /** The exponent part at p, and where the number ends: without a digit after
      `e` nothing is taken. Large exponents are cut off at 19999. */
  function Exponent(s: string, p: nat): (r: (int, nat))
    ensures p <= r.1 && (p < r.1 ==> r.1 <= |s|)
  {
    if At(s, p) != 'e' && At(s, p) != 'E' then (0, p)
    else
      var q := if At(s, p + 1) == '-' || At(s, p + 1) == '+' then p + 2 else p + 1;
      if !IsDigit(At(s, q)) then (0, p)
      else
        var x: int := ExponentDigits(s, q).0;
        (if At(s, p + 1) == '-' then -x else x, ExponentDigits(s, q).1)
  }

  /** The digits of an exponent, from q on. */
  function ExponentDigits(s: string, q: nat): (r: (nat, nat))
    ensures q <= r.1 && (q < r.1 ==> r.1 <= |s|)
  {
    var t := SpanZeros(s, q);
    var u := SpanDigits(s, t);
    var v := DecVal(DigitsOf(s, t, u));
    (if u - t > 8 || v > 19999 then 19999 else v, u)
  }

  /** The whole scan of the string from position p. */
  function ScanFrom(s: string, p: nat): Scanned
  {
    var a := SpanBlank(s, p);
    var signed := At(s, a) == '-' || At(s, a) == '+';
    var b := if signed then a + 1 else a;
    Unsigned(s, b, At(s, a) == '-')
  }

  /** What follows the sign. */
  function Unsigned(s: string, b: nat, neg: bool): Scanned
  {
    if At(s, b) == '\0' then NoNumber
    else if At(s, b) == '0' && (At(s, b + 1) == 'x' || At(s, b + 1) == 'X') then HexNumber(HexEnd(s, b))
    else Mantissa(s, b, neg)
  }

  /** The end of the digits after a point at d, and those digits without the
      trailing zeros. */
  function FractionEnd(s: string, d: nat): (f: nat)
    ensures f >= d
  {
    if At(s, d) == '.' then SpanDigits(s, d + 1) else d
  }

  function Fraction(s: string, d: nat): seq<Digit>
  {
    if At(s, d) == '.' then TrimEnd(DigitsOf(s, d + 1, FractionEnd(s, d))) else []
  }

  /** The digits that count. */
  function Significant(ip: seq<Digit>, kept: seq<Digit>): seq<Digit>
  {
    if ip == [] then TrimStart(kept) else ip + kept
  }

  /** A number without its sign, or a name. */
  function Mantissa(s: string, b: nat, neg: bool): Scanned
  {
    var c := SpanZeros(s, b);
    var d := SpanDigits(s, c);
    var f := FractionEnd(s, d);
    if b == d && f <= d + 1 then
      if At(s, d) != '.' && NameEnd(s, d) > d then Name(NameEnd(s, d)) else NoNumber
    else
      var sig := Significant(DigitsOf(s, c, d), Fraction(s, d));
      if sig == [] then Number(neg, NoDigits, 0, Exponent(s, f).1)
      else Number(neg, PushAll(NoDigits, sig), Exponent(s, f).0 - |Fraction(s, d)|, Exponent(s, f).1)
  }

  // ---------- the loops ----------

  /** The loop over the digits before the point. */
  method ScanInteger(s: string, c: nat) returns (acc: Acc, i: nat)
    requires c <= |s|
    ensures i <= |s| && i == SpanDigits(s, c) && acc == PushAll(NoDigits, DigitsOf(s, c, i))
  {
    i, acc := c, NoDigits;
    while IsDigit(Peek(s, i))
      invariant c <= i <= |s| && SpanDigits(s, i) == SpanDigits(s, c)
      invariant acc == PushAll(NoDigits, DigitsOf(s, c, i))
      decreases |s| - i
    {
      PushAllNext(NoDigits, DigitsOf(s, c, i), DigitOf(s[i]));
      acc := Push(acc, DigitOf(At(s, i)));
      i := i + 1;
    }
  }

  /** The zeros that turned out to matter. */
  method PushZeros(acc0: Acc, n: nat) returns (acc: Acc)
    ensures acc == PushAll(acc0, ZeroDigits(n))
  {
    acc := acc0;
    var i := 0;
    while i < n
      invariant 0 <= i <= n && acc == PushAll(acc0, ZeroDigits(i))
    {
      PushAllNext(acc0, ZeroDigits(i), 0);
      acc := Push(acc, 0);
      i := i + 1;
    }
  }

  function ZeroDigits(n: nat): (ds: seq<Digit>)
    ensures |ds| == n
  {
    if n == 0 then [] else ZeroDigits(n - 1) + [0]
  }

  lemma {:induction false} TrimEndSplit(ds: seq<Digit>)
    ensures ds == TrimEnd(ds) + ZeroDigits(|ds| - |TrimEnd(ds)|)
    ensures |TrimEnd(ds)| > 0 ==> TrimEnd(ds)[|TrimEnd(ds)| - 1] != 0
  {
    var n := |ds| - 1;
    if n >= 0 && ds[n] == 0 {
      TrimEndSplit(ds[..n]);
      assert ds == ds[..n] + [0];
    }
  }

  /** Zeros are held back until a nonzero digit follows. */
  lemma HeldZeros(ds: seq<Digit>, d: Digit, acc0: Acc, kept: seq<Digit>, nz: nat)
    requires kept == TrimEnd(ds) && nz == |ds| - |kept|
    ensures d == 0 ==> TrimEnd(ds + [d]) == kept
    ensures d != 0 ==> TrimEnd(ds + [d]) == ds + [d]
    ensures PushAll(acc0, ds + [d]) == Push(PushAll(PushAll(acc0, kept), ZeroDigits(nz)), d)
  {
    assert (ds + [d])[..|ds|] == ds;
    TrimEndSplit(ds);
    PushAllConcat(acc0, kept, ZeroDigits(nz));
    PushAllNext(acc0, ds, d);
  }

  lemma SpanStep(s: string, i: nat)
    requires IsDigit(At(s, i))
    ensures i < |s| && SpanDigits(s, i) == SpanDigits(s, i + 1)
  {
  }

  lemma NextDigitOf(s: string, c: nat, i: nat)
    requires c <= i
    ensures DigitsOf(s, c, i + 1) == DigitsOf(s, c, i) + [DigitOf(At(s, i))]
  {
  }

  /** The loop after the point, from the first digit that counts. */
  method ScanFraction(s: string, c: nat, acc0: Acc) returns (acc: Acc, nf: nat, i: nat)
    requires c <= |s|
    ensures i <= |s| && i == SpanDigits(s, c)
    ensures var kept := TrimEnd(DigitsOf(s, c, i)); acc == PushAll(acc0, kept) && nf == |kept|
  {
    i, acc, nf := c, acc0, 0;
    var nz := 0;
    ghost var ds: seq<Digit> := [];
    assert TrimEnd(ds) == [] && PushAll(acc0, []) == acc0 && DigitsOf(s, c, c) == ds;
    hide TrimEnd, PushAll, DigitsOf, SpanDigits, IsDigit;
    while IsDigit(Peek(s, i))
      invariant c <= i <= |s| && SpanDigits(s, i) == SpanDigits(s, c)
      invariant ds == DigitsOf(s, c, i)
      invariant acc == PushAll(acc0, TrimEnd(ds)) && nf == |TrimEnd(ds)| && nf + nz == |ds|
      decreases |s| - i
    {
      var d := DigitOf(At(s, i));
      acc, nf, nz := FractionDigit(acc, nf, nz, d, ds, acc0);
      NextDigitOf(s, c, i);
      SpanStep(s, i);
      ds := ds + [d];
      i := i + 1;
    }
  }

  /** The body of the loop after the point, with the digits ds behind it. */
  method FractionDigit(acc0: Acc, nf0: nat, nz0: nat, d: Digit, ghost ds: seq<Digit>, ghost start: Acc)
    returns (acc: Acc, nf: nat, nz: nat)
    requires acc0 == PushAll(start, TrimEnd(ds)) && nf0 == |TrimEnd(ds)| && nf0 + nz0 == |ds|
    ensures acc == PushAll(start, TrimEnd(ds + [d])) && nf == |TrimEnd(ds + [d])| && nf + nz == |ds| + 1
  {
    hide TrimEnd, PushAll, Push;
    HeldZeros(ds, d, start, TrimEnd(ds), nz0);
    acc, nf, nz := acc0, nf0, nz0 + 1;
    if d != 0 {
      nf := nf + nz;
      acc := PushZeros(acc, nz - 1);
      acc := Push(acc, d);
      nz := 0;
    }
  }

  method ScanCount(s: string, t: nat) returns (v: nat, u: nat)
    requires t <= |s|
    ensures u <= |s| && u == SpanDigits(s, t) && v == DecVal(DigitsOf(s, t, u))
  {
    u, v := t, 0;
    while IsDigit(Peek(s, u))
      invariant t <= u <= |s| && SpanDigits(s, u) == SpanDigits(s, t) && v == DecVal(DigitsOf(s, t, u))
      decreases |s| - u
    {
      DecSnoc(DigitsOf(s, t, u), DigitOf(At(s, u)));
      v := 10 * v + DigitOf(At(s, u));
      u := u + 1;
    }
  }

  /** The exponent part; the string is put back to p when no digit follows. */
  method ScanExponent(s: string, p: nat) returns (e: int, end: nat)
    requires p <= |s|
    ensures (e, end) == Exponent(s, p)
  {
    hide ExponentDigits;
    if Peek(s, p) != 'e' && Peek(s, p) != 'E' {
      return 0, p;
    }
    var esign, q := false, p + 1;
    if Peek(s, q) == '-' {
      esign := true;
      q := q + 1;
    } else if Peek(s, q) == '+' {
      q := q + 1;
    }
    if !IsDigit(Peek(s, q)) {
      return 0, p;
    }
    e, end := ScanExponentDigits(s, q);
    e := if esign then -e else e;
  }

  method ScanExponentDigits(s: string, q: nat) returns (e: nat, end: nat)
    requires q <= |s|
    ensures (e, end) == ExponentDigits(s, q) && end <= |s|
  {
    hide DecVal, DigitsOf, SpanDigits, SpanZeros;
    var t := SkipZeros(s, q);
    var v, u := ScanCount(s, t);
    e := if u - t > 8 || v > 19999 then 19999 else v;
    end := u;
  }

  /** The digits after the point at d: with no digit before it, zeros only move
      the point. */
  method ScanPoint(s: string, d: nat, acc0: Acc) returns (acc: Acc, nf: nat, f: nat)
    requires d < |s|
    requires acc0.nd == 0 ==> acc0 == NoDigits
    ensures f <= |s| && f == SpanDigits(s, d + 1)
    ensures var kept := TrimEnd(DigitsOf(s, d + 1, f));
            nf == |kept| && acc == PushAll(acc0, if acc0.nd == 0 then TrimStart(kept) else kept)
  {
    var first := d + 1;
    if acc0.nd == 0 {
      first := SkipZeros(s, d + 1);
      LeadingZeros(s, d + 1);
    }
    acc, nf, f := ScanFraction(s, first, acc0);
    if acc0.nd == 0 {
      FractionParts(s, d + 1, first, f, DigitsOf(s, d + 1, f), DigitsOf(s, first, f));
      if nf > 0 {
        nf := nf + first - (d + 1);
      }
    }
  }

  /** The digits before and after the point. */
  method ScanDigits(s: string, c: nat) returns (acc: Acc, nf: nat, d: nat, f: nat)
    requires c <= |s|
    ensures d <= |s| && f <= |s|
    ensures d == SpanDigits(s, c) && f == FractionEnd(s, d) && nf == |Fraction(s, d)|
    ensures acc == PushAll(NoDigits, Significant(DigitsOf(s, c, d), Fraction(s, d)))
  {
    hide SpanDigits, DigitsOf, TrimEnd, TrimStart, Significant;
    var acc0;
    acc0, d := ScanInteger(s, c);
    assert acc0.nd == 0 ==> acc0 == NoDigits;
    hide PushAll;
    acc, f, nf := acc0, d, 0;
    if Peek(s, d) == '.' {
      acc, nf, f := ScanPoint(s, d, acc0);
    }
    SignificantDigits(DigitsOf(s, c, d), Fraction(s, d));
  }

  lemma SignificantDigits(ip: seq<Digit>, kept: seq<Digit>)
    ensures PushAll(NoDigits, Significant(ip, kept))
         == PushAll(PushAll(NoDigits, ip), if |ip| == 0 then TrimStart(kept) else kept)
  {
    if |ip| > 0 {
      PushAllConcat(NoDigits, ip, kept);
    }
  }

  /** The mantissa and what follows it. */
  method ScanMantissa(s: string, b: nat, neg: bool) returns (r: Scanned)
    requires b <= |s|
    ensures r == Mantissa(s, b, neg)
  {
    var c := SkipZeros(s, b);
    var acc, nf, d, f := ScanDigits(s, c);
    if b == d && f <= d + 1 {
      if Peek(s, d) != '.' {
        var e := ScanName(s, d);
        if e > d {
          return Name(e);
        }
      }
      return NoNumber;
    }
    var e, end := ScanExponent(s, f);
    r := if acc.nd == 0 then Number(neg, NoDigits, 0, end) else Number(neg, acc, e - nf, end);
  }

  /** Zeros are digits. */
  lemma {:induction false} LeadingZeros(s: string, i: nat)
    ensures SpanDigits(s, SpanZeros(s, i)) == SpanDigits(s, i)
    decreases |s| - i
  {
    if i < |s| && s[i] == '0' {
      LeadingZeros(s, i + 1);
    }
  }

  lemma {:induction false} DigitsOfSplit(s: string, i: nat, m: nat, j: nat)
    requires i <= m <= j
    ensures DigitsOf(s, i, j) == DigitsOf(s, i, m) + DigitsOf(s, m, j)
    decreases j - m
  {
    if m < j {
      DigitsOfSplit(s, i, m, j - 1);
    }
  }

  lemma {:induction false} SpanZerosDigits(s: string, i: nat, j: nat)
    requires i <= j <= SpanZeros(s, i)
    ensures DigitsOf(s, i, j) == ZeroDigits(j - i) && (j < SpanZeros(s, i) ==> At(s, j) == '0')
    decreases j - i
  {
    if i < j {
      SpanZerosDigits(s, i, j - 1);
      SpanZerosEnd(s, i, j);
    } else if j < SpanZeros(s, i) {
      assert s[i] == '0';
    }
  }

  lemma {:induction false} SpanZerosEnd(s: string, i: nat, j: nat)
    requires i <= j <= SpanZeros(s, i)
    ensures SpanZeros(s, j) == SpanZeros(s, i) && At(s, SpanZeros(s, i)) != '0'
    decreases j - i
  {
    if i < j {
      SpanZerosEnd(s, i, j - 1);
    } else if i < |s| && s[i] == '0' {
      AfterZeros(s, i);
    }
  }

  lemma {:induction false} AfterZeros(s: string, i: nat)
    ensures At(s, SpanZeros(s, i)) != '0'
    decreases |s| - i
  {
    if i < |s| && s[i] == '0' {
      AfterZeros(s, i + 1);
    }
  }

  lemma {:induction false} TrimEndAfterZeros(n: nat, t: seq<Digit>)
    ensures TrimEnd(ZeroDigits(n) + t) == if TrimEnd(t) == [] then [] else ZeroDigits(n) + TrimEnd(t)
  {
    if |t| == 0 {
      assert ZeroDigits(n) + t == ZeroDigits(n);
      TrimEndZeros(n);
    } else {
      var z := ZeroDigits(n) + t;
      assert z[..|z| - 1] == ZeroDigits(n) + t[..|t| - 1];
      TrimEndAfterZeros(n, t[..|t| - 1]);
    }
  }

  lemma {:induction false} TrimEndZeros(n: nat)
    ensures TrimEnd(ZeroDigits(n)) == []
  {
    if n > 0 {
      assert ZeroDigits(n)[..n - 1] == ZeroDigits(n - 1);
      TrimEndZeros(n - 1);
    }
  }

  lemma {:induction false} TrimStartAfterZeros(n: nat, t: seq<Digit>)
    requires |t| > 0 ==> t[0] != 0
    ensures TrimStart(ZeroDigits(n) + t) == t
  {
    if n == 0 {
      assert ZeroDigits(n) + t == t;
    } else {
      ZerosShift(n - 1);
      assert (ZeroDigits(n) + t)[1..] == ZeroDigits(n - 1) + t;
      assert (ZeroDigits(n) + t)[0] == 0;
      TrimStartAfterZeros(n - 1, t);
    }
  }

  lemma {:induction false} ZerosShift(n: nat)
    ensures ZeroDigits(n + 1) == [0] + ZeroDigits(n)
  {
    if n > 0 {
      ZerosShift(n - 1);
    }
  }

  lemma TrimEndFirst(ds: seq<Digit>)
    ensures |TrimEnd(ds)| > 0 ==> TrimEnd(ds)[0] == ds[0]
  {
    TrimEndSplit(ds);
  }

  lemma FirstDigit(s: string, i: nat, j: nat)
    requires i < j
    ensures DigitsOf(s, i, j)[0] == DigitOf(At(s, i))
  {
    DigitsOfSplit(s, i, i + 1, j);
    assert DigitsOf(s, i, i) == [];
  }

  /** Leading zeros of the fraction only count once a nonzero digit follows. */
  lemma FractionCore(n: nat, fq: seq<Digit>)
    requires |fq| > 0 ==> fq[0] != 0
    ensures var fp := ZeroDigits(n) + fq;
            TrimStart(TrimEnd(fp)) == TrimEnd(fq)
            && |TrimEnd(fp)| == (if |TrimEnd(fq)| == 0 then 0 else |TrimEnd(fq)| + n)
  {
    TrimEndAfterZeros(n, fq);
    TrimEndFirst(fq);
    if |TrimEnd(fq)| > 0 {
      TrimStartAfterZeros(n, TrimEnd(fq));
    }
  }

  lemma FractionParts(s: string, i: nat, first: nat, f: nat, fp: seq<Digit>, fq: seq<Digit>)
    requires first == SpanZeros(s, i) <= f == SpanDigits(s, first)
    requires fp == DigitsOf(s, i, f) && fq == DigitsOf(s, first, f)
    ensures TrimStart(TrimEnd(fp)) == TrimEnd(fq)
    ensures |TrimEnd(fp)| == (if |TrimEnd(fq)| == 0 then 0 else |TrimEnd(fq)| + first - i)
  {
    hide SpanZeros, SpanDigits, DigitsOf, TrimEnd, TrimStart, ZeroDigits, At;
    DigitsOfSplit(s, i, first, f);
    SpanZerosDigits(s, i, first);
    AfterZeros(s, i);
    if first < f {
      FirstDigit(s, first, f);
      SpanStart(s, first);
    }
    FractionCore(first - i, fq);
  }

  /** A nonempty run of digits starts with one. */
  lemma SpanStart(s: string, i: nat)
    ensures i < SpanDigits(s, i) ==> IsDigit(At(s, i))
  {
  }

  /** The scan of fpconv_strtod up to the point where the digits and the decimal
      exponent are known. */
  method Scan(s: string, p: nat) returns (r: Scanned)
    requires p <= |s|
    ensures r == ScanFrom(s, p)
  {
    hide SpanBlank, Unsigned;
    var a := SkipBlank(s, p);
    var b := a;
    if Peek(s, a) == '-' || Peek(s, a) == '+' {
      b := a + 1;
    }
    r := ScanUnsigned(s, b, Peek(s, a) == '-');
  }

  method ScanUnsigned(s: string, b: nat, neg: bool) returns (r: Scanned)
    requires b <= |s|
    ensures r == Unsigned(s, b, neg)
  {
    hide HexEnd, Mantissa;
    if Peek(s, b) == '\0' {
      return NoNumber;
    }
    if Peek(s, b) == '0' && (Peek(s, b + 1) == 'x' || Peek(s, b + 1) == 'X') {
      var e := GetHex(s, b);
      return HexNumber(e);
    }
    r := ScanMantissa(s, b, neg);
  }
}
