/** The fixed-precision digit loop of dtoa (mode 2): at most ilim digits,
    correctly rounded. */
module FixedPrecision {
  import opened Words
  import opened Bigints
  import opened Division
  import opened Decimals

  /** b is the caller's block or a newer one, and never the divisor's. */
  twostate predicate Owned(b0: Bigint, new b: Bigint)
  {
    b == b0 || (fresh(b) && fresh(b.x))
  }

  /** One quotient digit; the numerator becomes the remainder. */
  method NextDigit(b: Bigint, S: Bigint, ghost n: nat, ghost s: nat, ghost i: nat) returns (dig: Digit)
    requires b.Normalised() && S.Normalised() && Apart(b, S) && Aligned(S.Digits())
    requires 0 < s == S.Num() && n < 10 * s && b.Num() == Numerator(n, s, i)
    modifies b`wds, b.x
    ensures b.Trimmed() && b.Num() == LongDivision(n, s, i + 1).1 < s
    ensures LongDivision(n, s, i + 1).0 == LongDivision(n, s, i).0 + [dig]
    ensures i == 0 && s <= n ==> dig != 0
    ensures b.Num() == 0 && old(b.Num()) > 0 ==> dig != 0
    ensures b.wds == 0 <==> S.wds == 1 && b.Num() == 0 && dig != 0
  {
    DigitRange(n, s, i + 1);
    NumeratorBound(n, s, i);
    QuoRem(b.Num(), s);
    dig := Quorem(b, S);
  }

  lemma NumeratorBound(n: nat, s: nat, i: nat)
    requires s > 0 && n < 10 * s
    ensures Numerator(n, s, i) < 10 * s
  {
    if i > 0 {
      LeadingRemainder(n, s, i);
    }
  }

  /** The loop itself, up to the point where it stops. */
  method Generate(b0: Bigint, S: Bigint, ilim: nat) returns (ds: seq<Digit>, b: Bigint)
    requires b0.Normalised() && S.Normalised() && Apart(b0, S) && Aligned(S.Digits())
    requires 0 < S.Num() <= b0.Num() < 10 * S.Num() && ilim >= 1
    modifies b0, b0.x
    ensures Owned(b0, b) && Apart(b, S) && b.Trimmed() && S.Normalised() && S.Num() == old(S.Num())
    ensures 1 <= |ds| <= ilim && ds[0] != 0
    ensures (ds, b.Num()) == LongDivision(old(b0.Num()), S.Num(), |ds|)
    ensures b.Num() > 0 ==> |ds| == ilim
    ensures b.Num() == 0 ==> ds[|ds| - 1] != 0
  {
    hide Value, Weight, Aligned;
    ghost var n, s := b0.Num(), S.Num();
    b := b0;
    ds := [];
    var i := 1;
    while true
      invariant i == |ds| + 1 <= ilim
      invariant Owned(b0, b) && Apart(b, S) && b.Normalised()
      invariant S.Normalised() && S.Num() == s && Aligned(S.Digits())
      invariant b.Num() == Numerator(n, s, |ds|) > 0 && ds == LongDivision(n, s, |ds|).0
      invariant |ds| > 0 ==> ds[0] != 0
      decreases ilim - i
    {
      var dig := NextDigit(b, S, n, s, |ds|);
      ds := ds + [dig];
      if b.IsZero() {
        break;
      }
      if i >= ilim {
        break;
      }
      b := Multadd(b, 10, 0);
      i := i + 1;
    }
  }

  /** The doubled remainder against the divisor: whether the last digit is
      rounded up. */
  method RoundsUp(b: Bigint, S: Bigint, dig: Digit) returns (up: bool)
    requires b.Trimmed() && S.Normalised() && Apart(b, S) && b.Num() > 0
    ensures up <==> 2 * b.Num() > S.Num() || (2 * b.Num() == S.Num() && dig % 2 == 1)
  {
    ZeroWords1(b.Digits());
    var b1 := Lshift(b, 1);
    assert Pow(2, 1) == 2;
    var j := Cmp(b1, S);
    up := j > 0 || (j == 0 && dig % 2 == 1);
  }

  /** Rounding off the last digit when a remainder is left. */
  method RoundOff(ds0: seq<Digit>, b: Bigint, S: Bigint, ghost a: nat, ghost s: nat)
    returns (ds: seq<Digit>, carry: nat)
    requires b.Trimmed() && S.Normalised() && Apart(b, S) && 0 < b.Num() < S.Num() == s
    requires |ds0| >= 1 && ds0[0] != 0 && DecVal(ds0) * s + b.Num() == a
    ensures Tight(ds) && |ds| <= |ds0| && carry <= 1 && (carry == 1 ==> ds == [1])
    ensures NearestEven(DecVal(ds) * Pow(10, |ds0| - |ds| + carry), a, s)
    ensures carry == 1 <==> DecVal(ds) * Pow(10, |ds0| - |ds| + carry) == Pow(10, |ds0|)
  {
    var up := RoundsUp(b, S, ds0[|ds0| - 1]);
    RoundQuotient(DecVal(ds0), b.Num(), a, s);
    LastDigitParity(ds0);
    DecBounds(ds0);
    if up {
      ds, carry := RoundUp(ds0);
    } else {
      ds := TrimDigits(ds0);
      carry := 0;
    }
  }

  /** Mode 2: the digits and the exponent of b/S * 10^k rounded to ilim
      significant digits, ties to even, without trailing zeros. The exponent
      grows by one exactly when the rounding carries through every digit. */
  method FixedDigits(b0: Bigint, S: Bigint, ilim: nat, k: int) returns (ds: seq<Digit>, k': int)
    requires b0.Normalised() && S.Normalised() && Apart(b0, S) && Aligned(S.Digits())
    requires 0 < S.Num() <= b0.Num() < 10 * S.Num() && ilim >= 1
    modifies b0, b0.x
    ensures Tight(ds) && |ds| <= ilim && k <= k' <= k + 1
    ensures NearestEven(DecVal(ds) * Pow(10, ilim - |ds| + (k' - k)), old(b0.Num()) * Pow(10, ilim - 1), S.Num())
    ensures k' == k + 1 <==> DecVal(ds) * Pow(10, ilim - |ds| + (k' - k)) == Pow(10, ilim)
    ensures k' == k + 1 ==> ds == [1]
  {
    ghost var n, s := b0.Num(), S.Num();
    var b;
    ds, b := Generate(b0, S, ilim);
    ghost var a := Generated(n, s, ds, b.Num());
    k' := k;
    if b.IsZero() {
      ExactResult(ds, n, s, ilim);
    } else {
      var carry;
      ds, carry := RoundOff(ds, b, S, a, s);
      k' := k' + carry;
    }
  }

  lemma Generated(n: nat, s: nat, ds: seq<Digit>, r: nat) returns (a: nat)
    requires s > 0 && |ds| >= 1 && (ds, r) == LongDivision(n, s, |ds|)
    ensures a == n * Pow(10, |ds| - 1) && DecVal(ds) * s + r == a && r < s
    ensures r == 0 ==> Exact(ds, n, s)
  {
    LeadingIsDecVal(n, s, |ds|, ds);
    LeadingRemainder(n, s, |ds|);
    a := n * Pow(10, |ds| - 1);
  }

  ghost predicate Exact(ds: seq<Digit>, n: nat, s: nat)
    requires |ds| >= 1
  {
    DecVal(ds) * s == n * Pow(10, |ds| - 1)
  }

  lemma LastDigitParity(ds: seq<Digit>)
    requires |ds| > 0
    ensures DecVal(ds) % 2 == ds[|ds| - 1] % 2
  {
    var n := |ds| - 1;
    TensAreEven(DecVal(ds[..n]), ds[n]);
  }

  lemma TensAreEven(x: nat, d: nat)
    ensures (10 * x + d) % 2 == d % 2
  {
    assert 10 * x + d == 2 * (5 * x) + d;
  }

  /** Stopping at a zero remainder: the digits are exact, and the last of them
      is not zero because the remainder before it was not. */
  lemma ExactResult(ds: seq<Digit>, n: nat, s: nat, ilim: nat)
    requires s > 0 && 1 <= |ds| <= ilim && ds[0] != 0
    requires Exact(ds, n, s)
    ensures NearestEven(DecVal(ds) * Pow(10, ilim - |ds|), n * Pow(10, ilim - 1), s)
    ensures DecVal(ds) * Pow(10, ilim - |ds|) < Pow(10, ilim)
  {
    var e := ilim - |ds|;
    PowAdd(10, |ds| - 1, e);
    PowAdd(10, |ds|, e);
    MulAssoc(n, Pow(10, |ds| - 1), Pow(10, e));
    MulAssoc(DecVal(ds), Pow(10, e), s);
    MulAssoc(DecVal(ds), s, Pow(10, e));
    DecBounds(ds);
    PowPositive(10, e);
    MulStrict(DecVal(ds), Pow(10, |ds|), Pow(10, e));
  }
}
