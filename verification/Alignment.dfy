/** Scaling numerator and divisor by a common power of two so that the
    divisor's top word has exactly four leading zero bits. */
module Alignment {
  import opened Words
  import opened Bigints
  import opened Division

  /** Shifting d left by k bits aligns it, whatever words hold the result. */
  ghost predicate AlignsBy(d: seq<Word>, k: nat)
  {
    forall s: seq<Word> :: Normal(s) && Value(s) == Value(d) * Pow(2, k) ==> Aligned(s)
  }

  /** The shift of dshift: leading zeros beyond four, less what is due, modulo 32. */
  function ShiftCount(h: nat, p2: nat): (r: nat)
    ensures r < 32 && (r + p2 + 4 - h) % 32 == 0
  {
    (if p2 > 0 then h - 4 - p2 else h - 4) % 32
  }

  /** How far to shift on top of p2 bits already due, modulo 32. */
  method Dshift(b: Bigint, p2: nat) returns (rv: nat)
    requires b.Normalised() && b.Num() > 0
    ensures rv < 32 && AlignsBy(b.Digits(), p2 + rv)
  {
    ghost var d := b.Digits();
    TopNonzero(d);
    var top := b.x[b.wds - 1];
    assert top == d[|d| - 1];
    var h := Hi0bits(top);
    rv := ShiftCount(h, p2);
    ShiftAlignsBy(d, h, p2 + rv);
  }

  lemma ShiftAlignsBy(b: seq<Word>, h: nat, k: nat)
    requires Normal(b) && h < 32 && 0x8000_0000 <= b[|b| - 1] * Pow(2, h) < 0x1_0000_0000
    requires (k + 4 - h) % 32 == 0
    ensures AlignsBy(b, k)
  {
    forall s: seq<Word> | Normal(s) && Value(s) == Value(b) * Pow(2, k)
      ensures Aligned(s)
    {
      ShiftAligns(b, h, k, s);
    }
  }

  /** A shift congruent to hi0bits - 4 modulo 32 leaves four leading zeros. */
  lemma ShiftAligns(b: seq<Word>, h: nat, k: nat, s: seq<Word>)
    requires Normal(b) && h < 32 && 0x8000_0000 <= b[|b| - 1] * Pow(2, h) < 0x1_0000_0000
    requires (k + 4 - h) % 32 == 0
    requires Normal(s) && Value(s) == Value(b) * Pow(2, k)
    ensures Aligned(s)
  {
    hide Pow, Value, Weight;
    var n := |b| - 1;
    var c := (k + 36 - h) / 32;
    assert k + 32 == 32 * (c - 1) + h + 28 && c >= 1;
    ValueTop(b);
    Scaled(b[n], Value(b), n, h);
    var v := Value(b) * Pow(2, h);
    ShiftParts(Value(b), k, h, c - 1);
    assert Value(s) * 0x1_0000_0000 == v * 0x1000_0000 * Weight(c - 1);
    Bracket(v, Value(s), n, c - 1);
    TopWord(s, n + c - 1);
  }

  lemma Scaled(t: nat, v: nat, n: nat, h: nat)
    requires t * Weight(n) <= v < (t + 1) * Weight(n)
    requires 0x8000_0000 <= t * Pow(2, h) < 0x1_0000_0000 && h < 32
    ensures 0x8000_0000 * Weight(n) <= v * Pow(2, h) < 0x1_0000_0000 * Weight(n)
  {
    var m, w := Pow(2, h), Weight(n);
    NextMultiple(t, h);
    PowPositive(2, h);
    MulMonotone(t * w, v, m);
    MulStrict(v, (t + 1) * w, m);
    Swap(t, w, m);
    Swap(t + 1, w, m);
    MulMonotone(0x8000_0000, t * m, w);
    MulMonotone((t + 1) * m, 0x1_0000_0000, w);
  }

  lemma Swap(a: int, b: int, c: int)
    ensures a * b * c == a * c * b
  {
    MulAssoc(a, b, c);
    MulAssoc(a, c, b);
  }

  /** 2^32 is a multiple of 2^h, so t*2^h below it leaves room for one more. */
  lemma NextMultiple(t: nat, h: nat)
    requires h < 32 && t * Pow(2, h) < 0x1_0000_0000
    ensures (t + 1) * Pow(2, h) <= 0x1_0000_0000
  {
    PowPositive(2, h);
    PowAdd(2, h, 32 - h);
    Pow2Of32();
    assert Pow(2, h) * Pow(2, 32 - h) == Pow(2, 32 - h) * Pow(2, h);
    MulCancelLess(t, Pow(2, 32 - h), Pow(2, h));
    MulMonotone(t + 1, Pow(2, 32 - h), Pow(2, h));
  }

  lemma ShiftParts(b: nat, k: nat, h: nat, c: nat)
    requires k + 32 == 32 * c + h + 28
    ensures b * Pow(2, k) * 0x1_0000_0000 == b * Pow(2, h) * 0x1000_0000 * Weight(c)
  {
    Pow2Of32();
    PowAdd(2, k, 32);
    PowAdd(2, h, 28);
    PowAdd(2, h + 28, 32 * c);
    WeightIsPow(c);
    assert Pow(2, 28) == 0x1000_0000 by {
      assert Pow(2, 7) == 128;
      PowAdd(2, 7, 7);
      PowAdd(2, 14, 14);
    }
    MulAssoc(b, Pow(2, k), 0x1_0000_0000);
    MulAssoc(b, Pow(2, h), 0x1000_0000);
    MulAssoc(b, Pow(2, h) * 0x1000_0000, Weight(c));
  }

  lemma Bracket(v: nat, s: nat, n: nat, c: nat)
    requires 0x8000_0000 * Weight(n) <= v < 0x1_0000_0000 * Weight(n)
    requires s * 0x1_0000_0000 == v * 0x1000_0000 * Weight(c)
    ensures 0x800_0000 * Weight(n + c) <= s < 0x1000_0000 * Weight(n + c)
  {
    WeightAdd(n, c);
    var w := Weight(c);
    MulMonotone(0x8000_0000 * Weight(n), v, w);
    MulStrict(v, 0x1_0000_0000 * Weight(n), w);
    MulAssoc(0x8000_0000, Weight(n), w);
    MulAssoc(0x1_0000_0000, Weight(n), w);
    assert v * 0x1000_0000 * w == 0x1000_0000 * (v * w) by { Swap(v, 0x1000_0000, w); }
  }

  lemma TopWord(s: seq<Word>, m: nat)
    requires Normal(s) && 0x800_0000 * Weight(m) <= Value(s) < 0x1000_0000 * Weight(m)
    ensures Aligned(s)
  {
    ValueTop(s);
    var n := |s| - 1;
    if n < m {
      WeightMonotone(n + 1, m);
      MulMonotone(s[n] + 1, 0x1_0000_0000, Weight(n));
    } else if n > m {
      WeightMonotone(m + 1, n);
      MulMonotone(1, s[n], Weight(n));
    } else {
      MulCancelLess(0x800_0000 - 1, s[n], Weight(m));
      MulCancelLess(s[n], 0x1000_0000, Weight(m));
    }
  }

  /** Lines 4152-4159 of dtoa: both numbers are scaled by 2^i on top of the
      factors 2^b2 and 2^s2 still pending, and the divisor ends up aligned. */
  method AlignDivisor(b: Bigint, S: Bigint, b2: nat, m2: nat, s2: nat)
    returns (b': Bigint, S': Bigint, m2': nat, ghost i: nat)
    requires b.Normalised() && S.Normalised() && b.Num() > 0 && S.Num() > 0 && Apart(b, S)
    ensures b'.Normalised() && S'.Normalised() && Apart(b', S') && Aligned(S'.Digits())
    ensures b'.Num() == b.Num() * Pow(2, b2 + i)
    ensures S'.Num() == S.Num() * Pow(2, s2 + i)
    ensures m2' == m2 + i && i < 32
    ensures b' == b || (fresh(b') && fresh(b'.x))
    ensures S' == S || (fresh(S') && fresh(S'.x))
  {
    var j := Dshift(S, s2);
    i := j;
    m2' := m2 + j;
    b', S' := b, S;
    assert Pow(2, 0) == 1;
    if b2 + j > 0 {
      b' := Lshift(b, b2 + j);
    }
    if s2 + j > 0 {
      S' := Lshift(S, s2 + j);
    }
    assert S'.Num() == S.Num() * Pow(2, s2 + i);
  }
}
