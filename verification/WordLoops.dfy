/** The carry and borrow loops of the multiword routines as functions on word
    sequences, each with the arithmetic fact that makes its loop correct. */
module WordLoops {
  import opened Words

  // ---------- multiply by a small number and add ----------

  /** A product plus the carry in a 64-bit accumulator: its low word and the rest. */
  function MulAddStep(x: Word, m: nat, c: nat): (r: (Word, nat))
    requires m < 0x8000_0000 && c < 0x8000_0000
    ensures r.1 < 0x8000_0000 && r.1 * 0x1_0000_0000 + r.0 == x * m + c
  {
    AccumulatorBound(x, m, c);
    var y := x * m + c;
    (y % 0x1_0000_0000, y / 0x1_0000_0000)
  }

  /** The words left by the multadd loop, and the carry out of it. */
  function MulAddWords(s: seq<Word>, m: nat, a: nat): (r: (seq<Word>, nat))
    requires m < 0x8000_0000 && a < 0x8000_0000
    ensures |r.0| == |s| && r.1 < 0x8000_0000
  {
    if |s| == 0 then ([], a)
    else
      var p := MulAddWords(s[..|s| - 1], m, a);
      var y := MulAddStep(s[|s| - 1], m, p.1);
      (p.0 + [y.0], y.1)
  }

  lemma MulAddWordsNext(s: seq<Word>, m: nat, a: nat, i: nat)
    requires m < 0x8000_0000 && a < 0x8000_0000 && i < |s|
    ensures var p := MulAddWords(s[..i], m, a);
            var y := MulAddStep(s[i], m, p.1);
            MulAddWords(s[..i + 1], m, a) == (p.0 + [y.0], y.1)
  {
    assert s[..i + 1][..i] == s[..i];
  }

  /** The 64-bit accumulator of multadd does not overflow. */
  lemma AccumulatorBound(x: int, m: int, c: int)
    requires 0 <= x < 0x1_0000_0000 && 0 <= m < 0x8000_0000 && 0 <= c < 0x8000_0000
    ensures 0 <= x * m + c < 0x8000_0000_0000_0000
  {
    MulMonotone(0, x, m);
    MulMonotone(x, 0xFFFF_FFFF, m);
  }

  lemma {:induction false} MulAddValue(s: seq<Word>, m: nat, a: nat, r: (seq<Word>, nat))
    requires m < 0x8000_0000 && a < 0x8000_0000 && r == MulAddWords(s, m, a)
    ensures Value(r.0) + r.1 * Weight(|s|) == Value(s) * m + a
  {
    if |s| > 0 {
      var n := |s| - 1;
      var p := MulAddWords(s[..n], m, a);
      MulAddValue(s[..n], m, a, p);
      var y := MulAddStep(s[n], m, p.1);
      ValueSnoc(p.0, y.0);
      RowStep(Value(p.0), a, Value(s[..n]), s[n], m, 0, p.1, y.1, y.0,
        Weight(n), Value(r.0), a, Value(s), Weight(|s|));
    }
  }

  lemma ValueSnoc(s: seq<Word>, w: Word)
    ensures Value(s + [w]) == Value(s) + w * Weight(|s|)
  {
    assert (s + [w])[..|s|] == s;
  }

  lemma MulAddAlgebra(v: int, x: int, m: int, c: int, p: int)
    ensures (v + x * p) * m == v * m + (x * m + c) * p - c * p
  {
    assert (v + x * p) * m == v * m + (x * p) * m;
    assert (x * m + c) * p == (x * m) * p + c * p;
    MulAssoc(x, m, p);
    MulAssoc(x, p, m);
  }

  /** A nonzero top word gives a nonzero carry or a nonzero top word. */
  lemma MulAddTop(s: seq<Word>, m: nat, a: nat)
    requires 0 < m < 0x8000_0000 && a < 0x8000_0000 && |s| > 0 && s[|s| - 1] != 0
    ensures var r := MulAddWords(s, m, a); r.1 != 0 || r.0[|s| - 1] != 0
  {
    MulMonotone(1, s[|s| - 1], m);
  }

  // ---------- subtraction ----------

  /** A difference less the borrow in wrapping 64-bit arithmetic: its low word,
      and its bit 32 as the next borrow. */
  function SubWord(x: Word, s: Word, borrow: int): (r: (Word, int))
    requires 0 <= borrow <= 1
    ensures 0 <= r.1 <= 1 && r.0 - 0x1_0000_0000 * r.1 == x - s - borrow
  {
    var y := (x - s - borrow) % 0x1_0000_0000_0000_0000;
    (y % 0x1_0000_0000, (y / 0x1_0000_0000) % 2)
  }

  /** The words left by a subtraction loop over words of equal count. */
  function SubWords(s: seq<Word>, t: seq<Word>): (r: (seq<Word>, int))
    requires |s| == |t|
    ensures |r.0| == |s| && 0 <= r.1 <= 1
  {
    if |s| == 0 then ([], 0)
    else
      var p := SubWords(s[..|s| - 1], t[..|t| - 1]);
      var y := SubWord(s[|s| - 1], t[|t| - 1], p.1);
      (p.0 + [y.0], y.1)
  }

  lemma SubWordsNext(s: seq<Word>, t: seq<Word>, i: nat)
    requires i < |s| && i < |t|
    ensures var p := SubWords(s[..i], t[..i]);
            var y := SubWord(s[i], t[i], p.1);
            SubWords(s[..i + 1], t[..i + 1]) == (p.0 + [y.0], y.1)
  {
    assert s[..i + 1][..i] == s[..i] && t[..i + 1][..i] == t[..i];
  }

  lemma BorrowStep(w: int, b: int, x: int, y: int, c: int, p: int)
    requires w - 0x1_0000_0000 * b == x - y - c
    ensures w * p - b * (0x1_0000_0000 * p) == x * p - y * p - c * p
  {
    MulAssoc(b, 0x1_0000_0000, p);
    assert (w - 0x1_0000_0000 * b) * p == w * p - (b * 0x1_0000_0000) * p;
    assert (x - y - c) * p == x * p - y * p - c * p;
  }

  /** A digit of weight p that is all that separates two numbers below p. */
  lemma NoCarryOut(r: int, e: int, p: int, d: int)
    requires 0 <= r < p && 0 <= e && 0 <= d && r - e * p == d
    ensures e == 0 && r == d
  {
    if e > 0 {
      MulMonotone(1, e, p);
    }
  }

  lemma {:induction false} SubValue(s: seq<Word>, t: seq<Word>)
    requires |s| == |t|
    ensures var r := SubWords(s, t);
            Value(r.0) - r.1 * Weight(|s|) == Value(s) - Value(t)
  {
    if |s| > 0 {
      var n := |s| - 1;
      SubValue(s[..n], t[..n]);
      var p := SubWords(s[..n], t[..n]);
      var y := SubWord(s[n], t[n], p.1);
      var q := Weight(n);
      ValueSnoc(p.0, y.0);
      BorrowStep(y.0, y.1, s[n], t[n], p.1, q);
    }
  }

  /** Subtracting the smaller number leaves no borrow. */
  lemma SubExact(s: seq<Word>, t: seq<Word>, r: (seq<Word>, int))
    requires |s| == |t| && Value(t) <= Value(s) && r == SubWords(s, t)
    ensures r.1 == 0 && Value(r.0) == Value(s) - Value(t)
  {
    SubValue(s, t);
    ValueBound(r.0);
    NoCarryOut(Value(r.0), r.1, Weight(|s|), Value(s) - Value(t));
  }

  /** s followed by zero words up to length n. */
  function Padded(s: seq<Word>, n: nat): (r: seq<Word>)
    requires |s| <= n
    ensures |r| == n && forall i :: 0 <= i < n ==> r[i] == if i < |s| then s[i] else 0
  {
    s + seq(n - |s|, _ => 0)
  }

  lemma PaddedValue(s: seq<Word>, n: nat)
    requires |s| <= n
    ensures Value(Padded(s, n)) == Value(s)
  {
    ValueTrim(Padded(s, n), |s|);
    assert Padded(s, n)[..|s|] == s;
  }

  // ---------- subtracting a small multiple ----------

  /** Subtracting q*t word by word, with the carry of the product and the
      borrow of the difference kept apart: when the multiple fits, both vanish. */
  lemma SubMulExact(s: seq<Word>, t: seq<Word>, q: nat, m: (seq<Word>, nat), r: (seq<Word>, int))
    requires |s| == |t| && q < 0x8000_0000 && q * Value(t) <= Value(s)
    requires m == MulAddWords(t, q, 0) && r == SubWords(s, m.0)
    ensures r.1 == 0 && m.1 == 0 && Value(r.0) == Value(s) - q * Value(t)
  {
    MulAddValue(t, q, 0, m);
    SubValue(s, m.0);
    ValueBound(r.0);
    assert Value(t) * q == q * Value(t);
    Distribute(r.1, m.1, Weight(|s|));
    NoCarryOut(Value(r.0), r.1 + m.1, Weight(|s|), Value(s) - q * Value(t));
  }

  lemma Distribute(a: int, b: int, c: int)
    ensures (a + b) * c == a * c + b * c
  {
  }

  // ---------- adding a multiple ----------

  /** A product plus a word plus the carry in a 64-bit accumulator: its low and
      high words. */
  function MulAccStep(x: Word, y: Word, c: Word, carry: Word): (r: (Word, Word))
    ensures r.1 * 0x1_0000_0000 + r.0 == x * y + c + carry
  {
    RowBound(x, y, c, carry);
    var z := x * y + c + carry;
    (z % 0x1_0000_0000, z / 0x1_0000_0000)
  }

  /** The words left by one row of the schoolbook product. */
  function MulAccWords(c: seq<Word>, s: seq<Word>, y: Word): (r: (seq<Word>, Word))
    requires |c| == |s|
    ensures |r.0| == |s|
  {
    if |s| == 0 then ([], 0)
    else
      var p := MulAccWords(c[..|c| - 1], s[..|s| - 1], y);
      var z := MulAccStep(s[|s| - 1], y, c[|c| - 1], p.1);
      (p.0 + [z.0], z.1)
  }

  /** The 64-bit accumulator of mult does not overflow. */
  lemma RowBound(x: int, y: int, c: int, carry: int)
    requires 0 <= x < 0x1_0000_0000 && 0 <= y < 0x1_0000_0000 && 0 <= c < 0x1_0000_0000 && 0 <= carry < 0x1_0000_0000
    ensures 0 <= x * y + c + carry < 0x1_0000_0000_0000_0000
  {
    MulMonotone(0, x, y);
    MulMonotone(x, 0xFFFF_FFFF, y);
  }

  lemma MulAccWordsNext(c: seq<Word>, s: seq<Word>, y: Word, i: nat)
    requires i < |c| && i < |s|
    ensures var p := MulAccWords(c[..i], s[..i], y);
            var z := MulAccStep(s[i], y, c[i], p.1);
            MulAccWords(c[..i + 1], s[..i + 1], y) == (p.0 + [z.0], z.1)
  {
    assert s[..i + 1][..i] == s[..i] && c[..i + 1][..i] == c[..i];
  }

  lemma {:induction false} MulAccValue(c: seq<Word>, s: seq<Word>, y: Word, r: (seq<Word>, Word))
    requires |c| == |s| && r == MulAccWords(c, s, y)
    ensures Value(r.0) + r.1 * Weight(|s|) == Value(c) + Value(s) * y
  {
    if |s| > 0 {
      var n := |s| - 1;
      var p := MulAccWords(c[..n], s[..n], y);
      MulAccValue(c[..n], s[..n], y, p);
      var z := MulAccStep(s[n], y, c[n], p.1);
      ValueSnoc(p.0, z.0);
      RowStep(Value(p.0), Value(c[..n]), Value(s[..n]), s[n], y, c[n], p.1, z.1, z.0,
        Weight(n), Value(r.0), Value(c), Value(s), Weight(|s|));
    }
  }

  lemma RowStep(lo: int, u: int, v: int, x: int, y: int, c: int, carry: int, h: int, l: int, p: int,
                lo': int, u': int, v': int, p': int)
    requires lo' == lo + l * p && u' == u + c * p && v' == v + x * p && p' == 0x1_0000_0000 * p
    requires lo + carry * p == u + v * y
    requires x * y + c + carry == h * 0x1_0000_0000 + l
    ensures lo' + h * p' == u' + v' * y
  {
    Distribute(h * 0x1_0000_0000, l, p);
    MulAssoc(h, 0x1_0000_0000, p);
    MulAddAlgebra(v, x, y, c + carry, p);
    Distribute(c, carry, p);
  }

  // ---------- shifting ----------

  /** The words left by the lshift loop for 0 < e < 32, and the bits shifted
      out at the top. The bits or-ed in never overlap, so `|` is a sum. */
  function ShiftWords(s: seq<Word>, e: nat): (r: (seq<Word>, Word))
    requires 0 < e < 32
    ensures |r.0| == |s| && r.1 < Pow(2, e)
  {
    PowPositive(2, e);
    PowPositive(2, 32 - e);
    if |s| == 0 then ([], 0)
    else
      var p := ShiftWords(s[..|s| - 1], e);
      ShiftWord(s[|s| - 1], e);
      (p.0 + [(s[|s| - 1] * Pow(2, e)) % 0x1_0000_0000 + p.1], s[|s| - 1] / Pow(2, 32 - e))
  }

  /** One more word shifted. */
  lemma ShiftNext(s: seq<Word>, i: nat, e: nat, done: seq<Word>, z: Word)
    requires i < |s| && 0 < e < 32 && (done, z) == ShiftWords(s[..i], e)
    ensures Pow(2, 32 - e) > 0 && 0 <= s[i] / Pow(2, 32 - e) < 0x1_0000_0000
    ensures 0 <= (s[i] * Pow(2, e)) % 0x1_0000_0000 + z < 0x1_0000_0000
    ensures (done + [(s[i] * Pow(2, e)) % 0x1_0000_0000 + z], s[i] / Pow(2, 32 - e)) == ShiftWords(s[..i + 1], e)
  {
    hide Pow;
    assert s[..i + 1][..i] == s[..i];
    ShiftWord(s[i], e);
    DivBounds(s[i], Pow(2, 32 - e));
  }

  lemma SplitWord(x: int, m: int, h: int)
    requires 0 <= x < 0x1_0000_0000 && m > 0 && h > 0 && m * h == 0x1_0000_0000
    ensures x * m == (x / h) * 0x1_0000_0000 + (x % h) * m
    ensures 0 <= x / h < m && 0 <= (x % h) * m <= 0x1_0000_0000 - m
  {
    DivBounds(x, h);
    var q, r := x / h, x % h;
    Distribute(h * q, r, m);
    MulAssoc(q, h, m);
    MulMonotone(r, h - 1, m);
    Distribute(h, -1, m);
    if q >= m {
      MulMonotone(m, q, h);
    }
  }

  lemma ShiftWord(x: int, e: nat)
    requires 0 <= x < 0x1_0000_0000 && 0 < e < 32
    ensures Pow(2, 32 - e) > 0 && Pow(2, e) > 0
    ensures x * Pow(2, e) == (x / Pow(2, 32 - e)) * 0x1_0000_0000 + (x * Pow(2, e)) % 0x1_0000_0000
    ensures 0 <= x / Pow(2, 32 - e) < Pow(2, e)
    ensures 0 <= (x * Pow(2, e)) % 0x1_0000_0000 <= 0x1_0000_0000 - Pow(2, e)
  {
    PowPositive(2, e);
    PowPositive(2, 32 - e);
    PowAdd(2, e, 32 - e);
    Pow2Of32();
    ShiftWordAux(x, Pow(2, e), Pow(2, 32 - e));
  }

  lemma ShiftWordAux(x: int, m: int, h: int)
    requires 0 <= x < 0x1_0000_0000 && m > 0 && h > 0 && m * h == 0x1_0000_0000
    ensures x * m == (x / h) * 0x1_0000_0000 + (x * m) % 0x1_0000_0000
    ensures 0 <= x / h < m && 0 <= (x * m) % 0x1_0000_0000 <= 0x1_0000_0000 - m
  {
    SplitWord(x, m, h);
    var q, r := x / h, (x % h) * m;
    assert x * m == q * 0x1_0000_0000 + r && 0 <= r < 0x1_0000_0000;
  }

  lemma {:induction false} ShiftValue(s: seq<Word>, e: nat, r: (seq<Word>, Word))
    requires 0 < e < 32 && r == ShiftWords(s, e)
    ensures Value(r.0) + r.1 * Weight(|s|) == Value(s) * Pow(2, e)
  {
    if |s| > 0 {
      var n := |s| - 1;
      var p := ShiftWords(s[..n], e);
      ShiftValue(s[..n], e, p);
      ShiftWord(s[n], e);
      var h, lo := s[n] / Pow(2, 32 - e), (s[n] * Pow(2, e)) % 0x1_0000_0000;
      ValueSnoc(p.0, lo + p.1);
      RowStep(Value(p.0), 0, Value(s[..n]), s[n], Pow(2, e), 0, p.1, h, lo + p.1,
        Weight(n), Value(r.0), 0, Value(s), Weight(|s|));
    }
  }

  lemma ShiftTop(s: seq<Word>, e: nat)
    requires 0 < e < 32 && |s| > 0 && s[|s| - 1] != 0
    ensures var r := ShiftWords(s, e); r.1 != 0 || r.0[|s| - 1] != 0
  {
    var n := |s| - 1;
    ShiftWord(s[n], e);
    MulMonotone(1, s[n], Pow(2, e));
  }
}
