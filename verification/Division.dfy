/** Single-digit division with an estimated quotient (quorem), and the
    alignment of the divisor that makes the estimate good (dshift). */
module Division {
  import opened Words
  import opened WordLoops
  import opened Bigints

  /** The top word of S has exactly four leading zero bits. */
  predicate Aligned(s: seq<Word>)
  {
    |s| >= 1 && 0x800_0000 <= s[|s| - 1] < 0x1000_0000
  }

  // ---------- the quotient estimate ----------

  /** The estimate: the top word over the divisor's top word plus one, which must
      not wrap round to zero. */
  function TopQuotient(tb: Word, ts: Word): (q: nat)
    requires ts < 0xFFFF_FFFF
  {
    DivBounds(tb, ts + 1);
    tb as int / (ts as int + 1)
  }

  /** With the top words known, top(b)/(top(S)+1) never exceeds the quotient
      and is at most one too small. */
  lemma EstimateBounds(b: nat, s: nat, tb: nat, ts: nat, w: nat, q: nat)
    requires w > 0 && tb * w <= b < (tb + 1) * w && ts * w <= s < (ts + 1) * w
    requires ts >= 10 && b < 10 * s && q == tb / (ts + 1)
    ensures q * s <= b < q * s + 2 * s && q < 10
    ensures q == 9 ==> b < q * s + s
  {
    DivBounds(tb, ts + 1);
    EstimateBelow(b, s, tb, ts, w, q);
    if q >= 10 {
      MulMonotone(10, q, s);
    }
    EstimateAbove(b, s, tb, ts, w, q);
    assert (q + 2) * s == q * s + 2 * s;
  }

  lemma EstimateBelow(b: nat, s: nat, tb: nat, ts: nat, w: nat, q: nat)
    requires tb * w <= b && s < (ts + 1) * w && (ts + 1) * q <= tb
    ensures q * s <= b
  {
    MulMonotone(s, (ts + 1) * w, q);
    MulMonotone((ts + 1) * q, tb, w);
    MulAssoc(ts + 1, w, q);
    MulAssoc(ts + 1, q, w);
  }

  lemma EstimateAbove(b: nat, s: nat, tb: nat, ts: nat, w: nat, q: nat)
    requires b < (tb + 1) * w && ts * w <= s && tb + 1 <= (q + 1) * (ts + 1) && q < 10 <= ts && w > 0
    ensures b < (q + 2) * s
  {
    // (q+1)*(ts+1) <= (q+2)*ts because q+1 <= ts
    assert (q + 1) * (ts + 1) == (q + 1) * ts + q + 1;
    assert (q + 2) * ts == (q + 1) * ts + ts;
    MulMonotone(tb + 1, (q + 2) * ts, w);
    MulAssoc(q + 2, ts, w);
    MulMonotone(ts * w, s, q + 2);
    assert (q + 2) * (ts * w) == (ts * w) * (q + 2) && s * (q + 2) == (q + 2) * s;
  }

  /** q copies of s: the product q*s, kept linear for the solver. */
  ghost function Times(q: nat, s: nat): (d: nat)
  {
    if q == 0 then 0 else s + Times(q - 1, s)
  }

  lemma {:induction false} TimesIsProduct(q: nat, s: nat)
    ensures Times(q, s) == q * s
  {
    if q > 0 {
      TimesIsProduct(q - 1, s);
      assert q * s == (q - 1) * s + s;
    } else {
      assert q * s == 0;
    }
  }

  // ---------- the word loop of quorem ----------

  lemma SubMulNext(s: seq<Word>, t: seq<Word>, q: nat, i: nat, prod: seq<Word>, carry: nat, done: seq<Word>,
                   borrow: int)
    requires i < |s| == |t| && q < 0x8000_0000 && carry < 0x8000_0000 && 0 <= borrow <= 1
    requires |prod| == i && (prod, carry) == MulAddWords(t[..i], q, 0) && (done, borrow) == SubWords(s[..i], prod)
    ensures var ys := MulAddStep(t[i], q, carry);
            var y := SubWord(s[i], ys.0, borrow);
            (prod + [ys.0], ys.1) == MulAddWords(t[..i + 1], q, 0)
            && (done + [y.0], y.1) == SubWords(s[..i + 1], prod + [ys.0])
  {
    MulAddWordsNext(t, q, 0, i);
    var next := prod + [MulAddStep(t[i], q, carry).0];
    assert next[..i] == prod && next[..i + 1] == next;
    SubWordsNext(s, next, i);
  }

  /** Subtracts q times the words of sx, a number d in all, from those of bx. */
  method SubMulLoop(bx: array<Word>, sx: array<Word>, n: nat, q: nat, ghost d: nat)
    requires bx != sx && 1 <= n <= bx.Length && n <= sx.Length && q < 0x8000_0000
    requires d == Times(q, Value(sx[..n])) && d <= Value(bx[..n])
    modifies bx
    ensures Value(bx[..n]) == old(Value(bx[..n])) - d
  {
    ghost var s, t := bx[..n], sx[..n];
    SubMulWords(bx, sx, n, q, s, t);
    SubMulDone(s, t, q, bx[..n]);
  }

  lemma SubMulDone(s: seq<Word>, t: seq<Word>, q: nat, r: seq<Word>)
    requires |s| == |t| && q < 0x8000_0000 && Times(q, Value(t)) <= Value(s)
    requires r == SubWords(s, MulAddWords(t, q, 0).0).0
    ensures Value(r) == Value(s) - Times(q, Value(t))
  {
    TimesIsProduct(q, Value(t));
    var m := MulAddWords(t, q, 0);
    SubMulExact(s, t, q, m, SubWords(s, m.0));
  }

  /** The loop: a running product word and a running borrow. */
  method SubMulWords(bx: array<Word>, sx: array<Word>, n: nat, q: nat, ghost s: seq<Word>, ghost t: seq<Word>)
    requires bx != sx && n <= bx.Length && n <= sx.Length && q < 0x8000_0000
    requires s == bx[..n] && t == sx[..n]
    modifies bx
    ensures bx[..n] == SubWords(s, MulAddWords(t, q, 0).0).0
  {
    ghost var prod, done: seq<Word> := [], [];
    var i, carry, borrow := 0, 0, 0;
    while i < n
      invariant 0 <= i <= n && |done| == i && 0 <= carry < 0x8000_0000 && 0 <= borrow <= 1 && |prod| == i
      invariant (prod, carry as nat) == MulAddWords(t[..i], q, 0)
      invariant (done, borrow) == SubWords(s[..i], prod)
      invariant forall k :: 0 <= k < i ==> bx[k] == done[k]
      invariant forall k :: i <= k < n ==> bx[k] == s[k]
    {
      var ys := MulAddStep(sx[i], q, carry);
      var y := SubWord(bx[i], ys.0, borrow);
      SubMulNext(s, t, q, i, prod, carry, done, borrow);
      prod := prod + [ys.0];
      carry := ys.1;
      borrow := y.1;
      bx[i] := y.0;
      done := done + [y.0];
      i := i + 1;
    }
    assert t[..n] == t && s[..n] == s && bx[..n] == done;
  }

  /** Drops the zero words from word n down, but looks at no word below the
      second: for n == 0 the word count becomes 0. */
  method DropZeros(b: Bigint, n0: nat)
    requires b.Valid() && b.wds == n0 + 1
    modifies b`wds
    ensures b.Trimmed() && b.Num() == old(b.Num())
    ensures b.wds == 0 <==> n0 == 0 && b.x[0] == 0
    ensures b.wds <= n0 + 1 && (b.wds == n0 + 1 <==> b.x[n0] != 0)
  {
    if b.x[n0] == 0 {
      ValueTrim(b.x[..n0 + 1], n0);
      assert b.x[..n0 + 1][..n0] == b.x[..n0];
      var n, e := n0, n0 - 1;
      while e > 0 && b.x[e] == 0
        invariant n0 > 0 ==> 1 <= n <= n0 && e == n - 1
        invariant n0 == 0 ==> n == 0 && e == -1
        invariant Value(b.x[..n]) == old(b.Num())
        decreases n
      {
        ValueTrim(b.x[..n], n - 1);
        assert b.x[..n][..n - 1] == b.x[..n - 1];
        n, e := n - 1, e - 1;
      }
      b.wds := n;
    }
  }

  /** Divides b by S in place: returns floor(b/S) and leaves b mod S. The
      remainder has no leading zero word; only when S is a single word and the
      remainder is zero may its word count drop to 0 instead of 1. */
  method Quorem(b: Bigint, S: Bigint) returns (q: nat)
    requires b.Normalised() && S.Normalised() && Apart(b, S)
    requires Aligned(S.Digits()) && b.Num() < 10 * S.Num()
    modifies b`wds, b.x
    ensures S.Num() > 0 && q == old(b.Num()) / S.Num() && q < 10
    ensures b.Trimmed() && b.Num() == old(b.Num()) % S.Num()
    ensures b.wds == 0 <==> S.wds == 1 && b.Num() == 0 && old(b.Num()) >= S.Num()
  {
    ghost var b0, s := b.Num(), S.Num();
    q := Divide(b, S);
    Quotient(b0, s, q, b.Num());
  }

  lemma Quotient(b0: nat, s: nat, q: nat, r: nat)
    requires b0 == Times(q, s) + r && r < s
    ensures q == b0 / s && r == b0 % s
    ensures b0 >= s <==> q > 0
  {
    TimesIsProduct(q, s);
    DivUnique(b0, s, q, r);
  }

  /** The three stages of quorem. */
  method Divide(b: Bigint, S: Bigint) returns (q: nat)
    requires b.Normalised() && S.Normalised() && Apart(b, S)
    requires Aligned(S.Digits()) && b.Num() < 10 * S.Num()
    modifies b`wds, b.x
    ensures q < 10 && b.Trimmed() && b.Num() < S.Num()
    ensures old(b.Num()) == Times(q, S.Num()) + b.Num()
    ensures b.wds == 0 <==> S.wds == 1 && b.Num() == 0 && q > 0
  {
    WordsWithin(b.Digits(), S.Digits());
    AlignedPositive(S.Digits());
    assert b.Digits()[b.wds - 1] == b.x[b.wds - 1];
    if b.wds < S.wds {
      LongerIsLarger(b.Digits(), S.Digits());
      return 0;
    }
    q := SubtractEstimate(b, S);
    q := Finish(b, S, q);
  }

  /** Takes off S as often as the top words allow: never more often than the
      true quotient, and at most once too seldom. */
  method SubtractEstimate(b: Bigint, S: Bigint) returns (q: nat)
    requires b.Normalised() && S.Normalised() && Apart(b, S) && b.wds == S.wds
    requires Aligned(S.Digits()) && b.Num() < 10 * S.Num()
    modifies b`wds, b.x
    ensures b.Trimmed() && b.wds <= S.wds
    ensures b.wds == 0 <==> S.wds == 1 && b.Num() == 0 && q > 0
    ensures q < 10 && b.Num() < 2 * S.Num() && (q == 9 ==> b.Num() < S.Num())
    ensures old(b.Num()) == Times(q, S.Num()) + b.Num()
  {
    q := TopQuotient(b.x[S.wds - 1], S.x[S.wds - 1]);
    EstimateWords(b.Digits(), S.Digits(), q);
    if q != 0 {
      SubMulLoop(b.x, S.x, S.wds, q, Times(q, S.Num()));
      DropZeros(b, S.wds - 1);
    }
  }

  lemma EstimateWords(b: seq<Word>, s: seq<Word>, q: nat)
    requires |b| == |s| && Aligned(s) && Value(b) < 10 * Value(s)
    requires q == TopQuotient(b[|b| - 1], s[|s| - 1])
    ensures q < 10 && Times(q, Value(s)) <= Value(b) < Times(q, Value(s)) + 2 * Value(s)
    ensures q == 9 ==> Value(b) < Times(q, Value(s)) + Value(s)
  {
    var n := |s| - 1;
    ValueTop(b);
    ValueTop(s);
    EstimateBounds(Value(b), Value(s), b[n], s[n], Weight(n), q);
    TimesIsProduct(q, Value(s));
  }

  lemma AlignedPositive(s: seq<Word>)
    requires Aligned(s)
    ensures Value(s) > 0
  {
    ValueTop(s);
    MulStrict(0, s[|s| - 1], Weight(|s| - 1));
  }

  /** A dividend below ten times an aligned divisor has no more words. */
  lemma WordsWithin(b: seq<Word>, s: seq<Word>)
    requires Normal(b) && Aligned(s) && Value(b) < 10 * Value(s)
    ensures |b| <= |s|
  {
    if |b| > |s| {
      ValueTop(b);
      ValueTop(s);
      WeightMonotone(|s|, |b| - 1);
      MulMonotone(1, b[|b| - 1], Weight(|b| - 1));
      MulMonotone(s[|s| - 1] + 1, 0x1000_0000, Weight(|s| - 1));
    }
  }

  /** The correction step: one more subtraction when the estimate was short. */
  method Finish(b: Bigint, S: Bigint, q0: nat) returns (q: nat)
    requires b.Trimmed() && S.Normalised() && Apart(b, S) && b.wds <= S.wds
    requires b.wds == 0 <==> S.wds == 1 && b.Num() == 0 && q0 > 0
    requires 0 < S.Num() && q0 < 10 && b.Num() < 2 * S.Num() && (q0 == 9 ==> b.Num() < S.Num())
    modifies b`wds, b.x
    ensures b.Trimmed() && b.Num() < S.Num() && q < 10
    ensures old(b.Num()) + Times(q0, S.Num()) == Times(q, S.Num()) + b.Num()
    ensures b.wds == 0 <==> S.wds == 1 && b.Num() == 0 && q > 0
  {
    q := q0;
    var c := Cmp(b, S);
    if c >= 0 {
      if b.wds < S.wds {
        LongerIsLarger(b.Digits(), S.Digits());
      }
      q := q + 1;
      SubMulLoop(b.x, S.x, S.wds, 1, S.Num());
      DropZeros(b, S.wds - 1);
    }
  }

  /** The remainder without words does occur: dividing 2^27 by itself leaves one. */
  method NoWordsLeft() returns (q: nat, words: nat)
    ensures q == 1 && words == 0
  {
    var b := I2b(0x800_0000);
    var S := I2b(0x800_0000);
    assert S.Digits() == [0x800_0000] && S.Num() == 0x800_0000 by { OneWord(0x800_0000); }
    assert b.Digits() == [0x800_0000] && b.Num() == 0x800_0000;
    q := Quorem(b, S);
    words := b.wds;
  }

  lemma OneWord(x: Word)
    ensures Value([x]) == x
  {
    assert [x][..0] == [];
    assert Weight(0) == 1;
  }
}
