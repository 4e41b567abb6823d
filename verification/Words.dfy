/** Natural numbers stored as little-endian sequences of 32-bit words: the
    meaning that every routine of the multiword library is proved against. */
module Words {
  type Word = w: int | 0 <= w < 0x1_0000_0000

  function Pow(b: nat, e: nat): nat
  {
    if e == 0 then 1 else b * Pow(b, e - 1)
  }

  /** The weight 2^(32*i) of word i. */
  function Weight(i: nat): (w: nat)
    ensures w > 0
  {
    if i == 0 then 1 else 0x1_0000_0000 * Weight(i - 1)
  }

  /** The number whose word of weight 2^(32*i) is s[i]. */
  function Value(s: seq<Word>): nat
  {
    if |s| == 0 then 0
    else Value(s[..|s| - 1]) + s[|s| - 1] * Weight(|s| - 1)
  }

  /** No leading zero word, except that zero itself is the single word 0. */
  predicate Normal(s: seq<Word>)
  {
    |s| >= 1 && (|s| > 1 ==> s[|s| - 1] != 0)
  }

  // ---------- powers ----------

  lemma {:induction false} PowPositive(b: nat, e: nat)
    requires b > 0
    ensures Pow(b, e) > 0
  {
    if e > 0 {
      PowPositive(b, e - 1);
    }
  }

  lemma {:induction false} PowAdd(b: nat, m: nat, n: nat)
    ensures Pow(b, m + n) == Pow(b, m) * Pow(b, n)
  {
    if m > 0 {
      PowAdd(b, m - 1, n);
      assert Pow(b, m + n) == b * Pow(b, m - 1 + n);
      MulAssoc(b, Pow(b, m - 1), Pow(b, n));
    }
  }

  lemma {:induction false} PowMul(b: nat, m: nat, n: nat)
    ensures Pow(b, m * n) == Pow(Pow(b, m), n)
  {
    if n > 0 {
      PowMul(b, m, n - 1);
      assert m * n == m + m * (n - 1);
      PowAdd(b, m, m * (n - 1));
    } else {
      assert m * n == 0;
    }
  }

  lemma {:induction false} PowMonotone(b: nat, m: nat, n: nat)
    requires b > 0 && m <= n
    ensures Pow(b, m) <= Pow(b, n)
  {
    if m < n {
      PowMonotone(b, m, n - 1);
      PowPositive(b, n - 1);
      MulMonotone(1, b, Pow(b, n - 1));
    }
  }

  lemma {:induction false} WeightIsPow(n: nat)
    ensures Weight(n) == Pow(2, 32 * n)
  {
    if n > 0 {
      WeightIsPow(n - 1);
      Pow2Of32();
      PowAdd(2, 32, 32 * (n - 1));
    }
  }

  lemma {:induction false} WeightAdd(m: nat, n: nat)
    ensures Weight(m + n) == Weight(m) * Weight(n)
  {
    if m > 0 {
      WeightAdd(m - 1, n);
      MulAssoc(0x1_0000_0000, Weight(m - 1), Weight(n));
    }
  }

  lemma {:induction false} WeightMonotone(m: nat, n: nat)
    requires m <= n
    ensures Weight(m) <= Weight(n)
  {
    if m < n {
      WeightMonotone(m, n - 1);
    }
  }

  lemma Pow2Of32()
    ensures Pow(2, 32) == 0x1_0000_0000
  {
    assert Pow(2, 8) == 256;
    PowAdd(2, 8, 8);
    PowAdd(2, 16, 16);
  }

  // ---------- arithmetic on products ----------

  lemma MulAssoc(a: int, b: int, c: int)
    ensures a * b * c == a * (b * c)
  {
  }

  lemma MulMonotone(a: int, b: int, c: int)
    requires a <= b && 0 <= c
    ensures a * c <= b * c
  {
  }

  lemma MulStrict(a: int, b: int, c: int)
    requires a < b && 0 < c
    ensures a * c < b * c
  {
  }

  lemma MulCancelLess(a: int, b: int, c: int)
    requires a * c < b * c && 0 < c
    ensures a < b
  {
    if b <= a {
      MulMonotone(b, a, c);
    }
  }

  lemma DivBounds(n: nat, d: nat)
    requires d > 0
    ensures n == d * (n / d) + n % d && 0 <= n % d < d && n / d >= 0
  {
  }

  /** A quotient is pinned by its defining inequality. */
  lemma DivUnique(n: nat, d: nat, q: int, r: int)
    requires n == q * d + r && 0 <= r < d
    ensures q == n / d && r == n % d
  {
    DivBounds(n, d);
    var q', r' := n / d, n % d;
    assert q * d + r == q' * d + r' by {
      assert q' * d == d * q';
    }
    assert (q + 1) * d == q * d + d && (q' + 1) * d == q' * d + d;
    if q < q' {
      MulMonotone(q + 1, q', d);
    } else if q' < q {
      MulMonotone(q' + 1, q, d);
    }
  }

  // ---------- values of word sequences ----------

  lemma ValuePrefix(s: seq<Word>, i: nat)
    requires i < |s|
    ensures Value(s[..i + 1]) == Value(s[..i]) + s[i] * Weight(i)
  {
    assert s[..i + 1][..i] == s[..i];
  }

  lemma {:induction false} ValueBound(s: seq<Word>)
    ensures Value(s) < Weight(|s|)
  {
    if |s| > 0 {
      var n := |s| - 1;
      ValueBound(s[..n]);
      MulMonotone(s[n], 0x1_0000_0000 - 1, Weight(n));
      assert (0x1_0000_0000 - 1) * Weight(n) == 0x1_0000_0000 * Weight(n) - Weight(n);
    }
  }

  /** The top word brackets the whole number. */
  lemma ValueTop(s: seq<Word>)
    requires |s| > 0
    ensures s[|s| - 1] * Weight(|s| - 1) <= Value(s) < (s[|s| - 1] + 1) * Weight(|s| - 1)
  {
    var n := |s| - 1;
    ValueBound(s[..n]);
    assert (s[n] + 1) * Weight(n) == s[n] * Weight(n) + Weight(n);
  }

  lemma {:induction false} ValueConcat(s: seq<Word>, t: seq<Word>)
    ensures Value(s + t) == Value(s) + Weight(|s|) * Value(t)
  {
    if |t| == 0 {
      assert s + t == s;
    } else {
      var m := |t| - 1;
      ValueConcat(s, t[..m]);
      assert (s + t)[..|s| + m] == s + t[..m];
      WeightAdd(|s|, m);
      ConcatStep(Value(s), Value(t[..m]), t[m], Weight(|s|), Weight(m), Weight(|s| + m), Value(t));
    }
  }

  lemma ConcatStep(u: int, v: int, w: int, p: int, q: int, pq: int, v': int)
    requires pq == p * q && v' == v + w * q
    ensures u + p * v + w * pq == u + p * v'
  {
    assert p * v' == p * v + p * (w * q);
    MulAssoc(p, w, q);
    MulAssoc(w, p, q);
  }

  lemma {:induction false} ValueZeros(s: seq<Word>)
    requires forall i :: 0 <= i < |s| ==> s[i] == 0
    ensures Value(s) == 0
  {
    if |s| > 0 {
      ValueZeros(s[..|s| - 1]);
    }
  }

  /** Dropping leading zero words keeps the value. */
  lemma {:induction false} ValueTrim(s: seq<Word>, n: nat)
    requires n <= |s| && forall i :: n <= i < |s| ==> s[i] == 0
    ensures Value(s) == Value(s[..n])
  {
    if n < |s| {
      ValueTrim(s[..|s| - 1], n);
      assert s[..|s| - 1][..n] == s[..n];
    } else {
      assert s[..n] == s;
    }
  }

  /** Among normal sequences the longer one is the larger number. */
  lemma LongerIsLarger(s: seq<Word>, t: seq<Word>)
    requires Normal(t) && 1 <= |s| < |t|
    ensures Value(s) < Value(t)
  {
    ValueBound(s);
    ValueTop(t);
    WeightMonotone(|s|, |t| - 1);
    MulMonotone(1, t[|t| - 1], Weight(|t| - 1));
  }
}
