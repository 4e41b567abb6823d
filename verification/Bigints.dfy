/** The multiword integers of dtoa.c: one block of 2^k words, `wds` of them in
    use, changed in place by carry and borrow loops. */
module Bigints {
  import opened Words
  import opened WordLoops

  class Bigint {
    const k: nat
    const maxwds: nat
    const x: array<Word>
    var sign: int
    var wds: nat

    ghost predicate Valid()
      reads this
    {
      x.Length == maxwds == Pow(2, k) && wds <= maxwds
    }

    /** The words in use. */
    ghost function Digits(): seq<Word>
      requires Valid()
      reads this, x
    {
      x[..wds]
    }

    ghost function Num(): nat
      requires Valid()
      reads this, x
    {
      Value(Digits())
    }

    ghost predicate Normalised()
      reads this, x
    {
      Valid() && Normal(Digits())
    }

    /** No leading zero word; unlike a normalised number, zero may also have no
        words in use, as quorem can leave it. */
    ghost predicate Trimmed()
      reads this, x
    {
      Valid() && (wds > 1 ==> x[wds - 1] != 0) && (wds == 0 ==> maxwds > 0 && x[0] == 0)
    }

    /** The test for zero: at most one word, and that zero. */
    predicate IsZero()
      requires Trimmed()
      reads this, x
      ensures IsZero() <==> Num() == 0
    {
      ZeroWords1(Digits());
      assert maxwds > 0;
      x[0] == 0 && wds <= 1
    }

    /** Balloc: the words of a new block are arbitrary. */
    constructor Balloc(k: nat)
      ensures Valid() && fresh(x)
      ensures this.k == k && sign == 0 && wds == 0
    {
      var n := Pow(2, k);
      this.k := k;
      maxwds := n;
      x := new Word[n];
      sign := 0;
      wds := 0;
    }
  }

  lemma ZeroWords1(s: seq<Word>)
    requires |s| > 1 ==> s[|s| - 1] != 0
    ensures Value(s) == 0 <==> |s| == 0 || (|s| == 1 && s[0] == 0)
  {
    if |s| > 0 {
      ValueTop(s);
      if s[|s| - 1] != 0 {
        MulMonotone(1, s[|s| - 1], Weight(|s| - 1));
      }
      if |s| == 1 && s[0] == 0 {
        ValueZeros(s);
      }
    }
  }

  /** Two handles on different blocks. */
  predicate Apart(a: Bigint, b: Bigint)
  {
    a != b && a.x != b.x
  }

  // ---------- multadd ----------

  /** The carry loop of multadd. */
  method MultaddLoop(x: array<Word>, wds: nat, m: int, a: int) returns (carry: int)
    requires 1 <= wds <= x.Length
    requires 0 <= m < 0x8000_0000 && 0 <= a < 0x8000_0000
    modifies x
    ensures 0 <= carry < 0x8000_0000
    ensures Value(if carry == 0 then x[..wds] else x[..wds] + [carry]) == Value(old(x[..wds])) * m + a
    ensures m > 0 && old(x[wds - 1]) != 0 ==> carry > 0 || x[wds - 1] != 0
  {
    ghost var s, done := x[..wds], [];
    var i := 0;
    carry := a;
    while i < wds
      invariant 0 <= i <= wds && |done| == i && 0 <= carry < 0x8000_0000
      invariant (done, carry as nat) == MulAddWords(s[..i], m, a)
      invariant forall t :: 0 <= t < i ==> x[t] == done[t]
      invariant forall t :: i <= t < x.Length ==> x[t] == old(x[t])
    {
      MulAddWordsNext(s, m, a, i);
      var y := MulAddStep(x[i], m, carry);
      carry := y.1;
      x[i] := y.0;
      done := done + [y.0];
      i := i + 1;
    }
    assert s[..wds] == s && x[..wds] == done;
    MultaddValue(s, m, a, done, carry);
  }

  /** Stores a carry word above the words in use, moving to a block of twice
      the size when this one is full. */
  method PushWord(b: Bigint, carry: Word) returns (r: Bigint)
    requires b.Valid()
    modifies b, b.x
    ensures r.Valid() && r.Digits() == old(b.Digits()) + [carry]
    ensures r == b || (fresh(r) && fresh(r.x))
    ensures r.sign == old(b.sign)
  {
    var wds := b.wds;
    r := b;
    if wds >= b.maxwds {
      var b1 := new Bigint.Balloc(b.k + 1);
      Bcopy(b1, b);
      r := b1;
      PowPositive(2, b.k);
    }
    r.x[wds] := carry;
    r.wds := wds + 1;
  }

  lemma MultaddValue(s: seq<Word>, m: nat, a: nat, words: seq<Word>, carry: nat)
    requires 0 <= m < 0x8000_0000 && 0 <= a < 0x8000_0000 && |s| > 0
    requires (words, carry) == MulAddWords(s, m, a)
    ensures Value(if carry == 0 then words else words + [carry]) == Value(s) * m + a
    ensures m > 0 && s[|s| - 1] != 0 ==> carry > 0 || words[|s| - 1] != 0
  {
    MulAddValue(s, m, a, (words, carry));
    ValueSnoc(words, carry);
    if m > 0 && s[|s| - 1] != 0 {
      MulAddTop(s, m, a);
    }
  }

  /** Multiplies by m and adds a. */
  method Multadd(b: Bigint, m: int, a: int) returns (r: Bigint)
    requires b.Valid() && b.wds >= 1
    requires 0 <= m < 0x8000_0000 && 0 <= a < 0x8000_0000
    modifies b, b.x
    ensures r.Valid() && r.Num() == old(b.Num()) * m + a
    ensures r == b || (fresh(r) && fresh(r.x))
    ensures r.sign == old(b.sign)
    ensures old(b.wds) <= r.wds <= old(b.wds) + 1
    ensures m > 0 && old(b.Normalised()) ==> r.Normalised()
  {
    var carry := MultaddLoop(b.x, b.wds, m, a);
    if carry == 0 {
      r := b;
    } else {
      r := PushWord(b, carry);
    }
  }

  /** Copies the sign, the word count and the words in use. */
  method Bcopy(x: Bigint, y: Bigint)
    requires x.Valid() && y.Valid() && Apart(x, y) && y.wds <= x.maxwds
    modifies x, x.x
    ensures x.Valid() && x.sign == y.sign && x.wds == y.wds && x.Digits() == y.Digits()
  {
    x.sign := y.sign;
    x.wds := y.wds;
    forall i | 0 <= i < y.wds {
      x.x[i] := y.x[i];
    }
  }

  /** A one-word number. */
  method I2b(i: int) returns (b: Bigint)
    requires 0 <= i < 0x8000_0000
    ensures b.Normalised() && b.Num() == i && fresh(b) && fresh(b.x) && b.wds == 1 && b.sign == 0
  {
    b := new Bigint.Balloc(1);
    assert b.maxwds == 2;
    b.x[0] := i;
    b.wds := 1;
    assert b.x[..1] == [i];
    assert Value([i]) == i by { assert [i][..0] == []; }
  }

  // ---------- cmp and diff ----------

  lemma SameTail(s: seq<Word>, t: seq<Word>, i: nat)
    requires |s| == |t| && i < |s| && s[i + 1..] == t[i + 1..] && s[i] < t[i]
    ensures Value(s) < Value(t)
  {
    hide Value, Weight;
    var n := i + 1;
    ValueConcat(s[..n], s[n..]);
    ValueConcat(t[..n], t[n..]);
    assert s == s[..n] + s[n..] && t == t[..n] + t[n..];
    ValueTop(s[..n]);
    ValueTop(t[..n]);
    MulMonotone(s[i] + 1, t[i], Weight(i));
  }

  /** The sign of a - b. A number with no words at all counts as smaller. */
  method Cmp(a: Bigint, b: Bigint) returns (r: int)
    requires a.Trimmed() && b.Normalised()
    ensures a.wds > 0 ==> (r < 0 <==> a.Num() < b.Num()) && (r == 0 <==> a.Num() == b.Num())
    ensures a.wds == 0 ==> r < 0
  {
    var i: int, j := a.wds, b.wds;
    i := i - j;
    if i != 0 {
      if a.wds > 0 {
        if i < 0 {
          LongerIsLarger(a.Digits(), b.Digits());
        } else {
          LongerIsLarger(b.Digits(), a.Digits());
        }
      }
      return i;
    }
    ghost var s, t := a.Digits(), b.Digits();
    var p := j;
    while true
      invariant 0 < p <= j
      invariant s[p..] == t[p..]
      decreases p
    {
      p := p - 1;
      if a.x[p] != b.x[p] {
        if a.x[p] < b.x[p] {
          SameTail(s, t, p);
          return -1;
        } else {
          SameTail(t, s, p);
          return 1;
        }
      }
      assert s[p..] == [s[p]] + s[p + 1..] && t[p..] == [t[p]] + t[p + 1..];
      if p <= 0 {
        break;
      }
    }
    assert s == s[0..] && t == t[0..];
    return 0;
  }

  /** |a - b|, with sign 1 when a < b. */
  method Diff(a: Bigint, b: Bigint) returns (c: Bigint)
    requires a.Normalised() && b.Normalised()
    ensures c.Normalised() && fresh(c) && fresh(c.x)
    ensures c.Num() == (if a.Num() < b.Num() then b.Num() - a.Num() else a.Num() - b.Num())
    ensures c.sign == if a.Num() < b.Num() then 1 else 0
  {
    var i := Cmp(a, b);
    if i == 0 {
      c := new Bigint.Balloc(0);
      c.wds := 1;
      c.x[0] := 0;
      assert c.x[..1] == [0];
      ValueZeros([0]);
      return;
    }
    var big, small := a, b;
    if i < 0 {
      big, small := b, a;
      i := 1;
    } else {
      i := 0;
    }
    c := new Bigint.Balloc(big.k);
    c.sign := i;
    if big.wds < small.wds {
      LongerIsLarger(big.Digits(), small.Digits());
    }
    SubtractWords(big, small, c);
    TrimZeros(c);
  }

  /** Drops the leading zero words of a nonzero number. */
  method TrimZeros(c: Bigint)
    requires c.Valid() && c.Num() > 0
    modifies c`wds
    ensures c.Valid() && Normal(c.Digits()) && c.Num() == old(c.Num())
  {
    var wa := c.wds;
    while c.x[wa - 1] == 0
      invariant 0 < wa <= c.maxwds
      invariant Value(c.x[..wa]) == old(c.Num())
      decreases wa
    {
      ValueTrim(c.x[..wa], wa - 1);
      assert c.x[..wa][..wa - 1] == c.x[..wa - 1];
      wa := wa - 1;
    }
    c.wds := wa;
  }

  /** The two borrow loops of diff. */
  method SubtractWords(big: Bigint, small: Bigint, c: Bigint)
    requires big.Valid() && small.Valid() && c.Valid() && Apart(c, big) && Apart(c, small)
    requires 1 <= small.wds <= big.wds <= c.maxwds && small.Num() < big.Num()
    modifies c.x, c`wds
    ensures c.Valid() && c.Num() == big.Num() - small.Num()
  {
    ghost var s, t := big.Digits(), Padded(small.Digits(), big.wds);
    var borrow := BorrowLoop(big.x, small.x, c.x, 0, small.wds, small.wds, 0, s, t);
    borrow := BorrowLoop(big.x, small.x, c.x, small.wds, big.wds, small.wds, borrow, s, t);
    assert s[..big.wds] == s && t[..big.wds] == t;
    PaddedValue(small.Digits(), big.wds);
    SubExact(s, t, SubWords(s, t));
    c.wds := big.wds;
  }

  /** One borrow loop, over words lo..hi; past the end of xb only the borrow is
      taken. t stands for the words of xb with zeros above. */
  method BorrowLoop(xa: array<Word>, xb: array<Word>, xc: array<Word>, lo: nat, hi: nat, wb: nat, borrow0: int,
                    ghost s: seq<Word>, ghost t: seq<Word>)
    returns (borrow: int)
    requires xc != xa && xc != xb && lo <= hi <= |s| == |t| <= xc.Length && 0 <= borrow0 <= 1
    requires |s| <= xa.Length && wb <= xb.Length && s == xa[..|s|]
    requires forall i :: lo <= i < hi ==> t[i] == if i < wb then xb[i] else 0
    requires (xc[..lo], borrow0) == SubWords(s[..lo], t[..lo])
    modifies xc
    ensures (xc[..hi], borrow) == SubWords(s[..hi], t[..hi])
  {
    var i := lo;
    borrow := borrow0;
    while i < hi
      invariant lo <= i <= hi && 0 <= borrow <= 1
      invariant (xc[..i], borrow) == SubWords(s[..i], t[..i])
    {
      SubWordsNext(s, t, i);
      var r := SubWord(xa[i], if i < wb then xb[i] else 0, borrow);
      ghost var before := xc[..i];
      borrow := r.1;
      xc[i] := r.0;
      assert xc[..i + 1] == before + [r.0];
      i := i + 1;
    }
  }

  // ---------- mult ----------

  /** The carry loop of one row of the schoolbook product, on words j.. of xc. */
  method RowLoop(xc: array<Word>, xa: array<Word>, wa: nat, y: Word, j: nat) returns (carry: Word)
    requires xc != xa && wa <= xa.Length && j + wa <= xc.Length
    modifies xc
    ensures (xc[j..j + wa], carry) == MulAccWords(old(xc[j..j + wa]), xa[..wa], y)
    ensures xc[..j] == old(xc[..j]) && xc[j + wa..] == old(xc[j + wa..])
  {
    ghost var s, seg, done := xa[..wa], xc[j..j + wa], [];
    var i := 0;
    carry := 0;
    while i < wa
      invariant 0 <= i <= wa && |done| == i
      invariant (done, carry) == MulAccWords(seg[..i], s[..i], y)
      invariant forall t :: j <= t < j + i ==> xc[t] == done[t - j]
      invariant forall t :: 0 <= t < j || j + i <= t < xc.Length ==> xc[t] == old(xc[t])
    {
      MulAccWordsNext(seg, s, y, i);
      var z := MulAccStep(xa[i], y, xc[j + i], carry);
      carry := z.1;
      xc[j + i] := z.0;
      done := done + [z.0];
      i := i + 1;
    }
    assert seg[..wa] == seg && s[..wa] == s && xc[j..j + wa] == done;
    assert xc[..j] == old(xc[..j]) && xc[j + wa..] == old(xc[j + wa..]);
  }

  /** One row of the schoolbook product: adds a * y * 2^(32*j) to c. */
  method MultRow(xc: array<Word>, xa: array<Word>, wa: nat, y: Word, j: nat, wc: nat)
    requires xc != xa && wa <= xa.Length
    requires j + wa < wc <= xc.Length && xc[j + wa] == 0
    modifies xc
    ensures Value(xc[..wc]) == old(Value(xc[..wc])) + (Value(xa[..wa]) * y) * Weight(j)
    ensures forall i :: j + wa < i < wc ==> xc[i] == old(xc[i])
  {
    ghost var c0 := xc[..];
    var carry := RowLoop(xc, xa, wa, y, j);
    ghost var row := xc[j..j + wa];
    ghost var c1 := xc[..];
    assert c1[..j] == xc[..j] && c1[j + wa..] == xc[j + wa..] && c0[j + wa..] == c1[j + wa..];
    xc[j + wa] := carry;
    RowSplice(c0, xc[..], j, wa, wc, row, carry);
    RowValue(c0[..j], c0[j..j + wa], c0[j + wa + 1..wc], xa[..wa], y, row, carry);
  }

  lemma RowSplice(c0: seq<Word>, c1: seq<Word>, j: nat, wa: nat, wc: nat, row: seq<Word>, carry: Word)
    requires |c0| == |c1| && j + wa < wc <= |c0| && |row| == wa && c0[j + wa] == 0
    requires c1[..j] == c0[..j] && c1[j..j + wa] == row && c1[j + wa] == carry
    requires c1[j + wa + 1..] == c0[j + wa + 1..]
    ensures c0[..wc] == c0[..j] + (c0[j..j + wa] + [0]) + c0[j + wa + 1..wc]
    ensures c1[..wc] == c0[..j] + (row + [carry]) + c0[j + wa + 1..wc]
  {
    assert c1 == c1[..j] + c1[j..j + wa] + [c1[j + wa]] + c1[j + wa + 1..];
  }

  lemma RowValue(lo: seq<Word>, seg: seq<Word>, hi: seq<Word>, s: seq<Word>, y: Word, row: seq<Word>, carry: Word)
    requires |seg| == |s| && (row, carry) == MulAccWords(seg, s, y)
    ensures Value(lo + (row + [carry]) + hi) == Value(lo + (seg + [0]) + hi) + (Value(s) * y) * Weight(|lo|)
  {
    MulAccValue(seg, s, y, (row, carry));
    ValueSnoc(row, carry);
    ValueSnoc(seg, 0);
    Splice(lo, seg + [0], hi);
    Splice(lo, row + [carry], hi);
    RowAlgebra(Weight(|lo|), Value(seg + [0]), Value(row + [carry]), Value(s) * y);
  }

  lemma RowAlgebra(p: int, u: int, v: int, d: int)
    requires v == u + d
    ensures p * v == p * u + d * p
  {
  }

  lemma Splice(a: seq<Word>, b: seq<Word>, c: seq<Word>)
    ensures Value(a + b + c) == Value(a) + Weight(|a|) * Value(b) + Weight(|a| + |b|) * Value(c)
  {
    ValueConcat(a, b);
    ValueConcat(a + b, c);
  }

  lemma ProductPrefix(v: int, s: seq<Word>, j: nat)
    requires j < |s|
    ensures v * Value(s[..j + 1]) == v * Value(s[..j]) + (v * s[j]) * Weight(j)
  {
    ValuePrefix(s, j);
    ProductAlgebra(v, Value(s[..j]), s[j], Weight(j), Value(s[..j + 1]));
  }

  lemma ProductAlgebra(v: int, a: int, b: int, p: int, c: int)
    requires c == a + b * p
    ensures v * c == v * a + (v * b) * p
  {
    MulAssoc(v, b, p);
  }

  /** The product, in a block sized from the larger operand's. */
  method Mult(a0: Bigint, b0: Bigint) returns (c: Bigint)
    requires a0.Normalised() && b0.Normalised()
    ensures c.Valid() && fresh(c) && fresh(c.x)
    ensures c.Num() == a0.Num() * b0.Num()
    ensures a0.Num() > 0 && b0.Num() > 0 ==> c.Normalised()
    ensures c.sign == 0
  {
    var a, b := a0, b0;
    if a.wds < b.wds {
      a, b := b, a;
    }
    var k := a.k;
    var wc := a.wds + b.wds;
    if wc > a.maxwds {
      k := k + 1;
    }
    c := new Bigint.Balloc(k);
    ZeroWords(c, wc);
    MultRows(c, a, b, wc);
    TrimToValue(c, wc);
    assert a.Num() * b.Num() == a0.Num() * b0.Num();
    if a.Num() > 0 && b.Num() > 0 {
      MulStrict(0, a.Num(), b.Num());
    }
  }

  /** Clears the first n words. */
  method ZeroWords(c: Bigint, n: nat)
    requires c.Valid() && n <= c.maxwds
    modifies c.x
    ensures forall t :: 0 <= t < n ==> c.x[t] == 0
    ensures Value(c.x[..n]) == 0
  {
    var i := 0;
    while i < n
      invariant 0 <= i <= n
      invariant forall t :: 0 <= t < i ==> c.x[t] == 0
    {
      c.x[i] := 0;
      i := i + 1;
    }
    ValueZeros(c.x[..n]);
  }

  /** All rows of the schoolbook product; rows of zero words are skipped. */
  method MultRows(c: Bigint, a: Bigint, b: Bigint, wc: nat)
    requires c.Valid() && a.Valid() && b.Valid() && Apart(c, a) && Apart(c, b)
    requires wc == a.wds + b.wds <= c.maxwds && forall i :: 0 <= i < wc ==> c.x[i] == 0
    modifies c.x
    ensures Value(c.x[..wc]) == a.Num() * b.Num()
  {
    ghost var t := b.Digits();
    ValueZeros(c.x[..wc]);
    var j := 0;
    while j < b.wds
      invariant 0 <= j <= b.wds
      invariant Value(c.x[..wc]) == a.Num() * Value(t[..j])
      invariant forall i :: a.wds + j <= i < wc ==> c.x[i] == 0
    {
      var y := b.x[j];
      ProductPrefix(a.Num(), t, j);
      if y != 0 {
        MultRow(c.x, a.x, a.wds, y, j, wc);
      }
      j := j + 1;
    }
    assert t[..b.wds] == t;
  }

  /** Drops leading zero words down to none and sets the word count. */
  method TrimToValue(c: Bigint, wc0: nat)
    requires c.Valid() && wc0 <= c.maxwds
    modifies c`wds
    ensures c.Valid() && c.Num() == old(Value(c.x[..wc0]))
    ensures c.wds > 0 ==> c.x[c.wds - 1] != 0
    ensures c.wds == 0 ==> c.Num() == 0
  {
    var wc := wc0;
    while wc > 0 && c.x[wc - 1] == 0
      invariant 0 <= wc <= c.maxwds
      invariant Value(c.x[..wc]) == old(Value(c.x[..wc0]))
    {
      ValueTrim(c.x[..wc], wc - 1);
      assert c.x[..wc][..wc - 1] == c.x[..wc - 1];
      wc := wc - 1;
    }
    c.wds := wc;
  }

  // ---------- lshift ----------

  /** The left shift by k bits, into a new block that is large enough. */
  method Lshift(b: Bigint, k0: nat) returns (b1: Bigint)
    requires b.Valid() && b.wds >= 1
    ensures b1.Valid() && fresh(b1) && fresh(b1.x)
    ensures b1.Num() == b.Num() * Pow(2, k0)
    ensures b.Normalised() && b.Num() > 0 ==> b1.Normalised()
    ensures b1.sign == 0
  {
    var n := k0 / 32;
    var k1 := BlockFor(b, n + b.wds + 1);
    b1 := new Bigint.Balloc(k1);
    ZeroWords(b1, n);
    var k := k0 % 32;
    if k != 0 {
      ShiftBits(b, b1, n, k);
    } else {
      CopyWords(b, b1, n);
    }
    LshiftValue(b.Num(), n, k, k0);
    if b.Normalised() && b.Num() > 0 {
      TopNonzero(b.Digits());
    }
  }

  /** The smallest block size, doubling from b's, that holds n1 words. */
  method BlockFor(b: Bigint, n1: nat) returns (k1: nat)
    requires b.Valid()
    ensures k1 >= b.k && n1 <= Pow(2, k1)
    ensures k1 > b.k ==> Pow(2, k1 - 1) < n1
  {
    k1 := b.k;
    var i: int := b.maxwds;
    PowPositive(2, b.k);
    while n1 > i
      invariant 0 < i == Pow(2, k1) && b.k <= k1
      invariant k1 > b.k ==> Pow(2, k1 - 1) < n1
      decreases n1 - i
    {
      k1 := k1 + 1;
      i := i * 2;
    }
  }

  /** The branch of lshift for a shift that is not a multiple of 32. */
  method ShiftBits(b: Bigint, b1: Bigint, n: nat, k: nat)
    requires b.Valid() && b1.Valid() && Apart(b, b1) && b.wds >= 1
    requires 0 < k < 32 && n + b.wds < b1.maxwds && Value(b1.x[..n]) == 0
    modifies b1`wds, b1.x
    ensures b1.Valid() && b1.Num() == Weight(n) * (b.Num() * Pow(2, k))
    ensures b.x[b.wds - 1] != 0 ==> b1.wds > 0 && b1.x[b1.wds - 1] != 0
  {
    hide Pow, Value, Weight, ShiftWords;
    ghost var low := b1.x[..n];
    var n1 := n + b.wds;
    var z := ShiftLoop(b.x, b.wds, b1.x, n, k);
    ghost var mid := b1.x[n..n1];
    b1.x[n1] := z;
    ShiftedWords(b.Digits(), k, mid, z);
    if z != 0 {
      n1 := n1 + 1;
    }
    b1.wds := n1;
    ghost var top := if z != 0 then mid + [z] else mid;
    assert b1.Digits() == low + top;
    AboveZeros(low, top, b.Num() * Pow(2, k));
  }

  /** The branch of lshift for whole words. */
  method CopyWords(b: Bigint, b1: Bigint, n: nat)
    requires b.Valid() && b1.Valid() && Apart(b, b1) && b.wds >= 1
    requires n + b.wds < b1.maxwds && Value(b1.x[..n]) == 0
    modifies b1`wds, b1.x
    ensures b1.Valid() && b1.Num() == Weight(n) * b.Num()
    ensures b.x[b.wds - 1] != 0 ==> b1.wds > 0 && b1.x[b1.wds - 1] != 0
  {
    hide Value, Weight;
    ghost var low := b1.x[..n];
    var i := 0;
    while i < b.wds
      invariant 0 <= i <= b.wds
      invariant forall t :: 0 <= t < n ==> b1.x[t] == low[t]
      invariant forall t :: n <= t < n + i ==> b1.x[t] == b.x[t - n]
    {
      b1.x[n + i] := b.x[i];
      i := i + 1;
    }
    b1.wds := n + b.wds;
    assert b1.Digits() == low + b.Digits();
    AboveZeros(low, b.Digits(), b.Num());
  }

  lemma LshiftValue(v: nat, n: nat, k: nat, k0: nat)
    requires k0 == 32 * n + k
    ensures Weight(n) * (v * Pow(2, k)) == v * Pow(2, k0)
    ensures k == 0 ==> Weight(n) * v == v * Pow(2, k0)
  {
    assert k == 0 ==> Pow(2, k) == 1;
    hide Pow, Weight;
    PowAdd(2, k, 32 * n);
    WeightIsPow(n);
    LshiftAlgebra(v, Pow(2, k), Weight(n), Pow(2, k0));
  }

  lemma LshiftAlgebra(v: nat, p: nat, w: nat, q: nat)
    requires q == p * w
    ensures w * (v * p) == v * q && (p == 1 ==> w * v == v * q)
  {
    MulAssoc(v, p, w);
  }

  lemma AboveZeros(low: seq<Word>, top: seq<Word>, v: nat)
    requires Value(low) == 0 && Value(top) == v
    ensures Value(low + top) == Weight(|low|) * v
  {
    ValueConcat(low, top);
  }

  lemma ShiftedWords(s: seq<Word>, e: nat, mid: seq<Word>, z: Word)
    requires 0 < e < 32 && |s| > 0 && (mid, z) == ShiftWords(s, e)
    ensures Value(mid + [z]) == Value(s) * Pow(2, e)
    ensures z == 0 ==> Value(mid) == Value(s) * Pow(2, e)
    ensures s[|s| - 1] != 0 ==> z != 0 || mid[|s| - 1] != 0
  {
    if s[|s| - 1] != 0 {
      ShiftTop(s, e);
    }
    ShiftValue(s, e, (mid, z));
    ValueSnoc(mid, z);
    if z == 0 {
      ValueTrim(mid + [z], |mid|);
      assert (mid + [z])[..|mid|] == mid;
    }
  }

  lemma TopNonzero(s: seq<Word>)
    requires Normal(s) && Value(s) > 0
    ensures s[|s| - 1] != 0
  {
    if |s| == 1 && s[0] == 0 {
      ValueZeros(s);
    }
  }

  /** The word loop of lshift for a shift that is not a multiple of 32. */
  method ShiftLoop(x: array<Word>, wds: nat, x1: array<Word>, n: nat, k: nat) returns (z: Word)
    requires x != x1 && wds <= x.Length && 0 < k < 32 && n + wds < x1.Length
    modifies x1
    ensures (x1[n..n + wds], z) == ShiftWords(x[..wds], k)
    ensures x1[..n] == old(x1[..n])
  {
    ghost var s, done := x[..wds], [];
    assert (done, 0) == ShiftWords(s[..0], k);
    hide Pow, Value, Weight, ShiftWords;
    var k1 := 32 - k;
    z := 0;
    var i := 0;
    while i < wds
      invariant 0 <= i <= wds && |done| == i
      invariant (done, z) == ShiftWords(s[..i], k)
      invariant forall t :: n <= t < n + i ==> x1[t] == done[t - n]
      invariant forall t :: 0 <= t < n ==> x1[t] == old(x1[t])
    {
      ShiftNext(s, i, k, done, z);
      // the bits shifted in and the bits shifted up do not overlap
      var w := (x[i] * Pow(2, k)) % 0x1_0000_0000 + z;
      x1[n + i] := w;
      z := x[i] / Pow(2, k1);
      done := done + [w];
      i := i + 1;
    }
    assert s[..wds] == s && x1[n..n + wds] == done;
  }

  // ---------- hi0bits ----------

  /** The number of leading zero bits. */
  method Hi0bits(x0: Word) returns (k: nat)
    ensures x0 == 0 ==> k == 32
    ensures x0 > 0 ==> k < 32 && 0x8000_0000 <= x0 * Pow(2, k) < 0x1_0000_0000
  {
    var x: int := x0;
    k := 0;
    assert Pow(2, 1) == 2 && Pow(2, 2) == 4 && Pow(2, 4) == 16 && Pow(2, 8) == 256;
    PowAdd(2, 8, 8);
    if x < 0x1_0000 {
      k := 16;
      x := x * 0x1_0000;
    }
    assert x == x0 * Pow(2, k);
    if x < 0x100_0000 {
      ShiftMore(x0, k, 8);
      k := k + 8;
      x := x * 0x100;
    }
    if x < 0x1000_0000 {
      ShiftMore(x0, k, 4);
      k := k + 4;
      x := x * 16;
    }
    if x < 0x4000_0000 {
      ShiftMore(x0, k, 2);
      k := k + 2;
      x := x * 4;
    }
    assert x == x0 * Pow(2, k);
    if x < 0x8000_0000 {
      ShiftMore(x0, k, 1);
      k := k + 1;
      if x < 0x4000_0000 {
        return 32;
      }
    }
  }

  lemma ShiftMore(x: nat, k: nat, d: nat)
    ensures x * Pow(2, k) * Pow(2, d) == x * Pow(2, k + d)
  {
    PowAdd(2, k, d);
    MulAssoc(x, Pow(2, k), Pow(2, d));
  }
}
