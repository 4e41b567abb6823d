/** A double as its two words, and the multiword integer d2b makes of them. */
module DoubleBits {
  import opened Words
  import opened WordLoops
  import opened Bigints
  import opened Division
  import opened Alignment

  /** The positive finite double m * 2^u. */
  datatype Double = Double(m: nat, u: int)
  {
    predicate Valid()
    {
      && 0 < m < 0x20_0000_0000_0000 && -1074 <= u <= 971
      && (m >= 0x10_0000_0000_0000 || u == -1074)
    }

    /** The neighbour below is only half as far away as the one above. */
    predicate Boundary()
    {
      m == 0x10_0000_0000_0000 && u > -1074
    }
  }

  /** The words of a positive finite double: eleven bits of exponent and fifty-two
      of fraction. */
  predicate Finite(w0: Word, w1: Word)
  {
    w0 < 0x7FF0_0000 && (w0 > 0 || w1 > 0)
  }

  /** The number the words stand for: below the least normal number the leading bit
      is not implied. */
  function Decode(w0: Word, w1: Word): (x: Double)
    requires Finite(w0, w1)
    ensures x.Valid()
    ensures x.m % 2 == w1 % 2 && x.u == if w0 / 0x10_0000 == 0 then -1074 else w0 / 0x10_0000 - 1075
    ensures x.Boundary() <==> w1 == 0 && w0 % 0x10_0000 == 0 && w0 / 0x20_0000 != 0
  {
    var de, frac := w0 / 0x10_0000, w0 % 0x10_0000;
    ExponentField(w0, de, frac);
    var hi := if de == 0 then frac else frac + 0x10_0000;
    JoinedParity(hi, w1);
    Double(hi * 0x1_0000_0000 + w1, if de == 0 then -1074 else de - 1075)
  }

  lemma ExponentField(w0: Word, de: nat, frac: nat)
    requires w0 < 0x7FF0_0000 && de == w0 / 0x10_0000 && frac == w0 % 0x10_0000
    ensures w0 == de * 0x10_0000 + frac && de <= 2046 && (w0 / 0x20_0000 != 0 <==> de >= 2)
  {
  }

  lemma JoinedParity(hi: nat, w: nat)
    ensures (hi * 0x1_0000_0000 + w) % 2 == w % 2
  {
    assert hi * 0x1_0000_0000 + w == 2 * (hi * 0x8000_0000) + w;
  }

  // ---------- lo0bits ----------

  /** The number of trailing zero bits, and the word without them. */
  method Lo0bits(y: Word) returns (k: nat, y': Word)
    ensures y == 0 ==> k == 32 && y' == y
    ensures y > 0 ==> k < 32 && y' % 2 == 1 && y == y' * Pow(2, k)
  {
    SmallPowers();
    hide Pow;
    if y % 8 != 0 {
      ThreeBits(y);
      if y % 2 != 0 {
        return 0, y;
      }
      if y / 2 % 2 != 0 {
        return 1, y / 2;
      }
      return 2, y / 4;
    }
    k, y' := HighZeros(y);
    if y' == 0 {
      k, y' := 32, y;
    }
  }

  lemma ThreeBits(y: nat)
    requires y % 8 != 0
    ensures y % 2 == 0 ==> y == y / 2 * 2
    ensures y % 2 == 0 && y / 2 % 2 == 0 ==> y == y / 4 * 4 && y / 4 % 2 == 1
  {
    var q, r := y / 8, y % 8;
    assert y == 8 * q + r;
    if r % 2 == 0 {
      assert y / 2 == 4 * q + r / 2 && y / 4 == 2 * q + r / 4;
    }
  }

  /** Halving the number of bits looked at from step to step. */
  method HighZeros(y: Word) returns (k: nat, x: Word)
    ensures (x == 0 <==> y == 0) && k < 32 && y == x * Pow(2, k)
    ensures y > 0 ==> x % 2 != 0
  {
    SmallPowers();
    hide Pow;
    x, k := DropZeros(y, 0, 16, 0x1_0000, y);
    x, k := DropZeros(x, k, 8, 0x100, y);
    x, k := DropZeros(x, k, 4, 0x10, y);
    x, k := DropZeros(x, k, 2, 4, y);
    x, k := DropZeros(x, k, 1, 2, y);
  }

  /** One test and shift by n bits, p being 2^n. */
  method DropZeros(x: Word, k: nat, n: nat, p: nat, ghost y: nat) returns (x': Word, k': nat)
    requires y == x * Pow(2, k) && 1 < p == Pow(2, n)
    ensures y == x' * Pow(2, k') && k <= k' <= k + n && (x' == 0 <==> x == 0)
    ensures x > 0 && (x < p * p || x % (p * p) != 0) ==> x' % p != 0
  {
    x', k' := x, k;
    if x % p == 0 {
      Dropped(y, x, k, n, p);
      SomeLeft(x, p);
      x' := x / p;
      k' := k + n;
    }
  }

  lemma SmallPowers()
    ensures Pow(2, 0) == 1 && Pow(2, 1) == 2 && Pow(2, 2) == 4 && Pow(2, 4) == 0x10
    ensures Pow(2, 8) == 0x100 && Pow(2, 16) == 0x1_0000
  {
    PowAdd(2, 8, 8);
  }

  /** n zero bits are shifted out. */
  lemma Dropped(y: nat, x: nat, k: nat, n: nat, p: nat)
    requires y == x * Pow(2, k) && p == Pow(2, n) > 0 && x % p == 0
    ensures y == x / p * Pow(2, k + n)
    ensures x > 0 ==> x / p > 0
  {
    hide Pow;
    PowAdd(2, n, k);
    DivBounds(x, p);
    assert x == p * (x / p);
    MulAssoc(p, x / p, Pow(2, k));
    MulAssoc(x / p, p, Pow(2, k));
  }

  /** Fewer than 2n zero bits are fewer than n after n have gone. */
  lemma SomeLeft(x: nat, p: nat)
    requires p > 1 && x % p == 0
    ensures 0 <= x / p <= x
    ensures x > 0 && (x < p * p || x % (p * p) != 0) ==> x / p % p != 0
  {
    DivBounds(x, p);
    var q := x / p;
    MulMonotone(1, p, q);
    if q % p == 0 {
      DivBounds(q, p);
      var c := q / p;
      MulAssoc(p, p, c);
      DivUnique(x, p * p, c, 0);
      if c > 0 {
        MulMonotone(1, c, p * p);
      }
    }
  }

  // ---------- d2b ----------

  lemma TwoWords(x: Word, y: Word)
    ensures Value([x, y]) == x + y * 0x1_0000_0000 && Value([x, y]) % 2 == x % 2
  {
    OneWord(x);
    assert [x, y][..1] == [x];
    assert Weight(1) == 0x1_0000_0000 * Weight(0);
  }

  /** The low word shifted down with bits of the high word above it. */
  lemma JoinedWords(z: Word, y: Word, k: nat, g: nat, h: nat, low: nat, q: nat)
    requires 0 < k < 32 && y % 2 == 1 && g == Pow(2, 32 - k) && h == Pow(2, k) > 0 && y * h < 0x1_0000_0000
    requires z * g == q * 0x1_0000_0000 + low && low + g <= 0x1_0000_0000
    ensures y + low < 0x1_0000_0000 && (y + low) % 2 == 1
    ensures (y + low + q * 0x1_0000_0000) * h == z * 0x1_0000_0000 + y * h
  {
    PowAdd(2, 32 - k, k);
    Pow2Of32();
    assert g == 2 * Pow(2, 31 - k);
    hide Pow;
    MulCancelLess(y, g, h);
    EvenPart(z, Pow(2, 31 - k), q, low, y);
    Rejoined(z, y, g, h, low, q);
  }

  lemma Rejoined(z: int, y: int, g: int, h: int, low: int, q: int)
    requires g * h == 0x1_0000_0000 && z * g == q * 0x1_0000_0000 + low
    ensures (y + low + q * 0x1_0000_0000) * h == z * 0x1_0000_0000 + y * h
  {
    MulAssoc(z, g, h);
    var zg := z * g;
    assert (y + zg) * h == y * h + zg * h;
  }

  lemma EvenPart(z: int, g: int, q: int, low: int, y: int)
    requires z * (2 * g) == q * 0x1_0000_0000 + low && y % 2 == 1
    ensures (y + low) % 2 == 1
  {
    var zg := z * g;
    assert z * (2 * g) == 2 * zg;
    assert low == 2 * (zg - q * 0x8000_0000);
  }

  /** Both words k bits down; the bits that are joined meet in no position. */
  method ShiftDown(z: Word, y: Word, k: nat, ghost w: nat) returns (y': Word, z': Word)
    requires 0 < k < 32 && y % 2 == 1 && y * Pow(2, k) == w < 0x1_0000_0000
    ensures y' % 2 == 1 && (y' + z' * 0x1_0000_0000) * Pow(2, k) == z * 0x1_0000_0000 + w
  {
    ShiftWord(z, 32 - k);
    var g, h := Pow(2, 32 - k), Pow(2, k);
    hide Pow;
    var low, q := z * g % 0x1_0000_0000, z / h;
    JoinedWords(z, y, k, g, h, low, q);
    PowBelow(32 - k);
    y', z' := y + low, q;
  }

  lemma PowBelow(n: nat)
    requires n < 32
    ensures Pow(2, n) < 0x1_0000_0000
  {
    PowMonotone(2, n, 31);
    Pow2Of32();
  }

  /** The two words without their trailing zero bits. */
  method FillWords(b: Bigint, z0: Word, w1: Word) returns (k: nat)
    requires b.Valid() && b.maxwds == 2 && (z0 > 0 || w1 > 0)
    modifies b`wds, b.x
    ensures b.Normalised() && b.Num() % 2 == 1
    ensures b.Num() * Pow(2, k) == z0 * 0x1_0000_0000 + w1
  {
    var y: Word, z: Word := w1, z0;
    if w1 != 0 {
      k, y := Lo0bits(w1);
      assert Pow(2, 0) == 1;
      if k != 0 {
        PowPositive(2, k);
        y, z := ShiftDown(z0, y, k, w1);
      }
      b.x[0] := y;
      b.x[1] := z;
      b.wds := if z != 0 then 2 else 1;
      TwoWords(y, z);
      OneWord(y);
      assert b.Digits() == if z != 0 then [y, z] else [y];
    } else {
      k, z := Lo0bits(z0);
      b.x[0] := z;
      b.wds := 1;
      OneWord(z);
      assert b.Digits() == [z];
      MoreZeros(z, k, z0);
      k := k + 32;
    }
  }

  lemma MoreZeros(z: nat, k: nat, z0: nat)
    requires z0 == z * Pow(2, k)
    ensures z * Pow(2, k + 32) == z0 * 0x1_0000_0000
  {
    PowAdd(2, k, 32);
    Pow2Of32();
    MulAssoc(z, Pow(2, k), 0x1_0000_0000);
  }

  /** The number of bits from the highest one down. */
  method BitLength(b: Bigint) returns (bits: nat)
    requires b.Normalised() && b.Num() > 0
    ensures Pow(2, bits) <= 2 * b.Num() < 2 * Pow(2, bits)
  {
    TopNonzero(b.Digits());
    var top := b.x[b.wds - 1];
    assert top == b.Digits()[b.wds - 1];
    var h := Hi0bits(top);
    bits := 32 * b.wds - h;
    ValueTop(b.Digits());
    Scaled(top, b.Num(), b.wds - 1, h);
    LengthOf(b.Num(), b.wds - 1, h, bits);
  }

  lemma LengthOf(v: nat, n: nat, h: nat, bits: nat)
    requires bits + h == 32 * (n + 1)
    requires 0x8000_0000 * Weight(n) <= v * Pow(2, h) < 0x1_0000_0000 * Weight(n)
    ensures Pow(2, bits) <= 2 * v < 2 * Pow(2, bits)
  {
    WeightIsPow(n + 1);
    PowAdd(2, bits, h);
    PowPositive(2, h);
    var p := Pow(2, bits);
    assert p * Pow(2, h) == 0x1_0000_0000 * Weight(n);
    hide Pow, Weight;
    MulCancelLess(v, p, Pow(2, h));
    if 2 * v < p {
      MulStrict(2 * v, p, Pow(2, h));
      MulAssoc(2, v, Pow(2, h));
    }
  }

  /** A normal double has fifty-three bits before the trailing zeros go. */
  lemma NormalLength(v: nat, k: nat, m: nat)
    requires v * Pow(2, k) == m && 0x10_0000_0000_0000 <= m < 0x20_0000_0000_0000
    ensures k <= 52 && Pow(2, 53 - k) <= 2 * v < 2 * Pow(2, 53 - k)
  {
    Pow2Of53();
    if k >= 53 {
      PowMonotone(2, 53, k);
      MulMonotone(1, v, Pow(2, k));
    }
    PowAdd(2, 53 - k, k);
    PowPositive(2, k);
    MulCancelLess(v, Pow(2, 53 - k), Pow(2, k));
    if 2 * v < Pow(2, 53 - k) {
      MulStrict(2 * v, Pow(2, 53 - k), Pow(2, k));
      MulAssoc(2, v, Pow(2, k));
    }
  }

  lemma Pow2Of53()
    ensures Pow(2, 53) == 0x20_0000_0000_0000
  {
    Pow2Of32();
    SmallPowers();
    PowAdd(2, 4, 1);
    PowAdd(2, 16, 5);
    PowAdd(2, 32, 21);
  }

  /** The double as an odd number times a power of two: `e` is its exponent, `bits`
      its length, and k zero bits have gone. */
  method D2b(w0: Word, w1: Word) returns (b: Bigint, e: int, bits: nat, ghost k: nat)
    requires Finite(w0, w1)
    ensures fresh(b) && fresh(b.x) && b.Normalised() && b.Num() % 2 == 1
    ensures var x := Decode(w0, w1); b.Num() * Pow(2, k) == x.m && e == x.u + k
    ensures Pow(2, bits) <= 2 * b.Num() < 2 * Pow(2, bits)
    ensures w0 / 0x10_0000 != 0 ==> bits == 53 - k
  {
    hide Pow, Value, Weight;
    var z: Word := w0 % 0x10_0000;
    var de := w0 / 0x10_0000;
    if de != 0 {
      z := z + 0x10_0000;
    }
    b := new Bigint.Balloc(1);
    assert b.maxwds == 2 by { SmallPowers(); }
    var shift := FillWords(b, z, w1);
    k := shift;
    if de != 0 {
      e := de - 1023 - 52 + shift;
      NormalLength(b.Num(), k, z * 0x1_0000_0000 + w1);
      bits := 53 - shift;
    } else {
      e := de - 1023 - 52 + 1 + shift;
      bits := BitLength(b);
    }
  }
}
