/** Multiplication by powers of five through the shared, lazily extended list
    of the numbers 5^(4*2^i). */
module PowersOfFive {
  import opened Words
  import opened Bigints

  /** The exponent of the i-th list entry. */
  function ListExponent(i: nat): nat
  {
    if i == 0 then 4 else 2 * ListExponent(i - 1)
  }

  /** The i-th list entry: 625 squared i times. */
  function Entry(i: nat): nat
  {
    Pow(5, ListExponent(i))
  }

  lemma {:induction false} ListExponentIsPow(i: nat)
    ensures ListExponent(i) == 4 * Pow(2, i)
  {
    if i > 0 {
      ListExponentIsPow(i - 1);
    }
  }

  lemma EntrySquared(i: nat)
    ensures Entry(i + 1) == Entry(i) * Entry(i)
  {
    PowAdd(5, ListExponent(i), ListExponent(i));
  }

  /** p5s and the blocks reached from it through `next`. */
  class Pow5List {
    var blocks: seq<Bigint>

    ghost predicate Valid()
      reads this, blocks, set b <- blocks :: b.x
    {
      forall i :: 0 <= i < |blocks| ==> blocks[i].Normalised() && blocks[i].Num() == Entry(i)
    }

    /** The blocks of the list stay, and those added to it are new ones. */
    twostate predicate Grown()
      reads this
    {
      && old(blocks) <= blocks
      && forall i :: |old(blocks)| <= i < |blocks| ==> fresh(blocks[i]) && fresh(blocks[i].x)
    }

    /** No block of the list is b or shares its words. */
    ghost predicate Clear(b: Bigint)
      reads this
    {
      forall i :: 0 <= i < |blocks| ==> Apart(b, blocks[i])
    }

    constructor ()
      ensures Valid() && blocks == []
    {
      blocks := [];
    }

    /** The first element, made at the first call. */
    method First() returns (p5: Bigint)
      requires Valid()
      modifies this
      ensures Valid() && |blocks| > 0 && p5 == blocks[0]
      ensures if old(blocks) == [] then blocks == [p5] && fresh(p5) && fresh(p5.x) else blocks == old(blocks)
    {
      if blocks == [] {
        p5 := I2b(625);
        assert Entry(0) == 625 by { assert Pow(5, 2) == 25; PowAdd(5, 2, 2); }
        blocks := [p5];
      } else {
        p5 := blocks[0];
      }
    }

    /** The next element, made by squaring when the list ends. */
    method Next(i: nat) returns (p51: Bigint)
      requires Valid() && i < |blocks|
      modifies this
      ensures Valid() && i + 1 < |blocks| && p51 == blocks[i + 1]
      ensures if i + 1 < |old(blocks)| then blocks == old(blocks)
              else blocks == old(blocks) + [p51] && fresh(p51) && fresh(p51.x)
    {
      if i + 1 < |blocks| {
        p51 := blocks[i + 1];
      } else {
        EntryPositive(i);
        EntrySquared(i);
        p51 := Mult(blocks[i], blocks[i]);
        blocks := blocks + [p51];
      }
    }
  }

  lemma EntryPositive(i: nat)
    ensures Entry(i) > 0
  {
    PowPositive(5, ListExponent(i));
  }

  /** One binary digit of the exponent: p^k is p^(k mod 2) times the square's
      power. */
  lemma HalveExponent(p: nat, k: nat)
    ensures Pow(p, k) == (if k % 2 == 1 then p else 1) * Pow(p * p, k / 2)
  {
    var h := k / 2;
    PowMul(p, 2, h);
    assert Pow(p, 2) == p * p by { assert Pow(p, 1) == p * Pow(p, 0); }
    if k % 2 == 1 {
      PowAdd(p, 1, 2 * h);
      assert Pow(p, 1) == p * Pow(p, 0);
    }
  }

  /** One turn on numbers: with j bits of the exponent still to go. */
  lemma FiveStep(v: nat, i: nat, k: nat, v': nat)
    requires v' == if k % 2 == 1 then v * Entry(i) else v
    ensures v * Pow(Entry(i), k) == v' * Pow(Entry(i + 1), k / 2)
    ensures k / 2 == 0 ==> v * Pow(Entry(i), k) == v'
  {
    HalveExponent(Entry(i), k);
    EntrySquared(i);
    MulAssoc(v, Entry(i), Pow(Entry(i + 1), k / 2));
    assert Pow(Entry(i + 1), 0) == 1;
  }

  /** What the rest of the loop makes of v: times the k-th power of entry i. */
  predicate Reaches(v: nat, i: nat, k: nat, target: nat)
  {
    v * Pow(Entry(i), k) == target
  }

  /** 5^k from its two lowest binary digits and the rest. */
  lemma SplitFive(v: nat, k: nat, w: nat)
    requires w == v * Pow(5, k % 4)
    ensures w * Pow(Entry(0), k / 4) == v * Pow(5, k)
    ensures k / 4 == 0 ==> w == v * Pow(5, k)
  {
    PowMul(5, 4, k / 4);
    PowAdd(5, k % 4, 4 * (k / 4));
    MulAssoc(v, Pow(5, k % 4), Pow(Entry(0), k / 4));
  }

  /** b * 5^k for every k, whatever the list already holds. */
  method Pow5mult(b0: Bigint, k0: nat, p5s: Pow5List) returns (b: Bigint)
    requires b0.Normalised() && b0.Num() > 0 && p5s.Valid() && p5s.Clear(b0)
    modifies b0, b0.x, p5s
    ensures b.Normalised() && b.Num() == old(b0.Num()) * Pow(5, k0)
    ensures b == b0 || (fresh(b) && fresh(b.x))
    ensures p5s.Valid() && p5s.Grown() && p5s.Clear(b)
  {
    ghost var v := b0.Num();
    b := SmallFive(b0, k0 % 4);
    SplitFive(v, k0, b.Num());
    if k0 / 4 > 0 {
      b := Square(b, k0 / 4, p5s);
    }
  }

  /** The factor for the two low bits of the exponent, from a table. */
  method SmallFive(b0: Bigint, i: nat) returns (b: Bigint)
    requires b0.Normalised() && b0.Num() > 0 && i < 4
    modifies b0, b0.x
    ensures b.Normalised() && b.Num() == old(b0.Num()) * Pow(5, i) && b.Num() > 0
    ensures b == b0 || (fresh(b) && fresh(b.x))
  {
    assert Pow(5, 0) == 1 && Pow(5, 1) == 5 && Pow(5, 2) == 25 && Pow(5, 3) == 125;
    b := b0;
    if i != 0 {
      b := Multadd(b, if i == 1 then 5 else if i == 2 then 25 else 125, 0);
    }
  }

  /** One turn of the loop: multiply in the list entry for an odd exponent. */
  method MultIfOdd(b0: Bigint, p5: Bigint, ghost i: nat, k: nat, ghost target: nat) returns (b: Bigint)
    requires b0.Normalised() && b0.Num() > 0 && p5.Normalised() && p5.Num() == Entry(i)
    requires Reaches(b0.Num(), i, k, target)
    ensures b.Normalised() && b.Num() > 0 && (b == b0 || (fresh(b) && fresh(b.x)))
    ensures Reaches(b.Num(), i + 1, k / 2, target)
    ensures k / 2 == 0 ==> b.Num() == target
  {
    b := b0;
    if k % 2 == 1 {
      EntryPositive(i);
      MulStrict(0, b.Num(), Entry(i));
      b := Mult(b, p5);
    }
    FiveStep(b0.Num(), i, k, b.Num());
  }

  /** The whole turn: halve the exponent and move down the list. */
  method Turn(b0: Bigint, i: nat, k0: nat, p5s: Pow5List, ghost target: nat) returns (b: Bigint, k: nat)
    requires b0.Normalised() && b0.Num() > 0 && p5s.Valid() && i < |p5s.blocks|
    requires Reaches(b0.Num(), i, k0, target) && p5s.Clear(b0)
    modifies p5s
    ensures b.Normalised() && b.Num() > 0 && (b == b0 || (fresh(b) && fresh(b.x)))
    ensures p5s.Valid() && p5s.Grown() && p5s.Clear(b) && k == k0 / 2
    ensures if k == 0 then b.Num() == target else i + 1 < |p5s.blocks| && Reaches(b.Num(), i + 1, k, target)
  {
    hide Reaches, Entry, Value, Normal;
    b := MultIfOdd(b0, p5s.blocks[i], i, k0, target);
    k := k0 / 2;
    if k > 0 {
      var p51 := p5s.Next(i);
    }
  }

  /** What pow5mult does with the exponent once its two low bits are gone. */
  method Square(b0: Bigint, k: nat, p5s: Pow5List) returns (b: Bigint)
    requires b0.Normalised() && b0.Num() > 0 && p5s.Valid() && p5s.Clear(b0) && k > 0
    modifies p5s
    ensures b.Normalised() && b.Num() == b0.Num() * Pow(Entry(0), k)
    ensures b == b0 || (fresh(b) && fresh(b.x))
    ensures p5s.Valid() && p5s.Grown() && p5s.Clear(b)
  {
    ghost var target := b0.Num() * Pow(Entry(0), k);
    assert Reaches(b0.Num(), 0, k, target);
    var p5 := p5s.First();
    b := SquareFrom(b0, k, p5s, target);
  }

  /** The loop over the binary digits of the exponent. */
  method SquareFrom(b0: Bigint, k0: nat, p5s: Pow5List, ghost target: nat) returns (b: Bigint)
    requires b0.Normalised() && b0.Num() > 0 && p5s.Valid() && p5s.blocks != [] && p5s.Clear(b0) && k0 > 0
    requires Reaches(b0.Num(), 0, k0, target)
    modifies p5s
    ensures b.Normalised() && b.Num() == target
    ensures b == b0 || (fresh(b) && fresh(b.x))
    ensures p5s.Valid() && p5s.Grown() && p5s.Clear(b)
  {
    hide Reaches, Entry, Value, Normal, Pow;
    b := b0;
    var i, k := 0, k0;
    while k != 0
      invariant p5s.Valid() && p5s.Grown() && p5s.Clear(b) && (k != 0 ==> i < |p5s.blocks|)
      invariant b.Normalised() && b.Num() > 0 && (b == b0 || (fresh(b) && fresh(b.x)))
      invariant if k == 0 then b.Num() == target else Reaches(b.Num(), i, k, target)
      decreases k
    {
      b, k := Turn(b, i, k, p5s, target);
      i := i + 1;
    }
  }
}
