/** sha1_process_block of src/embedded/digest/sha1.c, against the hash computation of FIPS 180-4
    section 6.1.2: an 80-word message schedule and shifting working variables. */
module Sha1Blocks {
  import opened Digests

  datatype Hash = Hash(a: bv32, b: bv32, c: bv32, d: bv32, e: bv32)

  // ---------- the standard ----------

  /** Section 4.1.1. */
  function Ch(x: bv32, y: bv32, z: bv32): bv32 { (x & y) ^ (!x & z) }

  function Parity(x: bv32, y: bv32, z: bv32): bv32 { x ^ y ^ z }

  function Maj(x: bv32, y: bv32, z: bv32): bv32 { (x & y) ^ (x & z) ^ (y & z) }

  function Logic(t: nat, x: bv32, y: bv32, z: bv32): bv32 {
    if t < 20 then Ch(x, y, z)
    else if t < 40 then Parity(x, y, z)
    else if t < 60 then Maj(x, y, z)
    else Parity(x, y, z)
  }

  /** Section 4.2.1. */
  function Constant(t: nat): bv32 {
    if t < 20 then 0x5a827999 else if t < 40 then 0x6ed9eba1 else if t < 60 then 0x8f1bbcdc else 0xca62c1d6
  }

  function Big(p: bv8, q: bv8, r: bv8, s: bv8): bv32 {
    ((p as bv32) << 24) | ((q as bv32) << 16) | ((r as bv32) << 8) | (s as bv32)
  }

  /** A message word, most significant byte first. */
  function Word(b: Block, i: nat): bv32
    requires i < 16
  {
    Big(b[4 * i], b[4 * i + 1], b[4 * i + 2], b[4 * i + 3])
  }

  /** The message schedule. */
  function W(m: Block, t: nat): bv32 {
    if t < 16 then Word(m, t)
    else Rotl(W(m, t - 3) ^ W(m, t - 8) ^ W(m, t - 14) ^ W(m, t - 16), 1)
  }

  function Sum(r: bv32, f: bv32, e: bv32, k: bv32, w: bv32): bv32 { r + f + e + k + w }

  function Turn(h: Hash, t: nat, w: bv32): Hash {
    Hash(Sum(Rotl(h.a, 5), Logic(t, h.b, h.c, h.d), h.e, Constant(t), w), h.a, Rotl(h.b, 30), h.c, h.d)
  }

  function Turns(h: Hash, m: Block, t: nat): Hash {
    if t == 0 then h else Turn(Turns(h, m, t - 1), t - 1, W(m, t - 1))
  }

  function Add(h: Hash, g: Hash): Hash {
    Hash(h.a + g.a, h.b + g.b, h.c + g.c, h.d + g.d, h.e + g.e)
  }

  function Compress(h: Hash, m: Block): Hash { Add(h, Turns(h, m, 80)) }

  // ---------- the code ----------

  function F1(b: bv32, c: bv32, d: bv32): bv32 { d ^ (b & (c ^ d)) }

  function F2(b: bv32, c: bv32, d: bv32): bv32 { b ^ c ^ d }

  function F3(b: bv32, c: bv32, d: bv32): bv32 { (b & c) | (d & (b | c)) }

  function F4(b: bv32, c: bv32, d: bv32): bv32 { b ^ c ^ d }

  /** The function and the constant that the line for round t names. */
  function F(t: nat, b: bv32, c: bv32, d: bv32): bv32 {
    if t < 20 then F1(b, c, d) else if t < 40 then F2(b, c, d) else if t < 60 then F3(b, c, d) else F4(b, c, d)
  }

  function K(t: nat): bv32 {
    if t < 20 then 0x5a827999 else if t < 40 then 0x6ed9eba1 else if t < 60 then 0x8f1bbcdc else 0xca62c1d6
  }

  lemma ChooseForm(b: bv32, c: bv32, d: bv32)
    ensures F1(b, c, d) == Ch(b, c, d)
  {
    assert d ^ (b & (c ^ d)) == (b & c) ^ (!b & d);
  }

  lemma MajorityForm(b: bv32, c: bv32, d: bv32)
    ensures F3(b, c, d) == Maj(b, c, d)
  {
    assert (b & c) | (d & (b | c)) == (b & c) ^ (b & d) ^ (c & d);
  }

  /** The rewritten forms are the standard's functions. */
  lemma RewrittenForms(t: nat, b: bv32, c: bv32, d: bv32)
    ensures F(t, b, c, d) == Logic(t, b, c, d) && K(t) == Constant(t)
  {
    hide F1, F3, Ch, Maj;
    ChooseForm(b, c, d);
    MajorityForm(b, c, d);
  }

  /** A word as a little-endian machine loads it, and the macro that swaps it. */
  function Load(b: Block, i: nat): bv32
    requires i < 16
  {
    Little(b[4 * i], b[4 * i + 1], b[4 * i + 2], b[4 * i + 3])
  }

  function Swap(n: bv32): bv32 {
    (n << 24) | ((n & 0xff00) << 8) | ((n >> 8) & 0xff00) | (n >> 24)
  }

  lemma SwapBytes(p: bv8, q: bv8, r: bv8, s: bv8)
    ensures Swap(Little(p, q, r, s)) == Big(p, q, r, s)
  {
  }

  lemma SwapLoad(m: Block, i: nat)
    requires i < 16
    ensures Swap(Load(m, i)) == Word(m, i)
  {
    hide Swap, Little, Big;
    SwapBytes(m[4 * i], m[4 * i + 1], m[4 * i + 2], m[4 * i + 3]);
  }

  /** The sixteen words in x are the last sixteen of the schedule before t, each at its index
      modulo 16. */
  ghost predicate Window(x: seq<bv32>, m: Block, t: nat) {
    && |x| == 16
    && forall j: nat :: j < t <= j + 16 ==> x[j % 16] == W(m, j)
  }

  method LoadWords(m: Block, x: array<bv32>)
    requires x.Length == 16
    modifies x
    ensures Window(x[..], m, 16)
  {
    hide Word, Load, Swap;
    var t := 0;
    while t < 16
      invariant 0 <= t <= 16
      invariant forall j :: 0 <= j < t ==> x[j] == Word(m, j)
    {
      SwapLoad(m, t);
      x[t] := Swap(Load(m, t));
      t := t + 1;
    }
    assert forall j: nat :: j < 16 ==> W(m, j) == Word(m, j);
  }

  /** x[I] for the first sixteen rounds, M(I) after that. */
  method NextWord(x: array<bv32>, i: nat, ghost m: Block) returns (w: bv32)
    requires x.Length == 16
    requires Window(x[..], m, if i < 16 then 16 else i)
    modifies x
    ensures w == W(m, i)
    ensures Window(x[..], m, if i < 15 then 16 else i + 1)
  {
    hide W, Window, Mixed;
    if i < 16 {
      w := x[i];
      InWindow(x[..], m, 16, i);
    } else {
      ghost var was := x[..];
      Taps(was, m, i, i - 16, i - 14, i - 8, i - 3);
      w := Mixed(x[i % 16], x[(i - 14) % 16], x[(i - 8) % 16], x[(i - 3) % 16]);
      x[i % 16] := w;
      SlideWindow(was, m, i);
      assert x[..] == was[i % 16 := w];
    }
  }

  function Mixed(p: bv32, q: bv32, r: bv32, s: bv32): bv32 { Rotl(p ^ q ^ r ^ s, 1) }

  lemma Scheduled(m: Block, i: nat)
    requires i >= 16
    ensures W(m, i) == Mixed(W(m, i - 16), W(m, i - 14), W(m, i - 8), W(m, i - 3))
  {
    hide Mixed, Rotl, Word;
    MixedOrder(W(m, i - 16), W(m, i - 14), W(m, i - 8), W(m, i - 3));
  }

  lemma MixedOrder(p: bv32, q: bv32, r: bv32, s: bv32)
    ensures Mixed(p, q, r, s) == Rotl(s ^ r ^ q ^ p, 1)
  {
    hide Rotl;
    assert p ^ q ^ r ^ s == s ^ r ^ q ^ p;
  }

  lemma Taps(x: seq<bv32>, m: Block, i: nat, a: nat, b: nat, c: nat, d: nat)
    requires a == i - 16 && b == i - 14 && c == i - 8 && d == i - 3 && Window(x, m, i)
    ensures |x| == 16 && Mixed(x[i % 16], x[b % 16], x[c % 16], x[d % 16]) == W(m, i)
  {
    hide W, Window, Mixed;
    InWindow(x, m, i, a);
    InWindow(x, m, i, b);
    InWindow(x, m, i, c);
    InWindow(x, m, i, d);
    Scheduled(m, i);
    SameSlot(a, i);
  }

  lemma SameSlot(j: nat, i: nat)
    requires j == i - 16
    ensures j % 16 == i % 16
  {
  }

  lemma InWindow(x: seq<bv32>, m: Block, t: nat, j: nat)
    requires Window(x, m, t) && j < t <= j + 16
    ensures |x| == 16 && x[j % 16] == W(m, j)
  {
  }

  lemma SlideWindow(x: seq<bv32>, m: Block, t: nat)
    requires t >= 16 && Window(x, m, t)
    ensures Window(x[t % 16 := W(m, t)], m, t + 1)
  {
    var y := x[t % 16 := W(m, t)];
    forall j: nat | j < t + 1 <= j + 16
      ensures y[j % 16] == W(m, j)
    {
      if j < t {
        OtherSlot(j, t);
        assert x[j % 16] == W(m, j);
      }
    }
  }

  lemma OtherSlot(j: nat, t: nat)
    requires t < j + 16 && j < t
    ensures j % 16 != t % 16
  {
  }

  function Increase(e: bv32, r: bv32, f: bv32, k: bv32, m: bv32): bv32 { e + (r + f + k + m) }

  lemma SumOrder(e: bv32, r: bv32, f: bv32, k: bv32, m: bv32)
    ensures Increase(e, r, f, k, m) == Sum(r, f, e, k, m)
  {
  }

  /** The macro R: it changes e and b and leaves the other names alone. */
  method R(a: bv32, b: bv32, c: bv32, d: bv32, e: bv32, t: nat, m: bv32) returns (e': bv32, b': bv32)
    ensures Hash(e', a, b', c, d) == Turn(Hash(a, b, c, d, e), t, m)
  {
    hide F, Logic, K, Constant, Rotl, Sum, Increase;
    RewrittenForms(t, b, c, d);
    SumOrder(e, Rotl(a, 5), F(t, b, c, d), K(t), m);
    e' := Increase(e, Rotl(a, 5), F(t, b, c, d), K(t), m);
    b' := Rotl(b, 30);
  }

  /** Five lines of the round list: every name has been in every place once, so the names are
      back where they started. */
  method FiveRounds(x: array<bv32>, t: nat, ghost m: Block, h: Hash) returns (g: Hash)
    requires x.Length == 16
    requires Window(x[..], m, if t < 16 then 16 else t)
    modifies x
    ensures Window(x[..], m, if t + 5 < 16 then 16 else t + 5)
    ensures g == Turn(Turn(Turn(Turn(Turn(h, t, W(m, t)), t + 1, W(m, t + 1)),
                                t + 2, W(m, t + 2)), t + 3, W(m, t + 3)), t + 4, W(m, t + 4))
  {
    hide W, Turn, Window;
    var a, b, c, d, e := h.a, h.b, h.c, h.d, h.e;
    var w := NextWord(x, t, m);
    e, b := R(a, b, c, d, e, t, w);
    w := NextWord(x, t + 1, m);
    d, a := R(e, a, b, c, d, t + 1, w);
    w := NextWord(x, t + 2, m);
    c, e := R(d, e, a, b, c, t + 2, w);
    w := NextWord(x, t + 3, m);
    b, d := R(c, d, e, a, b, t + 3, w);
    w := NextWord(x, t + 4, m);
    a, c := R(b, c, d, e, a, t + 4, w);
    g := Hash(a, b, c, d, e);
  }

  lemma FiveTurns(h: Hash, m: Block, t: nat)
    ensures Turns(h, m, t + 5)
         == Turn(Turn(Turn(Turn(Turn(Turns(h, m, t), t, W(m, t)), t + 1, W(m, t + 1)),
                                t + 2, W(m, t + 2)), t + 3, W(m, t + 3)), t + 4, W(m, t + 4))
  {
    hide W, Turn;
    assert Turns(h, m, t + 1) == Turn(Turns(h, m, t), t, W(m, t));
    assert Turns(h, m, t + 2) == Turn(Turns(h, m, t + 1), t + 1, W(m, t + 1));
    assert Turns(h, m, t + 3) == Turn(Turns(h, m, t + 2), t + 2, W(m, t + 2));
    assert Turns(h, m, t + 4) == Turn(Turns(h, m, t + 3), t + 3, W(m, t + 3));
    assert Turns(h, m, t + 5) == Turn(Turns(h, m, t + 4), t + 4, W(m, t + 4));
  }

  /** One turn of the block loop: sixteen loads, eighty rounds, the final additions. */
  method OneBlock(m: Block, h: Hash, x: array<bv32>) returns (g: Hash)
    requires x.Length == 16
    modifies x
    ensures g == Compress(h, m)
  {
    hide W, Turn, Window;
    LoadWords(m, x);
    g := h;
    var t := 0;
    while t < 80
      invariant 0 <= t <= 80 && t % 5 == 0
      invariant Window(x[..], m, if t < 16 then 16 else t)
      invariant g == Turns(h, m, t)
    {
      FiveTurns(h, m, t);
      g := FiveRounds(x, t, m, g);
      t := t + 5;
    }
    g := Add(h, g);
  }
}
