/** md5_process_block of src/embedded/digest/md5.c, against RFC 1321 section 3.4 with the
    registers shifting instead of being renamed line by line. */
module Md5Blocks {
  import opened Digests

  datatype Quad = Quad(a: bv32, b: bv32, c: bv32, d: bv32)

  // ---------- the standard ----------

  function F(x: bv32, y: bv32, z: bv32): bv32 { (x & y) | (!x & z) }

  function G(x: bv32, y: bv32, z: bv32): bv32 { (x & z) | (y & !z) }

  function H(x: bv32, y: bv32, z: bv32): bv32 { x ^ y ^ z }

  function I(x: bv32, y: bv32, z: bv32): bv32 { y ^ (x | !z) }

  function Logic(i: nat, x: bv32, y: bv32, z: bv32): bv32 {
    if i < 16 then F(x, y, z) else if i < 32 then G(x, y, z) else if i < 48 then H(x, y, z) else I(x, y, z)
  }

  /** The constants of each round: T[i + 1] of the standard is the integer part of 2^32 times
      the absolute sine of i + 1. */
  function Sines1(): (s: seq<bv32>)
    ensures |s| == 16
  {
    [0xd76aa478, 0xe8c7b756, 0x242070db, 0xc1bdceee, 0xf57c0faf, 0x4787c62a,
     0xa8304613, 0xfd469501, 0x698098d8, 0x8b44f7af, 0xffff5bb1, 0x895cd7be,
     0x6b901122, 0xfd987193, 0xa679438e, 0x49b40821]
  }

  function Sines2(): (s: seq<bv32>)
    ensures |s| == 16
  {
    [0xf61e2562, 0xc040b340, 0x265e5a51, 0xe9b6c7aa, 0xd62f105d, 0x02441453,
     0xd8a1e681, 0xe7d3fbc8, 0x21e1cde6, 0xc33707d6, 0xf4d50d87, 0x455a14ed,
     0xa9e3e905, 0xfcefa3f8, 0x676f02d9, 0x8d2a4c8a]
  }

  function Sines3(): (s: seq<bv32>)
    ensures |s| == 16
  {
    [0xfffa3942, 0x8771f681, 0x6d9d6122, 0xfde5380c, 0xa4beea44, 0x4bdecfa9,
     0xf6bb4b60, 0xbebfbc70, 0x289b7ec6, 0xeaa127fa, 0xd4ef3085, 0x04881d05,
     0xd9d4d039, 0xe6db99e5, 0x1fa27cf8, 0xc4ac5665]
  }

  function Sines4(): (s: seq<bv32>)
    ensures |s| == 16
  {
    [0xf4292244, 0x432aff97, 0xab9423a7, 0xfc93a039, 0x655b59c3, 0x8f0ccc92,
     0xffeff47d, 0x85845dd1, 0x6fa87e4f, 0xfe2ce6e0, 0xa3014314, 0x4e0811a1,
     0xf7537e82, 0xbd3af235, 0x2ad7d2bb, 0xeb86d391]
  }

  function T(i: nat): bv32
    requires i < 64
  {
    if i < 16 then Sines1()[i] else if i < 32 then Sines2()[i - 16]
    else if i < 48 then Sines3()[i - 32] else Sines4()[i - 48]
  }

  /** The message word of operation i. */
  function Index(i: nat): (k: nat)
    ensures k < 16
  {
    if i < 16 then i else if i < 32 then (5 * i + 1) % 16 else if i < 48 then (3 * i + 5) % 16 else 7 * i % 16
  }

  /** Its rotation. */
  function Shift(i: nat): (s: bv32)
    ensures s < 32
  {
    if i < 16 then [7, 12, 17, 22][i % 4]
    else if i < 32 then [5, 9, 14, 20][i % 4]
    else if i < 48 then [4, 11, 16, 23][i % 4]
    else [6, 10, 15, 21][i % 4]
  }

  function Word(b: Block, i: nat): bv32
    requires i < 16
  {
    Little(b[4 * i], b[4 * i + 1], b[4 * i + 2], b[4 * i + 3])
  }

  /** b + ((a + f(b, c, d) + X[k] + T[i]) <<< s) */
  function Mixed(a: bv32, b: bv32, f: bv32, w: bv32, t: bv32, s: bv32): bv32
    requires s <= 32
  {
    b + Rotl(a + f + w + t, s)
  }

  function Turn(q: Quad, i: nat, w: bv32): Quad
    requires i < 64
  {
    Quad(q.d, Mixed(q.a, q.b, Logic(i, q.b, q.c, q.d), w, T(i), Shift(i)), q.b, q.c)
  }

  function Turns(q: Quad, m: Block, i: nat): Quad
    requires i <= 64
  {
    if i == 0 then q else Turn(Turns(q, m, i - 1), i - 1, Word(m, Index(i - 1)))
  }

  function Add(p: Quad, q: Quad): Quad {
    Quad(p.a + q.a, p.b + q.b, p.c + q.c, p.d + q.d)
  }

  function Compress(q: Quad, m: Block): Quad { Add(Turns(q, m, 64), q) }

  // ---------- the code ----------

  function FF(b: bv32, c: bv32, d: bv32): bv32 { d ^ (b & (c ^ d)) }

  function FG(b: bv32, c: bv32, d: bv32): bv32 { FF(d, b, c) }

  function FH(b: bv32, c: bv32, d: bv32): bv32 { b ^ c ^ d }

  function FI(b: bv32, c: bv32, d: bv32): bv32 { c ^ (b | !d) }

  /** The function that line i names. */
  function Named(i: nat, b: bv32, c: bv32, d: bv32): bv32 {
    if i < 16 then FF(b, c, d) else if i < 32 then FG(b, c, d) else if i < 48 then FH(b, c, d) else FI(b, c, d)
  }

  /** The word numbers written in the lines of rounds 2, 3 and 4; round 1 takes the words in
      order. */
  function Words2(): (s: seq<nat>)
    ensures |s| == 16
  {
    [1, 6, 11, 0, 5, 10, 15, 4, 9, 14, 3, 8, 13, 2, 7, 12]
  }

  function Words3(): (s: seq<nat>)
    ensures |s| == 16
  {
    [5, 8, 11, 14, 1, 4, 7, 10, 13, 0, 3, 6, 9, 12, 15, 2]
  }

  function Words4(): (s: seq<nat>)
    ensures |s| == 16
  {
    [0, 7, 14, 5, 12, 3, 10, 1, 8, 15, 6, 13, 4, 11, 2, 9]
  }

  function ListedWord(i: nat): nat
    requires i < 64
  {
    if i < 16 then i else if i < 32 then Words2()[i - 16] else if i < 48 then Words3()[i - 32] else Words4()[i - 48]
  }

  /** The rotations written in the lines of each round. */
  function Cycles1(): (s: seq<bv32>)
    ensures |s| == 16
  {
    [7, 12, 17, 22, 7, 12, 17, 22, 7, 12, 17, 22, 7, 12, 17, 22]
  }

  function Cycles2(): (s: seq<bv32>)
    ensures |s| == 16
  {
    [5, 9, 14, 20, 5, 9, 14, 20, 5, 9, 14, 20, 5, 9, 14, 20]
  }

  function Cycles3(): (s: seq<bv32>)
    ensures |s| == 16
  {
    [4, 11, 16, 23, 4, 11, 16, 23, 4, 11, 16, 23, 4, 11, 16, 23]
  }

  function Cycles4(): (s: seq<bv32>)
    ensures |s| == 16
  {
    [6, 10, 15, 21, 6, 10, 15, 21, 6, 10, 15, 21, 6, 10, 15, 21]
  }

  function ListedCycle(i: nat): bv32
    requires i < 64
  {
    if i < 16 then Cycles1()[i] else if i < 32 then Cycles2()[i - 16]
    else if i < 48 then Cycles3()[i - 32] else Cycles4()[i - 48]
  }

  lemma ChooseForm(b: bv32, c: bv32, d: bv32)
    ensures FF(b, c, d) == F(b, c, d)
  {
    assert d ^ (b & (c ^ d)) == (b & c) | (!b & d);
  }

  lemma ChooseLastForm(b: bv32, c: bv32, d: bv32)
    ensures FG(b, c, d) == G(b, c, d)
  {
    assert c ^ (d & (b ^ c)) == (b & d) | (c & !d);
  }

  lemma RewrittenForms(i: nat, b: bv32, c: bv32, d: bv32)
    ensures Named(i, b, c, d) == Logic(i, b, c, d)
  {
    hide FF, FG, F, G;
    ChooseForm(b, c, d);
    ChooseLastForm(b, c, d);
  }

  lemma Rows(j: nat)
    requires j < 16
    ensures Words2()[j] == (5 * (j + 16) + 1) % 16
    ensures Words3()[j] == (3 * (j + 32) + 5) % 16
    ensures Words4()[j] == 7 * (j + 48) % 16
  {
  }

  lemma CycleRows(j: nat)
    requires j < 16
    ensures Cycles1()[j] == [7, 12, 17, 22][j % 4] && Cycles2()[j] == [5, 9, 14, 20][j % 4]
    ensures Cycles3()[j] == [4, 11, 16, 23][j % 4] && Cycles4()[j] == [6, 10, 15, 21][j % 4]
  {
    var k := j % 4;
    assert j == k || j == k + 4 || j == k + 8 || j == k + 12;
  }

  /** The numbers listed line by line are those of the index and rotation rules. */
  lemma ListedNumbers(i: nat)
    requires i < 64
    ensures ListedWord(i) == Index(i) && ListedCycle(i) == Shift(i)
  {
    hide Words2, Words3, Words4, Cycles1, Cycles2, Cycles3, Cycles4;
    var q := if i < 16 then 0 else if i < 32 then 16 else if i < 48 then 32 else 48;
    SameCycle(i, q);
    Rows(i - q);
    CycleRows(i - q);
  }

  lemma SameCycle(i: nat, q: nat)
    requires q <= i && q % 4 == 0
    ensures (i - q) % 4 == i % 4
  {
  }

  function Bumped(a: bv32, b: bv32, f: bv32, w: bv32, t: bv32, s: bv32): bv32
    requires s <= 32
  {
    Rotl(a + (f + w + t), s) + b
  }

  lemma SumOrder(a: bv32, b: bv32, f: bv32, w: bv32, t: bv32, s: bv32)
    requires s <= 32
    ensures Bumped(a, b, f, w, t, s) == Mixed(a, b, f, w, t, s)
  {
    hide Rotl;
    assert a + (f + w + t) == a + f + w + t;
  }

  /** The macro OP: it changes a alone. */
  method Op(a: bv32, b: bv32, c: bv32, d: bv32, i: nat, w: bv32) returns (a': bv32)
    requires i < 64
    ensures Quad(d, a', b, c) == Turn(Quad(a, b, c, d), i, w)
  {
    hide Named, Logic, Mixed, Bumped, ListedCycle, Shift;
    RewrittenForms(i, b, c, d);
    ListedNumbers(i);
    SumOrder(a, b, Named(i, b, c, d), w, T(i), ListedCycle(i));
    a' := Bumped(a, b, Named(i, b, c, d), w, T(i), ListedCycle(i));
  }

  /** correct_words: the words of the block that have been read so far. */
  ghost predicate Read(x: seq<bv32>, m: Block, i: nat) {
    |x| == 16 && forall j :: 0 <= j < 16 && j < i ==> x[j] == Word(m, j)
  }

  /** The word of line i: the first sixteen lines read and keep it, the others look it up. */
  method NextWord(m: Block, x: array<bv32>, i: nat) returns (w: bv32)
    requires i < 64 && x.Length == 16 && Read(x[..], m, i)
    modifies x
    ensures w == Word(m, Index(i)) && Read(x[..], m, i + 1)
  {
    hide Word;
    if i < 16 {
      w := Word(m, i);
      x[i] := w;
    } else {
      ListedNumbers(i);
      w := x[ListedWord(i)];
      assert x[..][Index(i)] == Word(m, Index(i));
    }
  }

  /** Four lines: every name has been in every place once. */
  method FourRounds(m: Block, x: array<bv32>, i: nat, q: Quad) returns (r: Quad)
    requires i + 4 <= 64 && x.Length == 16 && Read(x[..], m, i)
    modifies x
    ensures Read(x[..], m, i + 4)
    ensures r == Turn(Turn(Turn(Turn(q, i, Word(m, Index(i))), i + 1, Word(m, Index(i + 1))),
                                i + 2, Word(m, Index(i + 2))), i + 3, Word(m, Index(i + 3)))
  {
    hide Turn, Word, Index, Read;
    var a, b, c, d := q.a, q.b, q.c, q.d;
    var w := NextWord(m, x, i);
    a := Op(a, b, c, d, i, w);
    w := NextWord(m, x, i + 1);
    d := Op(d, a, b, c, i + 1, w);
    w := NextWord(m, x, i + 2);
    c := Op(c, d, a, b, i + 2, w);
    w := NextWord(m, x, i + 3);
    b := Op(b, c, d, a, i + 3, w);
    r := Quad(a, b, c, d);
  }

  lemma FourTurns(q: Quad, m: Block, i: nat)
    requires i + 4 <= 64
    ensures Turns(q, m, i + 4)
         == Turn(Turn(Turn(Turn(Turns(q, m, i), i, Word(m, Index(i))), i + 1, Word(m, Index(i + 1))),
                                i + 2, Word(m, Index(i + 2))), i + 3, Word(m, Index(i + 3)))
  {
    hide Turn, Word, Index;
    assert Turns(q, m, i + 1) == Turn(Turns(q, m, i), i, Word(m, Index(i)));
    assert Turns(q, m, i + 2) == Turn(Turns(q, m, i + 1), i + 1, Word(m, Index(i + 1)));
    assert Turns(q, m, i + 3) == Turn(Turns(q, m, i + 2), i + 2, Word(m, Index(i + 2)));
    assert Turns(q, m, i + 4) == Turn(Turns(q, m, i + 3), i + 3, Word(m, Index(i + 3)));
  }

  /** One turn of the block loop: the 64 lines and the addition of the saved registers. */
  method OneBlock(m: Block, q: Quad, x: array<bv32>) returns (r: Quad)
    requires x.Length == 16
    modifies x
    ensures r == Compress(q, m)
  {
    hide Turn, Word, Index;
    r := q;
    var i := 0;
    while i < 64
      invariant 0 <= i <= 64 && i % 4 == 0
      invariant Read(x[..], m, i)
      invariant r == Turns(q, m, i)
    {
      FourTurns(q, m, i);
      r := FourRounds(m, x, i, r);
      i := i + 4;
    }
    r := Add(r, q);
  }
}
