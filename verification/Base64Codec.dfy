/** Base64encode and Base64decode of ap_base64.c against section 4 of RFC 4648. */
module Base64Codec {

  type Octet = n: int | 0 <= n < 256 witness 0
  type Sextet = n: int | 0 <= n < 64 witness 0

  // ---------- the alphabet ----------

  /** basis_64 */
  function Basis(v: Sextet): char
  {
    if v < 26 then 'A' + v as char
    else if v < 52 then 'a' + (v - 26) as char
    else if v < 62 then '0' + (v - 52) as char
    else if v == 62 then '+'
    else '/'
  }

  /** pr2six: 64 for every character outside the alphabet. */
  function Six(c: char): (v: int)
    ensures 0 <= v <= 64
  {
    if 'A' <= c <= 'Z' then c as int - 'A' as int
    else if 'a' <= c <= 'z' then c as int - 'a' as int + 26
    else if '0' <= c <= '9' then c as int - '0' as int + 52
    else if c == '+' then 62
    else if c == '/' then 63
    else 64
  }

  lemma SixOfBasis(v: Sextet)
    ensures Six(Basis(v)) == v
  {
  }

  /** Table 1 of the RFC, row by row. */
  lemma Alphabet()
    ensures [Basis(0), Basis(1), Basis(2), Basis(3), Basis(4), Basis(5), Basis(6), Basis(7)]
         == "ABCDEFGH"
    ensures [Basis(8), Basis(9), Basis(10), Basis(11), Basis(12), Basis(13), Basis(14), Basis(15)]
         == "IJKLMNOP"
    ensures [Basis(16), Basis(17), Basis(18), Basis(19), Basis(20), Basis(21), Basis(22), Basis(23)]
         == "QRSTUVWX"
    ensures [Basis(24), Basis(25), Basis(26), Basis(27), Basis(28), Basis(29), Basis(30), Basis(31)]
         == "YZabcdef"
    ensures [Basis(32), Basis(33), Basis(34), Basis(35), Basis(36), Basis(37), Basis(38), Basis(39)]
         == "ghijklmn"
    ensures [Basis(40), Basis(41), Basis(42), Basis(43), Basis(44), Basis(45), Basis(46), Basis(47)]
         == "opqrstuv"
    ensures [Basis(48), Basis(49), Basis(50), Basis(51), Basis(52), Basis(53), Basis(54), Basis(55)]
         == "wxyz0123"
    ensures [Basis(56), Basis(57), Basis(58), Basis(59), Basis(60), Basis(61), Basis(62), Basis(63)]
         == "456789+/"
  {
  }

  /** The values of the characters are those of that table, and no other character has one. */
  lemma SixExactly(c: char, v: Sextet)
    ensures Six(c) == v <==> Basis(v) == c
    ensures Six(c) < 64 ==> Basis(Six(c)) == c
  {
  }

  // ---------- the standard ----------

  /** Three bytes as a 24-bit group, and the group as its four 6-bit values. */
  function Group24(a: int, b: int, c: int): int
  {
    a * 65536 + b * 256 + c
  }

  function SixBits(n: int, k: nat): (v: Sextet)
    requires 0 <= n < 0x100_0000 && k < 4
  {
    if k == 0 then n / 262144 else if k == 1 then n / 4096 % 64 else if k == 2 then n / 64 % 64 else n % 64
  }

  /** Whole groups become four values; the last one, if short, is padded with zero
      bits on the right and becomes as many values as it has bits for. */
  function Sextets(x: seq<Octet>): (vs: seq<Sextet>)
  {
    if |x| == 0 then []
    else if |x| == 1 then
      var n := Group24(x[0], 0, 0);
      [SixBits(n, 0), SixBits(n, 1)]
    else if |x| == 2 then
      var n := Group24(x[0], x[1], 0);
      [SixBits(n, 0), SixBits(n, 1), SixBits(n, 2)]
    else
      var n := Group24(x[0], x[1], x[2]);
      [SixBits(n, 0), SixBits(n, 1), SixBits(n, 2), SixBits(n, 3)] + Sextets(x[3..])
  }

  function Characters(vs: seq<Sextet>): (s: string)
    ensures |s| == |vs| && forall i :: 0 <= i < |vs| ==> s[i] == Basis(vs[i])
  {
    seq(|vs|, i requires 0 <= i < |vs| => Basis(vs[i]))
  }

  function Pads(n: nat): string
  {
    if n % 3 == 0 then "" else if n % 3 == 1 then "==" else "="
  }

  function Encoded(x: seq<Octet>): string
  {
    Characters(Sextets(x)) + Pads(|x|)
  }

  /** Four 6-bit values as a group, and its bytes. */
  function Group4(a: int, b: int, c: int, d: int): int
  {
    a * 262144 + b * 4096 + c * 64 + d
  }

  function EightBits(n: int, k: nat): (v: Octet)
    requires 0 <= n < 0x100_0000 && k < 3
  {
    if k == 0 then n / 65536 else if k == 1 then n / 256 % 256 else n % 256
  }

  /** The bytes that 6-bit values spell whole; a single one left over spells none. */
  function Octets(vs: seq<Sextet>): seq<Octet>
  {
    if |vs| < 2 then []
    else if |vs| == 2 then [EightBits(Group4(vs[0], vs[1], 0, 0), 0)]
    else if |vs| == 3 then
      var n := Group4(vs[0], vs[1], vs[2], 0);
      [EightBits(n, 0), EightBits(n, 1)]
    else
      var n := Group4(vs[0], vs[1], vs[2], vs[3]);
      [EightBits(n, 0), EightBits(n, 1), EightBits(n, 2)] + Octets(vs[4..])
  }

  // ---------- round trip ----------

  lemma Digits64(p: int, q: int, r: int, s: int)
    requires 0 <= p < 64 && 0 <= q < 64 && 0 <= r < 64 && 0 <= s < 64
    ensures var n := Group4(p, q, r, s);
      0 <= n < 0x100_0000 && SixBits(n, 0) == p && SixBits(n, 1) == q && SixBits(n, 2) == r && SixBits(n, 3) == s
  {
    var n := Group4(p, q, r, s);
    assert n / 64 == p * 4096 + q * 64 + r;
    assert n / 4096 == p * 64 + q;
  }

  /** The bits of three bytes, cut at other places. */
  lemma Recut(a1: int, a0: int, b1: int, b0: int, c1: int, c0: int)
    ensures Group24(4 * a1 + a0, 16 * b1 + b0, 64 * c1 + c0) == Group4(a1, a0 * 16 + b1, b0 * 4 + c1, c0)
  {
  }

  lemma Digits256(p: int, q: int, r: int)
    requires 0 <= p < 256 && 0 <= q < 256 && 0 <= r < 256
    ensures var n := Group24(p, q, r);
      0 <= n < 0x100_0000 && EightBits(n, 0) == p && EightBits(n, 1) == q && EightBits(n, 2) == r
  {
    var n := Group24(p, q, r);
    assert n / 256 == p * 256 + q;
  }

  lemma GroupBack(a: Octet, b: Octet, c: Octet)
    ensures var n := Group24(a, b, c);
      && Group4(SixBits(n, 0), SixBits(n, 1), SixBits(n, 2), SixBits(n, 3)) == n
      && EightBits(n, 0) == a && EightBits(n, 1) == b && EightBits(n, 2) == c
    ensures c == 0 ==> SixBits(Group24(a, b, c), 3) == 0
    ensures b == c == 0 ==> SixBits(Group24(a, b, c), 2) == 0
  {
    hide SixBits, EightBits, Group24, Group4;
    Recut(a / 4, a % 4, b / 16, b % 16, c / 64, c % 64);
    Digits64(a / 4, a % 4 * 16 + b / 16, b % 16 * 4 + c / 64, c % 64);
    Digits256(a, b, c);
  }

  lemma {:induction false} SextetsBack(x: seq<Octet>)
    ensures Octets(Sextets(x)) == x
  {
    hide SixBits, EightBits, Group24, Group4;
    if |x| >= 3 {
      GroupBack(x[0], x[1], x[2]);
      SextetsBack(x[3..]);
      assert Sextets(x)[4..] == Sextets(x[3..]);
      assert x == [x[0], x[1], x[2]] + x[3..];
    } else if |x| == 2 {
      GroupBack(x[0], x[1], 0);
    } else if |x| == 1 {
      GroupBack(x[0], 0, 0);
    }
  }

  function At(t: string, i: nat): char
  {
    if i < |t| then t[i] else '\0'
  }

  /** How far the alphabet characters at the front reach. */
  function Reach(t: string, i: nat): (n: nat)
    requires i <= |t|
    ensures i <= n <= |t| && Six(At(t, n)) == 64 && forall k :: i <= k < n ==> Six(t[k]) < 64
    decreases |t| - i
  {
    if Six(At(t, i)) < 64 then Reach(t, i + 1) else i
  }

  function Values(t: string): (vs: seq<Sextet>)
    ensures |vs| == Reach(t, 0)
  {
    seq(Reach(t, 0), i requires 0 <= i < Reach(t, 0) => Six(t[i]))
  }

  function Decoded(t: string): seq<Octet>
  {
    Octets(Values(t))
  }

  lemma {:induction false} ReachTo(t: string, i: nat, n: nat)
    requires i <= n <= |t| && Six(At(t, n)) == 64 && forall k :: i <= k < n ==> Six(t[k]) < 64
    ensures Reach(t, i) == n
    decreases n - i
  {
    if i < n {
      ReachTo(t, i + 1, n);
    }
  }

  /** Decoding what was encoded gives every byte sequence back. */
  lemma RoundTrip(x: seq<Octet>)
    ensures Decoded(Encoded(x)) == x
  {
    hide Sextets;
    var vs := Sextets(x);
    var t := Encoded(x);
    forall k | 0 <= k < |vs| ensures Six(t[k]) == vs[k] {
      SixOfBasis(vs[k]);
    }
    ReachTo(t, 0, |vs|);
    assert Values(t) == vs;
    SextetsBack(x);
  }

  /** The examples of section 10 of the RFC that end in each way. */
  lemma Examples()
    ensures Encoded([102]) == "Zg=="
    ensures Encoded([102, 111]) == "Zm8="
    ensures Encoded([102, 111, 111]) == "Zm9v"
  {
    Alphabet();
    assert Sextets([]) == [];
    hide Basis;
  }

  // ---------- encoding ----------

  /** Base64encode_len */
  function EncodeLen(len: nat): nat
  {
    (len + 2) / 3 * 4 + 1
  }

  /** The four characters of a group, by shifting and masking its three bytes. */
  function First(a: int): char { Basis(a / 4 % 64) }

  function Second(a: Octet, b: Octet): char { Basis(Low2(a) * 16 + b / 16) }

  function Third(b: Octet, c: Octet): char { Basis(Low4(b) * 4 + c / 64) }

  function Fourth(c: int): char { Basis(c % 64) }

  function Low2(a: int): int { a % 4 }

  function Low4(a: int): int { a % 16 }

  /** The masks and shifts of the encoder pick the four values of a group. */
  lemma GroupBits(a: Octet, b: Octet, c: Octet)
    ensures var n := Group24(a, b, c);
      && Basis(SixBits(n, 0)) == First(a) && Basis(SixBits(n, 1)) == Second(a, b)
      && Basis(SixBits(n, 2)) == Third(b, c) && Basis(SixBits(n, 3)) == Fourth(c)
  {
    hide Basis, SixBits, Group4;
    Recut(a / 4, a % 4, b / 16, b % 16, c / 64, c % 64);
    Digits64(a / 4, Low2(a) * 16 + b / 16, Low4(b) * 4 + c / 64, c % 64);
  }

  lemma {:induction false} SextetsSplit(x: seq<Octet>, y: seq<Octet>)
    requires |x| % 3 == 0
    ensures Sextets(x + y) == Sextets(x) + Sextets(y)
  {
    hide SixBits, Group24;
    if x == [] {
      assert x + y == y;
    } else {
      assert (x + y)[3..] == x[3..] + y;
      SextetsSplit(x[3..], y);
    }
  }

  lemma CharactersConcat(vs: seq<Sextet>, ws: seq<Sextet>)
    ensures Characters(vs + ws) == Characters(vs) + Characters(ws)
  {
  }

  /** Characters of one more group. */
  lemma NextGroup(x: seq<Octet>, i: nat, g: seq<Octet>)
    requires i % 3 == 0 && i + |g| <= |x| && g == x[i..i + |g|]
    ensures Characters(Sextets(x[..i + |g|])) == Characters(Sextets(x[..i])) + Characters(Sextets(g))
  {
    assert x[..i + |g|] == x[..i] + g;
    SextetsSplit(x[..i], g);
    CharactersConcat(Sextets(x[..i]), Sextets(g));
  }

  /** *p++ = c, within the buffer */
  method Put(encoded: array<char>, p: nat, cs: string)
    requires p + |cs| <= encoded.Length
    modifies encoded
    ensures encoded[..p + |cs|] == old(encoded[..p]) + cs
  {
    forall i | 0 <= i < |cs| {
      encoded[p + i] := cs[i];
    }
  }

  /** Base64encode: the text, padded, and its terminator take exactly the room
      that Base64encode_len promises. */
  method Encode(encoded: array<char>, x: seq<Octet>) returns (n: nat)
    requires encoded.Length >= EncodeLen(|x|)
    modifies encoded
    ensures n == EncodeLen(|x|)
    ensures encoded[..n] == Encoded(x) + "\0"
  {
    hide Sextets, Encoded, Characters, First, Second, Third, Fourth;
    var len := |x|;
    var i, p := 0, 0;
    assert Characters(Sextets(x[..0])) == "" by { Nothing(); }
    while i < len - 2
      invariant i % 3 == 0 && 0 <= i <= len && p == i / 3 * 4
      invariant encoded[..p] == Characters(Sextets(x[..i]))
    {
      NextGroup(x, i, x[i..i + 3]);
      ThreeBytes(x[i], x[i + 1], x[i + 2]);
      assert x[i..i + 3] == [x[i], x[i + 1], x[i + 2]];
      Put(encoded, p, [First(x[i]), Second(x[i], x[i + 1]), Third(x[i + 1], x[i + 2]), Fourth(x[i + 2])]);
      p := p + 4;
      i := i + 3;
    }
    EncodedParts(x, i);
    p := LastBytes(encoded, x, i, p);
    Put(encoded, p, "\0");
    n := p + 1;
  }

  /** The one or two bytes after the last whole group, padded. */
  method LastBytes(encoded: array<char>, x: seq<Octet>, i: nat, p: nat) returns (q: nat)
    requires i <= |x| < i + 3 && i % 3 == 0 && p + (if i < |x| then 4 else 0) <= encoded.Length
    requires encoded[..p] == Characters(Sextets(x[..i]))
    modifies encoded
    ensures q == p + (if i < |x| then 4 else 0)
    ensures encoded[..q]
         == Characters(Sextets(x[..|x|])) + (if |x| == i then "" else if |x| == i + 1 then "==" else "=")
  {
    hide Sextets, Characters;
    q := p;
    var len := |x|;
    if i < len {
      NextGroup(x, i, x[i..len]);
      if i == len - 1 {
        ThreeBytes(x[i], 0, 0);
        assert x[i..len] == [x[i]];
        Put(encoded, q, [First(x[i]), Second(x[i], 0)] + "==");
      } else {
        ThreeBytes(x[i], x[i + 1], 0);
        assert x[i..len] == [x[i], x[i + 1]];
        Put(encoded, q, [First(x[i]), Second(x[i], x[i + 1]), Third(x[i + 1], 0)] + "=");
      }
      q := q + 4;
    }
  }

  lemma Nothing()
    ensures Characters(Sextets([])) == ""
  {
  }

  lemma ThreeBytes(a: Octet, b: Octet, c: Octet)
    ensures Characters(Sextets([a, b, c])) == [First(a), Second(a, b), Third(b, c), Fourth(c)]
    ensures Characters(Sextets([a, b])) == [First(a), Second(a, b), Third(b, 0)]
    ensures Characters(Sextets([a])) == [First(a), Second(a, 0)]
  {
    hide SixBits, Group24, Basis, First, Second, Third, Fourth;
    GroupBits(a, b, c);
    GroupBits(a, b, 0);
    GroupBits(a, 0, 0);
    assert Sextets([a, b, c][3..]) == [];
  }

  lemma EncodedParts(x: seq<Octet>, i: nat)
    requires i % 3 == 0 && i <= |x| < i + 3
    ensures Encoded(x) == Characters(Sextets(x[..|x|])) + (if |x| == i then "" else if |x| == i + 1 then "==" else "=")
  {
    hide Sextets, Characters;
    assert x[..|x|] == x;
    assert |x| % 3 == |x| - i;
  }

  // ---------- decoding ----------

  /** Base64decode_len */
  function DecodeLen(t: string): nat
  {
    (Reach(t, 0) + 3) / 4 * 3 + 1
  }

  /** The three bytes of a group, by shifting the values of its characters and casting. */
  function Byte1(a: int, b: int): Octet { (a * 4 + b / 16) % 256 }

  function Byte2(b: int, c: int): Octet { (b * 16 + c / 4) % 256 }

  function Byte3(c: int, d: int): Octet { (c * 64 + d) % 256 }

  lemma RecutValues(a: int, b1: int, b0: int, c1: int, c0: int, d: int)
    ensures Group4(a, 16 * b1 + b0, 4 * c1 + c0, d) == Group24(a * 4 + b1, b0 * 16 + c1, c0 * 64 + d)
  {
  }

  /** What a cast to a byte leaves of the shifted values. */
  lemma CastBytes(a: Sextet, b: Sextet, c: Sextet, d: Sextet)
    ensures Byte1(a, b) == a * 4 + b / 16
    ensures Byte2(b, c) == b % 16 * 16 + c / 4
    ensures Byte3(c, d) == c % 4 * 64 + d
  {
    ModAdd(b / 16, b % 16 * 16 + c / 4);
    ModAdd(c / 4, c % 4 * 64 + d);
  }

  lemma ModAdd(k: int, q: int)
    requires 0 <= q < 256
    ensures (256 * k + q) % 256 == q
  {
  }

  /** The shifts and casts of the decoder give the bytes of a group. */
  lemma ValueBits(a: Sextet, b: Sextet, c: Sextet, d: Sextet)
    ensures var n := Group4(a, b, c, d);
      EightBits(n, 0) == Byte1(a, b) && EightBits(n, 1) == Byte2(b, c) && EightBits(n, 2) == Byte3(c, d)
  {
    hide EightBits, Group24, Byte1, Byte2, Byte3;
    CastBytes(a, b, c, d);
    RecutValues(a, b / 16, b % 16, c / 4, c % 4, d);
    Digits256(a * 4 + b / 16, b % 16 * 16 + c / 4, c % 4 * 64 + d);
  }

  lemma FourCharacters(a: Sextet, b: Sextet, c: Sextet, d: Sextet)
    ensures Octets([a, b, c, d]) == [Byte1(a, b), Byte2(b, c), Byte3(c, d)]
    ensures Octets([a, b, c]) == [Byte1(a, b), Byte2(b, c)]
    ensures Octets([a, b]) == [Byte1(a, b)]
  {
    hide EightBits, Group4, Byte1, Byte2, Byte3;
    ValueBits(a, b, c, d);
    ValueBits(a, b, c, 0);
    ValueBits(a, b, 0, 0);
    assert Octets([a, b, c, d][4..]) == [];
  }

  lemma OctetsFront(vs: seq<Sextet>)
    requires |vs| >= 4
    ensures var n := Group4(vs[0], vs[1], vs[2], vs[3]);
      Octets(vs) == [EightBits(n, 0), EightBits(n, 1), EightBits(n, 2)] + Octets(vs[4..])
  {
    hide EightBits, Group4;
  }

  lemma {:induction false} OctetsSplit(vs: seq<Sextet>, ws: seq<Sextet>)
    requires |vs| % 4 == 0
    ensures Octets(vs + ws) == Octets(vs) + Octets(ws)
    ensures |Octets(vs)| == |vs| / 4 * 3
  {
    hide EightBits, Group4, Octets;
    if vs == [] {
      NoOctets();
      assert vs + ws == ws;
    } else {
      assert (vs + ws)[4..] == vs[4..] + ws;
      OctetsFront(vs);
      OctetsFront(vs + ws);
      OctetsSplit(vs[4..], ws);
    }
  }

  method PutOctets(bufplain: array<Octet>, p: nat, os: seq<Octet>)
    requires p + |os| <= bufplain.Length
    modifies bufplain
    ensures bufplain[..p + |os|] == old(bufplain[..p]) + os
  {
    forall i | 0 <= i < |os| {
      bufplain[p + i] := os[i];
    }
  }

  /** The scan for the first character outside the alphabet. */
  method ScanAlphabet(t: string) returns (nprbytes: nat)
    ensures nprbytes == Reach(t, 0)
  {
    nprbytes := 0;
    while Six(At(t, nprbytes)) <= 63
      invariant nprbytes <= |t| && Reach(t, nprbytes) == Reach(t, 0)
      decreases |t| - nprbytes
    {
      nprbytes := nprbytes + 1;
    }
  }

  /** The loop over the groups of four that are not the last. */
  method DecodeGroups(bufplain: array<Octet>, t: string, n: nat) returns (bufin: nat, nprbytes: nat, p: nat)
    requires n == Reach(t, 0) && bufplain.Length >= DecodeLen(t)
    modifies bufplain
    ensures bufin + nprbytes == n && bufin % 4 == 0 && nprbytes <= 4 && (nprbytes == 0 ==> n == 0)
    ensures p == bufin / 4 * 3 && p <= bufplain.Length
    ensures bufplain[..p] == Octets(Values(t)[..bufin])
  {
    hide Octets, Values, Byte1, Byte2, Byte3;
    bufin, nprbytes, p := 0, n, 0;
    ghost var all := Values(t);
    NoOctets();
    while nprbytes > 4
      invariant nprbytes + bufin == n && bufin % 4 == 0 && p == bufin / 4 * 3
      invariant nprbytes == 0 ==> n == 0
      invariant bufplain[..p] == Octets(all[..bufin])
    {
      var a, b, c, d := Value(t, bufin), Value(t, bufin + 1), Value(t, bufin + 2), Value(t, bufin + 3);
      FourCharacters(a, b, c, d);
      assert all[..bufin + 4] == all[..bufin] + [a, b, c, d];
      OctetsSplit(all[..bufin], [a, b, c, d]);
      PutOctets(bufplain, p, [Byte1(a, b), Byte2(b, c), Byte3(c, d)]);
      p := p + 3;
      bufin := bufin + 4;
      nprbytes := nprbytes - 4;
    }
  }

  /** What the last line subtracts leaves the number of bytes written. */
  lemma ExactCount(bufin: nat, left: nat)
    requires bufin % 4 == 0 && left <= 4 && (left == 0 ==> bufin == 0)
    ensures (bufin + left + 3) / 4 * 3 - (4 - left) % 4 == bufin / 4 * 3 + (if left > 1 then left - 1 else 0)
  {
    var k := bufin / 4;
    assert bufin == 4 * k;
    if left > 0 {
      assert (4 * k + left + 3) / 4 == k + 1;
    }
  }

  /** Base64decode: the bytes and a terminator stay within the room that
      Base64decode_len promises, and the result is their exact number. */
  method Decode(bufplain: array<Octet>, t: string) returns (n: nat)
    requires bufplain.Length >= DecodeLen(t)
    modifies bufplain
    ensures n == |Decoded(t)| && n + 1 <= DecodeLen(t)
    ensures bufplain[..n + 1] == Decoded(t) + [0]
  {
    hide Octets, Values;
    var nprbytes := ScanAlphabet(t);
    var nbytesdecoded := (nprbytes + 3) / 4 * 3;
    ghost var all := Values(t);
    var bufin, left, p := DecodeGroups(bufplain, t, nprbytes);
    ExactCount(bufin, left);
    OctetsSplit(all[..bufin], all[bufin..]);
    assert all == all[..bufin] + all[bufin..];
    p := LastGroup(bufplain, t, bufin, left, p);
    PutOctets(bufplain, p, [0]);
    n := nbytesdecoded - (4 - left) % 4;
  }

  /** The last group, of at most four characters; a single one gives nothing. */
  method LastGroup(bufplain: array<Octet>, t: string, bufin: nat, nprbytes: nat, p: nat) returns (q: nat)
    requires bufin + nprbytes == Reach(t, 0) && nprbytes <= 4
    requires p + (if nprbytes > 1 then nprbytes - 1 else 0) <= bufplain.Length
    modifies bufplain
    ensures q == p + (if nprbytes > 1 then nprbytes - 1 else 0)
    ensures bufplain[..q] == old(bufplain[..p]) + Octets(Values(t)[bufin..])
  {
    hide Values, Byte1, Byte2, Byte3;
    ghost var vs := Values(t)[bufin..];
    q := p;
    if nprbytes <= 1 {
      return;
    }
    var a, b := Value(t, bufin), Value(t, bufin + 1);
    var c := if nprbytes > 2 then Value(t, bufin + 2) else 0;
    var d := if nprbytes > 3 then Value(t, bufin + 3) else 0;
    FourCharacters(a, b, c, d);
    assert vs == if nprbytes == 2 then [a, b] else if nprbytes == 3 then [a, b, c] else [a, b, c, d];
    hide Octets;
    PutOctets(bufplain, q, [Byte1(a, b)]);
    q := q + 1;
    if nprbytes > 2 {
      PutOctets(bufplain, q, [Byte2(b, c)]);
      q := q + 1;
    }
    if nprbytes > 3 {
      PutOctets(bufplain, q, [Byte3(c, d)]);
      q := q + 1;
    }
  }

  lemma NoOctets()
    ensures Octets([]) == []
  {
  }

  function Value(t: string, i: nat): (v: Sextet)
    requires i < Reach(t, 0)
    ensures v == Values(t)[i]
  {
    Six(t[i])
  }
}
