/** What the streaming digests share: the fold of a block function over whole blocks, the
    padding rule of RFC 1321 section 3.1 (and FIPS 180-4 section 5.1.1), and the two-word byte
    count. */
module Digests {
  import opened Words

  type Block = b: seq<bv8> | |b| == 64 witness seq(64, i => 0)

  // ---------- words and bytes ----------

  function Rotl(x: bv32, n: bv32): bv32
    requires n <= 32
  {
    (x << n) | (x >> (32 - n))
  }

  lemma RotatedBit(x: bv32, n: bv32, i: bv32)
    requires n <= 32 && i < 32
    ensures (((x << n) | (x >> (32 - n))) >> i) & 1
         == if i >= n then (x >> (i - n)) & 1 else (x >> (i + 32 - n)) & 1
  {
  }

  /** It rotates to the left: every bit moves up by n, and those pushed out at the top come
      in at the bottom. */
  lemma RotatesLeft(x: bv32, n: bv32, i: bv32)
    requires n <= 32 && i < 32
    ensures (Rotl(x, n) >> i) & 1 == if i >= n then (x >> (i - n)) & 1 else (x >> (i + 32 - n)) & 1
  {
    RotatedBit(x, n, i);
  }

  function Little(p: bv8, q: bv8, r: bv8, s: bv8): bv32 {
    (p as bv32) | ((q as bv32) << 8) | ((r as bv32) << 16) | ((s as bv32) << 24)
  }

  function Octet(x: bv32): bv8 { (x & 0xff) as bv8 }

  /** A 32-bit store by a little-endian machine. */
  function Store(x: bv32): seq<bv8> { [Octet(x), Octet(x >> 8), Octet(x >> 16), Octet(x >> 24)] }

  // ---------- folding ----------

  function Fold<S>(f: (S, Block) -> S, s: S, m: seq<bv8>): S
    decreases |m|
  {
    if |m| < 64 then s else Fold(f, f(s, m[..64]), m[64..])
  }

  lemma {:induction false} FoldConcat<S>(f: (S, Block) -> S, s: S, a: seq<bv8>, b: seq<bv8>)
    requires |a| % 64 == 0
    ensures Fold(f, s, a + b) == Fold(f, Fold(f, s, a), b)
    decreases |a|
  {
    if a == [] {
      assert a + b == b;
    } else {
      assert (a + b)[..64] == a[..64];
      assert (a + b)[64..] == a[64..] + b;
      FoldConcat(f, f(s, a[..64]), a[64..], b);
    }
  }

  lemma FoldStep<S>(f: (S, Block) -> S, s: S, m: seq<bv8>)
    ensures |m| >= 64 ==> Fold(f, s, m) == Fold(f, f(s, m[..64]), m[64..])
    ensures |m| < 64 ==> Fold(f, s, m) == s
  {
  }

  // ---------- the byte count ----------

  const TWO32: nat := 0x1_0000_0000
  const TWO64: nat := 0x1_0000_0000_0000_0000

  datatype Total = Total(lo: Word, hi: Word) {
    function Bytes(): nat { hi * TWO32 + lo }
  }

  /** The low word grows by len, and a sum below len carries one into the high word. */
  function Counted(t: Total, len: nat): Total {
    var lo: Word := (t.lo + len) % TWO32;
    Total(lo, if lo < len then (t.hi + 1) % TWO32 else t.hi)
  }

  /** The count stays exact modulo 2^64 exactly while the sum with the low word stays below
      2^33, as it does for every length that fits 32 bits. */
  lemma CountExact(t: Total, len: nat)
    requires len < TWO64
    ensures Counted(t, len).Bytes() == (t.Bytes() + len) % TWO64 <==> t.lo + len < 2 * TWO32
  {
    var sum := t.lo + len;
    var q, r := sum / TWO32, sum % TWO32;
    assert sum == q * TWO32 + r;
    var lo := Counted(t, len).lo;
    assert lo == r;
    assert q <= TWO32;
    var h := t.hi + q;
    assert t.Bytes() + len == h * TWO32 + r;
    CarryWrap(h, r);
    if q == 0 {
      assert sum == r && lo >= len;
    } else if q == 1 {
      assert lo == sum - TWO32 < len;
    } else {
      assert lo < TWO32 <= len;
      assert (t.hi + 1) % TWO32 != h % TWO32 by { WrapDiffer(t.hi, q); }
    }
  }

  lemma CarryWrap(h: nat, r: nat)
    requires h < 2 * TWO32 && r < TWO32
    ensures (h * TWO32 + r) % TWO64 == (h % TWO32) * TWO32 + r
  {
    if h < TWO32 {
      assert h * TWO32 + r < TWO64;
    } else {
      var g := h - TWO32;
      assert h % TWO32 == g;
      assert h * TWO32 + r == TWO64 + (g * TWO32 + r);
    }
  }

  lemma WrapDiffer(hi: Word, q: nat)
    requires 2 <= q <= TWO32
    ensures (hi + 1) % TWO32 != (hi + q) % TWO32
  {
    if hi + q < TWO32 {
    } else if hi + 1 < TWO32 {
    } else {
      assert hi == TWO32 - 1;
    }
  }

  /** So many more bytes are counted exactly. */
  predicate Countable(t: Total, n: nat) {
    t.lo + n < 2 * TWO32
  }

  /** How much of a chunk tops up a non-empty buffer, and what is folded then. */
  function TopUpSize(buflen: nat, len: nat): nat
    requires buflen <= 64
  {
    if buflen == 0 then 0 else if 128 - buflen > len then len else 128 - buflen
  }

  function FoldedFirst(n: nat): nat
  {
    if n > 64 then n - n % 64 else 0
  }

  /** A chunk of len bytes is counted exactly, in the two goes in which it is: what tops up the
      buffer always is, so the rest decides. */
  predicate ChunkCountable(t: Total, buflen: nat, len: nat)
    requires buflen <= 64
  {
    var add := TopUpSize(buflen, len);
    Countable(if buflen == 0 then t else Counted(t, FoldedFirst(buflen + add)), len - add)
  }

  /** Any chunk below 2^32 bytes is. */
  lemma ShortIsCountable(t: Total, buflen: nat, len: nat)
    requires buflen <= 64 && len < TWO32
    ensures ChunkCountable(t, buflen, len)
  {
  }

  lemma CountInTime(t: Total, n: nat)
    requires Countable(t, n)
    ensures Counted(t, n).Bytes() == (t.Bytes() + n) % TWO64
  {
    CountExact(t, n);
  }

  // ---------- padding ----------

  function Zeros(n: nat): seq<bv8> { seq(n, i => 0) }

  /** A one bit, then the fewest zero bits that leave 64 bits free in the last block. */
  function Padding(n: nat): (p: seq<bv8>)
    ensures 1 <= |p| <= 64 && (n + |p|) % 64 == 56
  {
    [0x80] + Zeros((119 - n % 64) % 64)
  }

  /** The bytes of a 32-bit word, most significant first and least significant first. */
  function BigEndian(w: Word): (s: seq<bv8>)
    ensures |s| == 4
  {
    [(w / 0x100_0000) as bv8, (w / 0x1_0000 % 256) as bv8, (w / 256 % 256) as bv8, (w % 256) as bv8]
  }

  function LittleEndian(w: Word): (s: seq<bv8>)
    ensures |s| == 4
  {
    [(w % 256) as bv8, (w / 256 % 256) as bv8, (w / 0x1_0000 % 256) as bv8, (w / 0x100_0000) as bv8]
  }

  /** The lowest k digits of n to the base 256, most significant first. */
  function Base256(n: nat, k: nat): (ds: seq<nat>)
    ensures |ds| == k && forall i :: 0 <= i < k ==> ds[i] < 256
  {
    if k == 0 then [] else Base256(n / 256, k - 1) + [n % 256]
  }

  function AsBytes(ds: seq<nat>): seq<bv8>
    requires forall i :: 0 <= i < |ds| ==> ds[i] < 256
  {
    seq(|ds|, i requires 0 <= i < |ds| => ds[i] as bv8)
  }

  function Backwards(s: seq<bv8>): seq<bv8> {
    seq(|s|, i requires 0 <= i < |s| => s[|s| - 1 - i])
  }

  lemma FourDigits(w: Word)
    ensures Base256(w, 4) == [w / 0x100_0000, w / 0x1_0000 % 256, w / 256 % 256, w % 256]
  {
    assert w / 0x1_0000 == w / 256 / 256 && w / 0x100_0000 == w / 256 / 256 / 256;
    assert Base256(w / 256 / 256 / 256 / 256, 0) == [];
    assert Base256(w / 256 / 256 / 256, 1) == [w / 256 / 256 / 256];
    assert Base256(w / 256 / 256, 2) == [w / 256 / 256 / 256, w / 256 / 256 % 256];
  }

  lemma BigEndianDigits(w: Word)
    ensures BigEndian(w) == AsBytes(Base256(w, 4))
  {
    FourDigits(w);
    hide Base256;
  }

  lemma {:induction false} DigitsJoin(a: nat, b: nat, j: nat, k: nat, p: nat)
    requires p == Pow(256, k) && b < p
    ensures Base256(a * p + b, j + k) == Base256(a, j) + Base256(b, k)
  {
    if k == 0 {
      assert Base256(b, 0) == [] && a * 1 + 0 == a;
    } else {
      var q := Pow(256, k - 1);
      var n := a * p + b;
      NextDigit(a, b, p, q, n);
      DigitsJoin(a, b / 256, j, k - 1, q);
      assert Base256(n, j + k) == Base256(n / 256, j + k - 1) + [n % 256];
      assert Base256(b, k) == Base256(b / 256, k - 1) + [b % 256];
    }
  }

  lemma NextDigit(a: nat, b: nat, p: nat, q: nat, n: nat)
    requires p == 256 * q && b < p && n == a * p + b
    ensures n / 256 == a * q + b / 256 && n % 256 == b % 256 && b / 256 < q
  {
    var m, r := a * q + b / 256, b % 256;
    assert a * p == 256 * (a * q);
    assert n == 256 * m + r;
  }

  lemma JoinBytes(a: seq<nat>, b: seq<nat>)
    requires forall i :: 0 <= i < |a| ==> a[i] < 256
    requires forall i :: 0 <= i < |b| ==> b[i] < 256
    ensures forall i :: 0 <= i < |a + b| ==> (a + b)[i] < 256
    ensures AsBytes(a + b) == AsBytes(a) + AsBytes(b)
  {
  }

  lemma Pow256Of4()
    ensures Pow(256, 4) == TWO32
  {
    assert Pow(256, 2) == 0x1_0000;
    PowAdd(256, 2, 2);
  }

  lemma TwoWords(v: Word, w: Word)
    ensures BigEndian(v) + BigEndian(w) == AsBytes(Base256(v * TWO32 + w, 8))
  {
    BigEndianDigits(v);
    BigEndianDigits(w);
    Pow256Of4();
    hide Pow, BigEndian, Base256, AsBytes;
    DigitsJoin(v, w, 4, 4, TWO32);
    JoinBytes(Base256(v, 4), Base256(w, 4));
  }

  lemma EndiansReversed(v: Word, w: Word)
    ensures LittleEndian(v) + LittleEndian(w) == Backwards(BigEndian(w) + BigEndian(v))
  {
  }

  /** The message length in bits, modulo 2^64. */
  function Bits(n: nat): nat { n * 8 % TWO64 }

  /** The two words three bits up, the top bits of the low word joined to the high one:
      the bits meet in no position. */
  function BitsLow(t: Total): Word { t.lo * 8 % TWO32 }

  function BitsHigh(t: Total): (w: Word)
  {
    assert t.hi * 8 % TWO32 % 8 == 0;
    t.hi * 8 % TWO32 + t.lo / 0x2000_0000
  }

  lemma Quotient(n: nat, k: nat, v: nat)
    requires n == k * TWO64 + v && v < TWO64
    ensures n % TWO64 == v
  {
  }

  lemma BitsOf(t: Total, n: nat)
    requires t.Bytes() == n % TWO64
    ensures BitsHigh(t) == Bits(n) / TWO32 && BitsLow(t) == Bits(n) % TWO32
  {
    var q := n / TWO64;
    assert n == q * TWO64 + t.Bytes();
    assert n * 8 == (q * 8) * TWO64 + t.Bytes() * 8;
    var u := t.hi * 8 / TWO32;
    assert t.hi * 8 == u * TWO32 + t.hi * 8 % TWO32;
    assert t.lo * 8 == (t.lo / 0x2000_0000) * TWO32 + BitsLow(t);
    assert t.Bytes() * 8 == u * TWO64 + BitsHigh(t) * TWO32 + BitsLow(t);
    var k := q * 8 + u;
    var v := BitsHigh(t) * TWO32 + BitsLow(t);
    assert n * 8 == k * TWO64 + v && v < TWO64;
    Quotient(n * 8, k, v);
  }

  /** What finish appends: pad bytes of the 64-byte fill after the buffered ones. */
  function PadLength(buflen: nat): nat
    requires buflen <= 64
  {
    if buflen >= 56 then 120 - buflen else 56 - buflen
  }

  lemma PadLengthFits(n: nat, buflen: nat)
    requires buflen <= 64 && buflen <= n && (n - buflen) % 64 == 0
    ensures PadLength(buflen) == |Padding(n)|
  {
  }

  // ---------- where a context stands in a message ----------

  /** The context has folded all of msg but the pending bytes, which are its tail, and has
      counted what it folded. */
  ghost predicate Upto<S(!new)>(f: (S, Block) -> S, init: S, s: S, t: Total, pending: seq<bv8>, msg: seq<bv8>) {
    && |pending| <= |msg|
    && (|msg| - |pending|) % 64 == 0
    && s == Fold(f, init, msg[..|msg| - |pending|])
    && pending == msg[|msg| - |pending|..]
    && t.Bytes() == (|msg| - |pending|) % TWO64
  }

  lemma Absorb<S(!new)>(f: (S, Block) -> S, init: S, s: S, t: Total, pending: seq<bv8>, msg: seq<bv8>, data: seq<bv8>)
    requires Upto(f, init, s, t, pending, msg)
    ensures Upto(f, init, s, t, pending + data, msg + data)
  {
    var n := |msg| - |pending|;
    assert (msg + data)[..n] == msg[..n];
    assert (msg + data)[n..] == msg[n..] + data;
  }

  lemma Consume<S(!new)>(f: (S, Block) -> S, init: S, s: S, t: Total, pending: seq<bv8>, msg: seq<bv8>, n: nat)
    requires Upto(f, init, s, t, pending, msg)
    requires n <= |pending| && n % 64 == 0 && Countable(t, n)
    ensures Upto(f, init, Fold(f, s, pending[..n]), Counted(t, n), pending[n..], msg)
  {
    hide Fold, Counted, Total.Bytes;
    var k := |msg| - |pending|;
    Refold(f, init, s, msg, k, n);
    Recount(t, k, n);
    assert pending[n..] == msg[k + n..];
  }

  lemma Refold<S>(f: (S, Block) -> S, init: S, s: S, msg: seq<bv8>, k: nat, n: nat)
    requires k + n <= |msg| && k % 64 == 0 && s == Fold(f, init, msg[..k])
    ensures Fold(f, s, msg[k..][..n]) == Fold(f, init, msg[..k + n])
  {
    hide Fold;
    assert msg[..k] + msg[k..][..n] == msg[..k + n];
    FoldConcat(f, init, msg[..k], msg[k..][..n]);
  }

  lemma Recount(t: Total, k: nat, n: nat)
    requires t.Bytes() == k % TWO64 && Countable(t, n)
    ensures Counted(t, n).Bytes() == (k + n) % TWO64
  {
    hide Counted, Total.Bytes;
    CountInTime(t, n);
    AddMod(k, n);
  }

  lemma AddMod(k: nat, n: nat)
    ensures (k % TWO64 + n) % TWO64 == (k + n) % TWO64
  {
    var q := k / TWO64;
    assert k + n == q * TWO64 + (k % TWO64 + n);
  }

  /** After the last pending bytes are counted, the total is that of the whole message. */
  lemma CountAll<S(!new)>(f: (S, Block) -> S, init: S, s: S, t: Total, pending: seq<bv8>, msg: seq<bv8>)
    requires Upto(f, init, s, t, pending, msg) && |pending| <= 64
    ensures Counted(t, |pending|).Bytes() == |msg| % TWO64
  {
    hide Fold, Counted, Total.Bytes;
    Recount(t, |msg| - |pending|, |pending|);
  }

  /** The bytes that fill the gap before the length are the padding. */
  lemma PadIs(n: nat, fill: seq<bv8>)
    requires |fill| == |Padding(n)| && fill == [0x80] + Zeros(|fill| - 1)
    ensures fill == Padding(n)
  {
  }

  /** memcpy into the buffer, and from one part of it to its front. */
  method Copy(dst: array<bv8>, at: nat, src: seq<bv8>)
    requires at + |src| <= dst.Length
    modifies dst
    ensures dst[..] == old(dst[..at]) + src + old(dst[at + |src|..])
  {
    forall i | 0 <= i < |src| {
      dst[at + i] := src[i];
    }
  }

  method MoveDown(dst: array<bv8>, from: nat, n: nat)
    requires n <= from && from + n <= dst.Length
    modifies dst
    ensures dst[..] == old(dst[from..from + n]) + old(dst[n..])
  {
    forall i | 0 <= i < n {
      dst[i] := dst[from + i];
    }
  }

  // ---------- finishing ----------

  /** The tail that finish folds completes the fold of the padded message. */
  lemma LastBlocks<S(!new)>(f: (S, Block) -> S, init: S, s: S, t: Total, pending: seq<bv8>, msg: seq<bv8>,
                            len: seq<bv8>)
    requires Upto(f, init, s, t, pending, msg)
    ensures Fold(f, s, pending + Padding(|msg|) + len) == Fold(f, init, msg + Padding(|msg|) + len)
  {
    hide Fold, Padding, Total.Bytes;
    var n := |msg| - |pending|;
    var pad := Padding(|msg|);
    Regroup(msg[..n], pending, pad, len);
    assert msg[..n] + pending == msg;
    FoldConcat(f, init, msg[..n], pending + pad + len);
  }

  lemma Regroup(a: seq<bv8>, b: seq<bv8>, c: seq<bv8>, d: seq<bv8>)
    ensures a + (b + c + d) == (a + b) + c + d
  {
  }

  lemma TailLength<S(!new)>(f: (S, Block) -> S, init: S, s: S, t: Total, pending: seq<bv8>, msg: seq<bv8>)
    requires |pending| <= 64 && Upto(f, init, s, t, pending, msg)
    ensures |Padding(|msg|)| == PadLength(|pending|)
    ensures |pending| + |Padding(|msg|)| + 8 == if |pending| < 56 then 64 else 128
  {
    PadLengthFits(|msg|, |pending|);
  }

  function Joined(chunks: seq<seq<bv8>>): seq<bv8> {
    if chunks == [] then [] else Joined(chunks[..|chunks| - 1]) + chunks[|chunks| - 1]
  }
}
