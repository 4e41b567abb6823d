/** The SHA-1 context of src/embedded/digest/sha1.c: bytes arrive in chunks of any size, and the
    digest is that of the whole padded message. */
module Sha1 {
  import opened Digests
  import opened Sha1Blocks

  const INIT: Hash := Hash(0x67452301, 0xefcdab89, 0x98badcfe, 0x10325476, 0xc3d2e1f0)

  /** A word as its four bytes, most significant first. */
  function Octets(x: bv32): seq<bv8> { [Octet(x >> 24), Octet(x >> 16), Octet(x >> 8), Octet(x)] }

  function Emit(h: Hash): seq<bv8> {
    Octets(h.a) + Octets(h.b) + Octets(h.c) + Octets(h.d) + Octets(h.e)
  }

  /** Sections 5.1.1 and 5.3.1 of FIPS 180-4: the padded message. */
  function Padded(msg: seq<bv8>): seq<bv8> {
    msg + Padding(|msg|) + Length(|msg|)
  }

  function Length(n: nat): (s: seq<bv8>)
    ensures |s| == 8
  {
    BigEndian(Bits(n) / TWO32) + BigEndian(Bits(n) % TWO32)
  }

  /** The length in bits as a 64-bit number, most significant byte first. */
  lemma LengthValue(n: nat)
    ensures Length(n) == AsBytes(Base256(8 * n % TWO64, 8))
  {
    hide BigEndian, Base256, AsBytes;
    TwoWords(Bits(n) / TWO32, Bits(n) % TWO32);
  }

  function Digest(msg: seq<bv8>): seq<bv8> { Emit(Fold(Compress, INIT, Padded(msg))) }

  lemma SwapFirst(x: bv32)
    ensures Octet(Swap(x)) == Octet(x >> 24) && Octet(Swap(x) >> 24) == Octet(x)
  {
  }

  lemma SwapMiddle(x: bv32)
    ensures Octet(Swap(x) >> 8) == Octet(x >> 16) && Octet(Swap(x) >> 16) == Octet(x >> 8)
  {
  }

  lemma StoreSwapped(x: bv32)
    ensures Store(Swap(x)) == Octets(x)
  {
    hide Octet, Swap;
    SwapFirst(x);
    SwapMiddle(x);
  }

  /** The words that finish stores are the length in bits. */
  lemma LengthWords(t: Total, n: nat)
    requires t.Bytes() == n % TWO64
    ensures BigEndian(BitsHigh(t)) + BigEndian(BitsLow(t)) == Length(n)
  {
    hide BigEndian, Bits, BitsHigh, BitsLow, Total.Bytes;
    BitsOf(t, n);
  }

  class Context {
    var A: bv32
    var B: bv32
    var C: bv32
    var D: bv32
    var E: bv32
    var total: Total
    var buflen: nat
    const buffer: array<bv8>

    function State(): Hash
      reads this
    {
      Hash(A, B, C, D, E)
    }

    ghost predicate Valid()
      reads this
    {
      buffer.Length == 128 && buflen <= 64
    }

    /** All of msg has been fed. */
    ghost predicate Fed(msg: seq<bv8>)
      reads this, buffer
    {
      Valid() && Upto(Compress, INIT, State(), total, buffer[..buflen], msg)
    }

    /** sha1_init_ctx */
    constructor ()
      ensures Fed([]) && buflen == 0 && total == Total(0, 0)
      ensures fresh(buffer)
    {
      A, B, C, D, E := 0x67452301, 0xefcdab89, 0x98badcfe, 0x10325476, 0xc3d2e1f0;
      total := Total(0, 0);
      buflen := 0;
      buffer := new bv8[128];
    }

    /** sha1_process_block */
    method ProcessBlock(data: seq<bv8>)
      requires |data| % 64 == 0
      modifies this`A, this`B, this`C, this`D, this`E, this`total
      ensures State() == Fold(Compress, old(State()), data)
      ensures total == Counted(old(total), |data|)
    {
      hide Compress, Fold, Counted;
      total := Counted(total, |data|);
      var x := new bv32[16];
      var words := data;
      while words != []
        invariant |words| % 64 == 0
        invariant Fold(Compress, State(), words) == Fold(Compress, old(State()), data)
        invariant total == Counted(old(total), |data|)
        decreases |words|
      {
        FoldStep(Compress, State(), words);
        var g := OneBlock(words[..64], State(), x);
        A, B, C, D, E := g.a, g.b, g.c, g.d, g.e;
        words := words[64..];
      }
      FoldStep(Compress, State(), words);
    }

    /** The first pending bytes go through the block function. */
    method FoldPending(data: seq<bv8>, ghost pending: seq<bv8>, ghost msg: seq<bv8>)
      requires |data| % 64 == 0 && Countable(total, |data|)
      requires Upto(Compress, INIT, State(), total, pending, msg)
      requires |data| <= |pending| && pending[..|data|] == data
      modifies this`A, this`B, this`C, this`D, this`E, this`total
      ensures Upto(Compress, INIT, State(), total, pending[|data|..], msg)
      ensures total == Counted(old(total), |data|)
    {
      hide Compress, Fold, Upto, Counted;
      Consume(Compress, INIT, State(), total, pending, msg, |data|);
      ProcessBlock(data);
    }

    /** The part of sha1_process_bytes that tops up a non-empty buffer. */
    method TopUp(data: seq<bv8>, ghost msg: seq<bv8>) returns (rest: seq<bv8>)
      requires Fed(msg) && buflen != 0
      modifies this, buffer
      ensures Valid() && |rest| <= |data| && (rest != [] ==> buflen == 0)
      ensures Upto(Compress, INIT, State(), total, buffer[..buflen] + rest, msg + data)
      ensures |rest| == |data| - TopUpSize(old(buflen), |data|)
      ensures rest != [] ==> total == Counted(old(total), FoldedFirst(old(buflen) + TopUpSize(old(buflen), |data|)))
    {
      hide Compress, Fold, Upto, Counted;
      var leftOver := buflen;
      var add := if 128 - leftOver > |data| then |data| else 128 - leftOver;
      Absorb(Compress, INIT, State(), total, buffer[..buflen], msg, data);
      ghost var was := buffer[..];
      Copy(buffer, leftOver, data[..add]);
      buflen := buflen + add;
      rest := data[add..];
      assert buffer[..buflen] == was[..leftOver] + data[..add];
      assert was[..leftOver] + data == buffer[..buflen] + rest;
      if buflen > 64 {
        FoldBuffer(rest, msg + data);
      }
    }

    /** The complete blocks of the buffer are folded, and what is left moves to its front. */
    method FoldBuffer(ghost rest: seq<bv8>, ghost msg: seq<bv8>)
      requires buffer.Length == 128 && 64 < buflen <= 128
      requires Upto(Compress, INIT, State(), total, buffer[..buflen] + rest, msg)
      modifies this, buffer
      ensures Valid() && buflen == old(buflen) % 64 && total == Counted(old(total), FoldedFirst(old(buflen)))
      ensures Upto(Compress, INIT, State(), total, buffer[..buflen] + rest, msg)
    {
      hide Compress, Fold, Upto, Counted;
      var whole := buflen - buflen % 64;
      ghost var pending := buffer[..buflen] + rest;
      FoldPending(buffer[..whole], pending, msg);
      assert pending[whole..] == buffer[whole..buflen] + rest;
      buflen := buflen % 64;
      MoveDown(buffer, whole, buflen);
    }

    /** The part that processes complete blocks straight from the input: block by block through
        the buffer when the input is not aligned, in one call when it is. */
    method WholeBlocks(data: seq<bv8>, aligned: bool, ghost msg: seq<bv8>) returns (rest: seq<bv8>)
      requires Valid() && buflen == 0 && 64 <= |data| && (aligned ==> Countable(total, |data|))
      requires Upto(Compress, INIT, State(), total, data, msg)
      modifies this, buffer
      ensures Valid() && buflen == 0 && |rest| <= 64
      ensures Upto(Compress, INIT, State(), total, rest, msg)
    {
      hide Compress, Fold, Upto;
      rest := data;
      if !aligned {
        while |rest| > 64
          invariant Valid() && buflen == 0 && 0 < |rest|
          invariant Upto(Compress, INIT, State(), total, rest, msg)
          decreases |rest|
        {
          Copy(buffer, 0, rest[..64]);
          assert buffer[..64] == rest[..64];
          FoldPending(buffer[..64], rest, msg);
          rest := rest[64..];
        }
      } else {
        var whole := |data| - |data| % 64;
        FoldPending(data[..whole], data, msg);
        rest := data[whole..];
      }
    }

    /** sha1_process_bytes; `aligned` is the alignment of the input that is left once the buffer
        has been topped up. */
    method ProcessBytes(data: seq<bv8>, aligned: bool, ghost msg: seq<bv8>)
      requires Fed(msg) && (aligned ==> ChunkCountable(total, buflen, |data|))
      modifies this, buffer
      ensures Fed(msg + data)
    {
      hide Compress, Fold, Upto;
      var rest := data;
      if buflen != 0 {
        rest := TopUp(data, msg);
      } else {
        Absorb(Compress, INIT, State(), total, buffer[..buflen], msg, data);
      }
      if |rest| >= 64 {
        assert buffer[..buflen] + rest == rest;
        rest := WholeBlocks(rest, aligned, msg + data);
        assert buffer[..buflen] + rest == rest;
      }
      if |rest| > 0 {
        var leftOver := buflen;
        assert buffer[..buflen] + rest == rest;
        Copy(buffer, leftOver, rest);
        leftOver := leftOver + |rest|;
        assert buffer[..leftOver] == rest;
        if leftOver >= 64 {
          FoldPending(buffer[..64], rest, msg + data);
          leftOver := leftOver - 64;
          MoveDown(buffer, 64, leftOver);
        }
        buflen := leftOver;
        assert leftOver == 0 ==> buffer[..buflen] == rest[|rest|..];
      } else {
        assert buffer[..buflen] + rest == buffer[..buflen];
      }
    }

    /** sha1_finish_ctx and sha1_read_ctx */
    method Finish(ghost msg: seq<bv8>) returns (digest: seq<bv8>)
      requires Fed(msg)
      modifies this, buffer
      ensures digest == Digest(msg)
    {
      hide Compress, Fold, Swap, Store, Octets, BigEndian, BitsHigh, BitsLow, Upto, Length, Padding;
      var bytes := buflen;
      var size := if bytes < 56 then 64 / 4 else 64 * 2 / 4;
      ghost var pending := buffer[..bytes];
      LastBlocks(Compress, INIT, State(), total, pending, msg, Length(|msg|));
      CountAll(Compress, INIT, State(), total, pending, msg);
      TailLength(Compress, INIT, State(), total, pending, msg);
      total := Counted(total, bytes);
      LengthWords(total, |msg|);
      PutTail(buffer, bytes, (size - 2) * 4, BigEndian(BitsHigh(total)), BigEndian(BitsLow(total)), |msg|);
      ProcessBlock(buffer[..size * 4]);
      StoreSwapped(A);
      StoreSwapped(B);
      StoreSwapped(C);
      StoreSwapped(D);
      StoreSwapped(E);
      digest := Store(Swap(A)) + Store(Swap(B)) + Store(Swap(C)) + Store(Swap(D)) + Store(Swap(E));
    }
  }

  /** The two length words and then the fill bytes go behind the buffered ones. */
  method PutTail(buffer: array<bv8>, bytes: nat, at: nat, first: seq<bv8>, second: seq<bv8>, ghost n: nat)
    requires |first| == |second| == 4 && at + 8 <= buffer.Length
    requires bytes + |Padding(n)| == at
    modifies buffer
    ensures buffer[..at + 8] == old(buffer[..bytes]) + Padding(n) + (first + second)
  {
    hide Padding;
    var fill := [0x80] + Zeros(at - bytes - 1);
    PadIs(n, fill);
    ghost var pending := buffer[..bytes];
    Copy(buffer, at, first);
    assert buffer[..bytes] == pending && buffer[at..at + 4] == first;
    Copy(buffer, at + 4, second);
    ghost var rest := buffer[at..];
    assert buffer[..bytes] == pending && rest[..8] == first + second;
    Copy(buffer, bytes, fill);
    Front(buffer[..], pending, fill, rest);
  }

  lemma Front(all: seq<bv8>, a: seq<bv8>, b: seq<bv8>, rest: seq<bv8>)
    requires all == a + b + rest && |rest| >= 8
    ensures all[..|a| + |b| + 8] == a + b + rest[..8]
  {
  }

  /** sha1_buffer */
  method Buffer(data: seq<bv8>, aligned: bool) returns (digest: seq<bv8>)
    requires aligned ==> |data| < 2 * TWO32
    ensures digest == Digest(data)
  {
    hide Digest, Fold, Compress, Upto;
    var ctx := new Context();
    ctx.ProcessBytes(data, aligned, []);
    assert [] + data == data;
    digest := ctx.Finish(data);
  }

  /** Whatever way a message is cut into chunks, and whichever of them are aligned where their
      top-up ends, feeding them gives the digest of the whole message. */
  method InChunks(chunks: seq<seq<bv8>>, aligned: seq<bool>) returns (digest: seq<bv8>)
    requires |aligned| == |chunks| && forall i :: 0 <= i < |chunks| && aligned[i] ==> |chunks[i]| < TWO32
    ensures digest == Digest(Joined(chunks))
  {
    hide Digest, Fold, Compress, Upto;
    var ctx := new Context();
    var i := 0;
    while i < |chunks|
      invariant 0 <= i <= |chunks|
      invariant ctx.Fed(Joined(chunks[..i])) && fresh(ctx) && fresh(ctx.buffer)
    {
      if aligned[i] {
        ShortIsCountable(ctx.total, ctx.buflen, |chunks[i]|);
      }
      ctx.ProcessBytes(chunks[i], aligned[i], Joined(chunks[..i]));
      assert chunks[..i + 1][..i] == chunks[..i];
      i := i + 1;
    }
    assert chunks[..i] == chunks;
    digest := ctx.Finish(Joined(chunks));
  }

  const BLOCKSIZE := 4096

  /** sha1_stream over the contents of a file: whole buffers go to the block function directly. */
  method Stream(file: seq<bv8>) returns (digest: seq<bv8>)
    ensures digest == Digest(file)
  {
    hide Digest, Fold, Compress, Upto;
    var ctx := new Context();
    var pos := 0;
    while |file| - pos >= BLOCKSIZE
      invariant 0 <= pos <= |file|
      invariant ctx.Fed(file[..pos]) && ctx.buflen == 0 && fresh(ctx) && fresh(ctx.buffer)
    {
      ghost var more := file[pos..pos + BLOCKSIZE];
      Absorb(Compress, INIT, ctx.State(), ctx.total, [], file[..pos], more);
      assert ctx.buffer[..ctx.buflen] == [];
      assert file[..pos] + more == file[..pos + BLOCKSIZE] && [] + more == more;
      ctx.FoldPending(file[pos..pos + BLOCKSIZE], more, file[..pos + BLOCKSIZE]);
      assert more[BLOCKSIZE..] == ctx.buffer[..0];
      pos := pos + BLOCKSIZE;
    }
    assert file[..pos] + file[pos..] == file;
    if pos < |file| {
      ctx.ProcessBytes(file[pos..], true, file[..pos]);
    } else {
      assert file[..pos] == file;
    }
    digest := ctx.Finish(file);
  }
}
