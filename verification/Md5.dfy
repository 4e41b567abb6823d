/** The MD5 context of src/embedded/digest/md5.c: bytes arrive in chunks of any size, and the
    digest is that of the whole padded message. */
module Md5 {
  import opened Digests
  import opened Md5Blocks

  const INIT: Quad := Quad(0x67452301, 0xefcdab89, 0x98badcfe, 0x10325476)

  function Emit(q: Quad): seq<bv8> {
    Store(q.a) + Store(q.b) + Store(q.c) + Store(q.d)
  }

  /** Sections 3.1 and 3.2 of RFC 1321: the padded message, its length with the low word first. */
  function Padded(msg: seq<bv8>): seq<bv8> {
    msg + Padding(|msg|) + Length(|msg|)
  }

  function Length(n: nat): (s: seq<bv8>)
    ensures |s| == 8
  {
    LittleEndian(Bits(n) % TWO32) + LittleEndian(Bits(n) / TWO32)
  }

  /** The length in bits as a 64-bit number, least significant byte first. */
  lemma LengthValue(n: nat)
    ensures Length(n) == Backwards(AsBytes(Base256(8 * n % TWO64, 8)))
  {
    hide BigEndian, LittleEndian, Base256, AsBytes, Backwards;
    EndiansReversed(Bits(n) % TWO32, Bits(n) / TWO32);
    TwoWords(Bits(n) / TWO32, Bits(n) % TWO32);
  }

  function Digest(msg: seq<bv8>): seq<bv8> { Emit(Fold(Compress, INIT, Padded(msg))) }

  /** The words that finish stores are the length in bits. */
  lemma LengthWords(t: Total, n: nat)
    requires t.Bytes() == n % TWO64
    ensures LittleEndian(BitsLow(t)) + LittleEndian(BitsHigh(t)) == Length(n)
  {
    hide LittleEndian, Bits, BitsHigh, BitsLow, Total.Bytes;
    BitsOf(t, n);
  }

  class Context {
    var A: bv32
    var B: bv32
    var C: bv32
    var D: bv32
    var total: Total
    var buflen: nat
    const buffer: array<bv8>

    function State(): Quad
      reads this
    {
      Quad(A, B, C, D)
    }

    ghost predicate Valid()
      reads this
    {
      buffer.Length == 128 && buflen <= 64
    }

    /** All of msg has been fed. */
    ghost predicate Fed(msg: seq<bv8>)
      reads this, buffer
    {
      Valid() && Upto(Compress, INIT, State(), total, buffer[..buflen], msg)
    }

    /** md5_init_ctx */
    constructor ()
      ensures Fed([]) && buflen == 0 && total == Total(0, 0)
      ensures fresh(buffer)
    {
      A, B, C, D := 0x67452301, 0xefcdab89, 0x98badcfe, 0x10325476;
      total := Total(0, 0);
      buflen := 0;
      buffer := new bv8[128];
    }

    /** md5_process_block */
    method ProcessBlock(data: seq<bv8>)
      requires |data| % 64 == 0
      modifies this`A, this`B, this`C, this`D, this`total
      ensures State() == Fold(Compress, old(State()), data)
      ensures total == Counted(old(total), |data|)
    {
      hide Compress, Fold, Counted;
      total := Counted(total, |data|);
      var x := new bv32[16];
      var words := data;
      while words != []
        invariant |words| % 64 == 0
        invariant Fold(Compress, State(), words) == Fold(Compress, old(State()), data)
        invariant total == Counted(old(total), |data|)
        decreases |words|
      {
        FoldStep(Compress, State(), words);
        var g := OneBlock(words[..64], State(), x);
        A, B, C, D := g.a, g.b, g.c, g.d;
        words := words[64..];
      }
      FoldStep(Compress, State(), words);
    }

    /** The first pending bytes go through the block function. */
    method FoldPending(data: seq<bv8>, ghost pending: seq<bv8>, ghost msg: seq<bv8>)
      requires |data| % 64 == 0 && Countable(total, |data|)
      requires Upto(Compress, INIT, State(), total, pending, msg)
      requires |data| <= |pending| && pending[..|data|] == data
      modifies this`A, this`B, this`C, this`D, this`total
      ensures Upto(Compress, INIT, State(), total, pending[|data|..], msg)
      ensures total == Counted(old(total), |data|)
    {
      hide Compress, Fold, Upto, Counted;
      Consume(Compress, INIT, State(), total, pending, msg, |data|);
      ProcessBlock(data);
    }

    /** The part of md5_process_bytes that tops up a non-empty buffer. */
    method TopUp(data: seq<bv8>, ghost msg: seq<bv8>) returns (rest: seq<bv8>)
      requires Fed(msg) && buflen != 0
      modifies this, buffer
      ensures Valid() && |rest| <= |data| && (rest != [] ==> buflen == 0)
      ensures Upto(Compress, INIT, State(), total, buffer[..buflen] + rest, msg + data)
      ensures |rest| == |data| - TopUpSize(old(buflen), |data|)
      ensures rest != [] ==> total == Counted(old(total), FoldedFirst(old(buflen) + TopUpSize(old(buflen), |data|)))
    {
      hide Compress, Fold, Upto, Counted;
      var leftOver := buflen;
      var add := if 128 - leftOver > |data| then |data| else 128 - leftOver;
      Absorb(Compress, INIT, State(), total, buffer[..buflen], msg, data);
      ghost var was := buffer[..];
      Copy(buffer, leftOver, data[..add]);
      buflen := buflen + add;
      rest := data[add..];
      assert buffer[..buflen] == was[..leftOver] + data[..add];
      assert was[..leftOver] + data == buffer[..buflen] + rest;
      if buflen > 64 {
        FoldBuffer(rest, msg + data);
      }
    }

    /** The complete blocks of the buffer are folded, and what is left moves to its front. */
    method FoldBuffer(ghost rest: seq<bv8>, ghost msg: seq<bv8>)
      requires buffer.Length == 128 && 64 < buflen <= 128
      requires Upto(Compress, INIT, State(), total, buffer[..buflen] + rest, msg)
      modifies this, buffer
      ensures Valid() && buflen == old(buflen) % 64 && total == Counted(old(total), FoldedFirst(old(buflen)))
      ensures Upto(Compress, INIT, State(), total, buffer[..buflen] + rest, msg)
    {
      hide Compress, Fold, Upto, Counted;
      var whole := buflen - buflen % 64;
      ghost var pending := buffer[..buflen] + rest;
      FoldPending(buffer[..whole], pending, msg);
      assert pending[whole..] == buffer[whole..buflen] + rest;
      buflen := buflen % 64;
      MoveDown(buffer, whole, buflen);
    }

    /** md5_process_bytes */
    method ProcessBytes(data: seq<bv8>, ghost msg: seq<bv8>)
      requires Fed(msg) && ChunkCountable(total, buflen, |data|)
      modifies this, buffer
      ensures Fed(msg + data)
    {
      hide Compress, Fold, Upto;
      var rest := data;
      if buflen != 0 {
        rest := TopUp(data, msg);
      } else {
        Absorb(Compress, INIT, State(), total, buffer[..buflen], msg, data);
      }
      assert rest != [] ==> buffer[..buflen] + rest == rest;
      if |rest| > 64 {
        var whole := |rest| - |rest| % 64;
        FoldPending(rest[..whole], rest, msg + data);
        rest := rest[whole..];
        assert buffer[..buflen] + rest == rest;
      }
      if |rest| > 0 {
        Copy(buffer, 0, rest);
        buflen := |rest|;
        assert buffer[..buflen] == rest;
      } else {
        assert buffer[..buflen] + rest == buffer[..buflen];
      }
    }

    /** md5_finish_ctx and md5_read_ctx */
    method Finish(ghost msg: seq<bv8>) returns (digest: seq<bv8>)
      requires Fed(msg)
      modifies this, buffer
      ensures digest == Digest(msg)
    {
      hide Compress, Fold, Store, LittleEndian, BitsHigh, BitsLow, Upto, Length, Padding;
      var bytes := buflen;
      ghost var pending := buffer[..bytes];
      LastBlocks(Compress, INIT, State(), total, pending, msg, Length(|msg|));
      CountAll(Compress, INIT, State(), total, pending, msg);
      TailLength(Compress, INIT, State(), total, pending, msg);
      total := Counted(total, bytes);
      LengthWords(total, |msg|);
      var pad := PadLength(bytes);
      PutFill(buffer, bytes, pad, LittleEndian(BitsLow(total)), LittleEndian(BitsHigh(total)), |msg|);
      ProcessBlock(buffer[..bytes + pad + 8]);
      digest := Store(A) + Store(B) + Store(C) + Store(D);
    }
  }

  /** The fill bytes and then the two length words go behind the buffered ones. */
  method PutFill(buffer: array<bv8>, bytes: nat, pad: nat, first: seq<bv8>, second: seq<bv8>, ghost n: nat)
    requires |first| == |second| == 4 && bytes + pad + 8 <= buffer.Length
    requires pad == |Padding(n)|
    modifies buffer
    ensures buffer[..bytes + pad + 8] == old(buffer[..bytes]) + Padding(n) + (first + second)
  {
    hide Padding;
    var fill := [0x80] + Zeros(pad - 1);
    PadIs(n, fill);
    Copy(buffer, bytes, fill);
    Copy(buffer, bytes + pad, first);
    Copy(buffer, bytes + pad + 4, second);
  }

  /** md5_buffer */
  method Buffer(data: seq<bv8>) returns (digest: seq<bv8>)
    requires |data| < 2 * TWO32
    ensures digest == Digest(data)
  {
    hide Digest, Fold, Compress, Upto;
    var ctx := new Context();
    ctx.ProcessBytes(data, []);
    assert [] + data == data;
    digest := ctx.Finish(data);
  }

  /** Whatever way a message is cut into chunks, feeding them gives the
      digest of the whole message. */
  method InChunks(chunks: seq<seq<bv8>>) returns (digest: seq<bv8>)
    requires forall c :: c in chunks ==> |c| < TWO32
    ensures digest == Digest(Joined(chunks))
  {
    hide Digest, Fold, Compress, Upto;
    var ctx := new Context();
    var i := 0;
    while i < |chunks|
      invariant 0 <= i <= |chunks|
      invariant ctx.Fed(Joined(chunks[..i])) && fresh(ctx) && fresh(ctx.buffer)
    {
      ShortIsCountable(ctx.total, ctx.buflen, |chunks[i]|);
      ctx.ProcessBytes(chunks[i], Joined(chunks[..i]));
      assert chunks[..i + 1][..i] == chunks[..i];
      i := i + 1;
    }
    assert chunks[..i] == chunks;
    digest := ctx.Finish(Joined(chunks));
  }

  const BLOCKSIZE := 4096

  /** md5_stream over the contents of a file: whole buffers go to the block function directly. */
  method Stream(file: seq<bv8>) returns (digest: seq<bv8>)
    ensures digest == Digest(file)
  {
    hide Digest, Fold, Compress, Upto;
    var ctx := new Context();
    var pos := 0;
    while |file| - pos >= BLOCKSIZE
      invariant 0 <= pos <= |file|
      invariant ctx.Fed(file[..pos]) && ctx.buflen == 0 && fresh(ctx) && fresh(ctx.buffer)
    {
      ghost var more := file[pos..pos + BLOCKSIZE];
      Absorb(Compress, INIT, ctx.State(), ctx.total, [], file[..pos], more);
      assert ctx.buffer[..ctx.buflen] == [];
      assert file[..pos] + more == file[..pos + BLOCKSIZE] && [] + more == more;
      ctx.FoldPending(file[pos..pos + BLOCKSIZE], more, file[..pos + BLOCKSIZE]);
      assert more[BLOCKSIZE..] == ctx.buffer[..0];
      pos := pos + BLOCKSIZE;
    }
    assert file[..pos] + file[pos..] == file;
    if pos < |file| {
      ctx.ProcessBytes(file[pos..], file[..pos]);
    } else {
      assert file[..pos] == file;
    }
    digest := ctx.Finish(file);
  }
}
