/** Streaming SHA-256 and SHA-224: padding and chaining as in FIPS 180-4 sections 5.1.1 and 6.2,
    and the two contexts of the repository, which buffer and count differently. */
module Sha256Stream {
  import opened Bits
  import opened Sha256Words
  import opened Sha256

  const TWO32: nat := 0x1_0000_0000
  const TWO61: nat := 0x2000_0000_0000_0000
  const TWO64: nat := 0x1_0000_0000_0000_0000

  // ----- the hash of a whole message -----

  function Iv(is224: bool): Registers {
    if is224 then
      Registers(0xC1059ED8, 0x367CD507, 0x3070DD17, 0xF70E5939, 0xFFC00B31, 0x68581511, 0x64F98FA7, 0xBEFA4FA4)
    else
      Registers(0x6A09E667, 0xBB67AE85, 0x3C6EF372, 0xA54FF53A, 0x510E527F, 0x9B05688C, 0x1F83D9AB, 0x5BE0CD19)
  }

  /** The chaining value after whole blocks. */
  function Blocks(r: Registers, m: seq<byte>): Registers
    requires |m| % 64 == 0
  {
    if |m| == 0 then r else Compress(Blocks(r, m[..|m| - 64]), m[|m| - 64..])
  }

  function ToWord(n: nat): word
    requires n < TWO32
  {
    n as word
  }

  /** A 64-bit number in big-endian order. */
  function Length64(n: nat): (b: seq<byte>)
    requires n < TWO64
    ensures |b| == 8
  {
    BigBytes(ToWord(n / TWO32)) + BigBytes(ToWord(n % TWO32))
  }

  /** The least number of zeros after which 8 bytes are left in the block. */
  function ZeroCount(n: nat): (k: nat)
    ensures k < 64 && (n + 1 + k + 8) % 64 == 0
  {
    (119 - n % 64) % 64
  }

  /** Section 5.1.1: a one bit, zeros, and the length in bits. */
  function Padding(n: nat): (p: seq<byte>)
    requires n < TWO61
    ensures (n + |p|) % 64 == 0
  {
    [0x80] + seq(ZeroCount(n), _ => 0) + Length64(8 * n)
  }

  function Words(r: Registers): (ws: seq<word>)
    ensures |ws| == 8
  {
    [r.a, r.b, r.c, r.d, r.e, r.f, r.g, r.h]
  }

  function WordBytes(ws: seq<word>): (b: seq<byte>)
    ensures |b| == 4 * |ws|
  {
    if |ws| == 0 then [] else WordBytes(ws[..|ws| - 1]) + BigBytes(ws[|ws| - 1])
  }

  function Output(is224: bool, r: Registers): (d: seq<byte>)
    ensures |d| == if is224 then 28 else 32
  {
    WordBytes(if is224 then Words(r)[..7] else Words(r))
  }

  function Digest(is224: bool, m: seq<byte>): (d: seq<byte>)
    requires |m| < TWO61
    ensures |d| == if is224 then 28 else 32
  {
    Output(is224, Blocks(Iv(is224), m + Padding(|m|)))
  }

  /** The whole blocks of a message, and what is left over. */
  function Whole(m: seq<byte>): (w: seq<byte>)
    ensures |w| % 64 == 0
  {
    m[..|m| / 64 * 64]
  }

  function Rest(m: seq<byte>): (b: seq<byte>)
    ensures |b| == |m| % 64
  {
    m[|m| / 64 * 64..]
  }

  lemma AddBlock(r: Registers, m: seq<byte>, more: seq<byte>)
    requires |m| % 64 + |more| == 64
    ensures |m + more| % 64 == 0 && Whole(m + more) == m + more && Rest(m + more) == []
    ensures Blocks(r, m + more) == Compress(Blocks(r, Whole(m)), Rest(m) + more)
  {
    hide Compress;
    var all := m + more;
    assert all[..|all| - 64] == Whole(m);
    assert all[|all| - 64..] == Rest(m) + more;
  }

  lemma AddRest(m: seq<byte>, more: seq<byte>)
    requires |m| % 64 + |more| < 64
    ensures Whole(m + more) == Whole(m) && Rest(m + more) == Rest(m) + more
  {
  }

  method Copy(dst: array<byte>, at: nat, src: seq<byte>)
    requires at + |src| <= dst.Length
    modifies dst
    ensures dst[..] == old(dst[..at]) + src + old(dst[at + |src|..])
  {
    forall i | 0 <= i < |src| {
      dst[at + i] := src[i];
    }
  }

  /** Stores word n of a digest in big-endian order. */
  method PutWord(output: array<byte>, n: nat, w: word, ghost ws: seq<word>)
    requires n < |ws| && w == ws[n] && 4 * n + 4 <= output.Length && output[..4 * n] == WordBytes(ws[..n])
    modifies output
    ensures output[..4 * (n + 1)] == WordBytes(ws[..n + 1])
  {
    hide BigBytes;
    Copy(output, 4 * n, BigBytes(w));
    assert ws[..n + 1][..n] == ws[..n];
  }

  lemma NoWords(ws: seq<word>)
    ensures WordBytes(ws[..0]) == []
  {
  }

  // ----- hmac_sha256.c: sha2_starts, sha2_update, sha2_finish -----

  class Sha2Context {
    var total0: nat
    var total1: nat
    var state: Registers
    const buffer: array<byte>
    const ipad: array<byte>
    const opad: array<byte>
    var is224: bool
    /** The message so far. */
    ghost var msg: seq<byte>

    constructor ()
      ensures buffer.Length == ipad.Length == opad.Length == 64
      ensures fresh(buffer) && fresh(ipad) && fresh(opad) && buffer != ipad && buffer != opad && ipad != opad
    {
      buffer := new byte[64];
      ipad := new byte[64];
      opad := new byte[64];
    }

    /** The whole blocks of m are in the state and the rest is in the buffer. */
    ghost predicate Chained(m: seq<byte>)
      reads `state, `is224, buffer
    {
      buffer.Length == 64 && state == Blocks(Iv(is224), Whole(m)) && buffer[..|m| % 64] == Rest(m)
    }

    /** What the two words count. */
    ghost function Total(): int
      reads `total0, `total1
    {
      total1 * TWO32 + total0
    }

    /** The message is absorbed; the counter knows at least how much of it is in the buffer. */
    ghost predicate Absorbed()
      reads this, buffer
    {
      total0 < TWO32 && total1 < TWO32 && total0 % 64 == |msg| % 64 && Chained(msg)
    }

    ghost predicate Valid()
      reads this, buffer
    {
      Absorbed() && Total() == |msg|
    }

    /** An input of n bytes can be counted. */
    ghost predicate Accepts(n: nat)
      reads this, buffer
    {
      Absorbed() && Total() + n % TWO32 < TWO64
    }

    lemma Ready(n: nat)
      requires Valid() && n < TWO32 && |msg| + n < TWO64
      ensures Accepts(n)
    {
      hide Chained;
    }

    method Starts(is224: bool)
      requires buffer.Length == 64
      modifies this
      ensures Valid() && msg == [] && this.is224 == is224
    {
      hide Compress;
      total0, total1 := 0, 0;
      state := Iv(is224);
      this.is224 := is224;
      msg := [];
    }

    /** The 64-bit byte count in two words, with the carry found by comparison, for the length cut to
        32 bits. */
    method Count(ilen: nat)
      requires total0 < TWO32 && total1 < TWO32 && Total() + ilen % TWO32 < TWO64
      modifies `total0, `total1
      ensures total0 < TWO32 && total1 < TWO32 && Total() == old(Total()) + ilen % TWO32
      ensures total0 % 64 == (old(total0) + ilen) % 64
    {
      ghost var before := total0;
      var low := ilen % TWO32;
      total0 := (total0 + low) % TWO32;
      if total0 < low {
        total1 := total1 + 1;
      }
      CutBits(before, ilen);
    }

    method FillBuffer(input: seq<byte>, ghost m: seq<byte>)
      requires Chained(m) && |m| % 64 + |input| == 64
      modifies `state, buffer
      ensures Chained(m + input) && |m + input| % 64 == 0
    {
      hide Blocks, Compress, Iv;
      Copy(buffer, 64 - |input|, input);
      assert buffer[..] == Rest(m) + input;
      state := Process(state, buffer[..]);
      AddBlock(Iv(is224), m, input);
    }

    method TakeBlock(input: seq<byte>, ghost m: seq<byte>)
      requires Chained(m) && |m| % 64 == 0 && |input| == 64
      modifies `state
      ensures Chained(m + input) && |m + input| % 64 == 0
    {
      hide Blocks, Compress, Iv;
      AddBlock(Iv(is224), m, input);
      assert Rest(m) + input == input;
      state := Process(state, input);
    }

    method Keep(input: seq<byte>, left: nat, ghost m: seq<byte>)
      requires Chained(m) && left == |m| % 64 && left + |input| < 64
      modifies buffer
      ensures Chained(m + input)
    {
      hide Blocks, Iv;
      if |input| > 0 {
        Copy(buffer, left, input);
      }
      AddRest(m, input);
    }

    /** Completes the block in the buffer, takes whole blocks, and keeps the rest. */
    method Take(input: seq<byte>, used: nat)
      requires Chained(msg) && used == |msg| % 64
      modifies `state, buffer
      ensures Chained(msg + input)
    {
      hide Chained;
      var left, fill, p: nat := used, 64 - used, 0;
      ghost var m := msg;
      if left != 0 && |input| >= fill {
        FillBuffer(input[..fill], msg);
        p, left, m := fill, 0, msg + input[..fill];
      }
      while |input| - p >= 64
        invariant p <= |input| && m == msg + input[..p] && Chained(m) && left == |m| % 64
        invariant left != 0 ==> |input| - p < 64 - left
        modifies `state
      {
        TakeBlock(input[p..p + 64], m);
        m := m + input[p..p + 64];
        p := p + 64;
      }
      Keep(input[p..], left, m);
      m := m + input[p..];
      assert m == msg + input;
    }

    /** The message grows by the input, whatever its length, and the count by its low 32 bits: the
        context stays good for a digest if and only if the input has fewer than 2^32 bytes. */
    method Update(input: seq<byte>)
      requires Accepts(|input|)
      modifies `total0, `total1, `state, `msg, buffer
      ensures Absorbed() && msg == old(msg) + input && Total() == old(Total()) + |input| % TWO32
      ensures old(Valid()) ==> (Valid() <==> |input| < TWO32)
    {
      hide Chained;
      if |input| == 0 {
        assert msg + input == msg;
        return;
      }
      var left := total0 % 64;
      Count(|input|);
      Take(input, left);
      SumLowBits(|msg|, |input|, old(total0));
      msg := msg + input;
      CutLength(|input|);
    }

    /** The message length in bits, as sha2_finish assembles it from the two counters. */
    method LengthField() returns (msglen: seq<byte>)
      requires Valid() && |msg| < TWO61
      ensures msglen == Length64(8 * |msg|)
    {
      hide Chained, BigBytes, Or, ToWord;
      LengthWords(total0, total1);
      var high: nat, low: nat := Or(total0 / 0x2000_0000, total1 * 8 % TWO32), total0 * 8 % TWO32;
      msglen := BigBytes(ToWord(high)) + BigBytes(ToWord(low));
    }

    method PadCount() returns (padn: nat)
      requires Valid()
      ensures padn == PadLength(|msg|)
    {
      hide Chained;
      LowSixBits(total0, total1);
      var last := total0 % 64;
      padn := if last < 56 then 56 - last else 120 - last;
    }

    /** Pads, hashes the last block or two, and writes the digest. */
    method Finish(output: array<byte>)
      requires Valid() && |msg| < TWO61 && output.Length >= 32 && output != buffer
      modifies `total0, `total1, `state, `msg, buffer, output
      ensures output[..if is224 then 28 else 32] == Digest(is224, old(msg))
    {
      hide Valid, Absorbed, Total, Accepts, Blocks, Iv, Output, Length64, Padding, PadLength;
      var msglen := LengthField();
      var padn := PadCount();
      PadBytes(msg, padn);
      Ready(padn);
      Update(PADDING[..padn]);
      Ready(8);
      Update(msglen);
      WholeBlocks();
      WriteState(output);
    }

    method WriteState(output: array<byte>)
      requires output.Length >= 32
      modifies output
      ensures output[..if is224 then 28 else 32] == Output(is224, state)
    {
      hide WordBytes;
      ghost var ws := Words(state);
      assert output[..0] == WordBytes(ws[..0]) by {
        NoWords(ws);
      }
      PutWord(output, 0, state.a, ws);
      PutWord(output, 1, state.b, ws);
      PutWord(output, 2, state.c, ws);
      PutWord(output, 3, state.d, ws);
      PutWord(output, 4, state.e, ws);
      PutWord(output, 5, state.f, ws);
      PutWord(output, 6, state.g, ws);
      if !is224 {
        PutWord(output, 7, state.h, ws);
        assert ws[..8] == ws;
      }
    }

    /** With no bytes left over, the state has absorbed the whole message. */
    lemma WholeBlocks()
      requires Valid() && |msg| % 64 == 0
      ensures state == Blocks(Iv(is224), msg)
    {
      hide Blocks, Iv;
      assert Whole(msg) == msg;
    }
  }

  lemma CutLength(n: nat)
    ensures n % TWO32 == n <==> n < TWO32
  {
  }

  lemma CutBits(total0: nat, ilen: nat)
    ensures (total0 + ilen % TWO32) % TWO32 % 64 == (total0 + ilen) % 64
  {
    var a, b := total0 + ilen % TWO32, ilen / TWO32;
    assert ilen == b * TWO32 + ilen % TWO32;
    var c := a / TWO32;
    assert a == c * TWO32 + a % TWO32;
    LowSixBits(a % TWO32, c);
    LowSixBits(a, b);
  }

  lemma SumLowBits(m: nat, n: nat, total0: nat)
    requires total0 % 64 == m % 64
    ensures (total0 + n) % 64 == (m + n) % 64
  {
  }

  lemma LowSixBits(total0: nat, total1: nat)
    ensures (total1 * TWO32 + total0) % 64 == total0 % 64
  {
    assert (total1 * TWO32 + total0) % 64 == (64 * (total1 * 0x400_0000) + total0) % 64;
  }

  const PADDING: seq<byte> := [0x80] + seq(63, _ => 0)

  /** The two length words written by sha2_finish are those of the bit count. */
  lemma LengthWords(total0: nat, total1: nat)
    requires total0 < TWO32 && total1 * TWO32 + total0 < TWO61
    ensures var bits := 8 * (total1 * TWO32 + total0);
            bits < TWO64 && Or(total0 / 0x2000_0000, total1 * 8 % TWO32) == bits / TWO32 && total0 * 8 % TWO32 == bits % TWO32
  {
    assert Pow2(3) == 8;
    hide Or, Pow2;
    assert total1 * 8 < TWO32;
    OrDisjoint(total0 / 0x2000_0000, total1, 3);
    TopBits(total0);
    DivMod(total0 / 0x2000_0000 + total1 * 8, total0 * 8 % TWO32);
  }

  lemma TopBits(t: nat)
    requires t < TWO32
    ensures 8 * t == t / 0x2000_0000 * TWO32 + t * 8 % TWO32
  {
  }

  lemma DivMod(high: nat, low: nat)
    requires low < TWO32
    ensures (high * TWO32 + low) / TWO32 == high && (high * TWO32 + low) % TWO32 == low
  {
  }

  function PadLength(n: nat): (padn: nat)
    ensures 1 <= padn <= 64
  {
    if n % 64 < 56 then 56 - n % 64 else 120 - n % 64
  }

  lemma PadBytes(m: seq<byte>, padn: nat)
    requires |m| < TWO61 && padn == PadLength(|m|)
    ensures m + PADDING[..padn] + Length64(8 * |m|) == m + Padding(|m|)
    ensures |m + Padding(|m|)| % 64 == 0
  {
    hide Length64;
    assert padn == 1 + ZeroCount(|m|);
    assert PADDING[..padn] == [0x80] + seq(ZeroCount(|m|), _ => 0);
  }

  // ----- sha256.c: SHA256Init, SHA256Update, SHA256Final -----

  class Sha256Context {
    var totalLength: nat
    var hash: Registers
    var bufferLength: nat
    const buffer: array<byte>
    ghost var msg: seq<byte>

    /** SHA256Init on a context with its buffer. */
    constructor ()
      ensures Valid() && msg == [] && fresh(buffer)
    {
      hide Compress;
      totalLength := 0;
      hash := Iv(false);
      bufferLength := 0;
      buffer := new byte[64];
      msg := [];
    }

    ghost predicate Chained(m: seq<byte>)
      reads `hash, buffer
    {
      buffer.Length == 64 && hash == Blocks(Iv(false), Whole(m)) && buffer[..|m| % 64] == Rest(m)
    }

    ghost predicate Valid()
      reads this, buffer
    {
      bufferLength == |msg| % 64 && totalLength == BitCount(|msg|) && Chained(msg)
    }

    /** One turn of the loop of SHA256Update: as many bytes as fit. */
    method CopyPart(part: seq<byte>)
      requires Valid() && |part| + bufferLength <= 64
      modifies this, buffer
      ensures Valid() && msg == old(msg) + part
    {
      hide Chained, BitCount, AddBits;
      CopyBytes(part);
      BitCountSum(|msg|, |part|);
      FillSum(|msg|, |part|);
      totalLength := AddBits(totalLength, |part|);
      bufferLength := bufferLength + |part|;
      if bufferLength == 64 {
        bufferLength := 0;
      }
      msg := msg + part;
    }

    /** Copies bytes to the buffer and compresses it when it is full. */
    method CopyBytes(part: seq<byte>)
      requires Chained(msg) && bufferLength == |msg| % 64 && |part| + bufferLength <= 64
      modifies `hash, buffer
      ensures Chained(msg + part)
    {
      hide Blocks, Compress, Iv;
      Copy(buffer, bufferLength, part);
      if bufferLength + |part| == 64 {
        AddBlock(Iv(false), msg, part);
        assert buffer[..] == Rest(msg) + part;
        hash := Guts(hash, buffer[..]);
      } else {
        AddRest(msg, part);
      }
    }

    method Update(data: seq<byte>)
      requires Valid() && |data| < TWO32
      modifies this, buffer
      ensures Valid() && msg == old(msg) + data
    {
      hide Chained;
      var p: nat := 0;
      while p < |data|
        invariant p <= |data| && Valid() && msg == old(msg) + data[..p]
      {
        var bytesToCopy := 64 - bufferLength;
        if bytesToCopy > |data| - p {
          bytesToCopy := |data| - p;
        }
        CopyPart(data[p..p + bytesToCopy]);
        assert data[..p] + data[p..p + bytesToCopy] == data[..p + bytesToCopy];
        p := p + bytesToCopy;
      }
    }

    /** 120 minus the buffer length, less a block when that is more than one. */
    method PadCount() returns (bytesToPad: nat)
      requires Valid()
      ensures bytesToPad == PadLength(|msg|)
    {
      hide Chained, BitCount;
      bytesToPad := 120 - bufferLength;
      if bytesToPad > 64 {
        bytesToPad := bytesToPad - 64;
      }
    }

    method Final(output: array<byte>)
      requires Valid() && |msg| < TWO61 && output.Length == 32 && output != buffer
      modifies this, buffer, output
      ensures output[..] == Digest(false, old(msg))
    {
      hide Chained, Blocks, Iv, Length64, Padding, PadLength, WordBytes;
      var lengthPad := SwappedLength(totalLength);
      var bytesToPad := PadCount();
      PadBytes(msg, bytesToPad);
      Update(PADDING[..bytesToPad]);
      Update(lengthPad);
      WholeBlocks();
      WriteWords(Words(hash), output);
    }

    lemma WholeBlocks()
      requires Valid() && |msg| % 64 == 0
      ensures hash == Blocks(Iv(false), msg)
    {
      hide Blocks, Iv, BitCount;
      assert Whole(msg) == msg;
    }
  }

  /** A message length in bits, modulo 2^64. */
  function BitCount(n: nat): nat {
    8 * n % TWO64
  }

  function AddBits(total: nat, bytes: nat): nat {
    (total + bytes * 8) % TWO64
  }

  lemma BitCountSum(n: nat, k: nat)
    ensures AddBits(BitCount(n), k) == BitCount(n + k)
  {
  }

  lemma FillSum(n: nat, k: nat)
    requires n % 64 + k <= 64
    ensures (n + k) % 64 == if n % 64 + k == 64 then 0 else n % 64 + k
  {
  }

  /** The bytes in memory of BYTESWAP64(n) on a little-endian machine. */
  method SwappedLength(n: nat) returns (b: seq<byte>)
    requires n < TWO64
    ensures b == Length64(n)
  {
    hide BigBytes, ByteSwap, LittleBytes, ToWord;
    var high, low := ToWord(n / TWO32), ToWord(n % TWO32);
    SwapStore(high);
    SwapStore(low);
    b := LittleBytes(ByteSwap(high)) + LittleBytes(ByteSwap(low));
  }

  method WriteWords(ws: seq<word>, output: array<byte>)
    requires output.Length == 4 * |ws|
    modifies output
    ensures output[..] == WordBytes(ws)
  {
    hide WordBytes;
    NoWords(ws);
    for i := 0 to |ws|
      invariant output[..4 * i] == WordBytes(ws[..i])
    {
      PutWord(output, i, ws[i], ws);
    }
    assert ws[..|ws|] == ws;
  }
}
