/** Cipher block chaining (section 6.2 of NIST SP 800-38A) with the padding of section 6.3 of
    RFC 5652, on the buffers of aes.c. */
module AesCbc {
  import opened AesField
  import opened Aes
  import S = AesState

  // ----- chaining and padding as functions -----

  function XorBlock(s: Block, t: Block): Block {
    seq(16, k requires 0 <= k < 16 => Xor(s[k], t[k]))
  }

  /** The block before the next one: the last of the output so far, or the initial vector. */
  function Prior(iv: Block, done: seq<byte>): Block {
    (iv + done)[|done|..]
  }

  function CbcEncrypt(m: seq<byte>, keys: Keys, iv: Block): (c: seq<byte>)
    requires |m| % 16 == 0
    ensures |c| == |m|
  {
    if |m| == 0 then []
    else
      var done := CbcEncrypt(m[..|m| - 16], keys, iv);
      done + Cipher(XorBlock(m[|m| - 16..], Prior(iv, done)), keys)
  }

  function CbcDecrypt(c: seq<byte>, keys: Keys, iv: Block): (m: seq<byte>)
    requires |c| % 16 == 0
    ensures |m| == |c|
  {
    if |c| == 0 then []
    else
      var done := c[..|c| - 16];
      CbcDecrypt(done, keys, iv) + XorBlock(InvCipher(c[|c| - 16..], keys), Prior(iv, done))
  }

  lemma XorTwice(s: Block, t: Block)
    ensures XorBlock(XorBlock(s, t), t) == s
  {
    hide Xor;
    forall k | 0 <= k < 16
      ensures Xor(Xor(s[k], t[k]), t[k]) == s[k]
    {
      Cancel(s[k], t[k]);
    }
  }

  /** Chaining cancels block by block. */
  lemma {:induction false} CbcInverse(m: seq<byte>, keys: Keys, iv: Block)
    requires |m| % 16 == 0
    ensures CbcDecrypt(CbcEncrypt(m, keys, iv), keys, iv) == m
  {
    hide Cipher, InvCipher, XorBlock, Prior;
    if |m| > 0 {
      var done := CbcEncrypt(m[..|m| - 16], keys, iv);
      var last := m[|m| - 16..];
      var mixed := XorBlock(last, Prior(iv, done));
      var c := done + Cipher(mixed, keys);
      assert c[..|c| - 16] == done && c[|c| - 16..] == Cipher(mixed, keys);
      CbcInverse(m[..|m| - 16], keys, iv);
      DecipherCipher(mixed, keys);
      XorTwice(last, Prior(iv, done));
    }
  }

  function PadCount(n: nat): (k: nat)
    ensures 1 <= k <= 16 && (n + k) % 16 == 0
  {
    16 - n % 16
  }

  function ToByte(n: nat): byte
    requires n < 256
  {
    n as byte
  }

  function ToInt(b: byte): nat {
    b as int
  }

  function Pad(m: seq<byte>): (p: seq<byte>)
    ensures |p| == |m| + PadCount(|m|) && |p| % 16 == 0
  {
    m + seq(PadCount(|m|), _ => ToByte(PadCount(|m|)))
  }

  lemma PadValue(k: nat)
    requires 1 <= k <= 16
    ensures ToInt(ToByte(k)) == k
  {
  }

  /** The length that decryption returns, from the last byte. */
  function Unpadded(p: seq<byte>): int
    requires |p| > 0
  {
    |p| - ToInt(p[|p| - 1])
  }

  lemma UnpadPad(m: seq<byte>)
    ensures Unpadded(Pad(m)) == |m| && Pad(m)[..|m|] == m
  {
    hide ToByte, ToInt;
    PadValue(PadCount(|m|));
  }

  /** For every message, round keys and vector: the bytes and the length come back. */
  lemma DecryptEncrypt(m: seq<byte>, keys: Keys, iv: Block)
    ensures var d := CbcDecrypt(CbcEncrypt(Pad(m), keys, iv), keys, iv);
            Unpadded(d) == |m| && d[..|m|] == m
  {
    hide Pad, Unpadded;
    CbcInverse(Pad(m), keys, iv);
    UnpadPad(m);
  }

  // ----- the same on buffers -----

  method Padding(src: array<byte>, len: nat) returns (n: nat)
    requires len + PadCount(len) <= src.Length
    modifies src
    ensures n == len + PadCount(len) && src[..n] == Pad(old(src[..len])) && src[n..] == old(src[n..])
  {
    hide ToByte;
    var count := 16 - len % 16;
    for i := 0 to count
      invariant forall k | 0 <= k < src.Length ::
                  src[k] == if len <= k < len + i then ToByte(count) else old(src[k])
    {
      src[len + i] := ToByte(count);
    }
    n := len + count;
  }

  method BlockCopy(output: array<byte>, to: nat, input: array<byte>, from: nat)
    requires output != input && to + 16 <= output.Length && from + 16 <= input.Length
    modifies output
    ensures S.BlockAt(output, to) == S.BlockAt(input, from) && S.Only(output, to, 16)
  {
    for i := 0 to 16
      invariant output[to..to + i] == input[from..from + i]
      invariant S.Only(output, to, 16)
    {
      output[to + i] := input[from + i];
    }
  }

  /** Iv is a pointer: `iv` and `ivAt` stand for it. */
  method XorWithIv(buf: array<byte>, at: nat, iv: array<byte>, ivAt: nat)
    requires buf != iv && at + 16 <= buf.Length && ivAt + 16 <= iv.Length
    modifies buf
    ensures S.BlockAt(buf, at) == XorBlock(old(S.BlockAt(buf, at)), S.BlockAt(iv, ivAt)) && S.Only(buf, at, 16)
  {
    hide Xor;
    ghost var s := S.BlockAt(buf, at);
    for i := 0 to 16
      invariant forall k | 0 <= k < 16 :: buf[at + k] == if k < i then Xor(s[k], iv[ivAt + k]) else s[k]
      invariant S.Only(buf, at, 16)
    {
      buf[at + i] := Xor(buf[at + i], iv[ivAt + i]);
    }
  }

  /** The bytes that the block loop handles: a started block counts. */
  function Covered(length: nat): (n: nat)
    ensures n % 16 == 0 && length <= n < length + 16
  {
    (length + 15) / 16 * 16
  }

  /** What a call for that many bytes reads and writes. */
  function Touched(length: nat): nat {
    if length % 16 == 0 && length > 0 then length else Covered(length) + 16
  }

  lemma EncryptStep(m: seq<byte>, i: nat, keys: Keys, iv: Block, c: seq<byte>, next: Block)
    requires i % 16 == 0 && i + 16 <= |m| && c == CbcEncrypt(m[..i], keys, iv)
    requires next == Cipher(XorBlock(m[i..i + 16], Prior(iv, c)), keys)
    ensures c + next == CbcEncrypt(m[..i + 16], keys, iv) && Prior(iv, c + next) == next
  {
    hide Cipher, XorBlock, Prior;
    PriorNext(iv, c, next);
    var p := m[..i + 16];
    assert p[..|p| - 16] == m[..i] && p[|p| - 16..] == m[i..i + 16];
  }

  lemma PriorNext(iv: Block, done: seq<byte>, next: Block)
    ensures Prior(iv, done + next) == next
  {
    assert iv + (done + next) == (iv + done) + next;
  }

  /** One block: xor the input in place, copy it, encrypt the copy in place. */
  method EncryptBlock(output: array<byte>, input: array<byte>, at: nat, keys: Keys, iv: array<byte>, ivAt: nat)
    requires output != input && iv != input && at + 16 <= output.Length && at + 16 <= input.Length && ivAt + 16 <= iv.Length
    modifies output, input
    ensures S.BlockAt(output, at) == Cipher(XorBlock(old(S.BlockAt(input, at)), old(S.BlockAt(iv, ivAt))), keys)
    ensures output[..at] == old(output[..at]) && output[at + 16..] == old(output[at + 16..])
    ensures input[at + 16..] == old(input[at + 16..])
  {
    hide Cipher, XorBlock, S.BlockAt;
    XorWithIv(input, at, iv, ivAt);
    BlockCopy(output, at, input, at);
    S.Cipher(output, at, keys);
  }

  method CbcEncryptBlocks(output: array<byte>, input: array<byte>, length: nat, keys: Keys, iv: array<byte>) returns (i: nat)
    requires output != input && iv != output && iv != input && iv.Length == 16
    requires Covered(length) <= output.Length && Covered(length) <= input.Length
    modifies output, input
    ensures i == Covered(length)
    ensures output[..i] == CbcEncrypt(old(input[..i]), keys, old(iv[..])) && input[i..] == old(input[i..])
    ensures output[i..] == old(output[i..])
  {
    hide Cipher, XorBlock, Prior, CbcEncrypt;
    ghost var m, v := input[..], iv[..];
    var ivBuf, ivAt := iv, 0;
    i := 0;
    NothingEncrypted(m, keys, v);
    while i < length
      invariant i % 16 == 0 && i <= Covered(length)
      invariant output[..i] == CbcEncrypt(m[..i], keys, v) && output[i..] == old(output[i..]) && input[i..] == m[i..]
      invariant ivBuf in {iv, output} && ivAt + 16 <= ivBuf.Length && S.BlockAt(ivBuf, ivAt) == Prior(v, output[..i])
      invariant iv[..] == v
    {
      ghost var c, rest := output[..i], output[i..];
      assert S.BlockAt(input, i) == m[i..][..16] == m[i..i + 16];
      EncryptBlock(output, input, i, keys, ivBuf, ivAt);
      EncryptStep(m, i, keys, v, c, S.BlockAt(output, i));
      ivBuf, ivAt := output, i;
      i := i + 16;
      assert output[..i] == c + output[i - 16..i];
      assert output[i..] == rest[16..];
    }
  }

  lemma NothingEncrypted(m: seq<byte>, keys: Keys, iv: Block)
    ensures CbcEncrypt(m[..0], keys, iv) == [] && CbcDecrypt(m[..0], keys, iv) == [] && Prior(iv, []) == iv
  {
  }

  lemma DecryptStep(c: seq<byte>, i: nat, keys: Keys, iv: Block, m: seq<byte>, next: Block)
    requires i % 16 == 0 && i + 16 <= |c| && m == CbcDecrypt(c[..i], keys, iv)
    requires next == XorBlock(InvCipher(c[i..i + 16], keys), Prior(iv, c[..i]))
    ensures m + next == CbcDecrypt(c[..i + 16], keys, iv) && Prior(iv, c[..i + 16]) == c[i..i + 16]
  {
    hide InvCipher, XorBlock, Prior;
    var p := c[..i + 16];
    assert p[..|p| - 16] == c[..i] && p[|p| - 16..] == c[i..i + 16];
    assert p == c[..i] + c[i..i + 16];
    PriorNext(iv, c[..i], c[i..i + 16]);
  }

  method DecryptBlock(output: array<byte>, input: array<byte>, at: nat, keys: Keys, iv: array<byte>, ivAt: nat)
    requires output != input && iv != output && at + 16 <= output.Length && at + 16 <= input.Length && ivAt + 16 <= iv.Length
    modifies output
    ensures S.BlockAt(output, at) == XorBlock(InvCipher(S.BlockAt(input, at), keys), S.BlockAt(iv, ivAt))
    ensures output[..at] == old(output[..at]) && output[at + 16..] == old(output[at + 16..])
  {
    hide InvCipher, XorBlock, S.BlockAt;
    BlockCopy(output, at, input, at);
    S.InvCipher(output, at, keys);
    XorWithIv(output, at, iv, ivAt);
  }

  method CbcDecryptBlocks(output: array<byte>, input: array<byte>, length: nat, keys: Keys, iv: array<byte>) returns (i: nat)
    requires output != input && iv != output && iv.Length == 16
    requires Covered(length) <= output.Length && Covered(length) <= input.Length
    modifies output
    ensures i == Covered(length)
    ensures output[..i] == CbcDecrypt(input[..i], keys, iv[..]) && output[i..] == old(output[i..])
  {
    hide InvCipher, XorBlock, Prior, CbcDecrypt;
    ghost var c, v := input[..], iv[..];
    var ivBuf, ivAt := iv, 0;
    i := 0;
    NothingEncrypted(c, keys, v);
    while i < length
      invariant i % 16 == 0 && i <= Covered(length)
      invariant output[..i] == CbcDecrypt(c[..i], keys, v) && output[i..] == old(output[i..])
      invariant ivBuf in {iv, input} && ivAt + 16 <= ivBuf.Length && S.BlockAt(ivBuf, ivAt) == Prior(v, c[..i])
    {
      ghost var m, rest := output[..i], output[i..];
      DecryptBlock(output, input, i, keys, ivBuf, ivAt);
      DecryptStep(c, i, keys, v, m, S.BlockAt(output, i));
      ivBuf, ivAt := input, i;
      i := i + 16;
      assert output[..i] == m + output[i - 16..i];
      assert output[i..] == rest[16..];
    }
  }

  /** When the length ends within a block: as many of the bytes behind the covered blocks, because the
      input has already advanced past them, padded with zeros and not chained. */
  function Remainder(m: seq<byte>, length: nat): Block
    requires Covered(length) + 16 <= |m|
  {
    m[Covered(length)..Covered(length) + length % 16] + seq(16 - length % 16, _ => 0)
  }

  method CopyRemainder(output: array<byte>, input: array<byte>, at: nat, remainders: nat)
    requires output != input && at + 16 <= output.Length && at + 16 <= input.Length && remainders < 16
    modifies output
    ensures S.BlockAt(output, at) == input[at..at + remainders] + seq(16 - remainders, _ => 0)
    ensures output[..at] == old(output[..at]) && output[at + 16..] == old(output[at + 16..])
  {
    BlockCopy(output, at, input, at);
    ghost var s := S.BlockAt(output, at);
    for k := remainders to 16
      invariant S.Only(output, at, 16) && S.BlockAt(output, at)[..remainders] == s[..remainders]
      invariant forall j | remainders <= j < k :: S.BlockAt(output, at)[j] == 0
    {
      output[at + k] := 0;
    }
    assert s[..remainders] == input[at..at + remainders];
  }

  method CbcEncryptBuffer(output: array<byte>, input: array<byte>, length: nat, keys: Keys, iv: array<byte>)
    requires output != input && iv != output && iv != input && iv.Length == 16
    requires Touched(length) <= output.Length && Touched(length) <= input.Length
    modifies output, input
    ensures var n := Covered(length);
            && output[..n] == CbcEncrypt(old(input[..n]), keys, old(iv[..]))
            && (length % 16 != 0 ==> S.BlockAt(output, n) == Cipher(Remainder(old(input[..]), length), keys))
  {
    hide Cipher, CbcEncrypt;
    ghost var m := input[..];
    BlockCopy(output, 0, input, 0);
    var i := CbcEncryptBlocks(output, input, length, keys, iv);
    if length % 16 != 0 {
      ghost var done, r := output[..i], length % 16;
      assert input[i..i + r] == input[i..][..r] == m[i..][..r] == m[i..i + r];
      CopyRemainder(output, input, i, length % 16);
      S.Cipher(output, i, keys);
      assert output[..i] == done;
    }
  }

  method CbcDecryptBuffer(output: array<byte>, input: array<byte>, length: nat, keys: Keys, iv: array<byte>)
    requires output != input && iv != output && iv.Length == 16
    requires Touched(length) <= output.Length && Touched(length) <= input.Length
    modifies output
    ensures var n := Covered(length);
            && output[..n] == CbcDecrypt(input[..n], keys, iv[..])
            && (length % 16 != 0 ==> S.BlockAt(output, n) == InvCipher(Remainder(input[..], length), keys))
  {
    hide InvCipher, CbcDecrypt;
    BlockCopy(output, 0, input, 0);
    var i := CbcDecryptBlocks(output, input, length, keys, iv);
    if length % 16 != 0 {
      ghost var done := output[..i];
      CopyRemainder(output, input, i, length % 16);
      S.InvCipher(output, i, keys);
      assert output[..i] == done;
    }
  }

  method Cs5Encrypt(out: array<byte>, data: array<byte>, len: nat, keys: Keys, iv: array<byte>) returns (n: nat)
    requires out != data && iv != out && iv != data && iv.Length == 16
    requires len + PadCount(len) <= data.Length && len + PadCount(len) <= out.Length
    modifies out, data
    ensures n == len + PadCount(len) && out[..n] == CbcEncrypt(Pad(old(data[..len])), keys, old(iv[..]))
  {
    hide CbcEncrypt, Pad;
    n := Padding(data, len);
    CbcEncryptBuffer(out, data, n, keys, iv);
  }

  /** The result is meant as a length; it is one when the last byte is a pad count. */
  method Cs5Decrypt(out: array<byte>, data: array<byte>, len: nat, keys: Keys, iv: array<byte>) returns (n: int)
    requires out != data && iv != out && iv.Length == 16
    requires len > 0 && Touched(len) <= data.Length && Touched(len) <= out.Length
    modifies out
    ensures var c := Covered(len); out[..c] == CbcDecrypt(data[..c], keys, iv[..]) && n == Unpadded(out[..c][..len])
  {
    hide CbcDecrypt, ToInt;
    CbcDecryptBuffer(out, data, len, keys, iv);
    n := len - ToInt(out[len - 1]);
    assert out[..Covered(len)][..len] == out[..len];
  }

  /** Both wrappers one after the other, on three buffers. */
  method EncryptThenDecrypt(data: array<byte>, len: nat, out: array<byte>, back: array<byte>, keys: Keys, iv: array<byte>)
    returns (n: int)
    requires data != out && out != back && iv != data && iv != out && iv != back && iv.Length == 16
    requires len + PadCount(len) <= data.Length && len + PadCount(len) <= out.Length && len + PadCount(len) <= back.Length
    modifies data, out, back
    ensures n == len && back[..len] == old(data[..len])
  {
    hide CbcEncrypt, CbcDecrypt, Pad, Unpadded, PadCount;
    ghost var m := data[..len];
    DecryptEncrypt(m, keys, iv[..]);
    var size := Cs5Encrypt(out, data, len, keys, iv);
    n := Cs5Decrypt(back, out, size, keys, iv);
    assert back[..size][..size] == back[..size];
    assert back[..len] == back[..size][..len];
  }
}
