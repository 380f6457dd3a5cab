/** The byte interface of xxtea_string.c: packing bytes into little-endian words with the
    length in an extra word, encrypting in place, and unpacking. */
module XxteaBytes {
  import opened Bits
  import opened Xxtea

  type byte = x: int | 0 <= x < 256

  /** TEA_ENSTR_MAX */
  const BUFFER_BYTES: nat := 512
  const BUFFER_WORDS: nat := 128
  const KEY_WORDS: nat := 8

  // ----- packing -----

  function ByteAt(b: seq<byte>, i: nat): byte {
    if i < |b| then b[i] else 0
  }

  /** The j-th little-endian word of a byte string padded with zeros. */
  function WordAt(b: seq<byte>, j: nat): word {
    ByteAt(b, 4 * j) + ByteAt(b, 4 * j + 1) * 0x100 + ByteAt(b, 4 * j + 2) * 0x1_0000 + ByteAt(b, 4 * j + 3) * 0x100_0000
  }

  function WordCount(dl: nat): nat {
    if dl % 4 == 0 then dl / 4 else dl / 4 + 1
  }

  function Packed(b: seq<byte>): (v: seq<word>)
    ensures |v| == WordCount(|b|)
  {
    seq(WordCount(|b|), j requires 0 <= j < WordCount(|b|) => WordAt(b, j))
  }

  /** The i-th byte of a word sequence. */
  function UnpackedAt(v: seq<word>, i: nat): byte
    requires i < 4 * |v|
  {
    var w := v[i / 4];
    if i % 4 == 0 then w % 0x100 else if i % 4 == 1 then w / 0x100 % 0x100
    else if i % 4 == 2 then w / 0x1_0000 % 0x100 else w / 0x100_0000 % 0x100
  }

  function Unpacked(v: seq<word>, n: nat): (b: seq<byte>)
    requires n <= 4 * |v|
    ensures |b| == n
  {
    seq(n, i requires 0 <= i < n => UnpackedAt(v, i))
  }

  lemma WordDigits(b0: byte, b1: byte, b2: byte, b3: byte)
    ensures var w := b0 + b1 * 0x100 + b2 * 0x1_0000 + b3 * 0x100_0000;
            w % 0x100 == b0 && w / 0x100 % 0x100 == b1 && w / 0x1_0000 % 0x100 == b2 && w / 0x100_0000 % 0x100 == b3
  {
    var w := b0 + b1 * 0x100 + b2 * 0x1_0000 + b3 * 0x100_0000;
    assert w / 0x100 == b1 + b2 * 0x100 + b3 * 0x1_0000;
    assert w / 0x1_0000 == b2 + b3 * 0x100;
    assert w / 0x100_0000 == b3;
  }

  /** Unpacking gives back the packed bytes, whatever words follow. */
  lemma UnpackPacked(b: seq<byte>, more: seq<word>)
    ensures |b| <= 4 * |Packed(b) + more| && Unpacked(Packed(b) + more, |b|) == b
  {
    var v := Packed(b) + more;
    forall i | 0 <= i < |b|
      ensures UnpackedAt(v, i) == b[i]
    {
      var j := i / 4;
      WordDigits(ByteAt(b, 4 * j), ByteAt(b, 4 * j + 1), ByteAt(b, 4 * j + 2), ByteAt(b, 4 * j + 3));
      assert v[j] == WordAt(b, j);
    }
  }

  /** Packing the bytes of whole words gives back the words. */
  lemma PackUnpacked(v: seq<word>)
    ensures Packed(Unpacked(v, 4 * |v|)) == v
  {
    var b := Unpacked(v, 4 * |v|);
    forall j | 0 <= j < |v|
      ensures WordAt(b, j) == v[j]
    {
      RepackWord(v, j);
    }
  }

  lemma RepackWord(v: seq<word>, j: nat)
    requires j < |v|
    ensures WordAt(Unpacked(v, 4 * |v|), j) == v[j]
  {
    var b := Unpacked(v, 4 * |v|);
    assert b[4 * j] == v[j] % 0x100 && b[4 * j + 1] == v[j] / 0x100 % 0x100;
    assert b[4 * j + 2] == v[j] / 0x1_0000 % 0x100 && b[4 * j + 3] == v[j] / 0x100_0000 % 0x100;
    hide UnpackedAt, Unpacked;
    WordOfDigits(v[j]);
  }

  lemma WordOfDigits(w: word)
    ensures w % 0x100 + w / 0x100 % 0x100 * 0x100 + w / 0x1_0000 % 0x100 * 0x1_0000 + w / 0x100_0000 % 0x100 * 0x100_0000 == w
  {
  }

  // ----- the byte routines -----

  /** Word j of the buffer once the first i bytes have been merged into it. */
  ghost function Filled(b: seq<byte>, i: nat, inclen: bool, j: nat): word
    requires i <= |b| < 65536
  {
    if j < WordCount(|b|) then WordAt(b[..i], j) else if inclen && j == WordCount(|b|) then |b| else 0
  }

  lemma BytePlaces()
    ensures Pow2(0) == 1 && Pow2(8) == 0x100 && Pow2(16) == 0x1_0000 && Pow2(24) == 0x100_0000
  {
    assert Pow2(4) == 16;
    assert Pow2(8) == 256;
    assert Pow2(12) == 4096;
    assert Pow2(16) == 0x1_0000;
    assert Pow2(20) == 0x10_0000;
    assert Pow2(24) == 0x100_0000;
  }

  lemma NoBytes(j: nat)
    ensures WordAt([], j) == 0
  {
  }

  /** Merging byte i: bits that were still 0 are set, and only in word i / 4. */
  lemma MergeByte(b: seq<byte>, i: nat)
    requires i < |b|
    ensures WordAt(b[..i + 1], i / 4) == Or(WordAt(b[..i], i / 4), b[i] * Pow2(8 * (i % 4)))
    ensures forall j: nat | j != i / 4 :: WordAt(b[..i + 1], j) == WordAt(b[..i], j)
  {
    hide Or, Pow2;
    BytePlaces();
    OrDisjoint(WordAt(b[..i], i / 4), b[i], 8 * (i % 4));
  }

  method ToIntArray(presult: array<word>, pdat: array<byte>, dl: nat, inclen: bool) returns (n: nat)
    requires dl <= pdat.Length && dl < 65536
    requires dl > 0 ==> WordCount(dl) + (if inclen then 1 else 0) <= presult.Length
    requires forall j | 0 <= j < presult.Length :: presult[j] == 0
    modifies presult
    ensures dl == 0 ==> n == 0
    ensures dl > 0 ==> n == WordCount(dl) + (if inclen then 1 else 0)
    ensures dl > 0 ==> presult[..n] == Packed(pdat[..dl]) + (if inclen then [dl] else [])
    ensures forall j | n <= j < presult.Length :: presult[j] == 0
  {
    hide Or, Pow2, WordAt;
    if dl == 0 {
      return 0;
    }
    n := WordCount(dl);
    if inclen {
      presult[n] := dl;
      n := n + 1;
    }
    ghost var b := pdat[..dl];
    assert forall j | 0 <= j < presult.Length :: presult[j] == Filled(b, 0, inclen, j) by {
      forall j: nat ensures WordAt(b[..0], j) == 0 { NoBytes(j); }
    }
    for i := 0 to dl
      invariant forall j | 0 <= j < presult.Length :: presult[j] == Filled(b, i, inclen, j)
    {
      MergeByte(b, i);
      presult[i / 4] := Or(presult[i / 4], pdat[i] * Pow2(8 * (i % 4)));
    }
    assert b[..dl] == b;
  }

  lemma ShiftByte(v: seq<word>, i: nat)
    requires i < 4 * |v|
    ensures UnpackedAt(v, i) == v[i / 4] / Pow2(8 * (i % 4)) % 0x100
  {
    BytePlaces();
  }

  method ToByteArray(presult: array<byte>, pdat: array<word>, dl: nat, inclen: bool) returns (n: nat)
    requires dl <= pdat.Length && dl < 0x1_0000 / 4
    requires 4 * dl <= presult.Length
    modifies presult
    ensures n == if dl == 0 || (inclen && pdat[dl - 1] > 4 * dl) then 0 else if inclen then pdat[dl - 1] else 4 * dl
    ensures n <= 4 * dl && presult[..n] == Unpacked(pdat[..dl], n)
    ensures presult[n..] == old(presult[n..])
  {
    hide Pow2, UnpackedAt;
    if dl == 0 {
      return 0;
    }
    n := 4 * dl;
    if inclen {
      if pdat[dl - 1] > n {
        return 0;
      }
      n := pdat[dl - 1];
    }
    ghost var v := pdat[..dl];
    for i := 0 to n
      invariant forall k: nat | k < i :: presult[k] == UnpackedAt(v, k)
      invariant forall k: nat | i <= k < presult.Length :: presult[k] == old(presult[k])
    {
      ShiftByte(v, i);
      presult[i] := pdat[i / 4] / Pow2(8 * (i % 4)) % 0x100;
    }
  }

  // ----- xxtea_encrypt and xxtea_decrypt -----

  /** The key buffer: eight words, of which the cipher uses the first four. */
  function KeyWords(key: seq<byte>): (k: seq<word>)
    ensures |k| == KEY_WORDS
  {
    seq(KEY_WORDS, j requires 0 <= j < KEY_WORDS => WordAt(key, j))
  }

  function Sealed(b: seq<byte>, key: seq<byte>): seq<byte>
    requires |b| < 65536
  {
    if |b| == 0 || |key| == 0 then []
    else
      var v := Encrypt(Packed(b) + [|b|], KeyWords(key));
      Unpacked(v, 4 * |v|)
  }

  /** Decryption fails when the decrypted length word exceeds the bytes there are. */
  function Opened(b: seq<byte>, key: seq<byte>): seq<byte> {
    if |b| == 0 || |key| == 0 then []
    else
      var v := Decrypt(Packed(b), KeyWords(key));
      var n := v[|v| - 1];
      if n > 4 * |v| then [] else Unpacked(v, n)
  }

  /** Decryption recovers the bytes that were encrypted, of any length and content. */
  lemma OpenSealed(b: seq<byte>, key: seq<byte>)
    requires |b| < 65536 && |key| > 0
    ensures Opened(Sealed(b, key), key) == b
  {
    hide Encrypt, Decrypt, Packed, Unpacked, KeyWords;
    if |b| > 0 {
      var plain := Packed(b) + [|b|];
      var v := Encrypt(plain, KeyWords(key));
      PackUnpacked(v);
      DecryptEncrypt(plain, KeyWords(key));
      UnpackPacked(b, [|b|]);
    }
  }

  method XxteaEncrypt(presult: array<byte>, pdat: array<byte>, dl: nat, pkey: array<byte>, kl: nat) returns (retlen: nat)
    requires dl <= pdat.Length && kl <= pkey.Length
    requires WordCount(dl) + 1 <= BUFFER_WORDS && WordCount(kl) <= KEY_WORDS
    requires 4 * (WordCount(dl) + 1) <= presult.Length
    modifies presult
    ensures retlen <= presult.Length
    ensures presult[..retlen] == Sealed(old(pdat[..dl]), old(pkey[..kl]))
    ensures presult[retlen..] == old(presult[retlen..])
  {
    hide Encrypt, Packed, Unpacked, WordAt;
    if kl == 0 {
      return 0;
    }
    var data := new word[BUFFER_WORDS](_ => 0);
    var key := new word[KEY_WORDS](_ => 0);
    var datalen := ToIntArray(data, pdat, dl, true);
    var keylen := ToIntArray(key, pkey, kl, false);
    KeyBuffer(key[..], pkey[..kl]);
    retlen := 0;
    if keylen > 0 && datalen > 0 {
      RawEncrypt(data, datalen, key);
      retlen := ToByteArray(presult, data, datalen, false);
    }
  }

  method XxteaDecrypt(pdat: array<byte>, dl: nat, pkey: array<byte>, kl: nat) returns (retlen: nat)
    requires kl <= pkey.Length && 4 * WordCount(dl) <= pdat.Length
    requires WordCount(dl) <= BUFFER_WORDS && WordCount(kl) <= KEY_WORDS
    modifies pdat
    ensures retlen <= pdat.Length
    ensures pdat[..retlen] == Opened(old(pdat[..dl]), old(pkey[..kl]))
    ensures pdat[retlen..] == old(pdat[retlen..])
  {
    hide Decrypt, Packed, Unpacked, WordAt;
    if kl == 0 {
      return 0;
    }
    var data := new word[BUFFER_WORDS](_ => 0);
    var key := new word[KEY_WORDS](_ => 0);
    var datalen := ToIntArray(data, pdat, dl, false);
    var keylen := ToIntArray(key, pkey, kl, false);
    KeyBuffer(key[..], pkey[..kl]);
    retlen := 0;
    if datalen > 0 && keylen > 0 {
      assert data[..datalen] == Packed(old(pdat[..dl]));
      RawDecrypt(data, datalen, key);
      retlen := ToByteArray(pdat, data, datalen, true);
    }
  }

  lemma KeyBuffer(k: seq<word>, key: seq<byte>)
    requires |k| == KEY_WORDS && WordCount(|key|) <= KEY_WORDS && k[..WordCount(|key|)] == Packed(key)
    requires forall j | WordCount(|key|) <= j < KEY_WORDS :: k[j] == 0
    ensures k == KeyWords(key)
  {
    forall j: nat | j < KEY_WORDS
      ensures k[j] == WordAt(key, j)
    {
      if j < WordCount(|key|) {
        assert k[..WordCount(|key|)][j] == WordAt(key, j);
      }
    }
  }
}
