/** The AES-128 cipher of aes.c as functions of a 16-byte state, column by column (byte 4i + j is
    row j of column i), and that InvCipher inverts Cipher for any round keys. */
module Aes {
  import opened AesField
  import opened AesTables

  const NR: nat := 10

  type Block = s: seq<byte> | |s| == 16 witness seq(16, _ => 0)

  /** RoundKey: eleven blocks. */
  type Keys = s: seq<byte> | |s| == 176 witness seq(176, _ => 0)

  function SubBytes(s: Block): Block {
    seq(16, k requires 0 <= k < 16 => Sbox(s[k]))
  }

  function InvSubBytes(s: Block): Block {
    seq(16, k requires 0 <= k < 16 => Rsbox(s[k]))
  }

  /** Where byte k comes from when row k % 4 moves left, or right, by its number. */
  function Left(k: nat): (r: nat)
    requires k < 16
    ensures r < 16
  {
    (k / 4 + k % 4) % 4 * 4 + k % 4
  }

  function Right(k: nat): (r: nat)
    requires k < 16
    ensures r < 16
  {
    (k / 4 + 4 - k % 4) % 4 * 4 + k % 4
  }

  function ShiftRows(s: Block): Block {
    seq(16, k requires 0 <= k < 16 => s[Left(k)])
  }

  function InvShiftRows(s: Block): Block {
    seq(16, k requires 0 <= k < 16 => s[Right(k)])
  }

  /** The place n after k in the same column, cyclically. */
  function Down(k: nat, n: nat): (r: nat)
    requires k < 16
    ensures r < 16
  {
    k / 4 * 4 + (k % 4 + n) % 4
  }

  function MixAt(s: Block, k: nat): byte
    requires k < 16
  {
    Mix(s[k], s[Down(k, 1)], s[Down(k, 2)], s[Down(k, 3)])
  }

  function UnmixAt(s: Block, k: nat): byte
    requires k < 16
  {
    Unmix(s[k], s[Down(k, 1)], s[Down(k, 2)], s[Down(k, 3)])
  }

  function MixColumns(s: Block): Block {
    seq(16, k requires 0 <= k < 16 => MixAt(s, k))
  }

  function InvMixColumns(s: Block): Block {
    seq(16, k requires 0 <= k < 16 => UnmixAt(s, k))
  }

  function AddRoundKey(s: Block, keys: Keys, round: nat): Block
    requires round <= NR
  {
    seq(16, k requires 0 <= k < 16 => Xor(s[k], keys[16 * round + k]))
  }

  /** The state after the given number of full rounds. */
  function Rounds(s: Block, keys: Keys, r: nat): Block
    requires r < NR
  {
    if r == 0 then AddRoundKey(s, keys, 0)
    else AddRoundKey(MixColumns(ShiftRows(SubBytes(Rounds(s, keys, r - 1)))), keys, r)
  }

  function Cipher(s: Block, keys: Keys): Block {
    AddRoundKey(ShiftRows(SubBytes(Rounds(s, keys, NR - 1))), keys, NR)
  }

  /** The state of decryption after the rounds NR - 1 down to r. */
  function InvRounds(s: Block, keys: Keys, r: nat): Block
    requires 1 <= r <= NR
    decreases NR - r
  {
    if r == NR then AddRoundKey(s, keys, NR)
    else InvMixColumns(AddRoundKey(InvSubBytes(InvShiftRows(InvRounds(s, keys, r + 1))), keys, r))
  }

  function InvCipher(s: Block, keys: Keys): Block {
    AddRoundKey(InvSubBytes(InvShiftRows(InvRounds(s, keys, 1))), keys, 0)
  }

  // ----- layer by layer -----

  lemma UnsubSub(s: Block)
    ensures InvSubBytes(SubBytes(s)) == s
  {
    hide Sbox, Rsbox;
    forall k | 0 <= k < 16
      ensures Rsbox(Sbox(s[k])) == s[k]
    {
      RsboxSbox(s[k]);
    }
  }

  lemma Place(i: nat, j: nat)
    requires j < 4
    ensures (i * 4 + j) / 4 == i && (i * 4 + j) % 4 == j
  {
  }

  lemma LeftRight(k: nat)
    requires k < 16
    ensures Left(Right(k)) == k
  {
    var i, j := k / 4, k % 4;
    Place((i + 4 - j) % 4, j);
    assert ((i + 4 - j) % 4 + j) % 4 == i;
  }

  lemma UnshiftShift(s: Block)
    ensures InvShiftRows(ShiftRows(s)) == s
  {
    hide Left, Right;
    forall k | 0 <= k < 16
      ensures ShiftRows(s)[Right(k)] == s[k]
    {
      LeftRight(k);
    }
  }

  lemma DownPlus(k: nat, m: nat, n: nat)
    requires k < 16
    ensures Down(Down(k, m), n) == Down(k, m + n)
  {
    Place(k / 4, (k % 4 + m) % 4);
  }

  lemma DownAround(k: nat)
    requires k < 16
    ensures Down(k, 4) == k && Down(k, 5) == Down(k, 1) && Down(k, 6) == Down(k, 2)
  {
  }

  lemma DownDown(k: nat)
    requires k < 16
    ensures Down(Down(k, 1), 1) == Down(k, 2) && Down(Down(k, 1), 2) == Down(k, 3) && Down(Down(k, 1), 3) == k
    ensures Down(Down(k, 2), 1) == Down(k, 3) && Down(Down(k, 2), 2) == k && Down(Down(k, 2), 3) == Down(k, 1)
    ensures Down(Down(k, 3), 1) == k && Down(Down(k, 3), 2) == Down(k, 1) && Down(Down(k, 3), 3) == Down(k, 2)
  {
    hide *;
    forall m, n | 1 <= m <= 3 && 1 <= n <= 3
      ensures Down(Down(k, m), n) == Down(k, m + n)
    {
      DownPlus(k, m, n);
    }
    DownAround(k);
  }

  lemma UnmixMixColumns(s: Block)
    ensures InvMixColumns(MixColumns(s)) == s
  {
    hide Mix, Unmix, Down;
    forall k | 0 <= k < 16
      ensures UnmixAt(MixColumns(s), k) == s[k]
    {
      DownDown(k);
      UnmixMix(s[k], s[Down(k, 1)], s[Down(k, 2)], s[Down(k, 3)]);
    }
  }

  lemma AddTwice(s: Block, keys: Keys, round: nat)
    requires round <= NR
    ensures AddRoundKey(AddRoundKey(s, keys, round), keys, round) == s
  {
    hide Xor;
    forall k | 0 <= k < 16
      ensures Xor(Xor(s[k], keys[16 * round + k]), keys[16 * round + k]) == s[k]
    {
      Cancel(s[k], keys[16 * round + k]);
    }
  }

  /** Decryption meets encryption between the same layers in every round. */
  lemma {:induction false} InvRoundsMeet(s: Block, keys: Keys, r: nat)
    requires 1 <= r <= NR
    ensures InvRounds(Cipher(s, keys), keys, r) == ShiftRows(SubBytes(Rounds(s, keys, r - 1)))
    decreases NR - r
  {
    hide SubBytes, InvSubBytes, ShiftRows, InvShiftRows, MixColumns, InvMixColumns, AddRoundKey;
    var t := ShiftRows(SubBytes(Rounds(s, keys, r - 1)));
    if r == NR {
      AddTwice(t, keys, NR);
    } else {
      InvRoundsMeet(s, keys, r + 1);
      UnshiftShift(SubBytes(Rounds(s, keys, r)));
      UnsubSub(Rounds(s, keys, r));
      AddTwice(MixColumns(t), keys, r);
      UnmixMixColumns(t);
    }
  }

  lemma DecipherCipher(s: Block, keys: Keys)
    ensures InvCipher(Cipher(s, keys), keys) == s
  {
    hide SubBytes, InvSubBytes, ShiftRows, InvShiftRows, AddRoundKey, Cipher, InvRounds;
    InvRoundsMeet(s, keys, 1);
    var t := Rounds(s, keys, 0);
    UnshiftShift(SubBytes(t));
    UnsubSub(t);
    AddTwice(s, keys, 0);
  }
}
