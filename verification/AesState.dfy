/** The layers of aes.c in place on the 16 bytes of a buffer that `state` points to. */
module AesState {
  import opened AesField
  import opened AesTables
  import opened Aes

  /** The 16 bytes at `at`. */
  ghost function BlockAt(buf: array<byte>, at: nat): Block
    requires at + 16 <= buf.Length
    reads buf
  {
    buf[at..at + 16]
  }

  /** Nothing outside the `n` bytes at `at` has changed. */
  twostate predicate Only(buf: array<byte>, at: nat, n: nat)
    reads buf
  {
    forall k | 0 <= k < buf.Length && !(at <= k < at + n) :: buf[k] == old(buf[k])
  }

  method AddRoundKey(buf: array<byte>, at: nat, keys: Keys, round: nat)
    requires at + 16 <= buf.Length && round <= NR
    modifies buf
    ensures BlockAt(buf, at) == Aes.AddRoundKey(old(BlockAt(buf, at)), keys, round) && Only(buf, at, 16)
  {
    hide Xor;
    ghost var s := BlockAt(buf, at);
    for i := 0 to 4
      invariant Only(buf, at, 16)
      invariant forall k | 0 <= k < 16 :: buf[at + k] == if k < 4 * i then Xor(s[k], keys[16 * round + k]) else s[k]
    {
      for j := 0 to 4
        invariant Only(buf, at, 16)
        invariant forall k | 0 <= k < 16 :: buf[at + k] == if k < 4 * i + j then Xor(s[k], keys[16 * round + k]) else s[k]
      {
        buf[at + 4 * i + j] := Xor(buf[at + 4 * i + j], keys[round * 4 * 4 + i * 4 + j]);
      }
    }
  }

  /** Bytes before (i, j) in the order of the loops, rows outside, columns inside. */
  predicate Before(k: nat, i: nat, j: nat) {
    k % 4 < i || (k % 4 == i && k / 4 < j)
  }

  lemma BeforeFirst()
    ensures forall k | 0 <= k < 16 :: !Before(k, 0, 0)
  {
  }

  lemma BeforeStep(i: nat, j: nat)
    requires i < 4 && j < 4
    ensures !Before(4 * j + i, i, j) && forall k | 0 <= k < 16 :: Before(k, i, j + 1) <==> Before(k, i, j) || k == 4 * j + i
  {
    Place(j, i);
  }

  lemma BeforeRow(i: nat)
    ensures forall k | 0 <= k < 16 :: Before(k, i, 4) <==> Before(k, i + 1, 0)
  {
  }

  lemma BeforeLast()
    ensures forall k | 0 <= k < 16 :: Before(k, 4, 0)
  {
  }

  method SubBytes(buf: array<byte>, at: nat)
    requires at + 16 <= buf.Length
    modifies buf
    ensures BlockAt(buf, at) == Aes.SubBytes(old(BlockAt(buf, at))) && Only(buf, at, 16)
  {
    hide Sbox, Before;
    ghost var s := BlockAt(buf, at);
    BeforeFirst();
    for i := 0 to 4
      invariant Only(buf, at, 16)
      invariant forall k | 0 <= k < 16 :: buf[at + k] == if Before(k, i, 0) then Sbox(s[k]) else s[k]
    {
      for j := 0 to 4
        invariant Only(buf, at, 16)
        invariant forall k | 0 <= k < 16 :: buf[at + k] == if Before(k, i, j) then Sbox(s[k]) else s[k]
      {
        BeforeStep(i, j);
        buf[at + 4 * j + i] := Sbox(buf[at + 4 * j + i]);
      }
      BeforeRow(i);
    }
    BeforeLast();
  }

  method InvSubBytes(buf: array<byte>, at: nat)
    requires at + 16 <= buf.Length
    modifies buf
    ensures BlockAt(buf, at) == Aes.InvSubBytes(old(BlockAt(buf, at))) && Only(buf, at, 16)
  {
    hide Rsbox, Before;
    ghost var s := BlockAt(buf, at);
    BeforeFirst();
    for i := 0 to 4
      invariant Only(buf, at, 16)
      invariant forall k | 0 <= k < 16 :: buf[at + k] == if Before(k, i, 0) then Rsbox(s[k]) else s[k]
    {
      for j := 0 to 4
        invariant Only(buf, at, 16)
        invariant forall k | 0 <= k < 16 :: buf[at + k] == if Before(k, i, j) then Rsbox(s[k]) else s[k]
      {
        BeforeStep(i, j);
        buf[at + 4 * j + i] := Rsbox(buf[at + 4 * j + i]);
      }
      BeforeRow(i);
    }
    BeforeLast();
  }

  /** The rows of a column-wise state, each rotated by its number. */
  method RowOneLeft(buf: array<byte>, at: nat)
    requires at + 16 <= buf.Length
    modifies buf
    ensures buf[at + 1] == old(buf[at + 5]) && buf[at + 5] == old(buf[at + 9])
    ensures buf[at + 9] == old(buf[at + 13]) && buf[at + 13] == old(buf[at + 1])
    ensures forall k | 0 <= k < buf.Length && k !in {at + 1, at + 5, at + 9, at + 13} :: buf[k] == old(buf[k])
  {
    var temp := buf[at + 1];
    buf[at + 1] := buf[at + 5];
    buf[at + 5] := buf[at + 9];
    buf[at + 9] := buf[at + 13];
    buf[at + 13] := temp;
  }

  method RowTwo(buf: array<byte>, at: nat)
    requires at + 16 <= buf.Length
    modifies buf
    ensures buf[at + 2] == old(buf[at + 10]) && buf[at + 6] == old(buf[at + 14])
    ensures buf[at + 10] == old(buf[at + 2]) && buf[at + 14] == old(buf[at + 6])
    ensures forall k | 0 <= k < buf.Length && k !in {at + 2, at + 6, at + 10, at + 14} :: buf[k] == old(buf[k])
  {
    var temp := buf[at + 2];
    buf[at + 2] := buf[at + 10];
    buf[at + 10] := temp;
    temp := buf[at + 6];
    buf[at + 6] := buf[at + 14];
    buf[at + 14] := temp;
  }

  method RowThreeLeft(buf: array<byte>, at: nat)
    requires at + 16 <= buf.Length
    modifies buf
    ensures buf[at + 3] == old(buf[at + 15]) && buf[at + 7] == old(buf[at + 3])
    ensures buf[at + 11] == old(buf[at + 7]) && buf[at + 15] == old(buf[at + 11])
    ensures forall k | 0 <= k < buf.Length && k !in {at + 3, at + 7, at + 11, at + 15} :: buf[k] == old(buf[k])
  {
    var temp := buf[at + 3];
    buf[at + 3] := buf[at + 15];
    buf[at + 15] := buf[at + 11];
    buf[at + 11] := buf[at + 7];
    buf[at + 7] := temp;
  }

  lemma LeftIndices()
    ensures Left(0) == 0 && Left(1) == 5 && Left(2) == 10 && Left(3) == 15
    ensures Left(4) == 4 && Left(5) == 9 && Left(6) == 14 && Left(7) == 3
    ensures Left(8) == 8 && Left(9) == 13 && Left(10) == 2 && Left(11) == 7
    ensures Left(12) == 12 && Left(13) == 1 && Left(14) == 6 && Left(15) == 11
  {
  }

  method ShiftRows(buf: array<byte>, at: nat)
    requires at + 16 <= buf.Length
    modifies buf
    ensures BlockAt(buf, at) == Aes.ShiftRows(old(BlockAt(buf, at))) && Only(buf, at, 16)
  {
    hide Left, Right;
    RowOneLeft(buf, at);
    RowTwo(buf, at);
    RowThreeLeft(buf, at);
    LeftIndices();
  }

  method RowOneRight(buf: array<byte>, at: nat)
    requires at + 16 <= buf.Length
    modifies buf
    ensures buf[at + 1] == old(buf[at + 13]) && buf[at + 5] == old(buf[at + 1])
    ensures buf[at + 9] == old(buf[at + 5]) && buf[at + 13] == old(buf[at + 9])
    ensures forall k | 0 <= k < buf.Length && k !in {at + 1, at + 5, at + 9, at + 13} :: buf[k] == old(buf[k])
  {
    var temp := buf[at + 13];
    buf[at + 13] := buf[at + 9];
    buf[at + 9] := buf[at + 5];
    buf[at + 5] := buf[at + 1];
    buf[at + 1] := temp;
  }

  method RowThreeRight(buf: array<byte>, at: nat)
    requires at + 16 <= buf.Length
    modifies buf
    ensures buf[at + 3] == old(buf[at + 7]) && buf[at + 7] == old(buf[at + 11])
    ensures buf[at + 11] == old(buf[at + 15]) && buf[at + 15] == old(buf[at + 3])
    ensures forall k | 0 <= k < buf.Length && k !in {at + 3, at + 7, at + 11, at + 15} :: buf[k] == old(buf[k])
  {
    var temp := buf[at + 3];
    buf[at + 3] := buf[at + 7];
    buf[at + 7] := buf[at + 11];
    buf[at + 11] := buf[at + 15];
    buf[at + 15] := temp;
  }

  lemma RightIndices()
    ensures Right(0) == 0 && Right(1) == 13 && Right(2) == 10 && Right(3) == 7
    ensures Right(4) == 4 && Right(5) == 1 && Right(6) == 14 && Right(7) == 11
    ensures Right(8) == 8 && Right(9) == 5 && Right(10) == 2 && Right(11) == 15
    ensures Right(12) == 12 && Right(13) == 9 && Right(14) == 6 && Right(15) == 3
  {
  }

  method InvShiftRows(buf: array<byte>, at: nat)
    requires at + 16 <= buf.Length
    modifies buf
    ensures BlockAt(buf, at) == Aes.InvShiftRows(old(BlockAt(buf, at))) && Only(buf, at, 16)
  {
    hide Left, Right;
    RowOneRight(buf, at);
    RowTwo(buf, at);
    RowThreeRight(buf, at);
    RightIndices();
  }

  /** One column: t keeps the first byte, which is overwritten before its last use. */
  method MixColumn(buf: array<byte>, p: nat)
    requires p + 4 <= buf.Length
    modifies buf
    ensures var a, b, c, d := old(buf[p]), old(buf[p + 1]), old(buf[p + 2]), old(buf[p + 3]);
            buf[p] == Mix(a, b, c, d) && buf[p + 1] == Mix(b, c, d, a) && buf[p + 2] == Mix(c, d, a, b) && buf[p + 3] == Mix(d, a, b, c)
    ensures Only(buf, p, 4)
  {
    hide Xor, Xtime, Mix, Sum4;
    ghost var a, b, c, d := buf[p], buf[p + 1], buf[p + 2], buf[p + 3];
    LeftToRight(a, b, c, d);
    Rotate(a, b, c, d);
    Rotate(d, a, b, c);
    Rotate(c, d, a, b);
    var t := buf[p];
    var sum := Xor(Xor(Xor(buf[p], buf[p + 1]), buf[p + 2]), buf[p + 3]);
    MixByte(a, b, c, d, sum);
    MixByte(b, c, d, a, sum);
    MixByte(c, d, a, b, sum);
    MixByte(d, a, b, c, sum);
    var tm := Xtime(Xor(buf[p], buf[p + 1]));
    buf[p] := Xor(buf[p], Xor(tm, sum));
    tm := Xtime(Xor(buf[p + 1], buf[p + 2]));
    buf[p + 1] := Xor(buf[p + 1], Xor(tm, sum));
    tm := Xtime(Xor(buf[p + 2], buf[p + 3]));
    buf[p + 2] := Xor(buf[p + 2], Xor(tm, sum));
    tm := Xtime(Xor(buf[p + 3], t));
    buf[p + 3] := Xor(buf[p + 3], Xor(tm, sum));
  }

  /** Column i of a state that was s. */
  method MixColumnAt(buf: array<byte>, at: nat, i: nat, ghost s: Block)
    requires at + 16 <= buf.Length && i < 4 && forall k | 4 * i <= k < 4 * i + 4 :: buf[at + k] == s[k]
    modifies buf
    ensures forall k | 4 * i <= k < 4 * i + 4 :: buf[at + k] == MixAt(s, k)
    ensures Only(buf, at + 4 * i, 4)
  {
    hide Mix, Down;
    ColumnPlaces(i);
    MixColumn(buf, at + 4 * i);
  }

  method MixColumns(buf: array<byte>, at: nat)
    requires at + 16 <= buf.Length
    modifies buf
    ensures BlockAt(buf, at) == Aes.MixColumns(old(BlockAt(buf, at))) && Only(buf, at, 16)
  {
    hide MixAt;
    ghost var s := BlockAt(buf, at);
    for i := 0 to 4
      invariant Only(buf, at, 16)
      invariant forall k | 0 <= k < 16 :: buf[at + k] == if k < 4 * i then MixAt(s, k) else s[k]
    {
      MixColumnAt(buf, at, i, s);
    }
  }

  lemma DownInColumn(i: nat, j: nat, n: nat)
    requires i < 4 && j < 4
    ensures Down(4 * i + j, n) == 4 * i + (j + n) % 4
  {
    Place(i, j);
  }

  lemma ColumnPlaces(i: nat)
    requires i < 4
    ensures var k := 4 * i;
            && Down(k, 1) == k + 1 && Down(k, 2) == k + 2 && Down(k, 3) == k + 3
            && Down(k + 1, 1) == k + 2 && Down(k + 1, 2) == k + 3 && Down(k + 1, 3) == k
            && Down(k + 2, 1) == k + 3 && Down(k + 2, 2) == k && Down(k + 2, 3) == k + 1
            && Down(k + 3, 1) == k && Down(k + 3, 2) == k + 1 && Down(k + 3, 3) == k + 2
  {
    hide *;
    DownInColumn(i, 0, 1);
    DownInColumn(i, 0, 2);
    DownInColumn(i, 0, 3);
    DownInColumn(i, 1, 1);
    DownInColumn(i, 1, 2);
    DownInColumn(i, 1, 3);
    DownInColumn(i, 2, 1);
    DownInColumn(i, 2, 2);
    DownInColumn(i, 2, 3);
    DownInColumn(i, 3, 1);
    DownInColumn(i, 3, 2);
    DownInColumn(i, 3, 3);
  }

  method InvMixColumn(buf: array<byte>, p: nat)
    requires p + 4 <= buf.Length
    modifies buf
    ensures var a, b, c, d := old(buf[p]), old(buf[p + 1]), old(buf[p + 2]), old(buf[p + 3]);
            && buf[p] == Unmix(a, b, c, d) && buf[p + 1] == Unmix(b, c, d, a)
            && buf[p + 2] == Unmix(c, d, a, b) && buf[p + 3] == Unmix(d, a, b, c)
    ensures Only(buf, p, 4)
  {
    var a, b, c, d := buf[p], buf[p + 1], buf[p + 2], buf[p + 3];
    buf[p] := InvByte(a, 0x0e, b, 0x0b, c, 0x0d, d, 0x09);
    buf[p + 1] := InvByte(a, 0x09, b, 0x0e, c, 0x0b, d, 0x0d);
    buf[p + 2] := InvByte(a, 0x0d, b, 0x09, c, 0x0e, d, 0x0b);
    buf[p + 3] := InvByte(a, 0x0b, b, 0x0d, c, 0x09, d, 0x0e);
    InvRows(a, b, c, d);
  }

  function InvByte(a: byte, j: byte, b: byte, k: byte, c: byte, m: byte, d: byte, n: byte): byte {
    Xor(Xor(Xor(Multiply(a, j), Multiply(b, k)), Multiply(c, m)), Multiply(d, n))
  }

  /** The four rows of the inverse matrix, in the order in which the code adds them. */
  lemma InvRows(a: byte, b: byte, c: byte, d: byte)
    ensures InvByte(a, 0x0e, b, 0x0b, c, 0x0d, d, 0x09) == Unmix(a, b, c, d)
    ensures InvByte(a, 0x09, b, 0x0e, c, 0x0b, d, 0x0d) == Unmix(b, c, d, a)
    ensures InvByte(a, 0x0d, b, 0x09, c, 0x0e, d, 0x0b) == Unmix(c, d, a, b)
    ensures InvByte(a, 0x0b, b, 0x0d, c, 0x09, d, 0x0e) == Unmix(d, a, b, c)
  {
    hide Xor, Multiply, Sum4;
    LeftToRight(Multiply(a, 0x0e), Multiply(b, 0x0b), Multiply(c, 0x0d), Multiply(d, 0x09));
    LeftToRight(Multiply(a, 0x09), Multiply(b, 0x0e), Multiply(c, 0x0b), Multiply(d, 0x0d));
    Rotate(Multiply(b, 0x0e), Multiply(c, 0x0b), Multiply(d, 0x0d), Multiply(a, 0x09));
    LeftToRight(Multiply(a, 0x0d), Multiply(b, 0x09), Multiply(c, 0x0e), Multiply(d, 0x0b));
    Rotate(Multiply(c, 0x0e), Multiply(d, 0x0b), Multiply(a, 0x0d), Multiply(b, 0x09));
    Rotate(Multiply(b, 0x09), Multiply(c, 0x0e), Multiply(d, 0x0b), Multiply(a, 0x0d));
    LeftToRight(Multiply(a, 0x0b), Multiply(b, 0x0d), Multiply(c, 0x09), Multiply(d, 0x0e));
    Rotate(Multiply(a, 0x0b), Multiply(b, 0x0d), Multiply(c, 0x09), Multiply(d, 0x0e));
  }

  /** Column i of a state that was s. */
  method InvMixColumnAt(buf: array<byte>, at: nat, i: nat, ghost s: Block)
    requires at + 16 <= buf.Length && i < 4 && forall k | 4 * i <= k < 4 * i + 4 :: buf[at + k] == s[k]
    modifies buf
    ensures forall k | 4 * i <= k < 4 * i + 4 :: buf[at + k] == UnmixAt(s, k)
    ensures Only(buf, at + 4 * i, 4)
  {
    hide Unmix, Down;
    ColumnPlaces(i);
    InvMixColumn(buf, at + 4 * i);
  }

  method InvMixColumns(buf: array<byte>, at: nat)
    requires at + 16 <= buf.Length
    modifies buf
    ensures BlockAt(buf, at) == Aes.InvMixColumns(old(BlockAt(buf, at))) && Only(buf, at, 16)
  {
    hide UnmixAt;
    ghost var s := BlockAt(buf, at);
    for i := 0 to 4
      invariant Only(buf, at, 16)
      invariant forall k | 0 <= k < 16 :: buf[at + k] == if k < 4 * i then UnmixAt(s, k) else s[k]
    {
      InvMixColumnAt(buf, at, i, s);
    }
  }

  // ----- the cipher in place -----

  method Cipher(buf: array<byte>, at: nat, keys: Keys)
    requires at + 16 <= buf.Length
    modifies buf
    ensures BlockAt(buf, at) == Aes.Cipher(old(BlockAt(buf, at)), keys) && Only(buf, at, 16)
  {
    hide Aes.SubBytes, Aes.ShiftRows, Aes.MixColumns, Aes.AddRoundKey, BlockAt;
    ghost var s := BlockAt(buf, at);
    AddRoundKey(buf, at, keys, 0);
    for round := 1 to NR
      invariant BlockAt(buf, at) == Rounds(s, keys, round - 1) && Only(buf, at, 16)
    {
      SubBytes(buf, at);
      ShiftRows(buf, at);
      MixColumns(buf, at);
      AddRoundKey(buf, at, keys, round);
    }
    SubBytes(buf, at);
    ShiftRows(buf, at);
    AddRoundKey(buf, at, keys, NR);
  }

  method InvCipher(buf: array<byte>, at: nat, keys: Keys)
    requires at + 16 <= buf.Length
    modifies buf
    ensures BlockAt(buf, at) == Aes.InvCipher(old(BlockAt(buf, at)), keys) && Only(buf, at, 16)
  {
    hide Aes.InvSubBytes, Aes.InvShiftRows, Aes.InvMixColumns, Aes.AddRoundKey, BlockAt;
    ghost var s := BlockAt(buf, at);
    AddRoundKey(buf, at, keys, NR);
    var round := NR - 1;
    while round > 0
      invariant 0 <= round < NR && BlockAt(buf, at) == InvRounds(s, keys, round + 1) && Only(buf, at, 16)
    {
      InvShiftRows(buf, at);
      InvSubBytes(buf, at);
      AddRoundKey(buf, at, keys, round);
      InvMixColumns(buf, at);
      round := round - 1;
    }
    InvShiftRows(buf, at);
    InvSubBytes(buf, at);
    AddRoundKey(buf, at, keys, 0);
  }
}
