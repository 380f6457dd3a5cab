/** The CRC-32 of MPEG sections (Annex A of ISO/IEC 13818-1): the shift register fed bit by bit,
    and the table-driven form of ts_crc32.c. */
module Crc32 {
  import opened CrcRegister

  type byte = bv8

  const START: word := 0xFFFFFFFF

  // ----- the register, bit by bit -----

  predicate First(b: byte) {
    b & 0x80 != 0
  }

  /** The first n bits of a byte, the highest first. */
  function Feed(reg: word, b: byte, n: nat): word
    decreases n
  {
    if n == 0 then reg else Feed(ShiftIn(reg, First(b)), b << 1, n - 1)
  }

  /** The remainder of a message. */
  function Divide(m: seq<byte>): word {
    if |m| == 0 then START else Feed(Divide(m[..|m| - 1]), m[|m| - 1], 8)
  }

  // ----- the register without input, which is linear and one to one -----

  function Steps(x: word, n: nat): word
    decreases n
  {
    if n == 0 then x else Steps(Step(x), n - 1)
  }

  lemma {:induction false} StepsXor(x: word, y: word, n: nat)
    ensures Steps(Xor(x, y), n) == Xor(Steps(x, n), Steps(y, n))
    decreases n
  {
    hide Xor, Step;
    if n > 0 {
      StepXor(x, y);
      StepsXor(Step(x), Step(y), n - 1);
    }
  }

  lemma {:induction false} StepsInjective(x: word, y: word, n: nat)
    requires Steps(x, n) == Steps(y, n)
    ensures x == y
    decreases n
  {
    hide Step;
    if n > 0 {
      StepsInjective(Step(x), Step(y), n - 1);
      StepInjective(x, y);
    }
  }

  // ----- feeding a byte is adding it at the top and stepping -----

  function Up(b: byte): word {
    (b as word) << 24
  }

  function Drop(b: byte, n: nat): byte
    decreases n
  {
    if n == 0 then b else Drop(b << 1, n - 1)
  }

  /** The highest bit of a byte at the top, and the others. */
  function High(b: byte): word {
    if First(b) then HIGHEST else 0
  }

  lemma ShiftInIsStep(reg: word, b: byte)
    ensures ShiftIn(reg, First(b)) == Step(Xor(reg, High(b)))
  {
    hide Xor, ShiftIn, First;
    if First(b) {
      ShiftInOne(reg);
    } else {
      XorZero(reg);
    }
  }

  lemma StepLow(b: byte)
    ensures Step(Up(b & 0x7f)) == Up(b << 1)
  {
  }

  lemma Split(reg: word, b: byte)
    ensures Xor(reg, Up(b)) == Xor(Xor(reg, High(b)), Up(b & 0x7f))
  {
  }

  lemma FeedBit(reg: word, b: byte)
    ensures Step(Xor(reg, Up(b))) == Xor(ShiftIn(reg, First(b)), Up(b << 1))
  {
    hide *;
    Split(reg, b);
    StepXor(Xor(reg, High(b)), Up(b & 0x7f));
    ShiftInIsStep(reg, b);
    StepLow(b);
  }

  lemma {:induction false} FeedIsSteps(reg: word, b: byte, n: nat)
    ensures Steps(Xor(reg, Up(b)), n) == Xor(Feed(reg, b, n), Up(Drop(b, n)))
    decreases n
  {
    hide Xor, Step, ShiftIn, First, Up;
    if n > 0 {
      FeedBit(reg, b);
      FeedIsSteps(ShiftIn(reg, First(b)), b << 1, n - 1);
    }
  }

  lemma {:induction false} DropNothing(n: nat)
    ensures Drop(0, n) == 0
  {
    if n > 0 {
      DropNothing(n - 1);
    }
  }

  lemma DropAll(b: byte)
    ensures Drop(b, 8) == 0
  {
    var c := b << 1 << 1 << 1 << 1;
    assert Drop(b, 8) == Drop(c, 4);
    assert c << 1 << 1 << 1 << 1 == 0;
    assert Drop(c, 4) == Drop(0, 0);
  }

  lemma UpZero()
    ensures Up(0) == 0
  {
  }

  lemma FeedByte(reg: word, b: byte)
    ensures Feed(reg, b, 8) == Steps(Xor(reg, Up(b)), 8)
  {
    hide *;
    FeedIsSteps(reg, b, 8);
    DropAll(b);
    UpZero();
    XorZero(Feed(reg, b, 8));
  }

  // ----- a byte at a time -----

  /** What eight bits of a byte leave in an empty register: an entry of the table. */
  function Entry(b: byte): word {
    Feed(0, b, 8)
  }

  function Low(reg: word): word {
    reg & 0x00ffffff
  }

  function Shl8(reg: word): word {
    reg << 8
  }

  /** The index into the table: the byte that leaves plus the one that comes. */
  function Index(reg: word, b: byte): byte {
    (((reg >> 24) ^ (b as word)) & 0xff) as byte
  }

  lemma Regroup(reg: word, b: byte)
    ensures Xor(reg, Up(b)) == Xor(Low(reg), Up(Index(reg, b)))
  {
  }

  lemma StepDouble(x: word)
    requires !Top(x)
    ensures Step(x) == Double(x)
  {
    hide Xor, Top, Double;
    XorZero(Double(x));
  }

  /** The low bytes move up through a clear top. */
  lemma LowBits(reg: word)
    ensures var x0 := Low(reg);
            var x1 := Double(x0);
            var x2 := Double(x1);
            var x3 := Double(x2);
            var x4 := Double(x3);
            var x5 := Double(x4);
            var x6 := Double(x5);
            var x7 := Double(x6);
            && !Top(x0) && !Top(x1) && !Top(x2) && !Top(x3) && !Top(x4) && !Top(x5) && !Top(x6) && !Top(x7)
            && Double(x7) == Shl8(reg)
  {
  }

  lemma LowSteps(reg: word)
    ensures Steps(Low(reg), 8) == Shl8(reg)
  {
    LowBits(reg);
    hide Low, Shl8, Double, Top, Step;
    var x0 := Low(reg);
    var x1 := Double(x0);
    var x2 := Double(x1);
    var x3 := Double(x2);
    var x4 := Double(x3);
    var x5 := Double(x4);
    var x6 := Double(x5);
    var x7 := Double(x6);
    StepDouble(x0);
    StepDouble(x1);
    StepDouble(x2);
    StepDouble(x3);
    StepDouble(x4);
    StepDouble(x5);
    StepDouble(x6);
    StepDouble(x7);
    assert Steps(x0, 8) == Steps(x2, 6);
    assert Steps(x2, 6) == Steps(x4, 4);
    assert Steps(x4, 4) == Steps(x6, 2);
  }

  /** The table-driven step is eight steps of the register. */
  lemma TableStep(reg: word, b: byte)
    ensures Feed(reg, b, 8) == Xor(Shl8(reg), Entry(Index(reg, b)))
  {
    hide Xor, Up, Low, Shl8, Index, Steps, Feed;
    var i := Index(reg, b);
    FeedByte(reg, b);
    Regroup(reg, b);
    StepsXor(Low(reg), Up(i), 8);
    LowSteps(reg);
    FeedByte(0, i);
    XorZero(Up(i));
  }

  // ----- the table -----

  function ToByte(i: nat): byte
    requires i < 256
  {
    i as byte
  }

  function ToInt(b: byte): (i: nat)
    ensures i < 256
  {
    b as int
  }

  lemma ByteOfInt(b: byte)
    ensures ToByte(ToInt(b)) == b
  {
  }

  ghost predicate IsTable(table: seq<word>) {
    |table| == 256 && forall i: nat | i < 256 :: table[i] == Entry(ToByte(i))
  }

  /** The bit behind the byte in the loop variable, which ends the loop when it comes to the top. */
  function Sentinel(t: nat): word
    requires t <= 8
  {
    if t == 0 then 0x800000
    else if t == 1 then 0x1000000
    else if t == 2 then 0x2000000
    else if t == 3 then 0x4000000
    else if t == 4 then 0x8000000
    else if t == 5 then 0x10000000
    else if t == 6 then 0x20000000
    else if t == 7 then 0x40000000
    else 0x80000000
  }

  function Or(x: word, y: word): word {
    x | y
  }

  /** The loop variable after t shifts: the rest of the byte and the sentinel. */
  function Loaded(b: byte, t: nat): word
    requires t <= 8
  {
    Or(Up(b), Sentinel(t))
  }

  lemma LoadedTop(b: byte, t: nat)
    requires t < 8
    ensures (Top(Loaded(b, t)) <==> First(b)) && Loaded(b, t) != HIGHEST
  {
  }

  lemma LoadedShift(b: byte, t: nat)
    requires t < 8
    ensures Double(Loaded(b, t)) == Loaded(b << 1, t + 1)
  {
  }

  lemma LoadedEnd()
    ensures Loaded(0, 8) == HIGHEST
  {
  }

  lemma {:induction false} DropStep(b: byte, n: nat)
    ensures Drop(b, n + 1) == Drop(b, n) << 1
    decreases n
  {
    if n > 0 {
      DropStep(b << 1, n - 1);
    }
  }

  /** The inner loop of MakeTable: it stops after exactly eight shifts. */
  method MakeEntry(b: byte) returns (k: word, ghost shifts: nat)
    ensures k == Entry(b) && shifts == 8
  {
    hide *;
    k := 0;
    var j := Or(Up(b), 0x800000);
    ghost var c := b;
    shifts := 0;
    FirstLoaded(b);
    while j != HIGHEST
      invariant shifts <= 8 && c == Drop(b, shifts) && j == Loaded(c, shifts) && Feed(k, c, 8 - shifts) == Entry(b)
      invariant j != HIGHEST <==> shifts < 8
      decreases 8 - shifts
    {
      LoadedTop(c, shifts);
      FeedStep(k, j, c, 8 - shifts);
      k := Xor(Double(k), Feedback(Top(Xor(k, j))));
      LoadedShift(c, shifts);
      DropStep(b, shifts);
      j := Double(j);
      c, shifts := c << 1, shifts + 1;
      if shifts < 8 {
        LoadedTop(c, shifts);
      } else {
        DropAll(b);
        LoadedEnd();
      }
    }
    NoBits(k, c);
  }

  lemma FeedStep(k: word, j: word, c: byte, n: nat)
    requires n > 0 && (Top(j) <==> First(c))
    ensures Feed(k, c, n) == Feed(Xor(Double(k), Feedback(Top(Xor(k, j)))), c << 1, n - 1)
  {
    hide Xor, Double, Top, Feedback, First;
    TopXor(k, j);
  }

  lemma NoBits(k: word, c: byte)
    ensures Feed(k, c, 0) == k
  {
  }

  lemma FirstLoaded(b: byte)
    ensures Or(Up(b), 0x800000) == Loaded(b, 0) && Loaded(b, 0) != HIGHEST && Drop(b, 0) == b && Feed(0, b, 8) == Entry(b)
  {
    hide Or, Up, Feed;
    LoadedTop(b, 0);
  }

  method MakeTable(table: array<word>)
    requires table.Length == 256
    modifies table
    ensures IsTable(table[..])
  {
    hide Entry, ToByte;
    for i := 0 to 256
      invariant forall k: nat | k < i :: table[k] == Entry(ToByte(k))
    {
      var k, _ := MakeEntry(ToByte(i));
      table[i] := k;
    }
  }

  method Calculate(buffer: seq<byte>, table: array<word>) returns (crc: word)
    requires IsTable(table[..])
    ensures crc == Divide(buffer)
  {
    hide Feed, Entry, Xor, Shl8, Index, ToByte, ToInt;
    crc := START;
    assert buffer[..0] == [];
    for i := 0 to |buffer|
      invariant crc == Divide(buffer[..i])
    {
      TableStep(crc, buffer[i]);
      ByteOfInt(Index(crc, buffer[i]));
      assert buffer[..i + 1][..i] == buffer[..i];
      crc := Xor(Shl8(crc), table[ToInt(Index(crc, buffer[i]))]);
    }
    assert buffer[..|buffer|] == buffer;
  }

  // ----- the check -----

  /** Four bytes in big-endian order, built from the last. */
  function Prepend(b: byte, x: word): word {
    Xor(Shr8(x), Up(b))
  }

  function Shr8(x: word): word {
    x >> 8
  }

  function Word(b0: byte, b1: byte, b2: byte, b3: byte): word {
    Prepend(b0, Prepend(b1, Prepend(b2, Prepend(b3, 0))))
  }

  function Trailer(crc: word): (b: seq<byte>)
    ensures |b| == 4
  {
    [((crc >> 24) & 0xff) as byte, ((crc >> 16) & 0xff) as byte, ((crc >> 8) & 0xff) as byte, (crc & 0xff) as byte]
  }

  lemma WordTrailer(crc: word)
    ensures var b := Trailer(crc); Word(b[0], b[1], b[2], b[3]) == crc
  {
  }

  lemma TrailerWord(b0: byte, b1: byte, b2: byte, b3: byte)
    ensures Trailer(Word(b0, b1, b2, b3)) == [b0, b1, b2, b3]
  {
  }

  predicate Even8(y: word) {
    y & 0xff == 0
  }

  lemma ShrShl(y: word)
    requires Even8(y)
    ensures Shl8(Shr8(y)) == y && Low(Shr8(y)) == Shr8(y)
  {
  }

  lemma XorMove(x: word, y: word, z: word)
    ensures Xor(x, y) == z <==> x == Xor(z, y)
  {
    hide Xor;
    Associate(x, y, y);
    Associate(z, y, y);
    XorSelf(y);
    XorZero(x);
    XorZero(z);
  }

  /** Which register a byte takes to y. */
  lemma FeedInverse(reg: word, b: byte, y: word)
    requires Even8(y)
    ensures Feed(reg, b, 8) == y <==> reg == Prepend(b, y)
  {
    hide Xor, Up, Steps, Feed, Shl8, Shr8, Low, Even8;
    FeedByte(reg, b);
    ShrShl(y);
    LowSteps(Shr8(y));
    if Feed(reg, b, 8) == y {
      StepsInjective(Xor(reg, Up(b)), Shr8(y), 8);
    }
    XorMove(reg, Up(b), Shr8(y));
  }

  lemma EvenWords(b1: byte, b2: byte, b3: byte)
    ensures Even8(0) && Even8(Prepend(b3, 0)) && Even8(Prepend(b2, Prepend(b3, 0)))
    ensures Even8(Prepend(b1, Prepend(b2, Prepend(b3, 0))))
  {
  }

  /** Four more bytes leave an empty register exactly when they are the remainder in big-endian order. */
  lemma CheckBytes(m: seq<byte>, b0: byte, b1: byte, b2: byte, b3: byte)
    ensures Divide(m + [b0, b1, b2, b3]) == 0 <==> [b0, b1, b2, b3] == Trailer(Divide(m))
  {
    hide Feed, Prepend, Trailer, Even8;
    var r0 := Divide(m);
    var r1 := Feed(r0, b0, 8);
    var r2 := Feed(r1, b1, 8);
    var r3 := Feed(r2, b2, 8);
    DivideMore(m, b0);
    DivideMore(m + [b0], b1);
    DivideMore(m + [b0] + [b1], b2);
    DivideMore(m + [b0] + [b1] + [b2], b3);
    assert m + [b0, b1, b2, b3] == m + [b0] + [b1] + [b2] + [b3];
    EvenWords(b1, b2, b3);
    FeedInverse(r3, b3, 0);
    FeedInverse(r2, b2, Prepend(b3, 0));
    FeedInverse(r1, b1, Prepend(b2, Prepend(b3, 0)));
    FeedInverse(r0, b0, Prepend(b1, Prepend(b2, Prepend(b3, 0))));
    WordTrailer(r0);
    TrailerWord(b0, b1, b2, b3);
  }

  lemma DivideMore(m: seq<byte>, b: byte)
    ensures Divide(m + [b]) == Feed(Divide(m), b, 8)
  {
    hide Feed;
    assert (m + [b])[..|m|] == m;
  }

  /** A section followed by its CRC. */
  lemma Residue(m: seq<byte>)
    ensures Divide(m + Trailer(Divide(m))) == 0
  {
    hide Divide;
    var t := Trailer(Divide(m));
    CheckBytes(m, t[0], t[1], t[2], t[3]);
    assert t == [t[0], t[1], t[2], t[3]];
  }
}
