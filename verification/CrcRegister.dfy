/** The shift register of CRC-32, one bit at a time. */
module CrcRegister {
  type word = bv32

  function Xor(x: word, y: word): word {
    x ^ y
  }

  function Double(x: word): word {
    x << 1
  }

  predicate Top(x: word) {
    x & 0x80000000 != 0
  }

  /** The polynomial, when a one leaves the register. */
  function Feedback(one: bool): word {
    if one then 0x04c11db7 else 0
  }

  /** One bit into the register: the polynomial is subtracted when the bit that leaves differs. */
  function ShiftIn(reg: word, bit: bool): word {
    Xor(Double(reg), Feedback(Top(reg) != bit))
  }

  /** The register without input. */
  function Step(x: word): word {
    ShiftIn(x, false)
  }

  lemma Commute(x: word, y: word)
    ensures Xor(x, y) == Xor(y, x)
  {
  }

  lemma Associate(x: word, y: word, z: word)
    ensures Xor(Xor(x, y), z) == Xor(x, Xor(y, z))
  {
    AssociateBits(x, y, z);
  }

  lemma AssociateBits(x: word, y: word, z: word)
    ensures (x ^ y) ^ z == x ^ (y ^ z)
  {
  }

  lemma XorZero(x: word)
    ensures Xor(x, 0) == x && Xor(0, x) == x
  {
  }

  lemma XorSelf(x: word)
    ensures Xor(x, x) == 0
  {
  }

  lemma Swap(a: word, b: word, c: word, d: word)
    ensures Xor(Xor(a, b), Xor(c, d)) == Xor(Xor(a, c), Xor(b, d))
  {
    hide Xor;
    Associate(a, b, Xor(c, d));
    Associate(b, c, d);
    Commute(b, c);
    Associate(c, b, d);
    Associate(a, c, Xor(b, d));
  }

  lemma DoubleXor(x: word, y: word)
    ensures Double(Xor(x, y)) == Xor(Double(x), Double(y))
  {
  }

  lemma TopXor(x: word, y: word)
    ensures Top(Xor(x, y)) <==> Top(x) != Top(y)
  {
  }

  lemma FeedbackXor(a: bool, b: bool)
    ensures Feedback(a != b) == Xor(Feedback(a), Feedback(b))
  {
  }

  /** The register is linear. */
  lemma StepXor(x: word, y: word)
    ensures Step(Xor(x, y)) == Xor(Step(x), Step(y))
  {
    hide Xor, Double, Top, Feedback;
    DoubleXor(x, y);
    TopXor(x, y);
    FeedbackXor(Top(x), Top(y));
    Swap(Double(x), Double(y), Feedback(Top(x)), Feedback(Top(y)));
  }

  const HIGHEST: word := 0x80000000

  lemma Highest()
    ensures Double(HIGHEST) == 0 && Top(HIGHEST)
  {
  }

  /** A one coming in is a one at the top. */
  lemma ShiftInOne(reg: word)
    ensures ShiftIn(reg, true) == Step(Xor(reg, HIGHEST))
  {
    hide Xor, Double, Top, Feedback;
    Highest();
    DoubleXor(reg, HIGHEST);
    TopXor(reg, HIGHEST);
    XorZero(Double(reg));
  }

  lemma OddFeedback(x: word)
    ensures Xor(Double(x), Feedback(true)) != 0
  {
  }

  lemma DoubleZero(x: word)
    requires !Top(x) && Double(x) == 0
    ensures x == 0
  {
  }

  lemma XorEqual(x: word, y: word)
    requires Xor(x, y) == 0
    ensures x == y
  {
  }

  /** The polynomial is odd, so the register loses no bit. */
  lemma StepInjective(x: word, y: word)
    requires Step(x) == Step(y)
    ensures x == y
  {
    hide Xor, Double, Top;
    var z := Xor(x, y);
    StepXor(x, y);
    XorSelf(Step(x));
    OddFeedback(z);
    XorZero(Double(z));
    DoubleZero(z);
    XorEqual(x, y);
  }
}
