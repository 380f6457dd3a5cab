/** Arithmetic in GF(2^8) as aes.c does it, and that the two column mixings are inverse: both are
    linear, so it is enough to multiply the two matrices. */
module AesField {
  type byte = bv8

  function Xor(x: byte, y: byte): byte {
    x ^ y
  }

  function Sum4(a: byte, b: byte, c: byte, d: byte): byte {
    Xor(Xor(a, b), Xor(c, d))
  }

  function Xtime(x: byte): byte {
    (x << 1) ^ (((x >> 7) & 1) * 0x1b)
  }

  function Multiply(x: byte, y: byte): byte {
    ((y & 1) * x) ^
    (((y >> 1) & 1) * Xtime(x)) ^
    (((y >> 2) & 1) * Xtime(Xtime(x))) ^
    (((y >> 3) & 1) * Xtime(Xtime(Xtime(x)))) ^
    (((y >> 4) & 1) * Xtime(Xtime(Xtime(Xtime(x)))))
  }

  /** The factors of the inverse matrix. */
  predicate Factor(k: byte) {
    k == 0x0e || k == 0x0b || k == 0x0d || k == 0x09
  }

  // ----- sums -----

  lemma Cancel(x: byte, y: byte)
    ensures Xor(Xor(x, y), y) == x
  {
  }

  lemma Commute(x: byte, y: byte)
    ensures Xor(x, y) == Xor(y, x)
  {
  }

  lemma Associate(x: byte, y: byte, z: byte)
    ensures Xor(Xor(x, y), z) == Xor(x, Xor(y, z))
  {
  }

  lemma Swap(a: byte, b: byte, c: byte, d: byte)
    ensures Xor(Xor(a, b), Xor(c, d)) == Xor(Xor(a, c), Xor(b, d))
  {
    hide Xor;
    Associate(a, b, Xor(c, d));
    Associate(b, c, d);
    Commute(b, c);
    Associate(c, b, d);
    Associate(a, c, Xor(b, d));
  }

  lemma Rotate(w: byte, x: byte, y: byte, z: byte)
    ensures Sum4(w, x, y, z) == Sum4(z, w, x, y)
  {
    hide Xor;
    Commute(y, z);
    Swap(w, x, z, y);
    Commute(w, z);
  }

  lemma SumXor(a: byte, b: byte, c: byte, d: byte, e: byte, f: byte, g: byte, h: byte)
    ensures Xor(Sum4(a, b, c, d), Sum4(e, f, g, h)) == Sum4(Xor(a, e), Xor(b, f), Xor(c, g), Xor(d, h))
  {
    hide Xor;
    Swap(Xor(a, b), Xor(c, d), Xor(e, f), Xor(g, h));
    Swap(a, b, e, f);
    Swap(c, d, g, h);
  }

  /** The sum of a four by four table by rows and by columns. */
  lemma Transpose(a0: byte, a1: byte, a2: byte, a3: byte, b0: byte, b1: byte, b2: byte, b3: byte,
                  c0: byte, c1: byte, c2: byte, c3: byte, d0: byte, d1: byte, d2: byte, d3: byte)
    ensures Sum4(Sum4(a0, a1, a2, a3), Sum4(b0, b1, b2, b3), Sum4(c0, c1, c2, c3), Sum4(d0, d1, d2, d3))
            == Sum4(Sum4(a0, b0, c0, d0), Sum4(a1, b1, c1, d1), Sum4(a2, b2, c2, d2), Sum4(a3, b3, c3, d3))
  {
    hide Xor;
    SumXor(a0, a1, a2, a3, b0, b1, b2, b3);
    SumXor(c0, c1, c2, c3, d0, d1, d2, d3);
    SumXor(Xor(a0, b0), Xor(a1, b1), Xor(a2, b2), Xor(a3, b3), Xor(c0, d0), Xor(c1, d1), Xor(c2, d2), Xor(c3, d3));
  }

  // ----- products -----

  lemma XtimeXor(x: byte, y: byte)
    ensures Xtime(Xor(x, y)) == Xor(Xtime(x), Xtime(y))
  {
  }

  /** The products by the factors as sums of products by powers of x. */
  lemma TimesE(x: byte)
    ensures Multiply(x, 0x0e) == Xor(Xor(Xtime(x), Xtime(Xtime(x))), Xtime(Xtime(Xtime(x))))
  {
  }

  lemma TimesB(x: byte)
    ensures Multiply(x, 0x0b) == Xor(Xor(x, Xtime(x)), Xtime(Xtime(Xtime(x))))
  {
  }

  lemma TimesD(x: byte)
    ensures Multiply(x, 0x0d) == Xor(Xor(x, Xtime(Xtime(x))), Xtime(Xtime(Xtime(x))))
  {
  }

  lemma Times9(x: byte)
    ensures Multiply(x, 0x09) == Xor(x, Xtime(Xtime(Xtime(x))))
  {
  }

  lemma MultiplyBy(x: byte)
    ensures var x1 := Xtime(x);
            var x2 := Xtime(x1);
            var x3 := Xtime(x2);
            && Multiply(x, 0x0e) == Xor(Xor(x1, x2), x3) && Multiply(x, 0x0b) == Xor(Xor(x, x1), x3)
            && Multiply(x, 0x0d) == Xor(Xor(x, x2), x3) && Multiply(x, 0x09) == Xor(x, x3)
  {
    hide *;
    TimesE(x);
    TimesB(x);
    TimesD(x);
    Times9(x);
  }

  lemma Swap3(a: byte, b: byte, c: byte, x: byte, y: byte, z: byte)
    ensures Xor(Xor(Xor(a, x), Xor(b, y)), Xor(c, z)) == Xor(Xor(Xor(a, b), c), Xor(Xor(x, y), z))
  {
    hide Xor;
    Swap(a, x, b, y);
    Swap(Xor(a, b), Xor(x, y), c, z);
  }

  lemma MultiplyXor(x: byte, y: byte, k: byte)
    requires Factor(k)
    ensures Multiply(Xor(x, y), k) == Xor(Multiply(x, k), Multiply(y, k))
  {
    hide Xor, Xtime, Multiply;
    var x1, y1 := Xtime(x), Xtime(y);
    var x2, y2 := Xtime(x1), Xtime(y1);
    var x3, y3 := Xtime(x2), Xtime(y2);
    XtimeXor(x, y);
    XtimeXor(x1, y1);
    XtimeXor(x2, y2);
    MultiplyBy(x);
    MultiplyBy(y);
    MultiplyBy(Xor(x, y));
    Swap3(x1, x2, x3, y1, y2, y3);
    Swap3(x, x1, x3, y, y1, y3);
    Swap3(x, x2, x3, y, y2, y3);
    Swap(x, y, x3, y3);
  }

  lemma MultiplySum(a: byte, b: byte, c: byte, d: byte, k: byte)
    requires Factor(k)
    ensures Multiply(Sum4(a, b, c, d), k) == Sum4(Multiply(a, k), Multiply(b, k), Multiply(c, k), Multiply(d, k))
  {
    hide Xor, Multiply;
    MultiplyXor(Xor(a, b), Xor(c, d), k);
    MultiplyXor(a, b, k);
    MultiplyXor(c, d, k);
  }

  /** The product of the matrices: one row by the four columns. */
  lemma FirstColumn(a: byte)
    ensures Sum4(Multiply(Xtime(a), 0x0e), Multiply(a, 0x0b), Multiply(a, 0x0d), Multiply(Xor(Xtime(a), a), 0x09)) == a
  {
  }

  lemma SecondColumn(b: byte)
    ensures Sum4(Multiply(Xor(Xtime(b), b), 0x0e), Multiply(Xtime(b), 0x0b), Multiply(b, 0x0d), Multiply(b, 0x09)) == 0
  {
  }

  lemma ThirdColumn(c: byte)
    ensures Sum4(Multiply(c, 0x0e), Multiply(Xor(Xtime(c), c), 0x0b), Multiply(Xtime(c), 0x0d), Multiply(c, 0x09)) == 0
  {
  }

  lemma FourthColumn(d: byte)
    ensures Sum4(Multiply(d, 0x0e), Multiply(d, 0x0b), Multiply(Xor(Xtime(d), d), 0x0d), Multiply(Xtime(d), 0x09)) == 0
  {
  }

  // ----- columns -----

  /** A byte of a mixed column, from that byte and the three that follow it cyclically. */
  function Mix(a: byte, b: byte, c: byte, d: byte): byte {
    Sum4(Xtime(a), Xor(Xtime(b), b), c, d)
  }

  function Unmix(a: byte, b: byte, c: byte, d: byte): byte {
    Sum4(Multiply(a, 0x0e), Multiply(b, 0x0b), Multiply(c, 0x0d), Multiply(d, 0x09))
  }

  lemma OnlyFirst(a: byte)
    ensures Sum4(a, 0, 0, 0) == a
  {
  }

  /** Unmixing a mixed column gives back its first byte, and cyclically the others. */
  lemma UnmixMix(a: byte, b: byte, c: byte, d: byte)
    ensures Unmix(Mix(a, b, c, d), Mix(b, c, d, a), Mix(c, d, a, b), Mix(d, a, b, c)) == a
  {
    hide Sum4, Xor, Xtime, Multiply;
    var a3, b3, c3, d3 := Xor(Xtime(a), a), Xor(Xtime(b), b), Xor(Xtime(c), c), Xor(Xtime(d), d);
    MultiplySum(Xtime(a), b3, c, d, 0x0e);
    Rotate(Xtime(b), c3, d, a);
    MultiplySum(a, Xtime(b), c3, d, 0x0b);
    Rotate(Xtime(c), d3, a, b);
    Rotate(b, Xtime(c), d3, a);
    MultiplySum(a, b, Xtime(c), d3, 0x0d);
    Rotate(a3, b, c, Xtime(d));
    MultiplySum(a3, b, c, Xtime(d), 0x09);
    FirstColumn(a);
    SecondColumn(b);
    ThirdColumn(c);
    FourthColumn(d);
    OnlyFirst(a);
    Transpose(Multiply(Xtime(a), 0x0e), Multiply(b3, 0x0e), Multiply(c, 0x0e), Multiply(d, 0x0e),
              Multiply(a, 0x0b), Multiply(Xtime(b), 0x0b), Multiply(c3, 0x0b), Multiply(d, 0x0b),
              Multiply(a, 0x0d), Multiply(b, 0x0d), Multiply(Xtime(c), 0x0d), Multiply(d3, 0x0d),
              Multiply(a3, 0x09), Multiply(b, 0x09), Multiply(c, 0x09), Multiply(Xtime(d), 0x09));
  }

  /** The mixed byte as the code computes it, with the sum of the whole column. */
  lemma MixByte(a: byte, b: byte, c: byte, d: byte, sum: byte)
    requires sum == Sum4(a, b, c, d)
    ensures Xor(a, Xor(Xtime(Xor(a, b)), sum)) == Mix(a, b, c, d)
  {
    hide Xor, Xtime;
    var p, q, ab, cd := Xtime(a), Xtime(b), Xor(a, b), Xor(c, d);
    var pq := Xor(p, q);
    XtimeXor(a, b);
    Associate(pq, ab, cd);
    Associate(a, Xor(pq, ab), cd);
    Commute(pq, ab);
    Associate(a, b, pq);
    CancelLeft(a, Xor(b, pq));
    Commute(b, pq);
    Associate(p, q, b);
  }

  lemma CancelLeft(x: byte, y: byte)
    ensures Xor(x, Xor(x, y)) == y
  {
  }

  /** Sums as C writes them, from left to right. */
  lemma LeftToRight(a: byte, b: byte, c: byte, d: byte)
    ensures Xor(Xor(Xor(a, b), c), d) == Sum4(a, b, c, d)
  {
    hide Xor;
    Associate(Xor(a, b), c, d);
  }
}
