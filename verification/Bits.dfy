/** C's `|`, `&` and `>>` on non-negative integers, bit by bit, and powers of two. */
module Bits {
  predicate Bit(x: nat, i: nat)
    decreases i
  {
    if i == 0 then x % 2 == 1 else Bit(x / 2, i - 1)
  }

  function Shr(x: nat, m: nat): nat
    decreases m
  {
    if m == 0 then x else Shr(x / 2, m - 1)
  }

  function Or(a: nat, b: nat): nat {
    if a == 0 then b else 2 * Or(a / 2, b / 2) + (if a % 2 == 1 || b % 2 == 1 then 1 else 0)
  }

  function And(a: nat, b: nat): nat {
    if a == 0 then 0 else 2 * And(a / 2, b / 2) + (if a % 2 == 1 && b % 2 == 1 then 1 else 0)
  }

  function Pow2(k: nat): (p: nat)
    ensures p >= 1
  {
    if k == 0 then 1 else 2 * Pow2(k - 1)
  }

  /** The number of significant bits. */
  function Len(x: nat): nat {
    if x == 0 then 0 else 1 + Len(x / 2)
  }

  lemma {:induction false} BitShr(x: nat, m: nat, i: nat)
    ensures Bit(Shr(x, m), i) == Bit(x, i + m)
    decreases m
  {
    if m > 0 {
      BitShr(x / 2, m - 1, i);
    }
  }

  lemma {:induction false} BitOr(a: nat, b: nat, i: nat)
    ensures Bit(Or(a, b), i) == (Bit(a, i) || Bit(b, i))
    decreases i
  {
    if a == 0 {
      BitZero(i);
    } else if i > 0 {
      assert Or(a, b) / 2 == Or(a / 2, b / 2);
      BitOr(a / 2, b / 2, i - 1);
    }
  }

  lemma {:induction false} BitZero(i: nat)
    ensures !Bit(0, i)
    decreases i
  {
    if i > 0 {
      BitZero(i - 1);
    }
  }

  /** The bits below k are exactly the ones set, so the number is 2^k - 1. */
  lemma {:induction false} AllOnes(x: nat, k: nat)
    requires forall i: nat :: Bit(x, i) <==> i < k
    ensures x == Pow2(k) - 1
    decreases k
  {
    assert Bit(x, 0) <==> x % 2 == 1;
    if k > 0 {
      forall i: nat
        ensures Bit(x / 2, i) <==> i < k - 1
      {
        assert Bit(x, i + 1) == Bit(x / 2, i);
      }
      AllOnes(x / 2, k - 1);
    } else if x > 0 {
      TopBit(x);
      assert false;
    }
  }

  lemma {:induction false} TopBit(x: nat)
    requires x > 0
    ensures Bit(x, Len(x) - 1)
  {
    if x > 1 {
      TopBit(x / 2);
    }
  }

  lemma {:induction false} NoHigherBit(x: nat, i: nat)
    requires i >= Len(x)
    ensures !Bit(x, i)
    decreases i
  {
    if x == 0 {
      BitZero(i);
    } else {
      NoHigherBit(x / 2, i - 1);
    }
  }

  lemma {:induction false} LenBounds(x: nat)
    ensures x < Pow2(Len(x)) && Pow2(Len(x)) <= if x == 0 then 1 else 2 * x
  {
    if x > 0 {
      LenBounds(x / 2);
    }
  }

  lemma {:induction false} LenBelow(x: nat, k: nat)
    requires x < Pow2(k)
    ensures Len(x) <= k
    decreases k
  {
    if k > 0 {
      LenBelow(x / 2, k - 1);
    }
  }

  /** The m highest of k bits are set, none above them. */
  ghost predicate TopOnes(x: nat, k: nat, m: nat) {
    && (forall i: nat :: Bit(x, i) ==> i < k)
    && (forall i: nat :: k <= i + m && i < k ==> Bit(x, i))
  }

  /** `x |= x >> m` doubles the run of leading ones. */
  lemma Smear(x: nat, k: nat, m: nat)
    requires TopOnes(x, k, m) && m >= 1
    ensures TopOnes(Or(x, Shr(x, m)), k, 2 * m)
  {
    hide Bit, Or, Shr;
    var y := Or(x, Shr(x, m));
    forall i: nat
      ensures Bit(y, i) ==> i < k
      ensures k <= i + 2 * m && i < k ==> Bit(y, i)
    {
      BitOr(x, Shr(x, m), i);
      BitShr(x, m, i);
    }
  }

  lemma AllTopOnes(x: nat, k: nat, m: nat)
    requires TopOnes(x, k, m) && k <= m
    ensures x == Pow2(k) - 1
  {
    AllOnes(x, k);
  }

  lemma LeadingOne(x: nat)
    requires x > 0
    ensures TopOnes(x, Len(x), 1)
  {
    TopBit(x);
    forall i: nat | Bit(x, i)
      ensures i < Len(x)
    {
      if i >= Len(x) {
        NoHigherBit(x, i);
      }
    }
  }

  /** Bits that do not overlap are simply added. */
  lemma {:induction false} OrDisjoint(a: nat, b: nat, k: nat)
    requires a < Pow2(k)
    ensures Or(a, b * Pow2(k)) == a + b * Pow2(k)
    decreases k
  {
    if k > 0 && a > 0 {
      var p := Pow2(k - 1);
      assert b * Pow2(k) == 2 * (b * p);
      OrDisjoint(a / 2, b, k - 1);
    }
  }

  /** One bit of (x | flags) & mask, below the bits of `flags`. */
  lemma OrAndStep(x: nat, flags: nat, mask: nat)
    ensures And(Or(x, 2 * flags), mask) == (if mask % 2 == 1 then x % 2 else 0) + 2 * And(Or(x / 2, flags), mask / 2)
  {
    if x == 0 {
      assert Or(0, 2 * flags) == 2 * flags && Or(0, flags) == flags;
    } else {
      var y := Or(x, 2 * flags);
      assert y == 2 * Or(x / 2, flags) + x % 2;
      if y == 0 {
        assert Or(x / 2, flags) == 0;
      }
    }
  }

  lemma OrOne(x: nat)
    ensures And(Or(x, 1), 1) == 1
  {
    if x > 0 {
      var y := Or(x, 1);
      assert y == 2 * Or(x / 2, 0) + 1;
      assert And(y, 1) == 2 * And(y / 2, 0) + 1;
      AndZero(y / 2);
    }
  }

  lemma {:induction false} AndZero(x: nat)
    ensures And(x, 0) == 0
  {
    if x > 0 {
      AndZero(x / 2);
    }
  }
}
