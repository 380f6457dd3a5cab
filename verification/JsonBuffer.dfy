/** cJSON's growing print buffer: pow2gt, ensure, update. */
module JsonBuffer {
  import opened JsonValue
  import opened Bits

  const INT_LIMIT: nat := 0x4000_0000

  /** pow2gt, which smears the leading one of x - 1 over all lower bits. */
  function Pow2gt(x: nat): nat
    requires x >= 1
  {
    var a := x - 1;
    var b := Or(a, Shr(a, 1));
    var c := Or(b, Shr(b, 2));
    var d := Or(c, Shr(c, 4));
    var e := Or(d, Shr(d, 8));
    var f := Or(e, Shr(e, 16));
    f + 1
  }

  lemma ZeroSmears()
    ensures Pow2gt(1) == Pow2(0) == 1
  {
  }

  /** The smallest power of two not below x: at most 32 significant bits are smeared. */
  lemma Pow2gtCorrect(x: nat)
    requires 1 <= x <= Pow2(32)
    ensures exists k :: Pow2gt(x) == Pow2(k)
    ensures x <= Pow2gt(x) < 2 * x
  {
    hide *;
    if x > 1 {
      LenBounds(x - 1);
      Smeared(x);
    } else {
      ZeroSmears();
    }
  }

  lemma {:induction false} Pow2Grows(j: nat, k: nat)
    requires j < k
    ensures 2 * Pow2(j) <= Pow2(k)
  {
    if j + 1 < k {
      Pow2Grows(j, k - 1);
    }
  }

  const INT_MAX: nat := 0x7FFF_FFFF

  lemma TopPower()
    ensures Pow2(30) == INT_LIMIT && Pow2(31) == INT_MAX + 1 == 2 * INT_LIMIT && INT_MAX <= Pow2(32)
  {
    assert Pow2(10) == 1024;
    assert Pow2(20) == 1024 * Pow2(10);
    assert Pow2(30) == 1024 * Pow2(20);
  }

  /** For an int the power of two is an int again if and only if x is at most 2^30. */
  lemma IntSized(x: nat)
    requires 1 <= x <= INT_MAX
    ensures Pow2gt(x) <= INT_MAX <==> x <= INT_LIMIT
  {
    hide *;
    TopPower();
    Pow2gtCorrect(x);
    var k: nat :| Pow2gt(x) == Pow2(k);
    if k < 30 {
      Pow2Grows(k, 30);
    } else if k > 31 {
      Pow2Grows(31, k);
    }
  }

  lemma Smeared(x: nat)
    requires 1 < x <= Pow2(32)
    ensures Pow2gt(x) == Pow2(Len(x - 1))
  {
    var a := x - 1;
    var k := Len(a);
    LenBelow(a, 32);
    hide Or, Shr, Pow2, Len, TopOnes;
    LeadingOne(a);
    Smear(a, k, 1);
    var b := Or(a, Shr(a, 1));
    Smear(b, k, 2);
    var c := Or(b, Shr(b, 2));
    Smear(c, k, 4);
    var d := Or(c, Shr(c, 4));
    Smear(d, k, 8);
    var e := Or(d, Shr(d, 8));
    Smear(e, k, 16);
    var f := Or(e, Shr(e, 16));
    AllTopOnes(f, k, 32);
  }

  /** printbuffer: `buffer[..offset]` is finished text. */
  class PrintBuffer {
    var buffer: array<char>
    var length: nat
    var offset: nat

    ghost predicate Valid()
      reads this
    {
      length == buffer.Length && offset <= length
    }

    ghost function Text(): (s: string)
      requires Valid()
      reads this, buffer
      ensures |s| == offset
    {
      buffer[..offset]
    }

    /** The buffer holds the C string `full`, all written from the start. */
    ghost predicate Shows(full: string)
      reads this, buffer
    {
      Valid() && offset <= |full| < length && buffer[..|full|] == full && buffer[|full|] == NUL
    }

    constructor (prebuffer: nat)
      ensures Valid() && length == prebuffer && offset == 0 && fresh(buffer)
    {
      buffer := new char[prebuffer];
      length, offset := prebuffer, 0;
    }

    /** ensure: room for `needed` characters behind the text, growing to a power of two. */
    method Ensure(needed: nat)
      requires Valid() && (offset + needed <= length || offset + needed <= INT_LIMIT)
      modifies `buffer, `length
      ensures Valid() && offset + needed <= length && Text() == old(Text())
      ensures offset + needed <= old(length) ==> buffer == old(buffer) && length == old(length)
      ensures offset + needed > old(length) ==>
                && fresh(buffer) && offset + needed <= length < 2 * (offset + needed)
                && exists k :: length == Pow2(k)
    {
      hide Pow2gt, Pow2;
      var total := needed + offset;
      if total <= length {
        return;
      }
      TopPower();
      Pow2gtCorrect(total);
      var newsize := Pow2gt(total);
      var newbuffer := new char[newsize];
      forall j | 0 <= j < length {
        newbuffer[j] := buffer[j];
      }
      assert newbuffer[..offset] == buffer[..offset];
      buffer, length := newbuffer, newsize;
    }

    /** Asks for `needed` characters and writes `s` there, with or without a terminator. */
    method Emit(needed: nat, s: string, terminated: bool)
      requires Valid() && offset + needed <= INT_LIMIT
      requires |s| + (if terminated then 1 else 0) <= needed
      modifies `buffer, `length, buffer
      ensures Valid() && offset + |s| <= length && buffer[..offset + |s|] == old(Text()) + s
      ensures terminated ==> Shows(old(Text()) + s)
      ensures buffer == old(buffer) || fresh(buffer)
    {
      ghost var before := Text();
      Ensure(needed);
      var out, ptr := buffer, offset;
      for j := 0 to |s|
        modifies out
        invariant out[..ptr + j] == before + s[..j]
      {
        out[ptr + j] := s[j];
      }
      if terminated {
        out[ptr + |s|] := NUL;
      }
      assert before + s[..|s|] == before + s;
    }

    /** update: the offset of the terminator that follows the finished text. */
    method Update(ghost full: string) returns (n: nat)
      requires Shows(full) && NulFree(full[offset..])
      ensures n == |full|
    {
      n := offset;
      while buffer[n] != NUL
        invariant offset <= n <= |full|
        decreases |full| - n
      {
        n := n + 1;
      }
    }
  }
}
