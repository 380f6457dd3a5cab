/** XXTEA: the block cipher of xxtea_string.c, whose decryption loop runs until its sum is
    0, and the counted form of xxtea.c, both in place on an array of 32-bit words. */
module Xxtea {
  const MODULUS: nat := 0x1_0000_0000

  /** uint32_t */
  type word = x: int | 0 <= x < MODULUS

  const DELTA: word := 0x9E3779B9

  /** The mixing function; `key` is the word k[(p&3)^e]. */
  function Mix(z: word, y: word, sum: word, key: word): word {
    MixBits(z as bv32, y as bv32, sum as bv32, key as bv32) as int
  }

  function MixBits(z: bv32, y: bv32, sum: bv32, key: bv32): bv32 {
    (((z >> 5) ^ (y << 2)) + ((y >> 3) ^ (z << 4))) ^ ((sum ^ y) + (key ^ z))
  }

  /** (p & 3) ^ e with e = (sum >> 2) & 3. */
  function KeyIndex(p: nat, sum: word): (i: nat)
    ensures i < 4
  {
    (((p % 4) as bv2) ^ ((sum / 4 % 4) as bv2)) as int
  }

  // ----- the cipher as a function of sequences -----

  /** What round `sum` adds to the word at `p`: a function of its two neighbours. */
  function Addend(v: seq<word>, k: seq<word>, sum: word, p: nat): word
    requires |k| >= 4 && p < |v|
  {
    var z := if p == 0 then v[|v| - 1] else v[p - 1];
    var y := if p == |v| - 1 then v[0] else v[p + 1];
    Mix(z, y, sum, k[KeyIndex(p, sum)])
  }

  /** Addition and subtraction modulo 2^32. */
  function Plus(x: word, a: word): word {
    (x + a) % MODULUS
  }

  function Minus(x: word, a: word): word {
    (x - a) % MODULUS
  }

  function Add(v: seq<word>, k: seq<word>, sum: word, p: nat): (r: seq<word>)
    requires |k| >= 4 && p < |v|
    ensures |r| == |v|
  {
    v[p := Plus(v[p], Addend(v, k, sum, p))]
  }

  function Subtract(v: seq<word>, k: seq<word>, sum: word, p: nat): (r: seq<word>)
    requires |k| >= 4 && p < |v|
    ensures |r| == |v|
  {
    v[p := Minus(v[p], Addend(v, k, sum, p))]
  }

  /** The first n additions of a round, left to right. */
  function AddUpTo(v: seq<word>, k: seq<word>, sum: word, n: nat): (r: seq<word>)
    requires |k| >= 4 && n <= |v|
    ensures |r| == |v|
  {
    if n == 0 then v else Add(AddUpTo(v, k, sum, n - 1), k, sum, n - 1)
  }

  /** Subtractions from the last word down to the word at n. */
  function SubtractDownTo(v: seq<word>, k: seq<word>, sum: word, n: nat): (r: seq<word>)
    requires |k| >= 4 && n <= |v|
    ensures |r| == |v|
    decreases |v| - n
  {
    if n == |v| then v else Subtract(SubtractDownTo(v, k, sum, n + 1), k, sum, n)
  }

  /** sum after j rounds of encryption. */
  function SumAt(j: nat): word {
    if j == 0 then 0 else Plus(SumAt(j - 1), DELTA)
  }

  function EncryptRounds(v: seq<word>, k: seq<word>, q: nat): (r: seq<word>)
    requires |k| >= 4
    ensures |r| == |v|
  {
    if q == 0 then v
    else
      var w := EncryptRounds(v, k, q - 1);
      AddUpTo(w, k, SumAt(q), |w|)
  }

  /** Rounds q down to j + 1, undone in that order. */
  function DecryptRounds(v: seq<word>, k: seq<word>, q: nat, j: nat): (r: seq<word>)
    requires |k| >= 4 && j <= q
    ensures |r| == |v|
    decreases q - j
  {
    if j == q then v else SubtractDownTo(DecryptRounds(v, k, q, j + 1), k, SumAt(j + 1), 0)
  }

  function Rounds(len: nat): (q: nat)
    requires len >= 1
    ensures len >= 2 ==> 6 <= q <= 32
  {
    6 + 52 / len
  }

  /** A single word is left alone. */
  function Encrypt(v: seq<word>, k: seq<word>): (r: seq<word>)
    requires |k| >= 4
    ensures |r| == |v|
  {
    if |v| < 2 then v else EncryptRounds(v, k, Rounds(|v|))
  }

  function Decrypt(v: seq<word>, k: seq<word>): (r: seq<word>)
    requires |k| >= 4
    ensures |r| == |v|
  {
    if |v| < 2 then v else DecryptRounds(v, k, Rounds(|v|), 0)
  }

  // ----- decryption inverts encryption -----

  /** The addend does not depend on the word it is added to. */
  lemma AddendSame(v: seq<word>, x: word, k: seq<word>, sum: word, p: nat)
    requires |k| >= 4 && p < |v| && |v| >= 2
    ensures Addend(v[p := x], k, sum, p) == Addend(v, k, sum, p)
  {
    hide Mix, KeyIndex;
  }

  lemma SubtractAdd(v: seq<word>, k: seq<word>, sum: word, p: nat)
    requires |k| >= 4 && p < |v| && |v| >= 2
    ensures Subtract(Add(v, k, sum, p), k, sum, p) == v
  {
    hide Addend, Plus, Minus;
    var a := Addend(v, k, sum, p);
    AddendSame(v, Plus(v[p], a), k, sum, p);
    WordCancel(v[p], a);
  }

  lemma WordCancel(x: word, a: word)
    ensures Minus(Plus(x, a), a) == x
  {
  }

  /** Undoing a whole round, one word at a time from the right. */
  lemma {:induction false} SubtractRound(v: seq<word>, k: seq<word>, sum: word, n: nat)
    requires |k| >= 4 && |v| >= 2 && n <= |v|
    ensures SubtractDownTo(AddUpTo(v, k, sum, |v|), k, sum, n) == AddUpTo(v, k, sum, n)
    decreases |v| - n
  {
    hide Addend, Add, Subtract;
    if n < |v| {
      SubtractRound(v, k, sum, n + 1);
      SubtractAdd(AddUpTo(v, k, sum, n), k, sum, n);
    }
  }

  lemma {:induction false} DecryptPrefix(v: seq<word>, k: seq<word>, q: nat, j: nat)
    requires |k| >= 4 && |v| >= 2 && j <= q
    ensures DecryptRounds(EncryptRounds(v, k, q), k, q, j) == EncryptRounds(v, k, j)
    decreases q - j
  {
    hide AddUpTo, SubtractDownTo, SumAt;
    if j < q {
      DecryptPrefix(v, k, q, j + 1);
      SubtractRound(EncryptRounds(v, k, j), k, SumAt(j + 1), 0);
      NoAdditions(EncryptRounds(v, k, j), k, SumAt(j + 1));
    }
  }

  lemma NoAdditions(v: seq<word>, k: seq<word>, sum: word)
    requires |k| >= 4
    ensures AddUpTo(v, k, sum, 0) == v
  {
  }

  /** For every vector and every key. */
  lemma DecryptEncrypt(v: seq<word>, k: seq<word>)
    requires |k| >= 4
    ensures Decrypt(Encrypt(v, k), k) == v
  {
    hide EncryptRounds, DecryptRounds;
    if |v| >= 2 {
      DecryptPrefix(v, k, Rounds(|v|), 0);
      assert EncryptRounds(v, k, 0) == v by {
        NoRounds(v, k);
      }
    }
  }

  lemma AddSubtract(v: seq<word>, k: seq<word>, sum: word, p: nat)
    requires |k| >= 4 && p < |v| && |v| >= 2
    ensures Add(Subtract(v, k, sum, p), k, sum, p) == v
  {
    hide Addend, Plus, Minus;
    var a := Addend(v, k, sum, p);
    AddendSame(v, Minus(v[p], a), k, sum, p);
    assert Plus(Minus(v[p], a), a) == v[p] by {
      WordRestore(v[p], a);
    }
  }

  lemma WordRestore(x: word, a: word)
    ensures Plus(Minus(x, a), a) == x
  {
  }

  lemma {:induction false} AddRound(v: seq<word>, k: seq<word>, sum: word, n: nat)
    requires |k| >= 4 && |v| >= 2 && n <= |v|
    ensures AddUpTo(SubtractDownTo(v, k, sum, 0), k, sum, n) == SubtractDownTo(v, k, sum, n)
  {
    hide Add, Subtract;
    if n > 0 {
      AddRound(v, k, sum, n - 1);
      AddSubtract(SubtractDownTo(v, k, sum, n), k, sum, n - 1);
    }
  }

  lemma {:induction false} EncryptSuffix(v: seq<word>, k: seq<word>, q: nat, j: nat)
    requires |k| >= 4 && |v| >= 2 && j <= q
    ensures EncryptRounds(DecryptRounds(v, k, q, 0), k, j) == DecryptRounds(v, k, q, j)
  {
    hide AddUpTo, SumAt;
    if j > 0 {
      EncryptSuffix(v, k, q, j - 1);
      var w := DecryptRounds(v, k, q, j);
      AddRound(w, k, SumAt(j), |w|);
    }
  }

  /** Encryption inverts decryption too: with any key the cipher is a bijection. */
  lemma EncryptDecrypt(v: seq<word>, k: seq<word>)
    requires |k| >= 4
    ensures Encrypt(Decrypt(v, k), k) == v
  {
    hide EncryptRounds, Rounds;
    if |v| >= 2 {
      EncryptSuffix(v, k, Rounds(|v|), Rounds(|v|));
    }
  }

  lemma NoRounds(v: seq<word>, k: seq<word>)
    requires |k| >= 4
    ensures EncryptRounds(v, k, 0) == v
  {
  }

  // ----- the sum reaches 0 after exactly q rounds -----

  /** q*delta in 32-bit arithmetic. */
  function Product(q: nat): word {
    q * DELTA % MODULUS
  }

  lemma {:induction false} SumIsProduct(j: nat)
    ensures SumAt(j) == Product(j)
  {
    if j > 0 {
      SumIsProduct(j - 1);
      var t := (j - 1) * DELTA / MODULUS;
      assert (j - 1) * DELTA == t * MODULUS + Product(j - 1);
      assert j * DELTA == (j - 1) * DELTA + DELTA;
      AddMultiple(Product(j - 1) + DELTA, t);
    }
  }

  lemma AddMultiple(x: int, t: int)
    ensures (t * MODULUS + x) % MODULUS == x % MODULUS
  {
  }

  const INVERSE: word := 0x144cbc89
  const INVERSE_QUOTIENT: nat := 0xc8bc280

  /** DELTA is odd, so it has an inverse modulo 2^32, and j*DELTA is 0 modulo 2^32 only
      when j is: `while (sum != 0)` runs exactly the rounds that were counted out. */
  lemma SumNonZero(j: nat)
    requires j < MODULUS
    ensures SumAt(j) == 0 <==> j == 0
  {
    SumIsProduct(j);
    if SumAt(j) == 0 {
      var t := Quotient(j);
      InverseOfDelta();
      OddCancels(j, DELTA, INVERSE, INVERSE_QUOTIENT, t, MODULUS);
      NoSmallMultiple(j, t * INVERSE - j * INVERSE_QUOTIENT);
    }
  }

  lemma Quotient(j: nat) returns (t: int)
    requires Product(j) == 0
    ensures j * DELTA == t * MODULUS
  {
    t := j * DELTA / MODULUS;
  }

  lemma InverseOfDelta()
    ensures DELTA * INVERSE == INVERSE_QUOTIENT * MODULUS + 1
  {
  }

  lemma OddCancels(j: int, d: int, i: int, u: int, t: int, m: int)
    requires j * d == t * m && d * i == u * m + 1
    ensures j == (t * i - j * u) * m
  {
    calc {
      j;
      j * (u * m + 1) - j * (u * m);
      j * (d * i) - j * (u * m);
      { Reassociate(j, d, i); }
      (j * d) * i - j * (u * m);
      (t * m) * i - j * (u * m);
      { Factor(t, i, j, u, m); }
      (t * i - j * u) * m;
    }
  }

  lemma Reassociate(a: int, b: int, c: int)
    ensures a * (b * c) == (a * b) * c
  {
  }

  lemma Factor(t: int, i: int, j: int, u: int, m: int)
    ensures (t * m) * i - j * (u * m) == (t * i - j * u) * m
  {
    assert (t * m) * i == (t * i) * m;
    assert j * (u * m) == (j * u) * m;
  }

  lemma NoSmallMultiple(j: nat, x: int)
    requires j < MODULUS && j == x * MODULUS
    ensures j == 0
  {
  }

  // ----- the algorithms in place, on the first len words of an array -----

  /** One round of encryption: the loop over all words but the last, then the last. */
  method EncryptRound(v: array<word>, len: nat, k: array<word>, sum: word, z0: word) returns (z: word)
    requires 2 <= len <= v.Length && k.Length >= 4 && v != k && z0 == v[len - 1]
    modifies v
    ensures v[..len] == AddUpTo(old(v[..len]), k[..], sum, len) && z == v[len - 1]
    ensures v[len..] == old(v[len..])
  {
    hide Mix, KeyIndex, Plus;
    var n := len - 1;
    ghost var v0 := v[..len];
    z := z0;
    for p := 0 to n
      invariant v[..len] == AddUpTo(v0, k[..], sum, p) && v[len..] == old(v[len..])
      invariant z == if p == 0 then v[n] else v[p - 1]
    {
      var y := v[p + 1];
      v[p] := Plus(v[p], Mix(z, y, sum, k[KeyIndex(p, sum)]));
      z := v[p];
    }
    var y := v[0];
    v[n] := Plus(v[n], Mix(z, y, sum, k[KeyIndex(n, sum)]));
    z := v[n];
  }

  /** One round of decryption: from the last word down, then the first. */
  method DecryptRound(v: array<word>, len: nat, k: array<word>, sum: word, y0: word) returns (y: word)
    requires 2 <= len <= v.Length && k.Length >= 4 && v != k && y0 == v[0]
    modifies v
    ensures v[..len] == SubtractDownTo(old(v[..len]), k[..], sum, 0) && y == v[0]
    ensures v[len..] == old(v[len..])
  {
    hide Mix, KeyIndex, Minus;
    var n := len - 1;
    ghost var v0 := v[..len];
    y := y0;
    var p := n;
    while p > 0
      invariant 0 <= p <= n && v[..len] == SubtractDownTo(v0, k[..], sum, p + 1) && v[len..] == old(v[len..])
      invariant y == if p == n then v[0] else v[p + 1]
    {
      var z := v[p - 1];
      v[p] := Minus(v[p], Mix(z, y, sum, k[KeyIndex(p, sum)]));
      y := v[p];
      p := p - 1;
    }
    var z := v[n];
    v[0] := Minus(v[0], Mix(z, y, sum, k[KeyIndex(0, sum)]));
    y := v[0];
  }

  method RawEncrypt(v: array<word>, vlen: nat, k: array<word>)
    requires 1 <= vlen <= v.Length && k.Length >= 4 && v != k
    modifies v
    ensures v[..vlen] == Encrypt(old(v[..vlen]), k[..]) && v[vlen..] == old(v[vlen..])
  {
    hide AddUpTo;
    var n := vlen - 1;
    if n < 1 {
      return;
    }
    var z: word, sum: word := v[n], 0;
    var q := 6 + 52 / (n + 1);
    ghost var v0, j := v[..vlen], 0;
    while q > 0
      invariant q >= 0 && q + j == Rounds(vlen) && sum == SumAt(j) && z == v[n]
      invariant v[..vlen] == EncryptRounds(v0, k[..], j) && v[vlen..] == old(v[vlen..])
    {
      q := q - 1;
      sum := Plus(sum, DELTA);
      z := EncryptRound(v, vlen, k, sum, z);
      j := j + 1;
    }
  }

  /** The loop has no counter: it ends because the sum comes back to 0. */
  method RawDecrypt(v: array<word>, vlen: nat, k: array<word>)
    requires 1 <= vlen <= v.Length && k.Length >= 4 && v != k
    modifies v
    ensures v[..vlen] == Decrypt(old(v[..vlen]), k[..]) && v[vlen..] == old(v[vlen..])
  {
    hide SubtractDownTo, SumAt;
    var n := vlen - 1;
    if n < 1 {
      return;
    }
    var q := 6 + 52 / (n + 1);
    var y: word, sum: word := v[0], q * DELTA % MODULUS;
    ghost var v0, j := v[..vlen], q;
    SumIsProduct(q);
    SumNonZero(q);
    while sum != 0
      invariant 0 <= j <= q && sum == SumAt(j) && y == v[0]
      invariant v[..vlen] == DecryptRounds(v0, k[..], q, j) && v[vlen..] == old(v[vlen..])
      invariant sum == 0 <==> j == 0
      decreases j
    {
      y := DecryptRound(v, vlen, k, sum, y);
      SumBefore(j);
      SumNonZero(j - 1);
      sum := Minus(sum, DELTA);
      j := j - 1;
    }
  }

  lemma SumBefore(j: nat)
    requires j > 0
    ensures Minus(SumAt(j), DELTA) == SumAt(j - 1)
  {
    WordCancel(SumAt(j - 1), DELTA);
  }

  /** btea: a positive length encrypts, a negative one decrypts, with counted rounds. */
  method Btea(v: array<word>, n: int, key: array<word>)
    requires key.Length >= 4 && v != key && -v.Length <= n <= v.Length
    modifies v
    ensures n > 1 ==> v[..n] == Encrypt(old(v[..n]), key[..]) && v[n..] == old(v[n..])
    ensures n < -1 ==> v[..-n] == Decrypt(old(v[..-n]), key[..]) && v[-n..] == old(v[-n..])
    ensures -1 <= n <= 1 ==> v[..] == old(v[..])
  {
    if n > 1 {
      BteaEncrypt(v, n, key);
    } else if n < -1 {
      BteaDecrypt(v, -n, key);
    }
  }

  method BteaEncrypt(v: array<word>, n: nat, key: array<word>)
    requires 2 <= n <= v.Length && key.Length >= 4 && v != key
    modifies v
    ensures v[..n] == Encrypt(old(v[..n]), key[..]) && v[n..] == old(v[n..])
  {
    hide AddUpTo, Plus;
    var rounds := 6 + 52 / n;
    var sum: word, z: word := 0, v[n - 1];
    ghost var v0, j := v[..n], 0;
    while true
      invariant 0 < rounds && rounds + j == Rounds(n) && sum == SumAt(j) && z == v[n - 1]
      invariant v[..n] == EncryptRounds(v0, key[..], j) && v[n..] == old(v[n..])
      decreases rounds
    {
      sum := Plus(sum, DELTA);
      z := EncryptRound(v, n, key, sum, z);
      j := j + 1;
      rounds := rounds - 1;
      if rounds == 0 {
        break;
      }
    }
  }

  method BteaDecrypt(v: array<word>, n: nat, key: array<word>)
    requires 2 <= n <= v.Length && key.Length >= 4 && v != key
    modifies v
    ensures v[..n] == Decrypt(old(v[..n]), key[..]) && v[n..] == old(v[n..])
  {
    hide SubtractDownTo, SumAt;
    var rounds := 6 + 52 / n;
    ghost var q := rounds;
    var sum: word, y: word := rounds * DELTA % MODULUS, v[0];
    ghost var v0 := v[..n];
    SumIsProduct(q);
    while true
      invariant 0 < rounds <= q && sum == SumAt(rounds) && y == v[0]
      invariant v[..n] == DecryptRounds(v0, key[..], q, rounds) && v[n..] == old(v[n..])
      decreases rounds
    {
      y := DecryptRound(v, n, key, sum, y);
      SumBefore(rounds);
      sum := Minus(sum, DELTA);
      rounds := rounds - 1;
      if rounds == 0 {
        break;
      }
    }
  }
}
