/** Triple DES as des3.c computes it: permutations by masked swaps, sixteen Feistel rounds per key
    schedule, and decryption as encryption with everything reversed. Nothing is assumed about the
    substitution boxes or the key schedules. */
module Des {
  type word = bv32
  type byte = bv8

  /** DES_SPtrans: row and six-bit index. */
  type Boxes = (int, bv6) -> word

  /** deslong: two words for each of the sixteen rounds. */
  type Schedule = s: seq<word> | |s| == 32 witness seq(32, _ => 0)

  datatype Pair = Pair(l: word, r: word)

  // ----- one round -----

  function Xor(x: word, y: word): word {
    x ^ y
  }

  function Rotate(a: word, n: bv6): word
    requires n <= 32
  {
    (a >> n) + (a << (32 - n))
  }

  function Six(u: word): bv6 {
    (u & 0x3f) as bv6
  }

  /** What D_ENCRYPT adds to one half, from the other half and two key words. */
  function Feistel(sp: Boxes, r: word, k0: word, k1: word): word {
    var u := r ^ k0;
    var t := Rotate(r ^ k1, 4);
    sp(0, Six(u >> 2)) ^ sp(2, Six(u >> 10)) ^ sp(4, Six(u >> 18)) ^ sp(6, Six(u >> 26)) ^
    sp(1, Six(t >> 2)) ^ sp(3, Six(t >> 10)) ^ sp(5, Six(t >> 18)) ^ sp(7, Six(t >> 26))
  }

  function Encrypted(sp: Boxes, half: word, other: word, s: Schedule, i: nat): word
    requires i + 1 < 32
  {
    Xor(half, Feistel(sp, other, s[i], s[i + 1]))
  }

  lemma XorTwice(x: word, y: word)
    ensures Xor(Xor(x, y), y) == x
  {
  }

  lemma RoundTwice(sp: Boxes, half: word, other: word, s: Schedule, i: nat)
    requires i + 1 < 32
    ensures Encrypted(sp, Encrypted(sp, half, other, s, i), other, s, i) == half
  {
    hide Xor, Feistel;
    XorTwice(half, Feistel(sp, other, s[i], s[i + 1]));
  }

  // ----- sixteen rounds, two at a time -----

  /** After n turns of the encryption loop. */
  function Forward(sp: Boxes, p: Pair, s: Schedule, n: nat): Pair
    requires n <= 8
  {
    if n == 0 then p
    else
      var q := Forward(sp, p, s, n - 1);
      var l := Encrypted(sp, q.l, q.r, s, 4 * (n - 1));
      Pair(l, Encrypted(sp, q.r, l, s, 4 * (n - 1) + 2))
  }

  /** After n turns of the decryption loop, which starts at the last round. */
  function Backward(sp: Boxes, p: Pair, s: Schedule, n: nat): Pair
    requires n <= 8
  {
    if n == 0 then p
    else
      var q := Backward(sp, p, s, n - 1);
      var l := Encrypted(sp, q.l, q.r, s, 34 - 4 * n);
      Pair(l, Encrypted(sp, q.r, l, s, 32 - 4 * n))
  }

  function Swapped(p: Pair): Pair {
    Pair(p.r, p.l)
  }

  /** Running one loop on the swapped result of the other goes back over the same pairs. */
  lemma {:induction false} BackwardMeets(sp: Boxes, p: Pair, s: Schedule, n: nat)
    requires n <= 8
    ensures Backward(sp, Swapped(Forward(sp, p, s, 8)), s, n) == Swapped(Forward(sp, p, s, 8 - n))
  {
    hide Encrypted;
    if n > 0 {
      BackwardMeets(sp, p, s, n - 1);
      var q := Forward(sp, p, s, 8 - n);
      var l := Encrypted(sp, q.l, q.r, s, 32 - 4 * n);
      RoundTwice(sp, q.r, l, s, 34 - 4 * n);
      RoundTwice(sp, q.l, q.r, s, 32 - 4 * n);
    }
  }

  lemma {:induction false} ForwardMeets(sp: Boxes, p: Pair, s: Schedule, n: nat)
    requires n <= 8
    ensures Forward(sp, Swapped(Backward(sp, p, s, 8)), s, n) == Swapped(Backward(sp, p, s, 8 - n))
  {
    hide Encrypted;
    if n > 0 {
      ForwardMeets(sp, p, s, n - 1);
      var q := Backward(sp, p, s, 8 - n);
      var i := 4 * (n - 1);
      var l := Encrypted(sp, q.l, q.r, s, i + 2);
      RoundTwice(sp, q.r, l, s, i);
      RoundTwice(sp, q.l, q.r, s, i + 2);
    }
  }

  /** DES_encrypt2: data[0] is the right half going in and the left half coming out. */
  function Encrypt2(sp: Boxes, d: Pair, s: Schedule, enc: bool): Pair {
    var p := Pair(Rotate(d.r, 29), Rotate(d.l, 29));
    var q := if enc then Forward(sp, p, s, 8) else Backward(sp, p, s, 8);
    Pair(Rotate(q.l, 3), Rotate(q.r, 3))
  }

  lemma RotateBack(x: word)
    ensures Rotate(Rotate(x, 3), 29) == x && Rotate(Rotate(x, 29), 3) == x
  {
  }

  lemma Encrypt2Inverse(sp: Boxes, d: Pair, s: Schedule, enc: bool)
    ensures Encrypt2(sp, Encrypt2(sp, d, s, enc), s, !enc) == d
  {
    hide Rotate, Forward, Backward;
    var p := Pair(Rotate(d.r, 29), Rotate(d.l, 29));
    var q := if enc then Forward(sp, p, s, 8) else Backward(sp, p, s, 8);
    RotateBack(q.l);
    RotateBack(q.r);
    RotateBack(d.l);
    RotateBack(d.r);
    if enc {
      BackwardMeets(sp, p, s, 8);
      NoTurns(sp, p, s);
    } else {
      ForwardMeets(sp, p, s, 8);
      NoTurns(sp, p, s);
    }
  }

  lemma NoTurns(sp: Boxes, p: Pair, s: Schedule)
    ensures Forward(sp, p, s, 0) == p && Backward(sp, p, s, 0) == p
  {
  }

  // ----- the initial and final permutations -----

  /** PERM_OP(a, b, t, n, m), as the pair of a and b. */
  function PermOp(a: word, b: word, n: bv6, m: word): (word, word)
    requires n <= 32
  {
    var t := ((a >> n) ^ b) & m;
    (a ^ (t << n), b ^ t)
  }

  function Left(p: Pair, n: bv6, m: word): Pair
    requires n <= 32
  {
    var (l, r) := PermOp(p.l, p.r, n, m);
    Pair(l, r)
  }

  function Right(p: Pair, n: bv6, m: word): Pair
    requires n <= 32
  {
    var (r, l) := PermOp(p.r, p.l, n, m);
    Pair(l, r)
  }

  /** IP(l, r). */
  function Initial(p: Pair): Pair {
    Right(Left(Right(Left(Right(p, 4, 0x0f0f0f0f), 16, 0x0000ffff), 2, 0x33333333), 8, 0x00ff00ff), 1, 0x55555555)
  }

  /** FP(r, l). */
  function Final(p: Pair): Pair {
    Right(Left(Right(Left(Right(p, 1, 0x55555555), 8, 0x00ff00ff), 2, 0x33333333), 16, 0x0000ffff), 4, 0x0f0f0f0f)
  }

  /** A masked swap done twice changes nothing. */
  lemma Twice1(a: word, b: word)
    ensures var (c, d) := PermOp(a, b, 1, 0x55555555); PermOp(c, d, 1, 0x55555555) == (a, b)
  {
  }

  lemma Twice2(a: word, b: word)
    ensures var (c, d) := PermOp(a, b, 2, 0x33333333); PermOp(c, d, 2, 0x33333333) == (a, b)
  {
  }

  lemma Twice4(a: word, b: word)
    ensures var (c, d) := PermOp(a, b, 4, 0x0f0f0f0f); PermOp(c, d, 4, 0x0f0f0f0f) == (a, b)
  {
  }

  lemma Twice8(a: word, b: word)
    ensures var (c, d) := PermOp(a, b, 8, 0x00ff00ff); PermOp(c, d, 8, 0x00ff00ff) == (a, b)
  {
  }

  lemma Twice16(a: word, b: word)
    ensures var (c, d) := PermOp(a, b, 16, 0x0000ffff); PermOp(c, d, 16, 0x0000ffff) == (a, b)
  {
  }

  lemma SidesTwice(p: Pair)
    ensures Left(Left(p, 1, 0x55555555), 1, 0x55555555) == p && Right(Right(p, 1, 0x55555555), 1, 0x55555555) == p
    ensures Left(Left(p, 2, 0x33333333), 2, 0x33333333) == p && Right(Right(p, 2, 0x33333333), 2, 0x33333333) == p
    ensures Left(Left(p, 4, 0x0f0f0f0f), 4, 0x0f0f0f0f) == p && Right(Right(p, 4, 0x0f0f0f0f), 4, 0x0f0f0f0f) == p
    ensures Left(Left(p, 8, 0x00ff00ff), 8, 0x00ff00ff) == p && Right(Right(p, 8, 0x00ff00ff), 8, 0x00ff00ff) == p
    ensures Left(Left(p, 16, 0x0000ffff), 16, 0x0000ffff) == p && Right(Right(p, 16, 0x0000ffff), 16, 0x0000ffff) == p
  {
    hide PermOp;
    Twice1(p.l, p.r);
    Twice1(p.r, p.l);
    Twice2(p.l, p.r);
    Twice2(p.r, p.l);
    Twice4(p.l, p.r);
    Twice4(p.r, p.l);
    Twice8(p.l, p.r);
    Twice8(p.r, p.l);
    Twice16(p.l, p.r);
    Twice16(p.r, p.l);
  }

  lemma InitialFinal(p: Pair)
    ensures Initial(Final(p)) == p && Final(Initial(p)) == p
  {
    hide Left, Right;
    var a := Right(p, 1, 0x55555555);
    var b := Left(a, 8, 0x00ff00ff);
    var c := Right(b, 2, 0x33333333);
    var d := Left(c, 16, 0x0000ffff);
    SidesTwice(p);
    SidesTwice(a);
    SidesTwice(b);
    SidesTwice(c);
    SidesTwice(d);
    var e := Right(p, 4, 0x0f0f0f0f);
    var f := Left(e, 16, 0x0000ffff);
    var g := Right(f, 2, 0x33333333);
    var h := Left(g, 8, 0x00ff00ff);
    SidesTwice(e);
    SidesTwice(f);
    SidesTwice(g);
    SidesTwice(h);
  }

  // ----- triple DES -----

  function Encrypt3(sp: Boxes, d: Pair, k1: Schedule, k2: Schedule, k3: Schedule): Pair {
    Final(Encrypt2(sp, Encrypt2(sp, Encrypt2(sp, Initial(d), k1, true), k2, false), k3, true))
  }

  function Decrypt3(sp: Boxes, d: Pair, k1: Schedule, k2: Schedule, k3: Schedule): Pair {
    Final(Encrypt2(sp, Encrypt2(sp, Encrypt2(sp, Initial(d), k3, false), k2, true), k1, false))
  }

  lemma Decrypt3Encrypt3(sp: Boxes, d: Pair, k1: Schedule, k2: Schedule, k3: Schedule)
    ensures Decrypt3(sp, Encrypt3(sp, d, k1, k2, k3), k1, k2, k3) == d
  {
    hide Encrypt2, Initial, Final;
    var a := Initial(d);
    var b := Encrypt2(sp, a, k1, true);
    var c := Encrypt2(sp, b, k2, false);
    InitialFinal(d);
    InitialFinal(Encrypt2(sp, c, k3, true));
    Encrypt2Inverse(sp, c, k3, true);
    Encrypt2Inverse(sp, b, k2, false);
    Encrypt2Inverse(sp, a, k1, true);
  }

  // ----- the same in place -----

  /** The two words of a block. */
  ghost function Data(data: array<word>): Pair
    requires data.Length == 2
    reads data
  {
    Pair(data[0], data[1])
  }

  method Ip(p: Pair) returns (q: Pair)
    ensures q == Initial(p)
  {
    hide PermOp;
    var l, r := p.l, p.r;
    var t := PermOp(r, l, 4, 0x0f0f0f0f);
    r, l := t.0, t.1;
    t := PermOp(l, r, 16, 0x0000ffff);
    l, r := t.0, t.1;
    t := PermOp(r, l, 2, 0x33333333);
    r, l := t.0, t.1;
    t := PermOp(l, r, 8, 0x00ff00ff);
    l, r := t.0, t.1;
    t := PermOp(r, l, 1, 0x55555555);
    r, l := t.0, t.1;
    q := Pair(l, r);
  }

  method Fp(p: Pair) returns (q: Pair)
    ensures q == Final(p)
  {
    hide PermOp;
    var l, r := p.l, p.r;
    var t := PermOp(r, l, 1, 0x55555555);
    r, l := t.0, t.1;
    t := PermOp(l, r, 8, 0x00ff00ff);
    l, r := t.0, t.1;
    t := PermOp(r, l, 2, 0x33333333);
    r, l := t.0, t.1;
    t := PermOp(l, r, 16, 0x0000ffff);
    l, r := t.0, t.1;
    t := PermOp(r, l, 4, 0x0f0f0f0f);
    r, l := t.0, t.1;
    q := Pair(l, r);
  }

  method DesEncrypt2(sp: Boxes, data: array<word>, s: Schedule, enc: bool)
    requires data.Length == 2
    modifies data
    ensures Data(data) == Encrypt2(sp, old(Data(data)), s, enc)
  {
    hide Encrypted, Rotate;
    var r, l := data[0], data[1];
    r := Rotate(r, 29);
    l := Rotate(l, 29);
    ghost var p := Pair(l, r);
    if enc {
      var i := 0;
      while i < 32
        invariant i % 4 == 0 && 0 <= i <= 32 && Pair(l, r) == Forward(sp, p, s, i / 4)
      {
        l := Encrypted(sp, l, r, s, i + 0);
        r := Encrypted(sp, r, l, s, i + 2);
        i := i + 4;
      }
    } else {
      var i := 30;
      while i > 0
        invariant (32 - (i + 2)) % 4 == 0 && -2 <= i <= 30 && Pair(l, r) == Backward(sp, p, s, (30 - i) / 4)
      {
        l := Encrypted(sp, l, r, s, i - 0);
        r := Encrypted(sp, r, l, s, i - 2);
        i := i - 4;
      }
    }
    data[0] := Rotate(l, 3);
    data[1] := Rotate(r, 3);
  }

  method DesEncrypt3(sp: Boxes, data: array<word>, k1: Schedule, k2: Schedule, k3: Schedule)
    requires data.Length == 2
    modifies data
    ensures Data(data) == Encrypt3(sp, old(Data(data)), k1, k2, k3)
  {
    hide Encrypt2, Initial, Final;
    var p := Ip(Pair(data[0], data[1]));
    data[0], data[1] := p.l, p.r;
    DesEncrypt2(sp, data, k1, true);
    DesEncrypt2(sp, data, k2, false);
    DesEncrypt2(sp, data, k3, true);
    p := Fp(Pair(data[0], data[1]));
    data[0], data[1] := p.l, p.r;
  }

  method DesDecrypt3(sp: Boxes, data: array<word>, k1: Schedule, k2: Schedule, k3: Schedule)
    requires data.Length == 2
    modifies data
    ensures Data(data) == Decrypt3(sp, old(Data(data)), k1, k2, k3)
  {
    hide Encrypt2, Initial, Final;
    var p := Ip(Pair(data[0], data[1]));
    data[0], data[1] := p.l, p.r;
    DesEncrypt2(sp, data, k3, false);
    DesEncrypt2(sp, data, k2, true);
    DesEncrypt2(sp, data, k1, false);
    p := Fp(Pair(data[0], data[1]));
    data[0], data[1] := p.l, p.r;
  }

  // ----- bytes -----

  /** c2l: four bytes, the lowest first. */
  function Load(b: seq<byte>): word
    requires |b| == 4
  {
    (b[0] as word) | ((b[1] as word) << 8) | ((b[2] as word) << 16) | ((b[3] as word) << 24)
  }

  /** l2c. */
  function Store(l: word): (b: seq<byte>)
    ensures |b| == 4
  {
    [(l & 0xff) as byte, ((l >> 8) & 0xff) as byte, ((l >> 16) & 0xff) as byte, ((l >> 24) & 0xff) as byte]
  }

  lemma StoreLoad(b0: byte, b1: byte, b2: byte, b3: byte)
    ensures Store(Load([b0, b1, b2, b3])) == [b0, b1, b2, b3]
  {
  }

  lemma LoadStore(l: word)
    ensures Load(Store(l)) == l
  {
  }

  /** DES_ecb3_encrypt on one block of eight bytes. */
  method Ecb3(sp: Boxes, input: seq<byte>, k1: Schedule, k2: Schedule, k3: Schedule, enc: bool) returns (output: seq<byte>)
    requires |input| == 8
    ensures var d := Pair(Load(input[..4]), Load(input[4..]));
            var e := if enc then Encrypt3(sp, d, k1, k2, k3) else Decrypt3(sp, d, k1, k2, k3);
            output == Store(e.l) + Store(e.r)
  {
    hide Load, Store, Encrypt3, Decrypt3;
    var ll := new word[2];
    ll[0] := Load(input[..4]);
    ll[1] := Load(input[4..]);
    if enc {
      DesEncrypt3(sp, ll, k1, k2, k3);
    } else {
      DesDecrypt3(sp, ll, k1, k2, k3);
    }
    output := Store(ll[0]) + Store(ll[1]);
  }

  /** A block encrypted and decrypted again is the same eight bytes. */
  method Ecb3Back(sp: Boxes, input: seq<byte>, k1: Schedule, k2: Schedule, k3: Schedule) returns (output: seq<byte>)
    requires |input| == 8
    ensures output == input
  {
    hide Load, Store, Encrypt3, Decrypt3;
    var secret := Ecb3(sp, input, k1, k2, k3, true);
    output := Ecb3(sp, secret, k1, k2, k3, false);
    ghost var d := Pair(Load(input[..4]), Load(input[4..]));
    ghost var e := Encrypt3(sp, d, k1, k2, k3);
    assert secret[..4] == Store(e.l) && secret[4..] == Store(e.r);
    LoadStore(e.l);
    LoadStore(e.r);
    Decrypt3Encrypt3(sp, d, k1, k2, k3);
    assert input[..4] == [input[0], input[1], input[2], input[3]] && input[4..] == [input[4], input[5], input[6], input[7]];
    StoreLoad(input[0], input[1], input[2], input[3]);
    StoreLoad(input[4], input[5], input[6], input[7]);
  }
}
