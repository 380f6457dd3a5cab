/** The SHA-256 compression function: FIPS 180-4 section 6.2.2 as functions, and the two
    implementations of the repository as methods that compute it. */
module Sha256 {
  import opened Sha256Words

  const K: seq<word> := [
    0x428a2f98, 0x71374491, 0xb5c0fbcf, 0xe9b5dba5, 0x3956c25b, 0x59f111f1, 0x923f82a4, 0xab1c5ed5,
    0xd807aa98, 0x12835b01, 0x243185be, 0x550c7dc3, 0x72be5d74, 0x80deb1fe, 0x9bdc06a7, 0xc19bf174,
    0xe49b69c1, 0xefbe4786, 0x0fc19dc6, 0x240ca1cc, 0x2de92c6f, 0x4a7484aa, 0x5cb0a9dc, 0x76f988da,
    0x983e5152, 0xa831c66d, 0xb00327c8, 0xbf597fc7, 0xc6e00bf3, 0xd5a79147, 0x06ca6351, 0x14292967,
    0x27b70a85, 0x2e1b2138, 0x4d2c6dfc, 0x53380d13, 0x650a7354, 0x766a0abb, 0x81c2c92e, 0x92722c85,
    0xa2bfe8a1, 0xa81a664b, 0xc24b8b70, 0xc76c51a3, 0xd192e819, 0xd6990624, 0xf40e3585, 0x106aa070,
    0x19a4c116, 0x1e376c08, 0x2748774c, 0x34b0bcb5, 0x391c0cb3, 0x4ed8aa4a, 0x5b9cca4f, 0x682e6ff3,
    0x748f82ee, 0x78a5636f, 0x84c87814, 0x8cc70208, 0x90befffa, 0xa4506ceb, 0xbef9a3f7, 0xc67178f2
  ]

  // ----- FIPS 180-4, section 6.2.2 -----

  /** The eight working variables, and the hash value between blocks. */
  datatype Registers = Registers(a: word, b: word, c: word, d: word, e: word, f: word, g: word, h: word)

  /** Word t of the message schedule. */
  function Schedule(block: seq<byte>, t: nat): word
    requires |block| == 64
  {
    if t < 16 then BigEndian(block[4 * t], block[4 * t + 1], block[4 * t + 2], block[4 * t + 3])
    else Extended(Schedule(block, t - 2), Schedule(block, t - 7), Schedule(block, t - 15), Schedule(block, t - 16))
  }

  function Extended(w2: word, w7: word, w15: word, w16: word): word {
    Plus(Plus(Plus(SmallSigma1(w2), w7), SmallSigma0(w15)), w16)
  }

  function Round(r: Registers, k: word, w: word): Registers {
    var t1 := Plus(Plus(Plus(Plus(r.h, BigSigma1(r.e)), Ch(r.e, r.f, r.g)), k), w);
    var t2 := Plus(BigSigma0(r.a), Maj(r.a, r.b, r.c));
    Registers(Plus(t1, t2), r.a, r.b, r.c, Plus(r.d, t1), r.e, r.f, r.g)
  }

  function Rounds(r: Registers, block: seq<byte>, t: nat): Registers
    requires |block| == 64 && t <= 64
  {
    if t == 0 then r else Round(Rounds(r, block, t - 1), K[t - 1], Schedule(block, t - 1))
  }

  function Sum(r: Registers, s: Registers): Registers {
    Registers(Plus(r.a, s.a), Plus(r.b, s.b), Plus(r.c, s.c), Plus(r.d, s.d),
              Plus(r.e, s.e), Plus(r.f, s.f), Plus(r.g, s.g), Plus(r.h, s.h))
  }

  function Compress(r: Registers, block: seq<byte>): Registers
    requires |block| == 64
  {
    Sum(r, Rounds(r, block, 64))
  }

  /** The first n words of W are the schedule's. */
  ghost predicate Scheduled(W: array<word>, n: nat, block: seq<byte>)
    requires |block| == 64
    reads W
  {
    n <= W.Length && forall t: nat | t < n :: W[t] == Schedule(block, t)
  }

  lemma RoundStep(r: Registers, block: seq<byte>, t: nat)
    requires |block| == 64 && t < 64
    ensures Rounds(r, block, t + 1) == Round(Rounds(r, block, t), K[t], Schedule(block, t))
  {
    hide Round, Schedule;
  }

  // ----- sha2_process: registers keep their places and change their roles -----

  /** The macro P: the new values of its d and its h. */
  method P(a: word, b: word, c: word, d: word, e: word, f: word, g: word, h: word, x: word, k: word)
    returns (d': word, h': word)
    ensures Registers(h', a, b, c, d', e, f, g) == Round(Registers(a, b, c, d, e, f, g, h), k, x)
  {
    hide Plus, BigSigma0, BigSigma1, Ch, Maj, Select, Majority;
    var temp1 := Plus(Plus(Plus(Plus(h, BigSigma1(e)), Select(e, f, g)), k), x);
    var temp2 := Plus(BigSigma0(a), Majority(a, b, c));
    d' := Plus(d, temp1);
    h' := Plus(temp1, temp2);
    SelectIsCh(e, f, g);
    MajorityIsMaj(a, b, c);
  }

  /** The macro R: word t of the schedule, computed when it is first used. */
  method R(W: array<word>, t: nat, ghost block: seq<byte>)
    requires 16 <= t < W.Length == 64 && |block| == 64 && Scheduled(W, t, block)
    modifies W
    ensures Scheduled(W, t + 1, block) && W[t] == Schedule(block, t)
  {
    hide Plus, SmallSigma0, SmallSigma1, BigEndian;
    W[t] := Plus(Plus(Plus(SmallSigma1(W[t - 2]), W[t - 7]), SmallSigma0(W[t - 15])), W[t - 16]);
  }

  /** A line whose schedule word is already there. */
  method GivenLine(a: word, b: word, c: word, d: word, e: word, f: word, g: word, h: word,
                   W: array<word>, t: nat, ghost block: seq<byte>, ghost r0: Registers) returns (d': word, h': word)
    requires t < 16 && |block| == 64 && Scheduled(W, 16, block)
    requires Registers(a, b, c, d, e, f, g, h) == Rounds(r0, block, t)
    ensures Registers(h', a, b, c, d', e, f, g) == Rounds(r0, block, t + 1)
  {
    hide Round, Rounds, Schedule;
    d', h' := P(a, b, c, d, e, f, g, h, W[t], K[t]);
    RoundStep(r0, block, t);
  }

  /** A line that extends the schedule. */
  method DerivedLine(a: word, b: word, c: word, d: word, e: word, f: word, g: word, h: word,
                     W: array<word>, t: nat, ghost block: seq<byte>, ghost r0: Registers) returns (d': word, h': word)
    requires 16 <= t < W.Length == 64 && |block| == 64 && Scheduled(W, t, block)
    requires Registers(a, b, c, d, e, f, g, h) == Rounds(r0, block, t)
    modifies W
    ensures Scheduled(W, t + 1, block)
    ensures Registers(h', a, b, c, d', e, f, g) == Rounds(r0, block, t + 1)
  {
    hide Round, Rounds, Schedule, Scheduled;
    R(W, t, block);
    d', h' := P(a, b, c, d, e, f, g, h, W[t], K[t]);
    RoundStep(r0, block, t);
  }

  /** Eight lines, after which every register has its first role again. */
  method GivenRounds(W: array<word>, t: nat, r: Registers, ghost block: seq<byte>, ghost r0: Registers) returns (s: Registers)
    requires t + 8 <= 16 && |block| == 64 && r == Rounds(r0, block, t) && Scheduled(W, 16, block)
    ensures s == Rounds(r0, block, t + 8)
  {
    hide Rounds, Scheduled;
    var A, B, C, D, E, F, G, H := r.a, r.b, r.c, r.d, r.e, r.f, r.g, r.h;
    D, H := GivenLine(A, B, C, D, E, F, G, H, W, t + 0, block, r0);
    C, G := GivenLine(H, A, B, C, D, E, F, G, W, t + 1, block, r0);
    B, F := GivenLine(G, H, A, B, C, D, E, F, W, t + 2, block, r0);
    A, E := GivenLine(F, G, H, A, B, C, D, E, W, t + 3, block, r0);
    H, D := GivenLine(E, F, G, H, A, B, C, D, W, t + 4, block, r0);
    G, C := GivenLine(D, E, F, G, H, A, B, C, W, t + 5, block, r0);
    F, B := GivenLine(C, D, E, F, G, H, A, B, W, t + 6, block, r0);
    E, A := GivenLine(B, C, D, E, F, G, H, A, W, t + 7, block, r0);
    s := Registers(A, B, C, D, E, F, G, H);
  }

  method DerivedRounds(W: array<word>, t: nat, r: Registers, ghost block: seq<byte>, ghost r0: Registers) returns (s: Registers)
    requires 16 <= t && t + 8 <= 64 == W.Length && |block| == 64 && r == Rounds(r0, block, t) && Scheduled(W, t, block)
    modifies W
    ensures s == Rounds(r0, block, t + 8) && Scheduled(W, t + 8, block)
  {
    hide Rounds, Scheduled;
    var A, B, C, D, E, F, G, H := r.a, r.b, r.c, r.d, r.e, r.f, r.g, r.h;
    D, H := DerivedLine(A, B, C, D, E, F, G, H, W, t + 0, block, r0);
    C, G := DerivedLine(H, A, B, C, D, E, F, G, W, t + 1, block, r0);
    B, F := DerivedLine(G, H, A, B, C, D, E, F, W, t + 2, block, r0);
    A, E := DerivedLine(F, G, H, A, B, C, D, E, W, t + 3, block, r0);
    H, D := DerivedLine(E, F, G, H, A, B, C, D, W, t + 4, block, r0);
    G, C := DerivedLine(D, E, F, G, H, A, B, C, W, t + 5, block, r0);
    F, B := DerivedLine(C, D, E, F, G, H, A, B, W, t + 6, block, r0);
    E, A := DerivedLine(B, C, D, E, F, G, H, A, W, t + 7, block, r0);
    s := Registers(A, B, C, D, E, F, G, H);
  }

  /** sha2_process, with its 64 lines folded into loops over eight. */
  method Process(state: Registers, data: seq<byte>) returns (r: Registers)
    requires |data| == 64
    ensures r == Compress(state, data)
  {
    hide Round, Rounds, BigEndian, Plus;
    var W := new word[64];
    for i := 0 to 16
      invariant Scheduled(W, i, data)
    {
      W[i] := BigEndian(data[4 * i], data[4 * i + 1], data[4 * i + 2], data[4 * i + 3]);
    }
    r := state;
    assert r == Rounds(state, data, 0) by {
      NoRounds(state, data);
    }
    var t := 0;
    while t < 16
      invariant t % 8 == 0 && 0 <= t <= 16 && r == Rounds(state, data, t) && Scheduled(W, 16, data)
    {
      r := GivenRounds(W, t, r, data, state);
      t := t + 8;
    }
    while t < 64
      invariant t % 8 == 0 && 16 <= t <= 64 && r == Rounds(state, data, t) && Scheduled(W, t, data)
    {
      r := DerivedRounds(W, t, r, data, state);
      t := t + 8;
    }
    r := Sum(state, r);
  }

  lemma NoRounds(r: Registers, block: seq<byte>)
    requires |block| == 64
    ensures Rounds(r, block, 0) == r
  {
    hide Round, Schedule;
  }

  // ----- SHA256Guts: registers that shift, and words swapped from memory order -----

  method DoRound(r: Registers, k: word, w: word) returns (s: Registers)
    ensures s == Round(r, k, w)
  {
    hide Plus, BigSigma0, BigSigma1, Ch, Maj, Select, Majority2;
    var a, b, c, d, e, f, g, h := r.a, r.b, r.c, r.d, r.e, r.f, r.g, r.h;
    var t1 := Plus(Plus(Plus(Plus(h, BigSigma1(e)), Select(e, f, g)), k), w);
    var t2 := Plus(BigSigma0(a), Majority2(a, b, c));
    SelectIsCh(e, f, g);
    MajorityIsMaj(a, b, c);
    h := g;
    g := f;
    f := e;
    e := Plus(d, t1);
    d := c;
    c := b;
    b := a;
    a := Plus(t1, t2);
    s := Registers(a, b, c, d, e, f, g, h);
  }

  method Guts(hash: Registers, cbuf: seq<byte>) returns (r: Registers)
    requires |cbuf| == 64
    ensures r == Compress(hash, cbuf)
  {
    hide Round, BigEndian, LittleEndian, ByteSwap, Plus, SmallSigma0, SmallSigma1;
    var buf := new word[64];
    for i := 0 to 16
      invariant Scheduled(buf, i, cbuf)
    {
      SwapLoad(cbuf[4 * i], cbuf[4 * i + 1], cbuf[4 * i + 2], cbuf[4 * i + 3]);
      buf[i] := ByteSwap(LittleEndian(cbuf[4 * i], cbuf[4 * i + 1], cbuf[4 * i + 2], cbuf[4 * i + 3]));
    }
    var W16, W15, W7, W2 := 0, 1, 9, 14;
    for W := 16 to 64
      invariant Scheduled(buf, W, cbuf) && W16 == W - 16 && W15 == W - 15 && W7 == W - 7 && W2 == W - 2
    {
      buf[W] := Plus(Plus(Plus(SmallSigma1(buf[W2]), buf[W7]), SmallSigma0(buf[W15])), buf[W16]);
      W7 := W7 + 1;
      W16 := W16 + 1;
      W2 := W2 + 1;
      W15 := W15 + 1;
    }
    r := hash;
    for i := 0 to 64
      invariant r == Rounds(hash, cbuf, i) && Scheduled(buf, 64, cbuf)
    {
      r := DoRound(r, K[i], buf[i]);
    }
    r := Sum(hash, r);
  }
}
