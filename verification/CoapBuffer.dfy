/** coap.c on its buffers: the reader that advances a pointer and the writer that fills an array. */
module CoapBuffer {
  import opened Wire
  import opened Coap

  // ----- reading -----

  /** An extended field: the value, the position of its last byte, or the error. */
  method ReadExtended(b: seq<byte>, p: nat, nibble: nat, invalid: Error) returns (r: Result<(nat, nat)>)
    requires p < |b| && nibble < 16
    ensures r == Extended(b, p, nibble, invalid)
  {
    var value, q := nibble, p;
    if nibble == 13 {
      if |b| - p < 2 {
        return Err(OptionTooShortForHeader);
      }
      value := b[q + 1] as int + 13;
      q := q + 1;
    } else if nibble == 14 {
      if |b| - p < 3 {
        return Err(OptionTooShortForHeader);
      }
      value := (b[q + 1] as int * 256 + b[q + 2] as int + 269) % 0x1_0000;
      q := q + 2;
    } else if nibble == 15 {
      return Err(invalid);
    }
    r := Ok((value, q));
  }

  method ReadOption(b: seq<byte>, p: nat, running: nat) returns (r: Result<(OptionSlice, nat, nat)>)
    requires p < |b|
    ensures r == ParseOption(b, p, running)
  {
    hide Extended;
    var d := ReadExtended(b, p, b[p] / 16, OptionDeltaInvalid);
    if d.Err? {
      return Err(d.error);
    }
    var (delta, q) := d.value;
    var l := ReadExtended(b, q, b[p] % 16, OptionLenInvalid);
    if l.Err? {
      return Err(l.error);
    }
    var (len, last) := l.value;
    if last + 1 + len > |b| {
      return Err(OptionTooBig);
    }
    r := Ok((OptionSlice((delta + running) % 256, Slice(last + 1, len)), (running + delta) % 0x1_0000, last + 1 + len));
  }

  /** Options already read, followed by what a reader finds. */
  ghost function After(os: seq<OptionSlice>, r: Result<(seq<OptionSlice>, nat)>): Result<(seq<OptionSlice>, nat)> {
    if r.Err? then r else Ok((os + r.value.0, r.value.1))
  }

  method ReadOptions(b: seq<byte>, start: nat) returns (r: Result<(seq<OptionSlice>, nat)>)
    requires start <= |b|
    ensures r == ParseOptions(b, start, 0, MAXOPT)
  {
    hide *;
    var options, p: nat, delta: nat := [], start, 0;
    ghost var all := ParseOptions(b, start, 0, MAXOPT);
    AfterNothing(all);
    while |options| < MAXOPT && p < |b| && b[p] != 0xFF
      invariant |options| <= MAXOPT && p <= |b| && all == After(options, ParseOptions(b, p, delta, MAXOPT - |options|))
      decreases MAXOPT - |options|
    {
      ParseOneMore(b, p, delta, MAXOPT - |options|);
      var rc := ReadOption(b, p, delta);
      if rc.Err? {
        AfterError(options, rc.error);
        return Err(rc.error);
      }
      var (o, d, q) := rc.value;
      AfterOption(options, o, ParseOptions(b, q, d, MAXOPT - |options| - 1));
      options, delta, p := options + [o], d, q;
    }
    NoMoreOptions(b, p, delta, MAXOPT - |options|, options);
    r := Ok((options, p));
  }

  lemma AfterNothing(r: Result<(seq<OptionSlice>, nat)>)
    ensures After([], r) == r
  {
    assert r.Ok? ==> [] + r.value.0 == r.value.0;
  }

  lemma AfterError(os: seq<OptionSlice>, e: Error)
    ensures After(os, Err(e)) == Err(e)
  {
  }

  lemma AfterOption(os: seq<OptionSlice>, o: OptionSlice, rest: Result<(seq<OptionSlice>, nat)>)
    ensures After(os, if rest.Err? then Err(rest.error) else Ok(([o] + rest.value.0, rest.value.1))) == After(os + [o], rest)
  {
    if rest.Ok? {
      assert os + ([o] + rest.value.0) == os + [o] + rest.value.0;
    }
  }

  lemma NoMoreOptions(b: seq<byte>, p: nat, delta: nat, n: nat, os: seq<OptionSlice>)
    requires p <= |b| && (n == 0 || p == |b| || b[p] == 0xFF)
    ensures After(os, ParseOptions(b, p, delta, n)) == Ok((os, p))
  {
    assert os + [] == os;
  }

  method CoapParse(b: seq<byte>) returns (r: Result<Message>)
    ensures r == Parse(b)
  {
    hide ParseOptions;
    if |b| < 4 {
      return Err(HeaderTooShort);
    }
    if b[0] / 64 != 1 {
      return Err(VersionNot1);
    }
    var hdr := Header(b[0] / 64, b[0] / 16 % 4, b[0] % 16, b[1], b[2], b[3]);
    var tok := Slice(0, 0);
    if hdr.tkl > 0 {
      if hdr.tkl > 8 || 4 + hdr.tkl > |b| {
        return Err(TokenTooShort);
      }
      tok := Slice(4, hdr.tkl);
    }
    var o := ReadOptions(b, 4 + hdr.tkl);
    if o.Err? {
      return Err(o.error);
    }
    var (options, p) := o.value;
    var payload := Slice(0, 0);
    if p + 1 < |b| && b[p] == 0xFF {
      payload := Slice(p + 1, |b| - (p + 1));
    }
    r := Ok(Message(hdr, tok, options, payload));
  }

  // ----- writing -----

  method PutDelta(buf: array<byte>, p: nat, delta: nat, ghost done: seq<byte>) returns (q: nat)
    requires delta <= 0xFFFF + 269 && p + |DeltaBytes(delta)| <= buf.Length && buf[..p] == done
    modifies buf
    ensures q == p + |DeltaBytes(delta)| && buf[..q] == done + DeltaBytes(delta)
  {
    q := p;
    if Nibble(delta) == 13 {
      q := Put(buf, q, delta - 13, done);
    } else if Nibble(delta) == 14 {
      q := Put(buf, q, (delta - 269) / 256, done);
      q := Put(buf, q, (delta - 269) % 256, done + [(delta - 269) / 256]);
    }
  }

  method PutLen(buf: array<byte>, p: nat, len: nat, ghost done: seq<byte>) returns (q: nat)
    requires len <= 0xFFFF + 269 && p + |LenBytes(len)| <= buf.Length && buf[..p] == done
    modifies buf
    ensures q == p + |LenBytes(len)| && buf[..q] == done + LenBytes(len)
  {
    q := p;
    if Nibble(len) == 13 {
      q := Put(buf, q, len - 13, done);
    } else if Nibble(len) == 14 {
      q := Put(buf, q, len / 256 % 256, done);
      q := Put(buf, q, (len - 269) % 256, done + [len / 256 % 256]);
    }
  }

  method PutOption(buf: array<byte>, p: nat, delta: nat, o: Option, ghost done: seq<byte>) returns (q: nat)
    requires delta <= 0xFFFF + 269 && |o.value| <= 0xFFFF + 269
    requires p + |OptionHead(delta, |o.value|) + o.value| <= buf.Length && buf[..p] == done
    modifies buf
    ensures var w := OptionHead(delta, |o.value|) + o.value; q == p + |w| && buf[..q] == done + w
  {
    hide Nibble, DeltaBytes, LenBytes;
    var len := |o.value|;
    var first := Nibble(delta) * 16 + Nibble(len);
    q := Put(buf, p, first, done);
    q := PutDelta(buf, q, delta, done + [first]);
    q := PutLen(buf, q, len, done + [first] + DeltaBytes(delta));
    q := Copy(buf, q, o.value, done + [first] + DeltaBytes(delta) + LenBytes(len));
    Group(done, [first], DeltaBytes(delta), LenBytes(len), o.value);
  }

  lemma Group(a: seq<byte>, b: seq<byte>, c: seq<byte>, d: seq<byte>, e: seq<byte>)
    ensures a + b + c + d + e == a + (b + c + d + e)
  {
  }

  /** The option loop, behind `done`. */
  method PutOptions(buf: array<byte>, start: nat, opts: seq<Option>, ghost done: seq<byte>) returns (p: nat)
    requires InOrder(opts, 0) && start + |OptionsBytes(opts, 0)| <= buf.Length && buf[..start] == done
    modifies buf
    ensures p == start + |OptionsBytes(opts, 0)| && buf[..p] == done + OptionsBytes(opts, 0)
  {
    hide OptionHead;
    p := start;
    var running := 0;
    ghost var all := done + OptionsBytes(opts, 0);
    assert opts[0..] == opts;
    for i := 0 to |opts|
      invariant running >= 0 && InOrder(opts[i..], running) && p <= buf.Length
      invariant buf[..p] + OptionsBytes(opts[i..], running) == all
    {
      ghost var rest := opts[i..];
      assert rest[0] == opts[i] && rest[1..] == opts[i + 1..];
      OptionsUnfold(rest, running);
      ghost var before := buf[..p];
      ghost var w := OptionHead(opts[i].num - running, |opts[i].value|) + opts[i].value;
      assert |all| == |before| + |w| + |OptionsBytes(rest[1..], opts[i].num)|;
      p := PutOption(buf, p, opts[i].num - running, opts[i], buf[..p]);
      assert before + (w + OptionsBytes(rest[1..], opts[i].num)) == before + w + OptionsBytes(rest[1..], opts[i].num);
      running := opts[i].num;
    }
    assert opts[|opts|..] == [];
    NoOptionBytes(running);
    assert buf[..p] + [] == buf[..p];
  }

  /** The bytes before the payload. */
  ghost function Front(pkt: Packet): seq<byte>
    requires InOrder(pkt.opts, 0)
  {
    HeaderBytes(pkt.hdr) + TokenBytes(pkt) + OptionsBytes(pkt.opts, 0)
  }

  // ----- how far the builder writes -----

  /** The end of what the option loop writes from p on: it looks at the room that is left only before
      an option, and then writes the whole of it. */
  function OptionsExtent(opts: seq<Option>, from: nat, p: nat, room: nat): nat
    requires InOrder(opts, from)
  {
    if opts == [] || p > room then p
    else
      var o := opts[0];
      OptionsExtent(opts[1..], o.num, p + |OptionHead(o.num - from, |o.value|)| + |o.value|, room)
  }

  /** The end of what coap_build writes into a buffer of that length, with every early return. */
  function Extent(pkt: Packet, room: nat): nat
    requires InOrder(pkt.opts, 0)
  {
    if room < 4 + pkt.hdr.tkl then 0
    else if pkt.hdr.tkl > 0 && |pkt.tok| != pkt.hdr.tkl then 4
    else
      var p := OptionsExtent(pkt.opts, 0, 4 + |TokenBytes(pkt)|, room);
      if p <= room && p + |PayloadBytes(pkt.payload)| <= room then p + |PayloadBytes(pkt.payload)| else p
  }

  lemma {:induction false} OptionsExtentInside(opts: seq<Option>, from: nat, p: nat, room: nat)
    requires InOrder(opts, from) && p <= room
    ensures OptionsExtent(opts, from, p, room) <= room <==> p + |OptionsBytes(opts, from)| <= room
    decreases |opts|
  {
    if opts != [] {
      var o := opts[0];
      OptionsUnfold(opts, from);
      var q := p + |OptionHead(o.num - from, |o.value|)| + |o.value|;
      hide OptionsBytes, OptionHead;
      if q <= room {
        OptionsExtentInside(opts[1..], o.num, q, room);
      }
    }
  }

  /** The header is refused, or the token, or everything before the payload has room. */
  ghost predicate RoomFor(pkt: Packet, room: nat)
    requires InOrder(pkt.opts, 0)
  {
    room < 4 + pkt.hdr.tkl || (pkt.hdr.tkl > 0 && |pkt.tok| != pkt.hdr.tkl) || |Front(pkt)| <= room
  }

  /** All writes are in the buffer under exactly that condition. */
  lemma ExtentInside(pkt: Packet, room: nat)
    requires InOrder(pkt.opts, 0)
    ensures Extent(pkt, room) <= room <==> RoomFor(pkt, room)
  {
    hide OptionsBytes, OptionsExtent;
    var p := 4 + |TokenBytes(pkt)|;
    if p <= room {
      OptionsExtentInside(pkt.opts, 0, p, room);
    }
  }

  /** One option of ten bytes and a buffer of four. */
  lemma Overrun()
    ensures var pkt := Packet(Header(1, 0, 0, 1, 0, 0), [], [Option(1, seq(10, _ => 0))], []);
            InOrder(pkt.opts, 0) && Extent(pkt, 4) == 15
  {
    var o := Option(1, seq(10, _ => 0));
    assert [o][1..] == [];
    assert |OptionHead(1, 10)| == 1;
    assert OptionsExtent([o], 0, 4, 4) == OptionsExtent([], 1, 15, 4) == 15;
  }

  method CoapBuild(buf: array<byte>, pkt: Packet) returns (r: Result<nat>)
    requires InOrder(pkt.opts, 0) && RoomFor(pkt, buf.Length)
    modifies buf
    ensures buf.Length < 4 + pkt.hdr.tkl ==> r == Err(BufferTooSmall)
    ensures buf.Length >= 4 + pkt.hdr.tkl && pkt.hdr.tkl > 0 && |pkt.tok| != pkt.hdr.tkl ==> r == Err(Unsupported)
    ensures buf.Length >= 4 + pkt.hdr.tkl && (pkt.hdr.tkl == 0 || |pkt.tok| == pkt.hdr.tkl) ==>
              r == if |Build(pkt)| <= buf.Length then Ok(|Build(pkt)|) else Err(BufferTooSmall)
    ensures r.Ok? ==> r.value <= buf.Length && buf[..r.value] == Build(pkt)
  {
    hide OptionsBytes;
    if buf.Length < 4 + pkt.hdr.tkl {
      return Err(BufferTooSmall);
    }
    var h := HeaderBytes(pkt.hdr);
    buf[0], buf[1], buf[2], buf[3] := h[0], h[1], h[2], h[3];
    var p := 4;
    if pkt.hdr.tkl > 0 && pkt.hdr.tkl != |pkt.tok| {
      return Err(Unsupported);
    }
    assert buf[..4] == h;
    if pkt.hdr.tkl > 0 {
      p := Copy(buf, p, pkt.tok, h);
    }
    assert buf[..p] == h + TokenBytes(pkt);
    p := PutOptions(buf, p, pkt.opts, h + TokenBytes(pkt));
    if |pkt.payload| > 0 {
      if buf.Length < 1 + |pkt.payload| + p {
        return Err(BufferTooSmall);
      }
      ghost var front := buf[..p];
      p := Put(buf, p, 0xFF, front);
      p := Copy(buf, p, pkt.payload, front + [0xFF]);
      assert front + [0xFF] + pkt.payload == front + ([0xFF] + pkt.payload);
    } else {
      assert buf[..p] + [] == buf[..p];
    }
    r := Ok(p);
  }

  /** A packet written to a buffer and read again from it. */
  method BuildThenParse(buf: array<byte>, pkt: Packet) returns (m: Message)
    requires WfPacket(pkt) && AllShort(pkt.opts) && |Build(pkt)| <= buf.Length
    modifies buf
    ensures |Build(pkt)| <= buf.Length && Faithful(buf[..|Build(pkt)|], m, pkt)
  {
    hide Build, Parse, Faithful, OptionsBytes, AllShort;
    FrontFits(pkt);
    var r := CoapBuild(buf, pkt);
    ParseBuild(pkt);
    var back := CoapParse(buf[..r.value]);
    m := back.value;
  }

  lemma FrontFits(pkt: Packet)
    requires InOrder(pkt.opts, 0)
    ensures |Front(pkt)| <= |Build(pkt)| && 4 <= |Build(pkt)| && (|pkt.tok| == pkt.hdr.tkl ==> 4 + pkt.hdr.tkl <= |Build(pkt)|)
  {
    hide OptionsBytes;
  }
}
