/** CoAP messages (RFC 7252, sections 3 and 3.1) as coap.c reads and writes them. */
module Coap {
  import opened Wire

  const MAXOPT: nat := 16

  datatype Error = HeaderTooShort | VersionNot1 | TokenTooShort | OptionTooShortForHeader | OptionOverrunsPacket
                 | OptionTooBig | OptionLenInvalid | BufferTooSmall | Unsupported | OptionDeltaInvalid

  datatype Result<T> = Err(error: Error) | Ok(value: T)

  datatype Header = Header(ver: byte, t: byte, tkl: byte, code: byte, id0: byte, id1: byte)

  datatype Option = Option(num: byte, value: seq<byte>)

  datatype Packet = Packet(hdr: Header, tok: seq<byte>, opts: seq<Option>, payload: seq<byte>)

  // ----- writing -----

  /** coap_option_nibble, for values it has a nibble for. */
  function Nibble(value: nat): (n: byte)
    requires value <= 0xFFFF + 269
    ensures n <= 14
  {
    if value < 13 then value else if value <= 0xFF + 13 then 13 else 14
  }

  /** The extended delta: nothing, one byte, or two bytes less 269. */
  function DeltaBytes(delta: nat): seq<byte>
    requires delta <= 0xFFFF + 269
  {
    if Nibble(delta) == 13 then [delta - 13]
    else if Nibble(delta) == 14 then [(delta - 269) / 256, (delta - 269) % 256]
    else []
  }

  /** The extended length: its high byte is taken before 269 is subtracted, its low byte after. */
  function LenBytes(len: nat): seq<byte>
    requires len <= 0xFFFF + 269
  {
    if Nibble(len) == 13 then [len - 13]
    else if Nibble(len) == 14 then [len / 256 % 256, (len - 269) % 256]
    else []
  }

  function OptionHead(delta: nat, len: nat): (h: seq<byte>)
    requires delta <= 0xFFFF + 269 && len <= 0xFFFF + 269
    ensures 1 <= |h| <= 5
  {
    [Nibble(delta) * 16 + Nibble(len)] + DeltaBytes(delta) + LenBytes(len)
  }

  /** Options in the order of their numbers, from a number on. */
  predicate InOrder(opts: seq<Option>, from: nat) {
    opts == [] || (from <= opts[0].num && |opts[0].value| <= 0xFFFF + 269 && InOrder(opts[1..], opts[0].num))
  }

  function OptionsBytes(opts: seq<Option>, from: nat): seq<byte>
    requires InOrder(opts, from)
  {
    if opts == [] then []
    else OptionHead(opts[0].num - from, |opts[0].value|) + opts[0].value + OptionsBytes(opts[1..], opts[0].num)
  }

  function HeaderBytes(h: Header): (b: seq<byte>)
    ensures |b| == 4
  {
    [h.ver % 4 * 64 + h.t % 4 * 16 + h.tkl % 16, h.code, h.id0, h.id1]
  }

  function PayloadBytes(payload: seq<byte>): seq<byte> {
    if payload == [] then [] else [0xFF] + payload
  }

  /** Without a token length the token is ignored. */
  function TokenBytes(pkt: Packet): seq<byte> {
    if pkt.hdr.tkl == 0 then [] else pkt.tok
  }

  function Build(pkt: Packet): seq<byte>
    requires InOrder(pkt.opts, 0)
  {
    HeaderBytes(pkt.hdr) + TokenBytes(pkt) + OptionsBytes(pkt.opts, 0) + PayloadBytes(pkt.payload)
  }

  // ----- reading -----

  datatype OptionSlice = OptionSlice(num: byte, buf: Slice)

  datatype Message = Message(hdr: Header, tok: Slice, opts: seq<OptionSlice>, payload: Slice)

  function ParseHeader(b: seq<byte>): Result<Header> {
    if |b| < 4 then Err(HeaderTooShort)
    else if b[0] / 64 != 1 then Err(VersionNot1)
    else Ok(Header(b[0] / 64, b[0] / 16 % 4, b[0] % 16, b[1], b[2], b[3]))
  }

  function ParseToken(h: Header, b: seq<byte>): Result<Slice> {
    if h.tkl == 0 then Ok(Slice(0, 0))
    else if h.tkl <= 8 then if 4 + h.tkl > |b| then Err(TokenTooShort) else Ok(Slice(4, h.tkl))
    else Err(TokenTooShort)
  }

  /** An extended field behind position p: its value in 16 bits and the position of its last byte. */
  function Extended(b: seq<byte>, p: nat, nibble: nat, invalid: Error): (r: Result<(nat, nat)>)
    requires p < |b|
    ensures r.Ok? ==> p <= r.value.1 <= p + 2 && r.value.1 < |b| && r.value.0 < 0x1_0000
  {
    if nibble == 13 then if p + 1 >= |b| then Err(OptionTooShortForHeader) else Ok((b[p + 1] as int + 13, p + 1))
    else if nibble == 14 then
      if p + 2 >= |b| then Err(OptionTooShortForHeader) else Ok(((b[p + 1] as int * 256 + b[p + 2] as int + 269) % 0x1_0000, p + 2))
    else if nibble >= 15 then Err(invalid)
    else Ok((nibble, p))
  }

  /** One option at p: it, the running delta behind it, and the position behind it. */
  function ParseOption(b: seq<byte>, p: nat, running: nat): (r: Result<(OptionSlice, nat, nat)>)
    requires p < |b|
    ensures r.Ok? ==> var (o, d, q) := r.value;
            p < o.buf.at && o.buf.at + o.buf.len == q <= |b| && d < 0x1_0000
  {
    var d := Extended(b, p, b[p] / 16, OptionDeltaInvalid);
    if d.Err? then Err(d.error)
    else
      var l := Extended(b, d.value.1, b[p] % 16, OptionLenInvalid);
      if l.Err? then Err(l.error)
      else
        var (delta, _) := d.value;
        var (len, last) := l.value;
        if last + 1 + len > |b| then Err(OptionTooBig)
        else Ok((OptionSlice((delta + running) % 256, Slice(last + 1, len)), (running + delta) % 0x1_0000, last + 1 + len))
  }

  /** At most n options, up to the payload marker or the end. */
  function ParseOptions(b: seq<byte>, p: nat, running: nat, n: nat): (r: Result<(seq<OptionSlice>, nat)>)
    requires p <= |b|
    ensures r.Ok? ==> |r.value.0| <= n && p <= r.value.1 <= |b|
    decreases n
  {
    if n == 0 || p == |b| || b[p] == 0xFF then Ok(([], p))
    else
      var o := ParseOption(b, p, running);
      if o.Err? then Err(o.error)
      else
        var rest := ParseOptions(b, o.value.2, o.value.1, n - 1);
        if rest.Err? then Err(rest.error) else Ok(([o.value.0] + rest.value.0, rest.value.1))
  }

  function ParsePayload(b: seq<byte>, p: nat): Slice {
    if p + 1 < |b| && b[p] == 0xFF then Slice(p + 1, |b| - (p + 1)) else Slice(0, 0)
  }

  function Parse(b: seq<byte>): Result<Message> {
    var h := ParseHeader(b);
    if h.Err? then Err(h.error)
    else
      var tok := ParseToken(h.value, b);
      if tok.Err? then Err(tok.error)
      else if 4 + h.value.tkl > |b| then Err(OptionOverrunsPacket)
      else
        var o := ParseOptions(b, 4 + h.value.tkl, 0, MAXOPT);
        if o.Err? then Err(o.error) else Ok(Message(h.value, tok.value, o.value.0, ParsePayload(b, o.value.1)))
  }

  // ----- what a successful parse of any bytes yields -----

  /** The options lie one behind the other from p to q, each behind its own head. */
  predicate Consecutive(opts: seq<OptionSlice>, p: nat, q: nat) {
    if opts == [] then p == q
    else p < opts[0].buf.at && Consecutive(opts[1..], opts[0].buf.at + opts[0].buf.len, q)
  }

  lemma {:induction false} OptionsConsecutive(b: seq<byte>, p: nat, running: nat, n: nat)
    requires p <= |b| && ParseOptions(b, p, running, n).Ok?
    ensures var (opts, q) := ParseOptions(b, p, running, n).value; Consecutive(opts, p, q)
    decreases n
  {
    if !(n == 0 || p == |b| || b[p] == 0xFF) {
      var (o, d, q) := ParseOption(b, p, running).value;
      OptionsConsecutive(b, q, d, n - 1);
      var opts := ParseOptions(b, p, running, n).value.0;
      assert opts[1..] == ParseOptions(b, q, d, n - 1).value.0;
    }
  }

  /** Token, options and payload are slices of the message, in order and without overlap; q is
      where the options end. */
  lemma ParseInside(b: seq<byte>) returns (q: nat)
    requires Parse(b).Ok?
    ensures var m := Parse(b).value;
            && m.hdr.ver == 1 && m.hdr.tkl <= 8 && |m.opts| <= MAXOPT
            && m.tok == (if m.hdr.tkl == 0 then Slice(0, 0) else Slice(4, m.hdr.tkl)) && 4 + m.hdr.tkl <= |b|
            && q <= |b| && Consecutive(m.opts, 4 + m.hdr.tkl, q)
            && (m.payload == Slice(0, 0) || (m.payload.at == q + 1 && m.payload.at + m.payload.len == |b| && m.payload.len > 0))
  {
    hide ParseOptions, Consecutive;
    var h := ParseHeader(b).value;
    OptionsConsecutive(b, 4 + h.tkl, 0, MAXOPT);
    q := ParseOptions(b, 4 + h.tkl, 0, MAXOPT).value.1;
  }

  // ----- reading what was written -----

  /** The length that is read where `len` was written. */
  function ReadLen(len: nat): nat
    requires len <= 0xFFFF + 269
  {
    if len <= 0xFF + 13 then len else (len / 256 % 256 * 256 + (len - 269) % 256 + 269) % 0x1_0000
  }

  lemma ReadLenRight(len: nat)
    requires len <= 0xFFFF + 269
    ensures ReadLen(len) == len <==> len <= 268
  {
    if len > 268 {
      var q, r := (len - 269) / 256, (len - 269) % 256;
      assert len == 256 * (q + 1) + (r + 13);
      if len < 0x1_0000 {
        assert len / 256 % 256 == len / 256;
        assert len / 256 == if r + 13 < 256 then q + 1 else q + 2;
      }
    }
  }

  lemma ReadDelta(b: seq<byte>, p: nat, delta: nat)
    requires delta < 256 && p < |b| && Has(b, p + 1, DeltaBytes(delta))
    ensures Extended(b, p, Nibble(delta), OptionDeltaInvalid) == Ok((delta, p + |DeltaBytes(delta)|))
  {
    if Nibble(delta) == 13 {
      assert b[p + 1 + 0] == DeltaBytes(delta)[0];
    }
  }

  lemma ReadLength(b: seq<byte>, p: nat, len: nat)
    requires len <= 0xFFFF + 269 && p < |b| && Has(b, p + 1, LenBytes(len))
    ensures Extended(b, p, Nibble(len), OptionLenInvalid) == Ok((ReadLen(len), p + |LenBytes(len)|))
  {
    var w := LenBytes(len);
    if Nibble(len) == 13 {
      assert b[p + 1 + 0] == w[0];
    } else if Nibble(len) == 14 {
      assert b[p + 1 + 0] == w[0] && b[p + 1 + 1] == w[1];
    }
  }

  /** What is read of an option whose value starts at `at`. */
  function AsRead(b: seq<byte>, at: nat, o: Option): Result<(OptionSlice, nat, nat)>
    requires |o.value| <= 0xFFFF + 269
  {
    var len := ReadLen(|o.value|);
    var num: nat := o.num;
    if at + len > |b| then Err(OptionTooBig) else Ok((OptionSlice(o.num, Slice(at, len)), num, at + len))
  }

  lemma HeadParts(b: seq<byte>, p: nat, delta: nat, len: nat)
    requires delta < 256 && len <= 0xFFFF + 269 && Has(b, p, OptionHead(delta, len))
    ensures p < |b| && b[p] / 16 == Nibble(delta) && b[p] % 16 == Nibble(len) && b[p] != 0xFF
    ensures Has(b, p + 1, DeltaBytes(delta)) && Has(b, p + 1 + |DeltaBytes(delta)|, LenBytes(len))
    ensures |OptionHead(delta, len)| == 1 + |DeltaBytes(delta)| + |LenBytes(len)|
  {
    var head := [Nibble(delta) * 16 + Nibble(len)];
    HasSplit(b, p, head + DeltaBytes(delta), LenBytes(len));
    HasSplit(b, p, head, DeltaBytes(delta));
    assert b[p + 0] == head[0];
    hide Has, DeltaBytes, LenBytes;
  }

  /** An option whose two fields have been read. */
  lemma AssembleOption(b: seq<byte>, p: nat, from: nat, o: Option, q: nat, last: nat)
    requires p < |b| && from <= o.num && |o.value| <= 0xFFFF + 269 && q < |b|
    requires Extended(b, p, b[p] / 16, OptionDeltaInvalid) == Ok((o.num - from, q))
    requires Extended(b, q, b[p] % 16, OptionLenInvalid) == Ok((ReadLen(|o.value|), last))
    ensures ParseOption(b, p, from) == AsRead(b, last + 1, o)
  {
    hide Extended, ReadLen;
  }

  /** One option, read where it was written behind the number `from`. */
  lemma ReadOption(b: seq<byte>, p: nat, from: nat, o: Option)
    requires from <= o.num && |o.value| <= 0xFFFF + 269
    requires Has(b, p, OptionHead(o.num - from, |o.value|) + o.value)
    ensures p < |b| && b[p] != 0xFF && Has(b, p + |OptionHead(o.num - from, |o.value|)|, o.value)
    ensures ParseOption(b, p, from) == AsRead(b, p + |OptionHead(o.num - from, |o.value|)|, o)
  {
    hide *;
    var delta, len := o.num - from, |o.value|;
    HasSplit(b, p, OptionHead(delta, len), o.value);
    HeadParts(b, p, delta, len);
    var q := p + |DeltaBytes(delta)|;
    ReadDelta(b, p, delta);
    ReadLength(b, q, len);
    AssembleOption(b, p, from, o, q, q + |LenBytes(len)|);
  }

  predicate ReadsOption(b: seq<byte>, s: OptionSlice, o: Option) {
    s.num == o.num && Inside(b, s.buf) && Bytes(b, s.buf) == o.value
  }

  /** The slices hold the options. */
  predicate Reads(b: seq<byte>, os: seq<OptionSlice>, opts: seq<Option>) {
    |os| == |opts| && forall i | 0 <= i < |os| :: ReadsOption(b, os[i], opts[i])
  }

  predicate AllShort(opts: seq<Option>) {
    forall i | 0 <= i < |opts| :: |opts[i].value| <= 268
  }

  lemma ReadsMore(b: seq<byte>, s: OptionSlice, os: seq<OptionSlice>, opts: seq<Option>)
    requires opts != []
    ensures Reads(b, [s] + os, opts) <==> ReadsOption(b, s, opts[0]) && Reads(b, os, opts[1..])
  {
    hide ReadsOption;
    var all := [s] + os;
    if ReadsOption(b, s, opts[0]) && Reads(b, os, opts[1..]) {
      forall i | 0 <= i < |all|
        ensures ReadsOption(b, all[i], opts[i])
      {
        assert i > 0 ==> all[i] == os[i - 1] && opts[i] == opts[1..][i - 1];
      }
    }
    if Reads(b, all, opts) {
      assert all[0] == s;
      forall i | 0 <= i < |os|
        ensures ReadsOption(b, os[i], opts[1..][i])
      {
        assert os[i] == all[i + 1] && opts[1..][i] == opts[i + 1];
      }
    }
  }

  lemma OptionsUnfold(opts: seq<Option>, from: nat)
    requires opts != [] && InOrder(opts, from)
    ensures from <= opts[0].num && |opts[0].value| <= 0xFFFF + 269 && InOrder(opts[1..], opts[0].num)
    ensures OptionsBytes(opts, from)
            == OptionHead(opts[0].num - from, |opts[0].value|) + opts[0].value + OptionsBytes(opts[1..], opts[0].num)
    ensures AllShort(opts) <==> |opts[0].value| <= 268 && AllShort(opts[1..])
  {
    hide OptionHead;
    assert opts == [opts[0]] + opts[1..];
  }

  lemma NoOptionBytes(from: nat)
    ensures InOrder([], from) && OptionsBytes([], from) == []
  {
  }

  lemma NothingToRead(b: seq<byte>, p: nat, from: nat, n: nat)
    requires p <= |b| && (p == |b| || b[p] == 0xFF)
    ensures ParseOptions(b, p, from, n) == Ok(([], p)) && OptionsBytes([], from) == [] && Reads(b, [], []) && AllShort([])
  {
  }

  lemma ParseOneMore(b: seq<byte>, p: nat, from: nat, n: nat)
    requires p < |b| && b[p] != 0xFF && n > 0
    ensures var o := ParseOption(b, p, from);
            ParseOptions(b, p, from, n) ==
            if o.Err? then Err(o.error)
            else
              var rest := ParseOptions(b, o.value.2, o.value.1, n - 1);
              if rest.Err? then Err(rest.error) else Ok(([o.value.0] + rest.value.0, rest.value.1))
  {
    hide ParseOption;
  }

  lemma SliceRead(b: seq<byte>, at: nat, o: Option)
    requires |o.value| <= 0xFFFF + 269 && Has(b, at, o.value)
    ensures var r := AsRead(b, at, o);
            && (|o.value| <= 268 ==> r.Ok? && ReadsOption(b, r.value.0, o) && r.value.1 == o.num && r.value.2 == at + |o.value|)
            && (|o.value| > 268 && r.Ok? ==> !ReadsOption(b, r.value.0, o))
  {
    hide ReadLen;
    ReadLenRight(|o.value|);
    HasSlice(b, at, o.value);
  }

  /** The first of the written options, and where the others are. */
  lemma FirstRead(b: seq<byte>, p: nat, opts: seq<Option>, from: nat) returns (next: nat)
    requires opts != [] && InOrder(opts, from) && Has(b, p, OptionsBytes(opts, from))
    ensures InOrder(opts[1..], opts[0].num) && Has(b, next, OptionsBytes(opts[1..], opts[0].num))
    ensures next + |OptionsBytes(opts[1..], opts[0].num)| == p + |OptionsBytes(opts, from)|
    ensures p < |b| && b[p] != 0xFF
    ensures var r := ParseOption(b, p, from);
            && (|opts[0].value| <= 268 ==>
                  r.Ok? && ReadsOption(b, r.value.0, opts[0]) && r.value.1 == opts[0].num && r.value.2 == next)
            && (|opts[0].value| > 268 && r.Ok? ==> !ReadsOption(b, r.value.0, opts[0]))
  {
    hide *;
    var o := opts[0];
    OptionsUnfold(opts, from);
    var head := OptionHead(o.num - from, |o.value|);
    HasSplit(b, p, head + o.value, OptionsBytes(opts[1..], o.num));
    ReadOption(b, p, from, o);
    SliceRead(b, p + |head|, o);
    next := p + |head| + |o.value|;
  }

  /** Written options with values of at most 268 bytes are read back. */
  lemma {:induction false} OptionsRead(b: seq<byte>, p: nat, opts: seq<Option>, from: nat, n: nat)
    requires InOrder(opts, from) && AllShort(opts) && |opts| <= n && Has(b, p, OptionsBytes(opts, from))
    requires var q := p + |OptionsBytes(opts, from)|; q <= |b| && (q == |b| || b[q] == 0xFF)
    ensures var r := ParseOptions(b, p, from, n);
            r.Ok? && Reads(b, r.value.0, opts) && r.value.1 == p + |OptionsBytes(opts, from)|
    decreases |opts|
  {
    hide *;
    if opts == [] {
      NoOptionBytes(from);
      NothingToRead(b, p, from, n);
    } else {
      OptionsUnfold(opts, from);
      var next := FirstRead(b, p, opts, from);
      OptionsRead(b, next, opts[1..], opts[0].num, n - 1);
      ParseOneMore(b, p, from, n);
      ReadsMore(b, ParseOption(b, p, from).value.0, ParseOptions(b, next, opts[0].num, n - 1).value.0, opts);
    }
  }

  /** With a longer value among them they are not. */
  lemma {:induction false} OptionsMisread(b: seq<byte>, p: nat, opts: seq<Option>, from: nat, n: nat)
    requires InOrder(opts, from) && !AllShort(opts) && |opts| <= n && Has(b, p, OptionsBytes(opts, from))
    ensures p <= |b|
    ensures var r := ParseOptions(b, p, from, n); r.Ok? ==> !Reads(b, r.value.0, opts)
    decreases |opts|
  {
    hide *;
    NothingToRead(b, |b|, from, n);
    OptionsUnfold(opts, from);
    var next := FirstRead(b, p, opts, from);
    ParseOneMore(b, p, from, n);
    var r := ParseOption(b, p, from);
    if r.Ok? {
      var rest := ParseOptions(b, r.value.2, r.value.1, n - 1);
      if |opts[0].value| <= 268 {
        OptionsMisread(b, next, opts[1..], opts[0].num, n - 1);
      }
      if rest.Ok? {
        ReadsMore(b, r.value.0, rest.value.0, opts);
      }
    }
  }

  // ----- whole packets -----

  predicate WfPacket(pkt: Packet) {
    && pkt.hdr.ver == 1 && pkt.hdr.t < 4 && pkt.hdr.tkl == |pkt.tok| <= 8
    && |pkt.opts| <= MAXOPT && InOrder(pkt.opts, 0)
  }

  /** The parsed message has the header and the bytes of the packet. */
  predicate Faithful(b: seq<byte>, m: Message, pkt: Packet) {
    && m.hdr == pkt.hdr && Inside(b, m.tok) && Bytes(b, m.tok) == pkt.tok
    && Reads(b, m.opts, pkt.opts) && Inside(b, m.payload) && Bytes(b, m.payload) == pkt.payload
  }

  lemma BuildParts(pkt: Packet)
    requires WfPacket(pkt)
    ensures var b := Build(pkt);
            var p := 4 + |pkt.tok|;
            var q := p + |OptionsBytes(pkt.opts, 0)|;
            && Has(b, 0, HeaderBytes(pkt.hdr)) && Has(b, 4, pkt.tok) && Has(b, p, OptionsBytes(pkt.opts, 0))
            && Has(b, q, PayloadBytes(pkt.payload)) && q + |PayloadBytes(pkt.payload)| == |b|
  {
    hide HeaderBytes, OptionsBytes, PayloadBytes, InOrder;
    assert TokenBytes(pkt) == pkt.tok;
    var b := Build(pkt);
    assert Has(b, 0, b);
    HasSplit(b, 0, HeaderBytes(pkt.hdr) + pkt.tok + OptionsBytes(pkt.opts, 0), PayloadBytes(pkt.payload));
    HasSplit(b, 0, HeaderBytes(pkt.hdr) + pkt.tok, OptionsBytes(pkt.opts, 0));
    HasSplit(b, 0, HeaderBytes(pkt.hdr), pkt.tok);
  }

  lemma HeaderRead(b: seq<byte>, h: Header)
    requires Has(b, 0, HeaderBytes(h)) && h.ver == 1 && h.t < 4 && h.tkl < 16
    ensures ParseHeader(b) == Ok(h)
  {
    var w := HeaderBytes(h);
    assert b[0 + 0] == w[0] && b[0 + 1] == w[1] && b[0 + 2] == w[2] && b[0 + 3] == w[3];
  }

  lemma PayloadRead(b: seq<byte>, q: nat, payload: seq<byte>)
    requires Has(b, q, PayloadBytes(payload)) && q + |PayloadBytes(payload)| == |b|
    ensures q <= |b| && (q == |b| || b[q] == 0xFF)
    ensures var s := ParsePayload(b, q); Inside(b, s) && Bytes(b, s) == payload
  {
    if payload != [] {
      HasSplit(b, q, [0xFF], payload);
      assert b[q + 0] == [0xFF][0];
      HasSlice(b, q + 1, payload);
    }
  }

  /** coap_parse undoes coap_build if and only if no option value is longer than 268 bytes. */
  lemma ParseBuild(pkt: Packet)
    requires WfPacket(pkt)
    ensures var b := Build(pkt);
            var r := Parse(b);
            r.Ok? && Faithful(b, r.value, pkt) <==> AllShort(pkt.opts)
  {
    hide Build, HeaderBytes, OptionsBytes, PayloadBytes, ParseHeader, ParseOptions, ParsePayload, InOrder, Has, AllShort, Reads;
    var b := Build(pkt);
    var p := 4 + |pkt.tok|;
    BuildParts(pkt);
    HeaderRead(b, pkt.hdr);
    PayloadRead(b, p + |OptionsBytes(pkt.opts, 0)|, pkt.payload);
    HasSlice(b, 4, pkt.tok);
    if AllShort(pkt.opts) {
      OptionsRead(b, p, pkt.opts, 0, MAXOPT);
    } else {
      OptionsMisread(b, p, pkt.opts, 0, MAXOPT);
    }
  }
}
