/** Deserializing MQTT packets: what comes back of what was serialized. */
module MqttDecode {
  import opened Wire
  import opened Mqtt

  /** A return code, or what was stored through the out parameters with return code 1. */
  datatype Reply<T> = Rc(rc: int) | Done(value: T)

  /** The buffer holds one packet of the length that its remaining length field, which ends with a
      byte below 128, says. */
  predicate Complete(b: seq<byte>) {
    && |b| > 0
    && var d := DecodeLen(b, 1);
       d.count <= 4 && d.next + d.value == |b| && 1 < d.next && b[d.next - 1] < 128
  }

  /** Bytes behind the packet, which some readers do not exclude, are read as 0 here. */
  function At(b: seq<byte>, p: nat): nat {
    if p < |b| then b[p] else 0
  }

  function ReadInt(b: seq<byte>, p: nat): nat {
    256 * At(b, p) + At(b, p + 1)
  }

  /** readMQTTLenString: the string and the position behind it. */
  function ReadString(b: seq<byte>, p: nat): Maybe<(Slice, nat)> {
    if p + 1 < |b| then
      var len := ReadInt(b, p);
      if p + 2 + len <= |b| then Some((Slice(p + 2, len), p + 2 + len)) else None
    else None
  }

  datatype Published = Published(dup: nat, qos: nat, retained: nat, id: Maybe<nat>, topic: Slice, payload: nat, payloadlen: int)

  function DeserializePublish(b: seq<byte>): Reply<Published>
    requires Complete(b)
  {
    if b[0] / 16 != PUBLISH then Rc(0)
    else
      var d := DecodeLen(b, 1);
      var qos := b[0] / 2 % 4;
      match ReadString(b, d.next)
      case None => Rc(d.count)
      case Some((topic, cur)) =>
        var id := if qos > 0 then Some(ReadInt(b, cur)) else None;
        var data := if qos > 0 then cur + 2 else cur;
        Done(Published(b[0] / 8 % 2, qos, b[0] % 2, id, topic, data, |b| - data))
  }

  /** A plain char is signed. */
  function Signed(x: byte): int {
    if x < 128 then x else x - 256
  }

  function ReadFilters(b: seq<byte>, p: nat): Maybe<seq<(Slice, int)>>
    decreases |b| - p
  {
    if p >= |b| then Some([])
    else
      match ReadString(b, p)
      case None => None
      case Some((topic, cur)) =>
        if cur >= |b| then None
        else
          match ReadFilters(b, cur + 1)
          case None => None
          case Some(rest) => Some([(topic, Signed(b[cur]))] + rest)
  }

  datatype Subscribed = Subscribed(dup: nat, id: nat, filters: seq<(Slice, int)>)

  function DeserializeSubscribe(b: seq<byte>): Reply<Subscribed>
    requires Complete(b)
  {
    if b[0] / 16 != SUBSCRIBE then Rc(-1)
    else
      var d := DecodeLen(b, 1);
      match ReadFilters(b, d.next + 2)
      case None => Rc(d.count)
      case Some(filters) => Done(Subscribed(b[0] / 8 % 2, ReadInt(b, d.next), filters))
  }

  datatype Acked = Acked(kind: nat, dup: nat, id: nat)

  function DeserializeAck(b: seq<byte>): Reply<Acked>
    requires Complete(b)
  {
    var d := DecodeLen(b, 1);
    if |b| - d.next < 2 then Rc(d.count) else Done(Acked(b[0] / 16, b[0] / 8 % 2, ReadInt(b, d.next)))
  }

  // ----- the parts -----

  lemma Digit2(high: nat, low: nat)
    requires low < 2
    ensures (high * 2 + low) / 2 == high && (high * 2 + low) % 2 == low
  {
  }

  lemma Digit4(high: nat, low: nat)
    requires low < 4
    ensures (high * 4 + low) / 4 == high && (high * 4 + low) % 4 == low
  {
  }

  lemma Shifts(h: nat)
    ensures h / 8 == h / 2 / 4 && h / 16 == h / 2 / 4 / 2
  {
  }

  lemma HeaderBits(kind: nat, dup: bool, qos: nat, retained: bool)
    requires kind < 16 && qos < 4
    ensures var h := HeaderByte(kind, dup, qos, retained);
            h / 16 == kind && h / 8 % 2 == Flag(dup) && h / 2 % 4 == qos && h % 2 == Flag(retained)
  {
    var h := HeaderByte(kind, dup, qos, retained);
    var high := kind * 2 + Flag(dup);
    assert h == (high * 4 + qos) * 2 + Flag(retained);
    hide HeaderByte;
    Shifts(h);
    Digit2(high * 4 + qos, Flag(retained));
    Digit4(high, qos);
    Digit2(kind, Flag(dup));
  }

  lemma IntRead(b: seq<byte>, p: nat, n: nat)
    requires n < 0x1_0000 && Has(b, p, IntBytes(n))
    ensures ReadInt(b, p) == n
  {
    var w := IntBytes(n);
    assert b[p + 0] == w[0] && b[p + 1] == w[1];
  }

  lemma StringRead(b: seq<byte>, p: nat, w: seq<byte>)
    requires |w| < 0x1_0000 && Has(b, p, StringBytes(w))
    ensures ReadString(b, p) == Some((Slice(p + 2, |w|), p + 2 + |w|))
    ensures Inside(b, Slice(p + 2, |w|)) && Bytes(b, Slice(p + 2, |w|)) == w
  {
    HasSplit(b, p, IntBytes(|w|), w);
    IntRead(b, p, |w|);
    HasSlice(b, p + 2, w);
    hide IntBytes, ReadInt;
  }

  lemma FrameBytes(p: Packet)
    requires WfPacket(p)
    ensures var b := Serialize(p);
            var enc := EncodeLen(RemLength(p));
            && |b| == 1 + |enc| + RemLength(p) && RemLength(p) == |Body(p)| <= MAX_LENGTH
            && b[0] == Header(p) && Has(b, 1, enc) && Has(b, 1 + |enc|, Body(p))
  {
    hide Header, Body, EncodeLen, RemLength, TextsConsistent;
    var b := Serialize(p);
    var enc := EncodeLen(RemLength(p));
    Written(p);
    assert Has(b, 0, b);
    HasSplit(b, 0, [Header(p)] + enc, Body(p));
    HasSplit(b, 0, [Header(p)], enc);
    hide Has, Serialize;
    HasFirst(b, 0, Header(p));
  }

  lemma LengthComplete(b: seq<byte>, n: nat)
    requires n <= MAX_LENGTH && Has(b, 1, EncodeLen(n)) && |b| == 1 + |EncodeLen(n)| + n
    ensures Complete(b) && DecodeLen(b, 1).next == 1 + |EncodeLen(n)|
  {
    DecodeLenRight(b, 1, n);
    EncodeLenLength(n);
    LastLow(n);
    HasLast(b, 1, EncodeLen(n));
    hide Has, EncodeLen, DecodeLen;
  }

  /** Where the parts of a serialized packet are, and that it is complete. */
  lemma Frame(p: Packet) returns (at: nat)
    requires WfPacket(p)
    ensures var b := Serialize(p);
            && Complete(b) && b[0] == Header(p) && DecodeLen(b, 1).next == at
            && Has(b, at, Body(p)) && at + |Body(p)| == |b|
  {
    hide *;
    FrameBytes(p);
    LengthComplete(Serialize(p), RemLength(p));
    at := 1 + |EncodeLen(RemLength(p))|;
  }

  lemma {:induction false} LastLow(n: nat)
    ensures var e := EncodeLen(n); e[|e| - 1] < 128
  {
    if n >= 128 {
      LastLow(n / 128);
    }
  }

  lemma HasLast(b: seq<byte>, p: nat, w: seq<byte>)
    requires Has(b, p, w) && w != []
    ensures b[p + |w| - 1] == w[|w| - 1]
  {
    assert b[p + (|w| - 1)] == w[|w| - 1];
  }

  // ----- every field comes back -----

  predicate SamePublish(b: seq<byte>, v: Published, p: Packet)
    requires p.Publish?
  {
    && v.dup == Flag(p.dup) && v.qos == p.qos && v.retained == Flag(p.retained)
    && v.id == (if p.qos > 0 then Some(p.id) else None)
    && Inside(b, v.topic) && Bytes(b, v.topic) == TextBytes(p.topic)
    && v.payloadlen == |p.payload| && v.payload + |p.payload| == |b| && b[v.payload..] == p.payload
  }

  lemma PublishBody(b: seq<byte>, at: nat, p: Packet)
    requires p.Publish? && WfPacket(p) && Has(b, at, Body(p)) && at + |Body(p)| == |b|
    ensures var w := TextBytes(p.topic);
            var cur := at + 2 + |w|;
            var data := if p.qos > 0 then cur + 2 else cur;
            && ReadString(b, at) == Some((Slice(at + 2, |w|), cur)) && Inside(b, Slice(at + 2, |w|)) && Bytes(b, Slice(at + 2, |w|)) == w
            && (p.qos > 0 ==> ReadInt(b, cur) == p.id)
            && data + |p.payload| == |b| && b[data..] == p.payload
  {
    var w := TextBytes(p.topic);
    var id := if p.qos > 0 then IntBytes(p.id) else [];
    HasSplit(b, at, StringBytes(w) + id, p.payload);
    HasSplit(b, at, StringBytes(w), id);
    var cur := at + 2 + |w|;
    HasSlice(b, cur + |id|, p.payload);
    hide Has, ReadString, StringBytes, IntBytes, ReadInt;
    StringRead(b, at, w);
    if p.qos > 0 {
      IntRead(b, cur, p.id);
    }
  }

  lemma PublishBack(p: Packet)
    requires p.Publish? && WfPacket(p)
    ensures var b := Serialize(p);
            Complete(b) && DeserializePublish(b).Done? && SamePublish(b, DeserializePublish(b).value, p)
  {
    hide *;
    PublishHeader(p);
    var at := Frame(p);
    PublishBody(Serialize(p), at, p);
    PublishAssemble(Serialize(p), at, p);
  }

  lemma PublishHeader(p: Packet)
    requires p.Publish? && WfPacket(p)
    ensures var h := Header(p);
            h / 16 == PUBLISH && h / 8 % 2 == Flag(p.dup) && h / 2 % 4 == p.qos && h % 2 == Flag(p.retained)
  {
    hide HeaderByte;
    HeaderBits(PUBLISH, p.dup, p.qos, p.retained);
  }

  lemma PublishAssemble(b: seq<byte>, at: nat, p: Packet)
    requires p.Publish? && Complete(b) && DecodeLen(b, 1).next == at
    requires b[0] / 16 == PUBLISH && b[0] / 8 % 2 == Flag(p.dup) && b[0] / 2 % 4 == p.qos && b[0] % 2 == Flag(p.retained)
    requires var w := TextBytes(p.topic);
             var cur := at + 2 + |w|;
             var data := if p.qos > 0 then cur + 2 else cur;
             && ReadString(b, at) == Some((Slice(at + 2, |w|), cur)) && Inside(b, Slice(at + 2, |w|)) && Bytes(b, Slice(at + 2, |w|)) == w
             && (p.qos > 0 ==> ReadInt(b, cur) == p.id)
             && data + |p.payload| == |b| && b[data..] == p.payload
    ensures DeserializePublish(b).Done? && SamePublish(b, DeserializePublish(b).value, p)
  {
    hide Complete, DecodeLen, ReadString, ReadInt, TextBytes, Bytes;
  }

  predicate SameFilter(b: seq<byte>, v: (Slice, int), f: Filter) {
    Inside(b, v.0) && Bytes(b, v.0) == TextBytes(f.topic) && v.1 == f.qos
  }

  predicate SameFilters(b: seq<byte>, vs: seq<(Slice, int)>, fs: seq<Filter>) {
    |vs| == |fs| && forall i | 0 <= i < |fs| :: SameFilter(b, vs[i], fs[i])
  }

  lemma SameMore(b: seq<byte>, v: (Slice, int), vs: seq<(Slice, int)>, fs: seq<Filter>)
    requires fs != [] && SameFilter(b, v, fs[0]) && SameFilters(b, vs, fs[1..])
    ensures SameFilters(b, [v] + vs, fs)
  {
    hide SameFilter;
    var all := [v] + vs;
    forall i | 0 <= i < |fs|
      ensures SameFilter(b, all[i], fs[i])
    {
      assert i > 0 ==> all[i] == vs[i - 1] && fs[i] == fs[1..][i - 1];
    }
  }

  /** The first filter, and where the others are. */
  lemma FirstFilter(b: seq<byte>, p: nat, fs: seq<Filter>) returns (next: nat)
    requires fs != [] && FiltersFit(fs) && Has(b, p, FiltersBytes(fs)) && p + |FiltersBytes(fs)| == |b|
    ensures FiltersFit(fs[1..]) && Has(b, next, FiltersBytes(fs[1..])) && next + |FiltersBytes(fs[1..])| == |b|
    ensures p < next && p < |b|
    ensures var w := TextBytes(fs[0].topic);
            var v := (Slice(p + 2, |w|), Signed(fs[0].qos));
            && ReadString(b, p).Some? && ReadString(b, p).value.0 == v.0 && ReadString(b, p).value.1 == next - 1
            && next <= |b| && b[next - 1] == fs[0].qos
            && SameFilter(b, v, fs[0])
  {
    var w, q := TextBytes(fs[0].topic), fs[0].qos;
    HasSplit(b, p, StringBytes(w) + [q], FiltersBytes(fs[1..]));
    HasSplit(b, p, StringBytes(w), [q]);
    hide Has, ReadString, StringBytes;
    StringRead(b, p, w);
    HasFirst(b, p + 2 + |w|, q);
    next := p + 2 + |w| + 1;
  }

  lemma {:induction false} FiltersRead(b: seq<byte>, p: nat, fs: seq<Filter>)
    requires FiltersFit(fs) && Has(b, p, FiltersBytes(fs)) && p + |FiltersBytes(fs)| == |b|
    ensures var r := ReadFilters(b, p); r.Some? && SameFilters(b, r.value, fs)
    decreases |fs|
  {
    hide *;
    if fs == [] {
      NoFilters(b);
    } else {
      var next := FirstFilter(b, p, fs);
      FiltersRead(b, next, fs[1..]);
      ReadFilter(b, p, next);
      SameMore(b, (ReadString(b, p).value.0, Signed(b[next - 1])), ReadFilters(b, next).value, fs);
    }
  }

  lemma NoFilters(b: seq<byte>)
    ensures FiltersBytes([]) == [] && ReadFilters(b, |b|) == Some([]) && SameFilters(b, [], [])
  {
  }

  lemma ReadFilter(b: seq<byte>, p: nat, next: nat)
    requires p < |b| && p < next <= |b| && ReadString(b, p).Some? && ReadString(b, p).value.1 == next - 1 && ReadFilters(b, next).Some?
    ensures ReadFilters(b, p) == Some([(ReadString(b, p).value.0, Signed(b[next - 1]))] + ReadFilters(b, next).value)
  {
    hide ReadString;
  }

  lemma SubscribeBack(p: Packet)
    requires p.Subscribe? && WfPacket(p)
    ensures var b := Serialize(p);
            && Complete(b) && DeserializeSubscribe(b).Done?
            && var v := DeserializeSubscribe(b).value;
               v.dup == Flag(p.dup) && v.id == p.id && SameFilters(b, v.filters, p.filters)
  {
    hide *;
    SubscribeParts(p);
    var at := Frame(p);
    var b := Serialize(p);
    HasSplit(b, at, IntBytes(p.id), FiltersBytes(p.filters));
    IntRead(b, at, p.id);
    FiltersRead(b, at + 2, p.filters);
    SubscribeAssemble(b, at, p);
  }

  lemma SubscribeParts(p: Packet)
    requires p.Subscribe? && WfPacket(p)
    ensures Header(p) / 16 == SUBSCRIBE && Header(p) / 8 % 2 == Flag(p.dup)
    ensures Body(p) == IntBytes(p.id) + FiltersBytes(p.filters) && p.id < 0x1_0000 && FiltersFit(p.filters)
  {
    hide HeaderByte, FiltersBytes, IntBytes;
    HeaderBits(SUBSCRIBE, p.dup, 1, false);
  }

  lemma SubscribeAssemble(b: seq<byte>, at: nat, p: Packet)
    requires p.Subscribe? && Complete(b) && DecodeLen(b, 1).next == at && b[0] / 16 == SUBSCRIBE && b[0] / 8 % 2 == Flag(p.dup)
    requires ReadInt(b, at) == p.id && ReadFilters(b, at + 2).Some? && SameFilters(b, ReadFilters(b, at + 2).value, p.filters)
    ensures DeserializeSubscribe(b).Done?
    ensures var v := DeserializeSubscribe(b).value;
            v.dup == Flag(p.dup) && v.id == p.id && SameFilters(b, v.filters, p.filters)
  {
    hide Complete, DecodeLen, ReadInt, ReadFilters, SameFilters;
  }

  lemma AckBack(p: Packet)
    requires p.Ack? && WfPacket(p)
    ensures var b := Serialize(p); Complete(b) && DeserializeAck(b) == Done(Acked(p.kind, Flag(p.dup), p.id))
  {
    HeaderBits(p.kind, p.dup, if p.kind == PUBREL then 1 else 0, false);
    hide Has, Serialize, DecodeLen, ReadInt, HeaderByte, IntBytes;
    var at := Frame(p);
    IntRead(Serialize(p), at, p.id);
  }

  // ----- success reported without the fields -----

  /** The number of length bytes is the code that the readers return when they give up, so a length
      of one byte makes it the code for success. */
  lemma OneLengthByte(b: seq<byte>)
    requires Complete(b)
    ensures |b| >= 2 && (DecodeLen(b, 1).count == 1 <==> b[1] < 128)
    ensures b[1] < 128 ==> DecodeLen(b, 1).next == 2 && |b| == 2 + b[1]
  {
  }

  /** An acknowledgement shorter than its identifier, and no other. */
  lemma AckCode(b: seq<byte>)
    requires Complete(b)
    ensures DeserializeAck(b) == Rc(1) <==> b[1] < 2
    ensures DeserializeAck(b).Done? <==> DecodeLen(b, 1).next + 2 <= |b|
  {
    OneLengthByte(b);
    hide DecodeLen;
  }

  /** The two bytes of a string's length and as many behind them are there. */
  predicate StringWhole(b: seq<byte>, p: nat) {
    p + 2 <= |b| && p + 2 + ReadInt(b, p) <= |b|
  }

  lemma StringReadIff(b: seq<byte>, p: nat)
    ensures ReadString(b, p).Some? <==> StringWhole(b, p)
    ensures ReadString(b, p).Some? ==>
              var (s, cur) := ReadString(b, p).value;
              s == Slice(p + 2, ReadInt(b, p)) && cur == p + 2 + s.len && Inside(b, s)
  {
  }

  /** A packet that ends within its topic, and no other. */
  lemma PublishCode(b: seq<byte>)
    requires Complete(b)
    ensures DeserializePublish(b) == Rc(1) <==> b[0] / 16 == PUBLISH && b[1] < 128 && !StringWhole(b, 2)
    ensures DeserializePublish(b).Done? <==> b[0] / 16 == PUBLISH && StringWhole(b, DecodeLen(b, 1).next)
  {
    OneLengthByte(b);
    StringReadIff(b, DecodeLen(b, 1).next);
    hide DecodeLen, ReadString, StringWhole;
  }

  /** Where a successful reading leaves topic and payload: the topic is in the buffer, and the payload
      is the rest of it, unless there was no room for the identifier that a QoS above 0 brings. */
  lemma PublishInside(b: seq<byte>)
    requires Complete(b) && DeserializePublish(b).Done?
    ensures var v := DeserializePublish(b).value;
            && Inside(b, v.topic)
            && (v.payloadlen >= 0 && v.payload + v.payloadlen == |b|
                <==> b[0] / 2 % 4 == 0 || v.topic.at + v.topic.len + 2 <= |b|)
  {
    StringReadIff(b, DecodeLen(b, 1).next);
    hide DecodeLen, ReadString, Complete, StringWhole;
  }

  predicate TopicsFit(fs: seq<Filter>) {
    forall i | 0 <= i < |fs| :: |TextBytes(fs[i].topic)| < 0x1_0000
  }

  /** The rest of the buffer is a list of filters. */
  ghost predicate IsFilters(w: seq<byte>) {
    exists fs :: TopicsFit(fs) && FiltersBytes(fs) == w
  }

  lemma {:induction false} FiltersReadable(b: seq<byte>, p: nat, fs: seq<Filter>)
    requires TopicsFit(fs) && Has(b, p, FiltersBytes(fs)) && p + |FiltersBytes(fs)| == |b|
    ensures ReadFilters(b, p).Some?
    decreases |fs|
  {
    if fs != [] {
      var w, q := TextBytes(fs[0].topic), fs[0].qos;
      HasSplit(b, p, StringBytes(w) + [q], FiltersBytes(fs[1..]));
      HasSplit(b, p, StringBytes(w), [q]);
      hide Has, ReadString, StringBytes, TextBytes;
      StringRead(b, p, w);
      FiltersReadable(b, p + 2 + |w| + 1, fs[1..]);
    }
  }

  function AsFilter(w: seq<byte>, q: byte): Filter {
    Filter(Text(None, w), q)
  }

  lemma StringBytesOf(b: seq<byte>, p: nat)
    requires StringWhole(b, p)
    ensures var len := ReadInt(b, p);
            StringBytes(b[p + 2..p + 2 + len]) == b[p..p + 2 + len]
  {
  }

  lemma MoreFilters(f: Filter, fs: seq<Filter>)
    requires TopicsFit(fs) && |TextBytes(f.topic)| < 0x1_0000
    ensures TopicsFit([f] + fs) && FiltersBytes([f] + fs) == StringBytes(TextBytes(f.topic)) + [f.qos] + FiltersBytes(fs)
  {
    hide TextBytes, StringBytes;
    assert ([f] + fs)[1..] == fs;
  }

  lemma Rejoin(b: seq<byte>, p: nat, q: nat)
    requires p <= q < |b|
    ensures b[p..q] + [b[q]] + b[q + 1..] == b[p..]
  {
  }

  lemma {:induction false} ReadIsFilters(b: seq<byte>, p: nat) returns (fs: seq<Filter>)
    requires p <= |b| && ReadFilters(b, p).Some?
    ensures TopicsFit(fs) && FiltersBytes(fs) == b[p..]
    decreases |b| - p
  {
    if p == |b| {
      fs := [];
    } else {
      StringReadIff(b, p);
      var cur := p + 2 + ReadInt(b, p);
      hide ReadString, ReadInt;
      var rest := ReadIsFilters(b, cur + 1);
      hide ReadFilters, FiltersBytes, StringWhole;
      fs := [AsFilter(b[p + 2..cur], b[cur])] + rest;
      StringBytesOf(b, p);
      MoreFilters(fs[0], rest);
      Rejoin(b, p, cur);
    }
  }

  lemma FiltersIff(b: seq<byte>, p: nat)
    requires p <= |b|
    ensures ReadFilters(b, p).Some? <==> IsFilters(b[p..])
  {
    hide ReadFilters, FiltersBytes, TopicsFit;
    if ReadFilters(b, p).Some? {
      var fs := ReadIsFilters(b, p);
      assert TopicsFit(fs);
    }
    if IsFilters(b[p..]) {
      var fs :| TopicsFit(fs) && FiltersBytes(fs) == b[p..];
      FiltersReadable(b, p, fs);
    }
  }

  /** A packet with an identifier whose rest is no list of filters, and no other. */
  lemma SubscribeCode(b: seq<byte>)
    requires Complete(b)
    ensures DeserializeSubscribe(b) == Rc(1) <==> b[0] / 16 == SUBSCRIBE && b[1] < 128 && |b| >= 4 && !IsFilters(b[4..])
    ensures DeserializeSubscribe(b).Done?
            <==> b[0] / 16 == SUBSCRIBE && var at := DecodeLen(b, 1).next; at + 2 > |b| || IsFilters(b[at + 2..])
  {
    OneLengthByte(b);
    var at := DecodeLen(b, 1).next;
    if at + 2 <= |b| {
      FiltersIff(b, at + 2);
    }
    hide DecodeLen, IsFilters;
  }

  predicate AllInside(b: seq<byte>, fs: seq<(Slice, int)>) {
    forall i | 0 <= i < |fs| :: Inside(b, fs[i].0)
  }

  lemma {:induction false} FiltersInside(b: seq<byte>, p: nat)
    requires ReadFilters(b, p).Some?
    ensures AllInside(b, ReadFilters(b, p).value)
    decreases |b| - p
  {
    if p < |b| {
      StringReadIff(b, p);
      hide ReadString;
      FiltersInside(b, ReadString(b, p).value.1 + 1);
    }
  }

  /** Every filter of a successful reading is in the buffer. The identifier is read first and without
      a test; where its two bytes are not there, no filter is read. */
  lemma SubscribeInside(b: seq<byte>)
    requires Complete(b) && DeserializeSubscribe(b).Done?
    ensures AllInside(b, DeserializeSubscribe(b).value.filters)
    ensures DecodeLen(b, 1).next + 2 > |b| ==> DeserializeSubscribe(b).value.filters == []
  {
    FiltersInside(b, DecodeLen(b, 1).next + 2);
    hide DecodeLen, AllInside;
  }

  // One input for each reader.

  lemma ShortAck()
    ensures Complete([0x40, 0]) && DeserializeAck([0x40, 0]) == Rc(1)
  {
  }

  /** And a payload of length -2. */
  lemma ShortPublish()
    ensures Complete([0x30, 1, 0]) && DeserializePublish([0x30, 1, 0]) == Rc(1)
    ensures Complete([0x32, 2, 0, 0]) && var r := DeserializePublish([0x32, 2, 0, 0]); r.Done? && r.value.payloadlen == -2
  {
  }

  lemma ShortSubscribe()
    ensures Complete([0x82, 3, 0, 1, 0]) && DeserializeSubscribe([0x82, 3, 0, 1, 0]) == Rc(1)
  {
  }

  // ----- a whole stream -----

  /** What a receiver makes of a buffer and its type. */
  predicate Understood(b: seq<byte>, kind: nat, p: Packet) {
    && kind == Kind(p) && Complete(b)
    && match p
       case Publish(_, _, _, _, _, _) => DeserializePublish(b).Done? && SamePublish(b, DeserializePublish(b).value, p)
       case Subscribe(dup, id, filters) =>
         && DeserializeSubscribe(b).Done?
         && var v := DeserializeSubscribe(b).value; v.dup == Flag(dup) && v.id == id && SameFilters(b, v.filters, filters)
       case Ack(kind, dup, id) => DeserializeAck(b) == Done(Acked(kind, Flag(dup), id))
  }

  lemma PacketBack(p: Packet)
    requires WfPacket(p)
    ensures Understood(Serialize(p), Kind(p), p)
  {
    hide Serialize, WfPacket, Complete, SamePublish, SameFilters, DeserializePublish, DeserializeSubscribe, DeserializeAck;
    match p
    case Publish(_, _, _, _, _, _) => PublishBack(p);
    case Subscribe(_, _, _) => SubscribeBack(p);
    case Ack(_, _, _) => AckBack(p);
  }

  lemma {:induction false} FramedUnderstood(ps: seq<Packet>, buflen: nat)
    requires AllReadable(ps, buflen)
    ensures |Framed(ps)| == |ps| && forall i | 0 <= i < |ps| :: Understood(Framed(ps)[i].1, Framed(ps)[i].0, ps[i])
    decreases |ps|
  {
    hide *;
    if ps == [] {
      EndOfStream([], buflen, 1);
    } else {
      Unfolded(ps, buflen);
      PacketBack(ps[0]);
      FramedUnderstood(ps[1..], buflen);
      var fs, rest := Framed(ps), Framed(ps[1..]);
      assert forall i | 1 <= i < |ps| :: fs[i] == rest[i - 1] && ps[i] == ps[1..][i - 1];
    }
  }

  /** Any packets, serialized one after the other: repeated reading finds each of them, in order,
      every field of each comes back, and the stream ends there. */
  lemma StreamBack(ps: seq<Packet>, buflen: nat, n: nat)
    requires AllReadable(ps, buflen) && n > |ps|
    ensures var s := SerializeAll(ps);
            var (got, end) := ReadMany(s, 0, buflen, n);
            end == |s| && |got| == |ps| && forall i | 0 <= i < |ps| :: Understood(got[i].1, got[i].0, ps[i])
  {
    var s := SerializeAll(ps);
    assert Has(s, 0, s);
    hide *;
    ReadAll(s, 0, ps, buflen, n);
    FramedUnderstood(ps, buflen);
  }
}
