/** The embedded MQTT library on its buffers: writing behind a moving pointer, reading packets from
    a source of bytes, and the loops of the deserializers. */
module MqttBuffer {
  import opened Wire
  import opened Mqtt
  import opened MqttDecode

  const BUFFER_TOO_SHORT: int := -2

  // ----- the remaining length -----

  method PacketEncode(buf: array<byte>, p: nat, n: nat, ghost done: seq<byte>) returns (q: nat)
    requires p + |EncodeLen(n)| <= buf.Length && buf[..p] == done
    modifies buf
    ensures q == p + |EncodeLen(n)| && buf[..q] == done + EncodeLen(n)
  {
    ghost var all := done + EncodeLen(n);
    var length := n;
    q := p;
    while true
      invariant p <= q < buf.Length && buf[..q] + EncodeLen(length) == all
      decreases length
    {
      ghost var before, rest := buf[..q], EncodeLen(length);
      var d := length % 128;
      length := length / 128;
      if length > 0 {
        d := d + 128;
      }
      buf[q] := d;
      q := q + 1;
      assert buf[..q] == before + [d];
      if length == 0 {
        assert rest == [d];
        break;
      }
      assert rest == [d] + EncodeLen(length);
      assert before + ([d] + EncodeLen(length)) == before + [d] + EncodeLen(length);
      assert |all| == q + |EncodeLen(length)|;
    }
  }

  /** What the transport has still to deliver. */
  class Source {
    const data: seq<byte>
    var pos: nat

    constructor (data: seq<byte>)
      ensures this.data == data && pos == 0
    {
      this.data := data;
      pos := 0;
    }

    /** getfn: as many of n bytes as there are. */
    method Get(n: nat) returns (bytes: seq<byte>)
      requires pos <= |data|
      modifies this
      ensures pos <= |data| && |bytes| == (if old(pos) + n <= |data| then n else |data| - old(pos))
      ensures pos == old(pos) + |bytes| && bytes == data[old(pos)..pos]
    {
      var m := if pos + n <= |data| then n else |data| - pos;
      bytes := data[pos..pos + m];
      pos := pos + m;
    }
  }

  method PacketDecode(src: Source) returns (value: nat, len: nat)
    requires src.pos <= |src.data|
    modifies src
    ensures src.pos <= |src.data| && Decoded(value, len, src.pos) == DecodeLen(src.data, old(src.pos))
  {
    hide DecodeRest, Weigh;
    var multiplier: nat := 1;
    value, len := 0, 0;
    ghost var all := DecodeLen(src.data, src.pos);
    while true
      invariant len <= 4 && src.pos <= |src.data|
      invariant DecodeRest(src.data, src.pos, len, multiplier, value) == all
      decreases 4 - len
    {
      DecodeStep(src.data, src.pos, len, multiplier, value);
      len := len + 1;
      if len > 4 {
        break;
      }
      var c := src.Get(1);
      if |c| != 1 {
        break;
      }
      value := Weigh(value, c[0], multiplier);
      multiplier := multiplier * 128;
      if c[0] < 128 {
        break;
      }
    }
  }

  /** The sum with one more digit. */
  function Weigh(sum: nat, c: byte, weight: nat): nat {
    sum + c % 128 * weight
  }

  lemma DecodeStep(s: seq<byte>, p: nat, k: nat, weight: nat, sum: nat)
    requires k <= 4
    ensures k == 4 ==> DecodeRest(s, p, k, weight, sum) == Decoded(sum, 5, p)
    ensures k < 4 && p >= |s| ==> DecodeRest(s, p, k, weight, sum) == Decoded(sum, k + 1, p)
    ensures k < 4 && p < |s| ==>
              DecodeRest(s, p, k, weight, sum) ==
              if s[p] >= 128 then DecodeRest(s, p + 1, k + 1, weight * 128, Weigh(sum, s[p], weight))
              else Decoded(Weigh(sum, s[p], weight), k + 1, p + 1)
  {
  }

  // ----- MQTTPacket_read -----

  lemma {:induction false} DecodedBound(s: seq<byte>, p: nat, k: nat, weight: nat, sum: nat)
    requires k <= 4 && weight == Power128(k) && sum < Power128(k)
    ensures DecodeRest(s, p, k, weight, sum).value <= MAX_LENGTH
    decreases 4 - k
  {
    if k < 4 && p < |s| {
      var more := sum + s[p] % 128 * weight;
      DigitBound(s[p] % 128, weight, sum);
      if s[p] >= 128 {
        DecodedBound(s, p + 1, k + 1, weight * 128, more);
      }
    }
  }

  function Power128(k: nat): nat
    requires k <= 4
  {
    if k == 0 then 1 else if k == 1 then 128 else if k == 2 then 16_384 else if k == 3 then 2_097_152 else 268_435_456
  }

  lemma DigitBound(d: nat, weight: nat, sum: nat)
    requires d < 128 && sum < weight
    ensures sum + d * weight < weight * 128
  {
    assert d * weight <= 127 * weight;
  }

  /** There is room for the header byte and the length, which go into the buffer before it is looked at. */
  ghost predicate RoomToRead(s: seq<byte>, p: nat, room: nat) {
    p < |s| ==> 1 + |EncodeLen(DecodeLen(s, p + 1).value)| <= room
  }

  /** Five bytes are enough for every stream, and fewer are not. */
  lemma FiveBytes(room: nat)
    ensures (forall s, p: nat :: RoomToRead(s, p, room)) <==> room >= 5
  {
    hide EncodeLen, DecodeLen;
    if room >= 5 {
      forall s, p: nat
        ensures RoomToRead(s, p, room)
      {
        LengthFits(s, p + 1);
      }
    }
    LongestLength();
    assert RoomToRead([0, 255, 255, 255, 127], 0, room) ==> room >= 5;
  }

  lemma LongestLength()
    ensures |EncodeLen(DecodeLen([0, 255, 255, 255, 127], 1).value)| == 4
  {
    var s: seq<byte> := [0, 255, 255, 255, 127];
    assert DecodeRest(s, 4, 3, 2_097_152, 2_097_151) == Decoded(MAX_LENGTH, 4, 5);
    assert DecodeRest(s, 3, 2, 16_384, 16_383) == Decoded(MAX_LENGTH, 4, 5);
    assert DecodeRest(s, 2, 1, 128, 127) == Decoded(MAX_LENGTH, 4, 5);
    EncodeLenLength(MAX_LENGTH);
  }

  method PacketRead(buf: array<byte>, src: Source) returns (rc: int, ghost len: nat)
    requires src.pos <= |src.data| && RoomToRead(src.data, src.pos, buf.Length)
    modifies buf, src
    ensures src.pos <= |src.data|
    ensures match Read(src.data, old(src.pos), buf.Length)
            case NoPacket(next) => rc == -1 && src.pos == next
            case Got(kind, bytes, next) => rc == kind && len == |bytes| <= buf.Length && buf[..len] == bytes && src.pos == next
  {
    hide EncodeLen, DecodeLen;
    rc, len := -1, 0;
    var first := src.Get(1);
    if |first| != 1 {
      return;
    }
    buf[0] := first[0];
    var remLen, _ := PacketDecode(src);
    var at := PacketEncode(buf, 1, remLen, [first[0]]);
    if remLen + at > buf.Length {
      return;
    }
    var body := src.Get(remLen);
    ghost var before := buf[..at];
    var n := Copy(buf, at, body, before);
    if |body| != remLen {
      return;
    }
    len := n;
    rc := buf[0] / 16;
  }

  lemma LengthFits(s: seq<byte>, p: nat)
    ensures |EncodeLen(DecodeLen(s, p).value)| <= 4
  {
    DecodedBound(s, p, 0, 1, 0);
    EncodeLenLength(DecodeLen(s, p).value);
  }

  lemma ReadShape(s: seq<byte>, p: nat, buflen: nat)
    requires Read(s, p, buflen).Got?
    ensures p < |s|
    ensures var d := DecodeLen(s, p + 1);
            && d.next + d.value <= |s|
            && Read(s, p, buflen).buf == [s[p]] + EncodeLen(d.value) + s[d.next..d.next + d.value]
  {
    hide EncodeLen, DecodeLen;
  }

  lemma LengthBound(s: seq<byte>, p: nat)
    ensures DecodeLen(s, p).value <= MAX_LENGTH
  {
    DecodedBound(s, p, 0, 1, 0);
  }

  lemma FramedComplete(header: byte, n: nat, rest: seq<byte>)
    requires n == |rest| <= MAX_LENGTH
    ensures Complete([header] + EncodeLen(n) + rest)
  {
    hide *;
    var enc := EncodeLen(n);
    var b := [header] + enc + rest;
    HasItself(b);
    HasSplit(b, 0, [header] + enc, rest);
    HasSplit(b, 0, [header], enc);
    LengthComplete(b, n);
  }

  lemma HasItself(b: seq<byte>)
    ensures Has(b, 0, b)
  {
  }

  /** Every buffer that MQTTPacket_read delivers, from any stream, holds one whole packet, so what the
      readers do with complete buffers is what they do with all they get. */
  lemma DeliversComplete(s: seq<byte>, p: nat, buflen: nat)
    requires Read(s, p, buflen).Got?
    ensures Complete(Read(s, p, buflen).buf)
  {
    hide *;
    ReadShape(s, p, buflen);
    LengthBound(s, p + 1);
    var d := DecodeLen(s, p + 1);
    FramedComplete(s[p], d.value, s[d.next..d.next + d.value]);
  }

  // ----- serializing -----

  method WriteInt(buf: array<byte>, p: nat, n: nat, ghost done: seq<byte>) returns (q: nat)
    requires p + 2 <= buf.Length && buf[..p] == done
    modifies buf
    ensures q == p + 2 && buf[..q] == done + IntBytes(n)
  {
    q := Put(buf, p, n / 256 % 256, done);
    q := Put(buf, q, n % 256, done + [n / 256 % 256]);
  }

  method WriteText(buf: array<byte>, p: nat, t: Text, ghost done: seq<byte>) returns (q: nat)
    requires p + |StringBytes(TextBytes(t))| <= buf.Length && buf[..p] == done
    modifies buf
    ensures q == p + |StringBytes(TextBytes(t))| && buf[..q] == done + StringBytes(TextBytes(t))
  {
    hide IntBytes;
    if |t.lenstring| > 0 {
      q := WriteInt(buf, p, |t.lenstring|, done);
      q := Copy(buf, q, t.lenstring, done + IntBytes(|t.lenstring|));
    } else if t.cstring.Some? {
      q := WriteInt(buf, p, |t.cstring.value|, done);
      q := Copy(buf, q, t.cstring.value, done + IntBytes(|t.cstring.value|));
    } else {
      q := WriteInt(buf, p, 0, done);
    }
  }

  /** Header byte and remaining length. */
  method WriteFront(buf: array<byte>, header: byte, rem: nat) returns (q: nat)
    requires 1 + |EncodeLen(rem)| <= buf.Length
    modifies buf
    ensures q == 1 + |EncodeLen(rem)| && buf[..q] == [header] + EncodeLen(rem)
  {
    hide EncodeLen;
    q := Put(buf, 0, header, []);
    q := PacketEncode(buf, q, rem, [header]);
  }

  method WritePublish(buf: array<byte>, p: nat, pkt: Packet, ghost done: seq<byte>) returns (q: nat)
    requires pkt.Publish? && p + |Body(pkt)| <= buf.Length && buf[..p] == done
    modifies buf
    ensures q == p + |Body(pkt)| && buf[..q] == done + Body(pkt)
  {
    hide IntBytes, StringBytes, TextBytes;
    ghost var topic := StringBytes(TextBytes(pkt.topic));
    q := WriteText(buf, p, pkt.topic, done);
    ghost var id := [];
    if pkt.qos > 0 {
      id := IntBytes(pkt.id);
      q := WriteInt(buf, q, pkt.id, done + topic);
    }
    q := Copy(buf, q, pkt.payload, done + topic + id);
    assert done + topic + id + pkt.payload == done + (topic + id + pkt.payload);
  }

  /** The packet is refused or has room: the test counts a string by one of its forms, the other is
      written. */
  predicate RoomToWrite(pkt: Packet, room: nat) {
    PacketLen(RemLength(pkt)) > room || |Serialize(pkt)| <= room
  }

  /** Buffers of every length do, if and only if the test counts enough; it does for strings whose
      forms agree in length and a remaining length that has an encoding. */
  lemma RoomAlways(pkt: Packet)
    ensures (forall room: nat :: RoomToWrite(pkt, room)) <==> |Serialize(pkt)| <= PacketLen(RemLength(pkt))
    ensures TextsConsistent(pkt) && RemLength(pkt) <= MAX_LENGTH ==> forall room: nat :: RoomToWrite(pkt, room)
  {
    hide PacketLen, RemLength, Serialize, TextsConsistent;
    assert RoomToWrite(pkt, PacketLen(RemLength(pkt))) <==> |Serialize(pkt)| <= PacketLen(RemLength(pkt));
    if TextsConsistent(pkt) && RemLength(pkt) <= MAX_LENGTH {
      BodyLength(pkt);
      PacketLenBound(RemLength(pkt));
    }
  }

  /** A topic whose counted form is empty: ten bytes are written into a buffer of five. */
  lemma Overrun()
    ensures var pkt := Publish(false, 0, false, 0, Text(Some([]), seq(6, _ => 65)), []);
            PacketLen(RemLength(pkt)) == 4 && |Serialize(pkt)| == 10 && !RoomToWrite(pkt, 5)
  {
    var t := Text(Some([]), seq(6, _ => 65));
    assert |StringBytes(TextBytes(t))| == 8;
    hide StringBytes;
  }

  method SerializePublish(buf: array<byte>, pkt: Packet) returns (rc: int)
    requires pkt.Publish? && RoomToWrite(pkt, buf.Length)
    modifies buf
    ensures PacketLen(RemLength(pkt)) > buf.Length ==> rc == BUFFER_TOO_SHORT && buf[..] == old(buf[..])
    ensures PacketLen(RemLength(pkt)) <= buf.Length ==> rc == |Serialize(pkt)| <= buf.Length && buf[..rc] == Serialize(pkt)
  {
    hide EncodeLen, Body, TextLen, HeaderByte;
    var rem := 2 + TextLen(pkt.topic) + |pkt.payload|;
    if pkt.qos > 0 {
      rem := rem + 2;
    }
    if PacketLen(rem) > buf.Length {
      return BUFFER_TOO_SHORT;
    }
    var q := WriteFront(buf, HeaderByte(PUBLISH, pkt.dup, pkt.qos, pkt.retained), rem);
    q := WritePublish(buf, q, pkt, buf[..q]);
    rc := q;
  }

  method SerializeAck(buf: array<byte>, pkt: Packet) returns (rc: int)
    requires pkt.Ack?
    modifies buf
    ensures buf.Length < 4 ==> rc == BUFFER_TOO_SHORT && buf[..] == old(buf[..])
    ensures buf.Length >= 4 ==> rc == |Serialize(pkt)| == 4 && buf[..4] == Serialize(pkt)
  {
    hide IntBytes, HeaderByte;
    if buf.Length < 4 {
      return BUFFER_TOO_SHORT;
    }
    var q := WriteFront(buf, HeaderByte(pkt.kind, pkt.dup, if pkt.kind == PUBREL then 1 else 0, false), 2);
    ghost var front := buf[..q];
    q := WriteInt(buf, q, pkt.id, front);
    rc := q;
  }

  /** The loop of MQTTSerialize_subscribeLength. */
  method SubscribeLength(filters: seq<Filter>) returns (len: nat)
    ensures len == 2 + FiltersLen(filters)
  {
    len := 2;
    assert filters[0..] == filters;
    for i := 0 to |filters|
      invariant len + FiltersLen(filters[i..]) == 2 + FiltersLen(filters)
    {
      assert filters[i..][1..] == filters[i + 1..];
      len := len + 2 + TextLen(filters[i].topic) + 1;
    }
  }

  method WriteFilters(buf: array<byte>, p: nat, filters: seq<Filter>, ghost done: seq<byte>) returns (q: nat)
    requires p + |FiltersBytes(filters)| <= buf.Length && buf[..p] == done
    modifies buf
    ensures q == p + |FiltersBytes(filters)| && buf[..q] == done + FiltersBytes(filters)
  {
    hide StringBytes, TextBytes;
    q := p;
    ghost var all := done + FiltersBytes(filters);
    assert filters[0..] == filters;
    for i := 0 to |filters|
      invariant q <= buf.Length && buf[..q] + FiltersBytes(filters[i..]) == all
    {
      ghost var before, w, rest := buf[..q], StringBytes(TextBytes(filters[i].topic)), FiltersBytes(filters[i + 1..]);
      assert filters[i..][1..] == filters[i + 1..];
      assert FiltersBytes(filters[i..]) == w + [filters[i].qos] + rest;
      assert |all| == |before| + |w| + 1 + |rest|;
      q := WriteText(buf, q, filters[i].topic, before);
      q := Put(buf, q, filters[i].qos, before + w);
      assert before + (w + [filters[i].qos] + rest) == before + w + [filters[i].qos] + rest;
    }
    assert filters[|filters|..] == [];
    assert buf[..q] + [] == buf[..q];
  }

  method SerializeSubscribe(buf: array<byte>, pkt: Packet) returns (rc: int)
    requires pkt.Subscribe? && RoomToWrite(pkt, buf.Length)
    modifies buf
    ensures PacketLen(RemLength(pkt)) > buf.Length ==> rc == BUFFER_TOO_SHORT && buf[..] == old(buf[..])
    ensures PacketLen(RemLength(pkt)) <= buf.Length ==> rc == |Serialize(pkt)| <= buf.Length && buf[..rc] == Serialize(pkt)
  {
    hide EncodeLen, IntBytes, FiltersBytes, FiltersLen, HeaderByte;
    var rem := SubscribeLength(pkt.filters);
    if PacketLen(rem) > buf.Length {
      return BUFFER_TOO_SHORT;
    }
    var q := WriteFront(buf, HeaderByte(SUBSCRIBE, pkt.dup, 1, false), rem);
    ghost var front := buf[..q];
    q := WriteInt(buf, q, pkt.id, front);
    q := WriteFilters(buf, q, pkt.filters, front + IntBytes(pkt.id));
    assert front + IntBytes(pkt.id) + FiltersBytes(pkt.filters) == front + (IntBytes(pkt.id) + FiltersBytes(pkt.filters));
    rc := q;
  }

  // ----- deserializing -----

  /** Filters already read, followed by what the rest gives. */
  ghost function After(fs: seq<(Slice, int)>, r: Maybe<seq<(Slice, int)>>): Maybe<seq<(Slice, int)>> {
    if r.None? then None else Some(fs + r.value)
  }

  lemma AfterFilter(fs: seq<(Slice, int)>, f: (Slice, int), b: seq<byte>, p: nat, next: nat)
    requires p < |b| && p < next <= |b| && ReadString(b, p).Some? && ReadString(b, p).value.1 == next - 1
    requires f == (ReadString(b, p).value.0, Signed(b[next - 1]))
    ensures After(fs, ReadFilters(b, p)) == After(fs + [f], ReadFilters(b, next))
  {
    hide ReadString;
    var rest := ReadFilters(b, next);
    if rest.Some? {
      assert fs + ([f] + rest.value) == fs + [f] + rest.value;
    }
  }

  /** The loop of MQTTDeserialize_subscribe, with arrays that are large enough. */
  method ReadSubscribe(b: seq<byte>, start: nat) returns (r: Maybe<seq<(Slice, int)>>)
    ensures r == ReadFilters(b, start)
  {
    hide ReadString;
    var filters, curdata := [], start;
    ghost var all := ReadFilters(b, start);
    assert all.Some? ==> [] + all.value == all.value;
    while curdata < |b|
      invariant all == After(filters, ReadFilters(b, curdata))
      decreases |b| - curdata
    {
      var topic := ReadString(b, curdata);
      if topic.None? || topic.value.1 >= |b| {
        return None;
      }
      StringBehind(b, curdata);
      var f := (topic.value.0, Signed(b[topic.value.1]));
      AfterFilter(filters, f, b, curdata, topic.value.1 + 1);
      filters := filters + [f];
      curdata := topic.value.1 + 1;
    }
    assert filters + [] == filters;
    r := Some(filters);
  }

  lemma StringBehind(b: seq<byte>, p: nat)
    requires ReadString(b, p).Some?
    ensures p < ReadString(b, p).value.1
  {
  }
}
