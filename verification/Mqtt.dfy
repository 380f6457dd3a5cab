/** MQTT 3.1.1 packets (sections 2.2.3, 3.3 and 3.8) as the embedded MQTT library reads and writes
    them: the remaining length, PUBLISH, SUBSCRIBE and acknowledgements. */
module Mqtt {
  import opened Wire

  const PUBLISH: nat := 3
  const PUBREL: nat := 6
  const SUBSCRIBE: nat := 8

  // ----- the remaining length -----

  const MAX_LENGTH: nat := 268_435_455

  function EncodeLen(n: nat): (e: seq<byte>)
    ensures |e| >= 1
  {
    if n < 128 then [n] else [n % 128 + 128] + EncodeLen(n / 128)
  }

  /** The value, the number of bytes that the decoder counts, and the position behind them. */
  datatype Decoded = Decoded(value: nat, count: nat, next: nat)

  /** After k bytes with the given weight and sum; a fifth byte is counted and not read. */
  function DecodeRest(s: seq<byte>, p: nat, k: nat, weight: nat, sum: nat): (d: Decoded)
    requires k <= 4
    ensures p <= d.next && (p <= |s| ==> d.next <= |s|)
    decreases 4 - k
  {
    if k == 4 then Decoded(sum, 5, p)
    else if p >= |s| then Decoded(sum, k + 1, p)
    else
      var more := sum + s[p] % 128 * weight;
      if s[p] >= 128 then DecodeRest(s, p + 1, k + 1, weight * 128, more) else Decoded(more, k + 1, p + 1)
  }

  function DecodeLen(s: seq<byte>, p: nat): Decoded {
    DecodeRest(s, p, 0, 1, 0)
  }

  lemma {:induction false} EncodeLenLength(n: nat)
    ensures |EncodeLen(n)| == 1 <==> n < 128
    ensures |EncodeLen(n)| <= 2 <==> n < 16_384
    ensures |EncodeLen(n)| <= 3 <==> n < 2_097_152
    ensures |EncodeLen(n)| <= 4 <==> n <= MAX_LENGTH
  {
    if n >= 128 {
      EncodeLenLength(n / 128);
    }
  }

  lemma {:induction false} DecodeEncoded(s: seq<byte>, p: nat, n: nat, k: nat, weight: nat, sum: nat)
    requires Has(s, p, EncodeLen(n)) && k + |EncodeLen(n)| <= 4
    ensures DecodeRest(s, p, k, weight, sum) == Decoded(sum + n * weight, k + |EncodeLen(n)|, p + |EncodeLen(n)|)
    decreases n
  {
    var e := EncodeLen(n);
    assert s[p + 0] == e[0];
    if n >= 128 {
      HasSplit(s, p, [n % 128 + 128], EncodeLen(n / 128));
      DecodeEncoded(s, p + 1, n / 128, k + 1, weight * 128, sum + n % 128 * weight);
      Digits(n, weight);
    }
  }

  lemma Digits(n: nat, weight: nat)
    ensures n % 128 * weight + n / 128 * (weight * 128) == n * weight
  {
    var q, r := n / 128, n % 128;
    assert n == q * 128 + r;
    assert (q * 128 + r) * weight == q * 128 * weight + r * weight;
    assert q * (weight * 128) == q * 128 * weight;
  }

  lemma DecodeLenRight(s: seq<byte>, p: nat, n: nat)
    requires Has(s, p, EncodeLen(n)) && n <= MAX_LENGTH
    ensures DecodeLen(s, p) == Decoded(n, |EncodeLen(n)|, p + |EncodeLen(n)|)
  {
    EncodeLenLength(n);
    DecodeEncoded(s, p, n, 0, 1, 0);
  }

  /** MQTTPacket_len, which compares the length with the header byte included. */
  function PacketLen(rem: nat): nat {
    var n := rem + 1;
    if n < 128 then n + 1 else if n < 16_384 then n + 2 else if n < 2_097_151 then n + 3 else n + 4
  }

  /** It is at least the real size, and at most one more, if and only if four length bytes are enough. */
  lemma PacketLenBound(rem: nat)
    ensures 1 + |EncodeLen(rem)| + rem <= PacketLen(rem) <==> rem <= MAX_LENGTH
    ensures rem <= MAX_LENGTH ==> PacketLen(rem) <= 1 + |EncodeLen(rem)| + rem + 1
  {
    EncodeLenLength(rem);
  }

  // ----- packets -----

  datatype Maybe<T> = None | Some(value: T)

  /** MQTTString: a C string, a string with a length, or both. */
  datatype Text = Text(cstring: Maybe<seq<byte>>, lenstring: seq<byte>)

  /** What is written of it. */
  function TextBytes(t: Text): seq<byte> {
    if t.lenstring != [] then t.lenstring else if t.cstring.Some? then t.cstring.value else []
  }

  /** MQTTstrlen, which looks at the C string first. */
  function TextLen(t: Text): nat {
    if t.cstring.Some? then |t.cstring.value| else |t.lenstring|
  }

  /** Both agree on the length. */
  predicate Consistent(t: Text) {
    t.cstring.None? || t.lenstring == [] || |t.cstring.value| == |t.lenstring|
  }

  lemma ConsistentLength(t: Text)
    ensures |TextBytes(t)| == TextLen(t) <==> Consistent(t)
  {
  }

  datatype Filter = Filter(topic: Text, qos: byte)

  datatype Packet =
    | Publish(dup: bool, qos: nat, retained: bool, id: nat, topic: Text, payload: seq<byte>)
    | Subscribe(dup: bool, id: nat, filters: seq<Filter>)
    | Ack(kind: nat, dup: bool, id: nat)

  function Flag(b: bool): nat {
    if b then 1 else 0
  }

  /** The bit fields of the header byte, from the highest: type, dup, qos, retain. */
  function HeaderByte(kind: nat, dup: bool, qos: nat, retained: bool): byte {
    kind % 16 * 16 + Flag(dup) * 8 + qos % 4 * 2 + Flag(retained)
  }

  function IntBytes(n: nat): (b: seq<byte>)
    ensures |b| == 2
  {
    [n / 256 % 256, n % 256]
  }

  function StringBytes(w: seq<byte>): (b: seq<byte>)
    ensures |b| == 2 + |w|
  {
    IntBytes(|w|) + w
  }

  function FiltersBytes(fs: seq<Filter>): seq<byte> {
    if fs == [] then [] else StringBytes(TextBytes(fs[0].topic)) + [fs[0].qos] + FiltersBytes(fs[1..])
  }

  function FiltersLen(fs: seq<Filter>): nat {
    if fs == [] then 0 else 2 + TextLen(fs[0].topic) + 1 + FiltersLen(fs[1..])
  }

  function Kind(p: Packet): nat {
    match p
    case Publish(_, _, _, _, _, _) => PUBLISH
    case Subscribe(_, _, _) => SUBSCRIBE
    case Ack(kind, _, _) => kind
  }

  function Header(p: Packet): byte {
    match p
    case Publish(dup, qos, retained, _, _, _) => HeaderByte(PUBLISH, dup, qos, retained)
    case Subscribe(dup, _, _) => HeaderByte(SUBSCRIBE, dup, 1, false)
    case Ack(kind, dup, _) => HeaderByte(kind, dup, if kind == PUBREL then 1 else 0, false)
  }

  function Body(p: Packet): seq<byte> {
    match p
    case Publish(_, qos, _, id, topic, payload) =>
      StringBytes(TextBytes(topic)) + (if qos > 0 then IntBytes(id) else []) + payload
    case Subscribe(_, id, filters) => IntBytes(id) + FiltersBytes(filters)
    case Ack(_, _, id) => IntBytes(id)
  }

  /** The remaining length as the serializers compute it. */
  function RemLength(p: Packet): nat {
    match p
    case Publish(_, qos, _, _, topic, payload) => 2 + TextLen(topic) + |payload| + if qos > 0 then 2 else 0
    case Subscribe(_, _, filters) => 2 + FiltersLen(filters)
    case Ack(_, _, _) => 2
  }

  function Serialize(p: Packet): seq<byte> {
    [Header(p)] + EncodeLen(RemLength(p)) + Body(p)
  }

  predicate FiltersConsistent(fs: seq<Filter>) {
    forall i | 0 <= i < |fs| :: Consistent(fs[i].topic)
  }

  predicate TextsConsistent(p: Packet) {
    match p
    case Publish(_, _, _, _, topic, _) => Consistent(topic)
    case Subscribe(_, _, filters) => FiltersConsistent(filters)
    case Ack(_, _, _) => true
  }

  lemma {:induction false} FiltersLength(fs: seq<Filter>)
    requires FiltersConsistent(fs)
    ensures |FiltersBytes(fs)| == FiltersLen(fs)
  {
    if fs != [] {
      ConsistentLength(fs[0].topic);
      FiltersLength(fs[1..]);
    }
  }

  /** The computed length is the length of what follows it. */
  lemma BodyLength(p: Packet)
    requires TextsConsistent(p)
    ensures |Body(p)| == RemLength(p)
    ensures |Serialize(p)| == 1 + |EncodeLen(RemLength(p))| + RemLength(p)
  {
    hide EncodeLen, FiltersBytes, FiltersLen, FiltersConsistent;
    match p
    case Publish(_, _, _, _, topic, _) => ConsistentLength(topic);
    case Subscribe(_, _, filters) => FiltersLength(filters);
    case Ack(_, _, _) =>
  }

  // ----- MQTTPacket_read over a stream -----

  datatype Outcome = NoPacket(at: nat) | Got(kind: nat, buf: seq<byte>, next: nat)

  /** One packet from position p of a stream into a buffer of the given size. */
  function Read(s: seq<byte>, p: nat, buflen: nat): Outcome {
    if p >= |s| then NoPacket(p)
    else
      var d := DecodeLen(s, p + 1);
      var enc := EncodeLen(d.value);
      if d.value + 1 + |enc| > buflen then NoPacket(d.next)
      else if d.next + d.value > |s| then NoPacket(|s|)
      else Got(s[p] / 16, [s[p]] + enc + s[d.next..d.next + d.value], d.next + d.value)
  }

  /** Packets that MQTT 3.1.1 can carry: identifiers and strings of 16 bits, QoS at most 2. */
  predicate WfPacket(p: Packet) {
    && TextsConsistent(p) && RemLength(p) <= MAX_LENGTH
    && match p
       case Publish(_, qos, _, id, topic, _) => qos <= 2 && id < 0x1_0000 && |TextBytes(topic)| < 0x1_0000
       case Subscribe(_, id, filters) => id < 0x1_0000 && FiltersFit(filters)
       case Ack(kind, _, id) => kind < 16 && id < 0x1_0000
  }

  predicate FiltersFit(fs: seq<Filter>) {
    forall i | 0 <= i < |fs| :: |TextBytes(fs[i].topic)| < 0x1_0000 && fs[i].qos < 128
  }

  lemma KindOfHeader(p: Packet)
    requires WfPacket(p)
    ensures Header(p) / 16 == Kind(p)
  {
  }

  /** A frame whose length has been decoded. */
  lemma ReadFrame(s: seq<byte>, at: nat, header: byte, n: nat, body: seq<byte>, buflen: nat)
    requires at < |s| && s[at] == header && DecodeLen(s, at + 1) == Decoded(n, |EncodeLen(n)|, at + 1 + |EncodeLen(n)|)
    requires n == |body| && Has(s, at + 1 + |EncodeLen(n)|, body) && 1 + |EncodeLen(n)| + n <= buflen
    ensures Read(s, at, buflen) == Got(header / 16, [header] + EncodeLen(n) + body, at + 1 + |EncodeLen(n)| + n)
  {
    HasSlice(s, at + 1 + |EncodeLen(n)|, body);
    hide EncodeLen, DecodeLen, Has;
  }

  lemma ReadOne(s: seq<byte>, at: nat, p: Packet, buflen: nat)
    requires WfPacket(p) && Has(s, at, Serialize(p)) && |Serialize(p)| <= buflen
    ensures Read(s, at, buflen) == Got(Kind(p), Serialize(p), at + |Serialize(p)|)
  {
    hide *;
    Written(p);
    KindOfHeader(p);
    var enc := EncodeLen(RemLength(p));
    HasSplit(s, at, [Header(p)] + enc, Body(p));
    HasSplit(s, at, [Header(p)], enc);
    HasFirst(s, at, Header(p));
    DecodeLenRight(s, at + 1, RemLength(p));
    ReadFrame(s, at, Header(p), RemLength(p), Body(p), buflen);
  }

  /** What is written of a packet, and how long it is. */
  lemma Written(p: Packet)
    requires WfPacket(p)
    ensures Serialize(p) == [Header(p)] + EncodeLen(RemLength(p)) + Body(p)
    ensures |Body(p)| == RemLength(p) <= MAX_LENGTH && TextsConsistent(p)
  {
    hide Header, Body, RemLength, EncodeLen;
    BodyLength(p);
  }

  lemma HasFirst(s: seq<byte>, p: nat, x: byte)
    requires Has(s, p, [x])
    ensures p < |s| && s[p] == x
  {
    assert s[p + 0] == [x][0];
  }

  function SerializeAll(ps: seq<Packet>): seq<byte> {
    if ps == [] then [] else Serialize(ps[0]) + SerializeAll(ps[1..])
  }

  /** Up to n packets, one after the other, with the position where reading stopped. */
  function ReadMany(s: seq<byte>, at: nat, buflen: nat, n: nat): (seq<(nat, seq<byte>)>, nat)
    decreases n
  {
    if n == 0 then ([], at)
    else
      match Read(s, at, buflen)
      case NoPacket(next) => ([], next)
      case Got(kind, buf, next) => var (rest, end) := ReadMany(s, next, buflen, n - 1); ([(kind, buf)] + rest, end)
  }

  predicate Readable(p: Packet, buflen: nat) {
    WfPacket(p) && |Serialize(p)| <= buflen
  }

  predicate AllReadable(ps: seq<Packet>, buflen: nat) {
    forall i | 0 <= i < |ps| :: Readable(ps[i], buflen)
  }

  /** The packets with their types, as they were written. */
  function Framed(ps: seq<Packet>): seq<(nat, seq<byte>)> {
    if ps == [] then [] else [(Kind(ps[0]), Serialize(ps[0]))] + Framed(ps[1..])
  }

  /** A stream of packets is read back packet by packet and ends with the stream. */
  lemma {:induction false} ReadAll(s: seq<byte>, at: nat, ps: seq<Packet>, buflen: nat, n: nat)
    requires AllReadable(ps, buflen) && n > |ps|
    requires Has(s, at, SerializeAll(ps)) && at + |SerializeAll(ps)| == |s|
    ensures ReadMany(s, at, buflen, n) == (Framed(ps), |s|)
    decreases |ps|
  {
    hide *;
    if ps == [] {
      EndOfStream(s, buflen, n);
    } else {
      var p := ps[0];
      Unfolded(ps, buflen);
      HasSplit(s, at, Serialize(p), SerializeAll(ps[1..]));
      ReadOne(s, at, p, buflen);
      ReadAll(s, at + |Serialize(p)|, ps[1..], buflen, n - 1);
      ReadStep(s, at, buflen, n);
    }
  }

  lemma EndOfStream(s: seq<byte>, buflen: nat, n: nat)
    requires n > 0
    ensures SerializeAll([]) == [] && Framed([]) == [] && ReadMany(s, |s|, buflen, n) == ([], |s|)
  {
  }

  lemma Unfolded(ps: seq<Packet>, buflen: nat)
    requires ps != [] && AllReadable(ps, buflen)
    ensures SerializeAll(ps) == Serialize(ps[0]) + SerializeAll(ps[1..])
    ensures Framed(ps) == [(Kind(ps[0]), Serialize(ps[0]))] + Framed(ps[1..])
    ensures WfPacket(ps[0]) && |Serialize(ps[0])| <= buflen && AllReadable(ps[1..], buflen)
  {
    hide Serialize, WfPacket, Kind;
    assert Readable(ps[0], buflen);
  }

  lemma ReadStep(s: seq<byte>, at: nat, buflen: nat, n: nat)
    requires n > 0 && Read(s, at, buflen).Got?
    ensures var r := Read(s, at, buflen);
            var (rest, end) := ReadMany(s, r.next, buflen, n - 1);
            ReadMany(s, at, buflen, n) == ([(r.kind, r.buf)] + rest, end)
  {
    hide Read;
  }
}
