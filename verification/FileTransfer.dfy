/** The stop-and-wait file transfer of socket_app: a sender and a receiver state machine
    (share.c, driven by server.c and client.c) over a reliable in-order channel. */
module FileTransfer {
  type byte = x: int | 0 <= x < 256

  const TEST: nat := 50000
  const DATEMAX: nat := 60000
  /** struct msg_st is packed: one byte of flag, four of length. */
  const CAPACITY: nat := DATEMAX - 5

  // ----- byte order -----

  datatype Host = LittleEndian | BigEndian

  /** The four bytes of a 32-bit word in the other order. */
  function Swap(n: nat): nat
    requires n < 0x1_0000_0000
  {
    n % 0x100 * 0x100_0000 + n / 0x100 % 0x100 * 0x1_0000 + n / 0x1_0000 % 0x100 * 0x100 + n / 0x100_0000
  }

  /** htonl and ntohl. */
  function NetLong(host: Host, n: nat): (r: nat)
    requires n < 0x1_0000_0000
    ensures r < 0x1_0000_0000
  {
    if host == LittleEndian then Swap(n) else n
  }

  lemma SwapDigits(a: nat, b: nat, c: nat, d: nat)
    requires a < 0x100 && b < 0x100 && c < 0x100 && d < 0x100
    ensures var n := a * 0x100_0000 + b * 0x1_0000 + c * 0x100 + d;
            n < 0x1_0000_0000 && Swap(n) == d * 0x100_0000 + c * 0x1_0000 + b * 0x100 + a
  {
    var n := a * 0x100_0000 + b * 0x1_0000 + c * 0x100 + d;
    LastDigit(a * 0x1_0000 + b * 0x100 + c, d);
    LastDigit(a * 0x100 + b, c);
    LastDigit(a, b);
    assert n / 0x1_0000 == n / 0x100 / 0x100 && n / 0x100_0000 == n / 0x100 / 0x100 / 0x100;
  }

  lemma LastDigit(high: nat, d: nat)
    requires d < 0x100
    ensures (high * 0x100 + d) / 0x100 == high && (high * 0x100 + d) % 0x100 == d
  {
  }

  lemma NetLongTwice(host: Host, n: nat)
    requires n < 0x1_0000_0000
    ensures NetLong(host, NetLong(host, n)) == n
  {
    if host == LittleEndian {
      var a, b, c, d := Digits(n);
      hide Swap;
      SwapDigits(a, b, c, d);
      SwapDigits(d, c, b, a);
    }
  }

  lemma Digits(n: nat) returns (a: nat, b: nat, c: nat, d: nat)
    requires n < 0x1_0000_0000
    ensures a < 0x100 && b < 0x100 && c < 0x100 && d < 0x100
    ensures n == a * 0x100_0000 + b * 0x1_0000 + c * 0x100 + d
  {
    d, c, b, a := n % 0x100, n / 0x100 % 0x100, n / 0x100 / 0x100 % 0x100, n / 0x100 / 0x100 / 0x100;
  }

  /** The end-of-file test compares the length in network order. On a little-endian host
      it fires only for an empty chunk, on a big-endian one for every short chunk. */
  lemma ShortChunk(host: Host, n: nat)
    requires n <= TEST
    ensures NetLong(host, n) < TEST <==> if host == LittleEndian then n == 0 else n < TEST
  {
    if host == LittleEndian && n > 0 {
      assert n / 0x1_0000 % 0x100 == 0 && n / 0x100_0000 == 0;
      assert n % 0x100 > 0 || n / 0x100 % 0x100 > 0;
    }
  }

  // ----- states -----

  datatype Phase =
    | ReadFile
    | SendLength
    | RcvLength
    | SendFile
    | RcvData
    | RcvAck
    | SendAck
    | SendEot
    | StateAuto
    | RcvEot
    | T

  /** fsm->buf, with the length field in network order. */
  datatype Buffer = Buffer(flag: char, len: nat, data: seq<byte>)

  /** A datagram: the whole buffer, or only its flag. */
  datatype Packet = Full(buf: Buffer) | FlagOnly(flag: char)

  datatype Machine = Machine(phase: Phase, buf: Buffer)

  /** Both machines, the two directions of the channel, how far the sender has read, and
      what the receiver has written and counted. */
  datatype State = State(
    host: Host,
    file: seq<byte>,
    snd: Machine,
    pos: nat,
    rcv: Machine,
    out: seq<byte>,
    down: nat,
    forth: seq<Packet>,
    back: seq<Packet>)

  predicate WfBuffer(b: Buffer) {
    |b.data| == CAPACITY && b.len < 0x1_0000_0000
  }

  /** A download announces the length first; an upload starts with the data. Both buffers
      hold what the exchange of names left in them. */
  predicate Start(s: State, download: bool) {
    && s.snd.phase == (if download then SendLength else ReadFile)
    && s.rcv.phase == (if download then RcvLength else RcvData)
    && WfBuffer(s.snd.buf) && WfBuffer(s.rcv.buf)
    && s.pos == 0 && s.out == [] && s.down == 0 && s.forth == [] && s.back == []
  }

  // ----- steps -----

  /** fread fills the front of the data area with the next chunk. */
  function ChunkSize(s: State): nat
    requires s.pos <= |s.file|
  {
    if |s.file| - s.pos < TEST then |s.file| - s.pos else TEST
  }

  predicate SenderEnabled(s: State) {
    match s.snd.phase
    case SendLength => true
    case ReadFile => s.pos <= |s.file|
    case SendFile => true
    case RcvAck => s.back != []
    case SendEot => true
    case _ => false
  }

  /** recvfrom into a buffer. */
  function Received(b: Buffer, p: Packet): Buffer {
    match p
    case Full(buf) => buf
    case FlagOnly(flag) => b.(flag := flag)
  }

  function SenderNext(s: State, lengthBytes: seq<byte>): State
    requires SenderEnabled(s) && WfBuffer(s.snd.buf) && |lengthBytes| == 8
  {
    var b := s.snd.buf;
    match s.snd.phase
    case SendLength =>
      var m := Buffer('l', NetLong(s.host, 8), lengthBytes + b.data[8..]);
      s.(snd := Machine(ReadFile, m), forth := s.forth + [Full(m)])
    case ReadFile =>
      var n := ChunkSize(s);
      var m := Buffer(b.flag, NetLong(s.host, n), s.file[s.pos..s.pos + n] + b.data[n..]);
      if m.len < TEST then s.(snd := Machine(SendEot, m.(flag := 'e')), pos := s.pos + n)
      else s.(snd := Machine(SendFile, m), pos := s.pos + n)
    case SendFile =>
      var m := b.(flag := 'd');
      s.(snd := Machine(RcvAck, m), forth := s.forth + [Full(m)])
    case RcvAck =>
      var m := Received(b, s.back[0]);
      s.(snd := Machine(if m.flag == 'a' then ReadFile else if m.flag == 'c' then SendEot else SendFile, m),
         back := s.back[1..])
    case SendEot =>
      s.(snd := Machine(StateAuto, b.(flag := 'e')), forth := s.forth + [FlagOnly('e')])
    case _ => s
  }

  predicate ReceiverEnabled(s: State) {
    match s.rcv.phase
    case RcvLength => s.forth != []
    case RcvData => s.forth != []
    case SendAck => true
    case _ => false
  }

  /** The bytes _receive_data writes: the first `len` of the data area. */
  function Payload(host: Host, b: Buffer): seq<byte>
    requires b.len < 0x1_0000_0000
  {
    var n := NetLong(host, b.len);
    if n <= |b.data| then b.data[..n] else b.data
  }

  function ReceiverNext(s: State): State
    requires ReceiverEnabled(s) && WfBuffer(s.rcv.buf)
    requires s.forth != [] && s.forth[0].Full? ==> WfBuffer(s.forth[0].buf)
  {
    match s.rcv.phase
    case RcvLength =>
      var m := Received(s.rcv.buf, s.forth[0]);
      s.(rcv := Machine(if m.flag == 'l' then RcvData else if m.flag == 'e' || m.flag == 'c' then RcvEot else T, m),
         forth := s.forth[1..])
    case RcvData =>
      var m := Received(s.rcv.buf, s.forth[0]);
      var r := s.(forth := s.forth[1..], down := s.down + NetLong(s.host, m.len));
      if m.flag == 'd' then
        r.(rcv := Machine(SendAck, m.(flag := 'a')), out := s.out + Payload(s.host, m))
      else if m.flag == 'e' || m.flag == 'c' then r.(rcv := Machine(RcvEot, m))
      else r.(rcv := Machine(RcvData, m))
    case SendAck =>
      s.(rcv := Machine(RcvData, s.rcv.buf.(flag := 'a')), back := s.back + [FlagOnly(s.rcv.buf.flag)])
    case _ => s
  }

  /** One step of either side; announcing the length copies the 8 bytes of a `long`. */
  datatype Action = SenderStep(lengthBytes: seq<byte>) | ReceiverStep

  ghost predicate Enabled(s: State, a: Action) {
    match a
    case SenderStep(lengthBytes) => SenderEnabled(s) && WfBuffer(s.snd.buf) && |lengthBytes| == 8
    case ReceiverStep =>
      ReceiverEnabled(s) && WfBuffer(s.rcv.buf) && (s.forth != [] && s.forth[0].Full? ==> WfBuffer(s.forth[0].buf))
  }

  function Next(s: State, a: Action): State
    requires Enabled(s, a)
  {
    match a
    case SenderStep(lengthBytes) => SenderNext(s, lengthBytes)
    case ReceiverStep => ReceiverNext(s)
  }

  ghost predicate IsSchedule(s: State, acts: seq<Action>)
    decreases |acts|
  {
    acts == [] || (Enabled(s, acts[0]) && IsSchedule(Next(s, acts[0]), acts[1..]))
  }

  ghost function Run(s: State, acts: seq<Action>): State
    requires IsSchedule(s, acts)
    decreases |acts|
  {
    if acts == [] then s else Run(Next(s, acts[0]), acts[1..])
  }

  // ----- the invariant -----

  /** How much of a file of n bytes arrives: a big-endian host drops a short last chunk. */
  function Delivered(host: Host, n: nat): (m: nat)
    ensures m <= n
  {
    if host == LittleEndian then n else n - n % TEST
  }

  /** The receiver listens, with `rest` in the channel behind an announcement it may not
      have read yet. */
  predicate Listening(s: State, rest: seq<Packet>) {
    || (s.rcv.phase == RcvData && s.forth == rest)
    || (s.rcv.phase == RcvLength && |s.forth| == |rest| + 1 && s.forth[1..] == rest
        && s.forth[0].Full? && s.forth[0].buf.flag == 'l' && WfBuffer(s.forth[0].buf))
  }

  /** The sender's buffer holds the last chunk read, which the receiver does not have yet. */
  predicate HoldsChunk(s: State)
    requires WfBuffer(s.snd.buf)
  {
    var n := NetLong(s.host, s.snd.buf.len);
    0 < n <= TEST && n <= s.pos <= |s.file| && s.snd.buf.data[..n] == s.file[s.pos - n..s.pos]
    && s.out == s.file[..s.pos - n]
  }

  predicate UpToDate(s: State) {
    s.pos <= |s.file| && s.out == s.file[..s.pos]
  }

  ghost predicate Inv(s: State) {
    && WfBuffer(s.snd.buf) && WfBuffer(s.rcv.buf) && s.pos <= |s.file|
    && match s.snd.phase
       case SendLength => s.rcv.phase == RcvLength && s.forth == [] && s.back == [] && s.pos == 0 && s.out == []
       case ReadFile => Listening(s, []) && s.back == [] && UpToDate(s) && Aligned(s)
       case SendFile => Listening(s, []) && s.back == [] && HoldsChunk(s) && Aligned(s)
       case RcvAck =>
         && Aligned(s)
         && (|| (Listening(s, [Full(s.snd.buf)]) && s.back == [] && HoldsChunk(s) && s.snd.buf.flag == 'd')
             || (s.rcv.phase == SendAck && s.forth == [] && s.back == [] && UpToDate(s) && s.rcv.buf.flag == 'a')
             || (s.rcv.phase == RcvData && s.forth == [] && s.back == [FlagOnly('a')] && UpToDate(s)))
       case SendEot => Listening(s, []) && s.back == [] && Complete(s)
       case StateAuto =>
         && s.back == [] && Complete(s)
         && (Listening(s, [FlagOnly('e')]) || (s.rcv.phase == RcvEot && s.forth == []))
       case _ => false
  }

  predicate Complete(s: State) {
    s.out == s.file[..Delivered(s.host, |s.file|)]
  }

  /** A big-endian host only goes on after a full chunk. */
  predicate Aligned(s: State) {
    s.host == BigEndian ==> s.pos % TEST == 0
  }

  lemma StartInv(s: State, download: bool)
    requires Start(s, download)
    ensures Inv(s)
  {
  }

  lemma ReadInv(s: State, lengthBytes: seq<byte>)
    requires Inv(s) && Enabled(s, SenderStep(lengthBytes)) && s.snd.phase == ReadFile
    ensures Inv(SenderNext(s, lengthBytes))
  {
    hide Listening, Swap;
    var n := ChunkSize(s);
    ShortChunk(s.host, n);
    NetLongTwice(s.host, n);
    var r := SenderNext(s, lengthBytes);
    assert Listening(r, []) by {
      SameListening(s, r, []);
    }
    assert r.snd.buf.data[..n] == s.file[s.pos..s.pos + n];
    if r.snd.phase == SendEot {
      assert s.pos == Delivered(s.host, |s.file|);
    }
  }

  lemma SameListening(s: State, r: State, rest: seq<Packet>)
    requires s.rcv == r.rcv && s.forth == r.forth
    ensures Listening(s, rest) == Listening(r, rest)
  {
  }

  lemma SenderInv(s: State, lengthBytes: seq<byte>)
    requires Inv(s) && Enabled(s, SenderStep(lengthBytes))
    ensures Inv(SenderNext(s, lengthBytes))
  {
    if s.snd.phase == ReadFile {
      ReadInv(s, lengthBytes);
    } else {
      hide Swap, NetLong;
    }
  }

  lemma ReceiverInv(s: State)
    requires Inv(s) && Enabled(s, ReceiverStep)
    ensures Inv(ReceiverNext(s))
  {
    hide Swap, NetLong;
  }

  lemma StepInv(s: State, a: Action)
    requires Inv(s) && Enabled(s, a)
    ensures Inv(Next(s, a)) && Next(s, a).file == s.file && Next(s, a).host == s.host
  {
    hide Inv;
    match a
    case SenderStep(lengthBytes) => SenderInv(s, lengthBytes);
    case ReceiverStep => ReceiverInv(s);
  }

  lemma {:induction false} RunInv(s: State, acts: seq<Action>)
    requires Inv(s) && IsSchedule(s, acts)
    ensures var r := Run(s, acts); Inv(r) && r.file == s.file && r.host == s.host
    decreases |acts|
  {
    hide Inv, Enabled, Next;
    if acts != [] {
      StepInv(s, acts[0]);
      RunInv(Next(s, acts[0]), acts[1..]);
    }
  }

  // ----- safety over whole runs -----

  function CountData(ps: seq<Packet>): nat {
    if ps == [] then 0 else (if ps[0].Full? && ps[0].buf.flag == 'd' then 1 else 0) + CountData(ps[1..])
  }

  /** In every run the received file is a prefix of the sent one, and at most one data
      packet is in flight, being acknowledged or acknowledged. */
  lemma StopAndWait(s: State, download: bool, acts: seq<Action>)
    requires Start(s, download) && IsSchedule(s, acts)
    ensures var r := Run(s, acts);
            && |r.out| <= |s.file| && r.out == s.file[..|r.out|]
            && CountData(r.forth) + (if r.rcv.phase == SendAck then 1 else 0) + |r.back| <= 1
  {
    StartInv(s, download);
    RunInv(s, acts);
    var r := Run(s, acts);
    hide Run, IsSchedule, Swap;
    if r.forth != [] {
      assert CountData(r.forth[1..]) <= 1;
    }
  }

  /** When the receiver has seen the end, it has exactly what the sender's host delivers:
      the whole file on a little-endian host, and on a big-endian one exactly when the
      length is a multiple of the chunk size. */
  lemma FilesEqual(s: State, download: bool, acts: seq<Action>)
    requires Start(s, download) && IsSchedule(s, acts) && Run(s, acts).rcv.phase == RcvEot
    ensures var r := Run(s, acts);
            && r.out == s.file[..Delivered(s.host, |s.file|)]
            && (r.out == s.file <==> s.host == LittleEndian || |s.file| % TEST == 0)
  {
    StartInv(s, download);
    RunInv(s, acts);
    var r := Run(s, acts);
    hide Run, IsSchedule, Swap;
    assert s.file[..|s.file|] == s.file;
    assert |r.out| == Delivered(s.host, |s.file|);
  }

  // ----- the byte counter -----

  /** _receive_data also adds the length field of the packet that ends the transfer, which
      carries none of its own: it is the field left over from the packet before. An upload
      that sends no data leaves the field `len0` of the packet that named the file. */
  ghost predicate CountInv(s: State, download: bool, len0: nat)
    requires WfBuffer(s.rcv.buf)
  {
    var left := NetLong(s.host, s.rcv.buf.len);
    && s.down == |s.out| + (if s.rcv.phase == RcvEot then left else 0)
    && (s.rcv.phase == RcvLength ==>
          && download && s.out == []
          && (s.forth != [] && s.forth[0].Full? ==> s.forth[0].buf.len == NetLong(s.host, 8)))
    && (s.rcv.phase != RcvLength ==> if s.out != [] || download then left > 0 else s.rcv.buf.len == len0)
  }

  lemma StepCount(s: State, download: bool, len0: nat, a: Action)
    requires Inv(s) && CountInv(s, download, len0) && Enabled(s, a)
    ensures WfBuffer(Next(s, a).rcv.buf) && CountInv(Next(s, a), download, len0)
  {
    hide NetLong;
    StepInv(s, a);
    match a
    case SenderStep(lengthBytes) => SenderCount(s, download, len0, lengthBytes);
    case ReceiverStep => ReceiverCount(s, download, len0);
  }

  lemma SenderCount(s: State, download: bool, len0: nat, lengthBytes: seq<byte>)
    requires Inv(s) && CountInv(s, download, len0) && Enabled(s, SenderStep(lengthBytes))
    ensures CountInv(SenderNext(s, lengthBytes), download, len0)
  {
    hide NetLong;
    if s.rcv.phase == RcvLength && s.forth != [] {
      assert SenderNext(s, lengthBytes).forth[0] == s.forth[0];
    }
  }

  lemma ReceiverCount(s: State, download: bool, len0: nat)
    requires Inv(s) && CountInv(s, download, len0) && Enabled(s, ReceiverStep)
    ensures WfBuffer(ReceiverNext(s).rcv.buf) && CountInv(ReceiverNext(s), download, len0)
  {
    NetLongTwice(s.host, 8);
    hide NetLong;
    var r := ReceiverNext(s);
    if s.rcv.phase == RcvData && s.forth[0].Full? {
      var m := s.forth[0].buf;
      assert m == s.snd.buf && HoldsChunk(s);
      hide Inv;
      assert |Payload(s.host, m)| == NetLong(s.host, m.len);
      assert |r.out| == |s.out| + NetLong(s.host, m.len);
    }
  }

  lemma {:induction false} RunCount(s: State, download: bool, len0: nat, acts: seq<Action>)
    requires Inv(s) && CountInv(s, download, len0) && IsSchedule(s, acts)
    ensures var r := Run(s, acts); WfBuffer(r.rcv.buf) && CountInv(r, download, len0)
    decreases |acts|
  {
    if acts != [] {
      StepInv(s, acts[0]);
      StepCount(s, download, len0, acts[0]);
      hide CountInv, Enabled, Next;
      RunCount(Next(s, acts[0]), download, len0, acts[1..]);
    }
  }

  /** The counter is exact until the end; at the end it is too high, except for an upload
      that delivers nothing after a packet with length field 0. */
  lemma CounterOvershoots(s: State, download: bool, acts: seq<Action>)
    requires Start(s, download) && IsSchedule(s, acts)
    ensures var r := Run(s, acts);
            && (r.rcv.phase != RcvEot ==> r.down == |r.out|)
            && (r.rcv.phase == RcvEot ==>
                  && r.down >= |r.out|
                  && (r.down == |r.out| <==>
                        !download && Delivered(s.host, |s.file|) == 0 && NetLong(s.host, s.rcv.buf.len) == 0))
  {
    StartInv(s, download);
    RunInv(s, acts);
    RunCount(s, download, s.rcv.buf.len, acts);
    hide NetLong;
    if Run(s, acts).rcv.phase == RcvEot {
      FilesEqual(s, download, acts);
    }
  }

  // ----- progress -----

  predicate Finished(s: State) {
    s.snd.phase == StateAuto && s.rcv.phase == RcvEot
  }

  lemma NoDeadlock(s: State)
    requires Inv(s) && !Finished(s)
    ensures Enabled(s, ReceiverStep) || Enabled(s, SenderStep(seq(8, _ => 0)))
  {
    hide Swap, NetLong;
  }

  /** Steps left: six for every byte still to be read, and the rest of the current turn. */
  function Potential(s: State): int {
    6 * (|s.file| - s.pos)
    + (match s.snd.phase
       case SendLength => 5
       case ReadFile => 3
       case SendFile => 7
       case RcvAck => if s.back != [] then 4 else if s.rcv.phase == SendAck then 5 else 6
       case SendEot => 2
       case _ => if s.rcv.phase == RcvEot then 0 else 1)
    + (if s.rcv.phase == RcvLength then 1 else 0)
  }

  lemma Descends(s: State, a: Action)
    requires Inv(s) && Enabled(s, a)
    ensures 0 <= Potential(Next(s, a)) < Potential(s)
  {
    StepInv(s, a);
    if s.snd.phase == ReadFile {
      ShortChunk(s.host, ChunkSize(s));
    }
    hide NetLong, Swap;
  }

  lemma {:induction false} RunDescends(s: State, acts: seq<Action>)
    requires Inv(s) && IsSchedule(s, acts)
    ensures |acts| + Potential(Run(s, acts)) <= Potential(s)
    decreases |acts|
  {
    hide Inv, Enabled, Next, Potential;
    if acts != [] {
      StepInv(s, acts[0]);
      Descends(s, acts[0]);
      RunDescends(Next(s, acts[0]), acts[1..]);
    }
  }

  /** Every run is finite, and one that cannot be continued has both sides finished. */
  lemma Terminates(s: State, download: bool, acts: seq<Action>)
    requires Start(s, download) && IsSchedule(s, acts)
    ensures |acts| <= 6 * |s.file| + 6
    ensures var r := Run(s, acts); (forall a :: !Enabled(r, a)) ==> Finished(r)
  {
    StartInv(s, download);
    RunInv(s, acts);
    RunDescends(s, acts);
    var r := Run(s, acts);
    assert Potential(s) <= 6 * |s.file| + 6;
    hide Run, Enabled, IsSchedule;
    if !Finished(r) {
      NoDeadlock(r);
    }
    NonNegative(r);
  }

  lemma NonNegative(s: State)
    requires Inv(s)
    ensures Potential(s) >= 0
  {
    hide NetLong, Swap;
  }
}
