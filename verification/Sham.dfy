/** The SHAM file transfer as a state machine: a stop-and-wait sender, a receiver that
    answers every packet with a cumulative ACK, and a network between them that may lose,
    duplicate, delay and reorder whatever is in flight. The run starts after the file-name
    exchange. Both peers' program steps are functions here; module ShamPeers proves the
    imperative peers against them. */
module Sham {
  import opened Sequences

  const SEQ_SPACE := 0x1_0000_0000
  const PAYLOAD_SIZE := 1024

  type Byte = b: int | 0 <= b < 256
  type SeqNum = x: int | 0 <= x < SEQ_SPACE

  datatype Option<+T> = None | Some(value: T)

  datatype Flag = SYN | ACK | FIN | FILENAME

  datatype Header = Header(seqNum: SeqNum, ackNum: SeqNum, flags: set<Flag>)

  datatype Packet = Packet(header: Header, data: seq<Byte>)

  /** What one transfer is given: the sequence number of the file-name packet, the number the
      server has drawn, whether a second copy of its SYN-ACK may still be under way, the name
      with its terminating zero byte, and the file. */
  datatype Transfer = Transfer(start: SeqNum, serverSeq: SeqNum, lateSynAck: bool, name: seq<Byte>, file: seq<Byte>)

  ghost predicate WellFormed(t: Transfer) {
    0 < |t.name| <= PAYLOAD_SIZE
  }

  /** 32-bit unsigned addition. */
  function Advance(s: SeqNum, n: nat): SeqNum {
    (s + n) % SEQ_SPACE
  }

  function Min(a: nat, b: nat): nat {
    if a < b then a else b
  }

  // Where the chunks of a file lie. Chunk k is the k-th block the sender reads.

  function Chunks(length: nat): nat {
    (length + PAYLOAD_SIZE - 1) / PAYLOAD_SIZE
  }

  function Offset(length: nat, k: nat): nat {
    Min(PAYLOAD_SIZE * k, length)
  }

  /** The sequence number of chunk k, which is also the one that acknowledges chunk k - 1. */
  function SeqAt(start: SeqNum, nameLength: nat, length: nat, k: nat): SeqNum {
    Advance(start, nameLength + Offset(length, k))
  }

  function Boundary(t: Transfer, k: nat): SeqNum {
    SeqAt(t.start, |t.name|, |t.file|, k)
  }

  function Chunk(t: Transfer, k: nat): seq<Byte> {
    t.file[Offset(|t.file|, k)..Offset(|t.file|, k + 1)]
  }

  // The packets of the handshake; those to the server are headers without data

  function SynPacket(t: Transfer): Packet {
    Packet(Header(Advance(t.start, SEQ_SPACE - 1), 0, {SYN}), [])
  }

  function SynAckHeader(t: Transfer): Header {
    Header(t.serverSeq, t.start, {SYN, ACK})
  }

  function HandshakeAck(t: Transfer): Packet {
    Packet(Header(t.start, Advance(t.serverSeq, 1), {ACK}), [])
  }

  // The packets of the transfer

  function NamePacket(t: Transfer): Packet {
    Packet(Header(t.start, 0, {FILENAME}), t.name)
  }

  function DataPacket(t: Transfer, k: nat): Packet {
    Packet(Header(Boundary(t, k), 0, {}), Chunk(t, k))
  }

  function AckHeader(a: SeqNum): Header {
    Header(0, a, {ACK})
  }

  function FinPacket(s: SeqNum): Packet {
    Packet(Header(s, 0, {FIN}), [])
  }

  // The sender

  /** Where the sender stands: about to read, about to send, blocked in recvfrom, or gone. */
  datatype Phase = Reading | Sending | Waiting | Closed

  /** `header` is the header of the one packet buffer, which serves both for sending and for
      receiving; `payload` is the part of the buffer's data that the next send will carry. */
  datatype SenderState = SenderState(
    phase: Phase, pos: nat, seqNum: SeqNum, bytesRead: nat, header: Header, payload: seq<Byte>)

  /** fread of the next block, or the end of the transfer. */
  function ReadBlock(file: seq<Byte>, s: SenderState): SenderState
    requires s.pos <= |file|
  {
    var n := Min(PAYLOAD_SIZE, |file| - s.pos);
    if n == 0 then
      s.(phase := Closed, bytesRead := 0, payload := [])
    else
      SenderState(Sending, s.pos + n, s.seqNum, n, Header(s.seqNum, 0, {}), file[s.pos..s.pos + n])
  }

  function Outgoing(s: SenderState): Packet {
    Packet(s.header, s.payload)
  }

  predicate Acknowledges(s: SenderState, h: Header) {
    ACK in h.flags && h.ackNum == Advance(s.seqNum, s.bytesRead)
  }

  /** recvfrom overwrites the header of the buffer, whether or not the ACK is the right one. */
  function SenderReceives(s: SenderState, h: Header): SenderState {
    if Acknowledges(s, h) then
      s.(phase := Reading, header := h, seqNum := Advance(s.seqNum, s.bytesRead))
    else
      s.(phase := Sending, header := h)
  }

  function SenderTimesOut(s: SenderState): SenderState {
    s.(phase := Sending)
  }

  // The receiver

  datatype ReceiverState = ReceiverState(expected: SeqNum, written: seq<Byte>, done: bool, finSeq: SeqNum)

  /** One turn of the receiver's loop. `dropped` is the outcome of the simulated loss, which
      the code consults only for packets that are not a FIN. */
  function ReceiverReceives(r: ReceiverState, p: Packet, dropped: bool): ReceiverState {
    if FIN in p.header.flags then
      r.(done := true, finSeq := p.header.seqNum)
    else if !dropped && p.header.seqNum == r.expected then
      r.(written := r.written + p.data, expected := Advance(r.expected, |p.data|))
    else
      r
  }

  function ReceiverReplies(r: ReceiverState, p: Packet, dropped: bool): Option<Header> {
    if FIN in p.header.flags || dropped then None
    else Some(AckHeader(ReceiverReceives(r, p, dropped).expected))
  }

  // The whole system

  datatype World = World(
    sender: SenderState, receiver: ReceiverState, toReceiver: multiset<Packet>, toSender: multiset<Header>)

  datatype Step =
    | Read
    | Send
    | Timeout
    | DeliverAck(h: Header)
    | DeliverPacket(p: Packet, dropped: bool)
    | LosePacket(p: Packet)
    | LoseAck(h: Header)
    | DuplicatePacket(p: Packet)
    | DuplicateAck(h: Header)

  /** The file-name packet has been accepted and acknowledged. Second copies of these two and of
      the handshake's packets may still be under way; the network is free to lose them. */
  function Init(t: Transfer): World {
    var first := Boundary(t, 0);
    World(
      SenderState(Reading, 0, first, 0, AckHeader(first), []),
      ReceiverState(first, [], false, 0),
      multiset{NamePacket(t), SynPacket(t), HandshakeAck(t)},
      if t.lateSynAck then multiset{AckHeader(first), SynAckHeader(t)} else multiset{AckHeader(first)})
  }

  ghost predicate Enabled(t: Transfer, w: World, step: Step) {
    match step
    case Read => w.sender.phase == Reading && w.sender.pos <= |t.file|
    case Send => w.sender.phase == Sending
    case Timeout => w.sender.phase == Waiting
    case DeliverAck(h) => w.sender.phase == Waiting && h in w.toSender
    case DeliverPacket(p, _) => !w.receiver.done && p in w.toReceiver
    case LosePacket(p) => p in w.toReceiver
    case LoseAck(h) => h in w.toSender
    case DuplicatePacket(p) => p in w.toReceiver
    case DuplicateAck(h) => h in w.toSender
  }

  ghost function Next(t: Transfer, w: World, step: Step): World
    requires Enabled(t, w, step)
  {
    match step
    case Read =>
      var s := ReadBlock(t.file, w.sender);
      w.(sender := s,
         toReceiver := if s.phase == Closed then w.toReceiver + multiset{FinPacket(s.seqNum)} else w.toReceiver)
    case Send =>
      w.(sender := w.sender.(phase := Waiting), toReceiver := w.toReceiver + multiset{Outgoing(w.sender)})
    case Timeout =>
      w.(sender := SenderTimesOut(w.sender))
    case DeliverAck(h) =>
      w.(sender := SenderReceives(w.sender, h), toSender := w.toSender - multiset{h})
    case DeliverPacket(p, dropped) =>
      var reply := ReceiverReplies(w.receiver, p, dropped);
      w.(receiver := ReceiverReceives(w.receiver, p, dropped),
         toReceiver := w.toReceiver - multiset{p},
         toSender := if reply.Some? then w.toSender + multiset{reply.value} else w.toSender)
    case LosePacket(p) => w.(toReceiver := w.toReceiver - multiset{p})
    case LoseAck(h) => w.(toSender := w.toSender - multiset{h})
    case DuplicatePacket(p) => w.(toReceiver := w.toReceiver + multiset{p})
    case DuplicateAck(h) => w.(toSender := w.toSender + multiset{h})
  }

  /** `steps` is a schedule that leads from `w` to `last`. */
  ghost predicate Runs(t: Transfer, w: World, steps: seq<Step>, last: World)
    decreases |steps|
  {
    if steps == [] then w == last
    else Enabled(t, w, steps[0]) && Runs(t, Next(t, w, steps[0]), steps[1..], last)
  }

  ghost predicate Reaches(t: Transfer, w: World, last: World) {
    exists steps :: Runs(t, w, steps, last)
  }

  lemma ReachesSelf(t: Transfer, w: World)
    ensures Reaches(t, w, w)
  {
    assert Runs(t, w, [], w);
  }

  lemma ReachesByStep(t: Transfer, w: World, step: Step)
    requires Enabled(t, w, step)
    ensures Reaches(t, w, Next(t, w, step))
  {
    assert [step][1..] == [];
    assert Runs(t, w, [step], Next(t, w, step));
  }

  lemma RunsFromStep(t: Transfer, w: World, step: Step, rest: seq<Step>, last: World)
    requires Enabled(t, w, step) && Runs(t, Next(t, w, step), rest, last)
    ensures Runs(t, w, [step] + rest, last)
  {
    assert ([step] + rest)[1..] == rest;
  }

  lemma {:induction false} RunsCompose(t: Transfer, w: World, a: seq<Step>, mid: World, b: seq<Step>, last: World)
    requires Runs(t, w, a, mid) && Runs(t, mid, b, last)
    ensures Runs(t, w, a + b, last)
    decreases |a|
  {
    if a == [] {
      assert a + b == b;
    } else {
      RunsCompose(t, Next(t, w, a[0]), a[1..], mid, b, last);
      RunsFromStep(t, w, a[0], a[1..] + b, last);
      HeadOfConcat(a, b);
    }
  }

  lemma ReachesCompose(t: Transfer, w: World, mid: World, last: World)
    requires Reaches(t, w, mid) && Reaches(t, mid, last)
    ensures Reaches(t, w, last)
  {
    var a :| Runs(t, w, a, mid);
    var b :| Runs(t, mid, b, last);
    RunsCompose(t, w, a, mid, b, last);
  }
}
