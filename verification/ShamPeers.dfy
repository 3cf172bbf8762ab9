/** The two programs, with the buffers and variables they update in place, proved against the
    step functions of module Sham; and the whole transfer when the only loss is the one the
    receiver simulates. */
module ShamPeers {
  import opened Sham
  import opened ShamSafety

  class Sender {
    const file: seq<Byte>
    const data: array<Byte>
    var pos: nat
    var seqNum: SeqNum
    var bytesRead: nat
    var header: Header
    ghost var phase: Phase

    ghost predicate Valid()
      reads this
    {
      data.Length == PAYLOAD_SIZE && bytesRead <= PAYLOAD_SIZE && pos <= |file|
    }

    ghost function State(): SenderState
      reads this, data
      requires Valid()
    {
      SenderState(phase, pos, seqNum, bytesRead, header, data[..bytesRead])
    }

    /** After the file-name exchange; the buffer still holds what that exchange left in it. */
    constructor (file: seq<Byte>, seqNum: SeqNum)
      ensures Valid() && fresh(data) && this.file == file
      ensures State() == SenderState(Reading, 0, seqNum, 0, AckHeader(seqNum), [])
    {
      this.file := file;
      this.data := new Byte[PAYLOAD_SIZE];
      this.pos := 0;
      this.seqNum := seqNum;
      this.bytesRead := 0;
      this.header := AckHeader(seqNum);
      this.phase := Reading;
    }

    /** fread of the next block into the packet buffer; false at the end of the file. */
    method ReadChunk() returns (more: bool)
      requires Valid() && phase == Reading
      modifies this, data
      ensures Valid()
      ensures State() == ReadBlock(file, old(State()))
      ensures more <==> State().phase != Closed
      ensures more <==> old(pos) < |file|
      ensures bytesRead == if |file| - old(pos) < 1024 then |file| - old(pos) else 1024
      ensures pos == old(pos) + bytesRead && seqNum == old(seqNum)
      ensures more ==> data[..bytesRead] == file[old(pos)..pos] && header == Header(seqNum, 0, {})
    {
      bytesRead := Min(PAYLOAD_SIZE, |file| - pos);
      for i := 0 to bytesRead
        invariant unchanged(`pos, `seqNum, `header, `phase) && bytesRead == Min(PAYLOAD_SIZE, |file| - pos)
        invariant data[..i] == file[pos..pos + i]
      {
        data[i] := file[pos + i];
      }
      pos := pos + bytesRead;
      more := bytesRead > 0;
      if more {
        header := Header(seqNum, 0, {});
        phase := Sending;
      } else {
        phase := Closed;
      }
    }

    method Send() returns (p: Packet)
      requires Valid() && phase == Sending
      modifies this`phase
      ensures Valid() && State() == old(State()).(phase := Waiting)
      ensures p == Outgoing(State()) == Packet(header, data[..bytesRead])
    {
      p := Packet(header, data[..bytesRead]);
      phase := Waiting;
    }

    /** recvfrom into the header of the packet buffer; None is the retransmission timeout. */
    method Receive(reply: Option<Header>) returns (acked: bool)
      requires Valid() && phase == Waiting
      modifies this
      ensures Valid()
      ensures State() == if reply.Some? then SenderReceives(old(State()), reply.value) else SenderTimesOut(old(State()))
      ensures acked <==> phase == Reading
      ensures acked <==>
        && reply.Some? && ACK in reply.value.flags
        && reply.value.ackNum == (old(seqNum) + old(bytesRead)) % 0x1_0000_0000
      ensures header == if reply.Some? then reply.value else old(header)
      ensures seqNum == if acked then (old(seqNum) + old(bytesRead)) % 0x1_0000_0000 else old(seqNum)
      ensures pos == old(pos) && bytesRead == old(bytesRead)
    {
      acked := false;
      phase := Sending;
      if reply.Some? {
        header := reply.value;
        if ACK in header.flags && header.ackNum == (seqNum + bytesRead) % SEQ_SPACE {
          seqNum := (seqNum + bytesRead) % SEQ_SPACE;
          acked := true;
          phase := Reading;
        }
      }
    }
  }

  class Receiver {
    var expected: SeqNum
    var written: seq<Byte>
    var done: bool
    var finSeq: SeqNum

    ghost function State(): ReceiverState
      reads this
    {
      ReceiverState(expected, written, done, finSeq)
    }

    constructor (expected: SeqNum)
      ensures State() == ReceiverState(expected, [], false, 0)
    {
      this.expected := expected;
      this.written := [];
      this.done := false;
      this.finSeq := 0;
    }

    /** One turn of the receive loop. */
    method Receive(p: Packet, dropped: bool) returns (reply: Option<Header>)
      requires !done
      modifies this
      ensures State() == ReceiverReceives(old(State()), p, dropped)
      ensures reply == ReceiverReplies(old(State()), p, dropped)
      ensures done <==> FIN in p.header.flags
      ensures done ==> finSeq == p.header.seqNum
      ensures written == old(written) +
        if !done && !dropped && p.header.seqNum == old(expected) then p.data else []
      ensures expected == (old(expected) + |written| - |old(written)|) % 0x1_0000_0000
      ensures reply == if done || dropped then None else Some(Header(0, expected, {ACK}))
    {
      if FIN in p.header.flags {
        finSeq := p.header.seqNum;
        done := true;
        return None;
      }
      if dropped {
        return None;
      }
      if p.header.seqNum == expected {
        written := written + p.data;
        expected := (expected + |p.data|) % SEQ_SPACE;
      }
      reply := Some(AckHeader(expected));
    }
  }

  // The transfer under the receiver's own loss simulation

  /** Which data packets the receiver drops, in the order of arrival; later ones get through. */
  predicate DropsAt(losses: seq<bool>, i: nat) {
    i < |losses| && losses[i]
  }

  function Drops(losses: seq<bool>, n: nat): (count: nat)
    ensures count <= n
  {
    if n == 0 then 0 else Drops(losses, n - 1) + if DropsAt(losses, n - 1) then 1 else 0
  }

  /** The drops among the first n arrivals, counted in the list itself. */
  lemma {:induction false} DropsCount(losses: seq<bool>, n: nat)
    ensures Drops(losses, n) == multiset(losses[..Min(|losses|, n)])[true]
  {
    if n > 0 {
      DropsCount(losses, n - 1);
      if n <= |losses| {
        assert losses[..n] == losses[..n - 1] + [losses[n - 1]];
      }
    }
  }

  /** The header and the bytes of a data packet, written out. */
  ghost predicate IsBlock(t: Transfer, k: nat, p: Packet) {
    && 1024 * k < |t.file|
    && p.header == Header((t.start + |t.name| + 1024 * k) % 0x1_0000_0000, 0, {})
    && p.data == t.file[1024 * k..if 1024 * k + 1024 < |t.file| then 1024 * k + 1024 else |t.file|]
  }

  lemma DataPacketIsBlock(t: Transfer, k: nat)
    requires k < Chunks(|t.file|)
    ensures IsBlock(t, k, DataPacket(t, k))
  {
  }

  lemma {:induction false} DropsBounded(losses: seq<bool>, n: nat)
    ensures n <= |losses| ==> Drops(losses, n) <= Drops(losses, |losses|)
    ensures n >= |losses| ==> Drops(losses, n) == Drops(losses, |losses|)
    decreases if n < |losses| then |losses| - n else n - |losses|
  {
    if n < |losses| {
      DropsBounded(losses, n + 1);
    } else if n > |losses| {
      DropsBounded(losses, n - 1);
    }
  }

  /** The sender is about to send chunk c under its own header. */
  ghost predicate AtChunk(t: Transfer, s: SenderState, c: nat) {
    && c < Chunks(|t.file|)
    && s.phase == Sending
    && s.pos == Offset(|t.file|, c + 1)
    && s.seqNum == Boundary(t, c)
    && s.bytesRead == |Chunk(t, c)|
    && Outgoing(s) == DataPacket(t, c)
  }

  ghost predicate PastChunk(t: Transfer, s: SenderState, c: nat) {
    && c <= Chunks(|t.file|)
    && s.phase == Reading
    && s.pos == Offset(|t.file|, c)
    && s.seqNum == Boundary(t, c)
  }

  lemma ReadReachesChunk(t: Transfer, s: SenderState, c: nat)
    requires PastChunk(t, s, c)
    ensures s.pos <= |t.file|
    ensures
      var s' := ReadBlock(t.file, s);
      if c < Chunks(|t.file|) then AtChunk(t, s', c) else s'.phase == Closed && s'.seqNum == Boundary(t, c)
  {
    LastOffset(|t.file|);
    if c < Chunks(|t.file|) {
      ChunkFacts(t, c);
      OffsetsIncrease(|t.file|, c, Chunks(|t.file|));
    }
  }

  /** The log of data sends once `c` chunks are through: send i carried the chunk whose number
      is i less the drops before it. */
  ghost predicate SentInOrder(t: Transfer, losses: seq<bool>, sent: seq<Packet>, c: nat) {
    && |sent| == c + Drops(losses, |sent|)
    && forall i | 0 <= i < |sent| :: sent[i] == SentAt(t, losses, i) && i - Drops(losses, i) < Chunks(|t.file|)
  }

  /** The packet that send i carries. */
  function SentAt(t: Transfer, losses: seq<bool>, i: nat): Packet {
    DataPacket(t, i - Drops(losses, i))
  }

  lemma SentExtends(t: Transfer, losses: seq<bool>, sent: seq<Packet>, c: nat)
    requires SentInOrder(t, losses, sent, c) && c < Chunks(|t.file|)
    ensures SentInOrder(t, losses, sent + [DataPacket(t, c)], if DropsAt(losses, |sent|) then c else c + 1)
  {
    assert SentAt(t, losses, |sent|) == DataPacket(t, c);
  }

  /** One turn of send and wait, from the sender's state `s` and the receiver's `r`. */
  lemma OneTurn(t: Transfer, s: SenderState, r: ReceiverState, c: nat, dropped: bool)
    requires AtChunk(t, s, c) && ReceiverInv(t, r, c) && !r.done
    ensures
      var p := DataPacket(t, c);
      var r' := ReceiverReceives(r, p, dropped);
      var reply := ReceiverReplies(r, p, dropped);
      var waiting := s.(phase := Waiting);
      && !r'.done
      && if dropped then
           reply == None && AtChunk(t, SenderTimesOut(waiting), c) && ReceiverInv(t, r', c)
         else
           && reply.Some? && Acknowledges(waiting, reply.value)
           && PastChunk(t, SenderReceives(waiting, reply.value), c + 1) && ReceiverInv(t, r', c + 1)
  {
    ChunkFacts(t, c);
  }

  /** The condition of the outer loop. */
  method ReadNext(ghost t: Transfer, ghost c: nat, sender: Sender) returns (more: bool)
    requires sender.Valid() && sender.file == t.file && PastChunk(t, sender.State(), c)
    modifies sender, sender.data
    ensures sender.Valid()
    ensures more ==> AtChunk(t, sender.State(), c)
    ensures !more ==> c == Chunks(|t.file|) && sender.seqNum == Boundary(t, c)
  {
    ReadReachesChunk(t, sender.State(), c);
    more := sender.ReadChunk();
  }

  /** The inner loop: one chunk is sent again and again until its ACK comes back. */
  method SendUntilAcked(
    ghost t: Transfer, ghost c: nat, sender: Sender, receiver: Receiver, losses: seq<bool>, log: seq<Packet>)
    returns (sent: seq<Packet>)
    requires sender.Valid() && AtChunk(t, sender.State(), c)
    requires ReceiverInv(t, receiver.State(), c) && !receiver.done
    requires SentInOrder(t, losses, log, c)
    modifies sender, sender.data, receiver
    ensures sender.Valid() && PastChunk(t, sender.State(), c + 1)
    ensures ReceiverInv(t, receiver.State(), c + 1) && !receiver.done
    ensures SentInOrder(t, losses, sent, c + 1)
  {
    sent := log;
    var acked := false;
    while !acked
      invariant sender.Valid() && !receiver.done
      invariant SentInOrder(t, losses, sent, if acked then c + 1 else c)
      invariant !acked ==> AtChunk(t, sender.State(), c) && ReceiverInv(t, receiver.State(), c)
      invariant acked ==> PastChunk(t, sender.State(), c + 1) && ReceiverInv(t, receiver.State(), c + 1)
      decreases Drops(losses, |losses|) - Drops(losses, |sent|), !acked
    {
      DropsBounded(losses, |sent| + 1);
      SentExtends(t, losses, sent, c);
      var p;
      acked, p := SendOnce(t, c, sender, receiver, DropsAt(losses, |sent|));
      sent := sent + [p];
    }
  }

  /** One turn of the inner loop: one send, and the wait for its answer. */
  method SendOnce(ghost t: Transfer, ghost c: nat, sender: Sender, receiver: Receiver, dropped: bool)
    returns (acked: bool, p: Packet)
    requires sender.Valid() && AtChunk(t, sender.State(), c)
    requires ReceiverInv(t, receiver.State(), c) && !receiver.done
    modifies sender, sender.data, receiver
    ensures sender.Valid() && !receiver.done && p == DataPacket(t, c) && acked == !dropped
    ensures !acked ==> AtChunk(t, sender.State(), c) && ReceiverInv(t, receiver.State(), c)
    ensures acked ==> PastChunk(t, sender.State(), c + 1) && ReceiverInv(t, receiver.State(), c + 1)
  {
    OneTurn(t, sender.State(), receiver.State(), c, dropped);
    p := sender.Send();
    var reply := receiver.Receive(p, dropped);
    acked := sender.Receive(reply);
  }

  /** The outer loop: chunk after chunk until the file is read to its end. */
  method TransferChunks(ghost t: Transfer, sender: Sender, receiver: Receiver, losses: seq<bool>)
    returns (sent: seq<Packet>)
    requires sender.Valid() && sender.file == t.file && PastChunk(t, sender.State(), 0)
    requires ReceiverInv(t, receiver.State(), 0) && !receiver.done
    modifies sender, sender.data, receiver
    ensures ReceiverInv(t, receiver.State(), Chunks(|t.file|)) && !receiver.done
    ensures sender.seqNum == Boundary(t, Chunks(|t.file|))
    ensures SentInOrder(t, losses, sent, Chunks(|t.file|))
  {
    sent := [];
    ghost var c: nat := 0;
    var more := ReadNext(t, c, sender);
    while more
      invariant sender.Valid()
      invariant ReceiverInv(t, receiver.State(), c) && !receiver.done
      invariant SentInOrder(t, losses, sent, c)
      invariant if more then AtChunk(t, sender.State(), c)
                else c == Chunks(|t.file|) && sender.seqNum == Boundary(t, c)
      decreases Chunks(|t.file|) - c
    {
      sent := SendUntilAcked(t, c, sender, receiver, losses, sent);
      c := c + 1;
      more := ReadNext(t, c, sender);
    }
  }

  /** The FIN arrives; the simulated loss is not asked. */
  method Finish(ghost t: Transfer, seqNum: SeqNum, receiver: Receiver, dropped: bool)
    returns (written: seq<Byte>, finSeq: SeqNum)
    requires ReceiverInv(t, receiver.State(), Chunks(|t.file|)) && !receiver.done
    modifies receiver
    ensures receiver.done && written == t.file && finSeq == seqNum
  {
    var _ := receiver.Receive(FinPacket(seqNum), dropped);
    LastOffset(|t.file|);
    written, finSeq := receiver.written, receiver.finSeq;
  }

  /** The block that each send carries. */
  ghost predicate IsSendLog(t: Transfer, losses: seq<bool>, sent: seq<Packet>, blocks: seq<nat>) {
    && |blocks| == |sent|
    && (forall i | 0 <= i < |sent| :: IsBlock(t, blocks[i], sent[i]))
    && (sent != [] ==> blocks[0] == 0)
    && (forall i | 0 < i < |sent| ::
          blocks[i] == blocks[i - 1] + if i <= |losses| && losses[i - 1] then 0 else 1)
  }

  lemma SendsCounted(t: Transfer, losses: seq<bool>, sent: seq<Packet>)
    requires SentInOrder(t, losses, sent, Chunks(|t.file|))
    ensures |sent| == (|t.file| + 1023) / 1024 + multiset(losses[..Min(|losses|, |sent|)])[true]
  {
    DropsCount(losses, |sent|);
  }

  lemma LastBoundary(t: Transfer)
    ensures Boundary(t, Chunks(|t.file|)) == (t.start + |t.name| + |t.file|) % 0x1_0000_0000
  {
    LastOffset(|t.file|);
  }

  lemma SendLogFollows(t: Transfer, losses: seq<bool>, sent: seq<Packet>) returns (blocks: seq<nat>)
    requires SentInOrder(t, losses, sent, Chunks(|t.file|))
    ensures IsSendLog(t, losses, sent, blocks)
  {
    blocks := seq(|sent|, i requires 0 <= i => i - Drops(losses, i));
    forall i | 0 <= i < |sent| ensures IsBlock(t, blocks[i], sent[i]) {
      assert sent[i] == SentAt(t, losses, i);
      DataPacketIsBlock(t, blocks[i]);
    }
  }

  /** Every loss is answered by one identical retransmission and nothing else is sent: the
      number of data sends is the number of blocks of 1024 bytes, the last perhaps shorter, plus
      the number of arrivals that the list of losses drops, and each send repeats the block
      before it if that was lost and carries the next one otherwise. The transfer ends, for files
      of any length, with the file intact. */
  method TransferUnderSimulatedLoss(t: Transfer, losses: seq<bool>)
    returns (written: seq<Byte>, finSeq: SeqNum, sent: seq<Packet>, ghost blocks: seq<nat>)
    ensures written == t.file
    ensures finSeq == (t.start + |t.name| + |t.file|) % 0x1_0000_0000
    ensures |sent| == (|t.file| + 1023) / 1024 + multiset(losses[..Min(|losses|, |sent|)])[true]
    ensures IsSendLog(t, losses, sent, blocks)
  {
    var first := SeqAt(t.start, |t.name|, |t.file|, 0);
    var sender := new Sender(t.file, first);
    var receiver := new Receiver(first);
    sent := TransferChunks(t, sender, receiver, losses);
    written, finSeq := Finish(t, sender.seqNum, receiver, DropsAt(losses, |sent|));
    LastBoundary(t);
    SendsCounted(t, losses, sent);
    blocks := SendLogFollows(t, losses, sent);
  }
}
