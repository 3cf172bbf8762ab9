/** What holds in every state of every run of the transfer, whatever the network does. */
module ShamSafety {
  import opened Sham

  /** The sequence numbers of the headers the sender receives. Whatever arrives overwrites the
      header of the packet that is sent again. */
  function Strays(serverSeq: SeqNum, lateSynAck: bool): set<SeqNum> {
    if lateSynAck then {0, serverSeq} else {0}
  }

  /** The run cannot confuse two sequence numbers: the file is shorter than the sequence space,
      no chunk after the first and not the end of the file sits at a number that an overwritten
      header may carry, and none sits at the number of the file-name packet. All of it is known
      before the transfer starts. */
  ghost predicate NoCollision(start: SeqNum, strays: set<SeqNum>, nameLength: nat, length: nat) {
    && length < SEQ_SPACE
    && forall k {:trigger SeqAt(start, nameLength, length, k)} | 1 <= k <= Chunks(length) ::
         SeqAt(start, nameLength, length, k) !in strays && SeqAt(start, nameLength, length, k) != start
  }

  ghost predicate CollisionFree(t: Transfer) {
    NoCollision(t.start, Strays(t.serverSeq, t.lateSynAck), |t.name|, |t.file|)
  }

  /** The client draws its first number with rand() and adds one, so the number of the
      file-name packet lies in [1, 2^31]. With less than 2 GiB to send only the number that the
      server has drawn can collide, and only through a late SYN-ACK: not if it is smaller, as
      it is when both programs draw the same number because they started in the same second. */
  lemma SmallTransfersDoNotCollide(start: SeqNum, serverSeq: SeqNum, lateSynAck: bool, nameLength: nat, length: nat)
    requires 1 <= start <= 0x8000_0000
    requires 0 < nameLength && nameLength + length < 0x8000_0000
    ensures NoCollision(start, Strays(serverSeq, lateSynAck), nameLength, length) <==>
      !lateSynAck || forall k | 1 <= k <= Chunks(length) :: SeqAt(start, nameLength, length, k) != serverSeq
    ensures !lateSynAck || serverSeq <= start + nameLength ==>
      NoCollision(start, Strays(serverSeq, lateSynAck), nameLength, length)
  {
    forall k | 1 <= k <= Chunks(length)
      ensures SeqAt(start, nameLength, length, k) > start + nameLength
    {
      NumberDoesNotWrap(start, nameLength, length, k);
    }
  }

  lemma NumberDoesNotWrap(start: SeqNum, nameLength: nat, length: nat, k: nat)
    requires start + nameLength + length < SEQ_SPACE && 1 <= k <= Chunks(length)
    ensures start + nameLength < SeqAt(start, nameLength, length, k)
  {
    assert 0 < Offset(length, k) <= length;
  }

  // Offsets and sequence numbers

  lemma OffsetsIncrease(length: nat, i: nat, k: nat)
    requires i < k <= Chunks(length)
    ensures Offset(length, i) < Offset(length, k)
  {
  }

  lemma LastOffset(length: nat)
    ensures Offset(length, Chunks(length)) == length
    ensures forall k :: Offset(length, k) == length ==> Chunks(length) <= k
  {
  }

  lemma AdvanceInjective(s: SeqNum, a: nat, b: nat)
    requires a <= b < a + SEQ_SPACE
    ensures Advance(s, a) == Advance(s, b) <==> a == b
  {
  }

  lemma AdvanceAdds(s: SeqNum, a: nat, b: nat)
    ensures Advance(Advance(s, a), b) == Advance(s, a + b)
  {
  }

  lemma BoundariesDiffer(t: Transfer, i: nat, k: nat)
    requires |t.file| < SEQ_SPACE
    requires i <= Chunks(|t.file|) && k <= Chunks(|t.file|) && i != k
    ensures Boundary(t, i) != Boundary(t, k)
  {
    var lo, hi := if i < k then i else k, if i < k then k else i;
    OffsetsIncrease(|t.file|, lo, hi);
    LastOffset(|t.file|);
    AdvanceInjective(t.start, |t.name| + Offset(|t.file|, lo), |t.name| + Offset(|t.file|, hi));
  }

  lemma FirstBoundaryIsNotStart(t: Transfer)
    requires WellFormed(t)
    ensures Boundary(t, 0) != t.start
  {
    AdvanceInjective(t.start, 0, |t.name|);
  }

  lemma ChunkFacts(t: Transfer, k: nat)
    requires k < Chunks(|t.file|)
    ensures 0 < |Chunk(t, k)| <= PAYLOAD_SIZE
    ensures Offset(|t.file|, k) + |Chunk(t, k)| == Offset(|t.file|, k + 1)
    ensures |Chunk(t, k)| == Min(PAYLOAD_SIZE, |t.file| - Offset(|t.file|, k))
    ensures t.file[..Offset(|t.file|, k)] + Chunk(t, k) == t.file[..Offset(|t.file|, k + 1)]
    ensures Advance(Boundary(t, k), |Chunk(t, k)|) == Boundary(t, k + 1)
  {
    OffsetsIncrease(|t.file|, k, k + 1);
    AdvanceAdds(t.start, |t.name| + Offset(|t.file|, k), |Chunk(t, k)|);
  }

  // The invariant

  predicate Active(s: SenderState) {
    s.phase == Sending || s.phase == Waiting
  }

  predicate IsStray(t: Transfer, h: Header) {
    h.seqNum in Strays(t.serverSeq, t.lateSynAck) && FIN !in h.flags
  }

  /** Chunk j, under its own header or under the header a stale ACK left behind. */
  ghost predicate IsCopyOf(t: Transfer, p: Packet, j: nat) {
    && p.data == Chunk(t, j)
    && (p.header == Header(Boundary(t, j), 0, {}) || IsStray(t, p.header))
  }

  /** What may be under way to the receiver once chunks below `sent` have been sent. */
  ghost predicate MayBeInFlight(t: Transfer, sent: nat, closed: bool, p: Packet) {
    || p == NamePacket(t) || p == SynPacket(t) || p == HandshakeAck(t)
    || (exists j :: 0 <= j < sent <= Chunks(|t.file|) && IsCopyOf(t, p, j))
    || (closed && p == FinPacket(Boundary(t, Chunks(|t.file|))))
  }

  ghost predicate AckInFlight(t: Transfer, delivered: nat, h: Header) {
    (t.lateSynAck && h == SynAckHeader(t)) || AcksSome(t, delivered, h)
  }

  ghost predicate AcksSome(t: Transfer, delivered: nat, h: Header) {
    exists i :: 0 <= i <= delivered && h == AckHeader(Boundary(t, i))
  }

  /** The sender works on chunk c (Chunks(..) once it has closed). */
  ghost predicate SenderInv(t: Transfer, s: SenderState, c: nat) {
    && c <= Chunks(|t.file|)
    && s.seqNum == Boundary(t, c)
    && (Active(s) ==>
          && c < Chunks(|t.file|)
          && s.pos == Offset(|t.file|, c + 1)
          && s.payload == Chunk(t, c)
          && s.bytesRead == |Chunk(t, c)|
          && IsCopyOf(t, Outgoing(s), c))
    && (s.phase == Reading ==> s.pos == Offset(|t.file|, c))
    && (s.phase == Closed ==> c == Chunks(|t.file|))
  }

  /** The receiver has written the first m chunks. */
  ghost predicate ReceiverInv(t: Transfer, r: ReceiverState, m: nat) {
    && m <= Chunks(|t.file|)
    && r.expected == Boundary(t, m)
    && r.written == t.file[..Offset(|t.file|, m)]
  }

  /** Chunks that may have been handed to the network. */
  function Sent(s: SenderState, c: nat): nat {
    if Active(s) then c + 1 else c
  }

  ghost predicate Inv(t: Transfer, w: World, c: nat, m: nat) {
    && SenderInv(t, w.sender, c)
    && ReceiverInv(t, w.receiver, m)
    && c <= m <= Sent(w.sender, c)
    && (forall p | p in w.toReceiver :: MayBeInFlight(t, Sent(w.sender, c), w.sender.phase == Closed, p))
    && (forall h | h in w.toSender :: AckInFlight(t, m, h))
    && (w.receiver.done ==> w.sender.phase == Closed && w.receiver.finSeq == Boundary(t, Chunks(|t.file|)))
  }

  lemma InitInv(t: Transfer)
    requires WellFormed(t)
    ensures Inv(t, Init(t), 0, 0)
  {
    var w := Init(t);
    assert AcksSome(t, 0, AckHeader(Boundary(t, 0)));
    assert w.receiver.written == t.file[..Offset(|t.file|, 0)];
  }

  lemma InFlightGrows(t: Transfer, sent: nat, closed: bool, sent': nat, closed': bool, p: Packet)
    requires MayBeInFlight(t, sent, closed, p)
    requires sent <= sent' <= Chunks(|t.file|) && (closed ==> closed')
    ensures MayBeInFlight(t, sent', closed', p)
  {
    if exists j :: 0 <= j < sent <= Chunks(|t.file|) && IsCopyOf(t, p, j) {
      var j :| 0 <= j < sent && IsCopyOf(t, p, j);
      assert 0 <= j < sent' <= Chunks(|t.file|) && IsCopyOf(t, p, j);
    }
  }

  /** A delivered ACK matches only if the receiver has really written the current chunk. */
  lemma MatchingAckIsHonest(t: Transfer, w: World, c: nat, m: nat, h: Header)
    requires CollisionFree(t)
    requires Inv(t, w, c, m) && Active(w.sender) && h in w.toSender
    ensures Acknowledges(w.sender, h) ==> m == c + 1
  {
    ChunkFacts(t, c);
    assert AckInFlight(t, m, h);
    if AcksSome(t, m, h) {
      var i :| 0 <= i <= m && h == AckHeader(Boundary(t, i));
      if i != c + 1 {
        BoundariesDiffer(t, i, c + 1);
      }
    }
  }

  /** A packet with data whose number is the expected one carries the chunk the receiver is
      missing. */
  lemma ExpectedPacketIsNext(t: Transfer, w: World, c: nat, m: nat, p: Packet)
    requires WellFormed(t) && CollisionFree(t)
    requires Inv(t, w, c, m) && p in w.toReceiver && FIN !in p.header.flags
    ensures p.header.seqNum == w.receiver.expected && p.data != [] ==>
      Active(w.sender) && m == c && p.data == Chunk(t, c)
  {
    assert MayBeInFlight(t, Sent(w.sender, c), w.sender.phase == Closed, p);
    if p.header.seqNum == w.receiver.expected && p.data != [] {
      if p == NamePacket(t) {
        FirstBoundaryIsNotStart(t);
        assert false;
      }
      var j :| 0 <= j < Sent(w.sender, c) && IsCopyOf(t, p, j);
      if IsStray(t, p.header) {
        assert m == 0;
      } else if j != m {
        BoundariesDiffer(t, j, m);
      }
    }
  }

  lemma ReadKeepsInv(t: Transfer, w: World, c: nat, m: nat)
    requires Inv(t, w, c, m) && Enabled(t, w, Read)
    ensures Inv(t, Next(t, w, Read), c, m)
  {
    var w' := Next(t, w, Read);
    LastOffset(|t.file|);
    if c < Chunks(|t.file|) {
      ChunkFacts(t, c);
      OffsetsIncrease(|t.file|, c, Chunks(|t.file|));
      assert w'.sender.payload == Chunk(t, c);
    }
    forall p | p in w'.toReceiver
      ensures MayBeInFlight(t, Sent(w'.sender, c), w'.sender.phase == Closed, p)
    {
      if p in w.toReceiver {
        InFlightGrows(t, c, false, Sent(w'.sender, c), w'.sender.phase == Closed, p);
      }
    }
  }

  /** At the end of the file the sender closes and hands one FIN to the network. */
  lemma EndSendsFin(t: Transfer, w: World, c: nat, m: nat)
    requires Inv(t, w, c, m) && w.sender.phase == Reading && w.sender.pos == |t.file|
    ensures var w' := Next(t, w, Read);
      && w'.sender.phase == Closed && w'.receiver == w.receiver && w'.toSender == w.toSender
      && w'.toReceiver == w.toReceiver
           + multiset{Packet(Header((t.start + |t.name| + |t.file|) % 0x1_0000_0000, 0, {FIN}), [])}
  {
    LastOffset(|t.file|);
  }

  lemma SendKeepsInv(t: Transfer, w: World, c: nat, m: nat)
    requires Inv(t, w, c, m) && Enabled(t, w, Send)
    ensures Inv(t, Next(t, w, Send), c, m)
  {
    assert MayBeInFlight(t, c + 1, false, Outgoing(w.sender));
    var w' := Next(t, w, Send);
    assert Outgoing(w'.sender) == Outgoing(w.sender);
    forall p | p in w'.toReceiver
      ensures MayBeInFlight(t, c + 1, false, p)
    {
      assert p in w.toReceiver || p == Outgoing(w.sender);
    }
  }

  /** What the sender is like after any header that may be under way to it. */
  lemma AckKeepsSenderInv(t: Transfer, s: SenderState, c: nat, m: nat, h: Header)
    requires SenderInv(t, s, c) && s.phase == Waiting && AckInFlight(t, m, h)
    ensures SenderInv(t, SenderReceives(s, h), if Acknowledges(s, h) then c + 1 else c)
    ensures Sent(SenderReceives(s, h), if Acknowledges(s, h) then c + 1 else c) == Sent(s, c)
  {
    ChunkFacts(t, c);
    assert IsStray(t, h);
    assert Outgoing(SenderReceives(s, h)).data == Chunk(t, c);
  }

  lemma AckKeepsInv(t: Transfer, w: World, c: nat, m: nat, h: Header)
    requires WellFormed(t) && CollisionFree(t)
    requires Inv(t, w, c, m) && Enabled(t, w, DeliverAck(h))
    ensures Inv(t, Next(t, w, DeliverAck(h)), if Acknowledges(w.sender, h) then c + 1 else c, m)
  {
    MatchingAckIsHonest(t, w, c, m, h);
    AckKeepsSenderInv(t, w.sender, c, m, h);
    assert forall g | g in Next(t, w, DeliverAck(h)).toSender :: g in w.toSender;
  }

  /** A delivered packet leaves the sender alone, and all that is new under way is the answer. */
  lemma DeliveryAnswers(t: Transfer, w: World, p: Packet, dropped: bool)
    requires Enabled(t, w, DeliverPacket(p, dropped))
    ensures var w' := Next(t, w, DeliverPacket(p, dropped));
      && w'.sender == w.sender
      && w'.receiver == ReceiverReceives(w.receiver, p, dropped)
      && (forall q | q in w'.toReceiver :: q in w.toReceiver)
      && (forall h | h in w'.toSender :: h in w.toSender || h == AckHeader(w'.receiver.expected))
      && (FIN in p.header.flags ==> w'.toSender == w.toSender)
  {
  }

  lemma FinKeepsInv(t: Transfer, w: World, c: nat, m: nat, p: Packet, dropped: bool)
    requires Inv(t, w, c, m) && Enabled(t, w, DeliverPacket(p, dropped)) && FIN in p.header.flags
    ensures Inv(t, Next(t, w, DeliverPacket(p, dropped)), c, m)
  {
    assert MayBeInFlight(t, Sent(w.sender, c), w.sender.phase == Closed, p);
    assert p == FinPacket(Boundary(t, Chunks(|t.file|)));
    DeliveryAnswers(t, w, p, dropped);
  }

  lemma AckStaysHonest(t: Transfer, m: nat, m': nat, h: Header)
    requires AckInFlight(t, m, h) && m <= m'
    ensures AckInFlight(t, m', h)
  {
    if AcksSome(t, m, h) {
      var i :| 0 <= i <= m && h == AckHeader(Boundary(t, i));
      assert 0 <= i <= m';
    }
  }

  predicate Advances(r: ReceiverState, p: Packet, dropped: bool) {
    FIN !in p.header.flags && !dropped && p.header.seqNum == r.expected && p.data != []
  }

  lemma DataKeepsReceiverInv(t: Transfer, w: World, c: nat, m: nat, p: Packet, dropped: bool)
    requires WellFormed(t) && CollisionFree(t)
    requires Inv(t, w, c, m) && Enabled(t, w, DeliverPacket(p, dropped)) && FIN !in p.header.flags
    ensures var m' := if Advances(w.receiver, p, dropped) then m + 1 else m;
      ReceiverInv(t, ReceiverReceives(w.receiver, p, dropped), m') && m' <= Sent(w.sender, c)
  {
    ExpectedPacketIsNext(t, w, c, m, p);
    if Advances(w.receiver, p, dropped) {
      NextChunkWritten(t, w.receiver, m, p, dropped);
    } else {
      NothingWritten(w.receiver, p, dropped);
    }
  }

  lemma NextChunkWritten(t: Transfer, r: ReceiverState, m: nat, p: Packet, dropped: bool)
    requires ReceiverInv(t, r, m) && m < Chunks(|t.file|)
    requires Advances(r, p, dropped) && p.data == Chunk(t, m)
    ensures ReceiverInv(t, ReceiverReceives(r, p, dropped), m + 1)
  {
    ChunkFacts(t, m);
  }

  lemma NothingWritten(r: ReceiverState, p: Packet, dropped: bool)
    requires FIN !in p.header.flags && !Advances(r, p, dropped)
    ensures ReceiverReceives(r, p, dropped) == r
  {
  }

  lemma DataKeepsInv(t: Transfer, w: World, c: nat, m: nat, p: Packet, dropped: bool)
    requires WellFormed(t) && CollisionFree(t)
    requires Inv(t, w, c, m) && Enabled(t, w, DeliverPacket(p, dropped)) && FIN !in p.header.flags
    ensures Inv(t, Next(t, w, DeliverPacket(p, dropped)), c, if Advances(w.receiver, p, dropped) then m + 1 else m)
  {
    var w' := Next(t, w, DeliverPacket(p, dropped));
    var m' := if Advances(w.receiver, p, dropped) then m + 1 else m;
    DataKeepsReceiverInv(t, w, c, m, p, dropped);
    DeliveryAnswers(t, w, p, dropped);
    assert AcksSome(t, m', AckHeader(Boundary(t, m')));
    forall h | h in w'.toSender
      ensures AckInFlight(t, m', h)
    {
      if h in w.toSender {
        AckStaysHonest(t, m, m', h);
      }
    }
  }

  lemma PacketKeepsInv(t: Transfer, w: World, c: nat, m: nat, p: Packet, dropped: bool)
    requires WellFormed(t) && CollisionFree(t)
    requires Inv(t, w, c, m) && Enabled(t, w, DeliverPacket(p, dropped))
    ensures Inv(t, Next(t, w, DeliverPacket(p, dropped)), c, if Advances(w.receiver, p, dropped) then m + 1 else m)
  {
    if FIN in p.header.flags {
      FinKeepsInv(t, w, c, m, p, dropped);
    } else {
      DataKeepsInv(t, w, c, m, p, dropped);
    }
  }

  lemma NetworkAddsNothing(t: Transfer, w: World, step: Step)
    requires Enabled(t, w, step)
    requires step.Timeout? || step.LosePacket? || step.LoseAck? || step.DuplicatePacket? || step.DuplicateAck?
    ensures var w' := Next(t, w, step);
      && w'.receiver == w.receiver
      && w'.sender == (if step.Timeout? then SenderTimesOut(w.sender) else w.sender)
      && (forall p | p in w'.toReceiver :: p in w.toReceiver)
      && (forall h | h in w'.toSender :: h in w.toSender)
  {
  }

  lemma NetworkKeepsInv(t: Transfer, w: World, c: nat, m: nat, step: Step)
    requires Inv(t, w, c, m) && Enabled(t, w, step)
    requires step.Timeout? || step.LosePacket? || step.LoseAck? || step.DuplicatePacket? || step.DuplicateAck?
    ensures Inv(t, Next(t, w, step), c, m)
  {
    NetworkAddsNothing(t, w, step);
    assert Outgoing(Next(t, w, step).sender) == Outgoing(w.sender);
  }

  lemma StepKeepsInv(t: Transfer, w: World, c: nat, m: nat, step: Step) returns (c': nat, m': nat)
    requires WellFormed(t) && CollisionFree(t)
    requires Inv(t, w, c, m) && Enabled(t, w, step)
    ensures Inv(t, Next(t, w, step), c', m')
  {
    c', m' := c, m;
    match step
    case Read => ReadKeepsInv(t, w, c, m);
    case Send => SendKeepsInv(t, w, c, m);
    case DeliverAck(h) =>
      AckKeepsInv(t, w, c, m, h);
      c' := if Acknowledges(w.sender, h) then c + 1 else c;
    case DeliverPacket(p, dropped) =>
      PacketKeepsInv(t, w, c, m, p, dropped);
      m' := if Advances(w.receiver, p, dropped) then m + 1 else m;
    case _ => NetworkKeepsInv(t, w, c, m, step);
  }

  lemma {:induction false} RunKeepsInv(t: Transfer, w: World, steps: seq<Step>, last: World, c: nat, m: nat)
    returns (c': nat, m': nat)
    requires WellFormed(t) && CollisionFree(t)
    requires Inv(t, w, c, m) && Runs(t, w, steps, last)
    ensures Inv(t, last, c', m')
    decreases |steps|
  {
    if steps == [] {
      c', m' := c, m;
    } else {
      c', m' := StepKeepsInv(t, w, c, m, steps[0]);
      c', m' := RunKeepsInv(t, Next(t, w, steps[0]), steps[1..], last, c', m');
    }
  }

  lemma ReachableInv(t: Transfer, w: World) returns (c: nat, m: nat)
    requires WellFormed(t) && CollisionFree(t)
    requires Reaches(t, Init(t), w)
    ensures Inv(t, w, c, m)
  {
    InitInv(t);
    var steps :| Runs(t, Init(t), steps, w);
    c, m := RunKeepsInv(t, Init(t), steps, w, 0, 0);
  }

  // The promises

  /** The receiver's file is a chunk-aligned prefix of the sender's. */
  ghost predicate Intact(t: Transfer, w: World) {
    exists m :: 0 <= m <= Chunks(|t.file|) && w.receiver.written == t.file[..Offset(|t.file|, m)]
  }

  /** A receiver that has left its loop holds the whole file. */
  ghost predicate Complete(t: Transfer, w: World) {
    w.receiver.done ==> w.receiver.written == t.file && w.receiver.finSeq == w.receiver.expected
  }

  /** The acknowledgement number of a receiver that has written `n` bytes. */
  function AckAfter(t: Transfer, n: nat): SeqNum {
    Advance(t.start, |t.name| + n)
  }

  /** What the invariant means for the receiver alone. */
  lemma ReceiverIsIntact(t: Transfer, w: World, m: nat)
    requires ReceiverInv(t, w.receiver, m)
    ensures Intact(t, w) && w.receiver.expected == AckAfter(t, |w.receiver.written|)
  {
    assert |w.receiver.written| == Offset(|t.file|, m);
  }

  lemma TransferSafety(t: Transfer, w: World)
    requires WellFormed(t) && CollisionFree(t)
    requires Reaches(t, Init(t), w)
    ensures Intact(t, w)
    ensures w.receiver.written <= t.file && (|w.receiver.written| % 1024 == 0 || w.receiver.written == t.file)
    ensures w.receiver.expected
         == AckAfter(t, |w.receiver.written|) == (t.start + |t.name| + |w.receiver.written|) % 0x1_0000_0000
    ensures
      || w.receiver.expected == w.sender.seqNum
      || (Active(w.sender) && w.receiver.expected == Advance(w.sender.seqNum, w.sender.bytesRead))
  {
    var c, m := ReachableInv(t, w);
    ReceiverIsIntact(t, w, m);
    ReceiverSpelled(t, w.receiver, m);
    if m == c + 1 {
      ChunkFacts(t, c);
    }
  }

  lemma OffsetIsAligned(length: nat, m: nat)
    ensures Offset(length, m) <= length && (Offset(length, m) % 1024 == 0 || Offset(length, m) == length)
  {
  }

  lemma ReceiverSpelled(t: Transfer, r: ReceiverState, m: nat)
    requires ReceiverInv(t, r, m)
    ensures r.written <= t.file && (|r.written| % 1024 == 0 || r.written == t.file)
    ensures r.expected == (t.start + |t.name| + |r.written|) % 0x1_0000_0000
  {
    OffsetIsAligned(|t.file|, m);
    assert |r.written| == Offset(|t.file|, m);
  }

  lemma BoundaryIsAckAfter(t: Transfer, i: nat)
    ensures Boundary(t, i) == AckAfter(t, Offset(|t.file|, i))
  {
  }

  lemma HonestAck(t: Transfer, r: ReceiverState, m: nat, h: Header)
    requires ReceiverInv(t, r, m) && AcksSome(t, m, h)
    ensures exists n :: 0 <= n <= |r.written| && h == AckHeader(AckAfter(t, n))
  {
    var i :| 0 <= i <= m && h == AckHeader(Boundary(t, i));
    BoundaryIsAckAfter(t, i);
    assert |r.written| == Offset(|t.file|, m);
    assert 0 <= Offset(|t.file|, i) <= |r.written|;
  }

  /** Every ACK under way acknowledges bytes that have been written, or is the late SYN-ACK. */
  lemma AcksAreHonest(t: Transfer, w: World, h: Header)
    requires WellFormed(t) && CollisionFree(t)
    requires Reaches(t, Init(t), w) && h in w.toSender
    ensures h == SynAckHeader(t) || exists n :: 0 <= n <= |w.receiver.written| && h == AckHeader(AckAfter(t, n))
    ensures h == Header(t.serverSeq, t.start, {SYN, ACK}) || (h.seqNum == 0 && h.flags == {ACK})
  {
    var c, m := ReachableInv(t, w);
    assert AckInFlight(t, m, h);
    if AcksSome(t, m, h) {
      HonestAck(t, w.receiver, m, h);
    }
  }

  lemma TransferCompleteness(t: Transfer, w: World)
    requires WellFormed(t) && CollisionFree(t)
    requires Reaches(t, Init(t), w)
    ensures Complete(t, w)
    ensures w.receiver.done ==> w.sender.phase == Closed
  {
    var c, m := ReachableInv(t, w);
    LastOffset(|t.file|);
  }

  lemma AckDoesNotWrap(t: Transfer, n: nat)
    requires t.start + |t.name| + n < SEQ_SPACE
    ensures AckAfter(t, n) == t.start + |t.name| + n
  {
  }

  lemma WrittenFits(t: Transfer, w: World)
    requires Intact(t, w)
    ensures |w.receiver.written| <= |t.file|
  {
  }

  /** Below 2 GiB the numbers do not even wrap: every ACK in flight is at most `expected`. */
  lemma AcksNeverRunAhead(t: Transfer, w: World, h: Header)
    requires WellFormed(t) && CollisionFree(t)
    requires 1 <= t.start <= 0x8000_0000 && |t.name| + |t.file| < 0x8000_0000
    requires Reaches(t, Init(t), w) && h in w.toSender
    ensures w.receiver.expected == t.start + |t.name| + |w.receiver.written|
    ensures h.ackNum <= w.receiver.expected
    ensures h != SynAckHeader(t) ==> t.start + |t.name| <= h.ackNum
  {
    TransferSafety(t, w);
    AcksAreHonest(t, w, h);
    WrittenFits(t, w);
    assert w.receiver.expected == AckAfter(t, |w.receiver.written|);
    AckDoesNotWrap(t, |w.receiver.written|);
    if h != SynAckHeader(t) {
      var n :| 0 <= n <= |w.receiver.written| && h == AckHeader(AckAfter(t, n));
      AckDoesNotWrap(t, n);
    }
  }
}
