/** Where the guarantees of the transfer end: the exact condition under which every file
    arrives intact, and the exact states from which the transfer can still finish. */
module ShamLimits {
  import opened Sham
  import opened ShamSafety

  // Building runs

  /** The sender holds chunk k in its buffer. */
  ghost predicate Holds(t: Transfer, s: SenderState, k: nat) {
    && k < Chunks(|t.file|)
    && s.seqNum == Boundary(t, k)
    && s.pos == Offset(|t.file|, k + 1)
    && s.payload == Chunk(t, k)
    && s.bytesRead == |Chunk(t, k)|
  }

  /** Both peers have finished with the chunks below k. */
  ghost predicate Parked(t: Transfer, w: World, k: nat) {
    && k <= Chunks(|t.file|)
    && w.sender.phase == Reading
    && w.sender.seqNum == Boundary(t, k)
    && w.sender.pos == Offset(|t.file|, k)
    && ReceiverInv(t, w.receiver, k)
    && !w.receiver.done
  }

  lemma ReachesTwice(t: Transfer, w: World, a: Step, b: Step)
    requires Enabled(t, w, a) && Enabled(t, Next(t, w, a), b)
    ensures Reaches(t, w, Next(t, Next(t, w, a), b))
  {
    ReachesByStep(t, w, a);
    ReachesByStep(t, Next(t, w, a), b);
    ReachesCompose(t, w, Next(t, w, a), Next(t, Next(t, w, a), b));
  }

  /** One send that is delivered and answered, when the answer is the ACK waited for. */
  lemma Exchange(t: Transfer, w: World, k: nat) returns (w': World)
    requires w.sender.phase == Sending && Holds(t, w.sender, k)
    requires !w.receiver.done && FIN !in w.sender.header.flags
    requires ReceiverReceives(w.receiver, Outgoing(w.sender), false).expected == Boundary(t, k + 1)
    ensures Reaches(t, w, w')
    ensures w'.sender.phase == Reading
    ensures w'.sender.seqNum == Boundary(t, k + 1) && w'.sender.pos == Offset(|t.file|, k + 1)
    ensures w'.receiver == ReceiverReceives(w.receiver, Outgoing(w.sender), false)
    ensures w'.toReceiver == w.toReceiver && w'.toSender == w.toSender
  {
    var w1 := SendAndAnswer(t, w);
    w' := MatchingAckArrives(t, w1, k);
    assert w'.toSender == w.toSender;
    ReachesCompose(t, w, w1, w');
  }

  /** One send that is delivered and answered. */
  lemma SendAndAnswer(t: Transfer, w: World) returns (w': World)
    requires w.sender.phase == Sending && !w.receiver.done && FIN !in w.sender.header.flags
    ensures Reaches(t, w, w') && w'.sender == w.sender.(phase := Waiting)
    ensures w'.receiver == ReceiverReceives(w.receiver, Outgoing(w.sender), false)
    ensures w'.toReceiver == w.toReceiver
    ensures w'.toSender == w.toSender + multiset{AckHeader(w'.receiver.expected)}
  {
    var p := Outgoing(w.sender);
    ReachesTwice(t, w, Send, DeliverPacket(p, false));
    w' := Next(t, Next(t, w, Send), DeliverPacket(p, false));
    assert w'.toReceiver == w.toReceiver;
  }

  lemma MatchingAckArrives(t: Transfer, w: World, k: nat) returns (w': World)
    requires w.sender.phase == Waiting && Holds(t, w.sender, k) && AckHeader(Boundary(t, k + 1)) in w.toSender
    ensures Reaches(t, w, w') && w' == w.(sender := w'.sender, toSender := w'.toSender)
    ensures w'.toSender == w.toSender - multiset{AckHeader(Boundary(t, k + 1))}
    ensures w'.sender.phase == Reading
    ensures w'.sender.seqNum == Boundary(t, k + 1) && w'.sender.pos == Offset(|t.file|, k + 1)
  {
    ChunkFacts(t, k);
    ReachesByStep(t, w, DeliverAck(AckHeader(Boundary(t, k + 1))));
    w' := Next(t, w, DeliverAck(AckHeader(Boundary(t, k + 1))));
  }

  lemma ReadChunk(t: Transfer, w: World, k: nat) returns (w': World)
    requires Parked(t, w, k) && k < Chunks(|t.file|)
    ensures Enabled(t, w, Read) && w' == Next(t, w, Read) && Reaches(t, w, w')
    ensures w'.sender.phase == Sending && Holds(t, w'.sender, k) && Outgoing(w'.sender) == DataPacket(t, k)
    ensures w' == w.(sender := w'.sender)
    ensures ReceiverReceives(w'.receiver, DataPacket(t, k), false).expected == Boundary(t, k + 1)
    ensures ReceiverInv(t, ReceiverReceives(w'.receiver, DataPacket(t, k), false), k + 1)
  {
    ChunkFacts(t, k);
    w' := Next(t, w, Read);
    assert w'.sender.payload == Chunk(t, k);
    ReachesByStep(t, w, Read);
  }

  lemma CarryChunk(t: Transfer, w: World, k: nat) returns (w': World)
    requires Parked(t, w, k) && k < Chunks(|t.file|)
    ensures Parked(t, w', k + 1) && Reaches(t, w, w')
    ensures w'.toReceiver == w.toReceiver && w'.toSender == w.toSender
  {
    var w1 := ReadChunk(t, w, k);
    w' := Exchange(t, w1, k);
    ReachesCompose(t, w, w1, w');
  }

  lemma {:induction false} CarryChunks(t: Transfer, w: World, k: nat, last: nat) returns (w': World)
    requires Parked(t, w, k) && k <= last <= Chunks(|t.file|)
    ensures Parked(t, w', last) && Reaches(t, w, w')
    ensures w'.toReceiver == w.toReceiver && w'.toSender == w.toSender
    decreases last - k
  {
    if k == last {
      w' := w;
      ReachesSelf(t, w);
    } else {
      var w1 := CarryChunk(t, w, k);
      w' := CarryChunks(t, w1, k + 1, last);
      ReachesCompose(t, w, w1, w');
    }
  }

  lemma InitParked(t: Transfer)
    ensures Parked(t, Init(t), 0)
  {
    assert Init(t).receiver.written == t.file[..Offset(|t.file|, 0)];
  }

  /** What the network may do at any moment: lose and duplicate whatever is under way, and
      deliver any of it, in any order; and a timeout may happen whenever the sender waits. It
      changes nothing else. */
  lemma NetworkIsFree(t: Transfer, w: World, p: Packet, h: Header, dropped: bool)
    requires p in w.toReceiver && h in w.toSender
    ensures Reaches(t, w, w.(toReceiver := w.toReceiver + multiset{p}))
    ensures Reaches(t, w, w.(toReceiver := w.toReceiver - multiset{p}))
    ensures Reaches(t, w, w.(toSender := w.toSender + multiset{h}))
    ensures Reaches(t, w, w.(toSender := w.toSender - multiset{h}))
    ensures w.sender.phase == Waiting ==>
      && Reaches(t, w, w.(sender := w.sender.(phase := Sending)))
      && Reaches(t, w, w.(sender := SenderReceives(w.sender, h), toSender := w.toSender - multiset{h}))
    ensures !w.receiver.done ==>
      exists w' :: Reaches(t, w, w') && w'.sender == w.sender && w'.toReceiver == w.toReceiver - multiset{p}
        && w'.receiver == ReceiverReceives(w.receiver, p, dropped)
  {
    ReachesByStep(t, w, DuplicatePacket(p));
    ReachesByStep(t, w, LosePacket(p));
    ReachesByStep(t, w, DuplicateAck(h));
    ReachesByStep(t, w, LoseAck(h));
    if w.sender.phase == Waiting {
      ReachesByStep(t, w, Timeout);
      ReachesByStep(t, w, DeliverAck(h));
    }
    if !w.receiver.done {
      ReachesByStep(t, w, DeliverPacket(p, dropped));
    }
  }

  // What goes wrong when numbers collide

  /** The same transfer with another file of the same length. */
  ghost predicate Alike(a: Transfer, b: Transfer) {
    b == a.(file := b.file) && |b.file| == |a.file|
  }

  function Marked(length: nat, mark: nat): (file: seq<Byte>)
    ensures |file| == length
    ensures forall i | 0 <= i < length :: file[i] == if i < mark then 1 else 0
  {
    seq(length, i => if i < mark then 1 as Byte else 0)
  }

  function Filled(length: nat, b: Byte): (file: seq<Byte>)
    ensures |file| == length && forall i | 0 <= i < length :: file[i] == b
  {
    seq(length, i => b)
  }

  /** Accepting a stale packet spoils the file. */
  lemma StalePacketSpoils(t: Transfer, w: World, k: nat, p: Packet) returns (w': World)
    requires ReceiverInv(t, w.receiver, k) && !w.receiver.done && p in w.toReceiver
    requires FIN !in p.header.flags && p.header.seqNum == w.receiver.expected && p.data != []
    requires Offset(|t.file|, k) < |t.file| ==> p.data[0] != t.file[Offset(|t.file|, k)]
    ensures Reaches(t, w, w') && !Intact(t, w')
  {
    var step := DeliverPacket(p, false);
    w' := Next(t, w, step);
    ReachesByStep(t, w, step);
    var n := Offset(|t.file|, k);
    assert w'.receiver.written[n] == p.data[0];
    forall m | 0 <= m <= Chunks(|t.file|)
      ensures w'.receiver.written != t.file[..Offset(|t.file|, m)]
    {
      if n < Offset(|t.file|, m) {
        assert t.file[..Offset(|t.file|, m)][n] == t.file[n];
      }
    }
  }

  /** A chunk boundary at the number of the file-name packet: a late copy of that packet is
      taken for data. */
  lemma NameTakenForData(like: Transfer, k: nat) returns (t: Transfer, w: World)
    requires 0 < |like.name| && k <= Chunks(|like.file|) && Boundary(like, k) == like.start
    ensures Alike(like, t) && Reaches(t, Init(t), w) && !Intact(t, w)
  {
    t := like.(file := Filled(|like.file|, if like.name[0] == 0 then 1 else 0));
    InitParked(t);
    var w1 := CarryChunks(t, Init(t), 0, k);
    w := StalePacketSpoils(t, w1, k, NamePacket(t));
    ReachesCompose(t, Init(t), w1, w);
  }

  /** Chunk k is carried over by a retransmission; the first send stays under way. */
  lemma CarryLeavingCopy(t: Transfer, w: World, k: nat) returns (w': World)
    requires Parked(t, w, k) && k < Chunks(|t.file|)
    ensures Parked(t, w', k + 1) && Reaches(t, w, w')
    ensures DataPacket(t, k) in w'.toReceiver
  {
    var w1 := ReadChunk(t, w, k);
    var w2 := Next(t, Next(t, w1, Send), Timeout);
    ReachesTwice(t, w1, Send, Timeout);
    assert w2.sender == w1.sender;
    w' := Exchange(t, w2, k);
    ReachesCompose(t, w, w1, w2);
    ReachesCompose(t, w, w2, w');
  }

  /** In a file marked up to chunk k, the chunk before k begins with the mark and no later one
      does. */
  lemma MarkedFacts(t: Transfer, k: nat, j: nat)
    requires 1 <= k <= Chunks(|t.file|) && k <= j && t.file == Marked(|t.file|, Offset(|t.file|, k))
    ensures Chunk(t, k - 1) != [] && Chunk(t, k - 1)[0] == 1
    ensures Offset(|t.file|, j) < |t.file| ==> t.file[Offset(|t.file|, j)] == 0
  {
    OffsetsIncrease(|t.file|, k - 1, k);
  }

  /** The number of chunks that fill the sequence space. */
  const ROUND := SEQ_SPACE / PAYLOAD_SIZE

  lemma NumbersComeRound(t: Transfer)
    requires |t.file| >= SEQ_SPACE
    ensures 1 <= ROUND <= Chunks(|t.file|) && Boundary(t, ROUND) == Boundary(t, 0)
  {
    assert Offset(|t.file|, ROUND) == SEQ_SPACE;
  }

  /** A file as long as the sequence space: the first chunk's number comes round again. */
  lemma FirstChunkComesRound(like: Transfer) returns (t: Transfer, w: World)
    requires |like.file| >= SEQ_SPACE
    ensures Alike(like, t) && Reaches(t, Init(t), w) && !Intact(t, w)
  {
    t := like.(file := Marked(|like.file|, Offset(|like.file|, 1)));
    MarkedFacts(t, 1, ROUND);
    NumbersComeRound(t);
    InitParked(t);
    var w1 := CarryLeavingCopy(t, Init(t), 0);
    var w2 := CarryChunks(t, w1, 1, ROUND);
    w := StalePacketSpoils(t, w2, ROUND, DataPacket(t, 0));
    ReachesCompose(t, Init(t), w1, w2);
    ReachesCompose(t, Init(t), w2, w);
  }

  /** A stale header arrives while chunk k is outstanding: from then on every retransmission of
      the chunk carries its number. */
  lemma StaleAckClobbers(t: Transfer, w: World, k: nat, h: Header) returns (w': World)
    requires w.sender.phase == Waiting && Holds(t, w.sender, k)
    requires h in w.toSender && h.ackNum != Boundary(t, k + 1)
    ensures Reaches(t, w, w')
    ensures w' == w.(sender := w.sender.(phase := Sending, header := h), toSender := w.toSender - multiset{h})
  {
    ChunkFacts(t, k);
    w' := Next(t, w, DeliverAck(h));
    ReachesByStep(t, w, DeliverAck(h));
  }

  /** Chunk k has been written while a clobbered copy of it is still under way. */
  lemma LeaveClobbered(t: Transfer, w: World, k: nat, stale: Header) returns (w': World)
    requires Parked(t, w, k) && k < Chunks(|t.file|)
    requires stale in w.toSender && stale.flags != {} && stale.ackNum != Boundary(t, k + 1)
    ensures Reaches(t, w, w') && ReceiverInv(t, w'.receiver, k + 1) && !w'.receiver.done
    ensures Packet(stale, Chunk(t, k)) in w'.toReceiver
  {
    var good, clobbered := DataPacket(t, k), Packet(stale, Chunk(t, k));
    var w1 := ReadChunk(t, w, k);
    var w2 := Next(t, w1, Send);
    ReachesByStep(t, w1, Send);
    var w3 := StaleAckClobbers(t, w2, k, stale);
    assert Outgoing(w3.sender) == clobbered;
    var step := DeliverPacket(good, false);
    ReachesTwice(t, w3, Send, step);
    w' := Next(t, Next(t, w3, Send), step);
    assert good != clobbered;
    ReachesCompose(t, w, w1, w2);
    ReachesCompose(t, w, w2, w3);
    ReachesCompose(t, w, w3, w');
  }

  /** Every number that an overwritten header may carry is carried by one of the headers that
      are under way to the sender from the start. */
  function StrayHeader(t: Transfer, number: SeqNum): (h: Header)
    requires number in Strays(t.serverSeq, t.lateSynAck)
    ensures h.seqNum == number && h in Init(t).toSender && FIN !in h.flags && h.flags != {}
    ensures h.ackNum == Boundary(t, 0) || h.ackNum == t.start
  {
    if number == 0 then AckHeader(Boundary(t, 0)) else SynAckHeader(t)
  }

  lemma ClobberedSpoils(t: Transfer, w: World, k: nat, stale: Header) returns (w': World)
    requires 1 <= k <= Chunks(|t.file|) && t.file == Marked(|t.file|, Offset(|t.file|, k))
    requires ReceiverInv(t, w.receiver, k) && !w.receiver.done && Packet(stale, Chunk(t, k - 1)) in w.toReceiver
    requires FIN !in stale.flags && stale.seqNum == Boundary(t, k)
    ensures Reaches(t, w, w') && !Intact(t, w')
  {
    MarkedFacts(t, k, k);
    w' := StalePacketSpoils(t, w, k, Packet(stale, Chunk(t, k - 1)));
  }

  /** A chunk boundary at such a number: a retransmission whose header was overwritten is taken
      for the chunk after it. */
  lemma ClobberedTakenForNext(like: Transfer, k: nat) returns (t: Transfer, w: World)
    requires |like.file| < SEQ_SPACE && 1 <= k <= Chunks(|like.file|)
    requires Boundary(like, k) in Strays(like.serverSeq, like.lateSynAck) && Boundary(like, k) != like.start
    ensures Alike(like, t) && Reaches(t, Init(t), w) && !Intact(t, w)
  {
    t := like.(file := Marked(|like.file|, Offset(|like.file|, k)));
    w := ClobberedRun(t, k, StrayHeader(t, Boundary(t, k)));
  }

  lemma ClobberedRunFrom(t: Transfer, w: World, k: nat, stale: Header) returns (w': World)
    requires 1 <= k <= Chunks(|t.file|) && t.file == Marked(|t.file|, Offset(|t.file|, k))
    requires Parked(t, w, 0) && stale in w.toSender
    requires stale.seqNum == Boundary(t, k) != stale.ackNum && FIN !in stale.flags && stale.flags != {}
    ensures Reaches(t, w, w') && !Intact(t, w')
  {
    var w1 := CarryChunks(t, w, 0, k - 1);
    var w2 := LeaveClobbered(t, w1, k - 1, stale);
    w' := ClobberedSpoils(t, w2, k, stale);
    ReachesCompose(t, w, w1, w2);
    ReachesCompose(t, w, w2, w');
  }

  lemma ClobberedRun(t: Transfer, k: nat, stale: Header) returns (w: World)
    requires |t.file| < SEQ_SPACE && 1 <= k <= Chunks(|t.file|)
    requires t.file == Marked(|t.file|, Offset(|t.file|, k)) && Boundary(t, k) != t.start
    requires stale.seqNum == Boundary(t, k) && stale in Init(t).toSender && FIN !in stale.flags && stale.flags != {}
    requires stale.ackNum == Boundary(t, 0) || stale.ackNum == t.start
    ensures Reaches(t, Init(t), w) && !Intact(t, w)
  {
    BoundariesDiffer(t, 0, k);
    InitParked(t);
    w := ClobberedRunFrom(t, Init(t), k, stale);
  }

  lemma CollidingChunk(t: Transfer) returns (k: nat)
    requires |t.file| < SEQ_SPACE && !CollisionFree(t)
    ensures 1 <= k <= Chunks(|t.file|)
    ensures Boundary(t, k) == t.start || Boundary(t, k) in Strays(t.serverSeq, t.lateSynAck)
  {
    k :| 1 <= k <= Chunks(|t.file|)
      && (SeqAt(t.start, |t.name|, |t.file|, k) in Strays(t.serverSeq, t.lateSynAck)
          || SeqAt(t.start, |t.name|, |t.file|, k) == t.start);
  }

  lemma CollisionSpoilsSomeFile(like: Transfer) returns (t: Transfer, w: World)
    requires WellFormed(like) && !CollisionFree(like)
    ensures Alike(like, t) && Reaches(t, Init(t), w) && !Intact(t, w)
  {
    if |like.file| >= SEQ_SPACE {
      t, w := FirstChunkComesRound(like);
    } else {
      var k := CollidingChunk(like);
      if Boundary(like, k) == like.start {
        t, w := NameTakenForData(like, k);
      } else {
        t, w := ClobberedTakenForNext(like, k);
      }
    }
  }

  ghost predicate SafeForEveryFile(like: Transfer) {
    forall t: Transfer, w: World | Alike(like, t) && Reaches(t, Init(t), w) :: Intact(t, w) && Complete(t, w)
  }

  /** The guarantee holds for every file of a length and every behaviour of the network exactly
      when the numbers do not collide. */
  lemma SafeExactlyWithoutCollision(like: Transfer)
    requires WellFormed(like)
    ensures SafeForEveryFile(like) <==> CollisionFree(like)
  {
    if CollisionFree(like) {
      forall t: Transfer, w: World | Alike(like, t) && Reaches(t, Init(t), w)
        ensures Intact(t, w) && Complete(t, w)
      {
        TransferSafety(t, w);
        TransferCompleteness(t, w);
      }
    } else {
      var t, w := CollisionSpoilsSomeFile(like);
      assert !Intact(t, w);
    }
  }

  // Which states can still finish

  ghost predicate CanComplete(t: Transfer, w: World) {
    exists last :: Reaches(t, w, last) && last.receiver.done
  }

  /** The chunk the receiver waits for is gone: the sender's own copy no longer carries its
      number and no copy under way does, nor does any header that could still overwrite the
      sender's. The receiver's own ACKs carry 0. */
  ghost predicate ChunkGone(w: World) {
    && Active(w.sender)
    && w.receiver.expected == w.sender.seqNum
    && w.sender.header.seqNum != w.sender.seqNum
    && w.sender.seqNum != 0
    && (forall h | h in w.toSender :: h.seqNum != w.sender.seqNum)
    && (forall p | p in w.toReceiver && p.data != [] :: p.header.seqNum != w.sender.seqNum)
  }

  /** The one FIN was lost; the sender never repeats it. */
  ghost predicate FinGone(w: World) {
    w.sender.phase == Closed && forall p | p in w.toReceiver :: FIN !in p.header.flags
  }

  ghost predicate Stuck(w: World) {
    !w.receiver.done && (ChunkGone(w) || FinGone(w))
  }

  lemma FinClosesOnly(t: Transfer, w: World, c: nat, m: nat, p: Packet)
    requires Inv(t, w, c, m) && p in w.toReceiver && FIN in p.header.flags
    ensures w.sender.phase == Closed
  {
    assert MayBeInFlight(t, Sent(w.sender, c), w.sender.phase == Closed, p);
  }

  lemma NoFinWhileActive(t: Transfer, w: World, c: nat, m: nat, p: Packet)
    requires Inv(t, w, c, m) && p in w.toReceiver && Active(w.sender)
    ensures FIN !in p.header.flags
  {
    if FIN in p.header.flags {
      FinClosesOnly(t, w, c, m, p);
    }
  }

  lemma FinGoneStays(t: Transfer, w: World, step: Step)
    requires FinGone(w) && !w.receiver.done && Enabled(t, w, step)
    ensures var w' := Next(t, w, step); FinGone(w') && !w'.receiver.done
  {
    assert forall p | p in Next(t, w, step).toReceiver :: p in w.toReceiver;
  }

  lemma PacketKeepsChunkGone(t: Transfer, w: World, c: nat, m: nat, p: Packet, dropped: bool)
    requires Inv(t, w, c, m) && ChunkGone(w) && Enabled(t, w, DeliverPacket(p, dropped))
    requires !w.receiver.done
    ensures var w' := Next(t, w, DeliverPacket(p, dropped)); ChunkGone(w') && !w'.receiver.done
  {
    NoFinWhileActive(t, w, c, m, p);
    DeliveryAnswers(t, w, p, dropped);
    NothingWritten(w.receiver, p, dropped);
  }

  lemma AckKeepsChunkGone(t: Transfer, w: World, c: nat, m: nat, h: Header)
    requires CollisionFree(t)
    requires Inv(t, w, c, m) && ChunkGone(w) && Enabled(t, w, DeliverAck(h))
    ensures ChunkGone(Next(t, w, DeliverAck(h)))
  {
    NotAcknowledged(t, w, c, m, h);
    assert forall g | g in Next(t, w, DeliverAck(h)).toSender :: g in w.toSender;
  }

  lemma NotAcknowledged(t: Transfer, w: World, c: nat, m: nat, h: Header)
    requires CollisionFree(t)
    requires Inv(t, w, c, m) && ChunkGone(w) && h in w.toSender
    ensures !Acknowledges(w.sender, h)
  {
    MatchingAckIsHonest(t, w, c, m, h);
    BoundariesDiffer(t, c, c + 1);
  }

  lemma NetworkKeepsChunkGone(t: Transfer, w: World, step: Step)
    requires ChunkGone(w) && !w.receiver.done && Enabled(t, w, step)
    requires !step.DeliverPacket? && !step.DeliverAck?
    ensures var w' := Next(t, w, step); ChunkGone(w') && !w'.receiver.done
  {
    var w' := Next(t, w, step);
    assert forall p | p in w'.toReceiver :: p in w.toReceiver || p == Outgoing(w.sender);
    assert forall h | h in w'.toSender :: h in w.toSender;
  }

  lemma ChunkGoneStays(t: Transfer, w: World, c: nat, m: nat, step: Step)
    requires CollisionFree(t)
    requires Inv(t, w, c, m) && ChunkGone(w) && !w.receiver.done && Enabled(t, w, step)
    ensures var w' := Next(t, w, step); ChunkGone(w') && !w'.receiver.done
  {
    if step.DeliverPacket? {
      PacketKeepsChunkGone(t, w, c, m, step.p, step.dropped);
    } else if step.DeliverAck? {
      AckKeepsChunkGone(t, w, c, m, step.h);
    } else {
      NetworkKeepsChunkGone(t, w, step);
    }
  }

  lemma StuckStaysStuck(t: Transfer, w: World, c: nat, m: nat, step: Step)
    requires WellFormed(t) && CollisionFree(t)
    requires Inv(t, w, c, m) && Stuck(w) && Enabled(t, w, step)
    ensures Stuck(Next(t, w, step))
  {
    if FinGone(w) {
      FinGoneStays(t, w, step);
    } else {
      ChunkGoneStays(t, w, c, m, step);
    }
  }

  lemma {:induction false} StuckForever(t: Transfer, w: World, c: nat, m: nat, steps: seq<Step>, last: World)
    requires WellFormed(t) && CollisionFree(t)
    requires Inv(t, w, c, m) && Stuck(w) && Runs(t, w, steps, last)
    ensures !last.receiver.done
    decreases |steps|
  {
    if steps != [] {
      StuckStaysStuck(t, w, c, m, steps[0]);
      var c', m' := StepKeepsInv(t, w, c, m, steps[0]);
      StuckForever(t, Next(t, w, steps[0]), c', m', steps[1..], last);
    }
  }

  lemma FinArrives(t: Transfer, w: World, p: Packet)
    requires !w.receiver.done && p in w.toReceiver && FIN in p.header.flags
    ensures CanComplete(t, w)
  {
    ReachesByStep(t, w, DeliverPacket(p, false));
    assert Next(t, w, DeliverPacket(p, false)).receiver.done;
  }

  lemma ParkedCompletes(t: Transfer, w: World, k: nat)
    requires Parked(t, w, k)
    ensures CanComplete(t, w)
  {
    LastOffset(|t.file|);
    var w1 := CarryChunks(t, w, k, Chunks(|t.file|));
    ReachesByStep(t, w1, Read);
    var w2 := Next(t, w1, Read);
    var fin := FinPacket(w2.sender.seqNum);
    ReachesByStep(t, w2, DeliverPacket(fin, false));
    var w3 := Next(t, w2, DeliverPacket(fin, false));
    ReachesCompose(t, w, w1, w2);
    ReachesCompose(t, w, w2, w3);
    assert w3.receiver.done;
  }

  lemma CompletesAfter(t: Transfer, w: World, w': World)
    requires Reaches(t, w, w') && CanComplete(t, w')
    ensures CanComplete(t, w)
  {
    var last :| Reaches(t, w', last) && last.receiver.done;
    ReachesCompose(t, w, w', last);
  }

  lemma WantedOrWritten(t: Transfer, w: World, c: nat, m: nat)
    requires WellFormed(t) && CollisionFree(t)
    requires Inv(t, w, c, m) && w.sender.phase == Sending
    requires m == c + 1 || w.sender.header.seqNum == w.sender.seqNum
    ensures Holds(t, w.sender, c) && FIN !in w.sender.header.flags
    ensures ReceiverInv(t, ReceiverReceives(w.receiver, Outgoing(w.sender), false), c + 1)
  {
    ChunkFacts(t, c);
    BoundariesDiffer(t, c, c + 1);
    if m == c {
      NextChunkWritten(t, w.receiver, c, Outgoing(w.sender), false);
    } else {
      NothingWritten(w.receiver, Outgoing(w.sender), false);
    }
  }

  /** Once the chunk has been written, or while the header is intact, one exchange moves on. */
  lemma SendingCompletes(t: Transfer, w: World, c: nat, m: nat)
    requires WellFormed(t) && CollisionFree(t)
    requires Inv(t, w, c, m) && w.sender.phase == Sending && !w.receiver.done
    requires m == c + 1 || w.sender.header.seqNum == w.sender.seqNum
    ensures CanComplete(t, w)
  {
    WantedOrWritten(t, w, c, m);
    var w' := Exchange(t, w, c);
    assert Parked(t, w', c + 1);
    ParkedCompletes(t, w', c + 1);
    CompletesAfter(t, w, w');
  }

  /** A copy that still carries the missing chunk's number is under way. */
  lemma CopyRescues(t: Transfer, w: World, c: nat, m: nat, p: Packet)
    requires WellFormed(t) && CollisionFree(t)
    requires Inv(t, w, c, m) && w.sender.phase == Sending && !w.receiver.done && p in w.toReceiver
    requires p.header.seqNum == w.sender.seqNum == w.receiver.expected && p.data != []
    ensures CanComplete(t, w)
  {
    if FIN in p.header.flags {
      FinClosesOnly(t, w, c, m, p);
    }
    ExpectedPacketIsNext(t, w, c, m, p);
    var step := DeliverPacket(p, false);
    PacketKeepsInv(t, w, c, m, p, false);
    ReachesByStep(t, w, step);
    SendingCompletes(t, Next(t, w, step), c, m + 1);
    CompletesAfter(t, w, Next(t, w, step));
  }

  /** A header with the missing chunk's number overwrites a wrong one. */
  lemma HeaderRescues(t: Transfer, w: World, c: nat, m: nat, h: Header)
    requires WellFormed(t) && CollisionFree(t)
    requires Inv(t, w, c, m) && w.sender.phase == Waiting && !w.receiver.done && m == c
    requires h in w.toSender && h.seqNum == w.sender.seqNum
    ensures CanComplete(t, w)
  {
    MatchingAckIsHonest(t, w, c, m, h);
    AckKeepsInv(t, w, c, m, h);
    ReachesByStep(t, w, DeliverAck(h));
    SendingCompletes(t, Next(t, w, DeliverAck(h)), c, m);
    CompletesAfter(t, w, Next(t, w, DeliverAck(h)));
  }

  lemma HeaderRescuesSending(t: Transfer, w: World, c: nat, m: nat, h: Header)
    requires WellFormed(t) && CollisionFree(t)
    requires Inv(t, w, c, m) && w.sender.phase == Sending && !w.receiver.done && m == c
    requires h in w.toSender && h.seqNum == w.sender.seqNum
    ensures CanComplete(t, w)
  {
    SendKeepsInv(t, w, c, m);
    ReachesByStep(t, w, Send);
    HeaderRescues(t, Next(t, w, Send), c, m, h);
    CompletesAfter(t, w, Next(t, w, Send));
  }

  /** If the missing chunk's number is 0, the receiver's own answer brings it back. */
  lemma AnswerRescues(t: Transfer, w: World, c: nat, m: nat)
    requires WellFormed(t) && CollisionFree(t)
    requires Inv(t, w, c, m) && w.sender.phase == Sending && !w.receiver.done && m == c
    requires w.sender.header.seqNum != w.sender.seqNum == 0
    ensures CanComplete(t, w)
  {
    var w1, p := Next(t, w, Send), Outgoing(w.sender);
    SendKeepsInv(t, w, c, m);
    var w2 := Next(t, w1, DeliverPacket(p, false));
    PacketKeepsInv(t, w1, c, m, p, false);
    ReachesTwice(t, w, Send, DeliverPacket(p, false));
    HeaderRescues(t, w2, c, m, AckHeader(w.receiver.expected));
    CompletesAfter(t, w, w2);
  }

  lemma NotStuckCompletes(t: Transfer, w: World, c: nat, m: nat)
    requires WellFormed(t) && CollisionFree(t)
    requires Inv(t, w, c, m) && !Stuck(w)
    ensures CanComplete(t, w)
  {
    if w.receiver.done {
      ReachesSelf(t, w);
    } else if w.sender.phase == Closed {
      var p :| p in w.toReceiver && FIN in p.header.flags;
      FinArrives(t, w, p);
    } else if w.sender.phase == Reading {
      ParkedCompletes(t, w, c);
    } else if w.sender.phase == Waiting {
      var w' := Next(t, w, Timeout);
      ReachesByStep(t, w, Timeout);
      NetworkKeepsInv(t, w, c, m, Timeout);
      SendingNotStuckCompletes(t, w', c, m);
      CompletesAfter(t, w, w');
    } else {
      SendingNotStuckCompletes(t, w, c, m);
    }
  }

  lemma SendingNotStuckCompletes(t: Transfer, w: World, c: nat, m: nat)
    requires WellFormed(t) && CollisionFree(t)
    requires Inv(t, w, c, m) && !w.receiver.done && w.sender.phase == Sending && !ChunkGone(w)
    ensures CanComplete(t, w)
  {
    if m == c + 1 || w.sender.header.seqNum == w.sender.seqNum {
      SendingCompletes(t, w, c, m);
    } else if p :| p in w.toReceiver && p.data != [] && p.header.seqNum == w.sender.seqNum {
      CopyRescues(t, w, c, m, p);
    } else if w.sender.seqNum == 0 {
      AnswerRescues(t, w, c, m);
    } else {
      var h :| h in w.toSender && h.seqNum == w.sender.seqNum;
      HeaderRescuesSending(t, w, c, m, h);
    }
  }

  /** A reachable transfer can still be completed by some behaviour of the network exactly when
      neither the missing chunk nor the FIN is gone for good. */
  lemma CompletesUnlessStuck(t: Transfer, w: World)
    requires WellFormed(t) && CollisionFree(t)
    requires Reaches(t, Init(t), w)
    ensures CanComplete(t, w) <==> !Stuck(w)
  {
    var c, m := ReachableInv(t, w);
    if Stuck(w) {
      forall last | Reaches(t, w, last)
        ensures !last.receiver.done
      {
        var steps :| Runs(t, w, steps, last);
        StuckForever(t, w, c, m, steps, last);
      }
    } else {
      NotStuckCompletes(t, w, c, m);
    }
  }

  /** Retransmission does not save every transfer: losing the first data packet while a second
      copy of the file-name ACK is still under way is enough. */
  lemma OneStaleAckCanStrandTheTransfer(t: Transfer) returns (w: World)
    requires WellFormed(t) && CollisionFree(t)
    requires t.file != [] && Boundary(t, 0) != 0
    ensures Reaches(t, Init(t), w) && ChunkGone(w) && !CanComplete(t, w)
  {
    BoundariesDiffer(t, 0, 1);
    var w0 := SynAckLost(t);
    var w1 := LoseFirstSend(t, w0, 0);
    w := StaleAckClobbers(t, w1, 0, AckHeader(Boundary(t, 0)));
    ReachesCompose(t, Init(t), w0, w1);
    ReachesCompose(t, Init(t), w1, w);
    ClobberedIsGone(t, w);
    GoneCannotComplete(t, w);
  }

  lemma ClobberedIsGone(t: Transfer, w: World)
    requires WellFormed(t) && Boundary(t, 0) != 0
    requires Active(w.sender) && w.sender.seqNum == w.receiver.expected == Boundary(t, 0)
    requires w.sender.header == AckHeader(Boundary(t, 0))
    requires w.toReceiver == Init(t).toReceiver
    requires w.toSender == multiset{AckHeader(Boundary(t, 0))} - multiset{AckHeader(Boundary(t, 0))}
    ensures ChunkGone(w)
  {
    NoCopyInInit(t);
    assert w.toSender == multiset{};
  }

  lemma GoneCannotComplete(t: Transfer, w: World)
    requires WellFormed(t) && CollisionFree(t)
    requires Reaches(t, Init(t), w) && ChunkGone(w) && !w.receiver.done
    ensures !CanComplete(t, w)
  {
    CompletesUnlessStuck(t, w);
  }

  lemma LoseFirstSend(t: Transfer, w: World, k: nat) returns (w': World)
    requires Parked(t, w, k) && k < Chunks(|t.file|)
    ensures Reaches(t, w, w') && w'.sender.phase == Waiting && Holds(t, w'.sender, k)
    ensures w' == w.(sender := w'.sender)
  {
    var p := DataPacket(t, k);
    var w1 := ReadChunk(t, w, k);
    ReachesTwice(t, w1, Send, LosePacket(p));
    w' := Next(t, Next(t, w1, Send), LosePacket(p));
    assert w'.toReceiver == w.toReceiver;
    ReachesCompose(t, w, w1, w');
  }

  lemma NoCopyInInit(t: Transfer)
    requires WellFormed(t)
    ensures forall p | p in Init(t).toReceiver && p.data != [] :: p.header.seqNum != Boundary(t, 0)
  {
    FirstBoundaryIsNotStart(t);
    assert forall p | p in Init(t).toReceiver && p.data != [] :: p == NamePacket(t);
  }

  lemma SynAckLost(t: Transfer) returns (w: World)
    ensures Reaches(t, Init(t), w) && Parked(t, w, 0)
    ensures w.toSender == multiset{AckHeader(Boundary(t, 0))} && w.toReceiver == Init(t).toReceiver
  {
    InitParked(t);
    if t.lateSynAck {
      w := Next(t, Init(t), LoseAck(SynAckHeader(t)));
      ReachesByStep(t, Init(t), LoseAck(SynAckHeader(t)));
      assert SynAckHeader(t) != AckHeader(Boundary(t, 0));
    } else {
      w := Init(t);
      ReachesSelf(t, w);
    }
  }
}
