/** The objects of both ends perform the steps of modules Delivery and Accounting. */
module Endpoints {
  import opened Bytes
  import opened Wire
  import opened Stages
  import opened Sender
  import opened RtmfpSender
  import opened RtmfpMessenger
  import opened Packing
  import opened RtmfpFlow
  import opened Flow
  import opened Reception
  import opened FlowManagement
  import opened InTransit
  import Delivery
  import Accounting

  function Counters(session: Session): Accounting.SessionState
    reads session
  {
    Accounting.SessionState(session.sendable, session.queueing, session.sendingSize)
  }

  lemma NewSlots(log0: seq<Slot>, log: seq<Slot>, cuts: seq<Cut>) returns (slots: seq<Slot>)
    requires log0 <= log && Unpacked(log) == Unpacked(log0) + AllSlots(cuts)
    ensures log == log0 + slots && Unpacked(slots) == AllSlots(cuts)
  {
    hide AllSlots;
    slots := log[|log0|..];
    assert Unpacked(slots) == Unpacked(log)[|log0|..];
  }

  lemma Ordered(s: Delivery.System)
    requires Delivery.Inv(s)
    ensures s.queue.stageAck <= s.queue.stageSending <= s.queue.stage == |s.log|
  {
    hide Tiled, InFlight, FragmentSum;
  }

  /** RTMFPMessenger */
  method Write(session: Session, queue: Queue, messages: seq<Message>, ghost s: Delivery.System)
    returns (ghost step: Delivery.Step)
    requires queue.State() == s.queue && Delivery.Inv(s) && |queue.signature| < 0x100
    requires Delivery.NoneEmpty(messages) && queue.stage + StagesForAll(messages) < STAGE_MAX
    modifies session, queue
    ensures step.Write? && step.messages == messages && Delivery.Enabled(s, step)
    ensures queue.State() == Delivery.Apply(s, step).queue
    ensures queue.State() == Accounting.WriteQueue(s.queue, step.packets)
    ensures Counters(session) == Accounting.WriteSession(old(Counters(session)), step.packets)
    ensures Thrifty(Origin(queue.id, s.queue.stageAck, Options(queue.signature, queue.flowId), old(session.echo)),
                    step.packets, Unpacked(s.log + step.slots), |s.log|)
  {
    hide CutsOf, Tiled, FragmentSum, SizeTotal, Unpacked, AllSlots, Thrifty;
    Ordered(s);
    var messenger := new Messenger(session, queue, s.log);
    ghost var cuts := messenger.Run(messages);
    ghost var slots := NewSlots(s.log, messenger.log, cuts);
    step := Delivery.Step.Write(messages, cuts, slots, messenger.packets);
  }

  /** RTMFPSender */
  method SendWaiting(session: Session, queue: Queue, refused: set<nat>, ghost s: Delivery.System)
    returns (ghost step: Delivery.Step)
    requires queue.State() == s.queue
    modifies session, queue
    ensures step.Flush? && Delivery.Enabled(s, step) && queue.State() == Delivery.Apply(s, step).queue
    ensures step.n <= old(session.sendable)
    ensures Counters(session) == Accounting.FlushSession(old(Counters(session)), s.queue, step.n)
  {
    hide SizeTotal, SetAllSent, FragmentSum;
    var n := Flush(session, queue, refused);
    step := Delivery.Step.Flush(n);
  }

  /** RTMFPAcquiter, for an acknowledgement that arrived. */
  method Acknowledge(session: Session, queue: Queue, answer: seq<byte>, stage: nat, ghost s: Delivery.System)
    returns (ghost step: Delivery.Step)
    requires queue.State() == s.queue && answer in s.answers && Acknowledges(answer, s.queue.id, stage)
    modifies session, queue
    ensures step.Acquit? && Delivery.Enabled(s, step) && queue.State() == Delivery.Apply(s, step).queue
    ensures Counters(session) == Accounting.AcquitSession(old(Counters(session)), s.queue, step.n)
  {
    hide SizeTotal, FragmentSum, Acknowledges;
    var n := Acquit(session, queue, stage);
    step := Delivery.Step.Acquit(answer, stage, n);
  }

  /** RTMFPRepeater::sendAbandon */
  method SendAbandon(id: uint64, stage: uint64) returns (body: seq<byte>)
    ensures body == AbandonBytes(id, stage)
  {
    hide E7;
    body := [0x10] + Be16(2 + |E7(id)| + |E7(stage)|);
    body := body + ([MESSAGE_ABANDON] + E7(id) + E7(stage) + [0]);
    AbandonLayout(id, stage);
  }

  lemma AbandonLayout(id: uint64, stage: uint64)
    ensures |E7(id)| + |E7(stage)| + 2 < 0x1_0000
    ensures AbandonBytes(id, stage)
         == [0x10] + Be16(2 + |E7(id)| + |E7(stage)|) + ([MESSAGE_ABANDON] + E7(id) + E7(stage) + [0])
  {
    hide E7;
    assert E7(0) == [0] by { ZeroByte(); }
    var h := AbandonHeader(id, stage);
    assert EncodeHeader(h) + AbandonPiece.payload == E7(id) + E7(stage) + [0];
    assert FirstSize(h, AbandonPiece) == 2 + |E7(id)| + |E7(stage)|;
  }

  lemma ZeroByte()
    ensures E7(0) == [0]
  {
  }

  /** RTMFPRepeater: the datagrams it sends. */
  method Repeat(session: Session, queue: Queue, budget: nat, refused: set<nat>, pad: nat, ghost s: Delivery.System)
    returns (datagrams: seq<seq<byte>>, ghost step: Delivery.Step)
    requires queue.State() == s.queue && queue.stageSending < STAGE_LIMIT && Delivery.Inv(s)
    modifies session
    ensures step == Delivery.Step.Repeat(budget, refused, pad)
    ensures Delivery.Apply(s, step) == s.(net := s.net + set i | 0 <= i < |datagrams| :: datagrams[i])
    ensures session.sendable == old(session.sendable) || session.sendable == 0
  {
    hide RepeatAll, AbandonBytes, Safe, Tracked, Tiled, FragmentSum;
    var actions := RepeatPackets(session, queue, budget, refused);
    RepeatAllSafe(s.queue, s.log, budget, refused);
    datagrams := [];
    var i := 0;
    while i < |actions|
      invariant i <= |actions| && |datagrams| == i
      invariant session.sendable == old(session.sendable) || session.sendable == 0
      invariant forall j :: 0 <= j < i ==> datagrams[j] == Datagram(queue.id, actions[j], pad)
    {
      assert Safe(actions[i], s.queue.sending, s.log, s.queue.stageAck, s.queue.stageSending);
      var datagram := SendAction(queue, actions[i], pad, s.queue.sending, s.log, s.queue.stageAck);
      datagrams := datagrams + [datagram];
      i := i + 1;
    }
    step := Delivery.Step.Repeat(budget, refused, pad);
    SameSets(queue.id, actions, pad, datagrams);
  }

  method SendAction(queue: Queue, a: Action, pad: nat, ghost ps: seq<Packet>, ghost log: seq<Slot>, ghost from: nat)
    returns (datagram: seq<byte>)
    requires Safe(a, ps, log, from, queue.stageSending) && queue.stageSending < STAGE_LIMIT
    ensures datagram == Datagram(queue.id, a, pad)
  {
    match a
    case Resend(p) => datagram := p.body;
    case Abandon(stage) =>
      var body := SendAbandon(queue.id, stage);
      datagram := body + Repeated(0xFF, pad);
  }

  lemma SameSets(id: uint64, actions: seq<Action>, pad: nat, datagrams: seq<seq<byte>>)
    requires |datagrams| == |actions|
    requires forall j :: 0 <= j < |actions| ==> datagrams[j] == Datagram(id, actions[j], pad)
    ensures Delivery.Datagrams(id, actions, pad) == set i | 0 <= i < |datagrams| :: datagrams[i]
  {
    hide Datagram;
    forall j | 0 <= j < |datagrams| ensures datagrams[j] in Delivery.Datagrams(id, actions, pad) {
      assert actions[j] in actions;
    }
    forall d | d in Delivery.Datagrams(id, actions, pad) ensures exists j :: 0 <= j < |datagrams| && datagrams[j] == d {
      var a :| a in actions && d == Datagram(id, a, pad);
      var j :| 0 <= j < |actions| && actions[j] == a;
      assert datagrams[j] == d;
    }
  }

  /** FlowManager::receive, for a packet that arrived. */
  method Deliver(flow: RTMFPFlow, id: uint64, writers: set<nat>, datagram: seq<byte>, pad: nat, ghost s: Delivery.System)
    returns (answers: seq<Answer>, ghost step: Delivery.Step)
    requires flow.Valid() && flow.State() == s.flow && id == s.queue.id && datagram in s.net
    modifies flow
    ensures flow.Valid()
    ensures step == Delivery.Step.Deliver(datagram, writers, pad) && Delivery.Enabled(s, step)
    ensures flow.State() == Delivery.Apply(s, step).flow
    ensures Delivery.Apply(s, step).answers == s.answers + Delivery.AllAnswers(id, answers, pad)
  {
    hide Parse, Receive, Jumped;
    answers := ReceivePacket(flow, id, writers, datagram);
    step := Delivery.Step.Deliver(datagram, writers, pad);
  }

  method WriteRanges(losts: seq<int>) returns (bytes: seq<byte>)
    requires AllWide(losts)
    ensures bytes == EncodeRanges(losts)
  {
    hide E7, EncodeRanges;
    bytes := [];
    var i := 0;
    NoRange(losts);
    while i < |losts|
      invariant i <= |losts|
      invariant bytes == EncodeRanges(losts[..i])
    {
      EncodeRangesSnoc(losts[..i], losts[i]);
      assert losts[..i + 1] == losts[..i] + [losts[i]];
      bytes := bytes + E7(losts[i]);
      i := i + 1;
    }
    assert losts[..|losts|] == losts;
  }

  lemma NoRange(losts: seq<int>)
    ensures losts[..0] == [] && EncodeRanges([]) == []
  {
  }

  /** The acknowledgement chunk itself, whose length field has 16 bits. */
  method WriteAnswer(flow: RTMFPFlow, id: uint64) returns (bytes: seq<byte>)
    requires flow.Valid()
    ensures var a := AnswerOf(flow.State());
      Reception.Sendable(id, a) ==> bytes == EncodeAck(id, a.stage, a.ranges)
  {
    hide E7, Ranges, EncodeRanges, Be16, Accounted;
    var stage, losts, size := flow.BuildAck();
    size := (size + |E7(id)| + |E7(BUFFER_SIZE)| + |E7(stage)|) % 0x1_0000;
    var header := E7(id) + (E7(BUFFER_SIZE) + E7(stage));
    var ranges := WriteRanges(losts);
    bytes := [0x51] + (Be16(size) + (header + ranges));
    assert header + ranges == AckMessage(id, stage, losts);
  }
}
