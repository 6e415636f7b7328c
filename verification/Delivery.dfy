/** One flow from end to end: a writer, a network that drops, repeats and reorders whole packets and
    acknowledgements, and a receiver. Whatever the interleaving, what the receiver hands to the
    stream is some of the messages written, whole, in order and once each, with every reliable one
    among those it has passed. */
module Delivery {
  import opened Bytes
  import opened Wire
  import opened Sender
  import opened Flow
  import opened Stages
  import opened Reassembly
  import opened Receiving
  import opened Reception
  import opened InTransit
  import opened RtmfpMessenger

  /** `log` is every fragment cut so far, `net` every packet ever put on the wire, `answers` every
      acknowledgement ever written: any of them can arrive at any time, again and again, or never.
      `skipped` records the stages the receiver jumped over. */
  datatype System = System(
    sent: seq<Message>, cuts: seq<Cut>, log: seq<Slot>, queue: QueueState,
    net: set<seq<byte>>, flow: FlowState, answers: set<seq<byte>>, skipped: set<nat>)

  function Start(id: uint64, flowId: uint64, signature: seq<byte>): System {
    System([], [], [], QueueState(id, flowId, signature, 0, 0, 0, [], []), {}, Fresh, {}, {})
  }

  /** `pad` is the padding of the datagrams a step puts on the wire, `writers` those the receiver has open. */
  datatype Step =
    | Write(messages: seq<Message>, cuts: seq<Cut>, slots: seq<Slot>, packets: seq<Packet>)
    | Flush(n: nat)
    | Acquit(answer: seq<byte>, stage: nat, n: nat)
    | Repeat(budget: nat, refused: set<nat>, pad: nat)
    | Deliver(datagram: seq<byte>, writers: set<nat>, pad: nat)

  /** No message ends the flow. */
  predicate NoneEmpty(messages: seq<Message>) {
    forall i :: 0 <= i < |messages| ==> Whole(messages[i]) != []
  }

  /** What RTMFPMessenger::run ensures. */
  predicate Writes(s: System, step: Step)
    requires step.Write?
  {
    && NoneEmpty(step.messages) && CutsOf(step.cuts, step.messages) && Unpacked(step.slots) == AllSlots(step.cuts)
    && Tiled(step.packets, s.queue.id, s.log + step.slots, |s.log|) && FragmentSum(step.packets) == |step.slots|
    && |s.log| + |step.slots| < STAGE_MAX
  }

  predicate Enabled(s: System, step: Step) {
    match step
    case Write(_, _, _, _) => Writes(s, step)
    case Flush(n) => n <= |s.queue.waiting|
    case Acquit(answer, stage, n) =>
      answer in s.answers && Acknowledges(answer, s.queue.id, stage) && Releases(s.queue, stage, n)
    case Repeat(_, _, _) => true
    case Deliver(datagram, _, _) => datagram in s.net
  }

  function Bodies(ps: seq<Packet>): set<seq<byte>> {
    set p | p in ps :: p.body
  }

  function Datagrams(id: uint64, actions: seq<Action>, pad: nat): set<seq<byte>> {
    set a | a in actions :: Datagram(id, a, pad)
  }

  function AllAnswers(id: uint64, answers: seq<Answer>, pad: nat): set<seq<byte>> {
    set a | a in answers && Sendable(id, a) :: AnswerBytes(id, a, pad)
  }

  function ApplyWrite(s: System, step: Step): System
    requires step.Write?
  {
    s.(sent := s.sent + step.messages, cuts := s.cuts + step.cuts, log := s.log + step.slots,
       queue := s.queue.(stage := s.queue.stage + |step.slots|, waiting := s.queue.waiting + step.packets))
  }

  function ApplyFlush(s: System, n: nat): System
    requires n <= |s.queue.waiting|
  {
    s.(queue := Move(s.queue, n), net := s.net + Bodies(s.queue.waiting[..n]))
  }

  function ApplyAcquit(s: System, n: nat): System
    requires n <= |s.queue.sending|
  {
    s.(queue := Release(s.queue, n))
  }

  function ApplyRepeat(s: System, budget: nat, refused: set<nat>, pad: nat): System {
    s.(net := s.net + Datagrams(s.queue.id, RepeatAll(s.queue, budget, refused), pad))
  }

  function ApplyDeliver(s: System, datagram: seq<byte>, writers: set<nat>, pad: nat): System {
    var events := Parse(datagram, None);
    var r := Receive(s.flow, s.queue.id, writers, events);
    s.(flow := r.flow, answers := s.answers + AllAnswers(s.queue.id, r.answers, pad),
       skipped := s.skipped + Jumped(s.flow, s.queue.id, writers, events))
  }

  function Apply(s: System, step: Step): System
    requires Enabled(s, step)
  {
    match step
    case Write(_, _, _, _) => ApplyWrite(s, step)
    case Flush(n) => ApplyFlush(s, n)
    case Acquit(_, _, n) => ApplyAcquit(s, n)
    case Repeat(budget, refused, pad) => ApplyRepeat(s, budget, refused, pad)
    case Deliver(datagram, writers, pad) => ApplyDeliver(s, datagram, writers, pad)
  }

  // ---- The invariant -----------------------------------------------------------------------

  predicate Written(s: System) {
    && CutsOf(s.cuts, s.sent) && NoEnd(s.log) && Unpacked(s.log) == AllSlots(s.cuts)
    && |s.log| == s.queue.stage < STAGE_MAX
  }

  /** The stages are those acknowledged, then those in flight, then those waiting. */
  predicate Queued(q: QueueState, log: seq<Slot>) {
    && Tracked(q, log) && Tiled(q.waiting, q.id, log, q.stageSending)
    && q.stageSending + FragmentSum(q.waiting) == |log|
  }

  /** The datagram is a packet of the history. */
  predicate IsData(d: seq<byte>, id: nat, log: seq<Slot>, s: nat, n: nat) {
    n >= 1 && s + n <= |log| && IsEnd(log, s) && IsTile(log, s, n, log[s].reliable) && Carries(d, id, log, s, n)
  }

  /** The datagram is an abandon that covers no reliable fragment the receiver lacks. */
  predicate IsAbandon(d: seq<byte>, id: nat, log: seq<Slot>, received: nat, stage: nat) {
    Abandons(Parse(d, None), id, stage) && 1 <= stage <= |log| && IsEnd(log, stage) && UnreliableBetween(log, received, stage)
  }

  ghost predicate Travels(d: seq<byte>, id: nat, log: seq<Slot>, sending: nat, received: nat) {
    || (exists s: nat, n: nat :: IsData(d, id, log, s, n) && s + n <= sending)
    || (exists stage: nat :: IsAbandon(d, id, log, received, stage) && stage <= sending)
  }

  ghost predicate AllTravel(net: set<seq<byte>>, id: nat, log: seq<Slot>, sending: nat, received: nat) {
    forall d :: d in net ==> Travels(d, id, log, sending, received)
  }

  /** The receiver has a packet entirely or not at all. */
  ghost predicate WholePackets(f: FlowState, log: seq<Slot>) {
    forall k: nat :: 1 <= k < |log| && !log[k - 1].last ==> (Have(f, k) <==> Have(f, k + 1))
  }

  ghost predicate NothingBeyond(f: FlowState, sending: nat) {
    forall k: nat :: Have(f, k) ==> k <= sending
  }

  ghost predicate Received(f: FlowState, log: seq<Slot>, skipped: set<nat>, sending: nat) {
    Sound(f, log, skipped) && WholePackets(f, log) && NothingBeyond(f, sending)
  }

  /** The answer acknowledges whole packets that the receiver has passed. */
  ghost predicate Answers(d: seq<byte>, id: nat, log: seq<Slot>, received: nat) {
    exists stage: nat :: Acknowledges(d, id, stage) && IsEnd(log, stage) && stage <= received
  }

  ghost predicate AllAnswer(answers: set<seq<byte>>, id: nat, log: seq<Slot>, received: nat) {
    forall d :: d in answers ==> Answers(d, id, log, received)
  }

  ghost predicate Inv(s: System) {
    && Written(s) && Queued(s.queue, s.log)
    && AllTravel(s.net, s.queue.id, s.log, s.queue.stageSending, s.flow.stage)
    && Received(s.flow, s.log, s.skipped, s.queue.stageSending)
    && AllAnswer(s.answers, s.queue.id, s.log, s.flow.stage)
    && s.queue.stageAck <= s.flow.stage
  }

  lemma StartHolds(id: uint64, flowId: uint64, signature: seq<byte>)
    ensures Inv(Start(id, flowId, signature))
  {
    hide Parse;
  }

  /** Every stage the receiver is at ends a packet, and it was sent. */
  lemma ReceivedEnds(q: QueueState, f: FlowState, log: seq<Slot>, skipped: set<nat>)
    requires Queued(q, log) && Received(f, log, skipped, q.stageSending)
    ensures IsEnd(log, f.stage) && f.stage <= q.stageSending <= |log|
  {
    hide InFlight, Tiled, FragmentSum, Reassembled, Buffered;
    InFlightEnds(q.sending, q.id, log, q.stageAck);
    if f.stage >= 1 {
      assert Have(f, f.stage) && !Have(f, f.stage + 1);
    }
  }

  // ---- Writing -----------------------------------------------------------------------------

  /** The fragments of messages that are not empty are not empty. */
  lemma {:induction false} PiecesNotEmpty(cuts: seq<Cut>, messages: seq<Message>)
    requires CutsOf(cuts, messages) && NoneEmpty(messages)
    ensures NoEnd(AllSlots(cuts))
  {
    if cuts != [] {
      var i := |cuts| - 1;
      assert CutOf(cuts[i], messages[i]) && Whole(messages[i]) != [];
      PiecesNotEmpty(cuts[..i], messages[..i]);
      OnePieceNotEmpty(cuts[i]);
    }
  }

  lemma OnePieceNotEmpty(c: Cut)
    requires WellCut(c) && Content(c) != []
    ensures NoEnd(SlotsOf(c))
  {
    if |c.pieces| == 1 {
      assert c.pieces == [] + [c.pieces[0]];
      ConcatSnoc([], c.pieces[0]);
    }
  }

  lemma NoEndUnpacked(log: seq<Slot>)
    requires NoEnd(Unpacked(log))
    ensures NoEnd(log)
  {
    forall i | 0 <= i < |log| ensures log[i].payload != [] {
      assert Unpacked(log)[i].payload != [];
    }
  }

  lemma WriteWritten(s: System, step: Step)
    requires step.Write? && Written(s) && Writes(s, step)
    ensures Written(ApplyWrite(s, step))
  {
    hide CutOf, Tiled, AllSlots, FragmentSum;
    var r := ApplyWrite(s, step);
    PiecesNotEmpty(step.cuts, step.messages);
    NoEndUnpacked(step.slots);
    AllSlotsAppend(s.cuts, step.cuts);
  }

  lemma WriteTracked(q: QueueState, log: seq<Slot>, more: seq<Slot>, packets: seq<Packet>)
    requires Tracked(q, log)
    ensures Tracked(q.(stage := q.stage + |more|, waiting := q.waiting + packets), log + more)
  {
    hide InFlight, FragmentSum;
    InFlightFrame(q.sending, q.id, log, more, q.stageAck);
  }

  lemma WriteTiled(waiting: seq<Packet>, id: nat, log: seq<Slot>, more: seq<Slot>, packets: seq<Packet>, s: nat)
    requires Tiled(waiting, id, log, s) && s + FragmentSum(waiting) == |log|
    requires Tiled(packets, id, log + more, |log|) && FragmentSum(packets) == |more|
    ensures Tiled(waiting + packets, id, log + more, s) && s + FragmentSum(waiting + packets) == |log + more|
  {
    hide Tiled, FragmentSum;
    assert (log + more)[..|log|] == log[..|log|];
    TiledFrame(waiting, id, log, log + more, s);
    TiledAppend(waiting, packets, id, log + more, s);
    Sums(waiting, packets);
  }

  lemma WriteQueued(q: QueueState, log: seq<Slot>, more: seq<Slot>, packets: seq<Packet>)
    requires Queued(q, log) && Tiled(packets, q.id, log + more, |log|) && FragmentSum(packets) == |more|
    ensures Queued(q.(stage := q.stage + |more|, waiting := q.waiting + packets), log + more)
  {
    hide Tracked, Tiled, FragmentSum;
    WriteTracked(q, log, more, packets);
    WriteTiled(q.waiting, q.id, log, more, packets, q.stageSending);
  }

  lemma TravelsFrame(d: seq<byte>, id: nat, log: seq<Slot>, more: seq<Slot>, sending: nat, received: nat)
    requires Travels(d, id, log, sending, received)
    ensures Travels(d, id, log + more, sending, received)
  {
    hide Carries, IsTile, Abandons;
    if s: nat, n: nat :| IsData(d, id, log, s, n) && s + n <= sending {
      TileFrame(log, more, s, n, log[s].reliable);
      CarriesFrame(d, id, log, more, s, n);
      assert IsData(d, id, log + more, s, n);
    } else {
      var stage: nat :| IsAbandon(d, id, log, received, stage) && stage <= sending;
      assert IsAbandon(d, id, log + more, received, stage);
    }
  }

  lemma SoundFrame(f: FlowState, log: seq<Slot>, more: seq<Slot>, skipped: set<nat>)
    requires Sound(f, log, skipped) && |log + more| < STAGE_MAX
    ensures Sound(f, log + more, skipped)
  {
    hide Matches;
    ReassembleFrame(log, skipped, log + more, skipped, f.stage);
  }

  lemma ReceivedFrame(f: FlowState, log: seq<Slot>, more: seq<Slot>, skipped: set<nat>, q: QueueState)
    requires Queued(q, log) && Received(f, log, skipped, q.stageSending) && |log + more| < STAGE_MAX
    ensures Received(f, log + more, skipped, q.stageSending)
  {
    hide Sound, Tiled, InFlight, FragmentSum, Have;
    SoundFrame(f, log, more, skipped);
    InFlightEnds(q.sending, q.id, log, q.stageAck);
    var all := log + more;
    forall k: nat | 1 <= k < |all| && !all[k - 1].last ensures Have(f, k) <==> Have(f, k + 1) {
      if k < |log| {
        assert !log[k - 1].last;
      } else {
        assert k != q.stageSending;
        OnlySent(f, q.stageSending, k);
      }
    }
  }

  lemma OnlySent(f: FlowState, sending: nat, k: nat)
    requires NothingBeyond(f, sending) && k > sending
    ensures !Have(f, k) && !Have(f, k + 1)
  {
  }

  lemma WriteHolds(s: System, step: Step)
    requires Inv(s) && step.Write? && Writes(s, step)
    ensures Inv(ApplyWrite(s, step)) && ApplyWrite(s, step).flow == s.flow
  {
    hide CutsOf, Tiled, Travels, Received, Queued, Written;
    WriteWritten(s, step);
    WriteQueued(s.queue, s.log, step.slots, step.packets);
    ReceivedFrame(s.flow, s.log, step.slots, s.skipped, s.queue);
    forall d | d in s.net
      ensures Travels(d, s.queue.id, s.log + step.slots, s.queue.stageSending, s.flow.stage)
    {
      TravelsFrame(d, s.queue.id, s.log, step.slots, s.queue.stageSending, s.flow.stage);
    }
    forall d | d in s.answers ensures Answers(d, s.queue.id, s.log + step.slots, s.flow.stage) {
      AnswersFrame(d, s.queue.id, s.log, step.slots, s.flow.stage, s.flow.stage);
    }
  }

  lemma AnswersFrame(d: seq<byte>, id: nat, log: seq<Slot>, more: seq<Slot>, received: nat, later: nat)
    requires Answers(d, id, log, received) && received <= later
    ensures Answers(d, id, log + more, later)
  {
    hide Acknowledges;
    var stage: nat :| Acknowledges(d, id, stage) && IsEnd(log, stage) && stage <= received;
    assert IsEnd(log + more, stage);
  }

  // ---- Sending -----------------------------------------------------------------------------

  lemma FlushQueued(q: QueueState, log: seq<Slot>, n: nat)
    requires Queued(q, log) && n <= |q.waiting|
    ensures Queued(Move(q, n), log)
  {
    hide Packed, InFlight, Tiled, FragmentSum, SetAllSent;
    assert q.waiting == q.waiting[..n] + q.waiting[n..];
    TiledAppend(q.waiting[..n], q.waiting[n..], q.id, log, q.stageSending);
    TiledInFlight(q.waiting[..n], q.id, log, q.stageSending);
    InFlightAppend(q.sending, SetAllSent(q.waiting[..n]), q.id, log, q.stageAck);
    Sums(q.waiting[..n], q.waiting[n..]);
    Sums(q.sending, SetAllSent(q.waiting[..n]));
    SentFragments(q.waiting[..n]);
  }

  lemma FlushedTravels(q: QueueState, log: seq<Slot>, i: nat, n: nat, received: nat)
    requires Queued(q, log) && i < n <= |q.waiting|
    ensures Travels(q.waiting[i].body, q.id, log, Move(q, n).stageSending, received)
  {
    hide Packed, Tiled, InFlight, FragmentSum;
    TiledAt(q.waiting, q.id, log, q.stageSending, i);
    assert q.waiting == q.waiting[..i] + q.waiting[i..];
    TiledAppend(q.waiting[..i], q.waiting[i..], q.id, log, q.stageSending);
    InFlightEnds(q.sending, q.id, log, q.stageAck);
    TiledEnds(q.waiting[..i], q.id, log, q.stageSending);
    var s := q.stageSending + FragmentSum(q.waiting[..i]);
    PackedIsData(q.waiting[i], q.id, log, s);
    assert q.waiting[..n][..i + 1] == q.waiting[..i + 1];
    FragmentSumPrefix(q.waiting[..n], i + 1);
  }

  lemma TiledEnds(ps: seq<Packet>, id: nat, log: seq<Slot>, s: nat)
    requires Tiled(ps, id, log, s) && IsEnd(log, s)
    ensures IsEnd(log, s + FragmentSum(ps))
  {
    hide Tiled, InFlight, FragmentSum, SetAllSent, IsEnd;
    TiledInFlight(ps, id, log, s);
    InFlightEnds(SetAllSent(ps), id, log, s);
    SentFragments(ps);
  }

  lemma PackedIsData(p: Packet, id: nat, log: seq<Slot>, s: nat)
    requires Packed(p, id, log, s) && IsEnd(log, s)
    ensures IsData(p.body, id, log, s, p.fragments)
  {
    hide Carries;
  }

  lemma FragmentSumPrefix(ps: seq<Packet>, n: nat)
    requires n <= |ps|
    ensures FragmentSum(ps[..n]) <= FragmentSum(ps)
  {
    assert ps == ps[..n] + ps[n..];
    Sums(ps[..n], ps[n..]);
  }

  lemma TravelsLater(d: seq<byte>, id: nat, log: seq<Slot>, sending: nat, received: nat, sending': nat, received': nat)
    requires Travels(d, id, log, sending, received) && sending <= sending' && received <= received'
    ensures Travels(d, id, log, sending', received')
  {
    hide IsData, Abandons;
    if s: nat, n: nat :| IsData(d, id, log, s, n) && s + n <= sending {
      assert IsData(d, id, log, s, n) && s + n <= sending';
    } else {
      var stage: nat :| IsAbandon(d, id, log, received, stage) && stage <= sending;
      assert IsAbandon(d, id, log, received', stage) && stage <= sending';
    }
  }

  lemma FlushHolds(s: System, n: nat)
    requires Inv(s) && n <= |s.queue.waiting|
    ensures Inv(ApplyFlush(s, n)) && ApplyFlush(s, n).flow == s.flow
  {
    hide CutsOf, Travels, Sound, WholePackets, Queued, Have, FragmentSum, SetAllSent;
    FlushQueued(s.queue, s.log, n);
    var r := ApplyFlush(s, n);
    forall d | d in r.net
      ensures Travels(d, s.queue.id, s.log, r.queue.stageSending, s.flow.stage)
    {
      if d in s.net {
        TravelsLater(d, s.queue.id, s.log, s.queue.stageSending, s.flow.stage, r.queue.stageSending, s.flow.stage);
      } else {
        var i :| 0 <= i < n && s.queue.waiting[i].body == d;
        FlushedTravels(s.queue, s.log, i, n, s.flow.stage);
      }
    }
  }

  // ---- Acknowledging and repeating ---------------------------------------------------------

  lemma AcquitHolds(s: System, answer: seq<byte>, stage: nat, n: nat)
    requires Inv(s) && answer in s.answers && Acknowledges(answer, s.queue.id, stage) && Releases(s.queue, stage, n)
    ensures Inv(ApplyAcquit(s, n)) && ApplyAcquit(s, n).flow == s.flow
  {
    hide CutsOf, Travels, Received, Tracked, Parse, Tiled, FragmentSum;
    ReceivedEnds(s.queue, s.flow, s.log, s.skipped);
    assert Answers(answer, s.queue.id, s.log, s.flow.stage);
    assert IsEnd(s.log, stage) && stage <= s.flow.stage;
    ReleasesExactly(s.queue, s.log, stage, n);
  }

  lemma RepeatedTravels(q: QueueState, log: seq<Slot>, a: Action, pad: nat, received: nat)
    requires Queued(q, log) && |log| < STAGE_MAX
    requires Safe(a, q.sending, log, q.stageAck, q.stageSending) && q.stageAck <= received
    ensures Travels(Datagram(q.id, a, pad), q.id, log, q.stageSending, received)
  {
    hide Carries, Tiled, InFlight, FragmentSum, Parse, Abandons, AbandonBytes;
    if a.Resend? {
      var i :| 0 <= i < |q.sending| && q.sending[i] == a.packet;
      InFlightAt(q.sending, q.id, log, q.stageAck, i);
      assert q.sending == q.sending[..i] + q.sending[i..];
      InFlightAppend(q.sending[..i], q.sending[i..], q.id, log, q.stageAck);
      InFlightEnds(q.sending[..i], q.id, log, q.stageAck);
      FragmentSumPrefix(q.sending, i + 1);
      assert IsData(a.packet.body, q.id, log, q.stageAck + FragmentSum(q.sending[..i]), a.packet.fragments);
    } else {
      AbandonDecodes(q.id, a.stage, pad);
      assert IsAbandon(Datagram(q.id, a, pad), q.id, log, received, a.stage);
    }
  }

  lemma RepeatHolds(s: System, budget: nat, refused: set<nat>, pad: nat)
    requires Inv(s)
    ensures Inv(ApplyRepeat(s, budget, refused, pad)) && ApplyRepeat(s, budget, refused, pad).flow == s.flow
  {
    hide CutsOf, Travels, Received, Tracked, Tiled, FragmentSum, RepeatAll, Safe, Datagram;
    RepeatAllSafe(s.queue, s.log, budget, refused);
    var actions := RepeatAll(s.queue, budget, refused);
    forall d | d in Datagrams(s.queue.id, actions, pad)
      ensures Travels(d, s.queue.id, s.log, s.queue.stageSending, s.flow.stage)
    {
      var a :| a in actions && d == Datagram(s.queue.id, a, pad);
      RepeatedTravels(s.queue, s.log, a, pad, s.flow.stage);
    }
  }

  // ---- Receiving ---------------------------------------------------------------------------

  /** Receiving a packet again leaves whole packets. */
  lemma DataReceived(d: seq<byte>, id: nat, writers: set<nat>, s: nat, n: nat, f: FlowState, log: seq<Slot>, skipped: set<nat>, sending: nat)
    requires IsData(d, id, log, s, n) && s + n <= sending && NoEnd(log)
    requires Received(f, log, skipped, sending)
    ensures var events := Parse(d, None); var r := Receive(f, id, writers, events);
      && Received(r.flow, log, skipped + Jumped(f, id, writers, events), sending) && f.stage <= r.flow.stage
      && r.answers == [AnswerOf(r.flow)]
  {
    hide Parse, Sound, Have, Matches, Ranges, Receive, Jumped;
    var events := Parse(d, None);
    PacketReceived(f, id, writers, events, log, skipped, s);
    assert skipped + {} == skipped;
    var r := Receive(f, id, writers, events).flow;
    forall k: nat | 1 <= k < |log| && !log[k - 1].last ensures Have(r, k) <==> Have(r, k + 1) {
      assert Have(f, k) <==> Have(f, k + 1);
      assert k != s && k != s + n;
    }
  }

  lemma AbandonMoves(d: seq<byte>, id: nat, writers: set<nat>, stage: nat, f: FlowState, log: seq<Slot>, skipped: set<nat>, sending: nat)
    requires IsAbandon(d, id, log, f.stage, stage) && stage <= sending && NoEnd(log)
    requires Received(f, log, skipped, sending)
    ensures var events := Parse(d, None); var r := Receive(f, id, writers, events);
      && Received(r.flow, log, skipped + Jumped(f, id, writers, events), sending) && f.stage <= r.flow.stage
      && r.answers == [AnswerOf(r.flow)]
  {
    hide Parse, Sound, Have, Ranges, Receive, Jumped;
    var events := Parse(d, None);
    AbandonAnswered(f, id, writers, events, stage, log, skipped);
    var r := Receive(f, id, writers, events).flow;
    forall k: nat | 1 <= k < |log| && !log[k - 1].last ensures Have(r, k) <==> Have(r, k + 1) {
      assert Have(f, k) <==> Have(f, k + 1);
      assert k != stage;
    }
  }

  lemma DatagramReceived(s: System, d: seq<byte>, writers: set<nat>)
    requires Inv(s) && d in s.net
    ensures var events := Parse(d, None); var r := Receive(s.flow, s.queue.id, writers, events);
      && Received(r.flow, s.log, s.skipped + Jumped(s.flow, s.queue.id, writers, events), s.queue.stageSending)
      && s.flow.stage <= r.flow.stage && r.answers == [AnswerOf(r.flow)]
  {
    hide Parse, Received, Receive, Jumped, IsData, IsAbandon, Queued, Ranges;
    var id, log, sending := s.queue.id, s.log, s.queue.stageSending;
    if b: nat, n: nat :| IsData(d, id, log, b, n) && b + n <= sending {
      DataReceived(d, id, writers, b, n, s.flow, log, s.skipped, sending);
    } else {
      assert Travels(d, id, log, sending, s.flow.stage);
      var stage: nat :| IsAbandon(d, id, log, s.flow.stage, stage) && stage <= sending;
      AbandonMoves(d, id, writers, stage, s.flow, log, s.skipped, sending);
    }
  }

  lemma DeliverHolds(s: System, datagram: seq<byte>, writers: set<nat>, pad: nat)
    requires Inv(s) && datagram in s.net
    ensures Inv(ApplyDeliver(s, datagram, writers, pad)) && s.flow.stage <= ApplyDeliver(s, datagram, writers, pad).flow.stage
  {
    hide CutsOf, Travels, Received, Queued, Parse, Receive, Jumped, Ranges, Acknowledges, IsEnd, AnswerBytes;
    var r := ApplyDeliver(s, datagram, writers, pad);
    DatagramReceived(s, datagram, writers);
    ReceivedEnds(r.queue, r.flow, r.log, r.skipped);
    forall d | d in r.net ensures Travels(d, r.queue.id, r.log, r.queue.stageSending, r.flow.stage) {
      TravelsLater(d, s.queue.id, s.log, s.queue.stageSending, s.flow.stage, r.queue.stageSending, r.flow.stage);
    }
    forall d | d in r.answers ensures Answers(d, r.queue.id, r.log, r.flow.stage) {
      if d in s.answers {
        assert s.log + [] == s.log;
        AnswersFrame(d, s.queue.id, s.log, [], s.flow.stage, r.flow.stage);
      } else {
        AnswerAcknowledges(s.queue.id, AnswerOf(r.flow), pad);
      }
    }
  }

  // ---- Runs --------------------------------------------------------------------------------

  lemma StepHolds(s: System, step: Step)
    requires Inv(s) && Enabled(s, step)
    ensures Inv(Apply(s, step)) && s.flow.stage <= Apply(s, step).flow.stage
  {
    hide Inv, ApplyWrite, ApplyFlush, ApplyAcquit, ApplyRepeat, ApplyDeliver, Writes, Releases;
    match step
    case Write(_, _, _, _) => WriteHolds(s, step);
    case Flush(n) => FlushHolds(s, n);
    case Acquit(answer, stage, n) => AcquitHolds(s, answer, stage, n);
    case Repeat(budget, refused, pad) => RepeatHolds(s, budget, refused, pad);
    case Deliver(datagram, writers, pad) => DeliverHolds(s, datagram, writers, pad);
  }

  /** What was written and what the network did, step by step. */
  ghost predicate IsRun(run: seq<System>, steps: seq<Step>) {
    && |run| == |steps| + 1
    && run[0] == Start(run[0].queue.id, run[0].queue.flowId, run[0].queue.signature)
    && forall i :: 0 <= i < |steps| ==> Enabled(run[i], steps[i]) && run[i + 1] == Apply(run[i], steps[i])
  }

  lemma {:induction false} RunHolds(run: seq<System>, steps: seq<Step>, i: nat)
    requires IsRun(run, steps) && i < |run|
    ensures Inv(run[i])
  {
    hide Inv, Enabled, Apply;
    if i == 0 {
      StartHolds(run[0].queue.id, run[0].queue.flowId, run[0].queue.signature);
    } else {
      RunHolds(run, steps, i - 1);
      StepHolds(run[i - 1], steps[i - 1]);
    }
  }

  /** The receiver's stage never decreases. */
  lemma {:induction false} StageAdvances(run: seq<System>, steps: seq<Step>, i: nat, j: nat)
    requires IsRun(run, steps) && i <= j < |run|
    ensures run[i].flow.stage <= run[j].flow.stage
  {
    hide Inv, Enabled, Apply;
    if i < j {
      StageAdvances(run, steps, i, j - 1);
      RunHolds(run, steps, j - 1);
      StepHolds(run[j - 1], steps[j - 1]);
    }
  }

  // ---- The theorems ------------------------------------------------------------------------

  predicate Increasing(indices: seq<nat>) {
    forall i, j :: 0 <= i < j < |indices| ==> indices[i] < indices[j]
  }

  function LastStage(cuts: seq<Cut>, i: nat): nat
    requires i < |cuts|
  {
    Total(cuts[..i + 1])
  }

  /** The messages delivered are those at these places, all entirely passed, and every reliable
      message entirely passed is one of them. */
  predicate Delivers(s: System, kept: seq<nat>)
    requires |s.cuts| == |s.sent|
  {
    && Increasing(kept) && |s.flow.delivered| == |kept|
    && (forall j :: 0 <= j < |kept| ==>
          kept[j] < |s.sent| && s.flow.delivered[j] == Whole(s.sent[kept[j]]) && LastStage(s.cuts, kept[j]) <= s.flow.stage)
    && forall i :: 0 <= i < |s.sent| && s.sent[i].reliable && LastStage(s.cuts, i) <= s.flow.stage ==> i in kept
  }

  lemma {:induction false} KeptIncreasing(cuts: seq<Cut>, skipped: set<nat>, n: nat)
    ensures Increasing(Kept(cuts, skipped, n))
  {
    hide Clean, AllSlots;
    if cuts != [] { KeptIncreasing(cuts[..|cuts| - 1], skipped, n); }
  }

  lemma {:induction false} KeptExactly(cuts: seq<Cut>, skipped: set<nat>, n: nat, i: nat)
    requires i < |cuts|
    ensures i in Kept(cuts, skipped, n) <==> LastStage(cuts, i) <= n && Clean(skipped, Total(cuts[..i]), LastStage(cuts, i))
  {
    hide Clean, AllSlots;
    var m := |cuts| - 1;
    assert cuts[..m + 1] == cuts;
    if i < m {
      KeptExactly(cuts[..m], skipped, n, i);
      assert cuts[..m][..i] == cuts[..i] && cuts[..m][..i + 1] == cuts[..i + 1];
    }
  }

  /** The stages of a message are as reliable as it is. */
  lemma {:induction false} StageReliability(cuts: seq<Cut>, i: nat, k: nat)
    requires i < |cuts| && Total(cuts[..i]) < k <= LastStage(cuts, i)
    ensures k <= Total(cuts) && AllSlots(cuts)[k - 1].reliable == cuts[i].reliable
  {
    hide AllSlots, Lies;
    var m := |cuts| - 1;
    LastLies(cuts);
    if i == m {
      assert cuts[..m + 1] == cuts;
      SlotReliability(cuts[i], AllSlots(cuts), Total(cuts[..i]), k);
    } else {
      var init := cuts[..m];
      assert init[..i] == cuts[..i] && init[..i + 1] == cuts[..i + 1];
      StageReliability(init, i, k);
      SamePrefix(AllSlots(cuts), AllSlots(init), k - 1);
    }
  }

  lemma SamePrefix(a: seq<Slot>, b: seq<Slot>, i: nat)
    requires i < |b| <= |a| && a[..|b|] == b
    ensures a[i] == b[i]
  {
  }

  lemma SlotReliability(c: Cut, slots: seq<Slot>, t: nat, k: nat)
    requires Lies(c, slots, t) && t < k <= t + |c.pieces|
    ensures slots[k - 1].reliable == c.reliable
  {
    assert slots[t..t + |c.pieces|][k - 1 - t] == SlotsOf(c)[k - 1 - t];
  }

  lemma ReliableClean(s: System, i: nat)
    requires Written(s) && Skippable(s.skipped, s.flow.stage, s.log) && i < |s.sent| && s.sent[i].reliable
    ensures Clean(s.skipped, Total(s.cuts[..i]), LastStage(s.cuts, i))
  {
    hide AllSlots;
    assert CutOf(s.cuts[i], s.sent[i]);
    forall k | Total(s.cuts[..i]) < k <= LastStage(s.cuts, i) ensures k !in s.skipped {
      StageReliability(s.cuts, i, k);
      assert Unpacked(s.log)[k - 1].reliable == s.log[k - 1].reliable;
    }
  }

  lemma AssemblyDelivers(s: System)
    requires Written(s) && Reassembled(s.flow, s.log, s.skipped)
    ensures s.flow.delivered == Contents(s.cuts, Kept(s.cuts, s.skipped, s.flow.stage))
  {
    hide AllSlots, Reassemble, Content;
    forall i | 0 <= i < |s.cuts| ensures WellCut(s.cuts[i]) {
      assert CutOf(s.cuts[i], s.sent[i]);
    }
    var slots := AllSlots(s.cuts);
    assert forall i :: 0 <= i < |s.log| ==> s.log[i].(last := false) == Unpacked(s.log)[i];
    ReassembleFrame(s.log, s.skipped, slots, s.skipped, s.flow.stage);
    ReassembleMessages(s.cuts, s.skipped, s.flow.stage);
  }

  lemma InvDelivers(s: System)
    requires Inv(s)
    ensures Delivers(s, Kept(s.cuts, s.skipped, s.flow.stage))
  {
    hide Queued, AllTravel, AllAnswer, Clean, Reassembled, Buffered, Kept, LastStage, Total, Content, Whole;
    var kept := Kept(s.cuts, s.skipped, s.flow.stage);
    KeptIncreasing(s.cuts, s.skipped, s.flow.stage);
    AssemblyDelivers(s);
    forall j | 0 <= j < |kept|
      ensures s.flow.delivered[j] == Whole(s.sent[kept[j]]) && LastStage(s.cuts, kept[j]) <= s.flow.stage
    {
      assert CutOf(s.cuts[kept[j]], s.sent[kept[j]]);
      KeptExactly(s.cuts, s.skipped, s.flow.stage, kept[j]);
    }
    forall i | 0 <= i < |s.sent| && s.sent[i].reliable && LastStage(s.cuts, i) <= s.flow.stage ensures i in kept {
      ReliableClean(s, i);
      KeptExactly(s.cuts, s.skipped, s.flow.stage, i);
    }
  }

  /** In every run, whatever was lost, repeated or reordered, the messages delivered are some of
      those written, each whole, in order and once, with every reliable one that was passed. */
  lemma MessagesDelivered(run: seq<System>, steps: seq<Step>, i: nat) returns (kept: seq<nat>)
    requires IsRun(run, steps) && i < |run|
    ensures |run[i].cuts| == |run[i].sent| && Delivers(run[i], kept)
  {
    hide IsRun, AllTravel, AllAnswer, Received, Queued, Delivers, Kept;
    RunHolds(run, steps, i);
    InvDelivers(run[i]);
    kept := Kept(run[i].cuts, run[i].skipped, run[i].flow.stage);
  }

  /** When nothing was skipped and every stage written arrived, every message was delivered. */
  lemma AllDelivered(s: System) returns (kept: seq<nat>)
    requires Inv(s) && s.skipped == {} && forall k: nat :: 1 <= k <= |s.log| ==> Have(s.flow, k)
    ensures |s.cuts| == |s.sent| && Delivers(s, kept) && forall i :: 0 <= i < |s.sent| ==> i in kept
  {
    hide AllTravel, AllAnswer, Queued, Delivers, Kept, AllSlots;
    InvDelivers(s);
    kept := Kept(s.cuts, s.skipped, s.flow.stage);
    assert s.flow.stage < |s.log| ==> Have(s.flow, s.flow.stage + 1);
    assert s.flow.stage == |s.log| == Total(s.cuts);
    forall i | 0 <= i < |s.sent| ensures i in kept {
      LastStageWithin(s.cuts, i);
      KeptExactly(s.cuts, s.skipped, s.flow.stage, i);
    }
  }

  lemma LastStageWithin(cuts: seq<Cut>, i: nat)
    requires i < |cuts|
    ensures LastStage(cuts, i) <= Total(cuts)
  {
    assert cuts == cuts[..i + 1] + cuts[i + 1..];
    AllSlotsAppend(cuts[..i + 1], cuts[i + 1..]);
  }

  /** In every run the stages stay in order, the acknowledged ones never pass the receiver's, and
      both always end a packet, as does every acknowledgement on its way. */
  lemma AcknowledgedPackets(run: seq<System>, steps: seq<Step>, i: nat)
    requires IsRun(run, steps) && i < |run|
    ensures var s := run[i]; var q := s.queue;
      && q.stageAck <= s.flow.stage <= q.stageSending <= q.stage == |s.log|
      && IsEnd(s.log, q.stageAck) && IsEnd(s.log, s.flow.stage)
      && (forall d :: d in s.answers ==> Answers(d, q.id, s.log, s.flow.stage))
      && q.stageSending == q.stageAck + FragmentSum(q.sending)
      && q.stage == q.stageSending + FragmentSum(q.waiting)
  {
    hide IsRun, AllTravel, Answers, Received, CutsOf, Tiled, InFlight, FragmentSum;
    RunHolds(run, steps, i);
    ReceivedEnds(run[i].queue, run[i].flow, run[i].log, run[i].skipped);
  }

  lemma DataNotAbandon(d: seq<byte>, id: nat, log: seq<Slot>, s: nat, n: nat, stage: nat)
    requires IsData(d, id, log, s, n) && NoEnd(log)
    ensures !Abandons(Parse(d, None), id, stage)
  {
    hide Parse, IsTile;
    var e := Parse(d, None)[0];
    assert IsArrival(e, id, s + 0 + 1, log[s + 0], 0 == n - 1);
    NotAbandoned(e, log, s);
  }

  /** In every run, however late an abandon arrives, the stages it makes the receiver skip are all
      unreliable. */
  lemma AbandonSafe(run: seq<System>, steps: seq<Step>, i: nat, d: seq<byte>, stage: nat)
    requires IsRun(run, steps) && i < |run|
    requires d in run[i].net && Abandons(Parse(d, None), run[i].queue.id, stage)
    ensures UnreliableBetween(run[i].log, run[i].flow.stage, stage) && IsEnd(run[i].log, stage)
  {
    hide IsRun, AllAnswer, Received, CutsOf, Queued, Parse;
    RunHolds(run, steps, i);
    var s := run[i];
    assert Travels(d, s.queue.id, s.log, s.queue.stageSending, s.flow.stage);
    if b: nat, n: nat :| IsData(d, s.queue.id, s.log, b, n) && b + n <= s.queue.stageSending {
      DataNotAbandon(d, s.queue.id, s.log, b, n, stage);
    }
  }

  // ---- The end of the flow -----------------------------------------------------------------

  const EndPiece := Piece(Flags(false, false, false, true, true), [])

  predicate ReliableKept(s: System, kept: seq<nat>) {
    forall i :: 0 <= i < |s.sent| && s.sent[i].reliable ==> i in kept
  }

  /** An end of flow always carries the abandon mark, and an abandon is a jump to its stage. When
      it arrives, every reliable message has been delivered before it if and only if the receiver
      had passed the last stage of each. */
  lemma EndDelivers(s: System) returns (kept: seq<nat>)
    requires Inv(s) && |s.log| + 1 < STAGE_MAX
    ensures |s.cuts| == |s.sent| && Delivers(s, kept)
    ensures var r := Input(s.flow, |s.log| + 1, EndPiece); Completed(r) && r.delivered == s.flow.delivered + [[]]
    ensures ReliableKept(s, kept)
       <==> forall i :: 0 <= i < |s.sent| && s.sent[i].reliable ==> LastStage(s.cuts, i) <= s.flow.stage
  {
    hide AllTravel, AllAnswer, Queued, Sound, Input, Kept, LastStage;
    kept := Kept(s.cuts, s.skipped, s.flow.stage);
    InvDelivers(s);
    EndReceived(s.flow, EndPiece, s.log, s.skipped);
    if forall i :: 0 <= i < |s.sent| && s.sent[i].reliable ==> i in kept {
      forall i | 0 <= i < |s.sent| && s.sent[i].reliable ensures LastStage(s.cuts, i) <= s.flow.stage {
        var j :| 0 <= j < |kept| && kept[j] == i;
      }
    }
  }
}
