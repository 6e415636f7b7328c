/** A run in which the end of a flow overtakes a lost packet. */
module EndOfFlow {
  import opened Bytes
  import opened Wire
  import opened Sender
  import opened Flow
  import opened Stages
  import opened Receiving
  import opened Reception
  import opened RtmfpMessenger
  import opened Delivery

  const Id: uint64 := 2

  /** A reliable message of one byte, its only fragment, and what the history says of it. */
  function OneByte(b: byte): Message {
    Message(true, [b], [])
  }

  function OneCut(b: byte): Cut {
    Cut(true, [[b]])
  }

  function OneSlot(b: byte): Slot {
    Slot(false, false, true, true, [b])
  }

  lemma OneWhole(b: byte)
    ensures CutsOf([OneCut(b)], [OneByte(b)]) && NoneEmpty([OneByte(b)])
    ensures Unpacked([OneSlot(b)]) == AllSlots([OneCut(b)])
  {
    assert [[b]] == [] + [[b]];
    ConcatSnoc([], [b]);
    assert [b] + [] == [b] && [] + [b] == [b];
    assert [OneCut(b)][..0] == [];
    assert [] + SlotsOf(OneCut(b)) == SlotsOf(OneCut(b));
  }

  /** A packet of its own carries it. */
  lemma OnePacketPacked(log: seq<Slot>, b: byte) returns (p: Packet)
    requires |log| + 1 < STAGE_MAX && InTransit.IsEnd(log, |log|)
    ensures Tiled([p], Id, log + [OneSlot(b)], |log|) && FragmentSum([p]) == 1
    ensures IsData(p.body, Id, log + [OneSlot(b)], |log|, 1)
  {
    hide E7, Parse, Matches;
    var stage := |log| + 1;
    var h := Header(Id, stage, stage, Some(Options([], 0)));
    var piece := Piece(Flags(true, false, false, false, false), [b]);
    var slot := OneSlot(b).(last := false);
    var open := log + [slot];
    assert Matches(piece, slot) by { OneMatches(piece, slot); }
    assert Holds(piece, open[|log|], true);
    assert [piece][1..] == [];
    var body := Chunks(h, [piece]);
    assert Filled(open, h, [piece], 9, body, true, Id);
    CloseTile(open, h, [piece], 9, body, true);
    assert Closed(open) == log + [OneSlot(b)];
    p := Encode(1, true, 9, body);
    EncodeFields(1, true, 9, body);
    TiledOne(p, Id, log + [OneSlot(b)], |log|);
    PackedIsData(p, Id, log + [OneSlot(b)], |log|);
    SumOne(p);
  }

  lemma OneMatches(piece: Piece, slot: Slot)
    requires piece.payload == slot.payload != [] && !slot.before && !slot.after
    requires piece.flags == Flags(true, false, false, false, false)
    ensures Matches(piece, slot)
  {
  }

  /** A writer writes a message in a packet of its own. */
  lemma WriteOne(s: System, b: byte) returns (step: Step)
    requires |s.log| + 2 < STAGE_MAX && s.queue.id == Id && InTransit.IsEnd(s.log, |s.log|)
    ensures Enabled(s, step)
    ensures var r := Apply(s, step);
      && r == s.(sent := s.sent + [OneByte(b)], log := s.log + [OneSlot(b)], cuts := r.cuts, queue := r.queue)
      && r.queue.id == Id && |r.queue.waiting| == |s.queue.waiting| + 1 && r.queue.waiting[..|s.queue.waiting|] == s.queue.waiting
      && IsData(r.queue.waiting[|s.queue.waiting|].body, Id, r.log, |s.log|, 1)
  {
    hide Tiled, FragmentSum, CutsOf, AllSlots, Unpacked, IsData, NoneEmpty;
    OneWhole(b);
    var p := OnePacketPacked(s.log, b);
    step := Step.Write([OneByte(b)], [OneCut(b)], [OneSlot(b)], [p]);
  }

  /** The second packet alone arrives: its stage waits for the first one. */
  lemma SecondReceived(s: System, d: seq<byte>)
    requires Inv(s) && IsData(d, Id, s.log, 1, 1) && s.flow == Fresh && s.queue.id == Id
    ensures var r := ApplyDeliver(s, d, {}, 0); r.flow.stage == 0 && Have(r.flow, 2)
  {
    hide Parse, Matches, Receive, Jumped, Sound, Queued, AllTravel, AllAnswer, CutsOf, IsTile, Ranges;
    var events := Parse(d, None);
    PacketReceived(s.flow, Id, {}, events, s.log, s.skipped, 1);
    var r := Receive(s.flow, Id, {}, events).flow;
    assert !Have(r, 1) && Have(r, 2);
  }

  /** Two messages are written and sent, and only the second arrives. */
  lemma SecondArrives() returns (run: seq<System>, steps: seq<Step>)
    ensures IsRun(run, steps) && |steps| == 4 && |run| == 5
    ensures run[4].sent == [OneByte(1), OneByte(2)] && |run[4].log| == 2
    ensures run[4].flow.stage == 0 && Have(run[4].flow, 2)
  {
    hide Inv, Enabled, Apply, IsData, ApplyDeliver, Have, Move;
    var s0 := Delivery.Start(Id, 0, []);
    StartHolds(Id, 0, []);
    var w0 := WriteOne(s0, 1);
    var s1 := Apply(s0, w0);
    StepHolds(s0, w0);
    var w1 := WriteOne(s1, 2);
    var s2 := Apply(s1, w1);
    StepHolds(s1, w1);
    var d := s2.queue.waiting[1].body;
    var flush := Step.Flush(2);
    FlushTwo(s2);
    var s3 := Apply(s2, flush);
    StepHolds(s2, flush);
    var deliver := Step.Deliver(d, {}, 0);
    DeliverOne(s3, d);
    var s4 := Apply(s3, deliver);
    steps, run := [w0, w1, flush, deliver], [s0, s1, s2, s3, s4];
    SecondReceived(s3, d);
  }

  lemma FlushTwo(s: System)
    requires |s.queue.waiting| == 2
    ensures Enabled(s, Step.Flush(2))
    ensures var r := Apply(s, Step.Flush(2));
      && r == s.(queue := r.queue, net := r.net) && r.queue.id == s.queue.id && s.queue.waiting[1].body in r.net
  {
    hide FragmentSum, SetAllSent;
    assert s.queue.waiting[..2][1] == s.queue.waiting[1];
  }

  lemma DeliverOne(s: System, d: seq<byte>)
    requires d in s.net
    ensures Enabled(s, Step.Deliver(d, {}, 0))
    ensures var r := Apply(s, Step.Deliver(d, {}, 0)); r == ApplyDeliver(s, d, {}, 0) && r.sent == s.sent && r.log == s.log
  {
    hide Parse, Receive, Jumped;
  }

  /** There is a run in which two reliable messages were written and the second arrived, and an end
      of the flow that arrives then closes it without delivering either. */
  lemma EndOvertakes() returns (run: seq<System>, steps: seq<Step>)
    ensures IsRun(run, steps) && |steps| == 4 && |run| == 5
    ensures var s := run[4];
      && s.sent == [OneByte(1), OneByte(2)] && Have(s.flow, 2)
      && Input(s.flow, |s.log| + 1, EndPiece).delivered == [[]]
  {
    hide IsRun, Input, Have, Sound, Queued, AllTravel, AllAnswer, Written, WholePackets;
    run, steps := SecondArrives();
    RunHolds(run, steps, 4);
    var kept := EndDelivers(run[4]);
    NothingYetDelivered(run[4].flow, run[4].log, run[4].skipped);
  }

  lemma NothingYetDelivered(f: FlowState, log: seq<Slot>, skipped: set<nat>)
    requires Sound(f, log, skipped) && f.stage == 0
    ensures f.delivered == []
  {
    hide Matches;
  }
}
