/** What one flow does with a whole packet, and what it answers (FlowManager::receive). */
module Reception {
  import opened Bytes
  import opened OrderedMap
  import opened Wire
  import opened Flow
  import opened Stages
  import opened Receiving

  /** An acknowledgement: the cumulative stage, and the ranges buffered beyond it. */
  datatype Answer = Answer(stage: nat, ranges: seq<int>)

  datatype Received = Received(flow: FlowState, answers: seq<Answer>)

  function InputEvent(f: FlowState, id: nat, e: Event): FlowState {
    if e.Arrival? && e.flowId == id then Input(f, e.stage, e.piece) else f
  }

  function AnswerOf(f: FlowState): Answer {
    Answer(f.stage, Ranges(f.fragments.Keys, f.stage))
  }

  /** What ends the reading of a packet for its flows: the session closes, at the peer's request or
      because a writer still open is told that its data cannot be taken. */
  predicate Closes(e: Event, writers: set<nat>) {
    || (e.Other? && (e.kind == 0x0C || e.kind == 0x4C || e.kind == 0x18))
    || (e.Ack? && e.bufferSize == 0 && e.id in writers)
  }

  /** Every fragment is input; the flow answers where its fragments end. `writers` are those known
      and not closed. */
  function Receive(f: FlowState, id: nat, writers: set<nat>, events: seq<Event>): Received
    decreases |events|
  {
    if events == [] || Closes(events[0], writers) then Received(f, [])
    else
      var e := events[0];
      var next := InputEvent(f, id, e);
      var r := Receive(next, id, writers, events[1..]);
      if e.Arrival? && e.flowId == id && e.commit then r.(answers := [AnswerOf(next)] + r.answers) else r
  }

  /** Nothing after the chunk that ends the reading of a packet reaches the flow: a session closing,
      a negative acknowledgement, or a writer still open that is told there is no room left. */
  lemma {:induction false} NothingAfterClose(f: FlowState, id: nat, writers: set<nat>, before: seq<Event>, e: Event, after: seq<Event>)
    requires (e.Other? && e.kind in {0x0C, 0x4C, 0x18}) || (e.Ack? && e.bufferSize == 0 && e.id in writers)
    ensures Receive(f, id, writers, before + [e] + after) == Receive(f, id, writers, before)
    decreases |before|
  {
    hide Input, Ranges;
    var events := before + [e] + after;
    if before != [] {
      assert events[1..] == before[1..] + [e] + after;
      if !Closes(before[0], writers) {
        NothingAfterClose(InputEvent(f, id, before[0]), id, writers, before[1..], e, after);
      }
    }
  }

  /** Every other chunk but a fragment of the flow leaves it, and what it answers, alone. */
  lemma {:induction false} OthersIgnored(f: FlowState, id: nat, writers: set<nat>, before: seq<Event>, e: Event, after: seq<Event>)
    requires e.Other? ==> e.kind !in {0x0C, 0x4C, 0x18}
    requires e.Ack? ==> e.bufferSize > 0 || e.id !in writers
    requires e.Arrival? ==> e.flowId != id
    ensures Receive(f, id, writers, before + [e] + after) == Receive(f, id, writers, before + after)
    decreases |before|
  {
    hide Input, Ranges;
    var events := before + [e] + after;
    if before == [] {
      assert events[1..] == after && before + after == after;
    } else {
      assert events[1..] == before[1..] + [e] + after && (before + after)[1..] == before[1..] + after;
      if !Closes(before[0], writers) {
        OthersIgnored(InputEvent(f, id, before[0]), id, writers, before[1..], e, after);
      }
    }
  }

  /** The stages the flow jumps over. */
  function Jumped(f: FlowState, id: nat, writers: set<nat>, events: seq<Event>): set<nat>
    decreases |events|
  {
    if events == [] || Closes(events[0], writers) then {}
    else
      var e := events[0];
      (if e.Arrival? && e.flowId == id then Jump(f, e.stage, e.piece) else {})
      + Jumped(InputEvent(f, id, e), id, writers, events[1..])
  }

  /** An answer as it travels. One of 0x10000 bytes or more is never sent: no datagram holds it. */
  predicate Sendable(id: uint64, a: Answer) {
    && a.stage < 0x1_0000_0000_0000_0000
    && (forall i :: 0 <= i < |a.ranges| ==> 0 <= a.ranges[i] < 0x1_0000_0000_0000_0000)
    && |AckMessage(id, a.stage, a.ranges)| < 0x1_0000
  }

  function AnswerBytes(id: uint64, a: Answer, pad: nat): seq<byte>
    requires Sendable(id, a)
  {
    EncodeAck(id, a.stage, a.ranges) + Repeated(0xFF, pad)
  }

  predicate Acknowledges(answer: seq<byte>, id: nat, stage: nat) {
    var events := Parse(answer, None);
    |events| == 1 && events[0].Ack? && events[0].id == id && events[0].bufferSize > 0 && events[0].stage == stage
  }

  lemma AnswerAcknowledges(id: uint64, a: Answer, pad: nat)
    requires Sendable(id, a)
    ensures Acknowledges(AnswerBytes(id, a, pad), id, a.stage)
  {
    hide EncodeAck, Parse, AckMessage;
    AckRoundTrip(id, a.stage, a.ranges, pad);
  }

  /** The fragments a packet carries are all input before the one answer. */
  lemma {:induction false} PacketReceived(f: FlowState, id: nat, writers: set<nat>, events: seq<Event>, log: seq<Slot>, skipped: set<nat>, s: nat)
    requires Sound(f, log, skipped) && NoEnd(log) && events != [] && s + |events| <= |log|
    requires forall i :: 0 <= i < |events| ==> IsArrival(events[i], id, s + i + 1, log[s + i], i == |events| - 1)
    ensures var r := Receive(f, id, writers, events);
      && Sound(r.flow, log, skipped) && f.stage <= r.flow.stage
      && (forall k: nat :: Have(r.flow, k) <==> Have(f, k) || s < k <= s + |events|)
      && r.answers == [AnswerOf(r.flow)] && Jumped(f, id, writers, events) == {}
    decreases |events|
  {
    hide Sound, NoEnd, Matches, Input, Have, Ranges;
    var e := events[0];
    assert IsArrival(e, id, s + 1, log[s], 0 == |events| - 1);
    NotAbandoned(e, log, s);
    FragmentReceived(f, s + 1, e.piece, log, skipped);
    var next := Input(f, s + 1, e.piece);
    if |events| > 1 {
      forall i | 0 <= i < |events| - 1
        ensures IsArrival(events[1..][i], id, s + 1 + i + 1, log[s + 1 + i], i == |events| - 2)
      {
        assert IsArrival(events[i + 1], id, s + (i + 1) + 1, log[s + (i + 1)], i + 1 == |events| - 1);
      }
      PacketReceived(next, id, writers, events[1..], log, skipped, s + 1);
    } else {
      assert events[1..] == [];
    }
  }

  lemma NotAbandoned(e: Event, log: seq<Slot>, s: nat)
    requires NoEnd(log) && s < |log| && e.Arrival? && Matches(e.piece, log[s])
    ensures !e.piece.flags.abandon
  {
  }

  lemma AbandonJumps(f: FlowState, stage: nat, piece: Piece, log: seq<Slot>, skipped: set<nat>)
    requires Sound(f, log, skipped) && piece.flags.abandon
    ensures Jump(f, stage, piece) == Between(f.stage, stage)
  {
    hide Reassembled;
    FewerStages(f, log, skipped);
    if stage <= f.stage { assert Between(f.stage, stage) == {}; }
  }

  /** An abandon alone in its packet. */
  predicate Abandons(events: seq<Event>, id: nat, stage: nat) {
    && |events| == 1 && events[0].Arrival? && events[0].flowId == id && events[0].stage == stage && events[0].commit
    && events[0].piece.flags.abandon && !events[0].piece.flags.end
  }

  lemma AbandonAnswered(f: FlowState, id: nat, writers: set<nat>, events: seq<Event>, stage: nat, log: seq<Slot>, skipped: set<nat>)
    requires Sound(f, log, skipped) && NoEnd(log)
    requires Abandons(events, id, stage) && UnreliableBetween(log, f.stage, stage)
    ensures var r := Receive(f, id, writers, events);
      && Sound(r.flow, log, skipped + Jumped(f, id, writers, events)) && f.stage <= r.flow.stage
      && (forall k: nat :: Have(r.flow, k) <==> Have(f, k) || 1 <= k <= stage)
      && r.answers == [AnswerOf(r.flow)]
  {
    hide Sound, NoEnd, Input, Have, Ranges, Jump;
    var e := events[0];
    AbandonReceived(f, stage, e.piece, log, skipped);
    AbandonJumps(f, stage, e.piece, log, skipped);
    assert events[1..] == [];
    assert Jumped(f, id, writers, events) == Between(f.stage, stage);
  }

  /** The answer tells the writer the cumulative stage and the width of the first hole; read as
      section 2.3.14 of RFC 7016 lays it out, it tells exactly which stages wait in the buffer. */
  lemma AnswerLossless(f: FlowState, id: uint64, pad: nat)
    requires Gapped(f) && Narrow(f) && Sendable(id, AnswerOf(f))
    ensures var a := AnswerOf(f); var keys := f.fragments.Keys;
      && Parse(AnswerBytes(id, a, pad), None)
         == [Ack(id, BUFFER_SIZE, f.stage, if keys == {} then 0 else (First(keys) - f.stage - 1) % 0x1_0000_0000)]
      && forall k :: Reports(ParseRanges(EncodeRanges(a.ranges)), f.stage, k) <==> k in keys
  {
    hide Parse, EncodeAck, AckMessage, Ranges, EncodeRanges, ParseRanges;
    var a := AnswerOf(f);
    AckRoundTrip(id, a.stage, a.ranges, pad);
    RangesRoundTrip(a.ranges);
    RangesLossless(f.fragments.Keys, f.stage);
  }
}
