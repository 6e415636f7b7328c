/** FlowManager::receive for an established flow: the loop over the chunks of a packet, which inputs
    every fragment and answers where the fragments end. */
module FlowManagement {
  import opened Bytes
  import opened SevenBit
  import opened Wire
  import opened Flow
  import opened RtmfpFlow
  import opened Reception
  import opened BinaryReading

  /** Where the loop stands: the type of the next chunk was read, 0xFF when there is none. */
  predicate Ahead(kind: byte, rest: seq<byte>, s: seq<byte>) {
    (kind == 0xFF <==> AtEnd(s)) && (kind != 0xFF ==> s == [kind] + rest)
  }

  method ReadKind(reader: BinaryReader) returns (kind: byte)
    requires reader.Valid()
    modifies reader
    ensures reader.Valid() && |reader.Rest()| <= |old(reader.Rest())|
    ensures Ahead(kind, reader.Rest(), old(reader.Rest()))
  {
    kind := 0xFF;
    if reader.Available() > 0 { kind := reader.Read8(); }
  }

  /** The length and the content of a chunk whose type was read. */
  method ReadChunk(reader: BinaryReader, kind: byte) returns (message: seq<byte>)
    requires reader.Valid()
    modifies reader
    ensures reader.Valid() && Raw(kind, message, reader.Rest()) == SplitChunk([kind] + old(reader.Rest()))
  {
    assert ([kind] + old(reader.Rest()))[1..] == old(reader.Rest());
    var size := reader.Read16();
    ghost var rest := reader.Rest();
    var length := Min(size, reader.Available());
    message := reader.data[reader.current..reader.current + length];
    SliceOfSlice(reader.data, reader.current, reader.end, length);
    var _ := reader.Next(size);
  }

  method ReadSignature(message: BinaryReader) returns (signature: seq<byte>)
    requires message.Valid()
    modifies message
    ensures message.Valid() && Parsed(signature, message.Rest()) == ParseSignature(old(message.Rest()))
  {
    var size := message.Read8();
    var value := message.Read(size);
    signature := if value.Some? then value.value else Repeated(0, size);
  }

  method ReadFullDuplex(message: BinaryReader) returns (id: Option<nat>)
    requires message.Valid()
    modifies message
    ensures message.Valid()
    ensures id == match ParseFullDuplex(old(message.Rest())) case None => None case Some(p) => Some(p.value)
    ensures ParseFullDuplex(old(message.Rest())).Some? ==> ParseFullDuplex(old(message.Rest())).value.rest == message.Rest()
  {
    hide Parse7Bit;
    var size := message.Read8();
    if size == 0 { return Some(0); }
    var kind := message.Read8();
    var v: nat := 0;
    if kind == 0x0A { v := message.Read7Bit(9); }
    var length := message.Read8();
    ghost var end := SkipParts(length, message.Rest());
    while length > 0 && message.Available() > 0
      invariant message.Valid() && SkipParts(length, message.Rest()) == end
      decreases |message.Rest()|
    {
      var skipped := message.Next(length);
      length := message.Read8();
    }
    id := if length > 0 then None else Some(v);
  }

  method ReadRequest(message: BinaryReader) returns (request: Option<Request>)
    requires message.Valid()
    modifies message
    ensures request == ParseRequest(old(message.Rest()))
  {
    hide Parse7Bit, ParseFullDuplex, ParseSignature, ByteFlags;
    var flags := message.Read8();
    var flowId := message.Read7Bit(9);
    var stage := message.Read7Bit(9);
    var delta := message.Read7Bit(9);
    if !ByteFlags(flags).options {
      return Some(Request(ByteFlags(flags), flowId, stage, None, message.Rest()));
    }
    var signature := ReadSignature(message);
    var id := ReadFullDuplex(message);
    if id.None? { return None; }
    request := Some(Request(ByteFlags(flags), flowId, stage,
      Some(Options(signature, id.value % 0x1_0000_0000_0000_0000)), message.Rest()));
  }

  /** The bits of an 0x50 acknowledgement, least significant first, up to the first set one. */
  method CountHole(message: BinaryReader) returns (lost: nat)
    requires message.Valid() && message.Rest() != []
    modifies message
    ensures lost == BitmapHole(old(message.Rest()))
  {
    lost := 0;
    while true
      invariant message.Valid() && message.Rest() != []
      invariant lost + BitmapHole(message.Rest()) == BitmapHole(old(message.Rest()))
      decreases |message.Rest()|
    {
      var bits := message.Read8();
      ghost var first, total := bits, lost + LeadingZeros(bits, 8);
      var i := 0;
      while i < 8
        invariant i <= 8 && lost + LeadingZeros(bits, 8 - i) == total
        invariant i + LeadingZeros(bits, 8 - i) == LeadingZeros(first, 8)
      {
        if bits % 2 == 1 { break; }
        lost := lost + 1;
        bits := bits / 2;
        i := i + 1;
      }
      if i < 8 || message.Available() == 0 { return; }
    }
  }

  method ReadLost(kind: byte, message: BinaryReader) returns (lostCount: nat)
    requires message.Valid()
    modifies message
    ensures lostCount == LostCount(kind, old(message.Rest()))
  {
    hide Parse7Bit, BitmapHole;
    lostCount := 0;
    if message.Available() > 0 {
      lostCount := 1;
      if kind == 0x50 {
        var hole := CountHole(message);
        lostCount := lostCount + hole;
      } else {
        var hole := message.Read7Bit(9);
        lostCount := (lostCount + hole) % 0x1_0000_0000;
      }
    }
  }

  method ReadAck(kind: byte, content: seq<byte>) returns (ack: Event)
    ensures ack == ParseAck(kind, content)
  {
    hide Parse7Bit, LostCount;
    var message := new BinaryReader(content);
    var id := message.Read7Bit(9);
    var bufferSize := message.Read7Bit(9);
    if bufferSize == 0 { return Ack(id, 0, 0, 0); }
    var stage := message.Read7Bit(9);
    var lostCount := ReadLost(kind, message);
    ack := Ack(id, bufferSize, stage, lostCount);
  }

  /** What one chunk decodes to, the flow and stage the next one may continue, and whether the rest
      of the packet is given up. */
  datatype ChunkTurn = ChunkTurn(events: seq<Event>, open: Option<(nat, nat)>, stop: bool)

  function Fragment(flowId: nat, stage: nat, piece: Piece, options: Option<Options>, rest: seq<byte>): ChunkTurn {
    var commit := stage != 0 && !Continues(rest);
    ChunkTurn([Arrival(flowId, stage, piece, options, AtEnd(rest), commit)], if commit then None else Some((flowId, stage)), false)
  }

  function OneChunk(kind: byte, message: seq<byte>, rest: seq<byte>, open: Option<(nat, nat)>): ChunkTurn {
    if kind == 0x10 then
      match ParseRequest(message)
      case None => ChunkTurn([], None, true)
      case Some(r) => Fragment(r.flowId, r.stage, Piece(r.flags, r.payload), r.options, rest)
    else if kind == 0x11 then
      if open.None? then ChunkTurn([], None, false)
      else
        var Parsed(flags, payload) := Parse8(message);
        Fragment(open.value.0, (open.value.1 + 1) % STAGE_LIMIT, Piece(ByteFlags(flags), payload), None, rest)
    else if kind == 0x50 || kind == 0x51 then ChunkTurn([ParseAck(kind, message)], open, false)
    else if IsSessionChunk(kind) then ChunkTurn([Other(kind)], open, false)
    else ChunkTurn([], None, true)
  }

  lemma ParseStep(s: seq<byte>, open: Option<(nat, nat)>)
    requires !AtEnd(s)
    ensures var raw := SplitChunk(s); var turn := OneChunk(raw.kind, raw.message, raw.rest, open);
      Parse(s, open) == turn.events + if turn.stop then [] else Parse(raw.rest, turn.open)
  {
    hide SplitChunk, ParseRequest, ParseAck, ByteFlags;
  }

  lemma OneChunkShape(kind: byte, message: seq<byte>, rest: seq<byte>, open: Option<(nat, nat)>)
    requires open.Some? ==> open.value.1 < STAGE_LIMIT
    ensures var turn := OneChunk(kind, message, rest, open);
      && |turn.events| <= 1 && (turn.open.Some? ==> turn.open.value.1 < STAGE_LIMIT)
      && (turn.events != [] && turn.events[0].Arrival? ==> turn.events[0].stage < STAGE_LIMIT)
  {
    hide ParseAck, ByteFlags, ParseRequest;
    RequestStage(message);
  }

  lemma RequestStage(message: seq<byte>)
    ensures var r := ParseRequest(message); r.Some? ==> r.value.stage < STAGE_LIMIT
  {
    hide ByteFlags, Parse7Bit, ParseSignature, ParseFullDuplex;
    var Parsed(flags, s1) := Parse8(message);
    Parse7Is64Bits(Parse7Bit(s1, 9).rest);
  }

  method DecodeChunk(kind: byte, message: seq<byte>, next: byte, open: Option<(nat, nat)>, ghost rest: seq<byte>)
    returns (turn: ChunkTurn)
    requires (next == 0xFF <==> AtEnd(rest)) && (next != 0xFF ==> rest != [] && rest[0] == next)
    ensures turn == OneChunk(kind, message, rest, open)
  {
    hide ParseRequest, ParseAck, ByteFlags;
    if kind == 0x50 || kind == 0x51 {
      var ack := ReadAck(kind, message);
      return ChunkTurn([ack], open, false);
    }
    var flowId, stage, piece, options;
    if kind == 0x10 {
      var reader := new BinaryReader(message);
      var request := ReadRequest(reader);
      if request.None? { return ChunkTurn([], None, true); }
      flowId, stage := request.value.flowId, request.value.stage;
      piece, options := Piece(request.value.flags, request.value.payload), request.value.options;
    } else if kind == 0x11 {
      if open.None? { return ChunkTurn([], None, false); }
      var reader := new BinaryReader(message);
      var flags := reader.Read8();
      flowId, stage := open.value.0, (open.value.1 + 1) % STAGE_LIMIT;
      piece, options := Piece(ByteFlags(flags), reader.Rest()), None;
    } else {
      return if IsSessionChunk(kind) then ChunkTurn([Other(kind)], open, false) else ChunkTurn([], None, true);
    }
    var commit := stage != 0 && next != 0x11;
    turn := ChunkTurn([Arrival(flowId, stage, piece, options, next == 0xFF, commit)],
                      if commit then None else Some((flowId, stage)), false);
  }

  /** The fragment goes to its flow, which answers when no other follows. */
  method InputFragment(flow: RTMFPFlow, id: nat, e: Event) returns (answers: seq<Answer>)
    requires flow.Valid() && (e.Arrival? ==> e.stage < STAGE_LIMIT)
    modifies flow
    ensures flow.Valid() && flow.State() == InputEvent(old(flow.State()), id, e)
    ensures answers == if e.Arrival? && e.flowId == id && e.commit then [AnswerOf(flow.State())] else []
  {
    hide Input, Ranges, EncodeRanges;
    answers := [];
    if e.Arrival? && e.flowId == id {
      flow.Input(e.stage, e.piece);
      if e.commit {
        var ack, losts, size := flow.BuildAck();
        answers := [Answer(ack, losts)];
      }
    }
  }

  function After(answers: seq<Answer>, r: Received): Received {
    r.(answers := answers + r.answers)
  }

  lemma ReceiveStep(f: FlowState, id: nat, writers: set<nat>, answers: seq<Answer>, first: seq<Event>, events: seq<Event>)
    requires |first| <= 1
    ensures first == [] ==> Receive(f, id, writers, first + events) == Receive(f, id, writers, events)
    ensures first != [] && Closes(first[0], writers) ==> Receive(f, id, writers, first + events) == Received(f, [])
    ensures first != [] && !Closes(first[0], writers) ==>
      var e := first[0]; var next := InputEvent(f, id, e);
      var more := if e.Arrival? && e.flowId == id && e.commit then [AnswerOf(next)] else [];
      After(answers, Receive(f, id, writers, first + events)) == After(answers + more, Receive(next, id, writers, events))
  {
    hide InputEvent, AnswerOf;
    if first == [] {
      assert first + events == events;
    } else {
      assert (first + events)[1..] == events;
    }
  }

  method ReceivePacket(flow: RTMFPFlow, id: nat, writers: set<nat>, packet: seq<byte>) returns (answers: seq<Answer>)
    requires flow.Valid()
    modifies flow
    ensures flow.Valid()
    ensures Received(flow.State(), answers) == Receive(old(flow.State()), id, writers, Parse(packet, None))
  {
    hide Parse, Receive, OneChunk, InputEvent, AnswerOf, SplitChunk, Closes;
    ghost var goal := Receive(flow.State(), id, writers, Parse(packet, None));
    ghost var s := packet;
    var reader := new BinaryReader(packet);
    var open: Option<(nat, nat)> := None;
    answers := [];
    var kind := ReadKind(reader);
    while kind != 0xFF
      invariant reader.Valid() && flow.Valid()
      invariant Ahead(kind, reader.Rest(), s)
      invariant open.Some? ==> open.value.1 < STAGE_LIMIT
      invariant goal == After(answers, Receive(flow.State(), id, writers, Parse(s, open)))
      decreases |s|
    {
      ParseStep(s, open);
      var message := ReadChunk(reader, kind);
      ghost var rest := reader.Rest();
      var next := ReadKind(reader);
      OneChunkShape(kind, message, rest, open);
      var turn := DecodeChunk(kind, message, next, open, rest);
      ReceiveStep(flow.State(), id, writers, answers, turn.events, if turn.stop then [] else Parse(rest, turn.open));
      if turn.events != [] {
        if Closes(turn.events[0], writers) {
          assert answers + [] == answers;
          return;
        }
        var more := InputFragment(flow, id, turn.events[0]);
        answers := answers + more;
      }
      if turn.stop {
        NothingReceived(flow.State(), id, writers);
        return;
      }
      open, kind, s := turn.open, next, rest;
    }
    NothingDecoded(s, open);
    NothingReceived(flow.State(), id, writers);
  }

  lemma NothingReceived(f: FlowState, id: nat, writers: set<nat>)
    ensures Receive(f, id, writers, []) == Received(f, [])
  {
  }

  lemma NothingDecoded(s: seq<byte>, open: Option<(nat, nat)>)
    requires AtEnd(s)
    ensures Parse(s, open) == []
  {
  }
}
