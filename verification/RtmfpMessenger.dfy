/** RTMFPMessenger (sources/RTMFPSender.cpp): cuts messages into fragments and packs the fragments
    into packets. */
module RtmfpMessenger {
  import opened Bytes
  import opened Wire
  import opened Sender
  import opened RtmfpSender
  import opened Stages
  import opened Packing

  /** What the application wrote, and the packet that ends the message. */
  datatype Message = Message(reliable: bool, writer: seq<byte>, footer: seq<byte>)

  function Whole(m: Message): seq<byte> {
    m.writer + m.footer
  }

  /** As many stages as a message can need. */
  function StagesFor(m: Message): nat {
    if Whole(m) == [] then 1 else |Whole(m)|
  }

  function StagesForAll(ms: seq<Message>): nat {
    if ms == [] then 0 else StagesFor(ms[0]) + StagesForAll(ms[1..])
  }

  /** Inner pieces of a message still being written. */
  function Partial(pieces: seq<seq<byte>>, reliable: bool): seq<Slot> {
    seq(|pieces|, j requires 0 <= j < |pieces| => Slot(j > 0, true, reliable, false, pieces[j]))
  }

  predicate AllNonEmpty(pieces: seq<seq<byte>>) {
    forall j :: 0 <= j < |pieces| ==> pieces[j] != []
  }

  /** The packet being filled carries the last fragments of the history. */
  ghost predicate Filled(log: seq<Slot>, head: Header, pieces: seq<Piece>, prefix: nat, body: seq<byte>,
                         reliable: bool, id: uint64)
  {
    && |pieces| <= |log| && (prefix == 9 || prefix == 11)
    && if pieces == [] then body == []
       else
         && ValidDatagram(head, pieces) && body == Chunks(head, pieces) && prefix + |body| <= SIZE_PACKET
         && head.id == id && head.stage == |log| - |pieces| + 1
         && forall i :: 0 <= i < |pieces| ==> Holds(pieces[i], log[|log| - |pieces| + i], reliable)
  }

  ghost predicate Holds(piece: Piece, slot: Slot, reliable: bool) {
    Matches(piece, slot) && slot.reliable == reliable && !slot.last
  }

  /** The finished packets carry the history from the end of `log0` on, but for the fragments still held. */
  ghost predicate Carried(id: uint64, log0: seq<Slot>, log: seq<Slot>, packets: seq<Packet>, held: nat) {
    log0 <= log && |log0| + FragmentSum(packets) + held == |log| && Tiled(packets, id, log, |log0|)
  }

  class Messenger {
    const session: Session
    const queue: Queue
    /** The packet being filled: whether there is one, its prefix, its chunks and their number. */
    var open: bool
    var prefix: nat
    var body: seq<byte>
    var fragments: nat
    /** The flags of the last fragment written, and the reliability kept beside them. */
    var flags: Flags
    var reliable: bool

    ghost var log: seq<Slot>
    ghost var log0: seq<Slot>
    ghost var waiting0: seq<Packet>
    ghost var queueing0: int
    ghost var packets: seq<Packet>
    ghost var head: Header
    ghost var pieces: seq<Piece>
    ghost var echo0: bool

    /** Between its steps a fragment is first numbered, then reserved in a packet, then written. */
    ghost predicate Valid(numbered: nat, reserved: nat)
      reads this, queue, session
    {
      && |queue.signature| < 0x100 && queue.stageAck <= queue.stage == |log| + numbered < STAGE_MAX
      && (open ==> Filled(log, head, pieces, prefix, body, reliable, queue.id) && fragments == |pieces| + reserved >= 1)
      && Carried(queue.id, log0, log, packets, if open then |pieces| else 0)
      && queue.waiting == waiting0 + packets
      && session.queueing == queueing0 + SizeTotal(packets)
    }

    ghost function From(): Origin
      reads this, queue
    {
      Origin(queue.id, queue.stageAck, Options(queue.signature, queue.flowId), echo0)
    }

    /** The packets are as full as they can be, the one being filled included. */
    ghost predicate Saves()
      reads this, queue, session
    {
      && Thrifty(From(), packets, Unpacked(log), |log0|)
      && (open ==> Filling(From(), Unpacked(log), |log0|, packets, |pieces|, prefix, prefix + |body|, reliable, head))
      && session.echo == (echo0 && !open && packets == [])
    }

    /** What the steps leave alone. */
    twostate predicate SameStart()
      reads this
    {
      log0 == old(log0) && waiting0 == old(waiting0) && queueing0 == old(queueing0) && echo0 == old(echo0)
    }

    constructor (session: Session, queue: Queue, ghost log: seq<Slot>)
      requires |queue.signature| < 0x100 && queue.stageAck <= queue.stage == |log| < STAGE_MAX
      ensures Valid(0, 0) && !open && !flags.after && fresh(this)
      ensures this.session == session && this.queue == queue && packets == []
      ensures this.log == log && log0 == log && waiting0 == queue.waiting && queueing0 == session.queueing
      ensures Saves() && echo0 == session.echo
    {
      this.session, this.queue := session, queue;
      open, prefix, body, fragments := false, 0, [], 0;
      flags, reliable := Flags(false, false, false, false, false), false;
      this.log, log0, waiting0, queueing0 := log, log, queue.waiting, session.queueing;
      packets, pieces, echo0 := [], [], session.echo;
    }

    function Fields(): (f: HeaderFields)
      reads queue
      requires queue.stageAck <= queue.stage < STAGE_MAX && |queue.signature| < 0x100
      ensures ValidFields(f)
    {
      HeaderFields(queue.id, queue.stage, queue.stage - queue.stageAck, queue.stageAck == 0,
                   Options(queue.signature, queue.flowId))
    }

    /** The bytes of the encoded header. */
    function HeaderSize(): (n: nat)
      reads queue
      requires queue.stageAck <= queue.stage < STAGE_MAX && |queue.signature| < 0x100
      ensures n == |HeaderBytes(Fields())|
    {
      HeaderSizeExact(Fields());
      |E7(queue.id)| + |E7(queue.stage)| + |E7(queue.stage - queue.stageAck)|
      + (if queue.stageAck != 0 then 0
         else |queue.signature| + (if queue.flowId != 0 then 4 + |E7(queue.flowId)| else 2))
    }

    /** Padding to whole cipher blocks, and the packet joins the queue. */
    method Flush(ghost numbered: nat, ghost next: bool)
      requires Valid(numbered, 0) && Saves()
      modifies this, queue`waiting, session`queueing
      ensures Valid(numbered, 0) && !open && SameStart() && Saves()
      ensures Unpacked(log) == Unpacked(old(log))
      ensures flags == old(flags) && reliable == old(reliable)
      ensures !old(open) ==> packets == old(packets)
      ensures old(open) && (old(prefix + |body|) + ROOM > SIZE_PACKET || reliable != next)
          ==> Opens(From(), packets, Unpacked(log), |log0|, next)
    {
      hide Filled, Carried, Closed, Unpacked, SizeTotal, Repeated, Thrifty, Filling, Opens;
      if !open { return; }
      PacketJoins(queue.id, log0, log, packets, head, pieces, prefix, body, reliable);
      PacketSaves(From(), log, |log0|, packets, head, pieces, prefix, body, reliable);
      var packet := Encode(fragments, reliable, prefix, body);
      queue.waiting := queue.waiting + [packet];
      session.queueing := session.queueing + Size(packet);
      open := false;
      log := Closed(log);
      packets := packets + [packet];
      assert waiting0 + (old(packets) + [packet]) == (waiting0 + old(packets)) + [packet];
    }

    /** RTMFP::InitBuffer: the prefix is two bytes longer when a timestamp is echoed. */
    method InitBuffer(ghost numbered: nat)
      requires Valid(numbered, 0) && !open && Saves()
      modifies this, session`echo
      ensures open && pieces == [] && body == [] && prefix <= SIZE_HEADER && fragments == 1 && SameStart()
      ensures log == old(log) && flags == old(flags) && reliable == old(reliable) && packets == old(packets)
      ensures Valid(numbered, 1) && Saves()
    {
      hide Filled, Carried, Thrifty, Filling, Unpacked, SizeTotal, FragmentSum;
      assert |log0| + FragmentSum(packets) == |log| by { CarriedAll(queue.id, log0, log, packets); }
      FilledEmpty(log, head, if session.echo then 11 else 9, reliable, queue.id);
      Opened(From(), Unpacked(log), |log0|, packets, reliable, head);
      prefix := if session.echo then 11 else 9;
      session.echo := false;
      body, fragments, open := [], 1, true;
      pieces := [];
    }

    /** A fragment of this much content joins the packet: it opens it, or finds room in it; it ends
        at the limit at the latest, and exactly there when more of its message is to come. */
    ghost predicate Reserved(messageReliable: bool, header: bool, headerSize: nat, contentSize: nat, more: bool)
      reads this, queue
      requires queue.stageAck <= queue.stage < STAGE_MAX && |queue.signature| < 0x100
    {
      var used := prefix + |body| + headerSize - SIZE_HEADER + contentSize;
      && (header <==> pieces == [])
      && headerSize == SIZE_HEADER + 4 + (if header then HeaderSize() else 0)
      && used <= Limit(prefix, |pieces| + 1) && (more ==> used == Limit(prefix, |pieces| + 1))
      && (if header then Opens(From(), packets, Unpacked(log), |log0|, messageReliable)
          else reliable == messageReliable && prefix + |body| + ROOM <= SIZE_PACKET)
    }

    /** Where the next fragment goes: a new packet when there is none, when too little room is left
        or when the reliability changes; and how much of the message it takes: all that is left of
        it, or else all the room. */
    method Reserve(size: nat, messageReliable: bool) returns (header: bool, headerSize: nat, contentSize: nat)
      requires Valid(1, 0) && Saves() && (!open ==> packets == [])
      modifies this, queue`waiting, session`queueing, session`echo
      ensures Valid(1, 1) && open && SameStart()
      ensures Unpacked(log) == Unpacked(old(log)) && flags == old(flags)
      ensures contentSize <= size && (size > 0 ==> contentSize > 0)
      ensures Saves() && Reserved(messageReliable, header, headerSize, contentSize, contentSize < size)
    {
      hide Carried, Unpacked, SizeTotal, E7, Filled, Thrifty, Filling, Opens;
      HeaderRoom(queue.id, queue.stage, queue.stage - queue.stageAck, queue.signature, queue.flowId);
      header := !open;
      contentSize := size;
      headerSize := SIZE_HEADER + 4;
      if header { headerSize := headerSize + HeaderSize(); }
      var availableToWrite := SIZE_PACKET;
      if open {
        FilledRoom(log, head, pieces, prefix, body, reliable, queue.id);
        availableToWrite := availableToWrite - (prefix + |body|);
      }
      if !open || headerSize + 16 > availableToWrite || messageReliable != reliable {
        Flush(1, messageReliable);
        if header { FirstOpens(From(), packets, Unpacked(log), |log0|, messageReliable); }
        if !header {
          headerSize := headerSize + HeaderSize();
          header := true;
        }
        InitBuffer(1);
        if headerSize + contentSize > SIZE_PACKET { contentSize := SIZE_PACKET - headerSize; }
      } else {
        if headerSize + contentSize > availableToWrite { contentSize := availableToWrite - headerSize; }
        fragments := fragments + 1;
      }
    }

    /** What presents the flow: its signature and the flow it answers. */
    method PutOptions()
      requires |queue.signature| < 0x100
      modifies this`body
      ensures body == old(body) + EncodeOptions(Options(queue.signature, queue.flowId))
    {
      hide E7;
      body := body + [|queue.signature| as byte] + queue.signature;
      ghost var before, duplex := body, [];
      if queue.flowId != 0 {
        duplex := [FullDuplexSize(queue.flowId)] + ([0x0A] + E7(queue.flowId));
        body := body + [FullDuplexSize(queue.flowId)];
        body := body + [0x0A];
        body := body + E7(queue.flowId);
      }
      assert body == before + duplex;
      body := body + [0];
    }

    /** The header that opens a packet; until the first acknowledgement it presents the flow. */
    method PutHeader()
      requires queue.stageAck <= queue.stage < STAGE_MAX && |queue.signature| < 0x100
      modifies this`body
      ensures body == old(body) + HeaderBytes(Fields())
    {
      hide E7, EncodeOptions;
      body := body + E7(queue.id);
      body := body + E7(queue.stage);
      body := body + E7(queue.stage - queue.stageAck);
      if queue.stageAck == 0 {
        PutOptions();
      }
    }

    /** The bytes of a chunk: its type, its length, its flags, its header if any, and its content. */
    method WriteChunk(messageReliable: bool, header: bool, size: nat, content: seq<byte>, more: bool)
      requires queue.stageAck <= queue.stage < STAGE_MAX && |queue.signature| < 0x100 && size < 0x1_0000
      requires more ==> content != []
      modifies this`body, this`flags, this`reliable
      ensures flags == ChunkFlags(queue.stageAck == 0 && header, old(flags).after, more, content)
      ensures reliable == messageReliable
      ensures body == old(body) + ChunkBytes(header, size, flags, if header then Some(Fields()) else None, content)
    {
      hide HeaderBytes, FlagsByte, ChunkBytes, Be16;
      if content == [] {
        flags := Flags(false, false, false, true, true);
      } else {
        flags := Flags(queue.stageAck == 0 && header, flags.after, more, false, false);
      }
      ghost var before, headerBytes := body, [];
      body := body + [if header then 0x10 else 0x11];
      body := body + Be16(size);
      body := body + [FlagsByte(flags)];
      reliable := messageReliable;
      ghost var start := body;
      if header {
        headerBytes := HeaderBytes(Fields());
        PutHeader();
      }
      assert body == start + headerBytes;
      body := body + content;
      ChunkLayout(before, header, size, flags, if header then Some(Fields()) else None, content);
    }

    /** What the packet carries once the reserved fragment is written. */
    lemma NextState(messageReliable: bool, header: bool, headerSize: nat, content: seq<byte>, more: bool)
      returns (h: Header, ps: seq<Piece>)
      requires Valid(1, 1) && Saves() && open && Reserved(messageReliable, header, headerSize, |content|, more)
      requires more ==> content != []
      ensures
        var slot := Slot(flags.after && content != [], more, messageReliable, false, content);
        var body' := body + ChunkBytes(header, headerSize - SIZE_HEADER - 3 + |content|,
                                       ChunkFlags(queue.stageAck == 0 && header, flags.after, more, content),
                                       if header then Some(Fields()) else None, content);
        && |ps| == |pieces| + 1
        && Filled(log + [slot], h, ps, prefix, body', messageReliable, queue.id)
        && Carried(queue.id, log0, log + [slot], packets, |ps|)
        && Unpacked(log + [slot]) == Unpacked(log) + [slot]
        && Filling(From(), Unpacked(log) + [slot], |log0|, packets, |ps|, prefix, prefix + |body'|, messageReliable, h)
        && Thrifty(From(), packets, Unpacked(log) + [slot], |log0|)
    {
      hide E7, Filled, Carried, Unpacked, SizeTotal, ChunkBytes, HeaderBytes, ChunkFlags, Fields, HeaderSize, ValidFields;
      hide Filling, Thrifty, Opens;
      var slot := Slot(flags.after && content != [], more, messageReliable, false, content);
      var size := headerSize - SIZE_HEADER - 3 + |content|;
      var first := if header then Some(Fields()) else None;
      FirstFields();
      FilledRoom(log, head, pieces, prefix, body, reliable, queue.id);
      h, ps := ChunkWritten(log, head, pieces, prefix, body, reliable, queue.id, size, first, slot);
      LogGrows(queue.id, log0, log, packets, |pieces|, slot);
      SameFlags(queue.stageAck == 0 && header, flags.after, more, content);
      ChunkLength(header, size, SlotFlags(first, slot), first, content);
      NextSaves(messageReliable, header, headerSize, slot, h, body + ChunkBytes(header, size, SlotFlags(first, slot), first, content));
    }

    /** How full the packet is once the reserved fragment is written. */
    lemma NextSaves(messageReliable: bool, header: bool, headerSize: nat, slot: Slot, h: Header, body': seq<byte>)
      requires Valid(1, 1) && Saves() && open
      requires slot.reliable == messageReliable && !slot.last
      requires Reserved(messageReliable, header, headerSize, |slot.payload|, slot.after)
      requires |body'| == |body| + headerSize - SIZE_HEADER + |slot.payload|
      requires if header then h.delta == Fields().delta && h.options == Presented(Fields(), slot) else h == head
      ensures Filling(From(), Unpacked(log) + [slot], |log0|, packets, |pieces| + 1, prefix, prefix + |body'|, messageReliable, h)
      ensures Thrifty(From(), packets, Unpacked(log) + [slot], |log0|)
    {
      hide Filled, Carried, Unpacked, SizeTotal, Thrifty, Filling, Opens, E7, HeaderLength, HeaderSize;
      if header {
        HeaderSizeLength();
        HeadsFirst(From(), Fields(), slot, h);
      }
      FragmentLaid(From(), Unpacked(log), |log0|, packets, |pieces|, prefix, prefix + |body|, reliable, head,
                   slot, prefix + |body'|, h);
    }

    lemma HeaderSizeLength()
      requires queue.stageAck <= queue.stage < STAGE_MAX && |queue.signature| < 0x100
      ensures HeaderSize() == HeaderLength(From(), queue.stage)
    {
    }

    /** The reserved fragment is written. */
    method PutChunk(messageReliable: bool, header: bool, headerSize: nat, content: seq<byte>, more: bool)
      requires Valid(1, 1) && Saves() && open && Reserved(messageReliable, header, headerSize, |content|, more)
      requires more ==> content != []
      modifies this
      ensures Valid(0, 0) && open && SameStart() && Saves()
      ensures Unpacked(log) == Unpacked(old(log)) + [Slot(old(flags).after && content != [], more, messageReliable, false, content)]
      ensures flags.after == more
    {
      hide E7, Filled, Carried, Unpacked, SizeTotal, ChunkBytes, HeaderBytes, ChunkFlags, Fields, HeaderSize, ValidFields;
      hide Filling, Thrifty, Opens;
      ghost var slot := Slot(flags.after && content != [], more, messageReliable, false, content);
      ghost var h, ps := NextState(messageReliable, header, headerSize, content, more);
      WriteChunk(messageReliable, header, headerSize - SIZE_HEADER - 3 + |content|, content, more);
      log, head, pieces := log + [slot], h, ps;
    }

    /** One turn of the fragmenting loop: a stage is numbered, room is reserved, and the content
        is taken where the cursor stands. */
    method WriteFragment(message: Message, size: nat, c: Cursor) returns (left: nat, next: Cursor, ghost content: seq<byte>)
      requires Valid(0, 0) && queue.stage + 1 < STAGE_MAX && Saves() && (!open ==> packets == [])
      requires At(message, c) && size == |Left(message, c)|
      modifies this, queue`stage, queue`waiting, session`queueing, session`echo
      ensures Valid(0, 0) && SameStart() && |log| == |old(log)| + 1 && open && Saves()
      ensures At(message, next) && left == |Left(message, next)|
      ensures Left(message, c) == content + Left(message, next) && (size > 0 ==> content != [])
      ensures Unpacked(log) == Unpacked(old(log)) + [Slot(old(flags).after && content != [], left > 0, message.reliable, false, content)]
      ensures flags.after == (left > 0)
    {
      hide Carried, Unpacked, SizeTotal, Filled, Left, Thrifty, Filling, Reserved;
      queue.stage := queue.stage + 1;
      var header, headerSize, contentSize := Reserve(size, message.reliable);
      left := size - contentSize;
      var taken;
      taken, next := TakeContent(message, c, contentSize);
      PutChunk(message.reliable, header, headerSize, taken, left > 0);
      content := taken;
    }

    /** The loop that cuts one message. */
    method Write(message: Message) returns (ghost cut: Cut)
      requires Valid(0, 0) && !flags.after && queue.stage + StagesFor(message) < STAGE_MAX
      requires Saves() && (!open ==> packets == [])
      modifies this, queue`stage, queue`waiting, session`queueing, session`echo
      ensures Valid(0, 0) && !flags.after && SameStart() && open && Saves()
      ensures WellCut(cut) && cut.reliable == message.reliable && Content(cut) == Whole(message)
      ensures Unpacked(log) == Unpacked(old(log)) + SlotsOf(cut)
      ensures |log| <= |old(log)| + StagesFor(message)
    {
      hide Carried, Unpacked, SizeTotal, Filled, Left, Concat, At, SlotsOf, Partial, Saves;
      var c, size := Start(message);
      ghost var cur: seq<seq<byte>> := [];
      ghost var spare := StagesFor(message);
      NothingYet(message.reliable, Unpacked(log));
      while true
        invariant Valid(0, 0) && SameStart() && Saves() && (!open ==> packets == [])
        invariant Unpacked(log) == Unpacked(old(log)) + Partial(cur, message.reliable)
        invariant (flags.after <==> cur != []) && AllNonEmpty(cur) && (cur != [] ==> size > 0)
        invariant At(message, c) && size == |Left(message, c)|
        invariant Concat(cur) + Left(message, c) == Whole(message)
        invariant size <= spare && 1 <= spare && queue.stage + spare < STAGE_MAX
        invariant |log| + spare == |old(log)| + StagesFor(message)
        decreases size
      {
        ghost var content, before, was := [], Left(message, c), Unpacked(log);
        size, c, content := WriteFragment(message, size, c);
        AddPiece(Unpacked(old(log)), cur, content, message.reliable, size > 0, Left(message, c));
        spare := spare - 1;
        if size == 0 {
          cut := Cut(message.reliable, cur + [content]);
          assert Concat(cur + [content]) + Left(message, c) == Concat(cur + [content]);
          break;
        }
        cur := cur + [content];
      }
    }

    /** RTMFPMessenger::run: every message is cut in its turn, and the last packet is closed. */
    method Run(messages: seq<Message>) returns (ghost cuts: seq<Cut>)
      requires Valid(0, 0) && !flags.after && !open && packets == [] && Saves()
      requires queue.stage + StagesForAll(messages) < STAGE_MAX
      modifies this, queue`stage, queue`waiting, session`queueing, session`echo
      ensures CutsOf(cuts, messages)
      ensures queue.stage == |log| < STAGE_MAX && Unpacked(log) == Unpacked(old(log)) + AllSlots(cuts)
      ensures log0 <= log && Tiled(packets, queue.id, log, |log0|) && |log0| + FragmentSum(packets) == |log|
      ensures Thrifty(old(From()), packets, Unpacked(log), |log0|)
      ensures SameStart() && queue.waiting == waiting0 + packets && session.queueing == queueing0 + SizeTotal(packets)
    {
      hide Carried, Unpacked, SizeTotal, Filled, AllSlots, CutOf, Thrifty, Filling;
      cuts := [];
      var i := 0;
      NoCuts(Unpacked(log));
      assert messages[0..] == messages;
      while i < |messages|
        invariant Valid(0, 0) && !flags.after && SameStart() && Saves() && (!open ==> packets == [])
        invariant i <= |messages| && CutsOf(cuts, messages[..i])
        invariant Unpacked(log) == Unpacked(old(log)) + AllSlots(cuts)
        invariant queue.stage + StagesForAll(messages[i..]) < STAGE_MAX
      {
        assert messages[i..][0] == messages[i] && messages[i..][1..] == messages[i + 1..];
        ghost var slots := Unpacked(log);
        ghost var cut := Write(messages[i]);
        MoreCuts(Unpacked(old(log)), cuts, cut);
        assert CutOf(cut, messages[i]) by { IsCut(cut, messages[i]); }
        cuts := cuts + [cut];
        i := i + 1;
      }
      assert messages[..i] == messages;
      Flush(0, false);
      CarriedAll(queue.id, log0, log, packets);
    }

    lemma FirstFields()
      requires queue.stageAck <= queue.stage < STAGE_MAX && |queue.signature| < 0x100
      ensures Fields().id == queue.id && Fields().stage == queue.stage && Fields().present == (queue.stageAck == 0)
    {
    }
  }

  /** A message cut in pieces that concatenate to it. */
  predicate CutOf(cut: Cut, message: Message) {
    WellCut(cut) && cut.reliable == message.reliable && Content(cut) == Whole(message)
  }

  predicate CutsOf(cuts: seq<Cut>, messages: seq<Message>) {
    |cuts| == |messages| && forall i :: 0 <= i < |cuts| ==> CutOf(cuts[i], messages[i])
  }

  lemma IsCut(cut: Cut, message: Message)
    requires WellCut(cut) && cut.reliable == message.reliable && Content(cut) == Whole(message)
    ensures CutOf(cut, message)
  {
  }

  lemma NoCuts(slots: seq<Slot>)
    ensures slots + AllSlots([]) == slots
  {
  }

  lemma MoreCuts(slots: seq<Slot>, cuts: seq<Cut>, cut: Cut)
    ensures slots + AllSlots(cuts + [cut]) == (slots + AllSlots(cuts)) + SlotsOf(cut)
  {
  }

  lemma CarriedAll(id: uint64, log0: seq<Slot>, log: seq<Slot>, packets: seq<Packet>)
    requires Carried(id, log0, log, packets, 0)
    ensures log0 <= log && Tiled(packets, id, log, |log0|) && |log0| + FragmentSum(packets) == |log|
  {
  }

  /** A position in a message: in its first part or in its footer, and what is left there. */
  datatype Cursor = Cursor(inWriter: bool, current: nat, available: nat)

  predicate At(m: Message, c: Cursor) {
    c.current + c.available == if c.inWriter then |m.writer| else |m.footer|
  }

  /** What is left to write: of the first part and the footer, or of the footer. */
  function Left(m: Message, c: Cursor): seq<byte>
    requires At(m, c)
  {
    if c.inWriter then m.writer[c.current..] + m.footer else m.footer[c.current..]
  }

  method Start(message: Message) returns (c: Cursor, size: nat)
    ensures At(message, c) && Left(message, c) == Whole(message) && size == |Whole(message)|
  {
    size := |message.footer|;
    c := Cursor(false, 0, size);
    if message.writer != [] {
      c := Cursor(true, 0, |message.writer|);
      size := size + |message.writer|;
    }
  }

  /** Copies the next bytes, crossing from the first part to the footer when it runs out. */
  method TakeContent(message: Message, c: Cursor, contentSize: nat) returns (content: seq<byte>, next: Cursor)
    requires At(message, c) && contentSize <= |Left(message, c)|
    ensures At(message, next) && |content| == contentSize
    ensures Left(message, c) == content + Left(message, next)
  {
    hide Left;
    var size := |Left(message, c)| - contentSize;
    if contentSize > c.available {
      var available := contentSize - c.available;
      TakenAcross(message, c, available);
      content := message.writer[c.current..];
      content := content + message.footer[..available];
      next := Cursor(false, available, size);
    } else {
      TakenWithin(message, c, contentSize);
      var source := if c.inWriter then message.writer else message.footer;
      content := source[c.current..c.current + contentSize];
      next := Cursor(c.inWriter, c.current + contentSize, c.available - contentSize);
    }
  }

  lemma TakenAcross(m: Message, c: Cursor, n: nat)
    requires At(m, c) && c.available + n <= |Left(m, c)| && n > 0
    ensures c.inWriter && n <= |m.footer| && |Left(m, c)| == c.available + |m.footer|
    ensures Left(m, c) == (m.writer[c.current..] + m.footer[..n]) + Left(m, Cursor(false, n, |m.footer| - n))
  {
    CutTail(m.footer, 0, n);
    assert m.footer[0..] == m.footer;
    assert m.writer[c.current..] + (m.footer[..n] + m.footer[n..]) == (m.writer[c.current..] + m.footer[..n]) + m.footer[n..];
  }

  lemma TakenWithin(m: Message, c: Cursor, n: nat)
    requires At(m, c) && n <= c.available
    ensures var source := if c.inWriter then m.writer else m.footer;
      Left(m, c) == source[c.current..c.current + n] + Left(m, Cursor(c.inWriter, c.current + n, c.available - n))
  {
    var source := if c.inWriter then m.writer else m.footer;
    var part, rest := source[c.current..c.current + n], source[c.current + n..];
    CutTail(source, c.current, c.current + n);
    assert c.inWriter ==> part + (rest + m.footer) == (part + rest) + m.footer;
  }

  lemma NothingYet(reliable: bool, slots: seq<Slot>)
    ensures Concat<byte>([]) == [] && slots + Partial([], reliable) == slots
  {
  }

  lemma PartialSnoc(cur: seq<seq<byte>>, content: seq<byte>, reliable: bool)
    ensures Partial(cur, reliable) + [Slot(cur != [], true, reliable, false, content)] == Partial(cur + [content], reliable)
  {
  }

  lemma PartialLast(cur: seq<seq<byte>>, content: seq<byte>, reliable: bool)
    ensures Partial(cur, reliable) + [Slot(cur != [], false, reliable, false, content)]
         == SlotsOf(Cut(reliable, cur + [content]))
  {
  }

  /** One more piece of a message in the history. */
  lemma AddPiece(slots: seq<Slot>, cur: seq<seq<byte>>, content: seq<byte>, reliable: bool, more: bool, left: seq<byte>)
    ensures (slots + Partial(cur, reliable)) + [Slot(cur != [], more, reliable, false, content)]
         == slots + (if more then Partial(cur + [content], reliable) else SlotsOf(Cut(reliable, cur + [content])))
    ensures Concat(cur) + (content + left) == Concat(cur + [content]) + left
  {
    hide Partial, SlotsOf, Concat;
    PartialSnoc(cur, content, reliable);
    PartialLast(cur, content, reliable);
    ConcatSnoc(cur, content);
    var last := [Slot(cur != [], more, reliable, false, content)];
    assert (slots + Partial(cur, reliable)) + last == slots + (Partial(cur, reliable) + last);
    assert Concat(cur) + (content + left) == (Concat(cur) + content) + left;
  }

  lemma SameFlags(options: bool, before: bool, after: bool, content: seq<byte>)
    requires after ==> content != []
    ensures ChunkFlags(options, before && content != [], after, content) == ChunkFlags(options, before, after, content)
  {
  }

  /** The flags of a fragment; only the end of a flow is empty, and it always abandons too. */
  function ChunkFlags(options: bool, before: bool, after: bool, content: seq<byte>): (f: Flags)
    requires after ==> content != []
    ensures f.after == after
  {
    if content == [] then Flags(false, false, false, true, true)
    else Flags(options, before, after, false, false)
  }

  /** What a header says: id, stage, distance to the acknowledged stage, and, until there is one,
      what presents the flow. */
  datatype HeaderFields = HeaderFields(id: uint64, stage: uint64, delta: uint64, present: bool, options: Options)

  /** What presents the flow as it decodes: an end of flow lacks the flag that says it is there. */
  function Presented(f: HeaderFields, slot: Slot): Option<Options> {
    if f.present && slot.payload != [] then Some(f.options) else None
  }

  lemma HeadsFirst(o: Origin, f: HeaderFields, slot: Slot, h: Header)
    requires o.stageAck <= f.stage && f.delta == f.stage - o.stageAck && f.present == (o.stageAck == 0) && f.options == o.options
    requires h.delta == f.delta && h.options == Presented(f, slot)
    ensures Heads(h, o, slot, f.stage)
  {
  }

  predicate ValidFields(f: HeaderFields) {
    |f.options.signature| < 0x100
  }

  function HeaderBytes(f: HeaderFields): seq<byte>
    requires ValidFields(f)
  {
    E7(f.id) + E7(f.stage) + E7(f.delta) + (if f.present then EncodeOptions(f.options) else [])
  }

  function ChunkBytes(header: bool, size: nat, flags: Flags, first: Option<HeaderFields>, content: seq<byte>): seq<byte>
    requires size < 0x1_0000 && (first.Some? ==> ValidFields(first.value))
  {
    [if header then 0x10 else 0x11]
    + (Be16(size) + ([FlagsByte(flags)] + ((if first.Some? then HeaderBytes(first.value) else []) + content)))
  }

  lemma ChunkLayout(before: seq<byte>, header: bool, size: nat, flags: Flags, first: Option<HeaderFields>, content: seq<byte>)
    requires size < 0x1_0000 && (first.Some? ==> ValidFields(first.value))
    ensures before + [if header then 0x10 else 0x11] + Be16(size) + [FlagsByte(flags)]
          + (if first.Some? then HeaderBytes(first.value) else []) + content
         == before + ChunkBytes(header, size, flags, first, content)
  {
    hide HeaderBytes, FlagsByte, Be16;
  }

  lemma ChunkLength(header: bool, size: nat, flags: Flags, first: Option<HeaderFields>, content: seq<byte>)
    requires size < 0x1_0000 && (first.Some? ==> ValidFields(first.value))
    ensures |ChunkBytes(header, size, flags, first, content)|
         == 4 + (if first.Some? then |HeaderBytes(first.value)| else 0) + |content|
  {
    hide HeaderBytes, FlagsByte;
  }

  function SlotFlags(first: Option<HeaderFields>, slot: Slot): Flags
    requires slot.after ==> slot.payload != []
  {
    ChunkFlags(first.Some? && first.value.present, slot.before, slot.after, slot.payload)
  }

  /** The packet being filled still carries the history after one more chunk. */
  lemma ChunkWritten(log: seq<Slot>, head: Header, pieces: seq<Piece>, prefix: nat, body: seq<byte>, reliable: bool,
                     id: uint64, size: nat, first: Option<HeaderFields>, slot: Slot)
    returns (head': Header, pieces': seq<Piece>)
    requires Filled(log, head, pieces, prefix, body, reliable, id) && !slot.last
    requires first.Some? <==> pieces == []
    requires first.Some? ==> ValidFields(first.value) && first.value.id == id && first.value.stage == |log| + 1
    requires first.None? ==> slot.reliable == reliable
    requires slot.before || slot.after ==> slot.payload != []
    requires size == 1 + (if first.Some? then |HeaderBytes(first.value)| else 0) + |slot.payload|
    requires prefix + |body| + 3 + size <= SIZE_PACKET
    ensures |pieces'| == |pieces| + 1
    ensures if first.Some? then head'.delta == first.value.delta && head'.options == Presented(first.value, slot)
            else head' == head
    ensures Filled(log + [slot], head', pieces', prefix,
                   body + ChunkBytes(pieces == [], size, SlotFlags(first, slot), first, slot.payload), slot.reliable, id)
  {
    hide Filled, HeaderBytes, Matches, FlagsByte, NextChunk;
    var flags := SlotFlags(first, slot);
    var body' := body + ChunkBytes(pieces == [], size, flags, first, slot.payload);
    if first.Some? {
      var h, piece := FirstPiece(first.value, flags, slot);
      FirstWritten(log, head, prefix, body, reliable, id, h, piece, slot, body');
      head', pieces' := h, [piece];
    } else {
      var piece := Piece(flags, slot.payload);
      NextBytes(size, flags, piece);
      NextMatches(piece, slot);
      NextWritten(log, head, pieces, prefix, body, reliable, id, piece, slot, body');
      head', pieces' := head, pieces + [piece];
    }
  }

  lemma NextBytes(size: nat, flags: Flags, piece: Piece)
    requires flags == piece.flags && size == 1 + |piece.payload| < 0x1_0000
    ensures ChunkBytes(false, size, flags, None, piece.payload) == NextChunk(piece)
  {
    assert [] + piece.payload == piece.payload;
  }

  lemma NextMatches(piece: Piece, slot: Slot)
    requires piece.payload == slot.payload
    requires if slot.payload == [] then piece.flags == Flags(false, false, false, true, true) && !slot.before && !slot.after
             else piece.flags == Flags(false, slot.before, slot.after, false, false)
    ensures Matches(piece, slot)
  {
  }

  lemma HeaderSizeExact(f: HeaderFields)
    requires ValidFields(f)
    ensures |HeaderBytes(f)|
         == |E7(f.id)| + |E7(f.stage)| + |E7(f.delta)|
          + (if f.present then |f.options.signature| + (if f.options.flowId != 0 then 4 + |E7(f.options.flowId)| else 2) else 0)
  {
    hide E7;
  }

  lemma LogGrows(id: uint64, log0: seq<Slot>, log: seq<Slot>, packets: seq<Packet>, held: nat, slot: Slot)
    requires Carried(id, log0, log, packets, held) && !slot.last
    ensures Carried(id, log0, log + [slot], packets, held + 1)
    ensures Unpacked(log + [slot]) == Unpacked(log) + [slot]
  {
    hide FragmentSum, Packed;
    var n := |log0| + FragmentSum(packets);
    assert (log + [slot])[..n] == log[..n];
    TiledFrame(packets, id, log, log + [slot], |log0|);
  }

  /** The first chunk of a packet, as it decodes. An end of flow that presents the flow lacks the
      flag that says so: what presents it decodes as the content, which an end does not use. */
  lemma FirstPiece(f: HeaderFields, flags: Flags, slot: Slot) returns (h: Header, piece: Piece)
    requires ValidFields(f)
    requires if slot.payload == [] then flags == Flags(false, false, false, true, true) && !slot.before && !slot.after
             else flags == Flags(f.present, slot.before, slot.after, false, false)
    ensures ValidHeader(h) && h.id == f.id && h.stage == f.stage && h.delta == f.delta && h.options == Presented(f, slot)
    ensures piece.flags.options <==> h.options.Some?
    ensures piece.flags == flags && Matches(piece, slot)
    ensures HeaderBytes(f) + slot.payload == EncodeHeader(h) + piece.payload
  {
    hide E7;
    if slot.payload == [] && f.present {
      h, piece := Header(f.id, f.stage, f.delta, None), Piece(flags, EncodeOptions(f.options));
    } else {
      h, piece := Header(f.id, f.stage, f.delta, if f.present then Some(f.options) else None), Piece(flags, slot.payload);
    }
  }

  lemma FirstWritten(log: seq<Slot>, head: Header, prefix: nat, body: seq<byte>, reliable: bool, id: uint64,
                     h: Header, piece: Piece, slot: Slot, body': seq<byte>)
    requires Filled(log, head, [], prefix, body, reliable, id)
    requires ValidHeader(h) && h.id == id && h.stage == |log| + 1 && (piece.flags.options <==> h.options.Some?)
    requires Matches(piece, slot) && !slot.last && prefix + |body'| <= SIZE_PACKET
    requires |EncodeHeader(h) + piece.payload| < 0xFFFF
    requires body' == body + ([0x10] + (Be16(1 + |EncodeHeader(h) + piece.payload|)
                      + ([FlagsByte(piece.flags)] + (EncodeHeader(h) + piece.payload))))
    ensures Filled(log + [slot], h, [piece], prefix, body', slot.reliable, id)
  {
    hide EncodeHeader, FlagsByte, Matches;
    assert [piece][1..] == [];
    assert body' == Chunks(h, [piece]);
  }

  lemma NextWritten(log: seq<Slot>, head: Header, pieces: seq<Piece>, prefix: nat, body: seq<byte>, reliable: bool,
                    id: uint64, piece: Piece, slot: Slot, body': seq<byte>)
    requires Filled(log, head, pieces, prefix, body, reliable, id) && pieces != []
    requires Matches(piece, slot) && !slot.last && slot.reliable == reliable && prefix + |body'| <= SIZE_PACKET
    requires Fits(piece) && body' == body + NextChunk(piece)
    ensures Filled(log + [slot], head, pieces + [piece], prefix, body', reliable, id)
  {
    hide Matches, Chunks, ValidDatagram, NextChunk;
    var ps := pieces + [piece];
    ChunksSnoc(head, pieces, piece);
    forall i | 0 <= i < |ps| ensures Holds(ps[i], (log + [slot])[|log| + 1 - |ps| + i], reliable) {
      if i < |pieces| { assert Holds(pieces[i], log[|log| - |pieces| + i], reliable); }
    }
  }

  lemma FilledRoom(log: seq<Slot>, head: Header, pieces: seq<Piece>, prefix: nat, body: seq<byte>, reliable: bool, id: uint64)
    requires Filled(log, head, pieces, prefix, body, reliable, id)
    ensures prefix + |body| <= SIZE_PACKET && prefix <= SIZE_HEADER
  {
  }

  lemma FilledEmpty(log: seq<Slot>, head: Header, prefix: nat, reliable: bool, id: uint64)
    requires prefix == 9 || prefix == 11
    ensures Filled(log, head, [], prefix, [], reliable, id)
  {
  }

  lemma HeaderRoom(id: uint64, stage: uint64, delta: uint64, signature: seq<byte>, flowId: uint64)
    requires |signature| < 0x100
    ensures |E7(id)| + |E7(stage)| + |E7(delta)| + |signature| + 4 + |E7(flowId)| <= 295
  {
  }

  /** Padding to whole cipher blocks after the four clear bytes (RTMFP::Engine::encode). */
  function Encode(fragments: nat, reliable: bool, prefix: nat, body: seq<byte>): Packet
    requires prefix + |body| <= SIZE_PACKET
  {
    Packet(fragments, reliable, prefix, body + Repeated(0xFF, (0xFFFFFFFF - (prefix + |body|) + 5) % 16), 0)
  }

  /** Marks the last fragment of a packet. */
  ghost function Closed(log: seq<Slot>): (r: seq<Slot>)
    requires log != []
  {
    log[|log| - 1 := log[|log| - 1].(last := true)]
  }

  lemma ClosedOnly(log: seq<Slot>)
    requires log != []
    ensures |Closed(log)| == |log| && Closed(log)[..|log| - 1] == log[..|log| - 1]
    ensures Unpacked(Closed(log)) == Unpacked(log)
  {
  }

  /** The chunks written so far, padded, are one packet of the history they close. */
  lemma CloseTile(log: seq<Slot>, h: Header, pieces: seq<Piece>, prefix: nat, body: seq<byte>, reliable: bool)
    requires Filled(log, h, pieces, prefix, body, reliable, h.id) && pieces != [] && |log| < STAGE_MAX
    ensures prefix + |body| <= SIZE_PACKET
    ensures Packed(Encode(|pieces|, reliable, prefix, body), h.id, Closed(log), |log| - |pieces|)
  {
    hide ValidDatagram, Chunks, Parse, Matches;
    var r, s := Closed(log), |log| - |pieces|;
    forall i | s <= i < |log|
      ensures r[i].reliable == reliable && (i < |log| - 1 ==> !r[i].last) && Matches(pieces[i - s], r[i])
    {
      assert Holds(pieces[i - s], log[s + (i - s)], reliable);
      MatchesAnyBoundary(pieces[i - s], log[i]);
    }
    ChunksCarry(h, pieces, (0xFFFFFFFF - (prefix + |body|) + 5) % 16, r, s);
    EncodePads(|pieces|, reliable, prefix, body);
  }

  lemma EncodePads(fragments: nat, reliable: bool, prefix: nat, body: seq<byte>)
    requires prefix + |body| <= SIZE_PACKET
    ensures var p := Encode(fragments, reliable, prefix, body);
      Size(p) % 16 == 4 && exists pad: nat :: pad < 16 && Padded(p, pad)
  {
    var pad := (0xFFFFFFFF - (prefix + |body|) + 5) % 16;
    var p := Encode(fragments, reliable, prefix, body);
    assert p.body[|p.body| - pad..] == Repeated(0xFF, pad);
    assert Padded(p, pad);
  }

  lemma MatchesAnyBoundary(piece: Piece, slot: Slot)
    requires Matches(piece, slot)
    ensures Matches(piece, slot.(last := true))
  {
  }

  lemma PacketJoins(id: uint64, log0: seq<Slot>, log: seq<Slot>, packets: seq<Packet>, h: Header, pieces: seq<Piece>,
                    prefix: nat, body: seq<byte>, reliable: bool)
    requires Filled(log, h, pieces, prefix, body, reliable, id) && pieces != [] && |log| < STAGE_MAX
    requires Carried(id, log0, log, packets, |pieces|)
    ensures log != [] && prefix + |body| <= SIZE_PACKET && h.id == id
    ensures var p := Encode(|pieces|, reliable, prefix, body);
      && Carried(id, log0, Closed(log), packets + [p], 0)
      && SizeTotal(packets + [p]) == SizeTotal(packets) + Size(p)
      && Unpacked(Closed(log)) == Unpacked(log) && |Closed(log)| == |log|
  {
    hide Packed, Encode, Closed, ValidDatagram, Chunks, Unpacked, Tiled, FragmentSum;
    CloseTile(log, h, pieces, prefix, body, reliable);
    ClosedOnly(log);
    var p := Encode(|pieces|, reliable, prefix, body);
    assert p.fragments == |pieces| by { EncodeFields(|pieces|, reliable, prefix, body); }
    var n, r := |log0| + FragmentSum(packets), Closed(log);
    assert log[..|log| - 1][..n] == log[..n] && r[..|log| - 1][..n] == r[..n];
    TiledFrame(packets, id, log, r, |log0|);
    TiledOne(p, id, r, n);
    TiledAppend(packets, [p], id, r, |log0|);
    Sums(packets, [p]);
    SumOne(p);
  }

  /** How full a finished packet is. */
  lemma PacketSaves(o: Origin, log: seq<Slot>, start: nat, packets: seq<Packet>, h: Header, pieces: seq<Piece>,
                    prefix: nat, body: seq<byte>, reliable: bool)
    requires Filled(log, h, pieces, prefix, body, reliable, h.id) && pieces != [] && |log| < STAGE_MAX
    requires Filling(o, Unpacked(log), start, packets, |pieces|, prefix, prefix + |body|, reliable, h)
    requires Thrifty(o, packets, Unpacked(log), start)
    ensures prefix + |body| <= SIZE_PACKET
    ensures var ps := packets + [Encode(|pieces|, reliable, prefix, body)];
      && Thrifty(o, ps, Unpacked(log), start)
      && forall r :: prefix + |body| + ROOM > SIZE_PACKET || reliable != r ==> Opens(o, ps, Unpacked(log), start, r)
  {
    hide Filling, Thrifty, Opens, Unpacked, Chunks, ValidDatagram, Heads, Presents, Holds;
    var p, pad := Encode(|pieces|, reliable, prefix, body), (0xFFFFFFFF - (prefix + |body|) + 5) % 16;
    forall slot, stage: nat | Heads(h, o, slot, stage) ensures Presents(p.body, o, slot, stage) {
      HeadPresents(h, pieces, pad, o, slot, stage);
    }
    PacketFull(o, Unpacked(log), start, packets, |pieces|, prefix, prefix + |body|, reliable, h, p);
  }

  lemma EncodeFields(fragments: nat, reliable: bool, prefix: nat, body: seq<byte>)
    requires prefix + |body| <= SIZE_PACKET
    ensures var p := Encode(fragments, reliable, prefix, body); p.fragments == fragments && p.reliable == reliable
  {
  }

  lemma TiledOne(p: Packet, id: nat, log: seq<Slot>, s: nat)
    requires Packed(p, id, log, s)
    ensures Tiled([p], id, log, s)
  {
    assert [p][1..] == [];
  }
}
