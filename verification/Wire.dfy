/** The chunks of a data packet: the requests 0x10 and 0x11 that carry fragments, and the ranged
    acknowledgement 0x51 that answers them (sources/RTMFPSender.cpp, sources/FlowManager.cpp;
    section 2.3 of RFC 7016). */
module Wire {
  import opened Bytes
  import opened SevenBit

  /** Unpadded packets have at most this size. */
  const SIZE_PACKET := 1192

  /** Stages are counted in 64 bits. */
  const STAGE_LIMIT := 0x1_0000_0000_0000_0000

  /** A writer's stages stay below the last one, after which the receiver's next stage is 0. */
  const STAGE_MAX := STAGE_LIMIT - 1

  // ---- Message flags (include/RTMFP.h) -----------------------------------------------------

  datatype Flags = Flags(options: bool, before: bool, after: bool, abandon: bool, end: bool)

  const MESSAGE_OPTIONS := 0x80
  const MESSAGE_WITH_BEFOREPART := 0x20
  const MESSAGE_WITH_AFTERPART := 0x10
  const MESSAGE_ABANDON := 0x02
  const MESSAGE_END := 0x01

  function FlagsByte(f: Flags): (b: byte)
  {
    (if f.options then MESSAGE_OPTIONS else 0)
    + (if f.before then MESSAGE_WITH_BEFOREPART else 0)
    + (if f.after then MESSAGE_WITH_AFTERPART else 0)
    + (if f.abandon then MESSAGE_ABANDON else 0)
    + (if f.end then MESSAGE_END else 0)
  }

  predicate HasBit(b: byte, mask: int)
    requires mask > 0
  {
    b / mask % 2 == 1
  }

  function ByteFlags(b: byte): (f: Flags)
  {
    Flags(HasBit(b, MESSAGE_OPTIONS), HasBit(b, MESSAGE_WITH_BEFOREPART), HasBit(b, MESSAGE_WITH_AFTERPART),
          HasBit(b, MESSAGE_ABANDON), HasBit(b, MESSAGE_END))
  }

  lemma FlagsRoundTrip(f: Flags)
    ensures ByteFlags(FlagsByte(f)) == f
  {
  }

  // ---- Requests ----------------------------------------------------------------------------

  /** What opens a flow: the writer's signature, and the flow it answers (0 when it answers none). */
  datatype Options = Options(signature: seq<byte>, flowId: uint64)

  datatype Header = Header(id: uint64, stage: uint64, delta: uint64, options: Option<Options>)

  /** One fragment as it travels. */
  datatype Piece = Piece(flags: Flags, payload: seq<byte>)

  /** A request chunk as the receiver decodes it, and the acknowledgement chunks the sender
      decodes; `commit` is where the receiver answers with an acknowledgement. */
  datatype Event =
    | Arrival(flowId: nat, stage: nat, piece: Piece, options: Option<Options>, last: bool, commit: bool)
    | Ack(id: nat, bufferSize: nat, stage: nat, lostCount: nat)
    | Other(kind: byte)

  function E7(v: uint64): (s: seq<byte>)
    ensures 1 <= |s| <= 9
  {
    var n := Size7Bit(v, 9);
    Encode7Bit(v, 9)
  }

  function FullDuplexSize(flowId: uint64): byte {
    1 + |E7(flowId)|
  }

  predicate ValidHeader(h: Header) {
    h.options.Some? ==> |h.options.value.signature| < 0x100
  }

  function EncodeOptions(o: Options): seq<byte>
    requires |o.signature| < 0x100
  {
    [|o.signature| as byte] + (o.signature
    + ((if o.flowId != 0 then [FullDuplexSize(o.flowId)] + ([0x0A] + E7(o.flowId)) else []) + [0]))
  }

  function EncodeHeader(h: Header): seq<byte>
    requires ValidHeader(h)
  {
    E7(h.id) + (E7(h.stage) + (E7(h.delta)
    + (if h.options.Some? then EncodeOptions(h.options.value) else [])))
  }

  function FirstSize(h: Header, p: Piece): nat
    requires ValidHeader(h)
  {
    1 + |EncodeHeader(h)| + |p.payload|
  }

  function FirstChunk(h: Header, p: Piece): seq<byte>
    requires ValidHeader(h) && FirstSize(h, p) < 0x1_0000
  {
    [0x10] + (Be16(FirstSize(h, p)) + ([FlagsByte(p.flags)] + (EncodeHeader(h) + p.payload)))
  }

  predicate Fits(p: Piece) {
    1 + |p.payload| < 0x1_0000
  }

  function NextChunk(p: Piece): seq<byte>
    requires Fits(p)
  {
    [0x11] + (Be16(1 + |p.payload|) + ([FlagsByte(p.flags)] + p.payload))
  }

  predicate AllFit(ps: seq<Piece>) {
    forall i :: 0 <= i < |ps| ==> Fits(ps[i])
  }

  function NextChunks(ps: seq<Piece>): seq<byte>
    requires AllFit(ps)
  {
    if ps == [] then [] else NextChunk(ps[0]) + NextChunks(ps[1..])
  }

  predicate ValidDatagram(h: Header, ps: seq<Piece>) {
    && ValidHeader(h) && |ps| > 0 && FirstSize(h, ps[0]) < 0x1_0000 && AllFit(ps[1..])
    && (ps[0].flags.options <==> h.options.Some?)
    && h.stage >= 1
  }

  /** The chunks of one packet: a request with its header, the following ones without. */
  function Chunks(h: Header, ps: seq<Piece>): seq<byte>
    requires ValidDatagram(h, ps)
  {
    FirstChunk(h, ps[0]) + NextChunks(ps[1..])
  }

  lemma {:induction false} NextChunksSnoc(ps: seq<Piece>, p: Piece)
    requires AllFit(ps) && Fits(p)
    ensures AllFit(ps + [p])
    ensures NextChunks(ps + [p]) == NextChunks(ps) + NextChunk(p)
  {
    hide NextChunk;
    if ps == [] {
      assert (ps + [p])[1..] == [];
    } else {
      assert (ps + [p])[1..] == ps[1..] + [p];
      NextChunksSnoc(ps[1..], p);
    }
  }

  lemma ChunksSnoc(h: Header, ps: seq<Piece>, p: Piece)
    requires ValidDatagram(h, ps) && Fits(p)
    ensures ValidDatagram(h, ps + [p])
    ensures Chunks(h, ps + [p]) == Chunks(h, ps) + NextChunk(p)
  {
    hide NextChunk, FirstChunk, NextChunks, FirstSize;
    assert (ps + [p])[1..] == ps[1..] + [p];
    NextChunksSnoc(ps[1..], p);
  }

  // ---- Decoding (FlowManager::receive) -----------------------------------------------------

  datatype Request = Request(flags: Flags, flowId: nat, stage: nat, options: Option<Options>, payload: seq<byte>)

  function ParseSignature(s: seq<byte>): (p: Parsed<seq<byte>>)
    ensures |p.rest| <= |s|
  {
    var Parsed(n, s1) := Parse8(s);
    if n > |s1| then Parsed(Repeated(0, n), []) else Parsed(s1[..n], s1[n..])
  }

  /** The header parts of unknown kind are stepped over; the value is the length left at the end. */
  function SkipParts(length: byte, s: seq<byte>): (p: Parsed<byte>)
    decreases |s|
  {
    if length > 0 && s != [] then
      var Parsed(next, rest) := Parse8(s[Min(length, |s|)..]);
      SkipParts(next, rest)
    else Parsed(length, s)
  }

  /** The part that names the flow this one answers; None when it is cut short. */
  function ParseFullDuplex(s: seq<byte>): (p: Option<Parsed<nat>>)
  {
    var Parsed(size, s1) := Parse8(s);
    if size == 0 then Some(Parsed(0, s1))
    else
      var Parsed(kind, s2) := Parse8(s1);
      var id := if kind != 0x0A then Parsed(0, s2) else Parse7Bit(s2, 9);
      var Parsed(length, s3) := Parse8(id.rest);
      var end := SkipParts(length, s3);
      if end.value > 0 then None else Some(Parsed(id.value, end.rest))
  }

  function ParseRequest(s: seq<byte>): (r: Option<Request>)
  {
    var Parsed(flagsByte, s1) := Parse8(s);
    var Parsed(flowId, s2) := Parse7Bit(s1, 9);
    var Parsed(stage, s3) := Parse7Bit(s2, 9);
    var Parsed(delta, s4) := Parse7Bit(s3, 9);
    var flags := ByteFlags(flagsByte);
    if !flags.options then Some(Request(flags, flowId, stage, None, s4))
    else
      var Parsed(signature, s5) := ParseSignature(s4);
      var duplex := ParseFullDuplex(s5);
      if duplex.None? then None
      else
        var id := duplex.value.value % 0x1_0000_0000_0000_0000;
        Some(Request(flags, flowId, stage, Some(Options(signature, id)), duplex.value.rest))
  }

  /** The third field of the header that opens a packet: the distance of its first stage to the
      acknowledged one. The receiver steps over it. */
  function Delta(s: seq<byte>): nat {
    if s == [] then 0
    else
      var fields := Parse8(SplitChunk(s).message).rest;
      Parse7Bit(Parse7Bit(Parse7Bit(fields, 9).rest, 9).rest, 9).value
  }

  /** The bits of an 0x50 bitmap up to the first set one. */
  function LeadingZeros(b: byte, n: nat): (z: nat)
    requires n <= 8
    ensures z <= n
  {
    if n == 0 || b % 2 == 1 then 0 else 1 + LeadingZeros(b / 2, n - 1)
  }

  function BitmapHole(s: seq<byte>): nat
    requires s != []
  {
    var z := LeadingZeros(s[0], 8);
    if z == 8 && |s| > 1 then 8 + BitmapHole(s[1..]) else z
  }

  lemma {:induction false} LeadingZerosExact(b: byte, n: nat)
    requires n <= 8
    ensures var z := LeadingZeros(b, n);
      (forall i: nat :: i < z ==> !Bit(b, i)) && (z < n ==> Bit(b, z))
  {
    if n > 0 && b % 2 == 0 {
      LeadingZerosExact(b / 2, n - 1);
      forall i: nat | i < LeadingZeros(b, n) ensures !Bit(b, i) {
        if i > 0 { assert !Bit(b / 2, i - 1); }
      }
    }
  }

  /** Bit i of a bitmap, the bits of a byte taken from the least significant on. */
  predicate Received(s: seq<byte>, i: nat)
    requires i < 8 * |s|
  {
    Bit(s[i / 8], i % 8)
  }

  lemma ReceivedFirst(s: seq<byte>, i: nat)
    requires i < 8 * |s|
    ensures Received(s, i) == if i < 8 then Bit(s[0], i) else Received(s[1..], i - 8)
  {
    if i >= 8 { assert i / 8 == (i - 8) / 8 + 1 && i % 8 == (i - 8) % 8; }
  }

  /** The hole is every fragment before the first one whose bit is set, or all of them. */
  lemma {:induction false} BitmapHoleExact(s: seq<byte>)
    requires s != []
    ensures var z := BitmapHole(s);
      z <= 8 * |s| && (forall i: nat :: i < z ==> !Received(s, i)) && (z < 8 * |s| ==> Received(s, z))
    decreases |s|
  {
    hide LeadingZeros, Received, Bit;
    var z := LeadingZeros(s[0], 8);
    LeadingZerosExact(s[0], 8);
    if z == 8 && |s| > 1 { BitmapHoleExact(s[1..]); }
    forall i: nat | i < BitmapHole(s) ensures !Received(s, i) { ReceivedFirst(s, i); }
    if BitmapHole(s) < 8 * |s| { ReceivedFirst(s, BitmapHole(s)); }
  }

  /** What an 0x50 acknowledgement tells of its first hole: the stage after the one acknowledged, and
      those after it up to the first set bit of the bitmap. */
  lemma BitmapAck(id: uint64, bufferSize: uint64, stage: uint64, bitmap: seq<byte>)
    requires bufferSize > 0
    ensures var message := E7(id) + (E7(bufferSize) + (E7(stage) + bitmap)); var z := LostCount(0x50, bitmap) - 1;
      && ParseAck(0x50, message) == Ack(id, bufferSize, stage, z + 1)
      && (bitmap == [] ==> z == -1)
      && (bitmap != [] ==>
            && 0 <= z <= 8 * |bitmap| && (forall i: nat :: i < z ==> !Received(bitmap, i))
            && (z < 8 * |bitmap| ==> Received(bitmap, z)))
  {
    hide Parse7Bit, E7, BitmapHole, Received;
    Parse7(id, E7(bufferSize) + (E7(stage) + bitmap));
    Parse7(bufferSize, E7(stage) + bitmap);
    Parse7(stage, bitmap);
    if bitmap != [] { BitmapHoleExact(bitmap); }
  }

  /** The width of the first hole an acknowledgement reports, 0 when it reports none. */
  function LostCount(kind: byte, s: seq<byte>): nat
  {
    if s == [] then 0
    else if kind == 0x50 then 1 + BitmapHole(s)
    else (1 + Parse7Bit(s, 9).value) % 0x1_0000_0000
  }

  function ParseAck(kind: byte, s: seq<byte>): (ack: Event)
    ensures ack.Ack?
  {
    var Parsed(id, s1) := Parse7Bit(s, 9);
    var Parsed(bufferSize, s2) := Parse7Bit(s1, 9);
    if bufferSize == 0 then Ack(id, 0, 0, 0)
    else
      var Parsed(stage, s3) := Parse7Bit(s2, 9);
      Ack(id, bufferSize, stage, LostCount(kind, s3))
  }

  /** The chunks that concern the session and not a flow. */
  predicate IsSessionChunk(kind: byte) {
    kind in {0x0F, 0xCC, 0x0C, 0x4C, 0x4D, 0x01, 0x41, 0x5E, 0x18}
  }

  /** No chunk follows: the packet or its padding starts here. */
  predicate AtEnd(rest: seq<byte>) {
    rest == [] || rest[0] == 0xFF
  }

  predicate Continues(rest: seq<byte>) {
    rest != [] && rest[0] == 0x11
  }

  /** A chunk cut from the front of a packet: its type, its content and what follows it. A length
      field that exceeds the packet is cut at its end. */
  datatype Raw = Raw(kind: byte, message: seq<byte>, rest: seq<byte>)

  function SplitChunk(s: seq<byte>): (r: Raw)
    requires s != []
    ensures |r.rest| < |s|
  {
    var Parsed(size, s2) := Parse16(s[1..]);
    var len := Min(size, |s2|);
    Raw(s[0], s2[..len], s2[len..])
  }

  /** The chunk loop. `open` is the flow and stage an 0x11 chunk continues; an
      unknown chunk ends the packet. */
  function Parse(s: seq<byte>, open: Option<(nat, nat)>): (events: seq<Event>)
    decreases |s|
  {
    if AtEnd(s) then []
    else
      var Raw(kind, message, rest) := SplitChunk(s);
      if kind == 0x10 then
        var r := ParseRequest(message);
        if r.None? then []
        else
          var Request(flags, flowId, stage, options, payload) := r.value;
          var commit := stage != 0 && !Continues(rest);
          [Arrival(flowId, stage, Piece(flags, payload), options, AtEnd(rest), commit)]
          + Parse(rest, if commit then None else Some((flowId, stage)))
      else if kind == 0x11 then
        if open.None? then Parse(rest, None)
        else
          var Parsed(flagsByte, payload) := Parse8(message);
          var (flowId, stage) := (open.value.0, (open.value.1 + 1) % STAGE_LIMIT);
          var commit := stage != 0 && !Continues(rest);
          [Arrival(flowId, stage, Piece(ByteFlags(flagsByte), payload), None, AtEnd(rest), commit)]
          + Parse(rest, if commit then None else Some((flowId, stage)))
      else if kind == 0x50 || kind == 0x51 then
        [ParseAck(kind, message)] + Parse(rest, open)
      else if IsSessionChunk(kind) then
        [Other(kind)] + Parse(rest, open)
      else []
  }

  // ---- The round trip ----------------------------------------------------------------------

  /** What the fragments of one packet decode to: consecutive stages of one flow, answered once,
      after the last. */
  function Arrivals(id: nat, stage: nat, ps: seq<Piece>, options: Option<Options>): (events: seq<Event>)
    ensures |events| == |ps|
  {
    seq(|ps|, i requires 0 <= i < |ps| =>
      Arrival(id, stage + i, ps[i], if i == 0 then options else None, i == |ps| - 1, i == |ps| - 1))
  }

  lemma Parse7(v: uint64, tail: seq<byte>)
    ensures Parse7Bit(E7(v) + tail, 9) == Parsed(v, tail)
  {
    CodableWidths(v);
    RoundTrip7Bit(v, 9, tail);
  }

  lemma FullDuplexRoundTrip(flowId: uint64, tail: seq<byte>)
    ensures ParseFullDuplex((if flowId != 0 then [FullDuplexSize(flowId)] + ([0x0A] + E7(flowId)) else []) + [0] + tail)
         == Some(Parsed(flowId, tail))
  {
    RoundTrip8(0, tail);
    if flowId == 0 {
      assert [] + [0] + tail == [0] + tail;
    } else {
      var size := FullDuplexSize(flowId);
      var s2 := E7(flowId) + ([0] + tail);
      assert [size] + ([0x0A] + E7(flowId)) + [0] + tail == [size] + ([0x0A] + s2);
      RoundTrip8(size, [0x0A] + s2);
      RoundTrip8(0x0A, s2);
      Parse7(flowId, [0] + tail);
    }
  }

  lemma OptionsRoundTrip(o: Options, tail: seq<byte>)
    requires |o.signature| < 0x100
    ensures var p := ParseSignature(EncodeOptions(o) + tail);
            p.value == o.signature && ParseFullDuplex(p.rest) == Some(Parsed(o.flowId, tail))
  {
    var end := (if o.flowId != 0 then [FullDuplexSize(o.flowId)] + ([0x0A] + E7(o.flowId)) else []) + [0];
    var s1 := o.signature + (end + tail);
    assert EncodeOptions(o) + tail == [|o.signature|] + s1;
    RoundTrip8(|o.signature| as byte, s1);
    assert s1[..|o.signature|] == o.signature && s1[|o.signature|..] == end + tail;
    FullDuplexRoundTrip(o.flowId, tail);
  }

  /** Header parts, each after its length, of kinds the receiver does not know. */
  function PartBytes(parts: seq<seq<byte>>): seq<byte>
    requires forall i :: 0 <= i < |parts| ==> 0 < |parts[i]| < 0x100
  {
    if parts == [] then [] else [|parts[0]| as byte] + (parts[0] + PartBytes(parts[1..]))
  }

  /** Whatever parts there are, they are stepped over up to the length that ends them: 0, or any
      other that is the last byte. */
  lemma {:induction false} PartsSkipped(parts: seq<seq<byte>>, end: byte, tail: seq<byte>)
    requires forall i :: 0 <= i < |parts| ==> 0 < |parts[i]| < 0x100
    requires end == 0 || tail == []
    ensures var p := Parse8(PartBytes(parts) + ([end] + tail)); SkipParts(p.value, p.rest) == Parsed(end, tail)
    decreases |parts|
  {
    var s := PartBytes(parts) + ([end] + tail);
    if parts == [] {
      assert s == [end] + tail;
      RoundTrip8(end, tail);
    } else {
      var n, rest := |parts[0]|, PartBytes(parts[1..]) + ([end] + tail);
      assert s == [n as byte] + (parts[0] + rest);
      RoundTrip8(n as byte, parts[0] + rest);
      assert (parts[0] + rest)[n..] == rest;
      PartsSkipped(parts[1..], end, tail);
    }
  }

  /** The flow answered is the one its part names, 0 when a part of another kind stands in its place;
      the request is given up if and only if its parts end with a length but no content. */
  lemma DuplexWithParts(size: byte, kind: byte, flowId: uint64, parts: seq<seq<byte>>, end: byte, tail: seq<byte>)
    requires size > 0 && forall i :: 0 <= i < |parts| ==> 0 < |parts[i]| < 0x100
    requires end == 0 || tail == []
    ensures ParseFullDuplex([size] + ([kind] + ((if kind == 0x0A then E7(flowId) else []) + (PartBytes(parts) + ([end] + tail)))))
         == if end > 0 then None else Some(Parsed(if kind == 0x0A then flowId else 0, tail))
  {
    hide Parse7Bit, E7, SkipParts;
    var rest := PartBytes(parts) + ([end] + tail);
    var s2 := (if kind == 0x0A then E7(flowId) else []) + rest;
    RoundTrip8(size, [kind] + s2);
    RoundTrip8(kind, s2);
    if kind == 0x0A { Parse7(flowId, rest); } else { assert s2 == rest; }
    PartsSkipped(parts, end, tail);
  }

  /** The length of a signature is written in 8 bits: it reads back if and only if they hold it. */
  lemma SignatureRoundTrip(signature: seq<byte>, tail: seq<byte>)
    ensures ParseSignature([|signature| % 0x100] + (signature + tail)) == Parsed(signature, tail) <==> |signature| < 0x100
  {
    var n: byte := |signature| % 0x100;
    RoundTrip8(n, signature + tail);
    if |signature| < 0x100 {
      assert (signature + tail)[..n] == signature && (signature + tail)[n..] == tail;
    }
  }

  lemma RequestRoundTrip(h: Header, p: Piece)
    requires ValidHeader(h) && (p.flags.options <==> h.options.Some?)
    ensures ParseRequest([FlagsByte(p.flags)] + (EncodeHeader(h) + p.payload))
         == Some(Request(p.flags, h.id, h.stage, h.options, p.payload))
  {
    hide Parse7Bit, Encode7Bit, ParseFullDuplex, ParseSignature, EncodeOptions, ByteFlags, FlagsByte;
    FlagsRoundTrip(p.flags);
    var options := if h.options.Some? then EncodeOptions(h.options.value) else [];
    var s4 := options + p.payload;
    var s3 := E7(h.delta) + s4;
    var s2 := E7(h.stage) + s3;
    var s1 := E7(h.id) + s2;
    assert EncodeHeader(h) + p.payload == s1;
    RoundTrip8(FlagsByte(p.flags), s1);
    Parse7(h.id, s2);
    Parse7(h.stage, s3);
    Parse7(h.delta, s4);
    if h.options.Some? {
      OptionsRoundTrip(h.options.value, p.payload);
    } else {
      assert s4 == p.payload;
    }
  }

  /** One chunk with a consistent length field: the loop sees exactly its content. */
  lemma ChunkSplit(kind: byte, message: seq<byte>, rest: seq<byte>)
    requires |message| < 0x1_0000
    ensures SplitChunk([kind] + (Be16(|message|) + message) + rest) == Raw(kind, message, rest)
  {
    var s := [kind] + (Be16(|message|) + message) + rest;
    assert s[1..] == Be16(|message|) + (message + rest);
    RoundTrip16(|message|, message + rest);
  }

  lemma ParseFirst(h: Header, p: Piece, rest: seq<byte>, open: Option<(nat, nat)>)
    requires ValidHeader(h) && FirstSize(h, p) < 0x1_0000 && (p.flags.options <==> h.options.Some?) && h.stage >= 1
    ensures Parse(FirstChunk(h, p) + rest, open)
         == [Arrival(h.id, h.stage, p, h.options, AtEnd(rest), !Continues(rest))]
            + Parse(rest, if Continues(rest) then Some((h.id, h.stage)) else None)
  {
    hide SplitChunk, ParseAck, ParseRequest, ByteFlags, FlagsByte, EncodeHeader, Be16;
    var message := [FlagsByte(p.flags)] + (EncodeHeader(h) + p.payload);
    assert FirstChunk(h, p) == [0x10] + (Be16(|message|) + message);
    ChunkSplit(0x10, message, rest);
    RequestRoundTrip(h, p);
  }

  lemma ParseNext(p: Piece, rest: seq<byte>, flowId: nat, stage: nat)
    requires Fits(p) && stage + 1 < STAGE_LIMIT
    ensures Parse(NextChunk(p) + rest, Some((flowId, stage)))
         == [Arrival(flowId, stage + 1, p, None, AtEnd(rest), !Continues(rest))]
            + Parse(rest, if Continues(rest) then Some((flowId, stage + 1)) else None)
  {
    hide SplitChunk, ParseRequest, ParseAck, ByteFlags, FlagsByte, Be16;
    var message := [FlagsByte(p.flags)] + p.payload;
    assert NextChunk(p) == [0x11] + (Be16(|message|) + message);
    ChunkSplit(0x11, message, rest);
    RoundTrip8(FlagsByte(p.flags), p.payload);
    FlagsRoundTrip(p.flags);
  }

  /** A chunk that concerns the session is told by its type, and one that continues no flow is stepped
      over; one of unknown type ends the packet, whatever follows. */
  lemma OtherChunks(kind: byte, message: seq<byte>, rest: seq<byte>, open: Option<(nat, nat)>)
    requires |message| < 0x1_0000
    ensures var events := Parse([kind] + (Be16(|message|) + message) + rest, open);
      && (kind in {0x01, 0x0C, 0x0F, 0x18, 0x41, 0x4C, 0x4D, 0x5E, 0xCC} ==> events == [Other(kind)] + Parse(rest, open))
      && (kind == 0x11 && open.None? ==> events == Parse(rest, None))
      && (kind !in {0x01, 0x0C, 0x0F, 0x10, 0x11, 0x18, 0x41, 0x4C, 0x4D, 0x50, 0x51, 0x5E, 0xCC} ==> events == [])
  {
    hide SplitChunk, ParseRequest, ParseAck, Be16;
    ChunkSplit(kind, message, rest);
  }

  /** What follows a chunk: either the padding, or a chunk that continues the flow. */
  lemma WhatFollows(ps: seq<Piece>, pad: nat)
    requires AllFit(ps)
    ensures var rest := NextChunks(ps) + Repeated(0xFF, pad);
      if ps == [] then AtEnd(rest) && !Continues(rest) && Parse(rest, None) == []
      else Continues(rest) && !AtEnd(rest)
  {
    if ps == [] {
      assert NextChunks(ps) + Repeated(0xFF, pad) == Repeated(0xFF, pad);
    } else {
      assert NextChunk(ps[0])[0] == 0x11;
    }
  }

  lemma ArrivalsCons(id: nat, stage: nat, ps: seq<Piece>, options: Option<Options>)
    requires ps != []
    ensures Arrivals(id, stage, ps, options)
         == [Arrival(id, stage, ps[0], options, |ps| == 1, |ps| == 1)] + Arrivals(id, stage + 1, ps[1..], None)
  {
  }

  lemma {:induction false} ParseNexts(ps: seq<Piece>, pad: nat, flowId: nat, stage: nat)
    requires AllFit(ps) && ps != [] && stage + |ps| < STAGE_LIMIT
    ensures Parse(NextChunks(ps) + Repeated(0xFF, pad), Some((flowId, stage)))
         == Arrivals(flowId, stage + 1, ps, None)
  {
    hide Parse, NextChunk, Arrivals;
    var rest := NextChunks(ps[1..]) + Repeated(0xFF, pad);
    assert NextChunks(ps) + Repeated(0xFF, pad) == NextChunk(ps[0]) + rest;
    ParseNext(ps[0], rest, flowId, stage);
    WhatFollows(ps[1..], pad);
    if |ps| > 1 {
      ParseNexts(ps[1..], pad, flowId, stage + 1);
    }
    ArrivalsCons(flowId, stage + 1, ps, None);
  }

  /** Decoding a padded packet gives back its flow, its stages, its flags and its payloads. */
  lemma DatagramRoundTrip(h: Header, ps: seq<Piece>, pad: nat)
    requires ValidDatagram(h, ps) && h.stage + |ps| <= STAGE_LIMIT
    ensures Parse(Chunks(h, ps) + Repeated(0xFF, pad), None) == Arrivals(h.id, h.stage, ps, h.options)
  {
    hide Parse, NextChunk, FirstChunk, Arrivals, EncodeHeader;
    var rest := NextChunks(ps[1..]) + Repeated(0xFF, pad);
    assert Chunks(h, ps) + Repeated(0xFF, pad) == FirstChunk(h, ps[0]) + rest;
    ParseFirst(h, ps[0], rest, None);
    WhatFollows(ps[1..], pad);
    if |ps| > 1 {
      ParseNexts(ps[1..], pad, h.id, h.stage);
    }
    ArrivalsCons(h.id, h.stage, ps, h.options);
  }

  /** The distance read back is the one written. */
  lemma DeltaRoundTrip(h: Header, ps: seq<Piece>, padding: seq<byte>)
    requires ValidDatagram(h, ps)
    ensures Delta(Chunks(h, ps) + padding) == h.delta
  {
    hide SplitChunk, Parse7Bit, FlagsByte, EncodeOptions, Be16, E7, NextChunks;
    var p, rest := ps[0], NextChunks(ps[1..]) + padding;
    var s3 := E7(h.delta) + ((if h.options.Some? then EncodeOptions(h.options.value) else []) + p.payload);
    var s2 := E7(h.stage) + s3;
    var s1 := E7(h.id) + s2;
    var message := [FlagsByte(p.flags)] + s1;
    assert EncodeHeader(h) + p.payload == s1;
    assert FirstChunk(h, p) == [0x10] + (Be16(|message|) + message);
    assert Chunks(h, ps) + padding == [0x10] + (Be16(|message|) + message) + rest;
    ChunkSplit(0x10, message, rest);
    RoundTrip8(FlagsByte(p.flags), s1);
    Parse7(h.id, s2);
    Parse7(h.stage, s3);
    Parse7(h.delta, (if h.options.Some? then EncodeOptions(h.options.value) else []) + p.payload);
  }

  // ---- Acknowledgements --------------------------------------------------------------------

  const BUFFER_SIZE: uint64 := 0xFF7F

  function EncodeRanges(ranges: seq<uint64>): seq<byte>
  {
    if ranges == [] then [] else E7(ranges[0]) + EncodeRanges(ranges[1..])
  }

  function AckMessage(id: uint64, stage: uint64, ranges: seq<uint64>): seq<byte>
  {
    E7(id) + (E7(BUFFER_SIZE) + (E7(stage) + EncodeRanges(ranges)))
  }

  function EncodeAck(id: uint64, stage: uint64, ranges: seq<uint64>): seq<byte>
    requires |AckMessage(id, stage, ranges)| < 0x1_0000
  {
    [0x51] + (Be16(|AckMessage(id, stage, ranges)|) + AckMessage(id, stage, ranges))
  }

  /** The ranges of an 0x51 acknowledgement, as section 2.3.14 of RFC 7016 lays them out. */
  function ParseRanges(s: seq<byte>): (ranges: seq<nat>)
    decreases |s|
  {
    if s == [] then []
    else
      var Parsed(v, rest) := Parse7Bit(s, 9);
      if |rest| < |s| then [v] + ParseRanges(rest) else [v]
  }

  lemma {:induction false} RangesRoundTrip(ranges: seq<uint64>)
    ensures ParseRanges(EncodeRanges(ranges)) == ranges
  {
    if ranges != [] {
      Parse7(ranges[0], EncodeRanges(ranges[1..]));
      RangesRoundTrip(ranges[1..]);
    }
  }

  /** The writer of an acknowledged flow learns the cumulative stage and the first hole's width. */
  lemma AckRoundTrip(id: uint64, stage: uint64, ranges: seq<uint64>, pad: nat)
    requires |AckMessage(id, stage, ranges)| < 0x1_0000
    ensures Parse(EncodeAck(id, stage, ranges) + Repeated(0xFF, pad), None)
         == [Ack(id, BUFFER_SIZE, stage, if ranges == [] then 0 else (1 + (ranges[0] as int)) % 0x1_0000_0000)]
  {
    hide SplitChunk, Parse7Bit, Encode7Bit, ParseRequest;
    var message, padding := AckMessage(id, stage, ranges), Repeated(0xFF, pad);
    ChunkSplit(0x51, message, padding);
    var s3 := EncodeRanges(ranges);
    Parse7(id, E7(BUFFER_SIZE) + (E7(stage) + s3));
    Parse7(BUFFER_SIZE, E7(stage) + s3);
    Parse7(stage, s3);
    if ranges != [] {
      Parse7(ranges[0], EncodeRanges(ranges[1..]));
    }
    assert Parse(padding, None) == [];
  }
}
