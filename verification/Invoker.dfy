/** The buffers behind Invoker::read and Invoker::write (sources/Invoker.cpp). */
module Invoking {
  import opened Bytes
  import opened BinaryReading
  import opened Flv
  import Wire

  const FLUSH_SIZE := Wire.SIZE_PACKET - 11

  predicate HasFlvHeader(data: seq<byte>) {
    |data| >= 13 && data[0] == 0x46 && data[1] == 0x4C && data[2] == 0x56
  }

  /** The writer takes what the reader prints. */
  lemma StreamAccepted(ms: seq<Media>)
    requires AllTimed(ms)
    ensures HasFlvHeader(Stream(ms))
  {
    hide Tags;
  }

  class WriteBuffer {
    var started: bool
    var buffer: Option<seq<byte>>
    var kind: byte
    var time: int
    var size: nat
    var total: nat
    /** What was handed to the session: the packets, and how often it was told to flush. */
    var pushed: seq<Media>
    var flushes: nat
    ghost var taken: nat

    ghost function State(): WriteState
      reads this
    {
      WriteState(buffer, kind, time, size, taken, pushed)
    }

    constructor ()
      ensures !started && State() == NewWrite && total == 0 && flushes == 0
    {
      started, buffer, kind, time, size, total := false, None, 0, 0, 0, 0;
      pushed, flushes, taken := [], 0, 0;
    }

    method ReadHeader(reader: BinaryReader)
      requires reader.Valid() && |reader.Rest()| >= 11
      modifies this, reader
      ensures reader.Valid() && reader.Rest() == old(reader.Rest())[11..]
      ensures State() == OpenPacket(old(State()), old(reader.Rest())[..11])
      ensures started == old(started) && total == old(total) && flushes == old(flushes) && taken == old(taken)
      ensures reader.end == old(reader.end)
    {
      hide Parse8, Parse24;
      ghost var data := reader.Rest();
      HeaderFields(data);
      kind := reader.Read8();
      size := reader.Read24();
      time := reader.Read24();
      var upper := reader.Read8();
      time := time + (upper as int) * 0x100_0000;
      var _ := reader.Next(3);
      buffer := Some([]);
    }

    method ReadPayload(reader: BinaryReader)
      requires reader.Valid() && buffer.Some?
      modifies this, reader
      ensures reader.Valid() && reader.end == old(reader.end)
      ensures var data := old(reader.Rest()); var n := Min(old(size), |data|);
        State() == TakePart(old(State()), n, data[..n]) && reader.Rest() == data[n..]
      ensures total - old(total) == taken - old(taken) && started == old(started) && flushes == old(flushes)
    {
      ghost var data := reader.Rest();
      var toRead := Min(size, reader.Available());
      assert data[0..] == data && buffer.value + data[..0] == buffer.value;
      if toRead > 0 {
        var part := reader.Read(toRead);
        buffer := Some(buffer.value + part.value);
        total := total + toRead;
        size := size - toRead;
        taken := taken + toRead;
      }
    }

    /** A packet complete with the size of its tag, whatever that says, is handed over by its type. */
    method ReadFooter(reader: BinaryReader)
      requires reader.Valid() && buffer.Some? && |reader.Rest()| >= 4
      modifies this, reader
      ensures reader.Valid() && reader.end == old(reader.end)
      ensures State() == Flv.Push(old(State())) && reader.Rest() == old(reader.Rest())[4..]
      ensures total == old(total) && taken == old(taken) && started == old(started) && flushes == old(flushes)
    {
      hide Parse32;
      FooterFollows(reader.Rest());
      PushedKinds(Media(kind, time, buffer.value));
      var previousSize := reader.Read32();
      if kind == TYPE_AUDIO {
        pushed := pushed + [Media(TYPE_AUDIO, time, buffer.value)];
      } else if kind == TYPE_VIDEO {
        pushed := pushed + [Media(TYPE_VIDEO, time, buffer.value)];
      } else if kind == TYPE_DATA {
        pushed := pushed + [Media(TYPE_DATA, time, buffer.value)];
      }
      buffer := None;
    }

    /** The payload so far, and the end of the packet when it came. */
    method ReadPart(reader: BinaryReader) returns (more: bool)
      requires reader.Valid() && buffer.Some?
      modifies this, reader
      ensures reader.Valid() && Turn(State(), reader.Rest(), more) == Resume(old(State()), old(reader.Rest()))
      ensures total - old(total) == taken - old(taken)
      ensures started == old(started) && flushes == old(flushes) && reader.end == old(reader.end)
    {
      hide Flv.Push;
      ReadPayload(reader);
      if size > 0 || reader.Available() < 4 { return false; }
      ReadFooter(reader);
      more := true;
    }

    method ReadPackets(reader: BinaryReader)
      requires reader.Valid()
      modifies this, reader
      ensures reader.Valid() && Fed(State(), reader.Rest()) == Feed(old(State()), old(reader.Rest()))
      ensures total - old(total) == taken - old(taken)
      ensures started == old(started) && flushes == old(flushes) && reader.end == old(reader.end)
    {
      hide Resume, OpenPacket;
      ghost var goal := Feed(State(), reader.Rest());
      while reader.Available() > 0
        invariant reader.Valid() && Feed(State(), reader.Rest()) == goal
        invariant total - old(total) == taken - old(taken)
        invariant started == old(started) && flushes == old(flushes) && reader.end == old(reader.end)
        decreases |reader.Rest()|
      {
        ghost var was, data := State(), reader.Rest();
        TurnAdvances(was, data);
        if buffer.None? {
          if reader.Available() < 11 { return; }
          Opens(was, data[..11]);
          ReadHeader(reader);
        }
        var more := ReadPart(reader);
        assert Turn(State(), reader.Rest(), more) == OneTurn(was, data);
        if !more { return; }
      }
    }

    /** The number of bytes consumed, or -1 when the stream does not start as one. */
    method Write(data: seq<byte>) returns (position: int)
      modifies this
      ensures !old(started) && !HasFlvHeader(data) ==>
        position == -1 && !started && State() == old(State()) && total == old(total) && flushes == old(flushes)
      ensures old(started) || HasFlvHeader(data) ==>
        var f := Feed(old(State()), if old(started) then data else data[13..]);
        var t := old(total) + (taken - old(taken));
        && started && State() == f.state && position == |data| - |f.rest|
        && flushes == old(flushes) + (if t >= FLUSH_SIZE then 1 else 0)
        && total == if t >= FLUSH_SIZE then 0 else t
    {
      hide Feed;
      var reader := new BinaryReader(data);
      if !started {
        if |data| < 13 || data[0] != 0x46 || data[1] != 0x4C || data[2] != 0x56 { return -1; }
        var _ := reader.Next(13);
        started := true;
      }
      ReadPackets(reader);
      if total >= FLUSH_SIZE {
        flushes := flushes + 1;
        total := 0;
      }
      position := reader.current;
    }
  }

  /** A packet waiting to be read, and how much of its payload was. */
  datatype Queued = Queued(media: Media, pos: nat)

  predicate ValidQueued(q: Queued) {
    IsTime(q.media.time) && (q.pos == 0 || q.pos < |q.media.payload|)
  }

  /** What is left to print of a packet. */
  function Left(q: Queued): seq<byte>
    requires ValidQueued(q)
  {
    if q.pos == 0 then Tag(q.media) else q.media.payload[q.pos..] + TagFooter(q.media)
  }

  predicate Fronted(packets: seq<Queued>) {
    && (forall i :: 0 <= i < |packets| ==> ValidQueued(packets[i]))
    && (forall i :: 0 < i < |packets| ==> packets[i].pos == 0)
  }

  function AllLeft(packets: seq<Queued>): seq<byte>
    requires Fronted(packets)
  {
    if packets == [] then [] else Left(packets[0]) + AllLeft(packets[1..])
  }

  lemma {:induction false} LeftSnoc(packets: seq<Queued>, q: Queued)
    requires Fronted(packets) && ValidQueued(q) && q.pos == 0
    ensures AllLeft(packets + [q]) == AllLeft(packets) + Tag(q.media)
  {
    hide Tag, TagFooter;
    if packets == [] {
      assert (packets + [q])[1..] == [];
    } else {
      assert (packets + [q])[1..] == packets[1..] + [q];
      LeftSnoc(packets[1..], q);
    }
  }

  /** A packet begins with the header of its tag, printed once, before the first payload byte. */
  function Opening(q: Queued): seq<byte>
    requires IsTime(q.media.time)
  {
    if q.pos == 0 then TagHeader(q.media) else []
  }

  lemma LeftWhole(q: Queued)
    requires ValidQueued(q)
    ensures Left(q) == Opening(q) + q.media.payload[q.pos..] + TagFooter(q.media)
  {
    hide TagHeader, TagFooter;
    if q.pos == 0 {
      assert q.media.payload[0..] == q.media.payload;
    }
  }

  lemma LeftCut(q: Queued, n: nat)
    requires ValidQueued(q) && 0 < n < |q.media.payload| - q.pos
    ensures ValidQueued(q.(pos := q.pos + n))
    ensures Left(q) == (Opening(q) + q.media.payload[q.pos..q.pos + n]) + Left(q.(pos := q.pos + n))
  {
    hide Left, Opening, TagFooter;
    var p := q.media.payload;
    var done, left, f := p[q.pos..q.pos + n], p[q.pos + n..], TagFooter(q.media);
    LeftWhole(q);
    LeftLater(q.(pos := q.pos + n));
    assert p[q.pos..] == done + left;
    Regroup(Opening(q), done, left, f);
  }

  lemma LeftLater(q: Queued)
    requires ValidQueued(q) && q.pos > 0
    ensures Left(q) == q.media.payload[q.pos..] + TagFooter(q.media)
  {
  }

  lemma Regroup(o: seq<byte>, a: seq<byte>, b: seq<byte>, f: seq<byte>)
    ensures o + (a + b) + f == (o + a) + (b + f)
  {
  }

  lemma OpeningLength(q: Queued)
    requires ValidQueued(q)
    ensures |Opening(q)| == (if q.pos == 0 then 11 else 0) && |TagFooter(q.media)| == 4
    ensures TagFooter(q.media) == Be32((11 + |q.media.payload|) % 0x1_0000_0000)
  {
  }

  lemma PrintedPart(packets: seq<Queued>, n: nat)
    requires Fronted(packets) && packets != [] && 0 < n < |packets[0].media.payload| - packets[0].pos
    ensures var q := packets[0]; var rest := [q.(pos := q.pos + n)] + packets[1..];
      Fronted(rest) && AllLeft(packets) == (Opening(q) + q.media.payload[q.pos..q.pos + n]) + AllLeft(rest)
  {
    hide Left, Opening;
    var q := packets[0];
    var partly := q.(pos := q.pos + n);
    LeftCut(q, n);
    var rest := [partly] + packets[1..];
    assert rest[1..] == packets[1..];
    var printed, after := Opening(q) + q.media.payload[q.pos..q.pos + n], AllLeft(packets[1..]);
    assert (printed + Left(partly)) + after == printed + (Left(partly) + after);
  }

  lemma PrintedWhole(packets: seq<Queued>)
    requires Fronted(packets) && packets != []
    ensures var q := packets[0];
      Fronted(packets[1..])
      && AllLeft(packets) == (Opening(q) + q.media.payload[q.pos..|q.media.payload|] + TagFooter(q.media)) + AllLeft(packets[1..])
  {
    hide Left, Opening, TagFooter;
    var q := packets[0];
    LeftWhole(q);
    assert q.media.payload[q.pos..|q.media.payload|] == q.media.payload[q.pos..];
  }

  class MediaBuffer {
    var packets: seq<Queued>
    var firstRead: bool

    ghost predicate Valid()
      reads this
    {
      Fronted(packets) && (firstRead && packets != [] ==> packets[0].pos == 0)
    }

    /** The bytes of the stream still to read. */
    ghost function Pending(): seq<byte>
      reads this
      requires Valid()
    {
      (if firstRead then FlvHeader else []) + AllLeft(packets)
    }

    constructor ()
      ensures Valid() && packets == [] && Pending() == FlvHeader
    {
      packets, firstRead := [], true;
    }

    method Push(m: Media)
      requires Valid() && IsTime(m.time)
      modifies this
      ensures Valid() && Pending() == old(Pending()) + Tag(m)
    {
      hide Tag, AllLeft;
      LeftSnoc(packets, Queued(m, 0));
      packets := packets + [Queued(m, 0)];
    }

    /** One packet, or as much of its payload as a limit allows; it does not fit when the caller's
        buffer has less room. */
    method PrintPacket(limit: nat, room: nat) returns (bytes: seq<byte>, whole: bool, fits: bool)
      requires Fronted(packets) && packets != [] && limit > 0
      modifies this`packets
      ensures fits ==>
        && Fronted(packets) && bytes + AllLeft(packets) == AllLeft(old(packets)) && 0 < |bytes| <= room
        && (whole ==> packets == old(packets)[1..]) && (!whole ==> |bytes| >= limit)
      ensures !fits ==> packets == old(packets)
      ensures limit + 15 <= room ==> fits
      ensures limit > room ==> (fits <==> |Left(old(packets)[0])| <= room) && (fits ==> whole)
    {
      hide TagHeader, Left, AllLeft, Opening, Be32;
      var q := packets[0];
      var bufferSize := |q.media.payload| - q.pos;
      var toRead := if bufferSize > limit then limit else bufferSize;
      OpeningLength(q);
      LeftWhole(q);
      whole, fits := bufferSize <= toRead, false;
      bytes := PrintHeader(q);
      bytes := bytes + q.media.payload[q.pos..q.pos + toRead];
      if |bytes| + (if whole then 4 else 0) > room { return; }
      fits := true;
      if !whole {
        PrintedPart(packets, toRead);
        packets := [q.(pos := q.pos + toRead)] + packets[1..];
        return;
      }
      PrintedWhole(packets);
      bytes := bytes + Be32((11 + |q.media.payload|) % 0x1_0000_0000);
      packets := packets[1..];
    }

    static method PrintHeader(q: Queued) returns (bytes: seq<byte>)
      requires IsTime(q.media.time)
      ensures bytes == Opening(q)
    {
      bytes := [];
      if q.pos == 0 {
        bytes := [q.media.kind];
        bytes := bytes + Be24(|q.media.payload| % 0x100_0000);
        bytes := bytes + Be24(q.media.time % 0x100_0000);
        bytes := bytes + [q.media.time / 0x100_0000];
        bytes := bytes + Be24(0);
      }
    }

    /** Fills a buffer of the caller's size with the next bytes of the stream; `ok` when they fit in
        it. The sizes are 32-bit differences: below 15 the room kept for a footer wraps around, and
        what is printed fits if and only if all that is left does. */
    method Read(size: uint32) returns (bytes: seq<byte>, ok: bool)
      requires Valid() && packets != []
      modifies this
      ensures ok ==> Valid() && |bytes| <= size && bytes + Pending() == old(Pending())
      ensures size >= 16 ==> ok && bytes != [] && (packets == [] || |bytes| >= size - 15)
      ensures size == 15 ==> ok && bytes == (if old(firstRead) then FlvHeader else []) && packets == old(packets)
      ensures size < 15 ==> (ok <==> !old(firstRead) && |old(AllLeft(packets))| <= size) && (ok ==> packets == [])
    {
      hide AllLeft, Left, U32;
      FrontLeft(packets);
      Room(size, 0);
      bytes, ok := [], true;
      if firstRead && size > 13 {
        bytes := FlvHeader;
        firstRead := false;
      }
      ghost var header := bytes;
      while packets != [] && |bytes| < U32(size - 15)
        invariant Fronted(packets) && ok && |bytes| <= size
        invariant bytes + AllLeft(packets) == header + AllLeft(old(packets))
        invariant |bytes| > 0 || packets == old(packets)
        invariant size == 15 ==> packets == old(packets) && bytes == header
        invariant firstRead ==> size <= 13 && packets == old(packets) && bytes == [] && old(firstRead)
        invariant !firstRead ==> header == if old(firstRead) then FlvHeader else []
        decreases |packets|
      {
        FrontLeft(packets);
        Room(size, |bytes|);
        var part, whole, fits := PrintPacket(U32(size - |bytes| - 15), size - |bytes|);
        if !fits { return bytes, false; }
        assert (bytes + part) + AllLeft(packets) == bytes + (part + AllLeft(packets));
        bytes := bytes + part;
        if !whole { break; }
      }
      if packets == [] { NothingLeft(); }
      assert [] + AllLeft(packets) == AllLeft(packets);
    }
  }

  /** What a 32-bit difference is, with 15 bytes kept. */
  lemma Room(size: uint32, used: nat)
    requires used <= size
    ensures U32(size - used - 15) == if used + 15 <= size then size - used - 15 else 0x1_0000_0000 + size - used - 15
  {
  }

  /** The packet in front is part of what is left; not begun, it has at least a header and a footer. */
  lemma FrontLeft(packets: seq<Queued>)
    requires Fronted(packets) && packets != []
    ensures |AllLeft(packets)| >= |Left(packets[0])| > 0 && (packets[0].pos == 0 ==> |Left(packets[0])| >= 15)
  {
    hide TagHeader, TagFooter;
  }

  lemma NothingLeft()
    ensures AllLeft([]) == []
  {
  }

  /** The fields of a tag header are where the reader finds them. */
  lemma HeaderFields(data: seq<byte>)
    requires |data| >= 11
    ensures Parse8(data) == Parsed(data[0], data[1..])
    ensures Parse24(data[1..]) == Parsed(Parse24(data[..11][1..]).value, data[4..])
    ensures Parse24(data[4..]) == Parsed(Parse24(data[..11][4..]).value, data[7..])
    ensures Parse8(data[7..]) == Parsed(data[..11][7], data[8..])
    ensures data[8..][3..] == data[11..]
  {
    assert data[1..][3..] == data[4..] && data[4..][3..] == data[7..] && data[7..][1..] == data[8..];
  }

  lemma FooterFollows(rest: seq<byte>)
    requires |rest| >= 4
    ensures Parse32(rest).rest == rest[4..]
  {
  }

  lemma PushedKinds(m: Media)
    ensures PushedOne(m) == if m.kind == TYPE_AUDIO || m.kind == TYPE_VIDEO || m.kind == TYPE_DATA then [m] else []
  {
  }
}
