/** How fragments share packets (sources/RTMFPSender.cpp): when a packet is opened, how much of a
    message a fragment takes, and what the header of a packet presents. */
module Packing {
  import opened Bytes
  import opened SevenBit
  import opened Wire
  import opened Sender
  import opened Stages

  const SIZE_HEADER := 11

  /** A packet with less room than this left takes no more fragments. */
  const ROOM := SIZE_HEADER + 4 + 16

  /** What the headers of one run depend on: the flow, its acknowledged stage, what presents it, and
      whether a timestamp waits to be echoed. */
  datatype Origin = Origin(id: nat, stageAck: nat, options: Options, echo: bool)

  function Behind(o: Origin, stage: nat): nat {
    if stage < o.stageAck then 0 else stage - o.stageAck
  }

  /** The bytes of the header of a packet that starts with this stage. */
  function HeaderLength(o: Origin, stage: nat): nat {
    Size7Bit(o.id, 9) + Size7Bit(stage, 9) + Size7Bit(Behind(o, stage), 9)
    + (if o.stageAck != 0 then 0
       else |o.options.signature| + (if o.options.flowId != 0 then 4 + Size7Bit(o.options.flowId, 9) else 2))
  }

  /** The size of a packet, without its padding, that carries the n fragments after stage s. */
  function Used(o: Origin, prefix: nat, slots: seq<Slot>, s: nat, n: nat): nat
    requires s + n <= |slots|
  {
    if n == 0 then prefix
    else Used(o, prefix, slots, s, n - 1) + 4 + (if n == 1 then HeaderLength(o, s + 1) else 0) + |slots[s + n - 1].payload|
  }

  /** Where the k-th fragment of a packet ends at the latest; the first one does not count the prefix. */
  function Limit(prefix: nat, k: nat): nat {
    SIZE_PACKET - SIZE_HEADER + if k == 1 then prefix else 0
  }

  /** The k-th fragment of a packet found enough room, and takes all of it unless its message ends. */
  predicate Laid(o: Origin, prefix: nat, slots: seq<Slot>, s: nat, k: nat)
    requires 1 <= k && s + k <= |slots|
  {
    && Used(o, prefix, slots, s, k) <= Limit(prefix, k)
    && (slots[s + k - 1].after ==> Used(o, prefix, slots, s, k) == Limit(prefix, k))
    && (k > 1 ==> Used(o, prefix, slots, s, k - 1) + ROOM <= SIZE_PACKET)
  }

  predicate Fills(o: Origin, prefix: nat, slots: seq<Slot>, s: nat, n: nat)
    requires s + n <= |slots|
  {
    n == 0 || (Fills(o, prefix, slots, s, n - 1) && Laid(o, prefix, slots, s, n))
  }

  /** The first stage of a packet tells its distance to the acknowledged one, and presents the flow
      as long as no stage is acknowledged; an end of flow lacks the flag that says so. */
  function Presentation(o: Origin, slot: Slot): Option<Options> {
    if o.stageAck == 0 && slot.payload != [] then Some(o.options) else None
  }

  predicate Presents(body: seq<byte>, o: Origin, slot: Slot, stage: nat) {
    var events := Parse(body, None);
    && Delta(body) == Behind(o, stage)
    && events != [] && events[0].Arrival? && events[0].options == Presentation(o, slot)
  }

  /** Only the first packet of a run echoes a timestamp, in two more bytes. */
  function PrefixOf(o: Origin, k: nat): nat {
    if k == 0 && o.echo then 11 else 9
  }

  /** The k-th packet of a run, which carries the fragments after stage s, and nothing but them and
      the padding to whole cipher blocks. */
  predicate Full(o: Origin, p: Packet, k: nat, slots: seq<Slot>, s: nat) {
    && p.fragments >= 1 && s + p.fragments <= |slots|
    && p.prefix == PrefixOf(o, k) && Fills(o, p.prefix, slots, s, p.fragments)
    && (var used := Used(o, p.prefix, slots, s, p.fragments); used <= Size(p) < used + 16 && Size(p) % 16 == 4)
    && Presents(p.body, o, slots[s], s + 1)
  }

  /** Why the next fragment, of this reliability, did not join the packet. */
  predicate Follows(o: Origin, p: Packet, slots: seq<Slot>, s: nat, reliable: bool)
    requires s + p.fragments <= |slots|
  {
    Used(o, p.prefix, slots, s, p.fragments) + ROOM > SIZE_PACKET || p.reliable != reliable
  }

  /** The packets of a run, which carry the fragments after stage s one packet after the other. */
  predicate Thrifty(o: Origin, ps: seq<Packet>, slots: seq<Slot>, s: nat) {
    ps == [] ||
      (var k := |ps| - 1;
       && Thrifty(o, ps[..k], slots, s) && Full(o, ps[k], k, slots, s + FragmentSum(ps[..k]))
       && Opens(o, ps[..k], slots, s, ps[k].reliable))
  }

  /** After these packets a fragment of this reliability opens one. */
  predicate Opens(o: Origin, ps: seq<Packet>, slots: seq<Slot>, s: nat, reliable: bool) {
    ps == [] ||
      (var k := |ps| - 1; var from := s + FragmentSum(ps[..k]);
       from + ps[k].fragments <= |slots| && Follows(o, ps[k], slots, from, reliable))
  }

  lemma FirstOpens(o: Origin, ps: seq<Packet>, slots: seq<Slot>, s: nat, reliable: bool)
    requires ps == []
    ensures Opens(o, ps, slots, s, reliable)
  {
  }

  // ---- What follows for fragments, packets and messages -----------------------------------

  lemma {:induction false} LaidAt(o: Origin, prefix: nat, slots: seq<Slot>, s: nat, n: nat, k: nat)
    requires s + n <= |slots| && Fills(o, prefix, slots, s, n) && 1 <= k <= n
    ensures Laid(o, prefix, slots, s, k)
  {
    hide Laid;
    if k < n { LaidAt(o, prefix, slots, s, n - 1, k); }
  }

  lemma {:induction false} PacketAt(o: Origin, ps: seq<Packet>, slots: seq<Slot>, s: nat, j: nat)
    requires Thrifty(o, ps, slots, s) && j < |ps|
    ensures Full(o, ps[j], j, slots, s + FragmentSum(ps[..j]))
    ensures j + 1 < |ps| ==> Follows(o, ps[j], slots, s + FragmentSum(ps[..j]), ps[j + 1].reliable)
  {
    hide Full, Follows, FragmentSum;
    var k := |ps| - 1;
    if j < k {
      assert ps[..k][..j] == ps[..j];
      if j + 1 == k { LastOpens(o, ps[..k], slots, s, ps[k].reliable); }
      PacketAt(o, ps[..k], slots, s, j);
    }
  }

  lemma LastOpens(o: Origin, ps: seq<Packet>, slots: seq<Slot>, s: nat, reliable: bool)
    requires ps != [] && Opens(o, ps, slots, s, reliable)
    ensures var k := |ps| - 1; var from := s + FragmentSum(ps[..k]);
      from + ps[k].fragments <= |slots| && Follows(o, ps[k], slots, from, reliable)
  {
  }

  /** A fragment with more to come ends its packet, and leaves at most SIZE_HEADER bytes of it unused. */
  lemma CutEndsPacket(o: Origin, ps: seq<Packet>, slots: seq<Slot>, s: nat, j: nat, k: nat)
    requires Thrifty(o, ps, slots, s) && j < |ps| && 1 <= k <= ps[j].fragments
    ensures var from := s + FragmentSum(ps[..j]);
      && from + ps[j].fragments <= |slots|
      && (slots[from + k - 1].after ==>
            && k == ps[j].fragments
            && SIZE_PACKET - SIZE_HEADER <= Used(o, ps[j].prefix, slots, from, k) <= SIZE_PACKET)
  {
    hide Used, FragmentSum, Presents;
    PacketAt(o, ps, slots, s, j);
    var from, n := s + FragmentSum(ps[..j]), ps[j].fragments;
    LaidAt(o, ps[j].prefix, slots, from, n, k);
    if k < n { LaidAt(o, ps[j].prefix, slots, from, n, k + 1); }
  }

  /** A message that fits what its packet has left when it starts is one fragment. */
  lemma WholeWhenItFits(o: Origin, ps: seq<Packet>, slots: seq<Slot>, s: nat, j: nat, k: nat, cut: Cut)
    requires Thrifty(o, ps, slots, s) && j < |ps| && k < ps[j].fragments && WellCut(cut)
    requires var from := s + FragmentSum(ps[..j]);
      && from + k + |cut.pieces| <= |slots| && slots[from + k..from + k + |cut.pieces|] == SlotsOf(cut)
      && Used(o, ps[j].prefix, slots, from, k) + 4 + (if k == 0 then HeaderLength(o, from + 1) else 0) + |Content(cut)|
         <= Limit(ps[j].prefix, k + 1)
    ensures |cut.pieces| == 1
  {
    hide FragmentSum, Presents, HeaderLength, Concat;
    PacketAt(o, ps, slots, s, j);
    var from := s + FragmentSum(ps[..j]);
    LaidAt(o, ps[j].prefix, slots, from, ps[j].fragments, k + 1);
    if |cut.pieces| > 1 {
      assert slots[from + k] == SlotsOf(cut)[0];
      FirstIsShorter(cut);
    }
  }

  lemma FirstIsShorter(cut: Cut)
    requires WellCut(cut) && |cut.pieces| > 1
    ensures |cut.pieces[0]| < |Content(cut)|
  {
    ConcatWithin(cut.pieces);
  }

  lemma {:induction false} ConcatWithin(pieces: seq<seq<byte>>)
    requires pieces != [] && forall i :: 0 <= i < |pieces| ==> pieces[i] != []
    ensures |pieces[0]| <= |Concat(pieces)| && (|pieces| > 1 ==> |pieces[0]| < |Concat(pieces)|)
  {
    if |pieces| > 1 {
      var k := |pieces| - 1;
      ConcatWithin(pieces[..k]);
      assert pieces == pieces[..k] + [pieces[k]];
      ConcatSnoc(pieces[..k], pieces[k]);
    } else {
      assert pieces == [] + [pieces[0]];
      ConcatSnoc([], pieces[0]);
    }
  }

  // ---- The history grows -------------------------------------------------------------------

  lemma {:induction false} UsedFrame(o: Origin, prefix: nat, slots: seq<Slot>, more: seq<Slot>, s: nat, n: nat)
    requires s + n <= |slots| && slots <= more
    ensures Used(o, prefix, slots, s, n) == Used(o, prefix, more, s, n)
  {
    hide HeaderLength;
    if n > 0 { UsedFrame(o, prefix, slots, more, s, n - 1); }
  }

  lemma {:induction false} FillsFrame(o: Origin, prefix: nat, slots: seq<Slot>, more: seq<Slot>, s: nat, n: nat)
    requires s + n <= |slots| && slots <= more && Fills(o, prefix, slots, s, n)
    ensures Fills(o, prefix, more, s, n)
  {
    hide Used;
    if n > 0 {
      FillsFrame(o, prefix, slots, more, s, n - 1);
      UsedFrame(o, prefix, slots, more, s, n);
      UsedFrame(o, prefix, slots, more, s, n - 1);
    }
  }

  lemma FullFrame(o: Origin, p: Packet, k: nat, slots: seq<Slot>, more: seq<Slot>, s: nat)
    requires Full(o, p, k, slots, s) && slots <= more
    ensures Full(o, p, k, more, s)
  {
    hide Used, Fills, Presents;
    UsedFrame(o, p.prefix, slots, more, s, p.fragments);
    FillsFrame(o, p.prefix, slots, more, s, p.fragments);
  }

  lemma OpensFrame(o: Origin, ps: seq<Packet>, slots: seq<Slot>, more: seq<Slot>, s: nat, reliable: bool)
    requires Opens(o, ps, slots, s, reliable) && slots <= more
    ensures Opens(o, ps, more, s, reliable)
  {
    hide Used, FragmentSum;
    if ps != [] {
      var k := |ps| - 1;
      UsedFrame(o, ps[k].prefix, slots, more, s + FragmentSum(ps[..k]), ps[k].fragments);
    }
  }

  lemma {:induction false} ThriftyFrame(o: Origin, ps: seq<Packet>, slots: seq<Slot>, more: seq<Slot>, s: nat)
    requires Thrifty(o, ps, slots, s) && slots <= more
    ensures Thrifty(o, ps, more, s)
  {
    hide Full, Opens, FragmentSum;
    if ps != [] {
      var k := |ps| - 1;
      ThriftyFrame(o, ps[..k], slots, more, s);
      FullFrame(o, ps[k], k, slots, more, s + FragmentSum(ps[..k]));
      OpensFrame(o, ps[..k], slots, more, s, ps[k].reliable);
    }
  }

  // ---- The packet being filled -------------------------------------------------------------

  predicate Heads(head: Header, o: Origin, slot: Slot, stage: nat) {
    head.delta == Behind(o, stage) && head.options == Presentation(o, slot)
  }

  /** The packet being filled, of `used` bytes so far, after the finished ones. */
  predicate Filling(o: Origin, slots: seq<Slot>, start: nat, packets: seq<Packet>, n: nat, prefix: nat, used: nat,
                    reliable: bool, head: Header)
  {
    && start + FragmentSum(packets) + n == |slots| && prefix == PrefixOf(o, |packets|)
    && (var s := start + FragmentSum(packets);
        && Fills(o, prefix, slots, s, n) && used == Used(o, prefix, slots, s, n)
        && (n > 0 ==> Opens(o, packets, slots, start, reliable) && Heads(head, o, slots[s], s + 1)))
  }

  lemma Opened(o: Origin, slots: seq<Slot>, start: nat, packets: seq<Packet>, reliable: bool, head: Header)
    requires start + FragmentSum(packets) == |slots|
    ensures var prefix := PrefixOf(o, |packets|); Filling(o, slots, start, packets, 0, prefix, prefix, reliable, head)
  {
  }

  /** One more fragment in the packet being filled. */
  lemma FragmentLaid(o: Origin, slots: seq<Slot>, start: nat, packets: seq<Packet>, n: nat, prefix: nat, used: nat,
                     reliable: bool, head: Header, slot: Slot, used': nat, head': Header)
    requires Filling(o, slots, start, packets, n, prefix, used, reliable, head) && Thrifty(o, packets, slots, start)
    requires used' == used + 4 + (if n == 0 then HeaderLength(o, |slots| + 1) else 0) + |slot.payload|
    requires used' <= Limit(prefix, n + 1) && (slot.after ==> used' == Limit(prefix, n + 1))
    requires n == 0 ==> Opens(o, packets, slots, start, slot.reliable) && Heads(head', o, slot, |slots| + 1)
    requires n > 0 ==> used + ROOM <= SIZE_PACKET && slot.reliable == reliable && head' == head
    ensures Filling(o, slots + [slot], start, packets, n + 1, prefix, used', slot.reliable, head')
    ensures Thrifty(o, packets, slots + [slot], start)
  {
    hide HeaderLength, Opens, FragmentSum, Thrifty, Heads;
    var more, s := slots + [slot], start + FragmentSum(packets);
    FillsFrame(o, prefix, slots, more, s, n);
    UsedFrame(o, prefix, slots, more, s, n);
    ThriftyFrame(o, packets, slots, more, start);
    OpensFrame(o, packets, slots, more, start, slot.reliable);
  }

  /** The packet being filled is finished. */
  lemma PacketFull(o: Origin, slots: seq<Slot>, start: nat, packets: seq<Packet>, n: nat, prefix: nat, used: nat,
                   reliable: bool, head: Header, p: Packet)
    requires Filling(o, slots, start, packets, n, prefix, used, reliable, head) && Thrifty(o, packets, slots, start)
    requires n > 0 && p.fragments == n && p.prefix == prefix && p.reliable == reliable
    requires used <= Size(p) < used + 16 && Size(p) % 16 == 4
    requires forall slot, stage: nat :: Heads(head, o, slot, stage) ==> Presents(p.body, o, slot, stage)
    ensures Thrifty(o, packets + [p], slots, start) && start + FragmentSum(packets + [p]) == |slots|
    ensures forall r :: used + ROOM > SIZE_PACKET || reliable != r ==> Opens(o, packets + [p], slots, start, r)
  {
    hide Used, Fills, Presents, Heads;
    var ps := packets + [p];
    assert ps[..|ps| - 1] == packets;
    assert Full(o, p, |packets|, slots, start + FragmentSum(packets));
  }

  /** The header of a finished packet decodes. */
  lemma HeadPresents(h: Header, ps: seq<Piece>, pad: nat, o: Origin, slot: Slot, stage: nat)
    requires ValidDatagram(h, ps) && h.stage + |ps| <= STAGE_LIMIT && Heads(h, o, slot, stage)
    ensures Presents(Chunks(h, ps) + Repeated(0xFF, pad), o, slot, stage)
  {
    hide Parse, Chunks, Delta, ValidDatagram;
    assert |ps| > 0 by { OnePiece(h, ps); }
    DatagramRoundTrip(h, ps, pad);
    DeltaRoundTrip(h, ps, Repeated(0xFF, pad));
  }

  lemma OnePiece(h: Header, ps: seq<Piece>)
    requires ValidDatagram(h, ps)
    ensures |ps| > 0
  {
  }
}
