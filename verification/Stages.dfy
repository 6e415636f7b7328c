/** The history of a flow: every fragment ever written, in stage order, and how packets carry it.
    The fragment at index i is stage i + 1. */
module Stages {
  import opened Bytes
  import opened Wire
  import opened Sender

  /** `last` marks the final fragment of its packet; an empty payload ends the flow. */
  datatype Slot = Slot(before: bool, after: bool, reliable: bool, last: bool, payload: seq<byte>)

  /** A message as it was cut. */
  datatype Cut = Cut(reliable: bool, pieces: seq<seq<byte>>)

  /** The message is split in non-empty pieces; only the end of the flow has an empty one. */
  predicate WellCut(c: Cut) {
    |c.pieces| > 0 && (|c.pieces| > 1 ==> forall j :: 0 <= j < |c.pieces| ==> c.pieces[j] != [])
  }

  function Content(c: Cut): seq<byte> {
    Concat(c.pieces)
  }

  /** Only inner cuts are bracketed by the BEFOREPART and AFTERPART marks. */
  function SlotsOf(c: Cut): (slots: seq<Slot>)
    ensures |slots| == |c.pieces|
  {
    seq(|c.pieces|, j requires 0 <= j < |c.pieces| =>
      Slot(j > 0, j < |c.pieces| - 1, c.reliable, false, c.pieces[j]))
  }

  function AllSlots(cuts: seq<Cut>): seq<Slot> {
    if cuts == [] then [] else AllSlots(cuts[..|cuts| - 1]) + SlotsOf(cuts[|cuts| - 1])
  }

  lemma {:induction false} AllSlotsAppend(a: seq<Cut>, b: seq<Cut>)
    ensures AllSlots(a + b) == AllSlots(a) + AllSlots(b)
  {
    hide SlotsOf;
    if b == [] {
      assert a + b == a;
    } else {
      AllSlotsAppend(a, b[..|b| - 1]);
      assert (a + b)[..|a + b| - 1] == a + b[..|b| - 1];
      var last := SlotsOf(b[|b| - 1]);
      assert AllSlots(a) + (AllSlots(b[..|b| - 1]) + last) == (AllSlots(a) + AllSlots(b[..|b| - 1])) + last;
    }
  }

  /** The history without the packet boundaries. */
  function Unpacked(log: seq<Slot>): (slots: seq<Slot>)
    ensures |slots| == |log|
  {
    seq(|log|, i requires 0 <= i < |log| => log[i].(last := false))
  }

  // ---- Packets -----------------------------------------------------------------------------

  /** The n fragments after stage s are exactly one packet, of one reliability. */
  predicate IsTile(log: seq<Slot>, s: nat, n: nat, reliable: bool) {
    && n >= 1 && s + n <= |log| && log[s + n - 1].last
    && (forall i :: s <= i < s + n - 1 ==> !log[i].last)
    && (forall i :: s <= i < s + n ==> log[i].reliable == reliable)
  }

  /** A fragment as decoded is the one written; the content of an end of flow is not looked at. */
  predicate Matches(piece: Piece, slot: Slot) {
    && piece.flags.before == slot.before && piece.flags.after == slot.after
    && piece.flags.end == piece.flags.abandon == (slot.payload == [])
    && (slot.payload != [] ==> piece.payload == slot.payload)
  }

  predicate IsArrival(e: Event, id: nat, stage: nat, slot: Slot, commit: bool) {
    e.Arrival? && e.flowId == id && e.stage == stage && e.commit == commit && Matches(e.piece, slot)
  }

  /** Decoding these chunks gives the n fragments after stage s, answered once at the end. */
  predicate Carries(body: seq<byte>, id: nat, log: seq<Slot>, s: nat, n: nat)
    requires s + n <= |log|
  {
    var events := Parse(body, None);
    |events| == n && forall i :: 0 <= i < n ==> IsArrival(events[i], id, s + i + 1, log[s + i], i == n - 1)
  }

  /** The last bytes of a packet are padding, without which it has at most SIZE_PACKET bytes. */
  predicate Padded(p: Packet, pad: nat) {
    && pad < 16 && pad <= |p.body| && Size(p) - pad <= SIZE_PACKET
    && p.body[|p.body| - pad..] == Repeated(0xFF, pad)
  }

  /** A packet that carries the fragments after stage s, padded so that it fills whole cipher blocks
      after four clear bytes. */
  predicate Packed(p: Packet, id: nat, log: seq<Slot>, s: nat) {
    && IsTile(log, s, p.fragments, p.reliable) && Carries(p.body, id, log, s, p.fragments)
    && p.sizeSent == 0 && Size(p) % 16 == 4 && exists pad: nat :: pad < 16 && Padded(p, pad)
  }

  /** The packets carry the fragments after stage s, one packet after the other. */
  predicate Tiled(ps: seq<Packet>, id: nat, log: seq<Slot>, s: nat)
    decreases |ps|
  {
    ps == [] || (Packed(ps[0], id, log, s) && Tiled(ps[1..], id, log, s + ps[0].fragments))
  }

  lemma PackedFrame(p: Packet, id: nat, log: seq<Slot>, log': seq<Slot>, s: nat)
    requires Packed(p, id, log, s)
    requires s + p.fragments <= |log'| && log[..s + p.fragments] == log'[..s + p.fragments]
    ensures Packed(p, id, log', s)
  {
    hide Parse;
    forall i | s <= i < s + p.fragments ensures log'[i] == log[i] {
      assert log'[i] == log'[..s + p.fragments][i];
      assert log[i] == log[..s + p.fragments][i];
    }
  }

  lemma FragmentSumFront(ps: seq<Packet>)
    requires ps != []
    ensures FragmentSum(ps) == ps[0].fragments + FragmentSum(ps[1..])
  {
    assert ps == [ps[0]] + ps[1..];
    Sums([ps[0]], ps[1..]);
    SumOne(ps[0]);
  }

  lemma {:induction false} TiledFrame(ps: seq<Packet>, id: nat, log: seq<Slot>, log': seq<Slot>, s: nat)
    requires Tiled(ps, id, log, s)
    requires s + FragmentSum(ps) <= |log'| && s + FragmentSum(ps) <= |log|
    requires log[..s + FragmentSum(ps)] == log'[..s + FragmentSum(ps)]
    ensures Tiled(ps, id, log', s)
    decreases |ps|
  {
    hide Packed, FragmentSum;
    if ps != [] {
      FragmentSumFront(ps);
      var n, e := s + FragmentSum(ps), s + ps[0].fragments;
      assert log[..n][..e] == log[..e] && log'[..n][..e] == log'[..e];
      PackedFrame(ps[0], id, log, log', s);
      TiledFrame(ps[1..], id, log, log', e);
    }
  }

  lemma {:induction false} TiledAppend(a: seq<Packet>, b: seq<Packet>, id: nat, log: seq<Slot>, s: nat)
    ensures Tiled(a + b, id, log, s) <==> Tiled(a, id, log, s) && Tiled(b, id, log, s + FragmentSum(a))
    decreases |a|
  {
    hide Packed, FragmentSum;
    if a == [] {
      assert a + b == b;
      assert FragmentSum([]) == 0 by { NoneMovedSum(); }
    } else {
      FragmentSumFront(a);
      assert (a + b)[1..] == a[1..] + b;
      TiledAppend(a[1..], b, id, log, s + a[0].fragments);
    }
  }

  lemma NoneMovedSum()
    ensures FragmentSum([]) == 0
  {
  }

  /** The wire round trip, in terms of the history. */
  lemma ChunksCarry(h: Header, ps: seq<Piece>, pad: nat, log: seq<Slot>, s: nat)
    requires ValidDatagram(h, ps) && h.stage == s + 1 && s + |ps| <= |log| < STAGE_LIMIT
    requires forall i :: 0 <= i < |ps| ==> Matches(ps[i], log[s + i])
    ensures Carries(Chunks(h, ps) + Repeated(0xFF, pad), h.id, log, s, |ps|)
  {
    hide Parse, Chunks, ValidDatagram;
    DatagramRoundTrip(h, ps, pad);
  }
}
