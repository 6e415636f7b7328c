/** The packets between a writer and its acknowledgements: they always carry the history from the
    acknowledged stage to the last one sent, packet by packet. */
module InTransit {
  import opened Bytes
  import opened Wire
  import opened Sender
  import opened Stages
  import opened Receiving
  import opened Reception

  /** A packet ends with stage k. */
  predicate IsEnd(log: seq<Slot>, k: nat) {
    k == 0 || (k <= |log| && log[k - 1].last)
  }

  /** A packet that was sent for the stages after s: it remembers its size, whole cipher blocks after
      four clear bytes, and an unreliable one has dropped its content. */
  predicate Sent(p: Packet, id: nat, log: seq<Slot>, s: nat) {
    && IsTile(log, s, p.fragments, p.reliable) && p.sizeSent % 16 == 4
    && if p.reliable then Carries(p.body, id, log, s, p.fragments) && Size(p) == p.sizeSent else Size(p) == 0
  }

  predicate InFlight(ps: seq<Packet>, id: nat, log: seq<Slot>, s: nat)
    decreases |ps|
  {
    ps == [] || (Sent(ps[0], id, log, s) && InFlight(ps[1..], id, log, s + ps[0].fragments))
  }

  lemma {:induction false} InFlightAppend(a: seq<Packet>, b: seq<Packet>, id: nat, log: seq<Slot>, s: nat)
    ensures InFlight(a + b, id, log, s) <==> InFlight(a, id, log, s) && InFlight(b, id, log, s + FragmentSum(a))
    decreases |a|
  {
    hide Sent, FragmentSum;
    if a == [] {
      assert a + b == b;
      NoneMovedSum();
    } else {
      FragmentSumFront(a);
      assert (a + b)[1..] == a[1..] + b;
      InFlightAppend(a[1..], b, id, log, s + a[0].fragments);
    }
  }

  lemma TileFrame(log: seq<Slot>, more: seq<Slot>, s: nat, n: nat, reliable: bool)
    requires IsTile(log, s, n, reliable)
    ensures IsTile(log + more, s, n, reliable)
  {
  }

  lemma CarriesFrame(body: seq<byte>, id: nat, log: seq<Slot>, more: seq<Slot>, s: nat, n: nat)
    requires s + n <= |log| && Carries(body, id, log, s, n)
    ensures Carries(body, id, log + more, s, n)
  {
    hide Parse, Matches;
  }

  lemma SentFrame(p: Packet, id: nat, log: seq<Slot>, more: seq<Slot>, s: nat)
    requires Sent(p, id, log, s)
    ensures Sent(p, id, log + more, s)
  {
    hide Carries;
    TileFrame(log, more, s, p.fragments, p.reliable);
    if p.reliable { CarriesFrame(p.body, id, log, more, s, p.fragments); }
  }

  lemma {:induction false} InFlightFrame(ps: seq<Packet>, id: nat, log: seq<Slot>, more: seq<Slot>, s: nat)
    requires InFlight(ps, id, log, s)
    ensures InFlight(ps, id, log + more, s)
    decreases |ps|
  {
    hide Sent;
    if ps != [] {
      SentFrame(ps[0], id, log, more, s);
      InFlightFrame(ps[1..], id, log, more, s + ps[0].fragments);
    }
  }

  /** Sending packets keeps what they carry. */
  lemma {:induction false} TiledInFlight(ps: seq<Packet>, id: nat, log: seq<Slot>, s: nat)
    requires Tiled(ps, id, log, s)
    ensures InFlight(SetAllSent(ps), id, log, s)
    decreases |ps|
  {
    hide Packed, Sent;
    if ps != [] {
      assert SetAllSent(ps)[1..] == SetAllSent(ps[1..]);
      PackedSent(ps[0], id, log, s);
      TiledInFlight(ps[1..], id, log, s + ps[0].fragments);
    }
  }

  lemma PackedSent(p: Packet, id: nat, log: seq<Slot>, s: nat)
    requires Packed(p, id, log, s)
    ensures Sent(SetSent(p), id, log, s) && SetSent(p).fragments == p.fragments
  {
    hide Carries, IsTile;
  }

  /** The i-th packet in flight, and where it starts. */
  lemma InFlightAt(ps: seq<Packet>, id: nat, log: seq<Slot>, s: nat, i: nat)
    requires InFlight(ps, id, log, s) && i < |ps|
    ensures Sent(ps[i], id, log, s + FragmentSum(ps[..i]))
    ensures FragmentSum(ps[..i + 1]) == FragmentSum(ps[..i]) + ps[i].fragments
    ensures InFlight(ps[i..], id, log, s + FragmentSum(ps[..i]))
  {
    hide Sent, FragmentSum;
    assert ps == ps[..i] + ps[i..];
    InFlightAppend(ps[..i], ps[i..], id, log, s);
    SumStep(ps, i);
  }

  lemma TiledAt(ps: seq<Packet>, id: nat, log: seq<Slot>, s: nat, i: nat)
    requires Tiled(ps, id, log, s) && i < |ps|
    ensures Packed(ps[i], id, log, s + FragmentSum(ps[..i]))
    ensures FragmentSum(ps[..i + 1]) == FragmentSum(ps[..i]) + ps[i].fragments
  {
    hide Packed, FragmentSum;
    assert ps == ps[..i] + ps[i..];
    TiledAppend(ps[..i], ps[i..], id, log, s);
    SumStep(ps, i);
  }

  lemma SentEnds(p: Packet, id: nat, log: seq<Slot>, s: nat)
    requires Sent(p, id, log, s)
    ensures IsEnd(log, s + p.fragments) && p.fragments >= 1
    ensures forall k :: s < k < s + p.fragments ==> !IsEnd(log, k)
  {
  }

  lemma InFlightEnds(ps: seq<Packet>, id: nat, log: seq<Slot>, s: nat)
    requires InFlight(ps, id, log, s) && IsEnd(log, s)
    ensures IsEnd(log, s + FragmentSum(ps))
  {
    hide Sent, InFlight, FragmentSum;
    if ps == [] {
      NoneMovedSum();
    } else {
      var i := |ps| - 1;
      InFlightAt(ps, id, log, s, i);
      SentEnds(ps[i], id, log, s + FragmentSum(ps[..i]));
      assert ps[..i + 1] == ps;
    }
  }

  // ---- Acknowledgements --------------------------------------------------------------------

  predicate Tracked(q: QueueState, log: seq<Slot>) {
    && IsEnd(log, q.stageAck) && InFlight(q.sending, q.id, log, q.stageAck)
    && q.stageSending == q.stageAck + FragmentSum(q.sending)
  }

  /** No packet in flight straddles the end of a packet. */
  lemma EndsBefore(q: QueueState, log: seq<Slot>, ack: nat, n: nat)
    requires Tracked(q, log) && IsEnd(log, ack) && 0 < n <= |q.sending|
    ensures q.stageAck + FragmentSum(q.sending[..n - 1]) < ack ==> q.stageAck + FragmentSum(q.sending[..n]) <= ack
  {
    hide Sent, InFlight, FragmentSum, IsEnd;
    InFlightAt(q.sending, q.id, log, q.stageAck, n - 1);
    SentEnds(q.sending[n - 1], q.id, log, q.stageAck + FragmentSum(q.sending[..n - 1]));
  }

  lemma ReleaseTracked(q: QueueState, log: seq<Slot>, n: nat)
    requires Tracked(q, log) && n <= |q.sending|
    ensures Tracked(Release(q, n), log)
  {
    hide Sent, InFlight, FragmentSum, IsEnd;
    assert q.sending == q.sending[..n] + q.sending[n..];
    InFlightAppend(q.sending[..n], q.sending[n..], q.id, log, q.stageAck);
    InFlightEnds(q.sending[..n], q.id, log, q.stageAck);
    Sums(q.sending[..n], q.sending[n..]);
  }

  /** An acknowledgement that ends a packet releases the packets up to it, exactly. */
  lemma ReleasesExactly(q: QueueState, log: seq<Slot>, ack: nat, n: nat)
    requires Tracked(q, log) && IsEnd(log, ack) && ack <= q.stageSending && Releases(q, ack, n)
    ensures var r := Release(q, n); Tracked(r, log) && r.stageAck == if ack > q.stageAck then ack else q.stageAck
  {
    hide InFlight, FragmentSum, IsEnd;
    ReleaseTracked(q, log, n);
    assert q.sending[..|q.sending|] == q.sending;
    if n > 0 {
      EndsBefore(q, log, ack, n);
    } else {
      assert q.sending[..0] == [];
      NoneMovedSum();
    }
  }

  // ---- Repetition --------------------------------------------------------------------------

  /** What goes on the wire for an action; the stage field has 64 bits. */
  function AbandonHeader(id: uint64, stage: nat): Header {
    Header(id, stage % 0x1_0000_0000_0000_0000, 0, None)
  }

  const AbandonPiece := Piece(Flags(false, false, false, true, false), [])

  function AbandonBytes(id: uint64, stage: nat): seq<byte>
  {
    hide E7, EncodeHeader;
    AbandonShort(id, stage);
    FirstChunk(AbandonHeader(id, stage), AbandonPiece)
  }

  lemma AbandonShort(id: uint64, stage: nat)
    ensures FirstSize(AbandonHeader(id, stage), AbandonPiece) < 0x1_0000
  {
    hide E7;
  }

  function Datagram(id: uint64, a: Action, pad: nat): seq<byte> {
    match a
    case Resend(p) => p.body
    case Abandon(stage) => AbandonBytes(id, stage) + Repeated(0xFF, pad)
  }

  lemma AbandonDecodes(id: uint64, stage: nat, pad: nat)
    requires 1 <= stage < 0x1_0000_0000_0000_0000
    ensures Abandons(Parse(AbandonBytes(id, stage) + Repeated(0xFF, pad), None), id, stage)
  {
    hide E7, EncodeHeader, FirstChunk, Parse;
    AbandonShort(id, stage);
    var h := AbandonHeader(id, stage);
    assert [AbandonPiece][1..] == [];
    assert Chunks(h, [AbandonPiece]) == FirstChunk(h, AbandonPiece);
    DatagramRoundTrip(h, [AbandonPiece], pad);
  }

  /** Only reliable packets in flight are resent, and only unreliable ones are abandoned: those up
      to the end of a packet, with no reliable one between the acknowledged stage and them. */
  predicate Safe(a: Action, ps: seq<Packet>, log: seq<Slot>, from: nat, to: nat) {
    match a
    case Resend(p) => p.reliable && p in ps
    case Abandon(stage) => 1 <= stage <= to && IsEnd(log, stage) && UnreliableBetween(log, from, stage)
  }

  /** What the repeat loop knows about its own variables. */
  predicate RunSafe(r: Run, log: seq<Slot>, from: nat) {
    && r.sendable >= 1 && from <= r.stage <= |log|
    && (!r.oneReliable ==> UnreliableBetween(log, from, r.stage))
    && (r.abandonStage != 0 ==>
          r.abandonStage <= r.stage && IsEnd(log, r.abandonStage) && UnreliableBetween(log, from, r.abandonStage))
  }

  lemma OnePacketSafe(p: Packet, r: Run, refused: set<nat>, ps: seq<Packet>, id: nat, log: seq<Slot>, from: nat, to: nat)
    requires RunSafe(r, log, from) && Sent(p, id, log, r.stage) && p in ps && r.stage + p.fragments <= to
    ensures var t := OnePacket(p, r, refused);
      && (forall a :: a in t.actions ==> Safe(a, ps, log, from, to))
      && (!t.stop ==> RunSafe(t.run, log, from) && t.run.stage == r.stage + p.fragments)
      && (t.stop ==> RunSafe(t.run.(sendable := 1), log, from) && t.run.stage <= to)
  {
    hide Carries;
  }

  lemma {:induction false} RepeatSafe(ps: seq<Packet>, r: Run, refused: set<nat>, all: seq<Packet>,
                                      id: nat, log: seq<Slot>, from: nat, to: nat)
    requires RunSafe(r, log, from) && InFlight(ps, id, log, r.stage) && r.stage + FragmentSum(ps) <= to
    requires forall p :: p in ps ==> p in all
    ensures forall a :: a in Repeat(ps, r, refused) ==> Safe(a, all, log, from, to)
    decreases |ps|
  {
    hide Sent, OnePacket, FragmentSum, UnreliableBetween, IsEnd, Planned;
    if ps != [] {
      FragmentSumFront(ps);
      OnePacketSafe(ps[0], r, refused, all, id, log, from, to);
      RepeatUnfold(ps, r, refused);
      var t := OnePacket(ps[0], r, refused);
      if t.stop {
        PendingSafe(t.run.(sendable := 1), all, log, from, to);
        assert Planned(t, ps[1..], refused) == Pending(t.run.abandonStage) by { PlannedIs(t, ps[1..], refused); }
      } else {
        RepeatSafe(ps[1..], t.run, refused, all, id, log, from, to);
        assert Planned(t, ps[1..], refused) == Repeat(ps[1..], t.run, refused) by { PlannedIs(t, ps[1..], refused); }
      }
    }
  }

  lemma PendingSafe(r: Run, all: seq<Packet>, log: seq<Slot>, from: nat, to: nat)
    requires RunSafe(r, log, from) && r.stage <= to
    ensures forall a :: a in Pending(r.abandonStage) ==> Safe(a, all, log, from, to)
  {
  }

  /** Whatever the number of fragments to repeat and the sends the socket refuses. */
  lemma RepeatAllSafe(q: QueueState, log: seq<Slot>, budget: nat, refused: set<nat>)
    requires Tracked(q, log) && q.stageSending <= |log|
    ensures forall a :: a in RepeatAll(q, budget, refused) ==> Safe(a, q.sending, log, q.stageAck, q.stageSending)
  {
    hide InFlight, FragmentSum, Repeat;
    RepeatSafe(q.sending, Run(q.stageAck, 0, false, SENDABLE_MAX, budget, 0), refused, q.sending,
               q.id, log, q.stageAck, q.stageSending);
  }
}
