/** The sending side of one flow (sources/RTMFPSender.cpp, include/RTMFPSender.h): packets wait in
    a queue, are in flight until acknowledged, and are repeated or abandoned meanwhile. */
module Sender {
  import opened Bytes

  const SENDABLE_MAX := 6

  /** A packet of `fragments` consecutive stages; `prefix` is the size of what precedes its chunks. */
  datatype Packet = Packet(fragments: nat, reliable: bool, prefix: nat, body: seq<byte>, sizeSent: nat)

  function Size(p: Packet): nat {
    p.prefix + |p.body|
  }

  /** Packet::setSent: the size is remembered once, and an unreliable packet drops its content. */
  function SetSent(p: Packet): Packet {
    if p.sizeSent != 0 then p
    else if p.reliable then p.(sizeSent := Size(p))
    else p.(sizeSent := Size(p), prefix := 0, body := [])
  }

  function SetAllSent(ps: seq<Packet>): (r: seq<Packet>)
    ensures |r| == |ps|
  {
    seq(|ps|, i requires 0 <= i < |ps| => SetSent(ps[i]))
  }

  function FragmentSum(ps: seq<Packet>): nat {
    if ps == [] then 0 else FragmentSum(ps[..|ps| - 1]) + ps[|ps| - 1].fragments
  }

  function SizeTotal(ps: seq<Packet>): nat {
    if ps == [] then 0 else SizeTotal(ps[..|ps| - 1]) + Size(ps[|ps| - 1])
  }

  datatype QueueState = QueueState(
    id: uint64, flowId: uint64, signature: seq<byte>,
    stage: nat, stageSending: nat, stageAck: nat,
    waiting: seq<Packet>, sending: seq<Packet>)

  /** The first n waiting packets go on the wire. */
  function Move(q: QueueState, n: nat): (r: QueueState)
    requires n <= |q.waiting|
    ensures |r.waiting| == |q.waiting| - n
  {
    q.(stageSending := q.stageSending + FragmentSum(q.waiting[..n]),
       sending := q.sending + SetAllSent(q.waiting[..n]),
       waiting := q.waiting[n..])
  }

  /** The first n packets in flight are released. */
  function Release(q: QueueState, n: nat): (r: QueueState)
    requires n <= |q.sending|
    ensures |r.sending| == |q.sending| - n
    ensures r.stageAck == q.stageAck + FragmentSum(q.sending[..n]) && r.stageSending == q.stageSending
  {
    q.(stageAck := q.stageAck + FragmentSum(q.sending[..n]), sending := q.sending[n..])
  }

  /** How many packets an acknowledgement releases: whole packets, while it is ahead. */
  predicate Releases(q: QueueState, ack: nat, n: nat)
  {
    var ack := if ack > q.stageSending then q.stageSending else ack;
    && n <= |q.sending|
    && (n > 0 ==> q.stageAck + FragmentSum(q.sending[..n - 1]) < ack)
    && (n < |q.sending| ==> q.stageAck + FragmentSum(q.sending[..n]) >= ack)
  }

  // ---- Repetition --------------------------------------------------------------------------

  datatype Action = Resend(packet: Packet) | Abandon(stage: nat)

  function Pending(abandonStage: nat): seq<Action> {
    if abandonStage != 0 then [Abandon(abandonStage)] else []
  }

  /** The locals of RTMFPRepeater::run: `budget` is what is left of the number of fragments to
      repeat, 0 for no limit, and `sends` counts the packets resent. */
  datatype Run = Run(stage: nat, abandonStage: nat, oneReliable: bool, sendable: nat, budget: nat, sends: nat)

  datatype Turn = Turn(actions: seq<Action>, run: Run, stop: bool)

  function Spend(actions: seq<Action>, r: Run, p: Packet): Turn {
    if r.budget == 0 then Turn(actions, r, false)
    else if p.fragments >= r.budget then Turn(actions, r, true)
    else Turn(actions, r.(budget := r.budget - p.fragments), false)
  }

  /** One packet in flight: a reliable one is resent, unless the socket refuses it, after the
      abandon of the unreliable ones before it. */
  function OnePacket(p: Packet, r: Run, refused: set<nat>): Turn
    requires r.sendable >= 1
  {
    var next := r.stage + p.fragments;
    if p.reliable then
      var actions := Pending(r.abandonStage);
      var r := r.(stage := next, oneReliable := true, abandonStage := 0);
      if r.sends in refused then Turn(actions, r, true)
      else
        var r := r.(sends := r.sends + 1, sendable := r.sendable - 1);
        if r.sendable == 0 then Turn(actions + [Resend(p)], r, true)
        else Spend(actions + [Resend(p)], r, p)
    else
      Spend([], r.(stage := next, abandonStage := if r.oneReliable then r.abandonStage else next), p)
  }

  function Repeat(ps: seq<Packet>, r: Run, refused: set<nat>): seq<Action>
    requires r.sendable >= 1
    decreases |ps|
  {
    if ps == [] then Pending(r.abandonStage)
    else
      var t := OnePacket(ps[0], r, refused);
      OnePacketSendable(ps[0], r, refused);
      if t.stop then t.actions + Pending(t.run.abandonStage)
      else t.actions + Repeat(ps[1..], t.run, refused)
  }

  lemma RepeatUnfold(ps: seq<Packet>, r: Run, refused: set<nat>)
    requires r.sendable >= 1 && ps != []
    ensures var t := OnePacket(ps[0], r, refused);
      Repeat(ps, r, refused) == t.actions + Planned(t, ps[1..], refused)
  {
  }

  function Planned(t: Turn, ps: seq<Packet>, refused: set<nat>): seq<Action>
    requires t.stop || t.run.sendable >= 1
  {
    if t.stop then Pending(t.run.abandonStage) else Repeat(ps, t.run, refused)
  }

  lemma PlannedIs(t: Turn, ps: seq<Packet>, refused: set<nat>)
    requires t.stop || t.run.sendable >= 1
    ensures Planned(t, ps, refused) == if t.stop then Pending(t.run.abandonStage) else Repeat(ps, t.run, refused)
  {
  }

  /** What is planned after some actions were taken, one packet further. */
  lemma RepeatStep(taken: seq<Action>, ps: seq<Packet>, r: Run, refused: set<nat>)
    requires r.sendable >= 1 && ps != []
    ensures var t := OnePacket(ps[0], r, refused);
      (t.stop || t.run.sendable >= 1)
      && taken + Repeat(ps, r, refused) == (taken + t.actions) + Planned(t, ps[1..], refused)
  {
    hide Repeat, OnePacket, Pending, Planned;
    OnePacketSendable(ps[0], r, refused);
    RepeatUnfold(ps, r, refused);
  }

  lemma OnePacketSendable(p: Packet, r: Run, refused: set<nat>)
    requires r.sendable >= 1
    ensures var t := OnePacket(p, r, refused); t.stop || t.run.sendable >= 1
  {
  }

  function RepeatAll(q: QueueState, budget: nat, refused: set<nat>): seq<Action> {
    Repeat(q.sending, Run(q.stageAck, 0, false, SENDABLE_MAX, budget, 0), refused)
  }

  // ---- Sums --------------------------------------------------------------------------------

  lemma {:induction false} Sums(a: seq<Packet>, b: seq<Packet>)
    ensures FragmentSum(a + b) == FragmentSum(a) + FragmentSum(b)
    ensures SizeTotal(a + b) == SizeTotal(a) + SizeTotal(b)
  {
    if b == [] {
      assert a + b == a;
    } else {
      var init, last := b[..|b| - 1], b[|b| - 1];
      Sums(a, init);
      assert (a + b)[..|a + b| - 1] == a + init;
    }
  }

  lemma SumOne(p: Packet)
    ensures FragmentSum([p]) == p.fragments && SizeTotal([p]) == Size(p)
  {
    assert [p][..0] == [];
  }

  lemma SumStep(ps: seq<Packet>, n: nat)
    requires n < |ps|
    ensures FragmentSum(ps[..n + 1]) == FragmentSum(ps[..n]) + ps[n].fragments
    ensures SizeTotal(ps[..n + 1]) == SizeTotal(ps[..n]) + Size(ps[n])
    ensures SetAllSent(ps[..n + 1]) == SetAllSent(ps[..n]) + [SetSent(ps[n])]
    ensures SizeTotal(SetAllSent(ps[..n + 1])) == SizeTotal(SetAllSent(ps[..n])) + Size(SetSent(ps[n]))
  {
    assert ps[..n + 1][..n] == ps[..n];
    var sent := SetAllSent(ps[..n + 1]);
    assert sent[..n] == SetAllSent(ps[..n]);
  }

  lemma {:induction false} SentFragments(ps: seq<Packet>)
    ensures FragmentSum(SetAllSent(ps)) == FragmentSum(ps)
  {
    if ps != [] {
      var init := ps[..|ps| - 1];
      SentFragments(init);
      assert SetAllSent(ps)[..|ps| - 1] == SetAllSent(init);
    }
  }

  function MoveOne(q: QueueState): QueueState
    requires q.waiting != []
  {
    var p := q.waiting[0];
    q.(stageSending := q.stageSending + p.fragments, sending := q.sending + [SetSent(p)], waiting := q.waiting[1..])
  }

  /** What sending one more packet changes. */
  lemma MoveStep(q: QueueState, n: nat)
    requires n < |q.waiting|
    ensures var p := Move(q, n).waiting[0];
      && Move(q, n + 1) == MoveOne(Move(q, n)) && SetSent(p).fragments == p.fragments
      && SizeTotal(q.waiting[..n + 1]) == SizeTotal(q.waiting[..n]) + Size(p)
      && SizeTotal(SetAllSent(q.waiting[..n + 1])) == SizeTotal(SetAllSent(q.waiting[..n])) + Size(SetSent(p))
  {
    hide SetAllSent, SizeTotal, FragmentSum;
    SumStep(q.waiting, n);
    assert q.waiting[n..][1..] == q.waiting[n + 1..];
  }

  function ReleaseOne(q: QueueState): QueueState
    requires q.sending != []
  {
    q.(stageAck := q.stageAck + q.sending[0].fragments, sending := q.sending[1..])
  }

  /** What releasing one more packet changes. */
  lemma ReleaseStep(q: QueueState, n: nat)
    requires n < |q.sending|
    ensures Release(q, n + 1) == ReleaseOne(Release(q, n))
      && SizeTotal(q.sending[..n + 1]) == SizeTotal(q.sending[..n]) + Size(Release(q, n).sending[0])
  {
    hide SetSent, SetAllSent, SizeTotal, FragmentSum;
    SumStep(q.sending, n);
    assert q.sending[n..][1..] == q.sending[n + 1..];
  }

  lemma NoneMoved(q: QueueState)
    ensures Move(q, 0) == q && Release(q, 0) == q
    ensures SizeTotal([]) == 0 && SetAllSent([]) == []
  {
    assert q.waiting[..0] == [] && q.sending[..0] == [];
    assert q.sending + SetAllSent([]) == q.sending;
  }
}
