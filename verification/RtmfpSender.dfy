/** The session and the queues it serves, and the three jobs that run on them. */
module RtmfpSender {
  import opened Bytes
  import opened Sender

  class Session {
    var sendable: nat
    var queueing: int
    var sendingSize: int
    /** A far timestamp is waiting to be echoed in the next packet. */
    var echo: bool

    constructor ()
      ensures sendable == SENDABLE_MAX && queueing == 0 && sendingSize == 0 && !echo
    {
      sendable, queueing, sendingSize, echo := SENDABLE_MAX, 0, 0, false;
    }
  }

  class Queue {
    const id: uint64
    const flowId: uint64
    const signature: seq<byte>
    var stage: nat
    var stageSending: nat
    var stageAck: nat
    var waiting: seq<Packet>
    var sending: seq<Packet>

    function State(): QueueState
      reads this
    {
      QueueState(id, flowId, signature, stage, stageSending, stageAck, waiting, sending)
    }

    constructor (id: uint64, flowId: uint64, signature: seq<byte>)
      ensures State() == QueueState(id, flowId, signature, 0, 0, 0, [], [])
    {
      this.id, this.flowId, this.signature := id, flowId, signature;
      stage, stageSending, stageAck := 0, 0, 0;
      waiting, sending := [], [];
    }
  }

  /** RTMFPSender::run: sends while the session allows it and the socket accepts. */
  method Flush(session: Session, queue: Queue, refused: set<nat>) returns (n: nat)
    modifies session, queue
    ensures n <= |old(queue.waiting)| && n <= old(session.sendable)
    ensures queue.State() == Move(old(queue.State()), n)
    ensures forall i :: 0 <= i < n ==> i !in refused
    ensures n < |old(queue.waiting)| && n < old(session.sendable) ==> n in refused
    ensures session.sendable
         == if n < |old(queue.waiting)| && n < old(session.sendable) then 0 else old(session.sendable) - n
    ensures session.queueing == old(session.queueing) - SizeTotal(old(queue.waiting)[..n])
    ensures session.sendingSize == old(session.sendingSize) + SizeTotal(SetAllSent(old(queue.waiting)[..n]))
    ensures session.echo == old(session.echo)
  {
    hide SetSent, SetAllSent, SizeTotal, FragmentSum, Size, Move;
    ghost var q := queue.State();
    n := 0;
    NoneMoved(q);
    assert q.waiting[..0] == [];
    while session.sendable > 0 && queue.waiting != []
      invariant n <= |q.waiting| && session.sendable == old(session.sendable) - n
      invariant queue.State() == Move(q, n)
      invariant forall i :: 0 <= i < n ==> i !in refused
      invariant session.queueing == old(session.queueing) - SizeTotal(q.waiting[..n])
      invariant session.sendingSize == old(session.sendingSize) + SizeTotal(SetAllSent(q.waiting[..n]))
      invariant session.echo == old(session.echo)
      decreases |queue.waiting|
    {
      var packet := queue.waiting[0];
      if n in refused {
        session.sendable := 0;
        break;
      }
      MoveStep(q, n);
      ghost var before := queue.State();
      session.sendable := session.sendable - 1;
      session.queueing := session.queueing - Size(packet);
      packet := SetSent(packet);
      queue.stageSending := queue.stageSending + packet.fragments;
      queue.sending := queue.sending + [packet];
      session.sendingSize := session.sendingSize + Size(packet);
      queue.waiting := queue.waiting[1..];
      assert queue.State() == MoveOne(before);
      n := n + 1;
    }
  }

  /** RTMFPAcquiter::run: an acknowledgement releases whole packets. */
  method Acquit(session: Session, queue: Queue, ack: nat) returns (n: nat)
    modifies session, queue
    ensures Releases(old(queue.State()), ack, n)
    ensures queue.State() == Release(old(queue.State()), n)
    ensures session.sendable == if n > 0 then SENDABLE_MAX else old(session.sendable)
    ensures session.sendingSize == old(session.sendingSize) - SizeTotal(old(queue.sending)[..n])
    ensures session.queueing == old(session.queueing) && session.echo == old(session.echo)
  {
    hide SetSent, SetAllSent, SizeTotal, FragmentSum, Size, Release;
    ghost var q := queue.State();
    var stageAck := ack;
    if stageAck > queue.stageSending { stageAck := queue.stageSending; }
    n := 0;
    NoneMoved(q);
    assert q.sending[..0] == [];
    while queue.sending != [] && stageAck > queue.stageAck
      invariant n <= |q.sending| && queue.State() == Release(q, n)
      invariant n > 0 ==> q.stageAck + FragmentSum(q.sending[..n - 1]) < stageAck
      invariant session.sendable == if n > 0 then SENDABLE_MAX else old(session.sendable)
      invariant session.sendingSize == old(session.sendingSize) - SizeTotal(q.sending[..n])
      invariant session.queueing == old(session.queueing) && session.echo == old(session.echo)
      decreases |queue.sending|
    {
      ReleaseStep(q, n);
      ReleasePacket(session, queue);
      n := n + 1;
    }
  }

  /** The first packet in flight is released: the session may send as many as at first. */
  method ReleasePacket(session: Session, queue: Queue)
    requires queue.sending != []
    modifies session, queue
    ensures queue.State() == ReleaseOne(old(queue.State()))
    ensures session.sendable == SENDABLE_MAX && session.sendingSize == old(session.sendingSize) - Size(old(queue.sending)[0])
    ensures session.queueing == old(session.queueing) && session.echo == old(session.echo)
  {
    var packet := queue.sending[0];
    queue.stageAck := queue.stageAck + packet.fragments;
    session.sendingSize := session.sendingSize - Size(packet);
    queue.sending := queue.sending[1..];
    session.sendable := SENDABLE_MAX;
  }

  /** The body of the repeat loop: what it does with one packet in flight. */
  method RepeatPacket(session: Session, packet: Packet, r: Run, refused: set<nat>) returns (turn: Turn)
    requires r.sendable >= 1
    modifies session`sendable
    ensures turn == OnePacket(packet, r, refused)
    ensures session.sendable == if packet.reliable && r.sends in refused then 0 else old(session.sendable)
  {
    var Run(stage, abandonStage, oneReliable, sendable, fragments, sends) := r;
    var actions := [];
    stage := stage + packet.fragments;
    if packet.reliable {
      oneReliable := true;
      if abandonStage != 0 {
        actions := actions + [Abandon(abandonStage)];
        abandonStage := 0;
      }
      if sends in refused {
        session.sendable := 0;
        return Turn(actions, Run(stage, abandonStage, oneReliable, sendable, fragments, sends), true);
      }
      actions := actions + [Resend(packet)];
      sends, sendable := sends + 1, sendable - 1;
      if sendable == 0 {
        return Turn(actions, Run(stage, abandonStage, oneReliable, sendable, fragments, sends), true);
      }
    } else if !oneReliable {
      abandonStage := stage;
    }
    var stop := false;
    if fragments != 0 {
      if packet.fragments >= fragments { stop := true; } else { fragments := fragments - packet.fragments; }
    }
    return Turn(actions, Run(stage, abandonStage, oneReliable, sendable, fragments, sends), stop);
  }

  /** RTMFPRepeater::run */
  method RepeatPackets(session: Session, queue: Queue, budget: nat, refused: set<nat>) returns (actions: seq<Action>)
    modifies session`sendable
    ensures actions == RepeatAll(queue.State(), budget, refused)
    ensures session.sendable == old(session.sendable) || session.sendable == 0
  {
    hide OnePacket;
    var r := Run(queue.stageAck, 0, false, SENDABLE_MAX, budget, 0);
    var packets := queue.sending;
    actions := [];
    var i := 0;
    assert packets[0..] == packets;
    while i < |packets|
      invariant i <= |packets| && r.sendable >= 1
      invariant session.sendable == old(session.sendable) || session.sendable == 0
      invariant RepeatAll(queue.State(), budget, refused) == actions + Repeat(packets[i..], r, refused)
    {
      RepeatStep(actions, packets[i..], r, refused);
      assert packets[i..][1..] == packets[i + 1..];
      var turn := RepeatPacket(session, packets[i], r, refused);
      actions, r := actions + turn.actions, turn.run;
      if turn.stop {
        if r.abandonStage != 0 { actions := actions + [Abandon(r.abandonStage)]; }
        return;
      }
      i := i + 1;
    }
    if r.abandonStage != 0 { actions := actions + [Abandon(r.abandonStage)]; }
  }
}
