/** The counters of one session over any run of its jobs on any of its queues. */
module Accounting {
  import opened Sender

  datatype SessionState = SessionState(sendable: nat, queueing: int, sendingSize: int)

  /** RTMFPMessenger::flush puts packets in the queue, for the stages its write has numbered. */
  function WriteQueue(q: QueueState, packets: seq<Packet>): QueueState {
    q.(stage := q.stage + FragmentSum(packets), waiting := q.waiting + packets)
  }

  function WriteSession(ss: SessionState, packets: seq<Packet>): SessionState {
    ss.(queueing := ss.queueing + SizeTotal(packets))
  }

  /** The first n waiting packets were sent; when a send was refused before the session allowed no
      more, the session pauses. */
  function FlushSession(ss: SessionState, q: QueueState, n: nat): SessionState
    requires n <= |q.waiting| && n <= ss.sendable
  {
    SessionState(if n < |q.waiting| && n < ss.sendable then 0 else ss.sendable - n,
                 ss.queueing - SizeTotal(q.waiting[..n]),
                 ss.sendingSize + SizeTotal(SetAllSent(q.waiting[..n])))
  }

  function AcquitSession(ss: SessionState, q: QueueState, n: nat): SessionState
    requires n <= |q.sending|
  {
    ss.(sendable := if n > 0 then SENDABLE_MAX else ss.sendable,
        sendingSize := ss.sendingSize - SizeTotal(q.sending[..n]))
  }

  /** A session, its queues, and whether a send was ever refused. */
  datatype Account = Account(session: SessionState, queues: seq<QueueState>, refused: bool)

  datatype Job =
    | Write(i: nat, packets: seq<Packet>)
    | Flush(i: nat, n: nat)
    | Acquit(i: nat, ack: nat, n: nat)
    | Repeat(i: nat, refused: bool)

  predicate Possible(a: Account, job: Job) {
    job.i < |a.queues| &&
    match job
    case Write(_, _) => true
    case Flush(i, n) => n <= |a.queues[i].waiting| && n <= a.session.sendable
    case Acquit(i, ack, n) => Releases(a.queues[i], ack, n)
    case Repeat(_, _) => true
  }

  function Do(a: Account, job: Job): Account
    requires Possible(a, job)
  {
    var q := a.queues[job.i];
    match job
    case Write(i, packets) =>
      a.(session := WriteSession(a.session, packets), queues := a.queues[i := WriteQueue(q, packets)])
    case Flush(i, n) =>
      Account(FlushSession(a.session, q, n), a.queues[i := Move(q, n)],
              a.refused || (n < |q.waiting| && n < a.session.sendable))
    case Acquit(i, _, n) =>
      a.(session := AcquitSession(a.session, q, n), queues := a.queues[i := Release(q, n)])
    case Repeat(_, refused) =>
      if refused then a.(session := a.session.(sendable := 0), refused := true) else a
  }

  // ---- Sums over the queues ----------------------------------------------------------------

  function TotalWaiting(qs: seq<QueueState>): nat {
    if qs == [] then 0 else TotalWaiting(qs[1..]) + SizeTotal(qs[0].waiting)
  }

  function TotalSending(qs: seq<QueueState>): nat {
    if qs == [] then 0 else TotalSending(qs[1..]) + SizeTotal(qs[0].sending)
  }

  function TotalInFlight(qs: seq<QueueState>): nat {
    if qs == [] then 0 else TotalInFlight(qs[1..]) + |qs[0].sending|
  }

  lemma {:induction false} TotalsUpdate(qs: seq<QueueState>, i: nat, q: QueueState)
    requires i < |qs|
    ensures TotalWaiting(qs[i := q]) == TotalWaiting(qs) - SizeTotal(qs[i].waiting) + SizeTotal(q.waiting)
    ensures TotalSending(qs[i := q]) == TotalSending(qs) - SizeTotal(qs[i].sending) + SizeTotal(q.sending)
    ensures TotalInFlight(qs[i := q]) == TotalInFlight(qs) - |qs[i].sending| + |q.sending|
  {
    hide SizeTotal;
    if i > 0 {
      assert qs[i := q][1..] == qs[1..][i - 1 := q];
      TotalsUpdate(qs[1..], i - 1, q);
    } else {
      assert qs[0 := q][1..] == qs[1..];
    }
  }

  // ---- The invariant -----------------------------------------------------------------------

  predicate QueueBalanced(q: QueueState) {
    && q.stageSending == q.stageAck + FragmentSum(q.sending)
    && q.stage == q.stageSending + FragmentSum(q.waiting)
  }

  predicate Balanced(a: Account) {
    && (forall i :: 0 <= i < |a.queues| ==> QueueBalanced(a.queues[i]))
    && a.session.queueing == TotalWaiting(a.queues)
    && a.session.sendingSize == TotalSending(a.queues)
    && a.session.sendable <= SENDABLE_MAX
    && (!a.refused ==> TotalInFlight(a.queues) >= SENDABLE_MAX - a.session.sendable)
  }

  lemma WriteBalanced(q: QueueState, packets: seq<Packet>)
    requires QueueBalanced(q)
    ensures var r := WriteQueue(q, packets);
      QueueBalanced(r) && SizeTotal(r.waiting) == SizeTotal(q.waiting) + SizeTotal(packets)
  {
    hide FragmentSum, SizeTotal;
    Sums(q.waiting, packets);
  }

  lemma MoveBalanced(q: QueueState, n: nat)
    requires QueueBalanced(q) && n <= |q.waiting|
    ensures var r := Move(q, n);
      && QueueBalanced(r) && |r.sending| == |q.sending| + n
      && SizeTotal(r.waiting) == SizeTotal(q.waiting) - SizeTotal(q.waiting[..n])
      && SizeTotal(r.sending) == SizeTotal(q.sending) + SizeTotal(SetAllSent(q.waiting[..n]))
  {
    hide FragmentSum, SizeTotal;
    assert q.waiting == q.waiting[..n] + q.waiting[n..];
    Sums(q.waiting[..n], q.waiting[n..]);
    Sums(q.sending, SetAllSent(q.waiting[..n]));
    SentFragments(q.waiting[..n]);
  }

  lemma ReleaseBalanced(q: QueueState, n: nat)
    requires QueueBalanced(q) && n <= |q.sending|
    ensures var r := Release(q, n);
      && QueueBalanced(r) && SizeTotal(r.sending) == SizeTotal(q.sending) - SizeTotal(q.sending[..n])
  {
    hide FragmentSum, SizeTotal;
    assert q.sending == q.sending[..n] + q.sending[n..];
    Sums(q.sending[..n], q.sending[n..]);
  }

  lemma JobBalanced(a: Account, job: Job)
    requires Balanced(a) && Possible(a, job)
    ensures Balanced(Do(a, job)) && |Do(a, job).queues| == |a.queues|
  {
    hide FragmentSum, SizeTotal, Move, Release, SetAllSent, QueueBalanced;
    var q := a.queues[job.i];
    match job
    case Write(i, packets) =>
      WriteBalanced(q, packets);
      TotalsUpdate(a.queues, i, WriteQueue(q, packets));
    case Flush(i, n) =>
      MoveBalanced(q, n);
      TotalsUpdate(a.queues, i, Move(q, n));
    case Acquit(i, _, n) =>
      ReleaseBalanced(q, n);
      assert Release(q, n).waiting == q.waiting by { ReleaseKeeps(q, n); }
      NothingReleased(q);
      TotalsUpdate(a.queues, i, Release(q, n));
    case Repeat(_, _) =>
  }

  lemma ReleaseKeeps(q: QueueState, n: nat)
    requires n <= |q.sending|
    ensures Release(q, n).waiting == q.waiting
  {
  }

  lemma NothingReleased(q: QueueState)
    ensures Release(q, 0) == q
  {
    NoneMoved(q);
  }

  ghost predicate IsLife(life: seq<Account>, jobs: seq<Job>) {
    && |life| == |jobs| + 1
    && life[0].session == SessionState(SENDABLE_MAX, 0, 0) && !life[0].refused
    && (forall i :: 0 <= i < |life[0].queues| ==>
          var q := life[0].queues[i]; q == QueueState(q.id, q.flowId, q.signature, 0, 0, 0, [], []))
    && forall k :: 0 <= k < |jobs| ==> Possible(life[k], jobs[k]) && life[k + 1] == Do(life[k], jobs[k])
  }

  lemma {:induction false} NewBalanced(qs: seq<QueueState>)
    requires forall i :: 0 <= i < |qs| ==> qs[i].stage == qs[i].stageSending == qs[i].stageAck == 0 && qs[i].waiting == qs[i].sending == []
    ensures TotalWaiting(qs) == TotalSending(qs) == TotalInFlight(qs) == 0
    ensures forall i :: 0 <= i < |qs| ==> QueueBalanced(qs[i])
  {
    if qs != [] { NewBalanced(qs[1..]); }
  }

  /** Over the whole life of a session its stages add up, its two byte counts are the bytes of all
      its queues, and unless a send was refused every slot it may not send in is a packet in flight. */
  lemma {:induction false} LifeBalanced(life: seq<Account>, jobs: seq<Job>, k: nat)
    requires IsLife(life, jobs) && k < |life|
    ensures Balanced(life[k])
  {
    hide Balanced, Do, Possible;
    if k == 0 {
      NewBalanced(life[0].queues);
      assert Balanced(life[0]) by { StartBalanced(life[0]); }
    } else {
      LifeBalanced(life, jobs, k - 1);
      JobBalanced(life[k - 1], jobs[k - 1]);
    }
  }

  lemma StartBalanced(a: Account)
    requires a.session == SessionState(SENDABLE_MAX, 0, 0)
    requires TotalWaiting(a.queues) == TotalSending(a.queues) == TotalInFlight(a.queues) == 0
    requires forall i :: 0 <= i < |a.queues| ==> QueueBalanced(a.queues[i])
    ensures Balanced(a)
  {
  }
}
