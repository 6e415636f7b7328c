/** When a writer releases and repeats (sources/RTMFPWriter.cpp): what it makes of acknowledgements
    that arrive late, twice or out of order. */
module RtmfpWriter {

  const REPEAT_DELAY_MAX := 10000

  /** Acknowledged packets are released, or fragments repeated; 0 fragments sets no limit. */
  datatype Job = Release(stage: nat) | Repeat(fragments: nat)

  datatype Ack = Ack(stage: nat, lostCount: nat)

  datatype WriterState = WriterState(stageAck: nat, lostCount: nat)

  datatype Reaction = Reaction(state: WriterState, jobs: seq<Job>)

  function React(w: WriterState, a: Ack): Reaction {
    if a.stage > w.stageAck then Reaction(WriterState(a.stage, 0), [Release(a.stage)])
    else if a.lostCount > w.lostCount then
      Reaction(w.(lostCount := a.lostCount), [Repeat(if a.lostCount > 0xFF then 0xFF else a.lostCount)])
    else Reaction(w, [])
  }

  function ReactAll(w: WriterState, acks: seq<Ack>): Reaction {
    if acks == [] then Reaction(w, [])
    else
      var before := ReactAll(w, acks[..|acks| - 1]);
      var last := React(before.state, acks[|acks| - 1]);
      Reaction(last.state, before.jobs + last.jobs)
  }

  function MaxStage(start: nat, acks: seq<Ack>): nat {
    if acks == [] then start
    else
      var before := MaxStage(start, acks[..|acks| - 1]);
      var last := acks[|acks| - 1].stage;
      if last > before then last else before
  }

  /** Releases advance strictly, and every repetition is limited. */
  predicate Advancing(jobs: seq<Job>) {
    && (forall i, j :: 0 <= i < j < |jobs| && jobs[i].Release? && jobs[j].Release? ==> jobs[i].stage < jobs[j].stage)
    && (forall i :: 0 <= i < |jobs| && jobs[i].Repeat? ==> 1 <= jobs[i].fragments <= 0xFF)
  }

  /** The repetitions since the last release. */
  function RepeatsSince(jobs: seq<Job>): nat {
    if jobs == [] || jobs[|jobs| - 1].Release? then 0 else 1 + RepeatsSince(jobs[..|jobs| - 1])
  }

  /** The releases lie between where the writer started and where it is. */
  predicate Kept(start: nat, r: Reaction) {
    && start <= r.state.stageAck && Advancing(r.jobs) && RepeatsSince(r.jobs) <= r.state.lostCount
    && forall i :: 0 <= i < |r.jobs| && r.jobs[i].Release? ==> start < r.jobs[i].stage <= r.state.stageAck
  }

  lemma AdvancingSnoc(jobs: seq<Job>, job: Job)
    requires Advancing(jobs)
    requires job.Release? ==> forall i :: 0 <= i < |jobs| && jobs[i].Release? ==> jobs[i].stage < job.stage
    requires job.Repeat? ==> 1 <= job.fragments <= 0xFF
    ensures Advancing(jobs + [job])
  {
  }

  lemma RepeatsSnoc(jobs: seq<Job>, job: Job)
    ensures RepeatsSince(jobs + [job]) == if job.Release? then 0 else 1 + RepeatsSince(jobs)
  {
    assert (jobs + [job])[..|jobs|] == jobs;
  }

  lemma JobKept(start: nat, r: Reaction, job: Job, state: WriterState)
    requires Kept(start, r) && state.stageAck >= r.state.stageAck
    requires match job
      case Release(stage) => r.state.stageAck < stage == state.stageAck
      case Repeat(n) => 1 <= n <= 0xFF && r.state.lostCount < state.lostCount
    ensures Kept(start, Reaction(state, r.jobs + [job]))
  {
    hide Advancing, RepeatsSince;
    AdvancingSnoc(r.jobs, job);
    RepeatsSnoc(r.jobs, job);
  }

  lemma ReactKept(start: nat, r: Reaction, a: Ack)
    requires Kept(start, r)
    ensures var n := React(r.state, a); Kept(start, Reaction(n.state, r.jobs + n.jobs))
  {
    hide Kept;
    var n := React(r.state, a);
    if n.jobs == [] {
      assert r.jobs + n.jobs == r.jobs;
    } else {
      JobKept(start, r, n.jobs[0], n.state);
    }
  }

  /** In whatever order acknowledgements come, the greatest is kept, releases advance strictly and
      are for stages up to it, repetitions are limited, and there are no more of them since the last
      release than lost fragments told. */
  lemma {:induction false} AcksAdvance(w: WriterState, acks: seq<Ack>)
    ensures var r := ReactAll(w, acks); r.state.stageAck == MaxStage(w.stageAck, acks) && Kept(w.stageAck, r)
  {
    hide Advancing, RepeatsSince;
    if acks == [] {
      assert Advancing([]) && RepeatsSince([]) == 0 by { NoJobs(); }
    } else {
      AcksAdvance(w, acks[..|acks| - 1]);
      ReactKept(w.stageAck, ReactAll(w, acks[..|acks| - 1]), acks[|acks| - 1]);
    }
  }

  lemma NoJobs()
    ensures Advancing([]) && RepeatsSince([]) == 0
  {
  }

  // ---- Which jobs are issued ---------------------------------------------------------------

  /** The acknowledgement is for a stage beyond the writer's and beyond all before. */
  predicate IsRecord(start: nat, acks: seq<Ack>, k: nat) {
    k < |acks| && start < acks[k].stage && forall j :: 0 <= j < k ==> acks[j].stage < acks[k].stage
  }

  predicate RecordFrom(start: nat, acks: seq<Ack>, j: nat, k: nat) {
    exists i: nat :: j <= i < k && IsRecord(start, acks, i)
  }

  /** A number of lost fragments is more than the writer and the acknowledgements told since the last
      record, which forgets what was told before. */
  predicate IsMore(w: WriterState, acks: seq<Ack>, lost: nat) {
    && (w.lostCount >= lost ==> RecordFrom(w.stageAck, acks, 0, |acks|))
    && forall j: nat :: j < |acks| && acks[j].lostCount >= lost ==> RecordFrom(w.stageAck, acks, j, |acks|)
  }

  lemma {:induction false} MaxStageExact(start: nat, acks: seq<Ack>, stage: nat)
    ensures MaxStage(start, acks) < stage <==> start < stage && forall j :: 0 <= j < |acks| ==> acks[j].stage < stage
  {
    if acks != [] {
      var init := acks[..|acks| - 1];
      MaxStageExact(start, init, stage);
      forall j | 0 <= j < |init| ensures init[j] == acks[j] {}
      assert acks[|acks| - 1].stage < stage || !(forall j :: 0 <= j < |acks| ==> acks[j].stage < stage);
    }
  }

  lemma RecordPrefix(start: nat, acks: seq<Ack>, n: nat, k: nat)
    requires k < n <= |acks|
    ensures IsRecord(start, acks[..n], k) <==> IsRecord(start, acks, k)
  {
  }

  lemma RecordFromSnoc(start: nat, acks: seq<Ack>, j: nat)
    requires acks != []
    ensures var n := |acks| - 1;
      RecordFrom(start, acks, j, n + 1)
      <==> (j <= n && IsRecord(start, acks, n)) || RecordFrom(start, acks[..n], j, n)
  {
    var n := |acks| - 1;
    if RecordFrom(start, acks, j, n + 1) {
      var i: nat :| j <= i < n + 1 && IsRecord(start, acks, i);
      if i < n { RecordPrefix(start, acks, n, i); }
    }
    if RecordFrom(start, acks[..n], j, n) {
      var i: nat :| j <= i < n && IsRecord(start, acks[..n], i);
      RecordPrefix(start, acks, n, i);
    }
  }

  lemma {:induction false} LostExact(w: WriterState, acks: seq<Ack>, lost: nat)
    requires lost > 0
    ensures ReactAll(w, acks).state.lostCount < lost <==> IsMore(w, acks, lost)
  {
    if acks != [] {
      var n := |acks| - 1;
      var init := acks[..n];
      LostExact(w, init, lost);
      AcksAdvance(w, init);
      MaxStageExact(w.stageAck, init, acks[n].stage);
      assert IsRecord(w.stageAck, acks, n) <==> acks[n].stage > ReactAll(w, init).state.stageAck;
      MoreSnoc(w, acks, lost);
    }
  }

  lemma MoreSnoc(w: WriterState, acks: seq<Ack>, lost: nat)
    requires acks != []
    ensures var n := |acks| - 1;
      IsMore(w, acks, lost) <==> IsRecord(w.stageAck, acks, n) || (acks[n].lostCount < lost && IsMore(w, acks[..n], lost))
  {
    hide IsRecord, RecordFrom;
    var n := |acks| - 1;
    var start, init := w.stageAck, acks[..n];
    RecordFromSnoc(start, acks, 0);
    NoRecord(start, init, n);
    if IsMore(w, acks, lost) && !IsRecord(start, acks, n) {
      RecordFromSnoc(start, acks, n);
      forall j: nat | j < n && init[j].lostCount >= lost ensures RecordFrom(start, init, j, |init|) {
        assert acks[j].lostCount >= lost;
        RecordFromSnoc(start, acks, j);
      }
    }
    if IsRecord(start, acks, n) || (acks[n].lostCount < lost && IsMore(w, init, lost)) {
      forall j: nat | j < |acks| && acks[j].lostCount >= lost ensures RecordFrom(start, acks, j, |acks|) {
        RecordFromSnoc(start, acks, j);
        if j < n { assert init[j] == acks[j]; }
      }
    }
  }

  lemma NoRecord(start: nat, acks: seq<Ack>, n: nat)
    ensures !RecordFrom(start, acks, n, n)
  {
  }

  function Least(a: nat, b: nat): nat {
    if a < b then a else b
  }

  /** Each acknowledgement issues exactly what it should: a release for its stage when that is a
      record; else, when it tells more lost fragments than the acknowledgements since the last record,
      a repetition of that many, at most 255; else nothing. */
  lemma JobsIssued(w: WriterState, acks: seq<Ack>, k: nat)
    requires k < |acks|
    ensures var before, after, a := ReactAll(w, acks[..k]).jobs, ReactAll(w, acks[..k + 1]).jobs, acks[k];
      after == before
             + if IsRecord(w.stageAck, acks, k) then [Release(a.stage)]
               else if a.lostCount > 0 && IsMore(w, acks[..k], a.lostCount) then [Repeat(Least(a.lostCount, 0xFF))]
               else []
  {
    hide IsMore;
    var upTo := acks[..k + 1];
    assert upTo[..k] == acks[..k] && upTo[k] == acks[k];
    AcksAdvance(w, acks[..k]);
    MaxStageExact(w.stageAck, acks[..k], acks[k].stage);
    assert forall j :: 0 <= j < k ==> acks[..k][j] == acks[j];
    if acks[k].lostCount > 0 { LostExact(w, acks[..k], acks[k].lostCount); }
    assert ReactAll(w, upTo).jobs == ReactAll(w, acks[..k]).jobs + React(ReactAll(w, acks[..k]).state, acks[k]).jobs;
  }

  function Released(jobs: seq<Job>): seq<nat> {
    if jobs == [] then []
    else
      var last := jobs[|jobs| - 1];
      Released(jobs[..|jobs| - 1]) + if last.Release? then [last.stage] else []
  }

  lemma ReleasedSnoc(jobs: seq<Job>, more: seq<Job>)
    requires |more| <= 1
    ensures Released(jobs + more) == Released(jobs) + if more != [] && more[0].Release? then [more[0].stage] else []
  {
    if more == [] {
      assert jobs + more == jobs;
    } else {
      assert (jobs + more)[..|jobs|] == jobs;
    }
  }

  /** The stages of the records. */
  function Records(start: nat, acks: seq<Ack>): seq<nat> {
    if acks == [] then []
    else
      var n := |acks| - 1;
      Records(start, acks[..n]) + if IsRecord(start, acks, n) then [acks[n].stage] else []
  }

  /** The releases are the records, in order; the last one is for the greatest stage acknowledged. */
  lemma {:induction false} ReleasesRecords(w: WriterState, acks: seq<Ack>)
    ensures var r := ReactAll(w, acks); var records := Records(w.stageAck, acks);
      && Released(r.jobs) == records
      && r.state.stageAck == if records == [] then w.stageAck else records[|records| - 1]
  {
    hide IsRecord;
    if acks != [] {
      var n := |acks| - 1;
      ReleasesRecords(w, acks[..n]);
      JobsIssued(w, acks, n);
      assert acks[..n + 1] == acks;
      var before := ReactAll(w, acks[..n]);
      ReleasedSnoc(before.jobs, React(before.state, acks[n]).jobs);
    }
  }

  /** The delay before the next repetition: longer by a factor of about the root of 2, up to a limit. */
  function NextDelay(delay: nat): nat {
    if delay < 7072 then delay * 14142 / 10000 else REPEAT_DELAY_MAX
  }

  lemma DelayGrows(delay: nat)
    requires delay <= REPEAT_DELAY_MAX
    ensures delay <= NextDelay(delay) <= REPEAT_DELAY_MAX
    ensures NextDelay(delay) < REPEAT_DELAY_MAX ==>
      NextDelay(delay) as real <= delay as real * 1.4142 < NextDelay(delay) as real + 1.0
    ensures NextDelay(delay) == REPEAT_DELAY_MAX ==> delay as real * 1.4142 >= REPEAT_DELAY_MAX as real
    ensures delay < NextDelay(delay) <==> 3 <= delay < REPEAT_DELAY_MAX
  {
    assert delay < 7072 ==> delay * 14142 <= 7071 * 14142;
  }

  class RTMFPWriter {
    var stageAck: nat
    var lostCount: nat
    var repeatDelay: nat
    var jobs: seq<Job>

    function State(): WriterState
      reads this
    {
      WriterState(stageAck, lostCount)
    }

    constructor ()
      ensures State() == WriterState(0, 0) && repeatDelay == 0 && jobs == []
    {
      stageAck, lostCount, repeatDelay, jobs := 0, 0, 0, [];
    }

    method Acquit(ack: Ack, rto: nat)
      modifies this
      ensures var r := React(old(State()), ack); State() == r.state && jobs == old(jobs) + r.jobs
      ensures repeatDelay == if ack.stage > old(stageAck) then rto else old(repeatDelay)
    {
      if ack.stage > stageAck {
        stageAck, lostCount, repeatDelay := ack.stage, 0, rto;
        jobs := jobs + [Release(stageAck)];
        return;
      }
      if ack.lostCount == 0 { return; }
      if ack.lostCount > lostCount {
        lostCount := ack.lostCount;
        RepeatMessages(lostCount, false, false, false);
      }
    }

    /** `unique`: no job on the queue is under way; `waiting`: packets wait to be sent; `elapsed`: the
        delay has passed. */
    method RepeatMessages(lost: nat, unique: bool, waiting: bool, elapsed: bool)
      modifies this
      ensures State() == old(State())
      ensures lost > 0 ==>
        jobs == old(jobs) + [Repeat(if lost > 0xFF then 0xFF else lost)] && repeatDelay == old(repeatDelay)
      ensures lost == 0 && unique && waiting && elapsed ==>
        jobs == old(jobs) + [Repeat(0)] && repeatDelay == NextDelay(old(repeatDelay))
      ensures lost == 0 && !(unique && waiting && elapsed) ==>
        jobs == old(jobs) && repeatDelay == if unique && !waiting then 0 else old(repeatDelay)
    {
      if lost > 0 {
        jobs := jobs + [Repeat(if lost > 0xFF then 0xFF else lost)];
        return;
      }
      if !unique { return; }
      if !waiting {
        repeatDelay := 0;
        return;
      }
      if !elapsed { return; }
      repeatDelay := NextDelay(repeatDelay);
      jobs := jobs + [Repeat(0)];
    }
  }
}
