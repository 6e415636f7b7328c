/** The receiving side of one flow (sources/RTMFPFlow.cpp): fragments are delivered in stage
    order, reassembled into messages, and buffered while a stage is missing. */
module Flow {
  import opened Bytes
  import opened OrderedMap
  import opened Wire

  /** `lost` and `fragmentation` are 32-bit counters. `delivered` is what was given to the stream, in order; the empty message closes it. */
  datatype FlowState = FlowState(
    stage: nat,
    stageEnd: nat,
    fragments: map<nat, Piece>,
    buffer: Option<seq<byte>>,
    lost: uint32,
    fragmentation: uint32,
    delivered: seq<seq<byte>>)

  const Fresh := FlowState(0, 0, map[], None, 0, 0, [])

  /** The bytes buffered out of order. */
  function SizeSum(m: map<nat, Piece>): (n: nat)
    decreases |m|
  {
    if m == map[] then 0
    else
      var k := First(m.Keys);
      WithoutShrinks(m, k);
      |m[k].payload| + SizeSum(Without(m, k))
  }

  // ---- What one fragment does --------------------------------------------------------------

  /** The stage after one, in 64 bits. */
  function Next(stage: nat): nat {
    (stage + 1) % STAGE_LIMIT
  }

  function Output(s: FlowState, message: seq<byte>): FlowState {
    if message == [] then s else s.(delivered := s.delivered + [message])
  }

  function OnFragment(s: FlowState, piece: Piece): FlowState {
    var s := s.(stage := Next(s.stage));
    if s.buffer.Some? then
      var message := s.buffer.value + piece.payload;
      if piece.flags.after then s.(buffer := Some(message)) else Output(s.(buffer := None), message)
    else if piece.flags.before then s.(lost := U32(s.lost + |piece.payload|))
    else if piece.flags.after then s.(buffer := Some(piece.payload))
    else Output(s, piece.payload)
  }

  function Take(s: FlowState, k: nat): FlowState
    requires k in s.fragments
  {
    s.(fragments := Without(s.fragments, k), fragmentation := U32(s.fragmentation - |s.fragments[k].payload|))
  }

  /** A buffered fragment is not after the next stage. */
  predicate Ready(s: FlowState) {
    s.fragments != map[] && First(s.fragments.Keys) <= Next(s.stage)
  }

  /** Delivers the buffered fragments that follow without a gap. */
  function Drain(s: FlowState): FlowState
    decreases |s.fragments|
  {
    if !Ready(s) then s
    else
      var k := First(s.fragments.Keys);
      WithoutShrinks(s.fragments, k);
      Drain(OnFragment(Take(s, k), s.fragments[k]))
  }

  /** An abandon moves to its stage and forgets everything before the stage after it. */
  function Skip(s: FlowState, stage: nat, end: bool): (r: FlowState)
  {
    var kept := AtLeast(s.fragments, Next(stage));
    var dropped := SizeSum(s.fragments) - SizeSum(kept);
    var missed := (stage - Next(s.stage)) * SIZE_PACKET + (if end then 0 else SIZE_PACKET / 2);
    s.(stage := stage, fragments := kept, buffer := None,
       fragmentation := U32(s.fragmentation - dropped),
       lost := U32(s.lost + missed + dropped + (if s.buffer.Some? then |s.buffer.value| else 0)))
  }

  function Store(s: FlowState, stage: nat, piece: Piece): FlowState {
    if stage in s.fragments then s
    else s.(fragments := s.fragments[stage := piece],
            fragmentation := U32(s.fragmentation + |piece.payload|))
  }

  function Complete(s: FlowState): FlowState {
    if s.fragments == map[] && s.stageEnd != 0 then s.(delivered := s.delivered + [[]]) else s
  }

  function Completed(s: FlowState): bool {
    s.stageEnd != 0 && s.fragments == map[]
  }

  /** Beyond the end, or before the next stage. */
  predicate Ignored(s: FlowState, stage: nat) {
    (s.stageEnd != 0 && stage > s.stageEnd) || stage < Next(s.stage)
  }

  function Ended(s: FlowState, stage: nat, piece: Piece): FlowState {
    if s.stageEnd == 0 && piece.flags.end then s.(stageEnd := stage) else s
  }

  /** RTMFPFlow::input */
  function Input(s: FlowState, stage: nat, piece: Piece): FlowState
  {
    if Completed(s) then s.(stage := stage)
    else if s.stageEnd != 0 && stage > s.stageEnd then s
    else
      var s := Ended(s, stage, piece);
      if stage < Next(s.stage) then s
      else if piece.flags.abandon then Complete(Drain(Skip(s, stage, piece.flags.end)))
      else if stage > Next(s.stage) then Store(s, stage, piece)
      else Complete(Drain(OnFragment(s, piece)))
  }

  /** `fragmentation` counts the buffered bytes, in 32 bits. */
  predicate Accounted(s: FlowState) {
    s.fragmentation == U32(SizeSum(s.fragments))
  }

  /** A gap always separates the buffered fragments from the current stage. */
  predicate Gapped(s: FlowState) {
    forall k :: k in s.fragments ==> k >= s.stage + 2
  }

  /** Its stages are 64-bit numbers, as received ones are. */
  predicate Narrow(s: FlowState) {
    s.stage < STAGE_LIMIT && s.stageEnd < STAGE_LIMIT && forall k :: k in s.fragments ==> k < STAGE_LIMIT
  }

  lemma {:induction false} SizeSumWithout(m: map<nat, Piece>, k: nat)
    requires k in m
    ensures SizeSum(m) == |m[k].payload| + SizeSum(Without(m, k))
    decreases |m|
  {
    var f := First(m.Keys);
    if k != f {
      var m1, m2 := Without(m, f), Without(m, k);
      WithoutShrinks(m, f);
      SizeSumWithout(m1, k);
      assert First(m2.Keys) == f;
      assert Without(m1, k) == Without(m2, f);
    }
  }

  // ---- What every input keeps --------------------------------------------------------------

  lemma OnFragmentKeeps(s: FlowState, piece: Piece)
    ensures var r := OnFragment(s, piece);
      && r.stage == Next(s.stage) && r.stageEnd == s.stageEnd
      && r.fragments == s.fragments && r.fragmentation == s.fragmentation
      && s.delivered <= r.delivered
  {
  }

  lemma TakeAccounts(s: FlowState, k: nat)
    requires Accounted(s) && k in s.fragments
    ensures Accounted(Take(s, k))
  {
    hide SizeSum, U32;
    SizeSumWithout(s.fragments, k);
    U32Adds(SizeSum(s.fragments), -|s.fragments[k].payload|);
  }

  /** Whatever the state, draining keeps the count of bytes, the width of the stages and what was
      delivered before. */
  lemma {:induction false} DrainAccounts(s: FlowState)
    requires Accounted(s) && Narrow(s)
    ensures var r := Drain(s); Accounted(r) && Narrow(r) && s.delivered <= r.delivered && r.stageEnd == s.stageEnd
    decreases |s.fragments|
  {
    hide OnFragment, SizeSum;
    if Ready(s) {
      var k := First(s.fragments.Keys);
      WithoutShrinks(s.fragments, k);
      TakeAccounts(s, k);
      OnFragmentKeeps(Take(s, k), s.fragments[k]);
      DrainAccounts(OnFragment(Take(s, k), s.fragments[k]));
    }
  }

  /** Draining stops at the first gap, and takes exactly the stages up to it. */
  lemma {:induction false} DrainKeeps(s: FlowState)
    requires Narrow(s) && forall k :: k in s.fragments ==> k > s.stage
    ensures var r := Drain(s);
      && Gapped(r) && r.stage >= s.stage && Narrow(r)
      && r.fragments == AtLeast(s.fragments, r.stage + 1)
      && forall k :: s.stage < k <= r.stage ==> k in s.fragments
    decreases |s.fragments|
  {
    hide OnFragment;
    if Ready(s) {
      var next := s.stage + 1;
      assert First(s.fragments.Keys) == next == Next(s.stage);
      WithoutShrinks(s.fragments, next);
      OnFragmentKeeps(Take(s, next), s.fragments[next]);
      var s1 := OnFragment(Take(s, next), s.fragments[next]);
      DrainKeeps(s1);
      forall k | s.stage < k <= Drain(s).stage ensures k in s.fragments {
        if k != next { assert k in s1.fragments; }
      }
    } else {
      assert AtLeast(s.fragments, s.stage + 1) == s.fragments;
      assert s.fragments != map[] ==> Next(s.stage) == s.stage + 1;
    }
  }

  lemma StoreAccounts(s: FlowState, stage: nat, piece: Piece)
    requires Accounted(s)
    ensures Accounted(Store(s, stage, piece))
  {
    hide SizeSum, U32;
    U32Adds(SizeSum(s.fragments), |piece.payload|);
    var r := Store(s, stage, piece);
    if stage !in s.fragments {
      SizeSumWithout(r.fragments, stage);
      assert Without(r.fragments, stage) == s.fragments;
    }
  }

  lemma SkipAccounts(s: FlowState, stage: nat, end: bool)
    requires Accounted(s)
    ensures Accounted(Skip(s, stage, end))
  {
    hide SizeSum, U32;
    var dropped: int := SizeSum(s.fragments) - SizeSum(AtLeast(s.fragments, Next(stage)));
    U32Adds(SizeSum(s.fragments), -dropped);
  }

  /** Every input of a 64-bit stage, whatever the state, keeps the count of the buffered bytes, the
      width of the stages, and what was delivered. */
  lemma InputAccounts(s: FlowState, stage: nat, piece: Piece)
    requires Accounted(s) && Narrow(s) && stage < STAGE_LIMIT
    ensures var r := Input(s, stage, piece); Accounted(r) && Narrow(r) && s.delivered <= r.delivered
  {
    hide OnFragment, Drain, SizeSum, Skip, Store;
    var e := Ended(s, stage, piece);
    SkipNarrow(e, stage, piece.flags.end);
    SkipAccounts(e, stage, piece.flags.end);
    DrainAccounts(Skip(e, stage, piece.flags.end));
    OnFragmentKeeps(e, piece);
    DrainAccounts(OnFragment(e, piece));
    StoreAccounts(e, stage, piece);
    StoreNarrow(e, stage, piece);
  }

  lemma SkipNarrow(s: FlowState, stage: nat, end: bool)
    requires Narrow(s) && stage < STAGE_LIMIT
    ensures var r := Skip(s, stage, end);
      && Narrow(r) && r.delivered == s.delivered && r.stageEnd == s.stageEnd && r.stage == stage
      && r.fragments == AtLeast(s.fragments, Next(stage))
  {
    hide SizeSum;
  }

  lemma StoreNarrow(s: FlowState, stage: nat, piece: Piece)
    requires Narrow(s) && stage < STAGE_LIMIT
    ensures var r := Store(s, stage, piece);
      && Narrow(r) && r.delivered == s.delivered && r.stage == s.stage && r.stageEnd == s.stageEnd
      && r.fragments.Keys == s.fragments.Keys + {stage}
  {
  }

  /** The last stage of all has no next one: an abandon of it erases nothing, and once the flow is
      there any other input counts as new. */
  predicate Orderly(s: FlowState, stage: nat, piece: Piece) {
    if s.stage == STAGE_LIMIT - 1 then piece.flags.abandon && stage == STAGE_LIMIT - 1
    else
      || (s.stageEnd != 0 && stage > s.stageEnd)
      || !(piece.flags.abandon && stage == STAGE_LIMIT - 1 && s.fragments != map[])
  }

  lemma AbandonOrder(s: FlowState, stage: nat, end: bool)
    requires Narrow(s) && Gapped(s) && s.stage <= stage < STAGE_LIMIT
    ensures var r := Drain(Skip(s, stage, end));
      && r.stage >= stage && (Gapped(r) <==> stage < STAGE_LIMIT - 1 || s.fragments == map[])
  {
    hide OnFragment, Drain, SizeSum;
    SkipNarrow(s, stage, end);
    var k := Skip(s, stage, end);
    if stage < STAGE_LIMIT - 1 || s.fragments == map[] {
      DrainKeeps(k);
    } else {
      assert k.fragments == s.fragments;
      assert !Ready(k);
      assert Drain(k) == k by { DrainStops(k); }
      assert First(k.fragments.Keys) in k.fragments;
    }
  }

  lemma DrainStops(s: FlowState)
    requires !Ready(s)
    ensures Drain(s) == s && DrainTrace(s) == []
  {
  }

  lemma NextOrder(s: FlowState, piece: Piece)
    requires Narrow(s) && Gapped(s) && s.stage < STAGE_LIMIT - 1
    ensures var r := Drain(OnFragment(s, piece)); Gapped(r) && r.stage > s.stage
  {
    hide OnFragment, Drain;
    OnFragmentKeeps(s, piece);
    DrainKeeps(OnFragment(s, piece));
  }

  /** Until the flow completes, an input keeps a gap before what is buffered and does not decrease
      the stage, if and only if it is not about the end of the 64-bit range. */
  lemma InputKeeps(s: FlowState, stage: nat, piece: Piece)
    requires Gapped(s) && Narrow(s) && stage < STAGE_LIMIT && !Completed(s)
    ensures var r := Input(s, stage, piece);
      Gapped(r) && s.stage <= r.stage <==> Orderly(s, stage, piece)
  {
    hide OnFragment, Drain, SizeSum, Skip, Store;
    var e := Ended(s, stage, piece);
    if !(s.stageEnd != 0 && stage > s.stageEnd) && stage >= Next(s.stage) {
      if piece.flags.abandon {
        if s.stage <= stage {
          AbandonOrder(e, stage, piece.flags.end);
        } else {
          LastAbandon(e, stage, piece.flags.end);
        }
      } else if stage > Next(s.stage) {
        StoreNarrow(e, stage, piece);
        assert stage in Store(e, stage, piece).fragments;
      } else if s.stage < STAGE_LIMIT - 1 {
        NextOrder(e, piece);
      } else {
        LastFragment(e, piece);
      }
    }
  }

  /** From the last stage of all, an abandon goes back. */
  lemma LastAbandon(s: FlowState, stage: nat, end: bool)
    requires Gapped(s) && Narrow(s) && s.stage == STAGE_LIMIT - 1 && stage < s.stage
    ensures Drain(Skip(s, stage, end)).stage < s.stage
  {
    hide SizeSum;
    assert s.fragments == map[];
  }

  lemma LastFragment(s: FlowState, piece: Piece)
    requires Gapped(s) && Narrow(s) && s.stage == STAGE_LIMIT - 1
    ensures Drain(OnFragment(s, piece)).stage == 0
  {
    hide OnFragment;
    OnFragmentKeeps(s, piece);
    assert s.fragments == map[];
  }

  /** An abandon of the last stage leaves a buffered fragment behind; then stage 0 counts as next,
      and the flow goes back to it. */
  lemma LastStageBreaks(buffered: Piece, abandon: Piece, again: Piece)
    requires !buffered.flags.abandon && !buffered.flags.end && abandon.flags.abandon && !abandon.flags.end
    requires !again.flags.abandon && !again.flags.end
    ensures var s := Input(Fresh, 2, buffered);
      var r := Input(s, STAGE_LIMIT - 1, abandon);
      && Gapped(s) && !Gapped(r) && r.stage == STAGE_LIMIT - 1 && r.fragments == s.fragments
      && Input(r, 0, again).stage == 0
  {
    hide OnFragment, SizeSum, Skip;
    var s := Input(Fresh, 2, buffered);
    assert s.stage == 0 && s.fragments == map[2 := buffered];
    SkipNarrow(s, STAGE_LIMIT - 1, false);
    var k := Skip(s, STAGE_LIMIT - 1, false);
    assert k.fragments == s.fragments && 2 in k.fragments;
    DrainStops(k);
    OnFragmentKeeps(k, again);
    DrainStops(OnFragment(k, again));
  }

  // ---- Once and in order -------------------------------------------------------------------

  /** The stages from one to another. */
  function Stages(from: nat, to: nat): (stages: seq<nat>)
    requires from <= to
    ensures |stages| == to - from
  {
    seq(to - from, i requires 0 <= i < to - from => from + 1 + i)
  }

  /** The stages given to onFragment while draining. */
  function DrainTrace(s: FlowState): seq<nat>
    decreases |s.fragments|
  {
    if !Ready(s) then []
    else
      var k := First(s.fragments.Keys);
      WithoutShrinks(s.fragments, k);
      [Next(s.stage)] + DrainTrace(OnFragment(Take(s, k), s.fragments[k]))
  }

  /** The stages an input gives to onFragment. */
  function Trace(s: FlowState, stage: nat, piece: Piece): seq<nat> {
    if Completed(s) || Ignored(s, stage) then []
    else
      var s := Ended(s, stage, piece);
      if piece.flags.abandon then DrainTrace(Skip(s, stage, piece.flags.end))
      else if stage > Next(s.stage) then []
      else [Next(s.stage)] + DrainTrace(OnFragment(s, piece))
  }

  /** The stages an input jumps over. */
  function Jump(s: FlowState, stage: nat, piece: Piece): set<nat> {
    if Completed(s) || Ignored(s, stage) || !piece.flags.abandon then {} else Between(s.stage, stage)
  }

  lemma {:induction false} DrainInOrder(s: FlowState)
    requires Narrow(s) && forall k :: k in s.fragments ==> k > s.stage
    ensures Drain(s).stage >= s.stage && DrainTrace(s) == Stages(s.stage, Drain(s).stage)
    decreases |s.fragments|
  {
    hide OnFragment, Drain, DrainTrace, Stages;
    DrainKeeps(s);
    if Ready(s) {
      var next := s.stage + 1;
      assert First(s.fragments.Keys) == next == Next(s.stage);
      DrainTurn(s);
      WithoutShrinks(s.fragments, next);
      OnFragmentKeeps(Take(s, next), s.fragments[next]);
      var s1 := OnFragment(Take(s, next), s.fragments[next]);
      DrainInOrder(s1);
      FirstStage(s.stage, Drain(s).stage);
    } else {
      DrainStops(s);
      NoStages(s.stage);
    }
  }

  /** One turn of the draining. */
  lemma DrainTurn(s: FlowState)
    requires Ready(s)
    ensures var k := First(s.fragments.Keys); var s1 := OnFragment(Take(s, k), s.fragments[k]);
      Drain(s) == Drain(s1) && DrainTrace(s) == [Next(s.stage)] + DrainTrace(s1)
  {
    hide OnFragment;
  }

  lemma FirstStage(from: nat, to: nat)
    requires from < to
    ensures Stages(from, to) == [from + 1] + Stages(from + 1, to)
  {
  }

  /** Where an input leads, its jump, and the stages in between, each once and in order. */
  lemma InputInOrder(s: FlowState, stage: nat, piece: Piece)
    requires Gapped(s) && Narrow(s) && stage < STAGE_LIMIT && !Completed(s) && Orderly(s, stage, piece)
    ensures var r := Input(s, stage, piece);
      var from := if Jump(s, stage, piece) == {} then s.stage else stage;
      && s.stage <= from <= r.stage && Trace(s, stage, piece) == Stages(from, r.stage)
      && Jump(s, stage, piece) == Between(s.stage, from)
  {
    hide OnFragment, Drain, DrainTrace, SizeSum, Skip, Store, Stages;
    InputKeeps(s, stage, piece);
    var e := Ended(s, stage, piece);
    NoStages(s.stage);
    NoStages(stage);
    if Ignored(s, stage) {
    } else if piece.flags.abandon {
      AbandonInOrder(e, stage, piece.flags.end);
      if stage > s.stage { assert stage in Between(s.stage, stage); }
    } else if stage > Next(s.stage) {
      StoreNarrow(e, stage, piece);
    } else {
      NextInOrder(e, piece);
    }
  }

  lemma NoStages(stage: nat)
    ensures Stages(stage, stage) == [] && Between(stage, stage) == {}
  {
  }

  lemma AbandonInOrder(s: FlowState, stage: nat, end: bool)
    requires Gapped(s) && Narrow(s) && s.stage <= stage < STAGE_LIMIT
    requires stage < STAGE_LIMIT - 1 || s.fragments == map[]
    ensures var k := Skip(s, stage, end); Drain(k).stage >= stage && DrainTrace(k) == Stages(stage, Drain(k).stage)
  {
    hide OnFragment, Drain, DrainTrace, SizeSum, Skip, Stages;
    SkipNarrow(s, stage, end);
    DrainInOrder(Skip(s, stage, end));
  }

  lemma NextInOrder(s: FlowState, piece: Piece)
    requires Gapped(s) && Narrow(s) && s.stage < STAGE_LIMIT - 1
    ensures var r := Drain(OnFragment(s, piece));
      && r.stage > s.stage && [Next(s.stage)] + DrainTrace(OnFragment(s, piece)) == Stages(s.stage, r.stage)
  {
    hide OnFragment, Drain, DrainTrace, Stages;
    OnFragmentKeeps(s, piece);
    DrainInOrder(OnFragment(s, piece));
    FirstStage(s.stage, Drain(OnFragment(s, piece)).stage);
  }

  /** What a sequence of inputs leads to: the flow, the stages given to onFragment, those jumped. */
  datatype Log = Log(flow: FlowState, trace: seq<nat>, jumped: set<nat>)

  function InputAll(inputs: seq<(nat, Piece)>): Log {
    if inputs == [] then Log(Fresh, [], {})
    else
      var before := InputAll(inputs[..|inputs| - 1]);
      var (stage, piece) := inputs[|inputs| - 1];
      Log(Input(before.flow, stage, piece), before.trace + Trace(before.flow, stage, piece),
          before.jumped + Jump(before.flow, stage, piece))
  }

  /** The flow was not complete before any of these inputs, and none is about the end of the range. */
  predicate AllOrderly(inputs: seq<(nat, Piece)>) {
    inputs == [] ||
    var (stage, piece) := inputs[|inputs| - 1];
    var before := InputAll(inputs[..|inputs| - 1]).flow;
    AllOrderly(inputs[..|inputs| - 1]) && !Completed(before) && stage < STAGE_LIMIT && Orderly(before, stage, piece)
  }

  /** In order, out of order, twice or abandoned: over any inputs, the stages given to onFragment
      strictly increase, none of them was jumped over, and every stage up to the flow's was either
      given once or jumped over. */
  lemma {:induction false} OnceAndInOrder(inputs: seq<(nat, Piece)>)
    requires AllOrderly(inputs)
    ensures var log := InputAll(inputs);
      && Gapped(log.flow) && Accounted(log.flow) && Narrow(log.flow)
      && (forall i, j :: 0 <= i < j < |log.trace| ==> log.trace[i] < log.trace[j])
      && (forall k :: 1 <= k <= log.flow.stage <==> k in log.trace || k in log.jumped)
      && (forall k :: !(k in log.trace && k in log.jumped))
  {
    hide Input, Trace, Jump, Orderly, SizeSum;
    if inputs == [] {
      assert SizeSum(map[]) == 0 by { NoBytes(); }
    } else {
      var init := inputs[..|inputs| - 1];
      OnceAndInOrder(init);
      var before := InputAll(init);
      var (stage, piece) := inputs[|inputs| - 1];
      InputAccounts(before.flow, stage, piece);
      InputKeeps(before.flow, stage, piece);
      InputInOrder(before.flow, stage, piece);
      Extends(before, Input(before.flow, stage, piece).stage,
              if Jump(before.flow, stage, piece) == {} then before.flow.stage else stage);
    }
  }

  lemma NoBytes()
    ensures SizeSum(map[]) == 0
  {
  }

  /** A jump from the flow's stage, then every stage to the new one. */
  lemma Extends(log: Log, stage: nat, from: nat)
    requires log.flow.stage <= from <= stage
    requires forall i, j :: 0 <= i < j < |log.trace| ==> log.trace[i] < log.trace[j]
    requires forall k :: 1 <= k <= log.flow.stage <==> k in log.trace || k in log.jumped
    requires forall k :: !(k in log.trace && k in log.jumped)
    ensures var trace, jumped := log.trace + Stages(from, stage), log.jumped + Between(log.flow.stage, from);
      && (forall i, j :: 0 <= i < j < |trace| ==> trace[i] < trace[j])
      && (forall k :: 1 <= k <= stage <==> k in trace || k in jumped)
      && (forall k :: !(k in trace && k in jumped))
  {
    var more := Stages(from, stage);
    forall k ensures k in more <==> from < k <= stage {
      if from < k <= stage { assert more[k - from - 1] == k; }
    }
    forall i | 0 <= i < |log.trace| ensures log.trace[i] <= log.flow.stage {
      assert log.trace[i] in log.trace;
    }
  }

  // ---- Where the bytes go ------------------------------------------------------------------

  function TotalSize(messages: seq<seq<byte>>): nat {
    if messages == [] then 0 else TotalSize(messages[..|messages| - 1]) + |messages[|messages| - 1]|
  }

  lemma TotalSizeSnoc(messages: seq<seq<byte>>, message: seq<byte>)
    ensures TotalSize(messages + [message]) == TotalSize(messages) + |message|
  {
    assert (messages + [message])[..|messages|] == messages;
  }

  /** The bytes delivered, collected, buffered and lost. */
  function Volume(s: FlowState): nat {
    TotalSize(s.delivered) + (if s.buffer.Some? then |s.buffer.value| else 0) + SizeSum(s.fragments) + s.lost
  }

  /** The bytes an input brings: none when it is ignored, was buffered before, or abandons. */
  function Accepted(s: FlowState, stage: nat, piece: Piece): nat {
    if Completed(s) || Ignored(s, stage) || piece.flags.abandon || (stage > Next(s.stage) && stage in s.fragments) then 0
    else |piece.payload|
  }

  /** What an abandon counts for what never came: a packet a stage, and half of one unless it ends
      the flow. */
  function Estimate(s: FlowState, stage: nat, piece: Piece): int {
    if Completed(s) || Ignored(s, stage) || !piece.flags.abandon then 0
    else (stage - Next(s.stage)) * SIZE_PACKET + (if piece.flags.end then 0 else SIZE_PACKET / 2)
  }

  /** The 32-bit count of lost bytes may have wrapped around. */
  lemma LostWraps(rest: int, lost: int)
    ensures U32(rest + U32(lost)) == U32(rest + lost)
  {
    U32Adds(lost, rest);
  }

  lemma OnFragmentVolume(s: FlowState, piece: Piece)
    ensures U32(Volume(OnFragment(s, piece))) == U32(Volume(s) + |piece.payload|)
  {
    hide SizeSum, TotalSize, U32;
    var rest := Volume(s) - s.lost;
    LostWraps(rest, s.lost + |piece.payload|);
    TotalSizeSnoc(s.delivered, piece.payload);
    if s.buffer.Some? { TotalSizeSnoc(s.delivered, s.buffer.value + piece.payload); }
  }

  lemma TakeVolume(s: FlowState, k: nat)
    requires k in s.fragments
    ensures Volume(Take(s, k)) == Volume(s) - |s.fragments[k].payload|
  {
    hide SizeSum, TotalSize, U32;
    SizeSumWithout(s.fragments, k);
  }

  lemma {:induction false} DrainVolume(s: FlowState)
    ensures U32(Volume(Drain(s))) == U32(Volume(s))
    decreases |s.fragments|
  {
    hide OnFragment, Volume, U32, Drain;
    if Ready(s) {
      var k := First(s.fragments.Keys);
      WithoutShrinks(s.fragments, k);
      DrainTurn(s);
      TakeVolume(s, k);
      OnFragmentKeeps(Take(s, k), s.fragments[k]);
      OnFragmentVolume(Take(s, k), s.fragments[k]);
      DrainVolume(OnFragment(Take(s, k), s.fragments[k]));
    } else {
      DrainStops(s);
    }
  }

  lemma SkipVolume(s: FlowState, stage: nat, end: bool)
    ensures U32(Volume(Skip(s, stage, end)))
         == U32(Volume(s) + (stage - Next(s.stage)) * SIZE_PACKET + (if end then 0 else SIZE_PACKET / 2))
  {
    hide SizeSum, TotalSize, U32;
    var kept := SizeSum(AtLeast(s.fragments, Next(stage)));
    var missed := (stage - Next(s.stage)) * SIZE_PACKET + (if end then 0 else SIZE_PACKET / 2);
    var collected := if s.buffer.Some? then |s.buffer.value| else 0;
    LostWraps(TotalSize(s.delivered) + kept, s.lost + missed + (SizeSum(s.fragments) - kept) + collected);
  }

  lemma StoreVolume(s: FlowState, stage: nat, piece: Piece)
    ensures Volume(Store(s, stage, piece)) == Volume(s) + if stage in s.fragments then 0 else |piece.payload|
  {
    hide SizeSum, TotalSize, U32;
    var r := Store(s, stage, piece);
    if stage !in s.fragments {
      SizeSumWithout(r.fragments, stage);
      assert Without(r.fragments, stage) == s.fragments;
    }
  }

  lemma CompleteVolume(s: FlowState)
    ensures Volume(Complete(s)) == Volume(s)
  {
    hide SizeSum, TotalSize;
    TotalSizeSnoc(s.delivered, []);
  }

  /** Every byte that is accepted is delivered, collected, buffered or lost, and no other is, but for
      what an abandon estimates; in the 32 bits of the count of lost bytes. */
  lemma InputConserves(s: FlowState, stage: nat, piece: Piece)
    ensures U32(Volume(Input(s, stage, piece))) == U32(Volume(s) + Accepted(s, stage, piece) + Estimate(s, stage, piece))
  {
    hide OnFragment, Drain, Skip, Store, Volume, Complete, U32;
    var e := Ended(s, stage, piece);
    assert Volume(e) == Volume(s) && Volume(s.(stage := stage)) == Volume(s) by { SameVolume(s, stage, piece); }
    if !Completed(s) && !Ignored(s, stage) {
      if piece.flags.abandon {
        SkipVolume(e, stage, piece.flags.end);
        DrainVolume(Skip(e, stage, piece.flags.end));
        CompleteVolume(Drain(Skip(e, stage, piece.flags.end)));
      } else if stage > Next(s.stage) {
        StoreVolume(e, stage, piece);
      } else {
        OnFragmentVolume(e, piece);
        DrainVolume(OnFragment(e, piece));
        CompleteVolume(Drain(OnFragment(e, piece)));
      }
    }
  }

  lemma SameVolume(s: FlowState, stage: nat, piece: Piece)
    ensures Volume(Ended(s, stage, piece)) == Volume(s) && Volume(s.(stage := stage)) == Volume(s)
  {
  }

  // ---- The end ------------------------------------------------------------------------------

  predicate NoneEmptyIn(messages: seq<seq<byte>>) {
    forall i :: 0 <= i < |messages| ==> messages[i] != []
  }

  /** The stream was closed at most once, and nothing came after. */
  predicate ClosedLast(s: FlowState) {
    || NoneEmptyIn(s.delivered)
    || (Completed(s) && |s.delivered| > 0 && s.delivered[|s.delivered| - 1] == []
        && NoneEmptyIn(s.delivered[..|s.delivered| - 1]))
  }

  lemma OnFragmentOpen(s: FlowState, piece: Piece)
    requires NoneEmptyIn(s.delivered)
    ensures NoneEmptyIn(OnFragment(s, piece).delivered)
  {
  }

  lemma {:induction false} DrainOpen(s: FlowState)
    requires NoneEmptyIn(s.delivered)
    ensures NoneEmptyIn(Drain(s).delivered)
    decreases |s.fragments|
  {
    hide OnFragment, Drain, NoneEmptyIn;
    if Ready(s) {
      var k := First(s.fragments.Keys);
      WithoutShrinks(s.fragments, k);
      DrainTurn(s);
      OnFragmentKeeps(Take(s, k), s.fragments[k]);
      OnFragmentOpen(Take(s, k), s.fragments[k]);
      DrainOpen(OnFragment(Take(s, k), s.fragments[k]));
    } else {
      DrainStops(s);
    }
  }

  /** An empty message closes the stream: no input gives a second one, or anything after it; and what
      is completed delivers no more. */
  lemma InputCloses(s: FlowState, stage: nat, piece: Piece)
    requires ClosedLast(s)
    ensures var r := Input(s, stage, piece);
      ClosedLast(r) && (Completed(s) ==> Completed(r) && r.delivered == s.delivered)
  {
    hide OnFragment, Drain, SizeSum, Store, U32;
    var e := Ended(s, stage, piece);
    if !Completed(s) && !Ignored(s, stage) {
      if piece.flags.abandon {
        DrainOpen(Skip(e, stage, piece.flags.end));
      } else if stage > Next(s.stage) {
        assert Store(e, stage, piece).delivered == s.delivered by { StoreDelivers(e, stage, piece); }
      } else {
        OnFragmentOpen(e, piece);
        DrainOpen(OnFragment(e, piece));
      }
    }
  }

  lemma StoreDelivers(s: FlowState, stage: nat, piece: Piece)
    ensures Store(s, stage, piece).delivered == s.delivered
  {
  }

  // ---- Acknowledgement ranges --------------------------------------------------------------

  /** The last key of the run of consecutive keys starting at k. */
  function RunEnd(keys: set<nat>, k: nat): (e: nat)
    requires k in keys
    ensures k <= e && e in keys && e + 1 !in keys
    ensures forall j :: k <= j <= e ==> j in keys
    decreases keys - (set j | j in keys && j <= k)
  {
    if k + 1 in keys then
      assert (set j | j in keys && j <= k + 1) == (set j | j in keys && j <= k) + {k + 1};
      RunEnd(keys, k + 1)
    else k
  }

  /** Pairs of a hole and a run, each less one, after the cumulative stage, in 64 bits. */
  function Ranges(keys: set<nat>, stage: nat): (losts: seq<int>)
    decreases keys
  {
    if keys == {} then []
    else
      var k := First(keys);
      var e := RunEnd(keys, k);
      assert k !in From(keys, e + 1);
      [(k - stage - 2) % STAGE_LIMIT, e - k] + Ranges(From(keys, e + 1), e)
  }

  /** Section 2.3.14 of RFC 7016: each pair is a count of missing stages less one and a count of
      received stages less one. Does this reading report stage k as received? */
  predicate Reports(losts: seq<int>, stage: int, k: int)
  {
    |losts| >= 2 &&
    var first := stage + (losts[0] + 1) + 1;
    var last := first + losts[1];
    first <= k <= last || Reports(losts[2..], last, k)
  }

  /** The ranges say exactly which stages are buffered, and the first is the first hole's width. */
  lemma {:induction false} RangesLossless(keys: set<nat>, stage: nat)
    requires forall k :: k in keys ==> stage + 2 <= k < STAGE_LIMIT
    ensures var losts := Ranges(keys, stage);
      && (forall i :: 0 <= i < |losts| ==> losts[i] >= 0)
      && (forall k :: Reports(losts, stage, k) <==> k in keys)
      && (losts == [] <==> keys == {})
      && (keys != {} ==> losts[0] + 1 == First(keys) - (stage + 1))
    decreases keys
  {
    if keys != {} {
      var k := First(keys);
      var e := RunEnd(keys, k);
      var rest := From(keys, e + 1);
      assert k !in rest;
      RangesLossless(rest, e);
      assert Ranges(keys, stage)[2..] == Ranges(rest, e);
      forall j ensures Reports(Ranges(keys, stage), stage, j) <==> j in keys {
        assert Reports(Ranges(keys, stage), stage, j) <==> k <= j <= e || Reports(Ranges(rest, e), e, j);
      }
    }
  }
}
