/** What a receiver keeps when it is given fragments of one flow's history, in any order and any
    number of times, and jumps over abandoned ones. */
module Receiving {
  import opened Bytes
  import opened OrderedMap
  import opened Wire
  import opened Flow
  import opened Stages
  import opened Reassembly

  /** Stage k arrived, or was jumped over. */
  predicate Have(f: FlowState, k: nat) {
    1 <= k && (k <= f.stage || k in f.fragments)
  }

  predicate NoEnd(log: seq<Slot>) {
    forall i :: 0 <= i < |log| ==> log[i].payload != []
  }

  predicate UnreliableBetween(log: seq<Slot>, from: nat, to: nat) {
    to <= |log| && forall i :: from <= i < to ==> !log[i].reliable
  }

  /** The buffered fragments are those of the history. */
  predicate Buffered(fragments: map<nat, Piece>, log: seq<Slot>) {
    forall k :: k in fragments ==> 1 <= k <= |log| && Matches(fragments[k], log[k - 1])
  }

  predicate Skippable(skipped: set<nat>, stage: nat, log: seq<Slot>) {
    forall k :: k in skipped ==> 1 <= k <= stage <= |log| && !log[k - 1].reliable
  }

  /** Apart from the buffered fragments, the flow is where reassembling the history up to its stage,
      but for the skipped stages, leads. */
  predicate Reassembled(f: FlowState, log: seq<Slot>, skipped: set<nat>) {
    && f.stage <= |log| < STAGE_MAX && f.stageEnd == 0
    && Reassemble(log, skipped, f.stage) == Assembly(f.buffer, f.delivered)
  }

  predicate Sound(f: FlowState, log: seq<Slot>, skipped: set<nat>) {
    Gapped(f) && Buffered(f.fragments, log) && Reassembled(f, log, skipped) && Skippable(skipped, f.stage, log)
  }

  lemma OnFragmentReassembles(f: FlowState, piece: Piece, log: seq<Slot>, skipped: set<nat>)
    requires Reassembled(f, log, skipped) && Skippable(skipped, f.stage, log)
    requires f.stage < |log| && Matches(piece, log[f.stage]) && log[f.stage].payload != []
    ensures var r := OnFragment(f, piece);
      && Reassembled(r, log, skipped) && Skippable(skipped, r.stage, log)
      && r.stage == f.stage + 1 && r.fragments == f.fragments
  {
  }

  lemma {:induction false} DrainReassembles(f: FlowState, log: seq<Slot>, skipped: set<nat>)
    requires Reassembled(f, log, skipped) && Skippable(skipped, f.stage, log) && Buffered(f.fragments, log) && NoEnd(log)
    requires forall k :: k in f.fragments ==> k > f.stage
    ensures Sound(Drain(f), log, skipped) && f.stage <= Drain(f).stage
    ensures forall k: nat :: Have(Drain(f), k) <==> Have(f, k)
    decreases |f.fragments|
  {
    hide OnFragment, Reassembled;
    FewerStages(f, log, skipped);
    DrainKeeps(f);
    if Ready(f) {
      var next := f.stage + 1;
      WithoutShrinks(f.fragments, next);
      var taken := Take(f, next);
      TakeReassembles(f, next, log, skipped);
      OnFragmentReassembles(taken, f.fragments[next], log, skipped);
      DrainReassembles(OnFragment(taken, f.fragments[next]), log, skipped);
    }
  }

  /** Below the last stage of all, the next one is the one after. */
  lemma FewerStages(f: FlowState, log: seq<Slot>, skipped: set<nat>)
    requires Reassembled(f, log, skipped) && Buffered(f.fragments, log)
    ensures Narrow(f) && f.stageEnd == 0 && f.stage <= |log| < STAGE_MAX && Next(f.stage) == f.stage + 1
    ensures Ready(f) && (forall k :: k in f.fragments ==> k > f.stage) ==> First(f.fragments.Keys) == f.stage + 1
  {
  }

  lemma TakeReassembles(f: FlowState, k: nat, log: seq<Slot>, skipped: set<nat>)
    requires Reassembled(f, log, skipped) && k in f.fragments
    ensures Reassembled(Take(f, k), log, skipped) && f.stage <= |log|
  {
  }

  /** A fragment of the history, whatever its stage, adds exactly that stage. */
  lemma FragmentReceived(f: FlowState, stage: nat, piece: Piece, log: seq<Slot>, skipped: set<nat>)
    requires Sound(f, log, skipped) && NoEnd(log)
    requires 1 <= stage <= |log| && Matches(piece, log[stage - 1])
    ensures var r := Input(f, stage, piece);
      && Sound(r, log, skipped) && f.stage <= r.stage
      && forall k: nat :: Have(r, k) <==> Have(f, k) || k == stage
  {
    hide OnFragment, Drain, Reassemble;
    FewerStages(f, log, skipped);
    assert f.stageEnd == 0 && !piece.flags.end && !piece.flags.abandon;
    if stage == f.stage + 1 {
      OnFragmentReassembles(f, piece, log, skipped);
      DrainReassembles(OnFragment(f, piece), log, skipped);
    }
  }

  /** An abandon of unreliable fragments skips those before its stage, and only those. */
  lemma AbandonReceived(f: FlowState, stage: nat, piece: Piece, log: seq<Slot>, skipped: set<nat>)
    requires Sound(f, log, skipped) && NoEnd(log)
    requires piece.flags.abandon && !piece.flags.end && UnreliableBetween(log, f.stage, stage)
    ensures var r := Input(f, stage, piece);
      && Sound(r, log, skipped + Between(f.stage, stage)) && f.stage <= r.stage
      && forall k: nat :: Have(r, k) <==> Have(f, k) || 1 <= k <= stage
  {
    hide OnFragment, Drain, Reassemble, SizeSum, Skip, Skippable, Buffered, Matches;
    FewerStages(f, log, skipped);
    if stage > f.stage {
      SkipReassembles(f, stage, log, skipped);
      DrainReassembles(Skip(f, stage, false), log, skipped + Between(f.stage, stage));
    } else {
      assert skipped + Between(f.stage, stage) == skipped;
    }
  }

  /** The jump itself. */
  lemma SkipReassembles(f: FlowState, stage: nat, log: seq<Slot>, skipped: set<nat>)
    requires Sound(f, log, skipped) && f.stage < stage && UnreliableBetween(log, f.stage, stage)
    ensures var r := Skip(f, stage, false); var all := skipped + Between(f.stage, stage);
      && Reassembled(r, log, all) && Skippable(all, stage, log) && Buffered(r.fragments, log) && r.stage == stage
      && (forall k :: k in r.fragments ==> k > stage)
      && (forall k: nat :: Have(r, k) <==> Have(f, k) || 1 <= k <= stage)
  {
    hide Reassemble, Skip, Buffered;
    FewerStages(f, log, skipped);
    SkipNarrow(f, stage, false);
    SkipForgets(f, stage, log);
    var all := skipped + Between(f.stage, stage);
    ReassembleFrame(log, skipped, log, all, f.stage);
    ReassembleSkipped(log, all, f.stage, stage);
  }

  lemma SkipForgets(f: FlowState, stage: nat, log: seq<Slot>)
    requires Buffered(f.fragments, log)
    ensures var r := Skip(f, stage, false);
      r.buffer == None && r.delivered == f.delivered && Buffered(r.fragments, log)
  {
    hide SizeSum, U32, Matches;
  }

  /** The end of a flow, numbered after its whole history, completes it at once: what was buffered
      or never came is skipped, reliable or not. */
  lemma EndReceived(f: FlowState, piece: Piece, log: seq<Slot>, skipped: set<nat>)
    requires Sound(f, log, skipped) && piece.flags.abandon && piece.flags.end && |log| + 1 < STAGE_MAX
    ensures var r := Input(f, |log| + 1, piece);
      && Completed(r) && r.stage == |log| + 1 && r.delivered == f.delivered + [[]]
      && r.delivered == Reassemble(log, skipped + Between(f.stage, |log|), |log|).delivered + [[]]
  {
    hide OnFragment, Reassemble, SizeSum;
    var all := skipped + Between(f.stage, |log|);
    ReassembleFrame(log, skipped, log, all, f.stage);
    if f.stage < |log| { ReassembleSkipped(log, all, f.stage, |log|); }
    var s := f.(stageEnd := |log| + 1);
    FewerStages(f, log, skipped);
    assert AtLeast(s.fragments, |log| + 2) == map[];
    assert Skip(s, |log| + 1, true).fragments == map[];
  }
}
