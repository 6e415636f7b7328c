/** The flow object itself: its loops over the ordered buffer refine the functions of module Flow. */
module RtmfpFlow {
  import opened Bytes
  import opened OrderedMap
  import opened Wire
  import opened Flow

  lemma {:induction false} EncodeRangesSnoc(losts: seq<uint64>, v: uint64)
    ensures EncodeRanges(losts + [v]) == EncodeRanges(losts) + E7(v)
  {
    hide E7;
    if losts == [] {
      assert losts + [v] == [v];
    } else {
      EncodeRangesSnoc(losts[1..], v);
      assert (losts + [v])[1..] == losts[1..] + [v];
    }
  }

  class RTMFPFlow {
    var stage: nat
    var stageEnd: nat
    var fragments: map<nat, Piece>
    var buffer: Option<seq<byte>>
    var lost: uint32
    var fragmentation: uint32
    /** The messages handed to the stream. */
    var delivered: seq<seq<byte>>

    function State(): FlowState
      reads this
    {
      FlowState(stage, stageEnd, fragments, buffer, lost, fragmentation, delivered)
    }

    ghost predicate Valid()
      reads this
    {
      Accounted(State()) && Narrow(State())
    }

    constructor ()
      ensures State() == Fresh && Valid()
    {
      stage, stageEnd, fragments, buffer := 0, 0, map[], None;
      lost, fragmentation, delivered := 0, 0, [];
    }

    /** RTMFPFlow::output */
    method Output(message: seq<byte>)
      modifies this
      ensures State() == old(State()).(delivered := old(delivered) + [message])
    {
      delivered := delivered + [message];
    }

    method OnFragment(next: nat, piece: Piece)
      requires next == Next(stage)
      modifies this
      ensures State() == Flow.OnFragment(old(State()), piece)
    {
      stage := next;
      if buffer.Some? {
        buffer := Some(buffer.value + piece.payload);
        if piece.flags.after { return; }
        var message := buffer.value;
        buffer := None;
        if message != [] { Output(message); }
        return;
      }
      if piece.flags.before {
        lost := U32(lost + |piece.payload|);
        return;
      }
      if piece.flags.after {
        buffer := Some(piece.payload);
        return;
      }
      if piece.payload != [] { Output(piece.payload); }
    }

    /** Erases the buffered fragments before a bound, and counts their bytes as lost. */
    method EraseObsolete(bound: nat, missed: uint32) returns (lost: uint32)
      modifies this
      ensures var dropped := SizeSum(old(fragments)) - SizeSum(AtLeast(old(fragments), bound));
        && State() == old(State()).(fragments := AtLeast(old(fragments), bound), fragmentation := U32(old(fragmentation) - dropped))
        && lost == U32(missed + dropped)
    {
      hide SizeSum, U32;
      ghost var dropped := 0;
      lost := missed;
      SameWord(missed);
      SameWord(fragmentation);
      while fragments != map[] && First(fragments.Keys) < bound
        invariant State() == old(State()).(fragments := fragments, fragmentation := fragmentation)
        invariant fragmentation == U32(old(fragmentation) - dropped) && lost == U32(missed + dropped)
        invariant dropped == SizeSum(old(fragments)) - SizeSum(fragments)
        invariant AtLeast(fragments, bound) == AtLeast(old(fragments), bound)
        decreases |fragments|
      {
        var it := First(fragments.Keys);
        var size := |fragments[it].payload|;
        WithoutShrinks(fragments, it);
        SizeSumWithout(fragments, it);
        AtLeastWithout(fragments, it, bound);
        U32Adds(missed + dropped, size);
        U32Adds(old(fragmentation) - dropped, -size);
        lost, fragmentation := U32(lost + size), U32(fragmentation - size);
        fragments := Without(fragments, it);
        dropped := dropped + size;
      }
      assert fragments == AtLeast(fragments, bound);
    }

    /** The jump of an abandon: what is missed, what is dropped from the buffer and what the
        message under reassembly had collected is lost, in 32 bits. */
    method Abandon(received: nat, nextStage: nat, end: bool) returns (next: nat)
      requires nextStage == Next(stage)
      modifies this
      ensures State() == Skip(old(State()), received, end) && next == Next(received)
    {
      hide SizeSum, AtLeast, U32;
      ghost var distance := received - nextStage;
      var lost := U32(((received - nextStage) % STAGE_LIMIT) * SIZE_PACKET);
      MissedInWords(distance);
      ghost var total := distance * SIZE_PACKET;
      if !end {
        U32Adds(total, SIZE_PACKET / 2);
        total := total + SIZE_PACKET / 2;
        lost := U32(lost + SIZE_PACKET / 2);
      }
      next := (received + 1) % STAGE_LIMIT;
      ghost var dropped := SizeSum(fragments) - SizeSum(AtLeast(fragments, next));
      U32Adds(total, dropped);
      lost := EraseObsolete(next, lost);
      total := total + dropped;
      if buffer.Some? {
        U32Adds(total, |buffer.value|);
        total := total + |buffer.value|;
        lost := U32(lost + |buffer.value|);
        buffer := None;
      }
      U32Adds(total, this.lost);
      this.lost := U32(this.lost + lost);
      stage := received;
    }

    /** The first buffered fragment is delivered as the next stage, and erased. */
    method DrainOne(nextStage: nat)
      requires nextStage == Next(stage) && fragments != map[]
      modifies this
      ensures var it := First(old(fragments).Keys);
        State() == Flow.OnFragment(Take(old(State()), it), old(fragments)[it])
    {
      hide Flow.OnFragment;
      var it := First(fragments.Keys);
      var fragment := fragments[it];
      OnFragmentKeeps(State(), fragment);
      OnFragmentTakes(State(), it);
      OnFragment(nextStage, fragment);
      fragmentation := U32(fragmentation - |fragment.payload|);
      fragments := Without(fragments, it);
    }

    /** Delivers the buffered fragments that follow without a gap. */
    method DrainFragments(next: nat)
      requires next == Next(stage)
      modifies this
      ensures State() == Drain(old(State()))
    {
      hide Flow.OnFragment, Drain;
      var nextStage := next;
      while fragments != map[] && First(fragments.Keys) <= nextStage
        invariant nextStage == Next(stage)
        invariant Drain(State()) == Drain(old(State()))
        decreases |fragments|
      {
        ghost var before := State();
        var it := First(fragments.Keys);
        WithoutShrinks(fragments, it);
        DrainTurn(before);
        OnFragmentKeeps(Take(before, it), before.fragments[it]);
        DrainOne(nextStage);
        nextStage := (nextStage + 1) % STAGE_LIMIT;
      }
      DrainStops(State());
    }

    method Input(received: nat, piece: Piece)
      requires Valid() && received < STAGE_LIMIT
      modifies this
      ensures State() == Flow.Input(old(State()), received, piece)
      ensures Valid()
    {
      hide Flow.OnFragment, Drain, SizeSum, Skip;
      InputAccounts(State(), received, piece);
      if stageEnd != 0 {
        if fragments == map[] {
          stage := received;
          return;
        }
        if received > stageEnd { return; }
      } else if piece.flags.end {
        stageEnd := received;
      }
      var nextStage := (stage + 1) % STAGE_LIMIT;
      if received < nextStage { return; }
      if piece.flags.abandon {
        nextStage := Abandon(received, nextStage, piece.flags.end);
        SkipStage(old(State()), received, piece);
      } else if received > nextStage {
        if received !in fragments {
          fragments := fragments[received := piece];
          fragmentation := U32(fragmentation + |piece.payload|);
        }
        return;
      } else {
        OnFragmentKeeps(State(), piece);
        OnFragment(nextStage, piece);
        nextStage := (nextStage + 1) % STAGE_LIMIT;
      }
      DrainFragments(nextStage);
      if fragments == map[] && stageEnd != 0 { Output([]); }
    }

    /** Counts the buffered stages that follow k without a gap, and moves past them. */
    static method CountRun(keys: set<nat>, k: nat) returns (buffered: nat, it: Option<nat>)
      requires k in keys
      ensures k + buffered == RunEnd(keys, k)
      ensures it == LowerBound(keys, k + buffered + 1)
    {
      buffered := 0;
      it := LowerBound(keys, k + 1);
      while it.Some? && it.value == k + buffered + 1
        invariant k + buffered in keys && RunEnd(keys, k) == RunEnd(keys, k + buffered)
        invariant it == LowerBound(keys, k + buffered + 1)
        decreases |From(keys, k + buffered + 1)|
      {
        FromShrinks(keys, k + buffered + 1);
        buffered := buffered + 1;
        it := LowerBound(keys, k + buffered + 1);
      }
    }

    /** The cumulative stage, the ranges after it, and their encoded length as the 16-bit counter
        holds it. */
    method BuildAck() returns (ack: nat, losts: seq<int>, size: nat)
      requires Valid()
      ensures ack == stage
      ensures losts == Ranges(fragments.Keys, stage)
      ensures AllWide(losts) && size == |EncodeRanges(losts)| % 0x1_0000
    {
      hide Ranges, RunEnd, EncodeRanges, E7, Accounted;
      var keys := fragments.Keys;
      ghost var bound: nat := 0;
      var current: nat := stage;
      var it := LowerBound(keys, 0);
      losts, size := [], 0;
      assert From(keys, 0) == keys;
      RangesNone(current);
      while it.Some?
        invariant it == LowerBound(keys, bound)
        invariant current < STAGE_LIMIT
        invariant AllWide(losts) && size == |EncodeRanges(losts)| % 0x1_0000
        invariant Ranges(keys, stage) == losts + Ranges(From(keys, bound), current)
        decreases |From(keys, bound)|
      {
        var k := it.value;
        var hole := (k - current - 2) % STAGE_LIMIT;
        RangesStep(keys, bound, current);
        PushRange(losts, size, hole);
        size := (size + |E7(hole)|) % 0x1_0000;
        losts := losts + [hole];
        var buffered;
        buffered, it := CountRun(keys, k);
        PushRange(losts, size, buffered);
        size := (size + |E7(buffered)|) % 0x1_0000;
        losts := losts + [buffered];
        current := k + buffered;
        bound := current + 1;
      }
      assert From(keys, bound) == {};
      RangesNone(current);
      ack := stage;
    }
  }

  predicate AllWide(losts: seq<int>) {
    forall i :: 0 <= i < |losts| ==> 0 <= losts[i] < 0x1_0000_0000_0000_0000
  }

  lemma RangesNone(stage: nat)
    ensures Ranges({}, stage) == [] && EncodeRanges([]) == []
  {
  }

  lemma RunUnique(keys: set<nat>, k: nat, e: nat)
    requires k <= e && (forall j :: k <= j <= e ==> j in keys) && e + 1 !in keys
    ensures RunEnd(keys, k) == e
  {
    var r := RunEnd(keys, k);
    assert !(r < e) && !(e < r);
  }

  /** One turn of the loop: the hole before the next buffered stage, its run, and what is left. */
  lemma RangesStep(keys: set<nat>, bound: nat, current: nat)
    requires LowerBound(keys, bound).Some?
    ensures var k := LowerBound(keys, bound).value;
      var e := RunEnd(keys, k);
      && Ranges(From(keys, bound), current) == [(k - current - 2) % STAGE_LIMIT, e - k] + Ranges(From(keys, e + 1), e)
      && e in keys && e >= k
      && |From(keys, e + 1)| < |From(keys, bound)|
  {
    hide Ranges;
    var left := From(keys, bound);
    var k := LowerBound(keys, bound).value;
    var e := RunEnd(keys, k);
    assert k in left && First(left) == k;
    RunUnique(left, k, e);
    assert From(left, e + 1) == From(keys, e + 1);
    assert k !in From(keys, e + 1);
    SubsetShrinks(From(keys, e + 1), left);
    RangesUnfold(left, current);
  }

  lemma RangesUnfold(keys: set<nat>, stage: nat)
    requires keys != {}
    ensures var k := First(keys);
      Ranges(keys, stage) == [(k - stage - 2) % STAGE_LIMIT, RunEnd(keys, k) - k] + Ranges(From(keys, RunEnd(keys, k) + 1), RunEnd(keys, k))
  {
  }

  lemma PushRange(losts: seq<int>, size: nat, v: int)
    requires AllWide(losts) && size == |EncodeRanges(losts)| % 0x1_0000
    requires 0 <= v < 0x1_0000_0000_0000_0000
    ensures AllWide(losts + [v])
    ensures (size + |E7(v)|) % 0x1_0000 == |EncodeRanges(losts + [v])| % 0x1_0000
  {
    hide E7, EncodeRanges;
    EncodeRangesSnoc(losts, v);
  }

  lemma AtLeastWithout(fragments: map<nat, Piece>, k: nat, bound: nat)
    requires k < bound
    ensures AtLeast(Without(fragments, k), bound) == AtLeast(fragments, bound)
  {
  }

  lemma SameWord(v: uint32)
    ensures U32(v - 0) == v && U32(v + 0) == v
  {
  }

  /** The product of a 64-bit distance, cut to 32 bits, is that of the distance itself. */
  lemma MissedInWords(distance: int)
    ensures U32(distance % STAGE_LIMIT * SIZE_PACKET) == U32(distance * SIZE_PACKET)
  {
    var q := distance / STAGE_LIMIT;
    Remainder(distance % STAGE_LIMIT * SIZE_PACKET, 0x1_0000_0000, q * 0x1_0000_0000 * SIZE_PACKET);
  }

  lemma SkipStage(s: FlowState, stage: nat, piece: Piece)
    requires Narrow(s)
    ensures Skip(Ended(s, stage, piece), stage, piece.flags.end).stage == stage
  {
  }

  lemma OnFragmentTakes(s: FlowState, k: nat)
    requires k in s.fragments
    ensures var r := Flow.OnFragment(s, s.fragments[k]);
      r.(fragments := Without(r.fragments, k), fragmentation := U32(r.fragmentation - |s.fragments[k].payload|))
      == Flow.OnFragment(Take(s, k), s.fragments[k])
  {
  }
}
