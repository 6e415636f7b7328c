/** GroupBuffer's own objects: the buffer of one media, whose loops refine module GroupMerge. */
module GroupBuffering {
  import opened Bytes
  import opened OrderedMap
  import opened GroupFragments
  import opened GroupMerge

  class MediaBuffer {
    var fragments: map<nat, Fragment>
    var currentId: nat
    var started: bool
    /** The packets that came out. */
    var result: seq<Emission>

    function State(): BufferState
      reads this
    {
      BufferState(fragments, currentId, started)
    }

    constructor ()
      ensures State() == NewBuffer && result == []
    {
      fragments, currentId, started, result := map[], 0, false, [];
    }

    /** Walks back to the start fragment. */
    method SearchStart(k: nat) returns (start: Option<nat>)
      requires k in fragments
      ensures start == FindStart(fragments, k)
    {
      var s := k;
      while !fragments[s].marker.Start?
        invariant s in fragments && FindStart(fragments, s) == FindStart(fragments, k)
        decreases s
      {
        if s == 0 || s - 1 !in fragments { return None; }
        s := s - 1;
      }
      start := Some(s);
    }

    /** The last of the fragments announced, when they are all there. */
    method SearchEnd(start: nat) returns (end: Option<nat>)
      requires start in fragments
      ensures end == if Present(fragments, start, Count(fragments[start])) then Some(start + Count(fragments[start]) - 1) else None
    {
      var nbFragments := (fragments[start].splittedId + 1) % 256;
      var it := start;
      var i := 1;
      while i < nbFragments
        invariant 1 <= i && (i <= nbFragments || nbFragments == 0) && it == start + i - 1
        invariant nbFragments == 0 ==> i == 1
        invariant Present(fragments, start, i)
      {
        var next := LowerBound(fragments.Keys, it + 1);
        if next.None? || next.value != start + i {
          assert start + i !in fragments.Keys;
          return None;
        }
        it := next.value;
        i := i + 1;
      }
      end := Some(it);
    }

    /** The contents of the fragments from start to end, one after the other. */
    method Merge(start: nat, end: nat) returns (content: seq<byte>)
      requires start <= end && Present(fragments, start, end - start + 1)
      ensures content == Joined(fragments, start, end - start + 1)
    {
      content := [];
      var current := start;
      while true
        invariant start <= current <= end && content == Joined(fragments, start, current - start)
        decreases end - current
      {
        content := content + fragments[current].payload;
        if current == end { return; }
        current := current + 1;
      }
    }

    /** Is a packet to come out with this fragment? `last` is where the loop is then. */
    method ProcessFragment(it: nat) returns (more: bool, last: nat)
      requires it in fragments && it >= 1
      modifies this
      ensures State() == GroupMerge.ProcessFragment(old(State()), it).buffer
      ensures more <==> GroupMerge.ProcessFragment(old(State()), it).emitted.Some?
      ensures more ==> last == currentId && result == old(result) + [GroupMerge.ProcessFragment(old(State()), it).emitted.value]
      ensures !more ==> result == old(result)
    {
      hide FindStart, Joined;
      more, last := false, it;
      var f := fragments[it];
      if f.marker.Data? || (f.marker.End? && it == currentId + 1) {
        if currentId == 0 || it == currentId + 1 {
          currentId := it;
          result := result + [Emission(it, it, Media(f.kind, f.time, f.payload))];
          more := true;
        }
        return;
      }
      if currentId == 0 {
        if !f.marker.Start? {
          fragments := Without(fragments, it);
          return;
        }
        currentId := it - 1;
      }
      var start := SearchStart(it);
      if start.None? || start.value != currentId + 1 { return; }
      var end := SearchEnd(start.value);
      if end.None? { return; }
      currentId, last := end.value, end.value;
      var content := Merge(start.value, end.value);
      var first := fragments[start.value];
      result := result + [Emission(start.value, end.value, Media(first.kind, first.time, content))];
      more := true;
    }

    /** The loops over processFragment. */
    method ProcessFragments(from: Option<nat>)
      requires Positive(State()) && (from.Some? ==> from.value in fragments)
      modifies this
      ensures State() == ProcessFrom(old(State()), from).buffer
      ensures result == old(result) + ProcessFrom(old(State()), from).emissions
    {
      hide GroupMerge.ProcessFragment, ProcessFrom;
      ghost var goal := ProcessFrom(State(), from);
      var it := from;
      while it.Some?
        invariant Positive(State()) && (it.Some? ==> it.value in fragments)
        invariant goal.buffer == ProcessFrom(State(), it).buffer
        invariant old(result) + goal.emissions == result + ProcessFrom(State(), it).emissions
        decreases |From(fragments.Keys, currentId + 1)|, if it.Some? then 1 else 0
      {
        ghost var before := State();
        ProcessAdvances(before, it.value);
        ProcessTurn(before, it.value);
        var more, last := ProcessFragment(it.value);
        if !more {
          assert result + [] == result;
          return;
        }
        it := LowerBound(fragments.Keys, last + 1);
      }
      NoTurn(State());
      assert result + [] == result;
    }

    method StartProcessing()
      requires Positive(State())
      modifies this
      ensures State() == HandleStart(old(State())).buffer && result == old(result) + HandleStart(old(State())).emissions
    {
      hide ProcessFrom;
      ProcessFragments(LowerBound(fragments.Keys, 0));
      started := true;
    }

    method AddFragment(id: nat, f: Fragment)
      requires Positive(State()) && id >= 1
      modifies this
      ensures State() == HandleAdd(old(State()), id, f).buffer
      ensures result == old(result) + HandleAdd(old(State()), id, f).emissions
    {
      hide ProcessFrom;
      if id in fragments { return; }
      fragments := fragments[id := f];
      if started { ProcessFragments(Some(id)); }
    }

    method RemoveFragments(bound: nat)
      requires Positive(State())
      modifies this
      ensures State() == HandleRemove(old(State()), bound).buffer
      ensures result == old(result) + HandleRemove(old(State()), bound).emissions
    {
      hide ProcessFrom;
      var begin := LowerBound(fragments.Keys, 0);
      if begin.None? || bound <= begin.value { return; }
      fragments := AtLeast(fragments, bound);
      if currentId < bound {
        currentId := 0;
        if started { ProcessFragments(LowerBound(fragments.Keys, 0)); }
      }
    }
  }

  lemma ProcessTurn(b: BufferState, k: nat)
    requires Positive(b) && k in b.fragments
    ensures var o := GroupMerge.ProcessFragment(b, k);
      if o.emitted.None? then ProcessFrom(b, Some(k)) == Processed(o.buffer, [])
      else
        var next := LowerBound(o.buffer.fragments.Keys, o.buffer.currentId + 1);
        Positive(o.buffer) && ProcessFrom(b, Some(k))
        == Processed(ProcessFrom(o.buffer, next).buffer, [o.emitted.value] + ProcessFrom(o.buffer, next).emissions)
  {
    hide GroupMerge.ProcessFragment;
    ProcessAdvances(b, k);
  }

  lemma NoTurn(b: BufferState)
    requires Positive(b)
    ensures ProcessFrom(b, None) == Processed(b, [])
  {
  }
}
