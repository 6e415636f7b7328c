/** The merge of group fragments (sources/GroupBuffer.cpp): fragments arrive in any order, old ones
    are removed underneath, and whole media packets come out. */
module GroupMerge {
  import opened Bytes
  import opened OrderedMap
  import opened GroupFragments

  datatype BufferState = BufferState(fragments: map<nat, Fragment>, currentId: nat, started: bool)

  const NewBuffer := BufferState(map[], 0, false)

  /** A packet handed over, and the ids it was merged from. */
  datatype Emission = Emission(first: nat, last: nat, media: Media)

  datatype Outcome = Outcome(buffer: BufferState, emitted: Option<Emission>)

  predicate Present(fragments: map<nat, Fragment>, first: nat, count: nat) {
    forall k :: first <= k < first + count ==> k in fragments
  }

  function Joined(fragments: map<nat, Fragment>, first: nat, count: nat): seq<byte>
    requires Present(fragments, first, count)
  {
    if count == 0 then [] else Joined(fragments, first, count - 1) + fragments[first + count - 1].payload
  }

  /** The start fragment found walking back from k without a hole. */
  function FindStart(fragments: map<nat, Fragment>, k: nat): (start: Option<nat>)
    requires k in fragments
    ensures start.Some? ==> start.value <= k && start.value in fragments && fragments[start.value].marker.Start?
  {
    if fragments[k].marker.Start? then Some(k)
    else if k == 0 || k - 1 !in fragments then None
    else FindStart(fragments, k - 1)
  }

  /** The number of fragments a start fragment announces, in 8 bits. */
  function Count(start: Fragment): nat {
    var n := (start.splittedId + 1) % 256;
    if n == 0 then 1 else n
  }

  function Standalone(b: BufferState, k: nat): bool
    requires k in b.fragments
  {
    b.fragments[k].marker.Data? || (b.fragments[k].marker.End? && k == b.currentId + 1)
  }

  function ProcessStandalone(b: BufferState, k: nat): Outcome
    requires k in b.fragments
  {
    var f := b.fragments[k];
    if b.currentId == 0 || k == b.currentId + 1 then
      Outcome(b.(currentId := k), Some(Emission(k, k, Media(f.kind, f.time, f.payload))))
    else Outcome(b, None)
  }

  function ProcessSplit(b: BufferState, k: nat): Outcome
    requires k in b.fragments
  {
    match FindStart(b.fragments, k)
    case None => Outcome(b, None)
    case Some(s) =>
      var f := b.fragments[s];
      if s == b.currentId + 1 && Present(b.fragments, s, Count(f)) then
        var e := s + Count(f) - 1;
        Outcome(b.(currentId := e), Some(Emission(s, e, Media(f.kind, f.time, Joined(b.fragments, s, Count(f))))))
      else Outcome(b, None)
  }

  /** GroupBuffer::processFragment */
  function ProcessFragment(b: BufferState, k: nat): Outcome
    requires k in b.fragments && k >= 1
  {
    if Standalone(b, k) then ProcessStandalone(b, k)
    else if b.currentId == 0 && !b.fragments[k].marker.Start? then
      Outcome(b.(fragments := Without(b.fragments, k)), None)
    else ProcessSplit(if b.currentId == 0 then b.(currentId := k - 1) else b, k)
  }

  lemma ProcessAdvances(b: BufferState, k: nat)
    requires k in b.fragments && k >= 1
    ensures var o := ProcessFragment(b, k);
      o.emitted.Some? ==>
        && o.buffer.fragments == b.fragments && b.currentId < o.emitted.value.first <= o.emitted.value.last
        && o.buffer.currentId == o.emitted.value.last
        && |From(b.fragments.Keys, o.buffer.currentId + 1)| < |From(b.fragments.Keys, b.currentId + 1)|
  {
    hide Joined;
    var o := ProcessFragment(b, k);
    if o.emitted.Some? {
      var e := o.emitted.value;
      assert e.first in From(b.fragments.Keys, b.currentId + 1) && e.first !in From(b.fragments.Keys, o.buffer.currentId + 1);
      SubsetShrinks(From(b.fragments.Keys, o.buffer.currentId + 1), From(b.fragments.Keys, b.currentId + 1));
    }
  }

  datatype Processed = Processed(buffer: BufferState, emissions: seq<Emission>)

  predicate Positive(b: BufferState) {
    forall k :: k in b.fragments ==> k >= 1
  }

  /** The loops of GroupBuffer: as long as a packet comes out, on with the fragment after it. */
  function ProcessFrom(b: BufferState, it: Option<nat>): Processed
    requires Positive(b) && (it.Some? ==> it.value in b.fragments)
    decreases |From(b.fragments.Keys, b.currentId + 1)|
  {
    if it.None? then Processed(b, [])
    else
      var o := ProcessFragment(b, it.value);
      ProcessAdvances(b, it.value);
      if o.emitted.None? then Processed(o.buffer, [])
      else
        var r := ProcessFrom(o.buffer, LowerBound(o.buffer.fragments.Keys, o.buffer.currentId + 1));
        r.(emissions := [o.emitted.value] + r.emissions)
  }

  datatype Request = StartProcessing | Add(id: nat, fragment: Fragment) | Remove(bound: nat)

  function Begin(b: BufferState): Option<nat> {
    LowerBound(b.fragments.Keys, 0)
  }

  function HandleStart(b: BufferState): Processed
    requires Positive(b)
  {
    var r := ProcessFrom(b, Begin(b));
    r.(buffer := r.buffer.(started := true))
  }

  function HandleAdd(b: BufferState, id: nat, f: Fragment): Processed
    requires Positive(b) && id >= 1
  {
    if id in b.fragments then Processed(b, [])
    else
      var b := b.(fragments := b.fragments[id := f]);
      if b.started then ProcessFrom(b, Some(id)) else Processed(b, [])
  }

  function Removed(b: BufferState, bound: nat): BufferState {
    b.(fragments := AtLeast(b.fragments, bound))
  }

  /** Whether a removal reaches fragments that were not merged yet. */
  predicate Resets(b: BufferState, bound: nat) {
    Begin(b).Some? && bound > Begin(b).value && b.currentId < bound
  }

  function HandleRemove(b: BufferState, bound: nat): Processed
    requires Positive(b)
  {
    if Begin(b).None? || bound <= Begin(b).value then Processed(b, [])
    else
      var r := Removed(b, bound);
      if b.currentId >= bound then Processed(r, [])
      else
        var r := r.(currentId := 0);
        if r.started then ProcessFrom(r, Begin(r)) else Processed(r, [])
  }

  /** GroupBuffer::processRequest; a buffer not made yet is an empty one not started. */
  function Handle(b: BufferState, r: Request): Processed
    requires Positive(b) && (r.Add? ==> r.id >= 1)
  {
    match r
    case StartProcessing => HandleStart(b)
    case Add(id, f) => HandleAdd(b, id, f)
    case Remove(bound) => HandleRemove(b, bound)
  }

  // ---- Against the publisher's stream ------------------------------------------------------

  predicate Known(fragments: map<nat, Fragment>, packets: seq<Media>)
    requires AllMergeable(packets)
  {
    forall k :: k in fragments ==> 1 <= k <= |Publish(packets)| && fragments[k] == Publish(packets)[k - 1]
  }

  /** The emission is packet p, merged from exactly its fragments. */
  predicate IsPacket(e: Emission, packets: seq<Media>, p: nat)
    requires AllMergeable(packets)
  {
    p < |packets| && e.first == LastId(packets, p) + 1 && e.last == LastId(packets, p + 1) && e.media == packets[p]
  }

  ghost predicate Exact(e: Emission, packets: seq<Media>)
    requires AllMergeable(packets)
  {
    exists p: nat :: IsPacket(e, packets, p)
  }

  predicate Complete(fragments: map<nat, Fragment>, packets: seq<Media>, p: nat)
    requires AllMergeable(packets) && p < |packets|
  {
    forall k :: LastId(packets, p) < k <= LastId(packets, p + 1) ==> k in fragments
  }

  lemma {:induction false} JoinedPrefix(fragments: map<nat, Fragment>, first: nat, parts: seq<Fragment>, j: nat)
    requires j <= |parts| && Present(fragments, first, |parts|)
    requires forall i :: 0 <= i < |parts| ==> fragments[first + i] == parts[i]
    ensures Present(fragments, first, j) && Joined(fragments, first, j) == Payload(parts[..j])
  {
    if j > 0 {
      JoinedPrefix(fragments, first, parts, j - 1);
      assert parts[..j][..j - 1] == parts[..j - 1];
    }
  }

  /** The start fragment of a packet tells the number of its fragments, and they merge to it. */
  lemma StartMerges(fragments: map<nat, Fragment>, packets: seq<Media>, s: nat) returns (p: nat)
    requires AllMergeable(packets) && Known(fragments, packets)
    requires s in fragments && fragments[s].marker.Start?
    ensures p < |packets| && s == LastId(packets, p) + 1 && s + Count(fragments[s]) - 1 == LastId(packets, p + 1)
    ensures Present(fragments, s, Count(fragments[s])) ==>
      Media(fragments[s].kind, fragments[s].time, Joined(fragments, s, Count(fragments[s]))) == packets[p]
  {
    hide SplitCount, Split, LastId, Joined, Payload;
    p := MarkerTells(packets, s);
    FragmentOf(packets, p, s);
    PacketLies(packets, p);
    assert Mergeable(packets[p]);
    var n := Count(fragments[s]);
    assert n == |Split(packets[p])|;
    if Present(fragments, s, n) {
      forall i | 0 <= i < n ensures fragments[s + i] == Split(packets[p])[i] {
        assert s + i in fragments;
        assert Publish(packets)[s - 1..s - 1 + n][i] == Publish(packets)[s - 1 + i];
      }
      JoinedPrefix(fragments, s, Split(packets[p]), n);
      assert Split(packets[p])[..n] == Split(packets[p]);
      SplitJoins(packets[p]);
    }
  }

  lemma DataIsPacket(fragments: map<nat, Fragment>, packets: seq<Media>, k: nat) returns (p: nat)
    requires AllMergeable(packets) && Known(fragments, packets)
    requires k in fragments && fragments[k].marker.Data?
    ensures var f := fragments[k];
      IsPacket(Emission(k, k, Media(f.kind, f.time, f.payload)), packets, p)
  {
    hide SplitCount, Split, LastId;
    p := MarkerTells(packets, k);
    FragmentOf(packets, p, k);
    PacketLies(packets, p);
    assert Mergeable(packets[p]);
  }

  /** What every step keeps. */
  ghost predicate Good(b: BufferState, packets: seq<Media>)
    requires AllMergeable(packets)
  {
    Known(b.fragments, packets) && Boundary(packets, b.currentId)
  }

  lemma NotStandaloneEnd(b: BufferState, packets: seq<Media>, k: nat)
    requires AllMergeable(packets) && Good(b, packets) && k in b.fragments && Standalone(b, k)
    ensures b.fragments[k].marker.Data?
  {
    hide LastId;
    var q := MarkerTells(packets, k);
  }

  /** A packet that comes out is a packet of the publisher; it is the next one unless there was none. */
  ghost predicate ProperOutcome(b: BufferState, o: Outcome, packets: seq<Media>)
    requires AllMergeable(packets)
  {
    && Good(o.buffer, packets)
    && (o.emitted.Some? ==>
          && Exact(o.emitted.value, packets) && o.buffer.currentId == o.emitted.value.last
          && o.emitted.value.first in b.fragments
          && (b.currentId > 0 ==> o.emitted.value.first == b.currentId + 1))
    && (o.emitted.None? ==> o.buffer.currentId == b.currentId || (b.currentId == 0 && o.buffer.currentId + 1 in b.fragments))
  }

  lemma StandaloneProper(b: BufferState, packets: seq<Media>, k: nat)
    requires AllMergeable(packets) && Good(b, packets) && k in b.fragments && b.fragments[k].marker.Data?
    ensures ProperOutcome(b, ProcessStandalone(b, k), packets)
  {
    hide LastId;
    var p := DataIsPacket(b.fragments, packets, k);
    assert LastId(packets, p + 1) == k;
  }

  lemma SplitProper(b: BufferState, packets: seq<Media>, k: nat)
    requires AllMergeable(packets) && Good(b, packets) && k in b.fragments
    ensures ProperOutcome(b, ProcessSplit(b, k), packets)
  {
    hide LastId, Joined;
    var start := FindStart(b.fragments, k);
    if start.Some? {
      var s := start.value;
      var p := StartMerges(b.fragments, packets, s);
      assert Boundary(packets, LastId(packets, p + 1));
      var n := Count(b.fragments[s]);
      if Present(b.fragments, s, n) {
        assert IsPacket(Emission(s, s + n - 1, Media(b.fragments[s].kind, b.fragments[s].time, Joined(b.fragments, s, n))), packets, p);
        assert s in b.fragments;
      }
    }
  }

  lemma ProcessProper(b: BufferState, packets: seq<Media>, k: nat)
    requires AllMergeable(packets) && Good(b, packets) && k in b.fragments
    ensures k >= 1 && ProperOutcome(b, ProcessFragment(b, k), packets)
  {
    hide LastId, ProcessStandalone, ProcessSplit, Exact;
    if Standalone(b, k) {
      NotStandaloneEnd(b, packets, k);
      StandaloneProper(b, packets, k);
    } else if b.currentId == 0 && b.fragments[k].marker.Start? {
      var p := MarkerTells(packets, k);
      var c := b.(currentId := k - 1);
      SplitProper(c, packets, k);
      StartFound(c, k);
    } else if b.currentId > 0 {
      SplitProper(b, packets, k);
    }
  }

  lemma StartFound(b: BufferState, k: nat)
    requires k in b.fragments && b.fragments[k].marker.Start? && k >= 1
    ensures ProcessSplit(b, k).emitted.None? ==> ProcessSplit(b, k).buffer == b
  {
  }

  // ---- Nothing deliverable waits -----------------------------------------------------------

  /** The packet after the current one is not completely there. */
  ghost predicate Eager(b: BufferState, packets: seq<Media>)
    requires AllMergeable(packets)
  {
    b.currentId > 0 ==> forall p: nat :: p < |packets| && LastId(packets, p) == b.currentId ==> !Complete(b.fragments, packets, p)
  }

  lemma {:induction false} StartReached(fragments: map<nat, Fragment>, packets: seq<Media>, p: nat, k: nat)
    requires AllMergeable(packets) && Known(fragments, packets)
    requires p < |packets| && LastId(packets, p) < k <= LastId(packets, p + 1)
    requires forall j :: LastId(packets, p) < j <= k ==> j in fragments
    requires |Split(packets[p])| > 1
    ensures FindStart(fragments, k) == Some(LastId(packets, p) + 1)
  {
    hide LastId, Split, SplitCount;
    FragmentOf(packets, p, k);
    PacketLies(packets, p);
    assert Mergeable(packets[p]);
    assert fragments[k] == Publish(packets)[k - 1];
    if k > LastId(packets, p) + 1 {
      StartReached(fragments, packets, p, k - 1);
    }
  }

  lemma {:induction false} SameBoundary(packets: seq<Media>, p: nat, q: nat)
    requires AllMergeable(packets) && p <= |packets| && q <= |packets| && LastId(packets, p) == LastId(packets, q)
    ensures p == q
  {
    hide LastId;
    if p < q { LastIdIncreases(packets, p, q); }
    if q < p { LastIdIncreases(packets, q, p); }
  }

  /** Any fragment of the complete next packet brings it out. */
  lemma CompleteComesOut(b: BufferState, packets: seq<Media>, p: nat, k: nat)
    requires AllMergeable(packets) && Good(b, packets)
    requires p < |packets| && LastId(packets, p) == b.currentId && Complete(b.fragments, packets, p)
    requires LastId(packets, p) < k <= LastId(packets, p + 1)
    requires b.currentId > 0 || k == LastId(packets, p) + 1
    ensures k in b.fragments && k >= 1 && ProcessFragment(b, k).emitted.Some?
  {
    hide LastId, Split, SplitCount, Joined;
    PacketLies(packets, p);
    FragmentOf(packets, p, k);
    assert Mergeable(packets[p]);
    assert b.fragments[k] == Publish(packets)[k - 1];
    var s := b.currentId + 1;
    if |Split(packets[p])| > 1 {
      StartReached(b.fragments, packets, p, k);
      var q := StartMerges(b.fragments, packets, s);
      SameBoundary(packets, p, q);
    }
  }

  /** When a fragment brings nothing out, the next packet is not complete if it may belong to it. */
  lemma NothingComesOut(b: BufferState, packets: seq<Media>, k: nat, p: nat)
    requires AllMergeable(packets) && Good(b, packets) && k in b.fragments && k >= 1
    requires ProcessFragment(b, k).emitted.None? && p < |packets|
    requires LastId(packets, p) < k <= LastId(packets, p + 1)
    ensures var r := ProcessFragment(b, k).buffer;
      r.currentId > 0 && LastId(packets, p) == r.currentId ==> !Complete(r.fragments, packets, p)
  {
    hide LastId, ProcessStandalone, ProcessSplit;
    var r := ProcessFragment(b, k).buffer;
    if r.currentId > 0 && LastId(packets, p) == r.currentId && Complete(r.fragments, packets, p) {
      UnemittedState(b, packets, k);
      CompleteComesOut(r, packets, p, k);
    }
  }

  /** Without an emission the state changes only while the first packet is searched. */
  lemma UnemittedState(b: BufferState, packets: seq<Media>, k: nat)
    requires AllMergeable(packets) && Good(b, packets) && k in b.fragments && k >= 1
    requires ProcessFragment(b, k).emitted.None?
    ensures var r := ProcessFragment(b, k).buffer;
      && Good(r, packets) && (b.currentId > 0 ==> r == b)
      && (r.currentId > 0 ==> ProcessFragment(r, k) == ProcessFragment(b, k))
      && (b.currentId == 0 && r.currentId > 0 ==> r.currentId == k - 1 && r.fragments == b.fragments)
  {
    hide LastId, Joined, FindStart;
    ProcessProper(b, packets, k);
    if Standalone(b, k) { NotStandaloneEnd(b, packets, k); }
  }

  /** Where the loop is, is where the next packet would be, if it is complete. */
  ghost predicate Candidate(b: BufferState, packets: seq<Media>, it: Option<nat>)
    requires AllMergeable(packets)
  {
    forall p: nat :: p < |packets| && LastId(packets, p) == b.currentId > 0 && Complete(b.fragments, packets, p) ==>
      it.Some? && LastId(packets, p) < it.value <= LastId(packets, p + 1)
  }

  /** What the loops of GroupBuffer leave: the packets that came out are consecutive. */
  predicate Consecutive(c: nat, es: seq<Emission>)
    decreases |es|
  {
    es == [] || ((c > 0 ==> es[0].first == c + 1) && Consecutive(es[0].last, es[1..]))
  }

  ghost predicate AllExact(es: seq<Emission>, packets: seq<Media>)
    requires AllMergeable(packets)
  {
    forall i :: 0 <= i < |es| ==> Exact(es[i], packets)
  }

  lemma NextCandidate(b: BufferState, packets: seq<Media>)
    requires AllMergeable(packets)
    ensures Candidate(b, packets, LowerBound(b.fragments.Keys, b.currentId + 1))
  {
    hide LastId;
    var it := LowerBound(b.fragments.Keys, b.currentId + 1);
    forall p: nat | p < |packets| && LastId(packets, p) == b.currentId > 0 && Complete(b.fragments, packets, p)
      ensures it.Some? && LastId(packets, p) < it.value <= LastId(packets, p + 1)
    {
      LastIdIncreases(packets, p, p + 1);
      assert b.currentId + 1 in b.fragments.Keys;
      assert it == Some(b.currentId + 1);
    }
  }

  lemma StopsEager(b: BufferState, packets: seq<Media>, k: nat)
    requires AllMergeable(packets) && Good(b, packets) && k in b.fragments && k >= 1
    requires ProcessFragment(b, k).emitted.None? && Candidate(b, packets, Some(k))
    ensures Eager(ProcessFragment(b, k).buffer, packets)
  {
    hide LastId, ProcessFragment;
    var r := ProcessFragment(b, k).buffer;
    UnemittedState(b, packets, k);
    forall p: nat | p < |packets| && LastId(packets, p) == r.currentId > 0 ensures !Complete(r.fragments, packets, p) {
      if Complete(r.fragments, packets, p) {
        LastIdIncreases(packets, p, p + 1);
        assert LastId(packets, p) < k <= LastId(packets, p + 1);
        NothingComesOut(b, packets, k, p);
      }
    }
  }

  /** What the state and the packets of a loop satisfy. */
  ghost predicate Advanced(b: BufferState, r: Processed, packets: seq<Media>)
    requires AllMergeable(packets)
  {
    && Good(r.buffer, packets) && Eager(r.buffer, packets)
    && r.buffer.fragments.Keys <= b.fragments.Keys && r.buffer.started == b.started
    && AllExact(r.emissions, packets) && Consecutive(b.currentId, r.emissions)
    && (r.emissions != [] ==>
          r.emissions[0].first in b.fragments && r.buffer.currentId == r.emissions[|r.emissions| - 1].last)
    && (r.emissions == [] ==>
          r.buffer.currentId == b.currentId || (b.currentId == 0 && r.buffer.currentId + 1 in b.fragments))
  }

  lemma {:induction false} ProcessFromAdvances(b: BufferState, packets: seq<Media>, it: Option<nat>)
    requires AllMergeable(packets) && Good(b, packets) && Candidate(b, packets, it)
    requires it.Some? ==> it.value in b.fragments
    ensures Positive(b) && Advanced(b, ProcessFrom(b, it), packets)
    decreases |From(b.fragments.Keys, b.currentId + 1)|
  {
    hide LastId, ProcessFragment, Exact, Good, Eager, Complete;
    KnownPositive(b, packets);
    if it.Some? {
      var k := it.value;
      ProcessProper(b, packets, k);
      ProcessAdvances(b, k);
      var o := ProcessFragment(b, k);
      if o.emitted.None? {
        StopsEager(b, packets, k);
        KeepsKeys(b, k);
      } else {
        NextCandidate(o.buffer, packets);
        var next := LowerBound(o.buffer.fragments.Keys, o.buffer.currentId + 1);
        ProcessFromAdvances(o.buffer, packets, next);
        KeepsKeys(b, k);
      }
    } else {
      assert Eager(b, packets) by { NoCandidate(b, packets); }
    }
  }

  lemma NoCandidate(b: BufferState, packets: seq<Media>)
    requires AllMergeable(packets) && Candidate(b, packets, None)
    ensures Eager(b, packets)
  {
  }

  lemma KnownPositive(b: BufferState, packets: seq<Media>)
    requires AllMergeable(packets) && Good(b, packets)
    ensures Positive(b)
  {
  }

  lemma KeepsKeys(b: BufferState, k: nat)
    requires k in b.fragments && k >= 1
    ensures var o := ProcessFragment(b, k);
      o.buffer.fragments.Keys <= b.fragments.Keys && o.buffer.started == b.started
  {
    hide Joined;
  }
}
