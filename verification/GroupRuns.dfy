/** A group buffer over any run of requests: whatever the order and the repetition of the fragments,
    and whatever is removed underneath, what comes out is packets of the publisher, in order. */
module GroupRuns {
  import opened Bytes
  import opened GroupFragments
  import opened GroupMerge

  /** What the outside sees: packets, and the resets of the current id. */
  datatype Event = Emit(e: Emission) | Reset

  function Emits(es: seq<Emission>): (events: seq<Event>)
    ensures |events| == |es|
  {
    seq(|es|, i requires 0 <= i < |es| => Emit(es[i]))
  }

  function EventsOf(b: BufferState, r: Request): seq<Event>
    requires Positive(b) && (r.Add? ==> r.id >= 1)
  {
    (if r.Remove? && Resets(b, r.bound) then [Reset] else []) + Emits(Handle(b, r).emissions)
  }

  datatype Run = Run(buffer: BufferState, events: seq<Event>, bound: nat)

  /** The fragments added are the publisher's, and none below what was removed before. */
  predicate Allowed(s: Run, r: Request, packets: seq<Media>)
    requires AllMergeable(packets)
  {
    r.Add? ==> 1 <= r.id <= |Publish(packets)| && r.fragment == Publish(packets)[r.id - 1] && r.id >= s.bound
  }

  function Do(s: Run, r: Request): Run
    requires Positive(s.buffer) && (r.Add? ==> r.id >= 1)
  {
    Run(Handle(s.buffer, r).buffer, s.events + EventsOf(s.buffer, r),
        if r.Remove? && r.bound > s.bound then r.bound else s.bound)
  }

  const NewRun := Run(NewBuffer, [], 1)

  /** The last id that came out. */
  function LastEmitted(events: seq<Event>): nat {
    if events == [] then 0
    else if events[|events| - 1].Emit? then events[|events| - 1].e.last
    else LastEmitted(events[..|events| - 1])
  }

  /** Whole packets of the publisher, in increasing order, and consecutive but where reset. */
  ghost predicate Proper(events: seq<Event>, packets: seq<Media>)
    requires AllMergeable(packets)
  {
    && (forall i :: 0 <= i < |events| && events[i].Emit? ==> Exact(events[i].e, packets))
    && (forall i, j :: 0 <= i < j < |events| && events[i].Emit? && events[j].Emit? ==> events[i].e.last < events[j].e.first)
    && (forall i :: 0 <= i < |events| - 1 && events[i].Emit? && events[i + 1].Emit? ==>
          events[i + 1].e.first == events[i].e.last + 1)
  }

  predicate Fresher(b: BufferState, events: seq<Event>, bound: nat) {
    && (forall k :: k in b.fragments ==> k >= bound)
    && (if b.currentId == 0 then LastEmitted(events) < bound && (events != [] ==> events[|events| - 1].Reset?)
        else LastEmitted(events) <= b.currentId)
    && (events != [] && events[|events| - 1].Emit? ==> b.currentId == LastEmitted(events))
  }

  ghost predicate Inv(s: Run, packets: seq<Media>)
    requires AllMergeable(packets)
  {
    && s.bound >= 1 && Good(s.buffer, packets)
    && Proper(s.events, packets) && Fresher(s.buffer, s.events, s.bound)
    && (if s.buffer.started then Eager(s.buffer, packets) else s.buffer.currentId == 0)
  }

  lemma {:induction false} LastEmittedBounds(events: seq<Event>, packets: seq<Media>, i: nat)
    requires AllMergeable(packets) && Proper(events, packets) && i < |events| && events[i].Emit?
    ensures events[i].e.last <= LastEmitted(events)
    decreases |events|
  {
    hide Exact;
    var m := |events| - 1;
    if i < m {
      if events[m].Emit? {
        EmissionOrdered(events[m].e, packets);
      } else {
        assert Proper(events[..m], packets);
        LastEmittedBounds(events[..m], packets, i);
      }
    }
  }

  lemma EmissionOrdered(e: Emission, packets: seq<Media>)
    requires AllMergeable(packets) && Exact(e, packets)
    ensures e.first <= e.last
  {
    hide LastId;
    var p: nat :| IsPacket(e, packets, p);
    LastIdIncreases(packets, p, p + 1);
  }

  /** One more packet, after the last one. */
  lemma EmitProper(events: seq<Event>, e: Emission, packets: seq<Media>)
    requires AllMergeable(packets) && Proper(events, packets) && Exact(e, packets)
    requires LastEmitted(events) < e.first
    requires events != [] && events[|events| - 1].Emit? ==> e.first == LastEmitted(events) + 1
    ensures Proper(events + [Emit(e)], packets) && LastEmitted(events + [Emit(e)]) == e.last
  {
    hide Exact;
    var r := events + [Emit(e)];
    forall i | 0 <= i < |events| && events[i].Emit? ensures r[i].e.last < e.first {
      LastEmittedBounds(events, packets, i);
    }
  }

  /** The packets of a loop, one after the other. */
  lemma {:induction false} EmitsProper(events: seq<Event>, c: nat, es: seq<Emission>, packets: seq<Media>)
    requires AllMergeable(packets) && Proper(events, packets) && AllExact(es, packets) && Consecutive(c, es)
    requires LastEmitted(events) <= c || (c == 0 && es != [] && LastEmitted(events) < es[0].first)
    requires events != [] && events[|events| - 1].Emit? ==> c == LastEmitted(events) > 0
    ensures Proper(events + Emits(es), packets)
    ensures LastEmitted(events + Emits(es)) == if es == [] then LastEmitted(events) else es[|es| - 1].last
    ensures es == [] ==> events + Emits(es) == events
    decreases |es|
  {
    hide Exact, Proper;
    if es == [] {
      assert events + Emits(es) == events;
    } else {
      EmissionOrdered(es[0], packets);
      assert es[0].first > 0 by { FirstPositive(es[0], packets); }
      EmitProper(events, es[0], packets);
      var next := events + [Emit(es[0])];
      assert events + Emits(es) == next + Emits(es[1..]);
      EmitsProper(next, es[0].last, es[1..], packets);
    }
  }

  lemma FirstPositive(e: Emission, packets: seq<Media>)
    requires AllMergeable(packets) && Exact(e, packets)
    ensures e.first > 0
  {
  }

  /** What holds between the parts of a request. */
  ghost predicate Held(b: BufferState, events: seq<Event>, bound: nat, packets: seq<Media>)
    requires AllMergeable(packets)
  {
    bound >= 1 && Good(b, packets) && Proper(events, packets) && Fresher(b, events, bound)
  }

  lemma LoopHolds(b: BufferState, events: seq<Event>, bound: nat, r: Processed, packets: seq<Media>)
    requires AllMergeable(packets) && Held(b, events, bound, packets) && Advanced(b, r, packets)
    ensures Held(r.buffer, events + Emits(r.emissions), bound, packets)
  {
    hide Proper, Good, Exact, Consecutive, Eager;
    var es := r.emissions;
    if es == [] {
      assert events + Emits(es) == events;
    } else {
      assert es[0].first in b.fragments;
      EmitsProper(events, b.currentId, es, packets);
      assert (events + Emits(es))[|events + Emits(es)| - 1].Emit?;
      assert Exact(es[|es| - 1], packets);
      LastPositive(es[|es| - 1], packets);
    }
  }

  lemma LastPositive(e: Emission, packets: seq<Media>)
    requires AllMergeable(packets) && Exact(e, packets)
    ensures e.last > 0
  {
    EmissionOrdered(e, packets);
    FirstPositive(e, packets);
  }

  lemma StartHolds(s: Run, packets: seq<Media>)
    requires AllMergeable(packets) && Inv(s, packets)
    ensures Positive(s.buffer) && Inv(Do(s, StartProcessing), packets)
  {
    hide Good, Exact, Proper, LastId, Complete, Consecutive;
    KnownPositive(s.buffer, packets);
    var it := Begin(s.buffer);
    assert Candidate(s.buffer, packets, it);
    ProcessFromAdvances(s.buffer, packets, it);
    var r := ProcessFrom(s.buffer, it);
    LoopHolds(s.buffer, s.events, s.bound, r, packets);
    assert [] + Emits(r.emissions) == Emits(r.emissions);
    SameStarted(r.buffer, packets);
  }

  /** Only the fragments and the current id matter. */
  lemma SameStarted(b: BufferState, packets: seq<Media>)
    requires AllMergeable(packets) && Good(b, packets) && Eager(b, packets)
    ensures var r := b.(started := true); Good(r, packets) && Eager(r, packets)
  {
  }

  lemma AddGood(b: BufferState, id: nat, f: Fragment, packets: seq<Media>)
    requires AllMergeable(packets) && Good(b, packets) && id !in b.fragments
    requires 1 <= id <= |Publish(packets)| && f == Publish(packets)[id - 1]
    ensures var r := b.(fragments := b.fragments[id := f]);
      Good(r, packets) && (Eager(b, packets) ==> Candidate(r, packets, Some(id)))
  {
    hide LastId, Publish;
    var r := b.(fragments := b.fragments[id := f]);
    forall p: nat | Eager(b, packets) && p < |packets| && LastId(packets, p) == r.currentId > 0 && Complete(r.fragments, packets, p)
      ensures LastId(packets, p) < id <= LastId(packets, p + 1)
    {
      var k :| LastId(packets, p) < k <= LastId(packets, p + 1) && k !in b.fragments;
      assert k in r.fragments;
    }
  }

  lemma AddHolds(s: Run, r: Request, packets: seq<Media>)
    requires AllMergeable(packets) && Inv(s, packets) && r.Add? && Allowed(s, r, packets)
    ensures Positive(s.buffer) && Inv(Do(s, r), packets)
  {
    hide Good, Exact, Proper, Complete, Consecutive, Publish, Candidate, Eager;
    KnownPositive(s.buffer, packets);
    assert [] + Emits([]) == [] && s.events + [] == s.events;
    if r.id !in s.buffer.fragments {
      var b := s.buffer.(fragments := s.buffer.fragments[r.id := r.fragment]);
      AddGood(s.buffer, r.id, r.fragment, packets);
      assert Held(b, s.events, s.bound, packets);
      if b.started {
        ProcessFromAdvances(b, packets, Some(r.id));
        var p := ProcessFrom(b, Some(r.id));
        LoopHolds(b, s.events, s.bound, p, packets);
        assert [] + Emits(p.emissions) == Emits(p.emissions);
      }
    }
  }

  lemma RemovedGood(b: BufferState, bound: nat, packets: seq<Media>)
    requires AllMergeable(packets) && Good(b, packets)
    ensures var r := Removed(b, bound);
      && Good(r, packets) && Good(r.(currentId := 0), packets) && (Eager(b, packets) ==> Eager(r, packets))
      && forall k :: k in r.fragments ==> k >= bound && k in b.fragments
  {
    hide Publish;
    assert Boundary(packets, 0) by { NoPackets(packets); }
    var r := Removed(b, bound);
    forall p: nat | Eager(b, packets) && p < |packets| && LastId(packets, p) == r.currentId > 0
      ensures !Complete(r.fragments, packets, p)
    {
      var k :| LastId(packets, p) < k <= LastId(packets, p + 1) && k !in b.fragments;
      assert k !in r.fragments;
    }
  }

  lemma NoPackets(packets: seq<Media>)
    requires AllMergeable(packets)
    ensures LastId(packets, 0) == 0 && Boundary(packets, 0)
  {
    assert LastId(packets, 0) == 0;
  }

  lemma ResetProper(events: seq<Event>, packets: seq<Media>)
    requires AllMergeable(packets) && Proper(events, packets)
    ensures Proper(events + [Reset], packets) && LastEmitted(events + [Reset]) == LastEmitted(events)
  {
    hide Exact, LastId, Publish;
    var r := events + [Reset];
    assert r[..|events|] == events;
    forall i | 0 <= i < |r| && r[i].Emit? ensures i < |events| && r[i] == events[i] {}
    assert LastEmitted(r) == LastEmitted(r[..|events|]);
  }

  lemma NoCurrent(b: BufferState, packets: seq<Media>, it: Option<nat>)
    requires AllMergeable(packets) && b.currentId == 0
    ensures Candidate(b, packets, it)
  {
  }

  /** The unread fragments were removed: the search for a first packet starts again. */
  lemma ResetHolds(c: BufferState, events: seq<Event>, bound: nat, packets: seq<Media>)
    requires AllMergeable(packets) && Held(c, events, bound, packets) && c.currentId == 0
    ensures Positive(c)
    ensures var p := ProcessFrom(c, Begin(c));
      && Held(p.buffer, events + Emits(p.emissions), bound, packets)
      && Eager(p.buffer, packets) && p.buffer.started == c.started
  {
    hide Good, Exact, Proper, Complete, Consecutive, Publish, Candidate, Eager;
    KnownPositive(c, packets);
    NoCurrent(c, packets, Begin(c));
    ProcessFromAdvances(c, packets, Begin(c));
    LoopHolds(c, events, bound, ProcessFrom(c, Begin(c)), packets);
  }

  /** A removal that reaches what was not merged yet. */
  lemma RemoveUnread(s: Run, bound: nat, packets: seq<Media>)
    requires AllMergeable(packets) && Inv(s, packets) && Resets(s.buffer, bound)
    ensures Positive(s.buffer) && Inv(Do(s, Remove(bound)), packets)
  {
    hide Good, Proper, Publish, Eager, Removed, ProcessFrom, Emits;
    KnownPositive(s.buffer, packets);
    RemovedGood(s.buffer, bound, packets);
    RemovedKeeps(s.buffer, bound);
    assert Begin(s.buffer).value in s.buffer.fragments.Keys;
    var c := Removed(s.buffer, bound).(currentId := 0);
    ResetProper(s.events, packets);
    var events := s.events + [Reset];
    ResetHolds(c, events, bound, packets);
    var emissions := ProcessFrom(c, Begin(c)).emissions;
    assert s.events + ([Reset] + Emits(emissions)) == events + Emits(emissions);
    assert [Reset] + Emits([]) == [Reset];
  }

  lemma RemoveHolds(s: Run, r: Request, packets: seq<Media>)
    requires AllMergeable(packets) && Inv(s, packets) && r.Remove?
    ensures Positive(s.buffer) && Inv(Do(s, r), packets)
  {
    hide Good, Proper, Publish, Eager, Removed, ProcessFrom;
    if Resets(s.buffer, r.bound) {
      RemoveUnread(s, r.bound, packets);
    } else {
      KnownPositive(s.buffer, packets);
      RemovedGood(s.buffer, r.bound, packets);
      RemovedKeeps(s.buffer, r.bound);
      assert [] + Emits([]) == [] && s.events + [] == s.events;
      if Begin(s.buffer).Some? { assert Begin(s.buffer).value in s.buffer.fragments.Keys; }
    }
  }

  lemma RemovedKeeps(b: BufferState, bound: nat)
    ensures Removed(b, bound).currentId == b.currentId && Removed(b, bound).started == b.started
  {
  }

  lemma RequestHolds(s: Run, r: Request, packets: seq<Media>)
    requires AllMergeable(packets) && Inv(s, packets) && Allowed(s, r, packets)
    ensures Positive(s.buffer) && Inv(Do(s, r), packets)
  {
    hide Inv, Do;
    match r
    case StartProcessing => StartHolds(s, packets);
    case Add(_, _) => AddHolds(s, r, packets);
    case Remove(_) => RemoveHolds(s, r, packets);
  }

  // ---- The search for a first packet -------------------------------------------------------

  /** While there is no current id, the first fragment of a packet that is completely there brings it
      out. */
  lemma FirstComesOut(b: BufferState, packets: seq<Media>, p: nat)
    requires AllMergeable(packets) && Good(b, packets) && b.currentId == 0
    requires p < |packets| && Complete(b.fragments, packets, p)
    ensures var k := LastId(packets, p) + 1;
      k in b.fragments && ProcessFragment(b, k).emitted == Some(Emission(k, LastId(packets, p + 1), packets[p]))
  {
    hide LastId, Split, SplitCount, Joined;
    var k := LastId(packets, p) + 1;
    LastIdIncreases(packets, p, p + 1);
    assert k in b.fragments;
    assert Boundary(packets, LastId(packets, p));
    var q := MarkerTells(packets, k);
    assert b.fragments[k] == Publish(packets)[k - 1];
    SamePacket(packets, p, q, k);
    if b.fragments[k].marker.Data? {
      var d := DataIsPacket(b.fragments, packets, k);
      SamePacket(packets, p, d, k);
    } else {
      var m := StartMerges(b.fragments, packets, k);
      SameBoundary(packets, p, m);
      assert FindStart(b.fragments, k) == Some(k);
    }
  }

  lemma SamePacket(packets: seq<Media>, p: nat, q: nat, k: nat)
    requires AllMergeable(packets) && p < |packets| && q < |packets|
    requires LastId(packets, p) < k <= LastId(packets, p + 1) && LastId(packets, q) < k <= LastId(packets, q + 1)
    ensures p == q
  {
    hide LastId;
    if p + 1 < q { LastIdIncreases(packets, p + 1, q); }
    if q + 1 < p { LastIdIncreases(packets, q + 1, p); }
  }

  /** While there is no current id, a start fragment whose packet is not completely there makes it the
      next one, which any later fragment of it then brings out; and a fragment that begins no packet is
      dropped. */
  lemma FirstLatches(b: BufferState, packets: seq<Media>, k: nat)
    requires AllMergeable(packets) && Good(b, packets) && b.currentId == 0 && k in b.fragments && k > 1
    requires ProcessFragment(b, k).emitted.None?
    ensures var r := ProcessFragment(b, k).buffer;
      if Boundary(packets, k - 1) then r == b.(currentId := k - 1)
      else r.currentId == 0 && r.fragments == OrderedMap.Without(b.fragments, k)
  {
    hide LastId, Joined, FindStart;
    var p := MarkerTells(packets, k);
  }

  /** What a loop hands out first is what its first fragment brings out. */
  lemma LoopFirst(b: BufferState, k: nat, e: Emission)
    requires Positive(b) && k in b.fragments && ProcessFragment(b, k).emitted == Some(e)
    ensures var es := ProcessFrom(b, Some(k)).emissions; es != [] && es[0] == e
  {
    hide ProcessFragment;
    ProcessAdvances(b, k);
  }

  /** What is left begins with packet p, completely there. */
  ghost predicate BeginsWith(b: BufferState, packets: seq<Media>, p: nat)
    requires AllMergeable(packets)
  {
    p < |packets| && Begin(b) == Some(LastId(packets, p) + 1) && Complete(b.fragments, packets, p)
  }

  ghost predicate ComesFirst(es: seq<Emission>, packets: seq<Media>, p: nat)
    requires AllMergeable(packets) && p < |packets|
  {
    es != [] && es[0] == Emission(LastId(packets, p) + 1, LastId(packets, p + 1), packets[p])
  }

  lemma SearchFinds(b: BufferState, packets: seq<Media>, p: nat)
    requires AllMergeable(packets) && Good(b, packets) && b.currentId == 0 && BeginsWith(b, packets, p)
    ensures Positive(b) && ComesFirst(ProcessFrom(b, Begin(b)).emissions, packets, p)
  {
    hide LastId, ProcessFragment, ProcessFrom, Good, Complete;
    KnownPositive(b, packets);
    FirstComesOut(b, packets, p);
    LoopFirst(b, LastId(packets, p) + 1, Emission(LastId(packets, p) + 1, LastId(packets, p + 1), packets[p]));
  }

  /** A start request brings out what the buffer begins with. */
  lemma StartFinds(b: BufferState, packets: seq<Media>, p: nat)
    requires AllMergeable(packets) && Good(b, packets) && b.currentId == 0 && BeginsWith(b, packets, p)
    ensures Positive(b) && HandleStart(b).buffer.started && ComesFirst(HandleStart(b).emissions, packets, p)
  {
    hide LastId, ProcessFrom, Good, BeginsWith;
    SearchFinds(b, packets, p);
  }

  /** A fragment added to a started buffer without a current id brings out the packet it begins, when
      that is then completely there. */
  lemma AddFinds(b: BufferState, packets: seq<Media>, p: nat, id: nat, f: Fragment)
    requires AllMergeable(packets) && Good(b, packets) && b.started && b.currentId == 0
    requires p < |packets| && id == LastId(packets, p) + 1 && id !in b.fragments
    requires id <= |Publish(packets)| && f == Publish(packets)[id - 1]
    requires Complete(b.fragments[id := f], packets, p)
    ensures Positive(b) && ComesFirst(HandleAdd(b, id, f).emissions, packets, p)
  {
    hide LastId, ProcessFragment, ProcessFrom, Complete, Publish, Good;
    KnownPositive(b, packets);
    var r := b.(fragments := b.fragments[id := f]);
    AddGood(b, id, f, packets);
    FirstComesOut(r, packets, p);
    KnownPositive(r, packets);
    LoopFirst(r, id, Emission(id, LastId(packets, p + 1), packets[p]));
  }

  /** A removal beyond the current id forgets it, and a started buffer goes on at once with what is
      left: its first packet comes out if it is completely there. Whatever is left, no current id below
      the bound stays. */
  lemma RemoveFinds(b: BufferState, packets: seq<Media>, bound: nat)
    requires AllMergeable(packets) && Good(b, packets) && Begin(b).Some? && bound > Begin(b).value
    requires !b.started ==> b.currentId == 0
    ensures Positive(b)
    ensures var r := HandleRemove(b, bound);
      && (forall k :: k in r.buffer.fragments ==> k >= bound && k in b.fragments)
      && (r.buffer.currentId == 0 || r.buffer.currentId >= bound - 1)
      && (b.currentId >= bound ==> r == Processed(Removed(b, bound), []))
      && (b.currentId < bound && !b.started ==> r == Processed(Removed(b, bound), []))
      && forall p: nat :: b.currentId < bound && b.started && p < |packets| && BeginsWith(Removed(b, bound), packets, p) ==>
           ComesFirst(r.emissions, packets, p)
  {
    hide LastId, ProcessFrom, Good, Complete, Exact, Eager, Removed, BeginsWith, ComesFirst, Consecutive;
    KnownPositive(b, packets);
    RemovedGood(b, bound, packets);
    RemovedKeeps(b, bound);
    if b.currentId < bound && b.started {
      var c := Removed(b, bound).(currentId := 0);
      KnownPositive(c, packets);
      NoCurrent(c, packets, Begin(c));
      ProcessFromAdvances(c, packets, Begin(c));
      var es := ProcessFrom(c, Begin(c)).emissions;
      if es != [] { EmittedFrom(es, c.currentId, packets, bound); }
      forall p: nat | p < |packets| && BeginsWith(Removed(b, bound), packets, p) ensures ComesFirst(es, packets, p) {
        BeginsSame(Removed(b, bound), packets, p);
        SearchFinds(c, packets, p);
      }
    }
  }

  lemma BeginsSame(b: BufferState, packets: seq<Media>, p: nat)
    requires AllMergeable(packets) && BeginsWith(b, packets, p)
    ensures BeginsWith(b.(currentId := 0), packets, p)
  {
  }

  /** What comes out after a fragment at or beyond a bound ends at or beyond it. */
  lemma {:induction false} EmittedFrom(es: seq<Emission>, c: nat, packets: seq<Media>, bound: nat)
    requires AllMergeable(packets) && AllExact(es, packets) && Consecutive(c, es)
    requires es != [] && es[0].first >= bound
    ensures es[|es| - 1].last >= bound
    decreases |es|
  {
    hide Exact;
    EmissionOrdered(es[0], packets);
    if |es| > 1 {
      assert es[0].last > 0 by { LastPositive(es[0], packets); }
      EmittedFrom(es[1..], es[0].last, packets, bound);
    }
  }

  // ---- What a request keeps ----------------------------------------------------------------

  /** With a current id, whatever comes out, nothing is erased. */
  lemma {:induction false} LoopErasesNothing(b: BufferState, it: Option<nat>)
    requires Positive(b) && b.currentId > 0 && (it.Some? ==> it.value in b.fragments)
    ensures ProcessFrom(b, it).buffer.fragments == b.fragments
    decreases |OrderedMap.From(b.fragments.Keys, b.currentId + 1)|
  {
    hide ProcessFragment;
    if it.Some? {
      ProcessAdvances(b, it.value);
      assert ProcessFragment(b, it.value).buffer.fragments == b.fragments by { CurrentErasesNothing(b, it.value); }
      var o := ProcessFragment(b, it.value);
      if o.emitted.Some? {
        LoopErasesNothing(o.buffer, OrderedMap.LowerBound(o.buffer.fragments.Keys, o.buffer.currentId + 1));
      }
    }
  }

  lemma CurrentErasesNothing(b: BufferState, k: nat)
    requires k in b.fragments && k >= 1 && b.currentId > 0
    ensures ProcessFragment(b, k).buffer.fragments == b.fragments
  {
  }

  /** What is left when a search starts at this fragment. */
  ghost function Searched(b: BufferState, packets: seq<Media>, it: Option<nat>): map<nat, Fragment>
    requires AllMergeable(packets)
  {
    if it.Some? && it.value > 0 && b.currentId == 0 && !Boundary(packets, it.value - 1)
    then OrderedMap.Without(b.fragments, it.value) else b.fragments
  }

  lemma LoopErases(b: BufferState, packets: seq<Media>, it: Option<nat>)
    requires AllMergeable(packets) && Good(b, packets) && (it.Some? ==> it.value in b.fragments)
    ensures Positive(b) && ProcessFrom(b, it).buffer.fragments == Searched(b, packets, it)
  {
    hide ProcessFragment, LastId;
    KnownPositive(b, packets);
    if b.currentId > 0 {
      LoopErasesNothing(b, it);
    } else if it.Some? {
      var k := it.value;
      ProcessAdvances(b, k);
      FirstErases(b, packets, k);
      var o := ProcessFragment(b, k);
      if o.emitted.Some? {
        LoopErasesNothing(o.buffer, OrderedMap.LowerBound(o.buffer.fragments.Keys, o.buffer.currentId + 1));
      }
    }
  }

  lemma FirstErases(b: BufferState, packets: seq<Media>, k: nat)
    requires AllMergeable(packets) && Good(b, packets) && b.currentId == 0 && k in b.fragments && k >= 1
    ensures var o := ProcessFragment(b, k);
      && o.buffer.fragments == (if Boundary(packets, k - 1) then b.fragments else OrderedMap.Without(b.fragments, k))
      && (o.emitted.Some? ==> Boundary(packets, k - 1))
  {
    hide LastId, Joined, FindStart;
    var p := MarkerTells(packets, k);
  }

  /** What is stored after a request. */
  ghost function Stored(b: BufferState, r: Request, packets: seq<Media>): map<nat, Fragment>
    requires AllMergeable(packets)
  {
    match r
    case StartProcessing => Searched(b, packets, Begin(b))
    case Add(id, f) =>
      if id in b.fragments then b.fragments
      else
        var more := b.(fragments := b.fragments[id := f]);
        if b.started then Searched(more, packets, Some(id)) else more.fragments
    case Remove(bound) =>
      var left := Removed(b, bound);
      if b.started && Resets(b, bound) then Searched(left.(currentId := 0), packets, Begin(left)) else left.fragments
  }

  /** A fragment is stored once, the first time it comes, and whatever comes out stays stored until it
      is removed: all that is ever dropped beside is the fragment a search without a current id starts
      at, when it begins no packet. */
  lemma RequestKeeps(b: BufferState, r: Request, packets: seq<Media>)
    requires AllMergeable(packets) && Good(b, packets)
    requires r.Add? ==> 1 <= r.id <= |Publish(packets)| && r.fragment == Publish(packets)[r.id - 1]
    ensures Positive(b)
    ensures Handle(b, r).buffer.fragments == Stored(b, r, packets)
  {
    hide LastId, ProcessFrom, Publish, Good, Searched;
    KnownPositive(b, packets);
    match r
    case StartProcessing =>
      LoopErases(b, packets, Begin(b));
    case Add(id, f) =>
      if id !in b.fragments && b.started {
        AddGood(b, id, f, packets);
        LoopErases(b.(fragments := b.fragments[id := f]), packets, Some(id));
      }
    case Remove(bound) =>
      if Begin(b).Some? && bound > Begin(b).value {
        RemovedGood(b, bound, packets);
        if b.started && Resets(b, bound) {
          var left := Removed(b, bound);
          LoopErases(left.(currentId := 0), packets, Begin(left));
        }
      } else {
        NothingBelow(b, bound);
      }
  }

  lemma NothingBelow(b: BufferState, bound: nat)
    requires Begin(b).Some? ==> bound <= Begin(b).value
    ensures Removed(b, bound).fragments == b.fragments
  {
  }

  ghost predicate IsRun(runs: seq<Run>, requests: seq<Request>, packets: seq<Media>)
    requires AllMergeable(packets)
  {
    && |runs| == |requests| + 1 && runs[0] == NewRun
    && forall i :: 0 <= i < |requests| ==>
      Allowed(runs[i], requests[i], packets) && Positive(runs[i].buffer) && runs[i + 1] == Do(runs[i], requests[i])
  }

  lemma {:induction false} RunHolds(runs: seq<Run>, requests: seq<Request>, packets: seq<Media>, i: nat)
    requires AllMergeable(packets) && IsRun(runs, requests, packets) && i < |runs|
    ensures Inv(runs[i], packets)
  {
    hide Inv, Do, Allowed, Publish;
    if i == 0 {
      assert Inv(NewRun, packets) by { NewHolds(packets); }
    } else {
      RunHolds(runs, requests, packets, i - 1);
      RequestHolds(runs[i - 1], requests[i - 1], packets);
    }
  }

  lemma NewHolds(packets: seq<Media>)
    requires AllMergeable(packets)
    ensures Inv(NewRun, packets)
  {
    NoPackets(packets);
  }

  /** After any run, everything that came out is a packet of the publisher, byte for byte, with ids
      that strictly increase and are consecutive between two resets; and once started nothing that
      could come out is left waiting. */
  lemma MergedInOrder(runs: seq<Run>, requests: seq<Request>, packets: seq<Media>, i: nat)
    requires AllMergeable(packets) && IsRun(runs, requests, packets) && i < |runs|
    ensures Proper(runs[i].events, packets)
    ensures runs[i].buffer.started ==> Eager(runs[i].buffer, packets)
  {
    hide Proper, Eager, IsRun, Good, Fresher;
    RunHolds(runs, requests, packets, i);
  }

  /** A buffer is started exactly from the first start request on, and nothing comes out before. */
  lemma {:induction false} StartedSince(runs: seq<Run>, requests: seq<Request>, packets: seq<Media>, i: nat)
    requires AllMergeable(packets) && IsRun(runs, requests, packets) && i < |runs|
    ensures runs[i].buffer.started <==> StartProcessing in requests[..i]
    ensures !runs[i].buffer.started ==> forall j :: 0 <= j < |runs[i].events| ==> runs[i].events[j].Reset?
  {
    hide Publish, ProcessFrom, Resets, Removed;
    if i > 0 {
      StartedSince(runs, requests, packets, i - 1);
      RunHolds(runs, requests, packets, i - 1);
      var before, r := runs[i - 1].buffer, requests[i - 1];
      assert requests[..i] == requests[..i - 1] + [r];
      StartedOne(before, r, packets);
      assert runs[i] == Do(runs[i - 1], r);
    }
  }

  lemma StartedOne(b: BufferState, r: Request, packets: seq<Media>)
    requires AllMergeable(packets) && Good(b, packets) && Positive(b) && (r.Add? ==> r.id >= 1)
    ensures Handle(b, r).buffer.started <==> b.started || r.StartProcessing?
    ensures !b.started && !r.StartProcessing? ==> Handle(b, r).emissions == []
  {
    hide ProcessFragment;
    forall c: BufferState, it: Option<nat> | Positive(c) && (it.Some? ==> it.value in c.fragments)
      ensures ProcessFrom(c, it).buffer.started == c.started
    {
      LoopStarted(c, it);
    }
  }

  lemma {:induction false} LoopStarted(b: BufferState, it: Option<nat>)
    requires Positive(b) && (it.Some? ==> it.value in b.fragments)
    ensures ProcessFrom(b, it).buffer.started == b.started
    decreases |OrderedMap.From(b.fragments.Keys, b.currentId + 1)|
  {
    hide ProcessFragment;
    if it.Some? {
      ProcessAdvances(b, it.value);
      KeepsKeys(b, it.value);
      var o := ProcessFragment(b, it.value);
      if o.emitted.Some? {
        LoopStarted(o.buffer, OrderedMap.LowerBound(o.buffer.fragments.Keys, o.buffer.currentId + 1));
      }
    }
  }

  // ---- Which packets the 8-bit counts can carry --------------------------------------------

  /** The fragments of a packet are there, after an id, among any others. */
  predicate AllThere(fragments: map<nat, Fragment>, m: Media, c: nat)
    requires m.payload != []
  {
    forall k :: c < k <= c + |Split(m)| ==> k in fragments && fragments[k] == Split(m)[k - c - 1]
  }

  lemma FirstThere(fragments: map<nat, Fragment>, m: Media, c: nat)
    requires m.payload != [] && AllThere(fragments, m, c)
    ensures c + 1 in fragments && fragments[c + 1] == FragmentAt(m, 0)
    ensures FragmentAt(m, 0).marker.Start? ==> FindStart(fragments, c + 1) == Some(c + 1)
  {
    hide SplitCount;
    assert c < c + 1 <= c + |Split(m)|;
  }

  lemma OnePart(m: Media)
    requires m.payload != [] && !FragmentAt(m, 0).marker.Start?
    ensures |Split(m)| == 1 && SplitCount(|m.payload|) == 0
    ensures FragmentAt(m, 0) == Fragment(if |m.payload| <= NETGROUP_MAX_PACKET_SIZE then Data else End, 0, m.kind, m.time, m.payload)
  {
  }

  /** Alone in its packet, a fragment comes out whole; but one marked as an end needs a current id. */
  lemma AloneComesOut(b: BufferState, m: Media, c: nat)
    requires m.payload != [] && AllThere(b.fragments, m, c) && !FragmentAt(m, 0).marker.Start?
    requires b.currentId == c || b.currentId == 0
    ensures c + 1 in b.fragments
    ensures ProcessFragment(b, c + 1).emitted
         == if b.currentId == c || |m.payload| <= NETGROUP_MAX_PACKET_SIZE then Some(Emission(c + 1, c + 1, m)) else None
  {
    hide SplitCount, Split, FragmentAt, AllThere;
    FirstThere(b.fragments, m, c);
    OnePart(m);
  }

  lemma AllJoined(fragments: map<nat, Fragment>, m: Media, c: nat)
    requires m.payload != [] && AllThere(fragments, m, c)
    ensures Present(fragments, c + 1, |Split(m)|) && Joined(fragments, c + 1, |Split(m)|) == m.payload
  {
    hide SplitCount, Split, Joined, Payload;
    var parts := Split(m);
    SplitJoins(m);
    JoinedPrefix(fragments, c + 1, parts, |parts|);
    assert parts[..|parts|] == parts;
  }

  lemma StartComesOut(b: BufferState, m: Media, c: nat)
    requires m.payload != [] && AllThere(b.fragments, m, c) && FragmentAt(m, 0).marker.Start?
    requires b.currentId == c || b.currentId == 0
    ensures var n := Count(FragmentAt(m, 0));
      && c + 1 in b.fragments && Present(b.fragments, c + 1, n)
      && ProcessFragment(b, c + 1).emitted == Some(Emission(c + 1, c + n, Media(m.kind, m.time, Joined(b.fragments, c + 1, n))))
  {
    hide SplitCount, Split, Joined, AllThere;
    FirstThere(b.fragments, m, c);
    AllJoined(b.fragments, m, c);
    Announced(m);
  }

  /** A start fragment announces its packet's fragments, unless they are 256. */
  lemma Announced(m: Media)
    requires m.payload != [] && FragmentAt(m, 0).marker.Start?
    ensures Count(FragmentAt(m, 0)) == if SplitCount(|m.payload|) == 255 then 1 else |Split(m)|
    ensures |Split(m)| == SplitCount(|m.payload|) as int + 1 > 1
  {
  }

  /** The fragments of a packet, all there after the current id or while there is none, among any
      others, merge to that packet if and only if its 8-bit count of further fragments is not 255,
      for which the number of fragments is 0 in 8 bits; and, while there is no current id, its only
      fragment is not marked as an end. */
  lemma MergesExactly(b: BufferState, m: Media, c: nat)
    requires m.payload != [] && AllThere(b.fragments, m, c) && (b.currentId == c || b.currentId == 0)
    ensures c + 1 in b.fragments
    ensures ProcessFragment(b, c + 1).emitted == Some(Emission(c + 1, c + |Split(m)|, m))
      <==> SplitCount(|m.payload|) != 255
           && (b.currentId == c || |m.payload| <= NETGROUP_MAX_PACKET_SIZE || SplitCount(|m.payload|) > 0)
  {
    hide SplitCount, Joined, AllThere, ProcessFragment, FragmentAt, Split;
    FirstThere(b.fragments, m, c);
    if FragmentAt(m, 0).marker.Start? {
      StartComesOut(b, m, c);
      AllJoined(b.fragments, m, c);
      Announced(m);
    } else {
      AloneComesOut(b, m, c);
      OnePart(m);
    }
  }

  /** The smallest packet that never merges. */
  lemma NotMerged(b: BufferState, m: Media, c: nat)
    requires |m.payload| == 255 * NETGROUP_MAX_PACKET_SIZE + 1
    requires AllThere(b.fragments, m, c) && (b.currentId == c || b.currentId == 0)
    ensures c + 1 in b.fragments && ProcessFragment(b, c + 1).emitted != Some(Emission(c + 1, c + |Split(m)|, m))
  {
    hide ProcessFragment, Split, AllThere;
    MergesExactly(b, m, c);
  }

  /** A packet of 257 parts is one fragment marked as an end, and is erased while no id is current. */
  lemma LoneEndErased(b: BufferState, m: Media, c: nat)
    requires |m.payload| == 257 * NETGROUP_MAX_PACKET_SIZE
    requires AllThere(b.fragments, m, c) && b.currentId == 0 < c
    ensures c + 1 in b.fragments
    ensures ProcessFragment(b, c + 1) == Outcome(b.(fragments := OrderedMap.Without(b.fragments, c + 1)), None)
  {
    hide Split, AllThere;
    FirstThere(b.fragments, m, c);
  }
}
