/** The addresses a group knows and the peers it chooses among them (sources/NetGroup.cpp). Peer ids
    and group addresses are numbers: only their order and their equality matter. */
module NetGroups {
  import opened Bytes
  import opened OrderedMap

  datatype Entry = Entry(address: nat, peer: nat)

  predicate Distinct(entries: seq<Entry>) {
    forall i, j :: 0 <= i < j < |entries| ==>
      entries[i].address != entries[j].address && entries[i].peer != entries[j].peer
  }

  /** An address map in its order, no peer twice. */
  predicate Ordered(entries: seq<Entry>) {
    Distinct(entries) && forall i, j :: 0 <= i < j < |entries| ==> entries[i].address < entries[j].address
  }

  /** The index of the first entry at or after an address, |entries| when there is none. */
  function LowerIndex(entries: seq<Entry>, address: nat): (i: nat)
    ensures i <= |entries|
    ensures i < |entries| ==> entries[i].address >= address
    ensures forall j :: 0 <= j < i ==> entries[j].address < address
  {
    if entries == [] || entries[0].address >= address then 0 else 1 + LowerIndex(entries[1..], address)
  }

  function Next(i: nat, n: nat): nat {
    if i + 1 >= n then 0 else i + 1
  }

  function Previous(i: nat, n: nat): int {
    if i == 0 then n - 1 else i - 1
  }

  /** The peers of the entries but for one address. */
  function Others(entries: seq<Entry>, own: nat): set<nat> {
    if entries == [] then {}
    else
      var last := entries[|entries| - 1];
      Others(entries[..|entries| - 1], own) + if last.address == own then {} else {last.peer}
  }

  predicate Has(entries: seq<Entry>, address: nat) {
    exists i :: 0 <= i < |entries| && entries[i].address == address
  }

  predicate Is(entries: seq<Entry>, own: nat, p: nat, i: nat) {
    i < |entries| && entries[i].address != own && entries[i].peer == p
  }

  lemma {:induction false} OthersIn(entries: seq<Entry>, own: nat, p: nat) returns (i: nat)
    requires p in Others(entries, own)
    ensures Is(entries, own, p, i)
  {
    var m := |entries| - 1;
    if p in Others(entries[..m], own) { i := OthersIn(entries[..m], own, p); } else { i := m; }
  }

  lemma {:induction false} OthersAll(entries: seq<Entry>, own: nat, p: nat, i: nat)
    requires Is(entries, own, p, i)
    ensures p in Others(entries, own)
  {
    if i < |entries| - 1 { OthersAll(entries[..|entries| - 1], own, p, i); }
  }

  /** One entry more is one more peer, but for the own address. */
  lemma OthersStep(entries: seq<Entry>, own: nat, m: nat)
    requires Distinct(entries) && m < |entries|
    ensures Others(entries[..m + 1], own) == Others(entries[..m], own) + (if entries[m].address == own then {} else {entries[m].peer})
    ensures entries[m].peer !in Others(entries[..m], own)
  {
    assert entries[..m + 1][..m] == entries[..m];
    if entries[m].peer in Others(entries[..m], own) {
      var i := OthersIn(entries[..m], own, entries[m].peer);
    }
  }

  lemma {:induction false} OthersCount(entries: seq<Entry>, own: nat, m: nat)
    requires Distinct(entries) && m <= |entries|
    ensures |Others(entries[..m], own)| == m - if Has(entries[..m], own) then 1 else 0
  {
    if m > 0 {
      OthersCount(entries, own, m - 1);
      OthersStep(entries, own, m - 1);
      HasStep(entries, own, m - 1);
    }
  }

  lemma HasStep(entries: seq<Entry>, own: nat, m: nat)
    requires Distinct(entries) && m < |entries|
    ensures Has(entries[..m + 1], own) <==> Has(entries[..m], own) || entries[m].address == own
    ensures !(Has(entries[..m], own) && entries[m].address == own)
  {
    if Has(entries[..m], own) {
      var i :| 0 <= i < m && entries[..m][i].address == own;
      assert entries[..m + 1][i].address == own;
    }
    if entries[m].address == own { assert entries[..m + 1][m].address == own; }
    if Has(entries[..m + 1], own) {
      var i :| 0 <= i < m + 1 && entries[..m + 1][i].address == own;
      if i < m { assert entries[..m][i].address == own; }
    }
  }

  /** An entry that may still be added. */
  predicate Allowed(e: Entry, own: nat, best: set<nat>) {
    e.address != own && e.peer !in best
  }

  lemma SubsetSize(a: set<nat>, b: set<nat>)
    requires a <= b
    ensures |a| <= |b|
  {
    if a != b { SubsetShrinks(a, b); }
  }

  /** As long as there are more others than peers chosen, one of them was not. */
  lemma SomeAllowed(entries: seq<Entry>, own: nat, best: set<nat>) returns (k: nat)
    requires Ordered(entries) && |best| < |entries| - if Has(entries, own) then 1 else 0
    ensures k < |entries| && Allowed(entries[k], own, best)
  {
    OthersCount(entries, own, |entries|);
    assert entries[..|entries|] == entries;
    if Others(entries, own) <= best { SubsetSize(Others(entries, own), best); }
    var p :| p in Others(entries, own) && p !in best;
    k := OthersIn(entries, own, p);
  }

  /** How far k is from i going round. */
  function Distance(i: nat, k: nat, n: nat): int {
    if i <= k then k - i else k - i + n
  }

  /** The entries from a place on, going round. */
  function Ring(entries: seq<Entry>, start: nat): (ring: seq<Entry>)
    requires start < |entries|
    ensures |ring| == |entries|
  {
    entries[start..] + entries[..start]
  }

  function Around(start: nat, k: nat, n: nat): int {
    if start + k < n then start + k else start + k - n
  }

  lemma RingAt(entries: seq<Entry>, start: nat)
    requires start < |entries|
    ensures forall k: nat :: k < |entries| ==>
      0 <= Around(start, k, |entries|) < |entries| && Ring(entries, start)[k] == entries[Around(start, k, |entries|)]
  {
  }

  /** The first entry of a ring that may be added. */
  ghost predicate FirstIn(ring: seq<Entry>, own: nat, best: set<nat>, e: Entry) {
    exists d: nat :: d < |ring| && ring[d] == e && Allowed(e, own, best) && NoneBefore(ring, own, best, d)
  }

  predicate NoneBefore(ring: seq<Entry>, own: nat, best: set<nat>, d: nat)
    requires d <= |ring|
  {
    forall c: nat :: c < d ==> !Allowed(ring[c], own, best)
  }

  /** Goes round until an entry may be added. */
  method NextAllowed(entries: seq<Entry>, own: nat, best: set<nat>, from: nat) returns (i: nat)
    requires from < |entries| && Ordered(entries)
    requires |best| < |entries| - if Has(entries, own) then 1 else 0
    ensures i < |entries| && FirstIn(Ring(entries, from), own, best, entries[i])
  {
    hide Ring, Ordered;
    ghost var k := SomeAllowed(entries, own, best);
    ghost var n, ring, there := |entries|, Ring(entries, from), Distance(from, k, |entries|);
    RingAt(entries, from);
    i := from;
    ghost var tried: nat := 0;
    while entries[i].address == own || entries[i].peer in best
      invariant i < n && tried <= there < n && i == Around(from, tried, n)
      invariant NoneBefore(ring, own, best, tried)
      decreases there - tried
    {
      assert ring[tried] == entries[i] && ring[there] == entries[k];
      i := Next(i, |entries|);
      tried := tried + 1;
    }
    assert ring[tried] == entries[i];
  }

  /** The first entry that may be added from a random place on, if there is one. */
  method RandomAllowed(entries: seq<Entry>, own: nat, best: set<nat>, random: nat) returns (result: Option<nat>)
    requires entries != []
    ensures result.Some? ==>
      result.value < |entries| && FirstIn(Ring(entries, random % |entries|), own, best, entries[result.value])
    ensures result.None? ==> forall k :: 0 <= k < |entries| ==> !Allowed(entries[k], own, best)
  {
    hide Ring;
    var start := random % |entries|;
    var i: nat := start;
    ghost var n, ring := |entries|, Ring(entries, start);
    RingAt(entries, start);
    ghost var tried: nat := 0;
    while entries[i].address == own || entries[i].peer in best
      invariant i < n && tried < n && i == Around(start, tried, n)
      invariant NoneBefore(ring, own, best, tried)
      decreases n - tried
    {
      assert ring[tried] == entries[i];
      i := Next(i, |entries|);
      tried := tried + 1;
      if i == start {
        forall k | 0 <= k < n ensures !Allowed(entries[k], own, best) {
          assert ring[Distance(start, k, n)] == entries[k];
        }
        return None;
      }
    }
    assert ring[tried] == entries[i];
    result := Some(i);
  }

  lemma RingDistinct(entries: seq<Entry>, start: nat)
    requires Distinct(entries) && start < |entries|
    ensures Distinct(Ring(entries, start))
    ensures forall k :: 0 <= k < |entries| ==>
      Ring(entries, start)[k] == entries[if start + k < |entries| then start + k else start + k - |entries|]
  {
  }

  /** Where the search of the closest entries starts: two before the address. */
  function TwoBefore(entries: seq<Entry>, own: nat): (start: nat)
    requires entries != []
    ensures start < |entries|
  {
    var n := |entries|;
    var i := LowerIndex(entries, own);
    Previous(Previous(if i == n then n - 1 else i, n), n)
  }

  /** Two places further is the entry at or after the address, or the last one. */
  lemma TwoBeforeExact(entries: seq<Entry>, own: nat)
    requires |entries| > 2
    ensures var i := LowerIndex(entries, own); var n := |entries|;
      Ring(entries, TwoBefore(entries, own))[2] == entries[if i == n then n - 1 else i]
  {
    hide LowerIndex;
    RingAt(entries, TwoBefore(entries, own));
  }

  /** The 6 entries around an address: from two before it, its own not counted. */
  method Closest(entries: seq<Entry>, own: nat) returns (best: set<nat>, count: nat, ghost met: nat)
    requires Ordered(entries) && |entries| > 6
    ensures 6 <= met <= 7 && best == Others(Ring(entries, TwoBefore(entries, own))[..met], own)
    ensures count == 6 == |best|
  {
    hide Others, Ring, LowerIndex, Ordered, Distinct;
    var n := |entries|;
    var first := LowerIndex(entries, own);
    if first == n { first := n - 1; }
    first := Previous(first, n);
    first := Previous(first, n);
    ghost var start: nat := first;
    ghost var ring := Ring(entries, start);
    met := 0;
    best, count := {}, 0;
    var j := 0;
    NoOthers(ring, own);
    while j < 6
      invariant 0 <= j <= 6 && j <= met <= j + 1
      invariant first == if start + met < n then start + met else start + met - n
      invariant best == Others(ring[..met], own) && |best| == count == j
      decreases 7 - met
    {
      MeetOne(entries, own, start, met);
      if entries[first].address != own {
        if entries[first].peer !in best { count := count + 1; }
        best := best + {entries[first].peer};
        j := j + 1;
      }
      met := met + 1;
      first := Next(first, n);
    }
  }

  /** One entry further round the ring: a peer not met before, or the own address, met once. */
  lemma MeetOne(entries: seq<Entry>, own: nat, start: nat, met: nat)
    requires Ordered(entries) && start < |entries| && met < |entries|
    ensures var ring := Ring(entries, start);
      var e := entries[if start + met < |entries| then start + met else start + met - |entries|];
      var before, after := Others(ring[..met], own), Others(ring[..met + 1], own);
      && after == before + (if e.address == own then {} else {e.peer}) && e.peer !in before
      && |after| == |before| + (if e.address == own then 0 else 1)
      && met <= |after| <= met + 1
  {
    hide Others, Has;
    RingDistinct(entries, start);
    var ring := Ring(entries, start);
    OthersStep(ring, own, met);
    OthersCount(ring, own, met + 1);
    OthersCount(ring, own, met);
    HasStep(ring, own, met);
  }

  lemma NoOthers(entries: seq<Entry>, own: nat)
    ensures Others(entries[..0], own) == {}
  {
  }

  /** The peers of a queue but for one. */
  function AllBut(queue: seq<nat>, peerId: nat): (rest: seq<nat>)
    ensures |rest| <= |queue|
  {
    if queue == [] then []
    else
      var last := queue[|queue| - 1];
      AllBut(queue[..|queue| - 1], peerId) + if last == peerId then [] else [last]
  }

  /** The first six connected peers by latency, but for the very first and for the peer itself. */
  function Lowest(queue: seq<nat>, peerId: nat): seq<nat> {
    if queue == [] then []
    else
      var rest := AllBut(queue[1..], peerId);
      if |rest| > 6 then rest[..6] else rest
  }

  lemma {:induction false} AllButPrefix(queue: seq<nat>, peerId: nat, n: nat)
    requires n <= |queue|
    ensures AllBut(queue[..n], peerId) <= AllBut(queue, peerId)
  {
    if n == |queue| {
      assert queue[..n] == queue;
    } else {
      var init := queue[..|queue| - 1];
      AllButPrefix(init, peerId, n);
      assert init[..n] == queue[..n];
    }
  }

  function Elements(s: seq<nat>): set<nat> {
    set p | p in s
  }

  /** One more peer, new or not. */
  lemma CountOne(best: set<nat>, p: nat)
    ensures |best + {p}| == |best| + if p in best then 0 else 1
  {
    if p in best {
      assert best + {p} == best;
    } else {
      assert best !! {p};
    }
  }

  lemma AllButStep(queue: seq<nat>, peerId: nat, it: nat)
    requires 1 <= it < |queue|
    ensures var before, after := AllBut(queue[1..it], peerId), AllBut(queue[1..it + 1], peerId);
      && |after| == |before| + (if queue[it] == peerId then 0 else 1)
      && Elements(after) == Elements(before) + (if queue[it] == peerId then {} else {queue[it]})
  {
    assert queue[1..it + 1][..it - 1] == queue[1..it];
  }

  lemma AllButNone(queue: seq<nat>, peerId: nat)
    requires queue != []
    ensures AllBut(queue[1..1], peerId) == [] && Elements([]) == {}
  {
    assert queue[1..1] == [];
  }

  /** Six were found, or the whole queue was looked at. */
  lemma LowestReached(queue: seq<nat>, peerId: nat, it: nat)
    requires 1 <= it <= |queue| && |AllBut(queue[1..it], peerId)| <= 6
    requires it == |queue| || |AllBut(queue[1..it], peerId)| == 6
    ensures Lowest(queue, peerId) == AllBut(queue[1..it], peerId)
  {
    AllButPrefix(queue[1..], peerId, it - 1);
    assert queue[1..][..it - 1] == queue[1..it];
    assert queue[1..|queue|] == queue[1..];
  }

  method LowestLatency(queue: seq<nat>, peerId: nat, given: set<nat>, countGiven: nat) returns (best: set<nat>, count: nat)
    requires countGiven == |given|
    ensures best == given + Elements(Lowest(queue, peerId)) && peerId !in best - given
    ensures countGiven <= count == |best| <= countGiven + 6
  {
    hide AllBut, Elements, Lowest;
    best, count := given, countGiven;
    NobodyConnected(peerId);
    if queue == [] { return; }
    var i, it := 0, 1;
    AllButNone(queue, peerId);
    while it < |queue| && i < 6
      invariant 1 <= it <= |queue| && i == |AllBut(queue[1..it], peerId)| <= 6
      invariant best == given + Elements(AllBut(queue[1..it], peerId)) && peerId !in best - given
      invariant countGiven <= count == |best| <= countGiven + i
      decreases |queue| - it
    {
      AllButStep(queue, peerId, it);
      if queue[it] != peerId {
        CountOne(best, queue[it]);
        if queue[it] !in best { count := count + 1; }
        best := best + {queue[it]};
        i := i + 1;
      }
      it := it + 1;
    }
    LowestReached(queue, peerId, it);
  }

  /** 2 to a power as the 32-bit divisor holds it. */
  function Divisor(missing: nat): uint32 {
    U32(Pow2(missing))
  }

  /** The divisor is there up to 31 missing peers, and 0 from 32 on. */
  lemma {:induction false} DivisorVanishes(missing: nat)
    ensures Divisor(missing) == 0 <==> missing >= 32
    ensures missing < 32 ==> Divisor(missing) == Pow2(missing)
  {
    Pow2Words();
    if missing < 32 {
      Pow2Increases(missing, 32);
    } else if missing > 32 {
      DivisorVanishes(missing - 1);
      Doubles(Pow2(missing - 1));
    }
  }

  lemma Doubles(p: nat)
    requires U32(p) == 0
    ensures U32(2 * p) == 0
  {
    assert 2 * p == 0x1_0000_0000 * (2 * (p / 0x1_0000_0000));
  }

  /** Where a peer that is missing is looked for first: a fraction of the ring further. */
  function Further(n: nat, from: nat, missing: nat): (place: nat)
    requires n > 0
    ensures place < n
  {
    (from + n / Pow2(missing)) % n
  }

  /** One more peer, the first that may be added from a fraction of the ring further on. It fails when
      32 bits hold the divisor as 0. */
  method OneDistant(entries: seq<Entry>, own: nat, given: set<nat>, from: nat, missing: nat)
    returns (best: set<nat>, target: nat, ok: bool)
    requires Ordered(entries) && from < |entries| && missing > 0
    requires |given| < |entries| - if Has(entries, own) then 1 else 0
    ensures ok <==> missing <= 31
    ensures target < |entries| && given <= best <= given + Others(entries, own)
    ensures ok ==>
      && FirstIn(Ring(entries, Further(|entries|, from, missing)), own, given, entries[target])
      && best == given + {entries[target].peer} && |best| == |given| + 1
  {
    hide Others, Has, Divisor, Ordered, Pow2, U32, Ring;
    best, target, ok := given, from, false;
    DivisorVanishes(missing);
    if Divisor(missing) == 0 { return; }
    TwoAtLeast(missing);
    target := Advance(target, |entries|, Divisor(missing));
    target := NextAllowed(entries, own, best, target);
    FirstAllowed(Ring(entries, Further(|entries|, from, missing)), own, best, entries[target]);
    OthersAll(entries, own, entries[target].peer, target);
    CountOne(best, entries[target].peer);
    best, ok := best + {entries[target].peer}, true;
  }

  lemma TwoAtLeast(n: nat)
    requires n > 0
    ensures Pow2(n) > 1
  {
  }

  lemma FirstAllowed(ring: seq<Entry>, own: nat, best: set<nat>, e: Entry)
    requires FirstIn(ring, own, best, e)
    ensures Allowed(e, own, best)
  {
  }

  /** The place from which the distant peers are searched. */
  function StartPlace(entries: seq<Entry>, own: nat): (place: nat)
    requires entries != []
    ensures place < |entries|
  {
    var i := LowerIndex(entries, own);
    if i == |entries| then 0 else i
  }

  predicate Within(entries: seq<Entry>, places: seq<nat>) {
    forall i :: 0 <= i < |places| ==> places[i] < |entries|
  }

  function PeersOf(entries: seq<Entry>, places: seq<nat>): set<nat>
    requires Within(entries, places)
    decreases |places|
  {
    if places == [] then {}
    else PeersOf(entries, places[..|places| - 1]) + {entries[places[|places| - 1]].peer}
  }

  /** A place is that of the first entry that may be added after those before, from a fraction of the
      ring beyond the last of them: with m missing, a 2^m-th. */
  ghost predicate PickedNext(entries: seq<Entry>, own: nat, given: set<nat>, missing: nat, before: seq<nat>, place: nat)
    requires entries != [] && Within(entries, before)
  {
    var from := if before == [] then StartPlace(entries, own) else before[|before| - 1];
    && place < |entries|
    && FirstIn(Ring(entries, Further(|entries|, from, missing)), own, given + PeersOf(entries, before), entries[place])
  }

  /** Each of these places was picked after those before it. */
  ghost predicate Picked(entries: seq<Entry>, own: nat, given: set<nat>, missing: nat, places: seq<nat>)
    requires entries != [] && |places| <= missing
    ensures Picked(entries, own, given, missing, places) ==> Within(entries, places)
    decreases |places|
  {
    places == [] ||
    var n := |places| - 1;
    && Picked(entries, own, given, missing, places[..n])
    && PickedNext(entries, own, given, missing - n, places[..n], places[n])
  }

  lemma PickedSnoc(entries: seq<Entry>, own: nat, given: set<nat>, missing: nat, places: seq<nat>, place: nat)
    requires entries != [] && |places| < missing && Picked(entries, own, given, missing, places)
    requires PickedNext(entries, own, given, missing - |places|, places, place)
    ensures Picked(entries, own, given, missing, places + [place]) && place < |entries|
    ensures PeersOf(entries, places + [place]) == PeersOf(entries, places) + {entries[place].peer}
  {
    assert place < |entries|;
    hide PickedNext;
    assert (places + [place])[..|places|] == places;
  }

  /** What the search has found: so many places, and their peers. */
  ghost predicate Found(entries: seq<Entry>, own: nat, given: set<nat>, missing: nat, places: seq<nat>, best: set<nat>, target: nat)
    requires entries != []
  {
    && |places| <= missing && Picked(entries, own, given, missing, places)
    && best == given + PeersOf(entries, places) && |best| == |given| + |places| && best <= given + Others(entries, own)
    && target < |entries| && target == if places == [] then StartPlace(entries, own) else places[|places| - 1]
  }

  /** One turn of the search. */
  method FindOne(entries: seq<Entry>, own: nat, before: set<nat>, from: nat, missing: nat,
                 ghost first: set<nat>, ghost all: nat, ghost places: seq<nat>)
    returns (best: set<nat>, target: nat, ok: bool)
    requires Ordered(entries) && entries != [] && Found(entries, own, first, all, places, before, from)
    requires missing == all - |places| > 0 && |first| + all <= |entries| - if Has(entries, own) then 1 else 0
    ensures ok <==> missing <= 31
    ensures ok ==> target < |entries| && Found(entries, own, first, all, places + [target], best, target)
    ensures !ok ==> best == before
  {
    hide Others, Has, Ordered, Ring, FirstIn, Further, PeersOf, StartPlace;
    best, target, ok := OneDistant(entries, own, before, from, missing);
    if !ok { return before, target, false; }
    PickedSnoc(entries, own, first, all, places, target);
  }

  /** The peers at 1/2, 1/4, 1/8 ... of the ring, until there are enough. */
  method Distant(entries: seq<Entry>, own: nat, given: set<nat>, targetCount: int)
    returns (best: set<nat>, ok: bool, ghost places: seq<nat>)
    requires Ordered(entries) && entries != []
    requires targetCount <= |entries| - if Has(entries, own) then 1 else 0
    ensures ok <==> targetCount - |given| <= 31
    ensures given <= best <= given + Others(entries, own)
    ensures ok ==> |best| == if targetCount > |given| then targetCount else |given|
    ensures ok ==>
      var missing := if targetCount > |given| then targetCount - |given| else 0;
      |places| == missing && Picked(entries, own, given, missing, places) && best == given + PeersOf(entries, places)
  {
    hide Others, Has, Ordered, Picked, PeersOf, LowerIndex;
    best, ok, places := given, true, [];
    var target: nat := LowerIndex(entries, own);
    if target == |entries| { target := 0; }
    var missing := targetCount - |given|;
    ghost var all := if missing > 0 then missing else 0;
    NothingPicked(entries, own, given, all);
    while missing > 0
      invariant missing == targetCount - |given| - |places|
      invariant Found(entries, own, given, all, places, best, target)
      invariant places != [] ==> all <= 31
      decreases missing
    {
      best, target, ok := FindOne(entries, own, best, target, missing, given, all, places);
      if !ok { return; }
      places := places + [target];
      missing := missing - 1;
    }
  }

  lemma NothingPicked(entries: seq<Entry>, own: nat, given: set<nat>, missing: nat)
    requires entries != []
    ensures Picked(entries, own, given, missing, []) && PeersOf(entries, []) == {}
  {
  }

  /** A fraction of the ring further. */
  method Advance(from: nat, n: nat, divisor: nat) returns (target: nat)
    requires from < n && divisor > 1
    ensures target == (from + n / divisor) % n
  {
    target := from;
    var i, step := 0, n / divisor;
    HalfRound(from, n, divisor);
    while i < step
      invariant i <= step && target == Around(from, i, n)
    {
      target := Next(target, n);
      i := i + 1;
    }
  }

  /** No fraction goes round more than once. */
  lemma HalfRound(from: nat, n: nat, divisor: nat)
    requires from < n && divisor > 1
    ensures n / divisor < n && (from + n / divisor) % n == Around(from, n / divisor, n)
  {
    var q := n / divisor;
    assert n == divisor * q + n % divisor;
    Twice(divisor, q);
    var x := from + q;
    if x >= n {
      Remainder(x - n, n, 1);
      Small(x - n, n);
    } else {
      Small(x, n);
    }
  }

  lemma Twice(a: nat, q: nat)
    requires a > 1
    ensures a * q >= 2 * q
  {
  }

  lemma Small(r: nat, n: nat)
    requires r < n
    ensures r % n == r
  {
  }

  /** The peers chosen before the distant ones: those of the first `met` entries of the ring from two
      before the address on, those of lowest latency, and the first one from a random place that may
      be added, if any. */
  ghost function Given(entries: seq<Entry>, own: nat, peerId: nat, queue: seq<nat>, met: nat, one: Option<nat>): set<nat>
    requires met <= |entries| && entries != [] && (one.Some? ==> one.value < |entries|)
  {
    Others(Ring(entries, TwoBefore(entries, own))[..met], own) + Elements(Lowest(queue, peerId))
    + if one.Some? then {entries[one.value].peer} else {}
  }

  /** How the peers chosen first were found: six neighbours, and the random one. */
  ghost predicate Chosen(entries: seq<Entry>, own: nat, peerId: nat, queue: seq<nat>, random: nat, met: nat, one: Option<nat>)
    requires entries != []
  {
    && 6 <= met <= 7 && met <= |entries| && (one.Some? ==> one.value < |entries|)
    && |Others(Ring(entries, TwoBefore(entries, own))[..met], own)| == 6
    && (var near := Given(entries, own, peerId, queue, met, None);
        if one.Some? then FirstIn(Ring(entries, random % |entries|), own, near, entries[one.value])
        else forall k :: 0 <= k < |entries| ==> !Allowed(entries[k], own, near))
  }

  /** The best list of a peer among more than 6 entries, `target` of them if possible; `queue` are
      the connected peers by latency. The peer itself, if known, is known by its address. It fails if
      and only if more than 31 peers are missing when the distant ones are searched. */
  method BuildBestList(entries: seq<Entry>, own: nat, peerId: nat, isSelf: bool, queue: seq<nat>, random: nat, target: nat)
    returns (best: set<nat>, count: nat, targetCount: int, ok: bool,
             ghost met: nat, ghost one: Option<nat>, ghost places: seq<nat>)
    requires Ordered(entries) && |entries| > 6
    requires forall i :: 0 <= i < |entries| ==> (entries[i].address == own <==> entries[i].peer == peerId)
    requires isSelf ==> !Has(entries, own)
    ensures targetCount == if target < |entries| - (if isSelf then 0 else 1) then target else |entries| - (if isSelf then 0 else 1)
    ensures 6 <= count <= 13 && (|entries| > 13 ==> count >= 7) && (queue == [] ==> count <= 7)
    ensures ok <==> targetCount - count <= 31
    ensures peerId !in best
    ensures ok ==> |best| == if targetCount > count then targetCount else count
    ensures Chosen(entries, own, peerId, queue, random, met, one) && count == |Given(entries, own, peerId, queue, met, one)|
    ensures ok ==>
      var given := Given(entries, own, peerId, queue, met, one);
      var missing := if targetCount > count then targetCount - count else 0;
      |places| == missing && Picked(entries, own, given, missing, places) && best == given + PeersOf(entries, places)
  {
    hide Others, Ring, TwoBefore, Lowest, Has, Picked, PeersOf, FirstIn;
    best, count, met := Closest(entries, own);
    ghost var closest := best;
    RingOthers(entries, own, peerId, TwoBefore(entries, own), met);
    best, count := LowestLatency(queue, peerId, best, count);
    assert queue == [] ==> Lowest(queue, peerId) == [] by { NobodyConnected(peerId); }
    assert queue == [] ==> best == closest;
    var it := RandomAllowed(entries, own, best, random);
    one := it;
    if it.Some? {
      FirstAllowed(Ring(entries, random % |entries|), own, best, entries[it.value]);
      CountOne(best, entries[it.value].peer);
      best := best + {entries[it.value].peer};
      count := count + 1;
    } else {
      assert best + {} == best;
      if |entries| > 13 {
        var k := SomeAllowed(entries, own, best);
      }
    }
    targetCount := |entries| - (if isSelf then 0 else 1);
    if target < targetCount { targetCount := target; }
    NotOther(entries, own, peerId);
    best, ok, places := Distant(entries, own, best, targetCount);
  }

  lemma NobodyConnected(peerId: nat)
    ensures Lowest([], peerId) == [] && Elements([]) == {}
  {
  }

  /** Forty known peers, nobody connected, and a target of 39: the list cannot be built. */
  method FortyPeers() returns (ok: bool)
    ensures !ok
  {
    var entries := seq(40, i requires 0 <= i < 40 => Entry(i, i));
    assert !Has(entries, 40);
    var best, count, targetCount;
    ghost var met, one, places;
    best, count, targetCount, ok, met, one, places := BuildBestList(entries, 40, 40, true, [], 0, 39);
  }

  /** The peer itself is not one of the others. */
  lemma NotOther(entries: seq<Entry>, own: nat, peerId: nat)
    requires forall i :: 0 <= i < |entries| ==> (entries[i].address == own <==> entries[i].peer == peerId)
    ensures peerId !in Others(entries, own)
  {
    if peerId in Others(entries, own) {
      var i := OthersIn(entries, own, peerId);
    }
  }

  lemma RingOthers(entries: seq<Entry>, own: nat, peerId: nat, start: nat, met: nat)
    requires forall i :: 0 <= i < |entries| ==> (entries[i].address == own <==> entries[i].peer == peerId)
    requires start < |entries| && met <= |entries|
    ensures peerId !in Others(Ring(entries, start)[..met], own)
  {
    NotOther(Ring(entries, start)[..met], own, peerId);
  }

  // ---- The heard list and the address map --------------------------------------------------

  /** The entries of an address map in their order. */
  function Listing(m: map<nat, nat>): (entries: seq<Entry>)
    decreases |m|
  {
    if m == map[] then []
    else
      var k := First(m.Keys);
      WithoutShrinks(m, k);
      [Entry(k, m[k])] + Listing(Without(m, k))
  }

  lemma {:induction false} ListingExact(m: map<nat, nat>)
    requires forall a, b :: a in m && b in m && m[a] == m[b] ==> a == b
    ensures Ordered(Listing(m)) && |Listing(m)| == |m|
    ensures forall i :: 0 <= i < |Listing(m)| ==> var e := Listing(m)[i]; e.address in m && m[e.address] == e.peer
    decreases |m|
  {
    if m != map[] {
      var k := First(m.Keys);
      WithoutShrinks(m, k);
      var rest := Without(m, k);
      WithoutCount(m, k);
      ListingExact(rest);
      var tail := Listing(rest);
      forall i | 0 <= i < |tail| ensures k < tail[i].address && m[k] != tail[i].peer {
        assert tail[i].address in rest.Keys;
      }
      ConsOrdered(Entry(k, m[k]), tail);
      assert Listing(m) == [Entry(k, m[k])] + tail;
    }
  }

  lemma WithoutCount(m: map<nat, nat>, k: nat)
    requires k in m
    ensures |Without(m, k)| == |m| - 1
  {
    assert |m| == |m.Keys| && |Without(m, k)| == |Without(m, k).Keys|;
  }

  lemma ConsOrdered(e: Entry, tail: seq<Entry>)
    requires Ordered(tail) && forall i :: 0 <= i < |tail| ==> e.address < tail[i].address && e.peer != tail[i].peer
    ensures Ordered([e] + tail)
  {
  }

  datatype Heard = Heard(address: nat, lastReport: int)

  const NETGROUP_PEER_TIMEOUT := 300000

  predicate Expired(h: Heard, now: int) {
    now > h.lastReport && now - h.lastReport > NETGROUP_PEER_TIMEOUT
  }

  predicate IsCoupled(heard: map<nat, Heard>, addresses: map<nat, nat>) {
    && (forall p :: p in heard ==> heard[p].address in addresses && addresses[heard[p].address] == p)
    && (forall a :: a in addresses ==> addresses[a] in heard && heard[addresses[a]].address == a)
  }

  /** The peers not expired, among those before a bound. */
  function StillHeard(heard: map<nat, Heard>, now: int, bound: nat): map<nat, Heard> {
    map p | p in heard && (p >= bound || !Expired(heard[p], now)) :: heard[p]
  }

  lemma StillHeardStep(heard: map<nat, Heard>, now: int, bound: nat, p: nat)
    requires LowerBound(StillHeard(heard, now, bound).Keys, bound) == Some(p)
    ensures p in heard && p in StillHeard(heard, now, bound) && StillHeard(heard, now, bound)[p] == heard[p]
    ensures StillHeard(heard, now, p + 1)
         == if Expired(heard[p], now) then Without(StillHeard(heard, now, bound), p) else StillHeard(heard, now, bound)
  {
    var r := StillHeard(heard, now, bound);
    assert p in r.Keys;
    forall q | q in heard && q >= bound ensures q >= p { assert q in r.Keys; }
  }

  lemma StillHeardEnds(heard: map<nat, Heard>, now: int)
    ensures StillHeard(heard, now, 0) == heard
  {
  }

  lemma StillHeardAll(heard: map<nat, Heard>, now: int, bound: nat)
    requires LowerBound(StillHeard(heard, now, bound).Keys, bound).None?
    ensures StillHeard(heard, now, bound) == map p | p in heard && !Expired(heard[p], now) :: heard[p]
  {
    forall p | p in heard && p >= bound ensures Expired(heard[p], now) {
      assert p !in StillHeard(heard, now, bound).Keys;
    }
  }

  lemma Fewer(keys: set<nat>, keys': set<nat>, bound: nat, p: nat)
    requires LowerBound(keys, bound) == Some(p) && keys' <= keys
    ensures |From(keys', p + 1)| < |From(keys, bound)|
  {
    assert p in From(keys, bound) && p !in From(keys', p + 1);
    SubsetShrinks(From(keys', p + 1), From(keys, bound));
  }

  lemma CoupledWithout(heard: map<nat, Heard>, addresses: map<nat, nat>, p: nat)
    requires IsCoupled(heard, addresses) && p in heard
    ensures IsCoupled(Without(heard, p), Without(addresses, heard[p].address))
  {
  }

  class NetGroup {
    var heardList: map<nat, Heard>
    var addresses: map<nat, nat>
    var diedPeers: map<nat, Heard>

    /** The address map is the heard list the other way round; nobody in it died. */
    ghost predicate Valid()
      reads this
    {
      IsCoupled(heardList, addresses) && heardList.Keys !! diedPeers.Keys
    }

    constructor ()
      ensures Valid() && heardList == map[] && diedPeers == map[]
    {
      heardList, addresses, diedPeers := map[], map[], map[];
    }

    /** A peer neither known nor died is heard of, with its address, a hash of its id. The maps stay
        inverse if and only if no other known peer has that address. */
    method AddPeer2HeardList(peerId: nat, address: nat, lastReport: int)
      requires Valid()
      modifies this
      ensures diedPeers == old(diedPeers)
      ensures peerId in old(diedPeers) || peerId in old(heardList) ==>
        heardList == old(heardList) && addresses == old(addresses) && Valid()
      ensures peerId !in old(diedPeers) && peerId !in old(heardList) ==>
        && heardList == old(heardList)[peerId := Heard(address, lastReport)]
        && addresses == (if address in old(addresses) then old(addresses) else old(addresses)[address := peerId])
        && (Valid() <==> forall p :: p in old(heardList) ==> old(heardList)[p].address != address)
    {
      if peerId in diedPeers || peerId in heardList { return; }
      assert address in addresses ==> addresses[address] in heardList && heardList[addresses[address]].address == address;
      if address !in addresses { addresses := addresses[address := peerId]; }
      heardList := heardList[peerId := Heard(address, lastReport)];
      assert heardList[peerId].address == address;
    }

    /** A known peer that did not die yet is kept apart. */
    method HandlePeerDisconnection(peerId: nat)
      requires Valid()
      modifies this
      ensures Valid() && heardList == Without(old(heardList), peerId)
      ensures diedPeers == if peerId in old(heardList) then old(diedPeers)[peerId := old(heardList)[peerId]] else old(diedPeers)
    {
      if peerId !in heardList {
        assert Without(heardList, peerId) == heardList;
        return;
      }
      diedPeers := diedPeers[peerId := heardList[peerId]];
      addresses := Without(addresses, heardList[peerId].address);
      heardList := Without(heardList, peerId);
    }

    /** Peers that gave no report for long are forgotten, died or not. */
    method CleanHeardList(now: int)
      requires Valid()
      modifies this
      ensures Valid()
      ensures heardList == map p | p in old(heardList) && !Expired(old(heardList)[p], now) :: old(heardList)[p]
      ensures diedPeers == map p | p in old(diedPeers) && !Expired(old(diedPeers)[p], now) :: old(diedPeers)[p]
    {
      hide IsCoupled, Expired, StillHeard;
      StillHeardEnds(heardList, now);
      var it := LowerBound(heardList.Keys, 0);
      ghost var bound := 0;
      while it.Some?
        invariant Valid() && it == LowerBound(heardList.Keys, bound)
        invariant diedPeers == old(diedPeers)
        invariant heardList == StillHeard(old(heardList), now, bound)
        decreases |From(heardList.Keys, bound)|
      {
        var p := it.value;
        StillHeardStep(old(heardList), now, bound, p);
        CoupledWithout(heardList, addresses, p);
        Fewer(heardList.Keys, if Expired(heardList[p], now) then heardList.Keys - {p} else heardList.Keys, bound, p);
        if Expired(heardList[p], now) {
          addresses := Without(addresses, heardList[p].address);
          heardList := Without(heardList, p);
        }
        bound := p + 1;
        it := LowerBound(heardList.Keys, p + 1);
      }
      StillHeardAll(old(heardList), now, bound);
      diedPeers := map p | p in diedPeers && !Expired(diedPeers[p], now) :: diedPeers[p];
    }

    /** The best list of a peer, whose address no other peer has; `count` are those chosen before
        the distant ones. */
    method BestList(own: nat, peerId: nat, isSelf: bool, queue: seq<nat>, random: nat, target: nat)
      returns (best: set<nat>, count: nat, ok: bool, ghost met: nat, ghost one: Option<nat>, ghost places: seq<nat>)
      requires Valid() && (if peerId in heardList then heardList[peerId].address == own else own !in addresses)
      requires isSelf ==> peerId !in heardList
      ensures |addresses| <= 6 ==> ok && best == heardList.Keys
      ensures |addresses| > 6 ==>
        var others := |addresses| - (if isSelf then 0 else 1);
        var targetCount := if target < others then target else others;
        && peerId !in best && 6 <= count <= 13 && (ok <==> targetCount - count <= 31)
        && (ok ==> |best| == if targetCount > count then targetCount else count)
      ensures |addresses| > 6 ==>
        var entries := Listing(addresses);
        Chosen(entries, own, peerId, queue, random, met, one) && count == |Given(entries, own, peerId, queue, met, one)|
      ensures |addresses| > 6 && ok ==>
        var entries := Listing(addresses);
        Picked(entries, own, Given(entries, own, peerId, queue, met, one), |places|, places)
        && best == Given(entries, own, peerId, queue, met, one) + PeersOf(entries, places) && |places| == |best| - count
    {
      hide Ordered, Distinct, Others, Ring, TwoBefore, Lowest, Picked, FirstIn, PeersOf, Chosen, Given;
      met, one, places := 0, None, [];
      if |addresses| <= 6 {
        best, count, ok := addresses.Values, 0, true;
        assert best == heardList.Keys;
        return;
      }
      ListingExact(addresses);
      var entries := Listing(addresses);
      assert isSelf ==> !Has(entries, own);
      var targetCount;
      best, count, targetCount, ok, met, one, places :=
        BuildBestList(entries, own, peerId, isSelf, queue, random, target);
    }
  }
}
