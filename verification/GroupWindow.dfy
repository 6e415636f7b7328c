/** The window of fragments a group media keeps (GroupMedia::addFragment, GroupMedia::eraseOldFragments):
    some fragments are dated, and what precedes the first date to keep is erased. */
module GroupWindow {
  import opened Bytes
  import opened OrderedMap

  /** The greatest key below a bound: the iterator before the one at the bound. */
  function Before(keys: set<nat>, bound: nat): (k: Option<nat>)
    ensures k.None? <==> forall j :: j in keys ==> j >= bound
    ensures k.Some? ==> k.value in keys && k.value < bound && forall j :: j in keys && j < bound ==> j <= k.value
    decreases bound
  {
    if bound == 0 then None
    else if bound - 1 in keys then Some(bound - 1)
    else Before(keys, bound - 1)
  }

  function Since(dates: map<nat, nat>, t: nat): map<nat, nat> {
    map u | u in dates && u >= t :: dates[u]
  }

  /** No date to keep is preceded by another. */
  predicate NothingOld(fragments: set<nat>, dates: map<nat, nat>, oldest: nat) {
    fragments == {} || dates == map[] || LowerBound(dates.Keys, oldest) in {None, Some(First(dates.Keys))}
  }

  /** What is left is still dated in order, and refers to fragments left. */
  lemma StillDated(fragments: set<nat>, dates: map<nat, nat>, t: nat, bound: nat)
    requires forall u :: u in dates ==> dates[u] in fragments
    requires forall u, v :: u in dates && v in dates && u < v ==> dates[u] < dates[v]
    requires t in dates && bound <= dates[t] && bound in fragments
    ensures var left := Since(dates, t);
      && (forall u :: u in left <==> u in dates && u >= t)
      && (forall u :: u in left ==> left[u] == dates[u] && left[u] in From(fragments, bound))
      && (forall u, v :: u in left && v in left && u < v ==> left[u] < left[v])
    ensures bound in From(fragments, bound)
  {
  }

  function Oldest(now: nat, keep: nat): nat {
    if now > keep then now - keep else 0
  }

  class GroupMedia {
    var fragments: set<nat>
    /** The dates, each with the fragment that came then. */
    var dates: map<nat, nat>
    /** The fragments asked for, the dates of the maps received, and where the pull is. */
    var waiting: set<nat>
    var pullDates: map<nat, nat>
    var currentPull: nat
    /** The bounds the group buffer was told. */
    var removed: seq<nat>

    /** Every dated fragment is kept, and later dates are of later fragments. */
    ghost predicate Valid()
      reads this
    {
      && (forall t :: t in dates ==> dates[t] in fragments)
      && (forall t, u :: t in dates && u in dates && t < u ==> dates[t] < dates[u])
    }

    constructor ()
      ensures Valid() && fragments == {} && dates == map[]
      ensures waiting == {} && pullDates == map[] && currentPull == 0 && removed == []
    {
      fragments, dates := {}, map[];
      waiting, pullDates, currentPull, removed := {}, map[], 0, [];
    }

    /** Only a fragment that begins a packet, and is later than the last one dated, is dated. */
    method AddFragment(id: nat, begins: bool, now: nat)
      requires Valid() && forall t :: t in dates ==> t <= now
      modifies this`fragments, this`dates
      ensures Valid() && fragments == old(fragments) + {id}
      ensures dates == if begins && (forall t :: t in old(dates) ==> old(dates)[t] < id) then old(dates)[now := id] else old(dates)
    {
      fragments := fragments + {id};
      if !begins { return; }
      var last := Before(dates.Keys, now + 1);
      if last.None? || id > dates[last.value] {
        assert last.Some? ==> forall t :: t in dates ==> dates[t] <= dates[last.value];
        dates := dates[now := id];
      }
    }

    /** Nothing dated within the time to keep is erased, and the fragment a date to keep refers to is
        always there; `bound` is the first fragment left, the one before the first date to keep. */
    method EraseFragments(now: nat, keep: nat) returns (bound: Option<nat>)
      requires Valid()
      modifies this`fragments, this`dates
      ensures Valid()
      ensures bound.None? ==> fragments == old(fragments) && dates == old(dates)
      ensures bound.Some? ==> bound.value in fragments && fragments == From(old(fragments), bound.value)
      ensures bound.Some? ==>
        var t := LowerBound(old(dates).Keys, Oldest(now, keep));
        t.Some? && dates == Since(old(dates), t.value) && bound == Before(old(fragments), old(dates)[t.value])
      ensures bound.None? <==> NothingOld(old(fragments), old(dates), Oldest(now, keep))
      ensures forall t :: t in old(dates) && t + keep >= now ==>
        t in dates && dates[t] == old(dates)[t] && dates[t] in fragments
    {
      hide From, Since;
      if fragments == {} || dates == map[] { return None; }
      var itTime := LowerBound(dates.Keys, Oldest(now, keep));
      if itTime.None? || itTime.value == First(dates.Keys) { return None; }
      var t := itTime.value;
      var reference := dates[t];
      var itFragment := reference;
      var before := Before(fragments, reference);
      assert before.Some? by { assert dates[First(dates.Keys)] < reference; }
      if before.Some? { itFragment := before.value; }
      StillDated(fragments, dates, t, itFragment);
      fragments := From(fragments, itFragment);
      dates := Since(dates, t);
      bound := Some(itFragment);
    }

    /** With the fragments go the requests for them, the pull moves to the first one left, the dates
        of old maps are forgotten, and the group buffer is told. */
    method Forget(bound: nat, oldest: nat)
      modifies this`waiting, this`currentPull, this`pullDates, this`removed
      ensures waiting == From(old(waiting), bound) && removed == old(removed) + [bound]
      ensures currentPull == if old(currentPull) < bound then bound else old(currentPull)
      ensures pullDates == if LowerBound(old(pullDates).Keys, oldest).Some? then Since(old(pullDates), oldest) else old(pullDates)
    {
      if waiting != {} && First(waiting) < bound {
        waiting := From(waiting, bound);
      } else {
        assert waiting == From(waiting, bound);
      }
      if currentPull < bound { currentPull := bound; }
      var firstMap := LowerBound(pullDates.Keys, oldest);
      if firstMap.Some? {
        assert Since(pullDates, firstMap.value) == Since(pullDates, oldest);
        if firstMap.value != First(pullDates.Keys) { pullDates := Since(pullDates, firstMap.value); }
        assert pullDates == Since(old(pullDates), oldest);
      }
      removed := removed + [bound];
    }

    method EraseOldFragments(now: nat, keep: nat) returns (bound: Option<nat>)
      requires Valid()
      modifies this
      ensures Valid()
      ensures bound.None? <==> NothingOld(old(fragments), old(dates), Oldest(now, keep))
      ensures bound.None? ==> unchanged(this)
      ensures bound.Some? ==>
        var t := LowerBound(old(dates).Keys, Oldest(now, keep));
        t.Some? && dates == Since(old(dates), t.value) && bound == Before(old(fragments), old(dates)[t.value])
      ensures bound.Some? ==> bound.value in fragments && fragments == From(old(fragments), bound.value)
      ensures bound.Some? ==> waiting == From(old(waiting), bound.value) && removed == old(removed) + [bound.value]
      ensures bound.Some? ==> currentPull == if old(currentPull) < bound.value then bound.value else old(currentPull)
      ensures bound.Some? ==>
        var oldest := Oldest(now, keep);
        pullDates == if LowerBound(old(pullDates).Keys, oldest).Some? then Since(old(pullDates), oldest) else old(pullDates)
      ensures forall t :: t in old(dates) && t + keep >= now ==>
        t in dates && dates[t] == old(dates)[t] && dates[t] in fragments
    {
      hide From, Since, NothingOld;
      bound := EraseFragments(now, keep);
      if bound.Some? { Forget(bound.value, Oldest(now, keep)); }
    }
  }
}
