/** What a receiver that takes every stage in order, but for some it skips, hands to the stream. */
module Reassembly {
  import opened Bytes
  import opened Stages

  /** The message being collected, and the messages completed. */
  datatype Assembly = Assembly(buffer: Option<seq<byte>>, delivered: seq<seq<byte>>)

  function Feed(a: Assembly, slot: Slot): Assembly {
    match a.buffer
    case Some(collected) =>
      if slot.after then Assembly(Some(collected + slot.payload), a.delivered)
      else Assembly(None, a.delivered + [collected + slot.payload])
    case None =>
      if slot.before then a
      else if slot.after then Assembly(Some(slot.payload), a.delivered)
      else Assembly(None, a.delivered + [slot.payload])
  }

  /** After the first n stages. */
  function Reassemble(slots: seq<Slot>, skipped: set<nat>, n: nat): Assembly
    requires n <= |slots|
  {
    if n == 0 then Assembly(None, [])
    else
      var a := Reassemble(slots, skipped, n - 1);
      if n in skipped then a.(buffer := None) else Feed(a, slots[n - 1])
  }

  /** Neither the packet boundaries, nor later stages, nor later skips matter. */
  lemma {:induction false} ReassembleFrame(slots: seq<Slot>, skipped: set<nat>, slots': seq<Slot>, skipped': set<nat>, n: nat)
    requires n <= |slots| && n <= |slots'|
    requires forall i :: 0 <= i < n ==> slots[i].(last := false) == slots'[i].(last := false)
    requires forall k :: 1 <= k <= n ==> (k in skipped <==> k in skipped')
    ensures Reassemble(slots, skipped, n) == Reassemble(slots', skipped', n)
  {
    if n > 0 {
      ReassembleFrame(slots, skipped, slots', skipped', n - 1);
      assert slots[n - 1].(last := false) == slots'[n - 1].(last := false);
    }
  }

  /** Skipping stages, once started, only forgets the message being collected. */
  lemma {:induction false} ReassembleSkipped(slots: seq<Slot>, skipped: set<nat>, from: nat, n: nat)
    requires from < n <= |slots|
    requires forall k :: from < k <= n ==> k in skipped
    ensures Reassemble(slots, skipped, n) == Reassemble(slots, skipped, from).(buffer := None)
  {
    if n > from + 1 { ReassembleSkipped(slots, skipped, from, n - 1); }
  }

  // ---- In terms of the messages ------------------------------------------------------------

  predicate Clean(skipped: set<nat>, from: nat, to: nat) {
    forall k :: from < k <= to ==> k !in skipped
  }

  /** The number of stages of these messages. */
  function Total(cuts: seq<Cut>): nat {
    |AllSlots(cuts)|
  }

  /** The messages entirely received: their last stage is reached and none of theirs was skipped. */
  function Kept(cuts: seq<Cut>, skipped: set<nat>, n: nat): (kept: seq<nat>)
    ensures forall j :: 0 <= j < |kept| ==> kept[j] < |cuts|
  {
    if cuts == [] then []
    else
      var i := |cuts| - 1;
      Kept(cuts[..i], skipped, n)
      + if Total(cuts) <= n && Clean(skipped, Total(cuts[..i]), Total(cuts)) then [i] else []
  }

  function Contents(cuts: seq<Cut>, indices: seq<nat>): (contents: seq<seq<byte>>)
    requires forall j :: 0 <= j < |indices| ==> indices[j] < |cuts|
    ensures |contents| == |indices|
  {
    seq(|indices|, j requires 0 <= j < |indices| => Content(cuts[indices[j]]))
  }

  predicate AllWellCut(cuts: seq<Cut>) {
    forall i :: 0 <= i < |cuts| ==> WellCut(cuts[i])
  }

  lemma {:induction false} KeptPast(cuts: seq<Cut>, skipped: set<nat>, n: nat, m: nat)
    requires n >= Total(cuts) && m >= Total(cuts)
    ensures Kept(cuts, skipped, n) == Kept(cuts, skipped, m)
  {
    if cuts != [] {
      KeptPast(cuts[..|cuts| - 1], skipped, n, m);
    }
  }

  /** The stages after t are those of this message. */
  predicate Lies(c: Cut, slots: seq<Slot>, t: nat) {
    t + |c.pieces| <= |slots| && slots[t..t + |c.pieces|] == SlotsOf(c)
  }

  /** After j stages of a message: what was collected, or the message delivered, if none was skipped. */
  function Partway(c: Cut, before: seq<seq<byte>>, clean: bool, j: nat): Assembly
    requires j <= |c.pieces|
  {
    Assembly(if clean && 0 < j < |c.pieces| then Some(Concat(c.pieces[..j])) else None,
             before + if clean && j == |c.pieces| then [Content(c)] else [])
  }

  lemma PartwayStep(c: Cut, before: seq<seq<byte>>, clean: bool, j: nat)
    requires j < |c.pieces| && WellCut(c) && (j == 0 ==> clean)
    ensures Feed(Partway(c, before, clean, j), SlotsOf(c)[j]) == Partway(c, before, clean, j + 1)
    ensures Partway(c, before, clean, j).(buffer := None) == Partway(c, before, false, j + 1)
  {
    hide Concat;
    assert c.pieces[..j + 1] == c.pieces[..j] + [c.pieces[j]];
    ConcatSnoc(c.pieces[..j], c.pieces[j]);
    assert c.pieces[..|c.pieces|] == c.pieces;
    assert Concat(c.pieces[..0]) == [] by { ConcatNone(c.pieces); }
    assert [] + c.pieces[j] == c.pieces[j];
  }

  lemma ConcatNone(pieces: seq<seq<byte>>)
    ensures Concat(pieces[..0]) == []
  {
  }

  lemma CleanStep(skipped: set<nat>, t: nat, j: nat)
    ensures Clean(skipped, t, t + j + 1) <==> Clean(skipped, t, t + j) && t + j + 1 !in skipped
    ensures Clean(skipped, t, t)
  {
  }

  /** What one message adds, stage by stage. */
  lemma {:induction false} OneMessage(c: Cut, slots: seq<Slot>, t: nat, skipped: set<nat>, j: nat)
    requires Lies(c, slots, t) && j <= |c.pieces| && WellCut(c)
    requires Reassemble(slots, skipped, t).buffer == None
    ensures Reassemble(slots, skipped, t + j)
         == Partway(c, Reassemble(slots, skipped, t).delivered, Clean(skipped, t, t + j), j)
  {
    hide Clean, Partway, Feed;
    var before := Reassemble(slots, skipped, t).delivered;
    if j == 0 {
      CleanStep(skipped, t, 0);
      assert Partway(c, before, true, 0) == Assembly(None, before) by { PartwayNone(c, before); }
    } else {
      OneMessage(c, slots, t, skipped, j - 1);
      var clean := Clean(skipped, t, t + j - 1);
      CleanStep(skipped, t, j - 1);
      PartwayStep(c, before, clean, j - 1);
      assert slots[t + j - 1] == slots[t..t + |c.pieces|][j - 1];
    }
  }

  lemma PartwayNone(c: Cut, before: seq<seq<byte>>)
    requires WellCut(c)
    ensures Partway(c, before, true, 0) == Assembly(None, before)
  {
  }

  lemma LastLies(cuts: seq<Cut>)
    requires cuts != []
    ensures var i := |cuts| - 1;
      && Lies(cuts[i], AllSlots(cuts), Total(cuts[..i])) && Total(cuts) == Total(cuts[..i]) + |cuts[i].pieces|
      && AllSlots(cuts)[..Total(cuts[..i])] == AllSlots(cuts[..i])
  {
  }

  /** Reassembly delivers exactly the messages entirely received, each whole, in their order. */
  lemma {:induction false} ReassembleMessages(cuts: seq<Cut>, skipped: set<nat>, n: nat)
    requires AllWellCut(cuts) && n <= Total(cuts)
    ensures Reassemble(AllSlots(cuts), skipped, n).delivered == Contents(cuts, Kept(cuts, skipped, n))
    ensures n == Total(cuts) ==> Reassemble(AllSlots(cuts), skipped, n).buffer == None
  {
    hide AllSlots, Clean, Lies, Feed;
    if cuts == [] {
      assert Total(cuts) == 0 by { NoSlots(); }
    } else {
      var i := |cuts| - 1;
      var init, slots := cuts[..i], AllSlots(cuts);
      var t := Total(init);
      LastLies(cuts);
      var m := if n <= t then n else t;
      ReassembleMessages(init, skipped, m);
      ReassembleFrame(AllSlots(init), skipped, slots, skipped, m);
      ContentsFrame(cuts, Kept(init, skipped, n));
      if n > t {
        OneMessage(cuts[i], slots, t, skipped, n - t);
        KeptPast(init, skipped, n, t);
      }
    }
  }

  lemma NoSlots()
    ensures AllSlots([]) == []
  {
  }

  lemma ContentsFrame(cuts: seq<Cut>, kept: seq<nat>)
    requires cuts != [] && forall j :: 0 <= j < |kept| ==> kept[j] < |cuts| - 1
    ensures Contents(cuts[..|cuts| - 1], kept) == Contents(cuts, kept)
    ensures Contents(cuts, kept + [|cuts| - 1]) == Contents(cuts, kept) + [Content(cuts[|cuts| - 1])]
  {
  }
}
