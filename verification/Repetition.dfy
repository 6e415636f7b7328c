/** What a repetition sends, said without its loop. */
module Repetition {
  import opened Sender
  import opened Stages

  function Reliables(ps: seq<Packet>): seq<Packet> {
    if ps == [] then [] else (if ps[0].reliable then [ps[0]] else []) + Reliables(ps[1..])
  }

  /** The unreliable packets before the first reliable one. */
  function Leading(ps: seq<Packet>): (n: nat)
    ensures n <= |ps|
  {
    if ps == [] || ps[0].reliable then 0 else 1 + Leading(ps[1..])
  }

  function Resends(ps: seq<Packet>, limit: nat): (actions: seq<Action>)
  {
    if ps == [] || limit == 0 then [] else [Resend(ps[0])] + Resends(ps[1..], limit - 1)
  }

  lemma ResendsFirst(p: Packet, ps: seq<Packet>, limit: nat)
    requires limit >= 1
    ensures Resends([p] + ps, limit) == [Resend(p)] + Resends(ps, limit - 1)
    ensures Resends(ps, 0) == []
  {
    assert ([p] + ps)[1..] == ps;
  }

  lemma ReliablesFirst(ps: seq<Packet>)
    requires ps != []
    ensures Reliables(ps) == if ps[0].reliable then [ps[0]] + Reliables(ps[1..]) else Reliables(ps[1..])
  {
    assert [] + Reliables(ps[1..]) == Reliables(ps[1..]);
  }

  /** One packet once a reliable one was met, and none is pending. */
  lemma TurnAfterReliable(p: Packet, r: Run)
    requires r.sendable >= 1 && r.budget == 0 && r.oneReliable && r.abandonStage == 0
    ensures var t := OnePacket(p, r, {});
      && t.actions == (if p.reliable then [Resend(p)] else [])
      && (t.stop <==> p.reliable && r.sendable == 1)
      && t.run.sendable == (if p.reliable then r.sendable - 1 else r.sendable)
      && t.run.budget == 0 && t.run.oneReliable && t.run.abandonStage == 0
  {
  }

  lemma {:induction false} AfterReliable(ps: seq<Packet>, r: Run)
    requires r.sendable >= 1 && r.budget == 0 && r.oneReliable && r.abandonStage == 0
    ensures Repeat(ps, r, {}) == Resends(Reliables(ps), r.sendable)
    decreases |ps|
  {
    hide Repeat, Resends, Reliables, OnePacket;
    if ps == [] {
      Nothing(r);
    } else {
      var t := OnePacket(ps[0], r, {});
      TurnAfterReliable(ps[0], r);
      RepeatUnfold(ps, r, {});
      ReliablesFirst(ps);
      ResendsFirst(ps[0], Reliables(ps[1..]), r.sendable);
      if !t.stop { AfterReliable(ps[1..], t.run); }
    }
  }

  lemma Nothing(r: Run)
    requires r.sendable >= 1
    ensures Repeat([], r, {}) == Pending(r.abandonStage) && Resends(Reliables([]), r.sendable) == []
  {
  }

  /** One packet before any reliable one was met. */
  lemma TurnBeforeReliable(p: Packet, r: Run)
    requires r.sendable >= 1 && r.budget == 0 && !r.oneReliable
    ensures var t := OnePacket(p, r, {});
      && t.actions == (if p.reliable then Pending(r.abandonStage) + [Resend(p)] else [])
      && (t.stop <==> p.reliable && r.sendable == 1)
      && t.run.sendable == (if p.reliable then r.sendable - 1 else r.sendable)
      && t.run.budget == 0 && t.run.oneReliable == p.reliable && t.run.stage == r.stage + p.fragments
      && t.run.abandonStage == (if p.reliable then 0 else t.run.stage)
  {
  }

  lemma {:induction false} BeforeReliable(ps: seq<Packet>, r: Run)
    requires r.sendable >= 1 && r.budget == 0 && !r.oneReliable
    ensures Repeat(ps, r, {})
         == Pending(if Leading(ps) == 0 then r.abandonStage else r.stage + FragmentSum(ps[..Leading(ps)]))
            + Resends(Reliables(ps), r.sendable)
    decreases |ps|
  {
    hide Repeat, Resends, Reliables, OnePacket, FragmentSum;
    if ps == [] {
      Nothing(r);
    } else {
      var t := OnePacket(ps[0], r, {});
      TurnBeforeReliable(ps[0], r);
      RepeatUnfold(ps, r, {});
      ReliablesFirst(ps);
      ResendsFirst(ps[0], Reliables(ps[1..]), r.sendable);
      if !ps[0].reliable {
        BeforeReliable(ps[1..], t.run);
        LeadingSum(ps);
      } else if !t.stop {
        AfterReliable(ps[1..], t.run);
      }
    }
  }

  lemma LeadingSum(ps: seq<Packet>)
    requires ps != [] && !ps[0].reliable
    ensures FragmentSum(ps[..Leading(ps)]) == ps[0].fragments + FragmentSum(ps[1..][..Leading(ps[1..])])
    ensures Leading(ps[1..]) == 0 ==> FragmentSum(ps[..Leading(ps)]) == ps[0].fragments
  {
    hide FragmentSum;
    var lead := ps[..Leading(ps)];
    FragmentSumFront(lead);
    assert lead[1..] == ps[1..][..Leading(ps[1..])];
    NoneMovedSum();
  }

  /** The first six reliable packets in flight are resent, in order, after one abandon of the
      unreliable ones before them, if there are any. */
  lemma RepeatsAll(q: QueueState)
    ensures RepeatAll(q, 0, {})
         == (if Leading(q.sending) == 0 then [] else Pending(q.stageAck + FragmentSum(q.sending[..Leading(q.sending)])))
            + Resends(Reliables(q.sending), SENDABLE_MAX)
  {
    hide Repeat, FragmentSum, Resends;
    BeforeReliable(q.sending, Run(q.stageAck, 0, false, SENDABLE_MAX, 0, 0));
  }

  /** The packets a budget of fragments reaches. */
  function Covered(ps: seq<Packet>, budget: nat): (n: nat)
    ensures n <= |ps|
    decreases |ps|
  {
    if ps == [] then 0
    else if ps[0].fragments >= budget then 1
    else 1 + Covered(ps[1..], budget - ps[0].fragments)
  }

  /** The packet whose fragments use up the budget is the last one reached. */
  lemma {:induction false} CoveredSum(ps: seq<Packet>, budget: nat)
    requires budget > 0
    ensures var n := Covered(ps, budget);
      && (n < |ps| ==> FragmentSum(ps[..n]) >= budget)
      && (n > 0 ==> FragmentSum(ps[..n - 1]) < budget)
    decreases |ps|
  {
    hide FragmentSum;
    NoneMovedSum();
    if ps != [] {
      var n := Covered(ps, budget);
      FragmentSumFront(ps[..n]);
      assert ps[..n][1..] == ps[1..][..n - 1];
      if ps[0].fragments >= budget {
        assert ps[1..][..0] == [] && ps[..0] == [];
      } else {
        CoveredSum(ps[1..], budget - ps[0].fragments);
        if n > 1 {
          FragmentSumFront(ps[..n - 1]);
          assert ps[..n - 1][1..] == ps[1..][..n - 2];
        }
        assert ps[..0] == [];
      }
    }
  }

  /** What a budget changes in one turn: only when to stop. */
  lemma TurnBudget(p: Packet, r: Run, refused: set<nat>)
    requires r.sendable >= 1 && r.budget > 0
    ensures var t, u := OnePacket(p, r, refused), OnePacket(p, r.(budget := 0), refused);
      && t.actions == u.actions && t.run.(budget := 0) == u.run.(budget := 0) && u.run.budget == 0
      && (t.stop <==> u.stop || p.fragments >= r.budget)
      && (!t.stop ==> t.run.budget == r.budget - p.fragments)
  {
  }

  /** A repetition with a budget is one without, of the packets the budget reaches. */
  lemma {:induction false} RepeatsWithin(ps: seq<Packet>, r: Run, refused: set<nat>)
    requires r.sendable >= 1 && r.budget > 0
    ensures Repeat(ps, r, refused) == Repeat(ps[..Covered(ps, r.budget)], r.(budget := 0), refused)
    decreases |ps|
  {
    hide Repeat, OnePacket, Planned;
    if ps == [] {
      NothingLeft(r, refused);
      NothingLeft(r.(budget := 0), refused);
      assert ps[..Covered(ps, r.budget)] == [];
    } else {
      var n := Covered(ps, r.budget);
      var part, free := ps[..n], r.(budget := 0);
      assert part[1..] == ps[1..][..n - 1] && part[0] == ps[0];
      TurnBudget(ps[0], r, refused);
      OnePacketSendable(ps[0], r, refused);
      OnePacketSendable(ps[0], free, refused);
      RepeatUnfold(ps, r, refused);
      RepeatUnfold(part, free, refused);
      var t, u := OnePacket(ps[0], r, refused), OnePacket(ps[0], free, refused);
      PlannedIs(t, ps[1..], refused);
      PlannedIs(u, part[1..], refused);
      if !t.stop {
        RepeatsWithin(ps[1..], t.run, refused);
      } else if !u.stop {
        assert part[1..] == [];
        NothingLeft(u.run, refused);
      }
    }
  }

  lemma NothingLeft(r: Run, refused: set<nat>)
    requires r.sendable >= 1
    ensures Repeat([], r, refused) == Pending(r.abandonStage)
  {
  }

  // ---- Refused sends -----------------------------------------------------------------------

  /** The actions before the resend that comes after n others. */
  function Before(actions: seq<Action>, n: nat): seq<Action> {
    if actions == [] || (actions[0].Resend? && n == 0) then []
    else [actions[0]] + Before(actions[1..], if actions[0].Resend? then n - 1 else n)
  }

  lemma BeforeFirst(a: Action, rest: seq<Action>, n: nat)
    ensures Before([a] + rest, n)
         == if a.Resend? && n == 0 then [] else [a] + Before(rest, if a.Resend? then n - 1 else n)
  {
    assert ([a] + rest)[1..] == rest;
  }

  lemma BeforePending(abandonStage: nat, rest: seq<Action>, n: nat)
    ensures Before(Pending(abandonStage) + rest, n) == Pending(abandonStage) + Before(rest, n)
    ensures Before(Pending(abandonStage), n) == Pending(abandonStage)
  {
    hide Before;
    assert Before([], n) == [] by { NoActions(n); }
    if abandonStage != 0 {
      BeforeFirst(Abandon(abandonStage), rest, n);
      BeforeFirst(Abandon(abandonStage), [], n);
      assert [Abandon(abandonStage)] + [] == [Abandon(abandonStage)];
    } else {
      assert [] + rest == rest;
      assert [] + Before(rest, n) == Before(rest, n);
    }
  }

  lemma NoActions(n: nat)
    ensures Before([], n) == []
  {
  }

  /** What a refusal changes in one turn. */
  lemma TurnRefused(p: Packet, r: Run, refused: set<nat>)
    requires r.sendable >= 1
    ensures var t, u := OnePacket(p, r, refused), OnePacket(p, r, {});
      && (!(p.reliable && r.sends in refused) ==> t == u)
      && (p.reliable && r.sends in refused ==>
            t.stop && t.actions == Pending(r.abandonStage) && t.run.abandonStage == 0)
      && u.actions == (if p.reliable then Pending(r.abandonStage) + [Resend(p)] else [])
      && u.run.sends == r.sends + if p.reliable then 1 else 0
  {
  }

  /** The first refused send ends a repetition: it is the part of the one not refused before that
      resend, whatever the budget. */
  lemma {:induction false} RepeatsUntilRefused(ps: seq<Packet>, r: Run, refused: set<nat>, m: nat)
    requires r.sendable >= 1 && r.sends <= m && m in refused
    requires forall j :: r.sends <= j < m ==> j !in refused
    ensures Repeat(ps, r, refused) == Before(Repeat(ps, r, {}), m - r.sends)
    decreases |ps|
  {
    hide Repeat, OnePacket, Planned, Before, Pending;
    if ps == [] {
      NothingLeft(r, refused);
      NothingLeft(r, {});
      BeforePending(r.abandonStage, [], m - r.sends);
    } else {
      var p, n := ps[0], m - r.sends;
      var t, u := OnePacket(p, r, refused), OnePacket(p, r, {});
      TurnRefused(p, r, refused);
      RepeatUnfold(ps, r, refused);
      RepeatUnfold(ps, r, {});
      OnePacketSendable(p, r, refused);
      OnePacketSendable(p, r, {});
      PlannedIs(t, ps[1..], refused);
      PlannedIs(u, ps[1..], {});
      var rest := Planned(u, ps[1..], {});
      if p.reliable {
        assert (Pending(r.abandonStage) + [Resend(p)]) + rest == Pending(r.abandonStage) + ([Resend(p)] + rest);
        BeforePending(r.abandonStage, [Resend(p)] + rest, n);
        BeforeFirst(Resend(p), rest, n);
        if n == 0 {
          assert Pending(0) == [] by { NonePending(); }
        } else if u.stop {
          BeforePending(u.run.abandonStage, [], n - 1);
        } else {
          RepeatsUntilRefused(ps[1..], u.run, refused, m);
        }
        if n > 0 {
          assert Pending(r.abandonStage) + ([Resend(p)] + Before(rest, n - 1)) == (Pending(r.abandonStage) + [Resend(p)]) + Before(rest, n - 1);
        }
      } else {
        assert [] + rest == rest;
        if u.stop {
          BeforePending(u.run.abandonStage, [], n);
        } else {
          RepeatsUntilRefused(ps[1..], u.run, refused, m);
        }
      }
    }
  }

  lemma NonePending()
    ensures Pending(0) == []
  {
  }

  /** Without a refused send it is the one not refused. */
  lemma {:induction false} RepeatsUnrefused(ps: seq<Packet>, r: Run, refused: set<nat>)
    requires r.sendable >= 1 && forall j :: j in refused ==> j < r.sends
    ensures Repeat(ps, r, refused) == Repeat(ps, r, {})
    decreases |ps|
  {
    hide Repeat, OnePacket, Planned;
    if ps == [] {
      NothingLeft(r, refused);
      NothingLeft(r, {});
    } else {
      var u := OnePacket(ps[0], r, {});
      TurnRefused(ps[0], r, refused);
      RepeatUnfold(ps, r, refused);
      RepeatUnfold(ps, r, {});
      OnePacketSendable(ps[0], r, {});
      PlannedIs(u, ps[1..], refused);
      PlannedIs(u, ps[1..], {});
      if !u.stop { RepeatsUnrefused(ps[1..], u.run, refused); }
    }
  }
}
