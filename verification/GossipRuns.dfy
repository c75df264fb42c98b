/** Status exchanges as they happen in runs, among any other steps of any peers. */
module GossipRuns {
  import opened Basics
  import opened GossipLog
  import opened GossipExchange
  import opened GossipNet

  lemma StepGrows(s: Sys, act: Action, s': Sys, a: Addr)
    requires Step(s, act, s') && a in s.peers
    ensures a in s'.peers && Within(s.peers[a].table, s'.peers[a].table)
  {
    var t, t' := s.peers[a].table, s'.peers[a].table;
    if act.TakeRumors? && act.p.dst == a {
      forall o ensures Log(t, o) <= Log(t', o) {
        LogsGrowByAccepted(t, act.p.rumors, o);
      }
    }
  }

  /** No peer ever forgets a rumor. */
  lemma {:induction false} RunGrows(states: seq<Sys>, acts: seq<Action>, i: nat, j: nat, a: Addr)
    requires IsRun(states, acts) && i <= j < |states| && a in states[i].peers
    ensures a in states[j].peers && Within(states[i].peers[a].table, states[j].peers[a].table)
  {
    if i < j {
      RunGrows(states, acts, i, j - 1, a);
      StepGrows(states[j - 1], acts[j - 1], states[j], a);
      forall o ensures Log(states[i].peers[a].table, o) <= Log(states[j].peers[a].table, o) {
        assert Log(states[i].peers[a].table, o) <= Log(states[j - 1].peers[a].table, o);
      }
    }
  }

  ghost predicate Covered(status: Status, t: Table) {
    forall o :: Offset(status, o) <= |Log(t, o)|
  }

  /** A status on its way says nothing its sender does not hold. */
  ghost predicate StatusOk(peers: map<Addr, PeerState>, p: Packet) {
    p.StatusPacket? ==> p.src in peers && Covered(p.status, peers[p.src].table)
  }

  ghost predicate StatusesOk(s: Sys) {
    forall p {:trigger StatusOk(s.peers, p)} | p in s.sent :: StatusOk(s.peers, p)
  }

  lemma OldStatusOk(s: Sys, act: Action, s': Sys, p: Packet)
    requires Step(s, act, s') && StatusOk(s.peers, p)
    ensures StatusOk(s'.peers, p)
  {
    if p.StatusPacket? {
      StepGrows(s, act, s', p.src);
      forall o ensures Offset(p.status, o) <= |Log(s'.peers[p.src].table, o)| {
        assert Log(s.peers[p.src].table, o) <= Log(s'.peers[p.src].table, o);
      }
    }
  }

  lemma NewStatusOk(s: Sys, act: Action, s': Sys, p: Packet)
    requires Step(s, act, s') && p in s'.sent && p !in s.sent
    ensures StatusOk(s'.peers, p)
  {
  }

  lemma {:induction false} RunKeepsStatuses(states: seq<Sys>, acts: seq<Action>, i: nat)
    requires IsRun(states, acts) && i < |states|
    ensures StatusesOk(states[i])
  {
    if i > 0 {
      RunKeepsStatuses(states, acts, i - 1);
      var s, s' := states[i - 1], states[i];
      forall p {:trigger StatusOk(s'.peers, p)} | p in s'.sent ensures StatusOk(s'.peers, p) {
        if p in s.sent {
          OldStatusOk(s, acts[i - 1], s', p);
        } else {
          NewStatusOk(s, acts[i - 1], s', p);
        }
      }
    }
  }

  /** A peer's table at one time and another's at an earlier one have a common history. */
  lemma EarlierIsCompatible(states: seq<Sys>, acts: seq<Action>, i: nat, j: nat, a: Addr, b: Addr)
    requires IsRun(states, acts) && i <= j < |states| && a in states[j].peers && b in states[i].peers
    ensures var t, u := states[j].peers[a].table, states[i].peers[b].table;
      WellFormed(t) && WellFormed(u) && Compatible(t, u)
  {
    RunGrows(states, acts, i, j, b);
    TablesAreCompatible(states, acts, j, a, b);
    TablesAreCompatible(states, acts, i, b, b);
    var t, u, v := states[j].peers[a].table, states[i].peers[b].table, states[j].peers[b].table;
    forall o ensures Log(t, o) <= Log(u, o) || Log(u, o) <= Log(t, o) {
      assert Log(u, o) <= Log(v, o) && (Log(t, o) <= Log(v, o) || Log(v, o) <= Log(t, o));
    }
  }

  /** What was known when a status was sent is known when its answer comes. */
  lemma StillCovered(states: seq<Sys>, acts: seq<Action>, i: nat, j: nat, p: Packet)
    requires IsRun(states, acts) && i <= j < |states| && p in states[i].sent && p.StatusPacket?
    ensures p.src in states[j].peers && Covered(p.status, states[j].peers[p.src].table)
  {
    RunKeepsStatuses(states, acts, i);
    assert StatusOk(states[i].peers, p);
    RunGrows(states, acts, i, j, p.src);
    forall o ensures Offset(p.status, o) <= |Log(states[j].peers[p.src].table, o)| {
      assert Log(states[i].peers[p.src].table, o) <= Log(states[j].peers[p.src].table, o);
    }
  }

  /** Step i answers a status with rumors and step j delivers them to the peer whose status it was. */
  ghost predicate AnswerArrives(acts: seq<Action>, i: nat, j: nat) {
    && i < j < |acts| && acts[i].TakeStatus? && acts[j].TakeRumors?
    && acts[j].p == RumorsPacket(acts[i].p.dst, acts[i].p.src, acts[i].missing)
  }

  /** Whatever else happened meanwhile, that peer then holds for every origin the longer of its log and of
      the one the answering peer had. */
  lemma DeliveredAnswerGivesJoin(states: seq<Sys>, acts: seq<Action>, i: nat, j: nat)
    requires IsRun(states, acts) && AnswerArrives(acts, i, j)
    requires var p := acts[i].p;
      && p.StatusPacket? && p.dst in states[i].peers
      && Ahead(StatusOf(states[i].peers[p.dst].table), p.status)
    ensures var a, b := acts[i].p.src, acts[i].p.dst;
      && a in states[j].peers && a in states[j + 1].peers
      && SameLogs(states[j + 1].peers[a].table, Join(states[j].peers[a].table, states[i].peers[b].table))
  {
    var p, missing := acts[i].p, acts[i].missing;
    assert Step(states[i], acts[i], states[i + 1]) && Step(states[j], acts[j], states[j + 1]);
    var sender, t := states[i].peers[p.dst].table, states[j].peers[p.src].table;
    assert StatusOf(sender) != p.status by {
      UnequalMeansAheadOrBehind(StatusOf(sender), p.status);
    }
    EarlierIsCompatible(states, acts, i, j, p.src, p.dst);
    StillCovered(states, acts, i, j, p);
    MissingListGivesJoin(sender, p.status, t, missing);
  }

  lemma JoinHoldsBoth(t: Table, u: Table, j: Table)
    requires Compatible(t, u) && SameLogs(j, Join(t, u))
    ensures Within(t, j) && Within(u, j)
  {
    JoinIsJoin(t, u);
    forall o ensures Log(t, o) <= Log(j, o) && Log(u, o) <= Log(j, o) {
      assert Log(j, o) == Log(Join(t, u), o);
    }
  }

  /** One direction of an exchange: b takes a's status and, if it is ahead, its answer arrives. */
  ghost predicate Answered(states: seq<Sys>, acts: seq<Action>, i: nat, j: nat, a: Addr, b: Addr)
    requires |states| == |acts| + 1
  {
    && i < |acts| && acts[i].TakeStatus? && acts[i].p.StatusPacket? && acts[i].p.src == a && acts[i].p.dst == b
    && b in states[i].peers
    && (Ahead(StatusOf(states[i].peers[b].table), acts[i].p.status) ==> AnswerArrives(acts, i, j))
  }

  /** After it a has all that b had, for good. */
  lemma AnsweredHasAll(states: seq<Sys>, acts: seq<Action>, i: nat, j: nat, a: Addr, b: Addr, e: nat)
    requires IsRun(states, acts) && Answered(states, acts, i, j, a, b) && i < e < |states| && j < e
    ensures a in states[e].peers && Within(states[i].peers[b].table, states[e].peers[a].table)
  {
    var p, u := acts[i].p, states[i].peers[b].table;
    assert Step(states[i], acts[i], states[i + 1]);
    if Ahead(StatusOf(u), p.status) {
      DeliveredAnswerGivesJoin(states, acts, i, j);
      EarlierIsCompatible(states, acts, i, j, a, b);
      JoinHoldsBoth(states[j].peers[a].table, u, states[j + 1].peers[a].table);
      RunGrows(states, acts, j + 1, e, a);
      WithinOn(u, states[j + 1].peers[a].table, states[e].peers[a].table);
    } else {
      StillCovered(states, acts, i, e, p);
      EarlierIsCompatible(states, acts, i, e, a, b);
      CoveredIsWithin(u, p.status, states[e].peers[a].table);
    }
  }

  lemma WithinOn(t: Table, u: Table, v: Table)
    requires Within(t, u) && Within(u, v)
    ensures Within(t, v)
  {
    forall o ensures Log(t, o) <= Log(v, o) {
      assert Log(t, o) <= Log(u, o) && Log(u, o) <= Log(v, o);
    }
  }

  /** A peer not ahead of a status holds no more than one that covers it. */
  lemma CoveredIsWithin(u: Table, status: Status, t: Table)
    requires Compatible(t, u) && !Ahead(StatusOf(u), status) && Covered(status, t)
    ensures Within(u, t)
  {
    forall o ensures Log(u, o) <= Log(t, o) {
      assert Log(t, o) <= Log(u, o) || Log(u, o) <= Log(t, o);
      assert Offset(status, o) <= |Log(t, o)|;
      if o in u {
        assert o in StatusOf(u);
      }
    }
  }

  /** A whole exchange within a run: b takes a's status and answers with rumors if it is ahead and with
      its own status if it is behind, which a takes and answers likewise; everything sent arrives, in any
      order and among any other steps.  From then on both peers hold, for every origin, at least what a
      had told of and what b had when it took the status. */
  lemma ExchangeInRun(states: seq<Sys>, acts: seq<Action>, a: Addr, b: Addr, i: nat, j: nat, k: nat, l: nat, e: nat)
    requires IsRun(states, acts) && Answered(states, acts, i, j, a, b)
    requires Behind(StatusOf(states[i].peers[b].table), acts[i].p.status) ==>
      && i < k && Answered(states, acts, k, l, b, a)
      && acts[k].p.status == StatusOf(states[i].peers[b].table)
    requires i < e < |states| && j < e && k < e && l < e
    ensures a in states[e].peers && b in states[e].peers
    ensures var told, had := acts[i].p.status, states[i].peers[b].table;
      && Covered(told, states[e].peers[a].table) && Within(had, states[e].peers[a].table)
      && Covered(told, states[e].peers[b].table) && Within(had, states[e].peers[b].table)
  {
    var p, had := acts[i].p, states[i].peers[b].table;
    assert Step(states[i], acts[i], states[i + 1]);
    AnsweredHasAll(states, acts, i, j, a, b, e);
    StillCovered(states, acts, i, e, p);
    RunGrows(states, acts, i, e, b);
    if Behind(StatusOf(had), p.status) {
      AnsweredHasAll(states, acts, k, l, b, a, e);
      StillCovered(states, acts, i, k, p);
      CoveredOn(p.status, states[k].peers[a].table, states[e].peers[b].table);
    } else {
      NotBehindIsCovered(had, p.status);
      CoveredOn(p.status, had, states[e].peers[b].table);
    }
  }

  lemma CoveredOn(status: Status, t: Table, u: Table)
    requires Covered(status, t) && Within(t, u)
    ensures Covered(status, u)
  {
    forall o ensures Offset(status, o) <= |Log(u, o)| {
      assert Log(t, o) <= Log(u, o);
    }
  }

  lemma NotBehindIsCovered(t: Table, status: Status)
    requires !Behind(StatusOf(t), status)
    ensures Covered(status, t)
  {
    forall o ensures Offset(status, o) <= |Log(t, o)| {
      if o in status {
        assert o in StatusOf(t);
      }
    }
  }
}
