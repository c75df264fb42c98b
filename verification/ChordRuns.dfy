/** Whole runs: any sequence of joins, one after the other, some of which may fail. */
module ChordRuns {
  import opened Basics
  import opened IdRing
  import opened ChordRing
  import opened ChordLookup
  import opened ChordHops
  import opened ChordJoin
  import opened ChordExact
  import opened ChordFaults

  datatype Sys = Sys(net: Net, ring: set<Addr>)

  datatype Event = Created(n: Addr) | Joined(n: Addr, existing: Addr)

  /** Peers have distinct identifiers, and the tables of those outside the ring are untouched. */
  ghost predicate Idle(s: Sys) {
    && Shape(s.net, s.ring)
    && (forall a, b | a in s.net && b in s.net && s.net[a].id == s.net[b].id :: a == b)
    && (forall a, i: nat | a in s.net && a !in s.ring && i < M :: s.net[a].fingers[i] == UNSET)
  }

  /** The event is possible: a network is created once, and a peer joins once, through a member. */
  predicate Enabled(s: Sys, e: Event) {
    match e
    case Created(n) => s.ring == {} && n in s.net
    case Joined(n, existing) => n in s.net && n !in s.ring && existing in s.ring
  }

  ghost predicate Good(s: Sys) {
    Idle(s) && (s.ring == {} || Ring(s.net, s.ring))
  }

  ghost function Apply(s: Sys, e: Event): (r: JoinResult)
    requires Good(s) && Enabled(s, e)
    ensures Good(Sys(r.net, r.ring)) && SameIds(s.net, r.net)
  {
    match e
    case Created(n) =>
      CreateIsExact(s.net, n);
      Create(s.net, n)
    case Joined(n, existing) =>
      assert Fresh(s.net, s.ring, n);
      Join(s.net, s.ring, n, existing)
  }

  function After(r: JoinResult): Sys {
    Sys(r.net, r.ring)
  }

  /** The state after the events, taken in order; an event that is not possible is skipped. */
  ghost function Run(s: Sys, events: seq<Event>): (s': Sys)
    requires Good(s)
    ensures Good(s') && SameIds(s.net, s'.net)
    decreases |events|
  {
    if events == [] then s
    else if Enabled(s, events[0]) then Run(After(Apply(s, events[0])), events[1..])
    else Run(s, events[1..])
  }

  /** Where a network starts: no ring yet. */
  ghost predicate Start(s: Sys) {
    s.ring == {} && Idle(s)
  }

  /** In every reachable state the successor pointers go to the next member in identifier order and
      the predecessor pointers are their inverse, every set finger i names a member at least 2^i
      away or the peer itself, and a lookup that answers answers correctly. */
  lemma EveryRunKeepsTheRing(s: Sys, events: seq<Event>, a: Addr)
    requires Start(s)
    ensures var t := Run(s, events); a in t.ring ==>
      && a in t.net
      && Ring(t.net, t.ring)
      && t.net[a].fingers[0].addr in t.net && t.net[a].pred.addr in t.net
      && IsNext(t.net, t.ring, a, t.net[a].fingers[0].addr)
      && t.net[t.net[a].fingers[0].addr].pred == Ref(t.net, a)
      && t.net[t.net[a].pred.addr].fingers[0] == Ref(t.net, a)
      && (forall i: nat {:trigger FingerOk(t.net, t.ring, a, i)} | i < M :: FingerOk(t.net, t.ring, a, i))
      && (forall id: Id :: FindSuccessor(t.net, t.ring, a, id).Some? ==>
            IsFirst(t.net, t.ring, id, FindSuccessor(t.net, t.ring, a, id).value.addr))
  {
    var t := Run(s, events);
    if a in t.ring {
      assert Neighbours(t.net, t.ring, a);
      PredecessorPointsBack(t.net, t.ring, a);
      SuccessorPointsBack(t.net, t.ring, a);
      forall id: Id | FindSuccessor(t.net, t.ring, a, id).Some?
        ensures IsFirst(t.net, t.ring, id, FindSuccessor(t.net, t.ring, a, id).value.addr)
      {
        FindSuccessorCorrect(t.net, t.ring, a, id);
      }
    }
  }

  /** Following successor pointers. */
  ghost function Walk(net: Net, ring: set<Addr>, a: Addr, k: nat): (b: Addr)
    requires Ring(net, ring) && a in ring
    ensures b in ring
    decreases k
  {
    if k == 0 then a
    else
      assert Neighbours(net, ring, a);
      Walk(net, ring, net[a].fingers[0].addr, k - 1)
  }

  /** The successor pointers form one cycle: from any member they lead to every member. */
  lemma {:induction false} OneCycle(net: Net, ring: set<Addr>, a: Addr, b: Addr) returns (k: nat)
    requires Ring(net, ring) && a in ring && b in ring
    ensures Walk(net, ring, a, k) == b && k <= Dist(net[a].id, net[b].id)
    decreases Dist(net[a].id, net[b].id)
  {
    if a == b {
      k := 0;
    } else {
      assert Neighbours(net, ring, a);
      var c := net[a].fingers[0].addr;
      assert Span(net[a].id, net[c].id) <= Span(net[a].id, net[b].id);
      k := OneCycle(net, ring, c, b);
      k := k + 1;
    }
  }

  /** A joiner that lands 2^i, i >= 1, after no member. */
  ghost predicate KeepsClear(s: Sys, n: Addr)
    requires Good(s) && n in s.net
  {
    forall a, i: nat | a in s.ring && 1 <= i < M :: s.net[a].id != Back(s.net[n].id, Gap(i))
  }

  ghost predicate AllClear(s: Sys, events: seq<Event>)
    requires Good(s)
    decreases |events|
  {
    events == [] || (
      && Enabled(s, events[0])
      && (events[0].Joined? ==> KeepsClear(s, events[0].n))
      && AllClear(After(Apply(s, events[0])), events[1..]))
  }

  /** As long as every joiner keeps clear, tables stay exact: then every lookup from any member
      answers within M hops. */
  lemma {:induction false} ClearRunsStayExact(s: Sys, events: seq<Event>)
    requires Good(s) && AllClear(s, events) && (s.ring == {} || Exact(s.net, s.ring))
    ensures var t := Run(s, events); t.ring == {} || Exact(t.net, t.ring)
    ensures var t := Run(s, events); forall a, id: Id | a in t.ring ::
      FindSuccessor(t.net, t.ring, a, id).Some? && |Consulted(t.net, t.ring, a, id)| <= M
    decreases |events|
  {
    if events == [] {
      forall a, id: Id | a in s.ring
        ensures FindSuccessor(s.net, s.ring, a, id).Some? && |Consulted(s.net, s.ring, a, id)| <= M
      {
        HopBound(s.net, s.ring, a, id);
      }
    } else {
      var r := Apply(s, events[0]);
      match events[0] {
        case Created(n) => CreateIsExact(s.net, n);
        case Joined(n, existing) => ExactAfterJoin(s.net, s.ring, n, existing);
      }
      ClearRunsStayExact(After(r), events[1..]);
    }
  }

  /** Every event is possible and no join fails. */
  ghost predicate AllSucceed(s: Sys, events: seq<Event>)
    requires Good(s)
    decreases |events|
  {
    events == [] || (
      && Enabled(s, events[0])
      && Apply(s, events[0]).ok
      && AllSucceed(After(Apply(s, events[0])), events[1..]))
  }

  lemma CreateIsComplete(s: Sys, n: Addr)
    requires Good(s) && Enabled(s, Created(n))
    ensures var r := Apply(s, Created(n)); Ring(r.net, r.ring) && Complete(r.net, r.ring)
  {
    CreateIsExact(s.net, n);
    ExactIsComplete(Create(s.net, n).net, Create(s.net, n).ring);
  }

  /** While no join has failed no finger is unset, stale as they may be, and every lookup from every member
      answers, correctly. */
  lemma {:induction false} SuccessfulRunsAnswer(s: Sys, events: seq<Event>)
    requires Good(s) && AllSucceed(s, events) && (s.ring == {} || Complete(s.net, s.ring))
    ensures var t := Run(s, events); t.ring != {} ==> Ring(t.net, t.ring) && Complete(t.net, t.ring)
    ensures var t := Run(s, events); forall a, id: Id | a in t.ring ::
      var r := FindSuccessor(t.net, t.ring, a, id); r.Some? && IsFirst(t.net, t.ring, id, r.value.addr)
    decreases |events|
  {
    if events == [] {
      forall a, id: Id | a in s.ring
        ensures var r := FindSuccessor(s.net, s.ring, a, id); r.Some? && IsFirst(s.net, s.ring, id, r.value.addr)
      {
        CompleteLookupsAnswer(s.net, s.ring, a, id);
        FindSuccessorCorrect(s.net, s.ring, a, id);
      }
    } else {
      var r := Apply(s, events[0]);
      match events[0] {
        case Created(n) => CreateIsComplete(s, n);
        case Joined(n, existing) => SuccessfulJoinIsComplete(s.net, s.ring, n, existing);
      }
      SuccessfulRunsAnswer(After(r), events[1..]);
    }
  }
}
