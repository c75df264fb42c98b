/** How far a lookup travels, and which tables it reads while a newcomer is half joined. */
module ChordHops {
  import opened Basics
  import opened IdRing
  import opened ChordRing
  import opened ChordLookup

  /** d lies between two consecutive powers of two. */
  lemma {:induction false} Log2(d: nat, e: nat) returns (i: nat)
    requires 0 < d < Pow2(e)
    ensures i < e && Pow2(i) <= d < Pow2(i + 1)
  {
    if Pow2(e - 1) <= d {
      i := e - 1;
    } else {
      i := Log2(d, e - 1);
    }
  }

  /** With t the last member before id and 2^i at most the way to t, a hop covers at least 2^i
      of it and does not pass t. */
  lemma HopCovers(net: Net, ring: set<Addr>, cur: Addr, id: Id, t: Addr, i: nat)
    requires Exact(net, ring) && cur in ring && IsLastBefore(net, ring, id, t) && i < M
    requires Pow2(i) <= Dist(net[cur].id, net[t].id)
    ensures var c := Closest(net[cur], cur, id, M);
      IsMember(net, ring, c) && Dist(c.id, net[t].id) <= Dist(net[cur].id, net[t].id) - Pow2(i)
  {
    var p := net[cur];
    FingerBeforeLast(net, ring, cur, id, t, i);
    var j := ClosestIndex(p, cur, id, M, i);
    var c := p.fingers[j];
    assert FingerExact(net, ring, cur, j) && FingerOk(net, ring, cur, j);
    IntervalsAreCyclic(c.id, p.id, id);
    Pow2Monotone(i, j);
    assert Span(net[t].id, id) <= Span(net[c.addr].id, id);
  }

  lemma FingerBeforeLast(net: Net, ring: set<Addr>, cur: Addr, id: Id, t: Addr, i: nat)
    requires Exact(net, ring) && cur in ring && IsLastBefore(net, ring, id, t) && i < M
    requires Pow2(i) <= Dist(net[cur].id, net[t].id)
    ensures StrictlyBetween(net[cur].fingers[i].id, net[cur].id, id)
  {
    var p := net[cur];
    assert FingerExact(net, ring, cur, i);
    var f := p.fingers[i];
    assert Dist(Forward(p.id, Gap(i)), f.id) <= Dist(Forward(p.id, Gap(i)), net[t].id);
    assert Span(net[t].id, id) <= Span(p.id, id);
    IntervalsAreCyclic(f.id, p.id, id);
  }

  lemma {:induction false} HopsWithin(net: Net, ring: set<Addr>, cur: Addr, id: Id, t: Addr, e: nat)
    requires Exact(net, ring) && cur in ring && IsLastBefore(net, ring, id, t)
    requires e <= M && Dist(net[cur].id, net[t].id) < Pow2(e)
    ensures |Consulted(net, ring, cur, id)| <= e
    decreases Span(net[cur].id, id)
  {
    if !LeftOpenRightClosed(id, net[cur].id, net[cur].fingers[0].id) {
      StopsAtLast(net, ring, cur, id, t);
      var i := Log2(Dist(net[cur].id, net[t].id), e);
      HopCovers(net, ring, cur, id, t, i);
      ClosestProgress(net, ring, cur, id);
      HopsWithin(net, ring, Closest(net[cur], cur, id, M).addr, id, t, i);
    }
  }

  lemma StopsAtLast(net: Net, ring: set<Addr>, cur: Addr, id: Id, t: Addr)
    requires Ring(net, ring) && cur in ring && IsLastBefore(net, ring, id, t)
    requires !LeftOpenRightClosed(id, net[cur].id, net[cur].fingers[0].id)
    ensures Dist(net[cur].id, net[t].id) > 0
  {
    assert Neighbours(net, ring, cur);
    IntervalsAreCyclic(id, net[cur].id, net[cur].fingers[0].id);
    assert Span(net[t].id, id) <= Span(net[cur].fingers[0].id, id);
  }

  /** With exact tables a lookup consults at most M peers, from any member to any identifier. */
  lemma HopBound(net: Net, ring: set<Addr>, cur: Addr, id: Id)
    requires Exact(net, ring) && cur in ring
    ensures FindSuccessor(net, ring, cur, id).Some?
    ensures |Consulted(net, ring, cur, id)| <= M
  {
    ExactIsComplete(net, ring);
    CompleteLookupsAnswer(net, ring, cur, id);
    FindPredecessorCorrect(net, ring, cur, id);
    HopsWithin(net, ring, cur, id, FindPredecessor(net, ring, cur, id).value.addr, M);
  }

  lemma ExactIsComplete(net: Net, ring: set<Addr>)
    requires Exact(net, ring)
    ensures Complete(net, ring)
  {
    forall a, i: nat | a in ring && i < M ensures net[a].fingers[i] != UNSET {
      assert FingerExact(net, ring, a, i);
    }
  }

  /** n is linked into the ring but only its successor entry is known to be set: every other
      member's table is complete and, past entry 0, does not mention n yet. */
  ghost predicate Joining(net: Net, ring: set<Addr>, n: Addr) {
    && Ring(net, ring)
    && n in ring
    && (forall a, i: nat | a in ring && a != n && i < M :: net[a].fingers[i] != UNSET)
    && (forall a, i: nat | a in ring && 1 <= i < M :: net[a].fingers[i].addr == n ==> a == n)
  }

  /** n's predecessor can step over n: one of its fingers is n's successor. */
  ghost predicate StepsOver(net: Net, ring: set<Addr>, n: Addr)
    requires Joining(net, ring, n)
  {
    assert Neighbours(net, ring, n);
    var p := net[n].pred.addr;
    var s := net[n].fingers[0];
    s.addr == p || exists i: nat | i < M :: net[p].fingers[i] == s
  }

  lemma PredecessorPointsBack(net: Net, ring: set<Addr>, n: Addr)
    requires Ring(net, ring) && n in ring
    ensures net[n].pred.addr in ring && net[net[n].pred.addr].fingers[0] == Ref(net, n)
  {
    assert Neighbours(net, ring, n);
    var p := net[n].pred.addr;
    assert Neighbours(net, ring, p);
    var q := net[p].fingers[0].addr;
    assert Span(net[p].id, net[q].id) == Span(net[p].id, net[n].id);
  }

  lemma SuccessorPointsBack(net: Net, ring: set<Addr>, a: Addr)
    requires Ring(net, ring) && a in ring
    ensures net[a].fingers[0].addr in ring && net[net[a].fingers[0].addr].pred == Ref(net, a)
  {
    assert Neighbours(net, ring, a);
    var s := net[a].fingers[0].addr;
    assert Neighbours(net, ring, s);
    var q := net[s].pred.addr;
    assert Span(net[a].id, net[s].id) <= Span(net[a].id, net[q].id);
    assert Span(net[q].id, net[s].id) <= Span(net[q].id, net[a].id);
  }

  /** The one member between n's predecessor and n's successor is n. */
  lemma OnlyBetween(net: Net, ring: set<Addr>, n: Addr, b: Addr)
    requires Ring(net, ring) && n in ring && b in ring
    ensures var p, s := net[n].pred.addr, net[n].fingers[0].addr;
      p in ring && s in ring && net[p].fingers[0] == Ref(net, n) &&
      (0 < Dist(net[p].id, net[b].id) <= Dist(net[p].id, net[s].id) ==> b == n || b == s)
  {
    assert Neighbours(net, ring, n);
    var p, s := net[n].pred.addr, net[n].fingers[0].addr;
    PredecessorPointsBack(net, ring, n);
    assert Span(net[p].id, net[n].id) <= Span(net[p].id, net[b].id);
    assert Span(net[n].id, net[s].id) <= Span(net[n].id, net[b].id);
  }

  /** A hop from a complete table lands on a member nearer to id. */
  lemma HopLands(net: Net, ring: set<Addr>, n: Addr, cur: Addr, id: Id) returns (i: nat)
    requires Joining(net, ring, n) && cur in ring && cur != n
    requires !LeftOpenRightClosed(id, net[cur].id, net[cur].fingers[0].id)
    ensures i < M && Closest(net[cur], cur, id, M) == net[cur].fingers[i]
    ensures forall l | i < l < M :: !StrictlyBetween(net[cur].fingers[l].id, net[cur].id, id)
    ensures net[cur].fingers[i].addr in ring
    ensures Span(net[net[cur].fingers[i].addr].id, id) < Span(net[cur].id, id)
  {
    var p := net[cur];
    assert Neighbours(net, ring, cur);
    IntervalsAreCyclic(id, p.id, p.fingers[0].id);
    IntervalsAreCyclic(p.fingers[0].id, p.id, id);
    i := ClosestIndex(p, cur, id, M, 0);
    ClosestProgress(net, ring, cur, id);
  }

  /** Lookups started anywhere else pass n by, and answer. */
  lemma {:induction false} JoiningLookup(net: Net, ring: set<Addr>, n: Addr, cur: Addr, id: Id)
    requires Joining(net, ring, n) && StepsOver(net, ring, n) && cur in ring && cur != n
    ensures FindPredecessor(net, ring, cur, id).Some?
    ensures n !in Consulted(net, ring, cur, id)
    decreases Span(net[cur].id, id)
  {
    if !LeftOpenRightClosed(id, net[cur].id, net[cur].fingers[0].id) {
      var i := HopLands(net, ring, n, cur, id);
      ConsultedStep(net, ring, cur, id);
      var next := net[cur].fingers[i].addr;
      if next == n {
        StepsOntoNewcomer(net, ring, n, cur, id, i);
      } else {
        JoiningLookup(net, ring, n, next, id);
      }
    }
  }

  /** Only n's predecessor leads to n, and then id is n's to answer without its table. */
  lemma StepsOntoNewcomer(net: Net, ring: set<Addr>, n: Addr, cur: Addr, id: Id, i: nat)
    requires Joining(net, ring, n) && StepsOver(net, ring, n) && cur in ring && cur != n
    requires !LeftOpenRightClosed(id, net[cur].id, net[cur].fingers[0].id)
    requires i < M && net[cur].fingers[i].addr == n
    requires forall l | i < l < M :: !StrictlyBetween(net[cur].fingers[l].id, net[cur].id, id)
    ensures LeftOpenRightClosed(id, net[n].id, net[n].fingers[0].id)
  {
    assert i == 0;
    var s := net[n].fingers[0];
    assert Neighbours(net, ring, cur) && Neighbours(net, ring, n);
    OnlyBetween(net, ring, n, cur);
    SuccessorPointsBack(net, ring, cur);
    assert cur == net[n].pred.addr;
    IntervalsAreCyclic(id, net[cur].id, net[n].id);
    IntervalsAreCyclic(id, net[n].id, s.id);
    IntervalsAreCyclic(s.id, net[cur].id, id);
  }

  /** Without a finger at n's successor, the predecessor's own lookup of the identifier after that
      successor asks n for its table. */
  lemma NewcomerIsAsked(net: Net, ring: set<Addr>, n: Addr) returns (p: Addr, id: Id)
    requires Joining(net, ring, n) && !StepsOver(net, ring, n)
    ensures p in ring && p != n && n in Consulted(net, ring, p, id)
  {
    assert Neighbours(net, ring, n);
    var s := net[n].fingers[0];
    p, id := net[n].pred.addr, Forward(s.id, 1);
    OnlyBetween(net, ring, n, p);
    var P := net[p];
    assert Neighbours(net, ring, p);
    assert p != n && s.addr != n by {
      assert Span(net[n].id, s.id) <= Span(net[n].id, P.id);
      assert Span(P.id, net[n].id) <= Span(P.id, s.id);
    }
    IntervalsAreCyclic(id, P.id, P.fingers[0].id);
    IntervalsAreCyclic(P.fingers[0].id, P.id, id);
    var j := ClosestIndex(P, p, id, M, 0);
    ClosestProgress(net, ring, p, id);
    IntervalsAreCyclic(P.fingers[j].id, P.id, id);
    OnlyBetween(net, ring, n, P.fingers[j].addr);
    IntervalsAreCyclic(id, net[n].id, s.id);
    ConsultedStep(net, ring, p, id);
    AsksItself(net, ring, n, id);
  }

  lemma ConsultedStep(net: Net, ring: set<Addr>, cur: Addr, id: Id)
    requires Routes(net, ring) && cur in ring
    requires !LeftOpenRightClosed(id, net[cur].id, net[cur].fingers[0].id)
    requires Closest(net[cur], cur, id, M).addr in net
    ensures var c := Closest(net[cur], cur, id, M).addr;
      && c in ring
      && Consulted(net, ring, cur, id) == [cur] + Consulted(net, ring, c, id)
      && FindPredecessor(net, ring, cur, id) == FindPredecessor(net, ring, c, id)
  {
    ClosestProgress(net, ring, cur, id);
  }

  lemma AsksItself(net: Net, ring: set<Addr>, cur: Addr, id: Id)
    requires Routes(net, ring) && cur in ring
    requires !LeftOpenRightClosed(id, net[cur].id, net[cur].fingers[0].id)
    ensures cur in Consulted(net, ring, cur, id)
  {
    assert Consulted(net, ring, cur, id)[0] == cur;
  }

  /** Lookups started elsewhere avoid the newcomer's unset fingers exactly when its predecessor has
      its successor as a finger. */
  lemma NewcomerIsAvoided(net: Net, ring: set<Addr>, n: Addr)
    requires Joining(net, ring, n)
    ensures StepsOver(net, ring, n) <==>
      forall cur, id: Id | cur in ring && cur != n :: n !in Consulted(net, ring, cur, id)
  {
    if StepsOver(net, ring, n) {
      forall cur, id: Id | cur in ring && cur != n ensures n !in Consulted(net, ring, cur, id) {
        JoiningLookup(net, ring, n, cur, id);
      }
    } else {
      var p, id := NewcomerIsAsked(net, ring, n);
    }
  }
}
