/** Calls that arrive more than once: what a repeated call of a join changes, at any point of it. */
module ChordReplay {
  import opened Basics
  import opened IdRing
  import opened ChordRing
  import opened ChordLookup
  import opened ChordHops
  import opened ChordJoin

  /** An update for s, delivered at cur, changes nothing. */
  predicate Settled(net: Net, cur: Addr, s: Addr, i: nat)
    requires {cur, s} <= net.Keys && i < |net[cur].fingers|
  {
    cur == s || !LeftClosedRightOpen(net[s].id, net[cur].id, net[cur].fingers[i].id)
  }

  /** A call that reaches peer q for index i. */
  datatype Call = Call(q: Addr, i: nat)

  /** The calls of a join of n go to members, and to none too close for the index but n itself. */
  ghost predicate IsCall(net: Net, ring: set<Addr>, n: Addr, c: Call)
    requires Ring(net, ring) && n in ring
  {
    c.q in ring && c.i < M && (c.q == n || Dist(net[c.q].id, net[n].id) >= Gap(c.i))
  }

  ghost predicate AreCalls(net: Net, ring: set<Addr>, n: Addr, cs: seq<Call>)
    requires Ring(net, ring) && n in ring
  {
    forall c {:trigger IsCall(net, ring, n, c)} | c in cs :: IsCall(net, ring, n, c)
  }

  lemma CallsElsewhere(net: Net, net': Net, ring: set<Addr>, n: Addr, cs: seq<Call>)
    requires Ring(net, ring) && Ring(net', ring) && n in ring && SameIds(net, net') && AreCalls(net', ring, n, cs)
    ensures AreCalls(net, ring, n, cs)
  {
    forall c {:trigger IsCall(net, ring, n, c)} | c in cs ensures IsCall(net, ring, n, c) {
      assert IsCall(net', ring, n, c);
    }
  }

  lemma CallsTogether(net: Net, ring: set<Addr>, n: Addr, cs: seq<Call>, ds: seq<Call>)
    requires Ring(net, ring) && n in ring && AreCalls(net, ring, n, cs) && AreCalls(net, ring, n, ds)
    ensures AreCalls(net, ring, n, cs + ds)
  {
    forall c {:trigger IsCall(net, ring, n, c)} | c in cs + ds ensures IsCall(net, ring, n, c) {
      assert c in cs || c in ds;
    }
  }

  lemma CallsPart(net: Net, ring: set<Addr>, n: Addr, cs: seq<Call>, k: nat)
    requires Ring(net, ring) && n in ring && AreCalls(net, ring, n, cs) && k <= |cs|
    ensures AreCalls(net, ring, n, cs[..k])
  {
  }

  /** What a call writes where it arrives. */
  ghost function Receive(net: Net, ring: set<Addr>, n: Addr, c: Call): (net': Net)
    requires Ring(net, ring) && n in ring && IsCall(net, ring, n, c)
    ensures Ring(net', ring) && OnlyMembers(net, net', ring)
    ensures Settled(net', c.q, n, c.i)
  {
    if Settled(net, c.q, n, c.i) then net
    else
      UpdateKeepsRing(net, ring, c.q, n, c.i);
      SetFinger(net, c.q, c.i, Ref(net, n))
  }

  /** The network once the calls have arrived, in order. */
  ghost function Point(net: Net, ring: set<Addr>, n: Addr, cs: seq<Call>): (net': Net)
    requires Ring(net, ring) && n in ring && AreCalls(net, ring, n, cs)
    ensures Ring(net', ring) && OnlyMembers(net, net', ring)
  {
    if cs == [] then net
    else
      var front, c := cs[..|cs| - 1], cs[|cs| - 1];
      assert IsCall(net, ring, n, c);
      Receive(Point(net, ring, n, front), ring, n, c)
  }

  lemma {:induction false} PointConcat(net: Net, ring: set<Addr>, n: Addr, cs: seq<Call>, ds: seq<Call>)
    requires Ring(net, ring) && n in ring && AreCalls(net, ring, n, cs) && AreCalls(net, ring, n, ds)
    ensures AreCalls(net, ring, n, cs + ds) && AreCalls(Point(net, ring, n, cs), ring, n, ds)
    ensures Point(net, ring, n, cs + ds) == Point(Point(net, ring, n, cs), ring, n, ds)
  {
    CallsTogether(net, ring, n, cs, ds);
    CallsElsewhere(Point(net, ring, n, cs), net, ring, n, ds);
    if ds == [] {
      assert cs + ds == cs;
    } else {
      assert (cs + ds)[..|cs + ds| - 1] == cs + ds[..|ds| - 1];
      PointConcat(net, ring, n, cs, ds[..|ds| - 1]);
    }
  }

  /** No call unsettles a peer, for its own index or any other. */
  lemma ReceiveKeepsSettled(net: Net, ring: set<Addr>, n: Addr, c: Call, q: Addr, j: nat)
    requires Ring(net, ring) && n in ring && IsCall(net, ring, n, c) && q in ring && j < M
    requires Settled(net, q, n, j)
    ensures Settled(Receive(net, ring, n, c), q, n, j)
  {
  }

  /** What a call has done where it arrived stays done. */
  lemma {:induction false} StaysSettled(net: Net, ring: set<Addr>, n: Addr, cs: seq<Call>, l: nat)
    requires Ring(net, ring) && n in ring && AreCalls(net, ring, n, cs) && l < |cs|
    ensures IsCall(net, ring, n, cs[l]) && Settled(Point(net, ring, n, cs), cs[l].q, n, cs[l].i)
  {
    var front, c := cs[..|cs| - 1], cs[|cs| - 1];
    assert IsCall(net, ring, n, cs[l]) && IsCall(net, ring, n, c);
    if l < |cs| - 1 {
      StaysSettled(net, ring, n, front, l);
      ReceiveKeepsSettled(Point(net, ring, n, front), ring, n, c, cs[l].q, cs[l].i);
    }
  }

  /** The calls one update makes, from peer to peer; nothing is sent to the newcomer itself. */
  ghost function Calls(net: Net, ring: set<Addr>, cur: Addr, n: Addr, i: nat): (cs: seq<Call>)
    requires Ring(net, ring) && cur in ring && n in ring && i < M
    requires cur == n || Dist(net[cur].id, net[n].id) >= Gap(i)
    ensures AreCalls(net, ring, n, cs)
    decreases Dist(net[n].id, net[cur].id)
  {
    if cur == n then []
    else if Settled(net, cur, n, i) then [Call(cur, i)]
    else
      UpdateKeepsRing(net, ring, cur, n, i);
      var net' := SetFinger(net, cur, i, Ref(net, n));
      var rest := Calls(net', ring, net[cur].pred.addr, n, i);
      assert IsCall(net, ring, n, Call(cur, i));
      CallsElsewhere(net, net', ring, n, rest);
      [Call(cur, i)] + rest
  }

  /** They are all it does. */
  lemma {:induction false} CallsAreTheUpdate(net: Net, ring: set<Addr>, cur: Addr, n: Addr, i: nat)
    requires Ring(net, ring) && cur in ring && n in ring && i < M
    requires cur == n || Dist(net[cur].id, net[n].id) >= Gap(i)
    ensures Point(net, ring, n, Calls(net, ring, cur, n, i)) == UpdateFinger(net, ring, cur, n, i)
    decreases Dist(net[n].id, net[cur].id)
  {
    if cur != n {
      var first := [Call(cur, i)];
      assert first[..0] == [];
      if !Settled(net, cur, n, i) {
        UpdateKeepsRing(net, ring, cur, n, i);
        var net', p := SetFinger(net, cur, i, Ref(net, n)), net[cur].pred.addr;
        CallsAreTheUpdate(net', ring, p, n, i);
        assert IsCall(net, ring, n, Call(cur, i));
        CallsElsewhere(net, net', ring, n, Calls(net', ring, p, n, i));
        PointConcat(net, ring, n, first, Calls(net', ring, p, n, i));
      }
    }
  }

  lemma RestOfLoop(net: Net, net': Net, ring: set<Addr>, n: Addr, cs: seq<Call>, rest: seq<Call>)
    requires Ring(net, ring) && Ring(net', ring) && n in ring && SameIds(net, net')
    requires AreCalls(net, ring, n, cs) && Point(net, ring, n, cs) == net' && AreCalls(net', ring, n, rest)
    ensures AreCalls(net, ring, n, cs + rest) && Point(net, ring, n, cs + rest) == Point(net', ring, n, rest)
  {
    CallsElsewhere(net, net', ring, n, rest);
    PointConcat(net, ring, n, cs, rest);
  }

  /** The calls of the whole update loop from index i on: they lead to the tables the loop leaves. */
  ghost function LoopCalls(net: Net, ring: set<Addr>, n: Addr, i: nat): (cs: seq<Call>)
    requires Ring(net, ring) && n in ring && i <= M
    ensures AreCalls(net, ring, n, cs)
    ensures Point(net, ring, n, cs) == UpdateOthers(net, ring, n, i).net
    decreases M - i
  {
    if i == M then []
    else
      var p := FindPredecessor(net, ring, n, Back(net[n].id, Gap(i)));
      UpdateStart(net, ring, n, i);
      if p.None? then []
      else
        CallsAreTheUpdate(net, ring, p.value.addr, n, i);
        var net' := UpdateFinger(net, ring, p.value.addr, n, i);
        var cs, rest := Calls(net, ring, p.value.addr, n, i), LoopCalls(net', ring, n, i + 1);
        RestOfLoop(net, net', ring, n, cs, rest);
        cs + rest
  }

  /** A call that has arrived among others may arrive again. */
  lemma RepeatedCall(net: Net, ring: set<Addr>, n: Addr, cs: seq<Call>, l: nat)
    requires Ring(net, ring) && n in ring && AreCalls(net, ring, n, cs) && l < |cs|
    ensures IsCall(net, ring, n, cs[l])
    ensures var now := Point(net, ring, n, cs); UpdateFinger(now, ring, cs[l].q, n, cs[l].i) == now
  {
    StaysSettled(net, ring, n, cs, l);
  }

  /** At every point of the update loop, between its calls and after the last, a call that has arrived
      before changes nothing when it arrives again, and no further call follows from it. */
  lemma ReplayedUpdatesChangeNothing(net: Net, ring: set<Addr>, n: Addr, k: nat, l: nat)
    requires Ring(net, ring) && n in ring && l < k <= |LoopCalls(net, ring, n, 0)|
    ensures var cs := LoopCalls(net, ring, n, 0);
      && AreCalls(net, ring, n, cs[..k]) && IsCall(net, ring, n, cs[l])
      && var now := Point(net, ring, n, cs[..k]);
      UpdateFinger(now, ring, cs[l].q, n, cs[l].i) == now
    ensures Point(net, ring, n, LoopCalls(net, ring, n, 0)) == UpdateOthers(net, ring, n, 0).net
  {
    var cs := LoopCalls(net, ring, n, 0);
    CallsPart(net, ring, n, cs, k);
    assert cs[..k][l] == cs[l];
    RepeatedCall(net, ring, n, cs[..k], l);
  }

  /** Nor does n setting itself once more as predecessor or successor at those who are its neighbours in a
      ring, as they are after its join and until another one comes between. */
  lemma ReplayedLinksChangeNothing(net: Net, ring: set<Addr>, n: Addr)
    requires Ring(net, ring) && n in ring
    ensures {net[n].fingers[0].addr, net[n].pred.addr} <= ring
    ensures SetPred(net, net[n].fingers[0].addr, Ref(net, n)) == net
    ensures SetFinger(net, net[n].pred.addr, 0, Ref(net, n)) == net
  {
    PredecessorPointsBack(net, ring, n);
    SuccessorPointsBack(net, ring, n);
    var p := net[n].pred.addr;
    assert net[p].fingers[0 := Ref(net, n)] == net[p].fingers;
  }

  lemma SuccessorIsDetermined(net: Net, net': Net, ring: set<Addr>, a: Addr)
    requires Routes(net, ring) && Routes(net', ring) && SameIds(net, net') && a in ring
    ensures net'[a].fingers[0] == net[a].fingers[0]
  {
    assert SuccessorOk(net, ring, a) && SuccessorOk(net', ring, a);
    var s, s' := net[a].fingers[0].addr, net'[a].fingers[0].addr;
    assert Span(net[a].id, net[s].id) == Span(net[a].id, net[s'].id);
  }

  lemma PredecessorIsDetermined(net: Net, net': Net, ring: set<Addr>, a: Addr)
    requires Ring(net, ring) && Ring(net', ring) && SameIds(net, net') && a in ring
    ensures net'[a].pred == net[a].pred
  {
    assert Neighbours(net, ring, a) && Neighbours(net', ring, a);
    var p, p' := net[a].pred.addr, net'[a].pred.addr;
    assert Span(net[p].id, net[a].id) <= Span(net[p].id, net[p'].id);
    assert Span(net[p'].id, net[a].id) <= Span(net[p'].id, net[p].id);
  }

  /** A late copy may go to a former neighbour.  A SetPredecessor from n keeps the ring if and only if n is
      the predecessor there still; after a later join in between it does not. */
  lemma LateSetPredecessor(net: Net, ring: set<Addr>, n: Addr, s: Addr)
    requires Ring(net, ring) && n in ring && s in ring
    ensures Ring(SetPred(net, s, Ref(net, n)), ring) <==> net[s].pred == Ref(net, n)
  {
    var net' := SetPred(net, s, Ref(net, n));
    if net[s].pred == Ref(net, n) {
      assert net' == net;
    }
    if Ring(net', ring) {
      PredecessorIsDetermined(net, net', ring, s);
    }
  }

  /** Likewise for a SetSuccessor from n. */
  lemma LateSetSuccessor(net: Net, ring: set<Addr>, n: Addr, p: Addr)
    requires Ring(net, ring) && n in ring && p in ring
    ensures Ring(SetFinger(net, p, 0, Ref(net, n)), ring) <==> net[p].fingers[0] == Ref(net, n)
  {
    var net' := SetFinger(net, p, 0, Ref(net, n));
    if net[p].fingers[0] == Ref(net, n) {
      assert net[p].fingers[0 := Ref(net, n)] == net[p].fingers;
      assert net' == net;
    }
    if Ring(net', ring) {
      SuccessorIsDetermined(net, net', ring, p);
    }
  }

  /** While tables are exact, a late update changes nothing anywhere, whatever joins came between. */
  lemma LateUpdate(net: Net, ring: set<Addr>, n: Addr, c: Call)
    requires Exact(net, ring) && n in ring && IsCall(net, ring, n, c)
    ensures UpdateFinger(net, ring, c.q, n, c.i) == net
  {
    assert FingerExact(net, ring, c.q, c.i) && FingerOk(net, ring, c.q, c.i);
    var start, f := Forward(net[c.q].id, Gap(c.i)), net[c.q].fingers[c.i];
    assert Dist(start, f.id) <= Dist(start, net[n].id);
    IntervalsAreCyclic(net[n].id, net[c.q].id, f.id);
    assert Settled(net, c.q, n, c.i);
  }
}
