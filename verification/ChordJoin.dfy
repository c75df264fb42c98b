/** Joining: filling the newcomer's table, linking it in, and updating the others. */
module ChordJoin {
  import opened Basics
  import opened IdRing
  import opened ChordRing
  import opened ChordLookup

  datatype Outcome = Outcome(net: Net, ok: bool)

  ghost predicate SameIds(net: Net, net': Net) {
    net'.Keys == net.Keys && forall a | a in net :: net'[a].id == net[a].id
  }

  /** Only members' states change. */
  ghost predicate OnlyMembers(net: Net, net': Net, ring: set<Addr>) {
    SameIds(net, net') && forall a | a in net && a !in ring :: net'[a] == net[a]
  }

  lemma SetFingerKeepsRing(net: Net, ring: set<Addr>, a: Addr, i: nat, c: ChordNode)
    requires Ring(net, ring) && a in ring && i < M
    requires IsMember(net, ring, c) && Span(net[a].id, c.id) >= Gap(i)
    requires i == 0 ==> c == net[a].fingers[0]
    ensures var net' := SetFinger(net, a, i, c); Ring(net', ring) && OnlyMembers(net, net', ring)
  {
    var net' := SetFinger(net, a, i, c);
    forall b {:trigger SuccessorOk(net', ring, b)} {:trigger PredecessorOk(net', ring, b)} | b in ring
      ensures Neighbours(net', ring, b)
    {
      NeighboursKept(net, net', ring, b);
    }
    forall b, j: nat {:trigger EntryOk(net', ring, b, j)} {:trigger FarEnough(net', ring, b, j)} | b in ring && j < M
      ensures FingerOk(net', ring, b, j)
    {
      if b != a || j != i {
        FingerKept(net, net', ring, b, j);
      }
    }
  }

  lemma NeighboursKept(net: Net, net': Net, ring: set<Addr>, a: Addr)
    requires Ring(net, ring) && Shape(net', ring) && SameIds(net, net') && a in ring
    requires net'[a].fingers[0] == net[a].fingers[0] && net'[a].pred == net[a].pred
    ensures Neighbours(net', ring, a)
  {
    assert Neighbours(net, ring, a);
  }

  lemma FingerKept(net: Net, net': Net, ring: set<Addr>, a: Addr, i: nat)
    requires Ring(net, ring) && Shape(net', ring) && SameIds(net, net') && a in ring && i < M
    requires net'[a].fingers[i] == net[a].fingers[i]
    ensures FingerOk(net', ring, a, i)
  {
    assert FingerOk(net, ring, a, i);
  }

  /** The update call for finger i sent to cur on behalf of s: the call stops at s itself and at
      the first peer whose finger need not change, and otherwise moves on to the predecessor. */
  ghost function UpdateFinger(net: Net, ring: set<Addr>, cur: Addr, s: Addr, i: nat): (net': Net)
    requires Ring(net, ring) && cur in ring && s in ring && i < M
    requires cur == s || Dist(net[cur].id, net[s].id) >= Gap(i)
    ensures Ring(net', ring) && OnlyMembers(net, net', ring)
    decreases Dist(net[s].id, net[cur].id)
  {
    if cur == s then net
    else if LeftClosedRightOpen(net[s].id, net[cur].id, net[cur].fingers[i].id) then
      UpdateKeepsRing(net, ring, cur, s, i);
      UpdateFinger(SetFinger(net, cur, i, Ref(net, s)), ring, net[cur].pred.addr, s, i)
    else net
  }

  lemma UpdateKeepsRing(net: Net, ring: set<Addr>, cur: Addr, s: Addr, i: nat)
    requires Ring(net, ring) && cur in ring && s in ring && i < M
    requires cur != s && Dist(net[cur].id, net[s].id) >= Gap(i)
    requires LeftClosedRightOpen(net[s].id, net[cur].id, net[cur].fingers[i].id)
    ensures i > 0
    ensures var net' := SetFinger(net, cur, i, Ref(net, s)); Ring(net', ring) && OnlyMembers(net, net', ring)
    ensures var p := net[cur].pred.addr;
      p in ring && Dist(net[s].id, net[p].id) < Dist(net[s].id, net[cur].id) &&
      (p == s || Dist(net[p].id, net[s].id) > Dist(net[cur].id, net[s].id))
  {
    assert Neighbours(net, ring, cur);
    IntervalsAreCyclic(net[s].id, net[cur].id, net[cur].fingers[i].id);
    var p := net[cur].pred.addr;
    assert Span(net[cur].id, net[cur].fingers[0].id) <= Span(net[cur].id, net[s].id);
    assert Span(net[p].id, net[cur].id) <= Span(net[p].id, net[s].id);
    SetFingerKeepsRing(net, ring, cur, i, Ref(net, s));
  }

  /** n exists, has a table nobody wrote to, and an identifier no member uses. */
  ghost predicate Fresh(net: Net, ring: set<Addr>, n: Addr)
    requires Shape(net, ring)
  {
    && n in net && n !in ring
    && (forall a | a in ring :: net[a].id != net[n].id)
    && (forall i: nat | i < M :: net[n].fingers[i] == UNSET)
  }

  /** n notes its successor and the predecessor that successor names. */
  function LinkSelf(net: Net, n: Addr, s: Addr): Net
    requires n in net && s in net && |net[n].fingers| == M
  {
    SetPred(SetFinger(net, n, 0, Ref(net, s)), n, net[s].pred)
  }

  /** s and p take n as predecessor and successor. */
  function LinkAround(net: Net, p: Addr, n: Addr, s: Addr): Net
    requires {p, n, s} <= net.Keys && |net[p].fingers| == M
  {
    SetFinger(SetPred(net, s, Ref(net, n)), p, 0, Ref(net, n))
  }

  /** n puts itself between its successor s and the predecessor it learns from s. */
  function LinkIn(net: Net, n: Addr, s: Addr): Net
    requires n in net && s in net && net[s].pred.addr in net
    requires forall a | a in net :: |net[a].fingers| == M
  {
    var p := net[s].pred;
    LinkAround(LinkSelf(net, n, s), p.addr, n, s)
  }

  /** With s the first member after n and p the member before s, n falls between p and s. */
  lemma Placement(net: Net, ring: set<Addr>, n: Addr, s: Addr, b: Addr)
    requires Ring(net, ring) && Fresh(net, ring, n) && b in ring
    requires IsFirst(net, ring, Forward(net[n].id, 1), s)
    ensures var p := net[s].pred.addr;
      && p in ring && net[p].fingers[0].addr == s
      && Span(net[n].id, net[s].id) <= Span(net[n].id, net[b].id)
      && Span(net[p].id, net[n].id) <= Span(net[p].id, net[b].id)
  {
    assert Neighbours(net, ring, s);
    var p := net[s].pred.addr;
    assert Neighbours(net, ring, p);
    var x := net[p].fingers[0].addr;
    assert Span(net[p].id, net[s].id) <= Span(net[p].id, net[x].id);
    assert Span(net[p].id, net[x].id) <= Span(net[p].id, net[s].id);
    assert Dist(Forward(net[n].id, 1), net[s].id) <= Dist(Forward(net[n].id, 1), net[b].id);
    assert Dist(Forward(net[n].id, 1), net[s].id) <= Dist(Forward(net[n].id, 1), net[p].id);
    assert Span(net[p].id, net[s].id) <= Span(net[p].id, net[b].id);
  }

  /** Tables with the same entries lead lookups the same way. */
  lemma {:induction false} SameEntriesSameLookup(net: Net, net': Net, ring: set<Addr>, cur: Addr, id: Id)
    requires Routes(net, ring) && Routes(net', ring) && SameIds(net, net') && cur in ring
    requires forall a | a in ring :: net'[a].fingers == net[a].fingers
    ensures FindPredecessor(net', ring, cur, id) == FindPredecessor(net, ring, cur, id)
    ensures Consulted(net', ring, cur, id) == Consulted(net, ring, cur, id)
    decreases Span(net[cur].id, id)
  {
    if !LeftOpenRightClosed(id, net[cur].id, net[cur].fingers[0].id) {
      ClosestProgress(net, ring, cur, id);
      ClosestProgress(net', ring, cur, id);
      SameScan(net[cur], net'[cur], cur, id, M);
      var c := Closest(net[cur], cur, id, M);
      if c.addr in net {
        SameEntriesSameLookup(net, net', ring, c.addr, id);
      }
    }
  }

  lemma {:induction false} SameScan(p: PeerState, p': PeerState, self: Addr, id: Id, k: nat)
    requires p.id == p'.id && p.fingers == p'.fingers && k <= |p.fingers|
    ensures Closest(p', self, id, k) == Closest(p, self, id, k)
  {
    if k > 0 {
      SameScan(p, p', self, id, k - 1);
    }
  }

  /** The network when s has taken n as its predecessor, and that one's predecessor has not been told. */
  function HalfLinked(net: Net, n: Addr, s: Addr): Net
    requires n in net && s in net && |net[n].fingers| == M
  {
    SetPred(LinkSelf(net, n, s), s, Ref(net, n))
  }

  lemma SameEntriesRoute(net: Net, net': Net, ring: set<Addr>)
    requires Routes(net, ring) && SameIds(net, net') && Shape(net', ring)
    requires forall a | a in ring :: net'[a].fingers == net[a].fingers
    ensures Routes(net', ring)
  {
    forall a {:trigger SuccessorOk(net', ring, a)} | a in ring ensures SuccessorOk(net', ring, a) {
      assert SuccessorOk(net, ring, a);
    }
    forall a, i: nat {:trigger EntryOk(net', ring, a, i)} | a in ring && i < M ensures EntryOk(net', ring, a, i) {
      assert EntryOk(net, ring, a, i);
    }
  }

  lemma HalfLinkedAt(net: Net, n: Addr, s: Addr, a: Addr)
    requires {n, s, a} <= net.Keys && s != n && |net[n].fingers| == M
    ensures var mid := HalfLinked(net, n, s);
      && mid.Keys == net.Keys && mid[a].id == net[a].id && |mid[a].fingers| == |net[a].fingers|
      && (a != n ==> mid[a].fingers == net[a].fingers)
  {
  }

  lemma HalfLinkedRoutes(net: Net, ring: set<Addr>, n: Addr, s: Addr)
    requires Ring(net, ring) && Fresh(net, ring, n) && s in ring
    ensures var mid := HalfLinked(net, n, s);
      && SameIds(net, mid) && Routes(mid, ring)
      && forall a | a in ring :: mid[a].fingers == net[a].fingers
  {
    var mid := HalfLinked(net, n, s);
    forall a | a in net
      ensures mid.Keys == net.Keys && mid[a].id == net[a].id && |mid[a].fingers| == |net[a].fingers|
      ensures a != n ==> mid[a].fingers == net[a].fingers
    {
      HalfLinkedAt(net, n, s, a);
    }
    SameEntriesRoute(net, mid, ring);
  }

  lemma NoneBetween(net: Net, ring: set<Addr>, a: Addr, b: Addr)
    requires Routes(net, ring) && a in ring && b in ring
    ensures IsMember(net, ring, net[a].fingers[0])
    ensures Span(net[a].id, net[a].fingers[0].id) <= Span(net[a].id, net[b].id)
  {
    assert SuccessorOk(net, ring, a);
  }

  lemma PredecessorIsMember(net: Net, ring: set<Addr>, a: Addr)
    requires Ring(net, ring) && a in ring
    ensures net[a].pred.addr in ring
  {
    assert Neighbours(net, ring, a);
  }

  /** Half linked, the members are no ring, with or without n: one predecessor and one successor disagree. */
  lemma HalfLinkedIsNoRing(net: Net, ring: set<Addr>, n: Addr, s: Addr)
    requires Ring(net, ring) && Fresh(net, ring, n) && IsFirst(net, ring, Forward(net[n].id, 1), s)
    ensures !Ring(HalfLinked(net, n, s), ring) && !Ring(HalfLinked(net, n, s), ring + {n})
  {
    var mid := HalfLinked(net, n, s);
    Placement(net, ring, n, s, s);
    NoneBetween(net, ring, net[s].pred.addr, net[s].pred.addr);
    if Ring(mid, ring) {
      PredecessorIsMember(mid, ring, s);
    } else if Ring(mid, ring + {n}) {
      NoneBetween(mid, ring + {n}, net[s].pred.addr, n);
    }
  }

  /** Yet every lookup from an old member goes the way it went before, and if it answers, it gives the
      first old member at or after the identifier. */
  lemma HalfLinkedLookups(net: Net, ring: set<Addr>, n: Addr, s: Addr, cur: Addr, id: Id)
    requires Ring(net, ring) && Fresh(net, ring, n) && s in ring && cur in ring
    ensures var mid := HalfLinked(net, n, s);
      && Routes(mid, ring)
      && Consulted(mid, ring, cur, id) == Consulted(net, ring, cur, id)
      && var r := FindSuccessor(mid, ring, cur, id);
      && r == FindSuccessor(net, ring, cur, id)
      && (r.Some? ==> IsMember(mid, ring, r.value) && IsFirst(mid, ring, id, r.value.addr))
  {
    var mid := HalfLinked(net, n, s);
    HalfLinkedRoutes(net, ring, n, s);
    SameEntriesSameLookup(net, mid, ring, cur, id);
    FindPredecessorCorrect(net, ring, cur, id);
    FindSuccessorCorrect(mid, ring, cur, id);
  }

  /** Only the member before s has n nearer than its old successor. */
  lemma NextUnlessBefore(net: Net, ring: set<Addr>, n: Addr, s: Addr, a: Addr, r: Addr)
    requires Ring(net, ring) && Fresh(net, ring, n) && a in ring && IsNext(net, ring, a, r)
    requires IsFirst(net, ring, Forward(net[n].id, 1), s)
    ensures net[s].pred.addr in ring
    ensures a != net[s].pred.addr ==> Span(net[a].id, net[r].id) <= Span(net[a].id, net[n].id)
    ensures a == net[s].pred.addr ==> r == s
  {
    Placement(net, ring, n, s, a);
    var p := net[s].pred.addr;
    assert Neighbours(net, ring, p);
    assert Span(net[a].id, net[r].id) <= Span(net[a].id, net[p].id);
    assert Span(net[a].id, net[r].id) <= Span(net[a].id, net[s].id);
  }

  /** What linking in changes: one successor entry and one predecessor at n, one of each at its
      new neighbours p and s. */
  ghost predicate LinkedBetween(net: Net, net': Net, p: Addr, n: Addr, s: Addr) {
    && {p, n, s} <= net.Keys == net'.Keys
    && forall a {:trigger net'[a]} | a in net :: LinkedAt(net, net', p, n, s, a)
  }

  ghost predicate LinkedAt(net: Net, net': Net, p: Addr, n: Addr, s: Addr, a: Addr)
    requires {p, n, s, a} <= net.Keys && a in net'
  {
    var before, after := net[a], net'[a];
    && after.id == before.id
    && |before.fingers| == M == |after.fingers|
    && after.pred == (if a == n then Ref(net, p) else if a == s then Ref(net, n) else before.pred)
    && after.fingers[0] == (if a == n then Ref(net, s) else if a == p then Ref(net, n) else before.fingers[0])
    && forall i: nat | 1 <= i < M :: after.fingers[i] == before.fingers[i]
  }

  lemma LinkInLinks(net: Net, n: Addr, s: Addr, p: Addr)
    requires {p, n, s} <= net.Keys && n != p && n != s && net[s].pred == Ref(net, p)
    requires forall a | a in net :: |net[a].fingers| == M
    ensures LinkedBetween(net, LinkIn(net, n, s), p, n, s)
  {
    forall a | a in net ensures LinkedAt(net, LinkIn(net, n, s), p, n, s, a) {
      LinkInAt(net, n, s, p, a);
    }
  }

  lemma LinkInAt(net: Net, n: Addr, s: Addr, p: Addr, a: Addr)
    requires {p, n, s, a} <= net.Keys && n != p && n != s && net[s].pred == Ref(net, p)
    requires forall a | a in net :: |net[a].fingers| == M
    ensures LinkedAt(net, LinkIn(net, n, s), p, n, s, a)
  {
    var net1 := LinkSelf(net, n, s);
    assert a != n ==> net1[a] == net[a];
    assert a != s && a != p ==> LinkIn(net, n, s)[a] == net1[a];
  }

  lemma LinkInKeepsRing(net: Net, ring: set<Addr>, n: Addr, s: Addr, net': Net)
    requires Ring(net, ring) && Fresh(net, ring, n)
    requires IsFirst(net, ring, Forward(net[n].id, 1), s)
    requires LinkedBetween(net, net', net[s].pred.addr, n, s)
    ensures Ring(net', ring + {n})
  {
    Placement(net, ring, n, s, s);
    var ring' := ring + {n};
    assert Shape(net', ring');
    forall a {:trigger SuccessorOk(net', ring', a)} {:trigger PredecessorOk(net', ring', a)} | a in ring'
      ensures Neighbours(net', ring', a)
    {
      LinkInNeighbours(net, ring, n, s, net', a);
    }
    forall a, i: nat {:trigger EntryOk(net', ring', a, i)} {:trigger FarEnough(net', ring', a, i)} | a in ring' && i < M
      ensures FingerOk(net', ring', a, i)
    {
      if a != n && net'[a].fingers[i] == net[a].fingers[i] {
        assert FingerOk(net, ring, a, i);
      }
    }
  }

  lemma LinkInNeighbours(net: Net, ring: set<Addr>, n: Addr, s: Addr, net': Net, a: Addr)
    requires Ring(net, ring) && Fresh(net, ring, n) && a in ring + {n}
    requires IsFirst(net, ring, Forward(net[n].id, 1), s) && net[s].pred.addr in ring
    requires LinkedBetween(net, net', net[s].pred.addr, n, s) && Shape(net', ring + {n})
    ensures Neighbours(net', ring + {n}, a)
  {
    var ring' := ring + {n};
    Placement(net, ring, n, s, s);
    var r, q := net'[a].fingers[0].addr, net'[a].pred.addr;
    if a != n {
      assert Neighbours(net, ring, a);
      NextUnlessBefore(net, ring, n, s, a, net[a].fingers[0].addr);
      NextUnlessBefore(net, ring, n, s, net[a].pred.addr, a);
    }
    assert IsMember(net', ring', net'[a].fingers[0]) && IsMember(net', ring', net'[a].pred);
    forall b | b in ring'
      ensures Span(net'[a].id, net'[r].id) <= Span(net'[a].id, net'[b].id)
      ensures Span(net'[q].id, net'[a].id) <= Span(net'[q].id, net'[b].id)
    {
      if b != n {
        Placement(net, ring, n, s, b);
      }
    }
  }

  /** Entry i+1 of n's table: a copy of entry i while that still covers the start, otherwise
      what the existing peer answers. */
  ghost function NextEntry(net: Net, ring: set<Addr>, n: Addr, existing: Addr, i: nat): Option<ChordNode>
    requires Ring(net, ring) && n in ring && existing in ring && i + 1 < M
  {
    var start := Forward(net[n].id, Gap(i + 1));
    if LeftClosedRightOpen(start, net[n].id, net[n].fingers[i].id) then Some(net[n].fingers[i])
    else FindSuccessor(net, ring, existing, start)
  }

  /** Entries i+1 .. M-1 of n's table, one after the other. */
  ghost function FillTable(net: Net, ring: set<Addr>, n: Addr, existing: Addr, i: nat): (r: Outcome)
    requires Ring(net, ring) && n in ring && existing in ring && i < M
    requires IsMember(net, ring, net[n].fingers[i])
    ensures Ring(r.net, ring) && OnlyMembers(net, r.net, ring)
    decreases M - i
  {
    if i + 1 == M then Outcome(net, true)
    else
      var f := NextEntry(net, ring, n, existing, i);
      FillKeepsRing(net, ring, n, existing, i);
      if f.None? then Outcome(net, false)
      else FillTable(SetFinger(net, n, i + 1, f.value), ring, n, existing, i + 1)
  }

  lemma FillKeepsRing(net: Net, ring: set<Addr>, n: Addr, existing: Addr, i: nat)
    requires Ring(net, ring) && n in ring && existing in ring && i + 1 < M
    requires IsMember(net, ring, net[n].fingers[i])
    ensures var f := NextEntry(net, ring, n, existing, i);
      f.Some? ==>
        && IsMember(net, ring, f.value)
        && Ring(SetFinger(net, n, i + 1, f.value), ring)
        && OnlyMembers(net, SetFinger(net, n, i + 1, f.value), ring)
  {
    var start := Forward(net[n].id, Gap(i + 1));
    IntervalsAreCyclic(start, net[n].id, net[n].fingers[i].id);
    FindSuccessorCorrect(net, ring, existing, start);
    var f := NextEntry(net, ring, n, existing, i);
    if f.Some? {
      assert !LeftClosedRightOpen(start, net[n].id, net[n].fingers[i].id) ==>
        Dist(start, f.value.id) <= Dist(start, net[n].id);
      SetFingerKeepsRing(net, ring, n, i + 1, f.value);
    }
  }

  /** What filling n's table from entry i on comes to, if the network is fit for it. */
  ghost function FillOutcome(net: Net, ring: set<Addr>, n: Addr, existing: Addr, i: nat): Option<Outcome> {
    if Ring(net, ring) && n in ring && existing in ring && i < M && IsMember(net, ring, net[n].fingers[i])
    then Some(FillTable(net, ring, n, existing, i)) else None
  }

  /** fill is that outcome as a function of network and entry, so that a loop can speak of it by name. */
  ghost predicate Foretells(fill: (Net, nat) -> Option<Outcome>, ring: set<Addr>, n: Addr, existing: Addr) {
    forall net: Net, i: nat {:trigger FillOutcome(net, ring, n, existing, i)} ::
      fill(net, i) == FillOutcome(net, ring, n, existing, i)
  }

  lemma FillBegins(net: Net, ring: set<Addr>, n: Addr, existing: Addr) returns (fill: (Net, nat) -> Option<Outcome>)
    requires Ring(net, ring) && n in ring && existing in ring && IsMember(net, ring, net[n].fingers[0])
    ensures Foretells(fill, ring, n, existing)
    ensures fill(net, 0) == Some(FillTable(net, ring, n, existing, 0))
  {
    fill := (net: Net, i: nat) => FillOutcome(net, ring, n, existing, i);
    assert FillOutcome(net, ring, n, existing, 0).Some?;
  }

  lemma FillTableStep(fill: (Net, nat) -> Option<Outcome>, net: Net, ring: set<Addr>, n: Addr, existing: Addr, i: nat)
    requires Foretells(fill, ring, n, existing) && fill(net, i).Some? && i + 1 < M
    ensures Ring(net, ring) && n in ring && existing in ring
    ensures var f := NextEntry(net, ring, n, existing, i);
      fill(net, i) == if f.None? then Some(Outcome(net, false)) else fill(SetFinger(net, n, i + 1, f.value), i + 1)
  {
    assert FillOutcome(net, ring, n, existing, i).Some?;
    FillKeepsRing(net, ring, n, existing, i);
    var f := NextEntry(net, ring, n, existing, i);
    if f.Some? {
      assert FillOutcome(SetFinger(net, n, i + 1, f.value), ring, n, existing, i + 1).Some?;
    }
  }

  lemma FillTableEnd(fill: (Net, nat) -> Option<Outcome>, net: Net, ring: set<Addr>, n: Addr, existing: Addr)
    requires Foretells(fill, ring, n, existing) && fill(net, M - 1).Some?
    ensures fill(net, M - 1) == Some(Outcome(net, true))
  {
    assert FillOutcome(net, ring, n, existing, M - 1).Some?;
  }

  /** For every i from the given one on, start the update at the last member before n - 2^i. */
  ghost function UpdateOthers(net: Net, ring: set<Addr>, n: Addr, i: nat): (r: Outcome)
    requires Ring(net, ring) && n in ring && i <= M
    ensures Ring(r.net, ring) && OnlyMembers(net, r.net, ring)
    decreases M - i
  {
    if i == M then Outcome(net, true)
    else
      var p := FindPredecessor(net, ring, n, Back(net[n].id, Gap(i)));
      UpdateStart(net, ring, n, i);
      if p.None? then Outcome(net, false)
      else UpdateOthers(UpdateFinger(net, ring, p.value.addr, n, i), ring, n, i + 1)
  }

  lemma UpdateStart(net: Net, ring: set<Addr>, n: Addr, i: nat)
    requires Ring(net, ring) && n in ring && i < M
    ensures var p := FindPredecessor(net, ring, n, Back(net[n].id, Gap(i)));
      p.Some? ==>
        && IsMember(net, ring, p.value)
        && (p.value.addr == n || Dist(p.value.id, net[n].id) > Gap(i))
  {
    var id := Back(net[n].id, Gap(i));
    FindPredecessorCorrect(net, ring, n, id);
    var p := FindPredecessor(net, ring, n, id);
    if p.Some? {
      assert Span(net[p.value.addr].id, id) <= Span(net[n].id, id);
    }
  }

  datatype JoinResult = JoinResult(net: Net, ring: set<Addr>, ok: bool)

  /** The first peer of a network points to itself everywhere. */
  function Create(net: Net, n: Addr): JoinResult
    requires n in net
  {
    var self := Ref(net, n);
    JoinResult(net[n := net[n].(fingers := seq(M, i => self), pred := self)], {n}, true)
  }

  lemma CreateIsExact(net: Net, n: Addr)
    requires n in net && Shape(net, {})
    ensures var r := Create(net, n); Exact(r.net, r.ring) && OnlyMembers(net, r.net, r.ring)
  {
    var r := Create(net, n);
    assert Neighbours(r.net, r.ring, n);
    forall a, i: nat {:trigger FingerOk(r.net, r.ring, a, i)} {:trigger FingerExact(r.net, r.ring, a, i)} |
      a in r.ring && i < M
      ensures FingerOk(r.net, r.ring, a, i) && FingerExact(r.net, r.ring, a, i) {
    }
  }

  /** Initialising n's table: look up its successor, link in, fill the rest.  When a lookup fails
      everything stops where it is. */
  ghost function Init(net: Net, ring: set<Addr>, n: Addr, existing: Addr): (r: JoinResult)
    requires Ring(net, ring) && Fresh(net, ring, n) && existing in ring
    ensures Ring(r.net, r.ring) && OnlyMembers(net, r.net, r.ring)
    ensures r.ring == ring || r.ring == ring + {n}
    ensures r.ok ==> r.ring == ring + {n}
  {
    var s := FindSuccessor(net, ring, existing, Forward(net[n].id, 1));
    if s.None? then JoinResult(net, ring, false)
    else
      FindSuccessorCorrect(net, ring, existing, Forward(net[n].id, 1));
      assert Neighbours(net, ring, s.value.addr);
      LinkInLinks(net, n, s.value.addr, net[s.value.addr].pred.addr);
      var linked := LinkIn(net, n, s.value.addr);
      LinkInKeepsRing(net, ring, n, s.value.addr, linked);
      assert Neighbours(linked, ring + {n}, n);
      var filled := FillTable(linked, ring + {n}, n, existing, 0);
      JoinResult(filled.net, ring + {n}, filled.ok)
  }

  /** What Init does once the lookup of n + 1 has answered s. */
  lemma InitFrom(net: Net, ring: set<Addr>, n: Addr, existing: Addr, s: Addr)
    requires Ring(net, ring) && Fresh(net, ring, n) && existing in ring && s in net
    requires FindSuccessor(net, ring, existing, Forward(net[n].id, 1)) == Some(Ref(net, s))
    ensures s in ring && net[s].pred.addr in net
    ensures var linked := LinkIn(net, n, s);
      && Ring(linked, ring + {n}) && linked.Keys == net.Keys
      && IsMember(linked, ring + {n}, linked[n].fingers[0])
      && var r := FillTable(linked, ring + {n}, n, existing, 0);
      Init(net, ring, n, existing) == JoinResult(r.net, ring + {n}, r.ok)
  {
    FindSuccessorCorrect(net, ring, existing, Forward(net[n].id, 1));
    assert Neighbours(net, ring, s);
    LinkInLinks(net, n, s, net[s].pred.addr);
    LinkInKeepsRing(net, ring, n, s, LinkIn(net, n, s));
    assert Neighbours(LinkIn(net, n, s), ring + {n}, n);
  }

  /** Join through an existing member. */
  ghost function Join(net: Net, ring: set<Addr>, n: Addr, existing: Addr): (r: JoinResult)
    requires Ring(net, ring) && Fresh(net, ring, n) && existing in ring
    ensures Ring(r.net, r.ring) && OnlyMembers(net, r.net, r.ring)
    ensures r.ring == ring || r.ring == ring + {n}
    ensures r.ok ==> r.ring == ring + {n}
  {
    var r := Init(net, ring, n, existing);
    if !r.ok then r
    else
      var updated := UpdateOthers(r.net, r.ring, n, 0);
      JoinResult(updated.net, r.ring, updated.ok)
  }
}
