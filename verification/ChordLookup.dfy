/** The lookup protocol: closest preceding finger, find predecessor, find successor. */
module ChordLookup {
  import opened Basics
  import opened IdRing
  import opened ChordRing

  /** The highest finger below k that lies strictly between the peer and id, or the peer itself. */
  function Closest(p: PeerState, self: Addr, id: Id, k: nat): ChordNode
    requires k <= |p.fingers|
  {
    if k == 0 then ChordNode(p.id, self)
    else if StrictlyBetween(p.fingers[k - 1].id, p.id, id) then p.fingers[k - 1]
    else Closest(p, self, id, k - 1)
  }

  /** The finger Closest settles on, and that all higher ones lie outside (p, id). */
  lemma {:induction false} ClosestIndex(p: PeerState, self: Addr, id: Id, k: nat, j: nat) returns (i: nat)
    requires j < k <= |p.fingers| && StrictlyBetween(p.fingers[j].id, p.id, id)
    ensures j <= i < k && Closest(p, self, id, k) == p.fingers[i]
    ensures StrictlyBetween(p.fingers[i].id, p.id, id)
    ensures forall l | i < l < k :: !StrictlyBetween(p.fingers[l].id, p.id, id)
  {
    if StrictlyBetween(p.fingers[k - 1].id, p.id, id) {
      i := k - 1;
    } else {
      i := ClosestIndex(p, self, id, k - 1, j);
    }
  }

  /** With no finger in (p, id) it is the peer itself. */
  lemma {:induction false} ClosestItself(p: PeerState, self: Addr, id: Id, k: nat)
    requires k <= |p.fingers| && forall l | 0 <= l < k :: !StrictlyBetween(p.fingers[l].id, p.id, id)
    ensures Closest(p, self, id, k) == ChordNode(p.id, self)
  {
    if k > 0 {
      ClosestItself(p, self, id, k - 1);
    }
  }

  /** Outside (cur, successor], the successor itself precedes id, so Closest finds a finger
      which is unset or a member strictly nearer to id. */
  lemma ClosestProgress(net: Net, ring: set<Addr>, cur: Addr, id: Id)
    requires Routes(net, ring) && cur in ring
    requires !LeftOpenRightClosed(id, net[cur].id, net[cur].fingers[0].id)
    ensures var c := Closest(net[cur], cur, id, M);
      || c == UNSET
      || (IsMember(net, ring, c) && Span(net[cur].id, c.id) + Span(c.id, id) == Span(net[cur].id, id))
  {
    var p := net[cur];
    assert SuccessorOk(net, ring, cur);
    IntervalsAreCyclic(id, p.id, p.fingers[0].id);
    IntervalsAreCyclic(p.fingers[0].id, p.id, id);
    var i := ClosestIndex(p, cur, id, M, 0);
    assert EntryOk(net, ring, cur, i);
    IntervalsAreCyclic(p.fingers[i].id, p.id, id);
    Turn(p.id, p.fingers[i].id, id);
  }

  /** The predecessor of id as found from cur.  A remote call to an address nobody answers at
      makes the lookup fail. */
  ghost function FindPredecessor(net: Net, ring: set<Addr>, cur: Addr, id: Id): Option<ChordNode>
    requires Routes(net, ring) && cur in ring
    decreases Span(net[cur].id, id)
  {
    if LeftOpenRightClosed(id, net[cur].id, net[cur].fingers[0].id) then Some(Ref(net, cur))
    else
      var c := Closest(net[cur], cur, id, M);
      ClosestProgress(net, ring, cur, id);
      if c.addr !in net then None else FindPredecessor(net, ring, c.addr, id)
  }

  ghost function FindSuccessor(net: Net, ring: set<Addr>, cur: Addr, id: Id): (r: Option<ChordNode>)
    requires Routes(net, ring) && cur in ring
  {
    match FindPredecessor(net, ring, cur, id)
    case None => None
    case Some(p) =>
      FindPredecessorCorrect(net, ring, cur, id);
      Some(net[p.addr].fingers[0])
  }

  /** The peers whose finger tables the lookup consults, in order: one per hop. */
  ghost function Consulted(net: Net, ring: set<Addr>, cur: Addr, id: Id): seq<Addr>
    requires Routes(net, ring) && cur in ring
    decreases Span(net[cur].id, id)
  {
    if LeftOpenRightClosed(id, net[cur].id, net[cur].fingers[0].id) then []
    else
      var c := Closest(net[cur], cur, id, M);
      ClosestProgress(net, ring, cur, id);
      [cur] + if c.addr !in net then [] else Consulted(net, ring, c.addr, id)
  }

  /** One turn of the loop: the lookup goes on at the closest preceding finger, if somebody answers there. */
  lemma OneHop(net: Net, ring: set<Addr>, cur: Addr, id: Id)
    requires Routes(net, ring) && cur in ring
    requires !LeftOpenRightClosed(id, net[cur].id, net[cur].fingers[0].id)
    ensures var c := Closest(net[cur], cur, id, M);
      if c.addr in net then
        && IsMember(net, ring, c) && Span(c.id, id) < Span(net[cur].id, id)
        && FindPredecessor(net, ring, cur, id) == FindPredecessor(net, ring, c.addr, id)
        && Consulted(net, ring, cur, id) == [cur] + Consulted(net, ring, c.addr, id)
      else FindPredecessor(net, ring, cur, id) == None && Consulted(net, ring, cur, id) == [cur]
  {
    ClosestProgress(net, ring, cur, id);
  }

  lemma {:induction false} FindPredecessorCorrect(net: Net, ring: set<Addr>, cur: Addr, id: Id)
    requires Routes(net, ring) && cur in ring
    ensures var r := FindPredecessor(net, ring, cur, id);
      r.Some? ==> IsMember(net, ring, r.value) && IsLastBefore(net, ring, id, r.value.addr)
    decreases Span(net[cur].id, id)
  {
    var p := net[cur];
    assert SuccessorOk(net, ring, cur);
    if LeftOpenRightClosed(id, p.id, p.fingers[0].id) {
      IntervalsAreCyclic(id, p.id, p.fingers[0].id);
      forall b | b in ring ensures Span(p.id, id) <= Span(net[b].id, id) {
        assert Span(p.id, p.fingers[0].id) <= Span(p.id, net[b].id);
      }
    } else {
      var c := Closest(p, cur, id, M);
      ClosestProgress(net, ring, cur, id);
      if c.addr in net {
        FindPredecessorCorrect(net, ring, c.addr, id);
      }
    }
  }

  /** A lookup that answers gives the first member at or after id, whatever the state of the
      higher fingers. */
  lemma FindSuccessorCorrect(net: Net, ring: set<Addr>, cur: Addr, id: Id)
    requires Routes(net, ring) && cur in ring
    ensures var r := FindSuccessor(net, ring, cur, id);
      r.Some? ==> IsMember(net, ring, r.value) && IsFirst(net, ring, id, r.value.addr)
  {
    FindPredecessorCorrect(net, ring, cur, id);
    var r := FindPredecessor(net, ring, cur, id);
    if r.Some? {
      var q := r.value.addr;
      var s := net[q].fingers[0].addr;
      FindPredecessorEnds(net, ring, cur, id);
      assert SuccessorOk(net, ring, q);
      IntervalsAreCyclic(id, net[q].id, net[s].id);
      forall b | b in ring ensures Dist(id, net[s].id) <= Dist(id, net[b].id) {
        assert Span(net[q].id, net[s].id) <= Span(net[q].id, net[b].id);
      }
    }
  }

  /** The loop only stops where id lies in (predecessor, its successor]. */
  lemma {:induction false} FindPredecessorEnds(net: Net, ring: set<Addr>, cur: Addr, id: Id)
    requires Routes(net, ring) && cur in ring
    ensures var r := FindPredecessor(net, ring, cur, id);
      r.Some? ==> r.value.addr in ring && LeftOpenRightClosed(id, net[r.value.addr].id, net[r.value.addr].fingers[0].id)
    decreases Span(net[cur].id, id)
  {
    if !LeftOpenRightClosed(id, net[cur].id, net[cur].fingers[0].id) {
      var c := Closest(net[cur], cur, id, M);
      ClosestProgress(net, ring, cur, id);
      if c.addr in net {
        FindPredecessorEnds(net, ring, c.addr, id);
      }
    }
  }

  /** With every finger set, no lookup fails. */
  lemma {:induction false} CompleteLookupsAnswer(net: Net, ring: set<Addr>, cur: Addr, id: Id)
    requires Routes(net, ring) && Complete(net, ring) && cur in ring
    ensures FindPredecessor(net, ring, cur, id).Some?
    decreases Span(net[cur].id, id)
  {
    var p := net[cur];
    assert SuccessorOk(net, ring, cur);
    if !LeftOpenRightClosed(id, p.id, p.fingers[0].id) {
      IntervalsAreCyclic(id, p.id, p.fingers[0].id);
      IntervalsAreCyclic(p.fingers[0].id, p.id, id);
      var i := ClosestIndex(p, cur, id, M, 0);
      ClosestProgress(net, ring, cur, id);
      CompleteLookupsAnswer(net, ring, p.fingers[i].addr, id);
    }
  }
}
