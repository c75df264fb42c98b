/** A gossiping peer and its message handlers. */
module GossipPeer {
  import opened Basics
  import opened GossipLog

  /** Rumors of other origins: those handed on to the message registry. */
  function Others(rs: seq<Rumor>, self: Addr): seq<Rumor> {
    if rs == [] then []
    else Others(rs[..|rs| - 1], self) + if rs[|rs| - 1].origin != self then [rs[|rs| - 1]] else []
  }

  /** Accepted rumors of origins that are not neighbours teach the way back to their origin. */
  function LearnRoutes(routes: map<Addr, Addr>, neighbours: set<Addr>, self: Addr, relay: Addr,
          rs: seq<Rumor>): map<Addr, Addr> {
    if rs == [] then routes
    else
      var before := LearnRoutes(routes, neighbours, self, relay, rs[..|rs| - 1]);
      var o := rs[|rs| - 1].origin;
      if o != self && o !in neighbours then before[o := relay] else before
  }

  lemma OneMoreKept(routes: map<Addr, Addr>, neighbours: set<Addr>, self: Addr, relay: Addr, rs: seq<Rumor>, r: Rumor)
    ensures Others(rs + [r], self) == Others(rs, self) + if r.origin != self then [r] else []
    ensures var before := LearnRoutes(routes, neighbours, self, relay, rs);
      LearnRoutes(routes, neighbours, self, relay, rs + [r]) ==
      if r.origin != self && r.origin !in neighbours then before[r.origin := relay] else before
  {
    assert (rs + [r])[..|rs|] == rs;
  }

  predicate IsOrigin(rs: seq<Rumor>, a: Addr) {
    exists r :: r in rs && r.origin == a
  }

  /** The way is direct. */
  predicate Direct(routes: map<Addr, Addr>, a: Addr) {
    a in routes && routes[a] == a
  }

  /** Afterwards exactly the origins of these rumors, but for neighbours and oneself, are reached through
      the relay, and everyone else as before. */
  lemma {:induction false} RouteAfter(routes: map<Addr, Addr>, neighbours: set<Addr>, self: Addr, relay: Addr,
          rs: seq<Rumor>, a: Addr)
    ensures var after := LearnRoutes(routes, neighbours, self, relay, rs);
      var learned := IsOrigin(rs, a) && a != self && a !in neighbours;
      && (a in after <==> a in routes || learned)
      && (a in after ==> after[a] == if learned then relay else routes[a])
  {
    if rs != [] {
      var front, last := rs[..|rs| - 1], rs[|rs| - 1];
      RouteAfter(routes, neighbours, self, relay, front, a);
      assert rs == front + [last];
      assert IsOrigin(rs, a) <==> IsOrigin(front, a) || last.origin == a by {
        assert last in rs;
      }
    }
  }

  /** So gossip never replaces the route to oneself or a direct one. */
  lemma NeighbourRoutesStay(routes: map<Addr, Addr>, neighbours: set<Addr>, self: Addr, relay: Addr, rs: seq<Rumor>,
          a: Addr)
    requires forall b :: b in neighbours <==> Direct(routes, b) && b != self && b != ""
    requires a in routes && (a == self || (Direct(routes, a) && a != ""))
    ensures var routes' := LearnRoutes(routes, neighbours, self, relay, rs); a in routes' && routes'[a] == routes[a]
  {
    RouteAfter(routes, neighbours, self, relay, rs, a);
  }

  /** The answer to a status: rumors and/or one's own status; or nothing to exchange, and perhaps one's own
      status for a random one of the other neighbours. */
  datatype Answer =
    | InSync(passedOn: Option<Status>, among: set<Addr>)
    | Answer(rumors: Option<seq<Rumor>>, status: Option<Status>)

  method Insert(sorted: seq<Rumor>, r: Rumor) returns (result: seq<Rumor>)
    requires InSequenceOrder(sorted)
    ensures InSequenceOrder(result) && multiset(result) == multiset(sorted) + multiset{r}
  {
    var i := |sorted|;
    while i > 0 && sorted[i - 1].sequence > r.sequence
      invariant 0 <= i <= |sorted|
      invariant forall j | i <= j < |sorted| :: sorted[j].sequence > r.sequence
    {
      i := i - 1;
    }
    result := sorted[..i] + [r] + sorted[i..];
    InsertedAt(sorted, i, r);
    InsertedCount(sorted, i, r);
  }

  lemma InsertedAt(sorted: seq<Rumor>, i: nat, r: Rumor)
    requires InSequenceOrder(sorted) && i <= |sorted|
    requires i > 0 ==> sorted[i - 1].sequence <= r.sequence
    requires forall j | i <= j < |sorted| :: sorted[j].sequence > r.sequence
    ensures InSequenceOrder(sorted[..i] + [r] + sorted[i..])
  {
    var result := sorted[..i] + [r] + sorted[i..];
    forall j, k | 0 <= j < k < |result| ensures result[j].sequence <= result[k].sequence {
      if j < i {
        assert sorted[j].sequence <= sorted[i - 1].sequence;
      }
    }
  }

  lemma InsertedCount(sorted: seq<Rumor>, i: nat, r: Rumor)
    requires i <= |sorted|
    ensures multiset(sorted[..i] + [r] + sorted[i..]) == multiset(sorted) + multiset{r}
  {
    assert sorted == sorted[..i] + sorted[i..];
  }

  method SortBySequence(rs: seq<Rumor>) returns (sorted: seq<Rumor>)
    ensures InSequenceOrder(sorted) && multiset(sorted) == multiset(rs)
  {
    sorted := [];
    for i := 0 to |rs|
      invariant InSequenceOrder(sorted) && multiset(sorted) == multiset(rs[..i])
    {
      assert rs[..i + 1] == rs[..i] + [rs[i]];
      sorted := Insert(sorted, rs[i]);
    }
    assert rs[..|rs|] == rs;
  }

  lemma {:induction false} CountAtMostOnce(rs: seq<Rumor>, r: Rumor)
    requires NoRepeats(rs)
    ensures multiset(rs)[r] <= 1
  {
    if rs != [] {
      var front := rs[..|rs| - 1];
      assert rs == front + [rs[|rs| - 1]];
      CountAtMostOnce(front, r);
      if rs[|rs| - 1] == r {
        assert r !in front;
      }
    }
  }

  lemma CountTwice(rs: seq<Rumor>, i: nat, j: nat)
    requires i < j < |rs|
    ensures rs[i] == rs[j] ==> multiset(rs)[rs[i]] >= 2
  {
    assert rs == rs[..j] + rs[j..];
    assert rs[..j][i] == rs[i] && rs[j..][0] == rs[j];
  }

  /** Sorting a list without repeats leaves it without repeats. */
  lemma PermutationKeepsNoRepeats(rs: seq<Rumor>, sorted: seq<Rumor>)
    requires NoRepeats(rs) && multiset(sorted) == multiset(rs)
    ensures NoRepeats(sorted)
    ensures forall r :: r in sorted <==> r in rs
  {
    forall r ensures r in sorted <==> r in rs {
      assert r in sorted <==> r in multiset(sorted);
      assert r in rs <==> r in multiset(rs);
    }
    forall i, j | 0 <= i < j < |sorted| ensures sorted[i] != sorted[j] {
      CountAtMostOnce(rs, sorted[i]);
      CountTwice(sorted, i, j);
    }
  }

  class GossipPeer {
    const addr: Addr
    var rumorTable: Table
    var routingTable: map<Addr, Addr>

    constructor (addr: Addr)
      ensures this.addr == addr && rumorTable == map[] && routingTable == map[addr := addr]
    {
      this.addr := addr;
      rumorTable := map[];
      routingTable := map[addr := addr];
    }

    /** Peers reached directly, other than this one. */
    function GetNeighbors(exclude: Addr): set<Addr>
      reads this
    {
      set a | a in routingTable && a != addr && routingTable[a] == a && a != exclude
    }

    /** Stamps a message as this peer's next rumor and keeps it. */
    method CreateRumor(msg: Msg) returns (r: Rumor)
      modifies this`rumorTable
      ensures r == Rumor(addr, |Log(old(rumorTable), addr)| + 1, msg)
      ensures rumorTable == Append(old(rumorTable), r)
    {
      var lastRumors := if addr in rumorTable then rumorTable[addr] else [];
      r := Rumor(addr, |lastRumors| + 1, msg);
      rumorTable := rumorTable[addr := lastRumors + [r]];
    }

    /** Keeps the expected rumors, hands those of others to the registry, acknowledges with its
        status and, if anything was new, forwards the whole message. */
    method RumorsMessageCallback(rumors: seq<Rumor>, source: Addr, relayedBy: Addr)
      returns (handed: seq<Rumor>, ack: Option<Status>, forward: Option<seq<Rumor>>)
      modifies this
      ensures rumorTable == Receive(old(rumorTable), rumors)
      ensures handed == Others(Accepted(old(rumorTable), rumors), addr)
      ensures ack == if source != addr then Some(StatusOf(rumorTable)) else None
      ensures forward == if source != addr && Accepted(old(rumorTable), rumors) != [] then Some(rumors) else None
      ensures var kept := Accepted(old(rumorTable), rumors);
        routingTable == LearnRoutes(old(routingTable), old(GetNeighbors("")), addr, relayedBy, kept)
      ensures forall a ::
        var learned := IsOrigin(Accepted(old(rumorTable), rumors), a) && a != addr
                       && (a == "" || !Direct(old(routingTable), a));
        && (a in routingTable <==> a in old(routingTable) || learned)
        && (a in routingTable ==> routingTable[a] == if learned then relayedBy else old(routingTable)[a])
    {
      ghost var table, routes := rumorTable, routingTable;
      ghost var kept: seq<Rumor> := [];
      var neighbors := GetNeighbors("");
      var foundExpected := false;
      handed := [];
      for i := 0 to |rumors|
        invariant kept == Accepted(table, rumors[..i]) && rumorTable == Receive(table, rumors[..i])
        invariant foundExpected == (kept != []) && handed == Others(kept, addr)
        invariant routingTable == LearnRoutes(routes, neighbors, addr, relayedBy, kept)
      {
        var rumor := rumors[i];
        OneMoreRumor(table, rumors, i);
        var lastRumorSeqno := LastSeqno(rumorTable, rumor.origin);
        if rumor.sequence != lastRumorSeqno + 1 {
          continue;
        }
        OneMoreKept(routes, neighbors, addr, relayedBy, kept, rumor);
        kept := kept + [rumor];
        foundExpected := true;
        rumorTable := Append(rumorTable, rumor);
        if addr != rumor.origin && rumor.origin !in neighbors {
          routingTable := routingTable[rumor.origin := relayedBy];
        }
        if addr != rumor.origin {
          handed := handed + [rumor];
        }
      }
      assert rumors[..|rumors|] == rumors;
      forall a {
        RouteAfter(routes, neighbors, addr, relayedBy, kept, a);
      }
      ack := if source != addr then Some(StatusOf(rumorTable)) else None;
      forward := if foundExpected && addr != source then Some(rumors) else None;
    }

    method StatusMessagesEqual(local: Status, remote: Status) returns (equal: bool)
      ensures equal == (local == remote)
    {
      if |local| != |remote| {
        return false;
      }
      var rest := local.Keys;
      while rest != {}
        invariant rest <= local.Keys
        invariant forall a | a in local.Keys - rest :: a in remote && remote[a] == local[a]
        decreases rest
      {
        var a :| a in rest;
        if a !in remote || local[a] != remote[a] {
          return false;
        }
        rest := rest - {a};
      }
      SameSizeKeys(local, remote);
      equal := true;
    }

    /** Are there rumors to send, and are there rumors to ask for? */
    method CheckStatusMessages(local: Status, remote: Status) returns (sendRumors: bool, sendStatus: bool)
      ensures sendRumors == Ahead(local, remote)
      ensures sendStatus == Behind(local, remote)
    {
      sendRumors, sendStatus := false, false;
      var rest := local.Keys;
      while rest != {}
        invariant rest <= local.Keys
        invariant sendRumors ==> Ahead(local, remote)
        invariant sendStatus ==> Behind(local, remote)
        invariant !sendRumors ==> forall a | a in local.Keys - rest :: a in remote && local[a] <= remote[a]
        invariant !sendStatus ==> forall a | a in local.Keys - rest :: a in remote ==> local[a] >= remote[a]
        decreases rest
      {
        var a :| a in rest;
        if a !in remote || local[a] > remote[a] {
          sendRumors := true;
        } else if local[a] < remote[a] {
          sendStatus := true;
        }
        rest := rest - {a};
        if sendRumors && sendStatus {
          break;
        }
      }
      rest := remote.Keys;
      while rest != {}
        invariant rest <= remote.Keys
        invariant sendStatus ==> Behind(local, remote)
        invariant !sendStatus ==> forall a | a in local && a in remote :: local[a] >= remote[a]
        invariant !sendStatus ==> forall a | a in remote.Keys - rest :: a in local
        decreases rest
      {
        var a :| a in rest;
        if a !in local {
          sendStatus := true;
          break;
        }
        rest := rest - {a};
      }
    }

    /** The rumors the remote peer lacks, by sequence number. */
    method GetMissingRumors(remote: Status) returns (missing: seq<Rumor>)
      requires WellFormed(rumorTable)
      ensures IsMissingList(rumorTable, remote, missing)
    {
      var found: seq<Rumor> := [];
      var rest := rumorTable.Keys;
      while rest != {}
        invariant rest <= rumorTable.Keys
        invariant NoRepeats(found)
        invariant forall r :: r in found <==> IsNews(rumorTable, remote, r) && r.origin !in rest
        decreases rest
      {
        var a :| a in rest;
        var n := if a in remote then remote[a] else 0;
        if n < |rumorTable[a]| {
          TailIsNews(rumorTable, remote, a);
          found := found + rumorTable[a][n..];
        }
        rest := rest - {a};
      }
      missing := SortBySequence(found);
      PermutationKeepsNoRepeats(found, missing);
    }

    /** continueMongering stands for the toss that decides whether equal statuses travel on. */
    method StatusMessageCallback(remote: Status, source: Addr, continueMongering: bool) returns (answer: Answer)
      requires WellFormed(rumorTable)
      ensures answer.InSync? <==> StatusOf(rumorTable) == remote
      ensures answer.InSync? ==>
        && (forall a :: a in answer.among <==> Direct(routingTable, a) && a != addr && a != source)
        && answer.passedOn == if continueMongering && answer.among != {} then Some(remote) else None
      ensures answer.Answer? ==> answer.rumors.Some? || answer.status.Some?
      ensures answer.Answer? ==> (answer.rumors.Some? <==> Ahead(StatusOf(rumorTable), remote))
      ensures answer.Answer? && answer.rumors.Some? ==> IsMissingList(rumorTable, remote, answer.rumors.value)
      ensures answer.Answer? ==>
        answer.status == if Behind(StatusOf(rumorTable), remote) then Some(StatusOf(rumorTable)) else None
    {
      var local := StatusOf(rumorTable);
      var equal := StatusMessagesEqual(local, remote);
      if equal {
        var others := GetNeighbors(source);
        return InSync(if continueMongering && others != {} then Some(local) else None, others);
      }
      UnequalMeansAheadOrBehind(local, remote);
      var sendRumors, sendStatus := CheckStatusMessages(local, remote);
      var rumors: Option<seq<Rumor>> := None;
      if sendRumors {
        var missing := GetMissingRumors(remote);
        rumors := Some(missing);
      }
      answer := Answer(rumors, if sendStatus then Some(local) else None);
    }
  }

  lemma SameSizeKeys(local: Status, remote: Status)
    requires |local| == |remote|
    requires forall a | a in local :: a in remote && remote[a] == local[a]
    ensures local == remote
  {
    assert |local.Keys| == |local| && |remote.Keys| == |remote|;
    assert local.Keys <= remote.Keys;
    SubsetOfSameSize(local.Keys, remote.Keys);
  }

  lemma SubsetOfSameSize(a: set<Addr>, b: set<Addr>)
    requires a <= b && |a| == |b|
    ensures a == b
  {
    assert |b - a| == |b| - |a|;
  }

  /** The tail of one log is the news of that origin, each rumor once. */
  lemma TailIsNews(t: Table, remote: Status, o: Addr)
    requires WellFormed(t) && o in t && Offset(remote, o) < |t[o]|
    ensures var tail := t[o][Offset(remote, o)..];
      NoRepeats(tail) && forall r :: r in tail <==> IsNews(t, remote, r) && r.origin == o
  {
    var n := Offset(remote, o);
    var tail := t[o][n..];
    forall r ensures r in tail <==> IsNews(t, remote, r) && r.origin == o {
      if r in tail {
        var i :| 0 <= i < |tail| && tail[i] == r;
        assert t[o][n + i] == r;
      }
      if IsNews(t, remote, r) && r.origin == o {
        assert tail[r.sequence - 1 - n] == r;
      }
    }
  }
}
