/** The peers themselves: finger tables and predecessor pointers updated in place.  A remote call
    is a call on the peer at the remote address.  Every method is tied to its value-level
    description through View, the states of all peers. */
module ChordPeer {
  import opened Basics
  import opened IdRing
  import opened ChordRing
  import opened ChordLookup
  import opened ChordJoin

  datatype FingerEntry = FingerEntry(start: ChordNode, node: ChordNode)

  function Nodes(entries: seq<FingerEntry>): (nodes: seq<ChordNode>)
    ensures |nodes| == |entries|
    ensures forall i | 0 <= i < |entries| :: nodes[i] == entries[i].node
  {
    seq(|entries|, i requires 0 <= i < |entries| => entries[i].node)
  }

  lemma NodeReplaced(entries: seq<FingerEntry>, i: nat, c: ChordNode)
    requires i < |entries|
    ensures Nodes(entries[i := entries[i].(node := c)]) == Nodes(entries)[i := c]
  {
  }

  class SafeFingerTable {
    const entries: array<FingerEntry>

    /** Entry i starts 2^i after the owner; no node is set yet. */
    constructor (size: nat, chordID: Id)
      requires size <= M
      ensures fresh(entries) && entries.Length == size
      ensures forall i: nat | i < size :: entries[i] == FingerEntry(ChordNode(Forward(chordID, Gap(i)), ""), UNSET)
    {
      entries := new FingerEntry[size](i => FingerEntry(UNSET, UNSET));
      new;
      for i := 1 to size + 1
        invariant entries.Length == size && fresh(entries)
        invariant forall j: nat | j < i - 1 :: entries[j] == FingerEntry(ChordNode(Forward(chordID, Gap(j)), ""), UNSET)
        invariant forall j | i - 1 <= j < size :: entries[j].node == UNSET
      {
        entries[i - 1] := entries[i - 1].(start := ChordNode(Forward(chordID, Gap(i - 1)), ""));
      }
    }

    method FingerTableGet(index: nat) returns (r: Option<FingerEntry>)
      ensures r == if index < entries.Length then Some(entries[index]) else None
    {
      if index >= entries.Length {
        return None;
      }
      r := Some(entries[index]);
    }

    method FingerTableSetNode(index: nat, node: ChordNode) returns (ok: bool)
      modifies entries
      ensures ok == (index < entries.Length)
      ensures entries[..] == if ok then old(entries[..])[index := old(entries[index]).(node := node)]
                             else old(entries[..])
    {
      if index >= entries.Length {
        return false;
      }
      entries[index] := entries[index].(node := node);
      ok := true;
    }

    method FingerTableAssignMinusOne(index: nat) returns (ok: bool)
      requires index >= 1
      modifies entries
      ensures ok == (index < entries.Length)
      ensures entries[..] ==
        if ok then old(entries[..])[index := old(entries[index]).(node := old(entries[index - 1]).node)]
        else old(entries[..])
    {
      if index >= entries.Length {
        return false;
      }
      entries[index] := entries[index].(node := entries[index - 1].node);
      ok := true;
    }
  }

  type Peers = map<Addr, Peer>

  ghost function Tables(peers: Peers): set<object> {
    set a | a in peers :: peers[a].table.entries
  }

  ghost function Objects(peers: Peers): set<object> {
    set a | a in peers :: peers[a]
  }

  /** Each peer sits under its address with a table of its own whose starts are in place. */
  ghost predicate Network(peers: Peers)
    reads Tables(peers)
  {
    && (forall a | a in peers :: peers[a].addr == a && peers[a].table.entries.Length == M)
    && (forall a, b | a in peers && b in peers && a != b :: peers[a].table.entries != peers[b].table.entries)
    && (forall a, i: nat | a in peers && i < M ::
          peers[a].table.entries[i].start.id == Forward(peers[a].chordID, Gap(i)))
  }

  ghost function View(peers: Peers): Net
    reads Objects(peers), Tables(peers)
  {
    map a | a in peers :: peers[a].State()
  }

  /** Nothing the view depends on changed, so the view did not. */
  twostate lemma ViewKept(peers: Peers)
    requires unchanged(Objects(peers)) && unchanged(Tables(peers))
    ensures View(peers) == old(View(peers))
  {
    assert forall a | a in peers :: peers[a].State() == old(peers[a].State());
  }

  /** The network once n's first i entries name n itself. */
  ghost function PointsHome(net: Net, n: Addr, i: nat): Net
    requires n in net && i <= |net[n].fingers|
  {
    net[n := net[n].(fingers := seq(i, j => Ref(net, n)) + net[n].fingers[i..])]
  }

  lemma PointsHomeAtFirst(net: Net, n: Addr)
    requires n in net
    ensures PointsHome(net, n, 0) == net
  {
    assert seq(0, j => Ref(net, n)) + net[n].fingers[0..] == net[n].fingers;
  }

  lemma PointsHomeNext(net: Net, n: Addr, i: nat)
    requires n in net && i < |net[n].fingers|
    ensures SetFinger(PointsHome(net, n, i), n, i, Ref(net, n)) == PointsHome(net, n, i + 1)
  {
    assert (seq(i, j => Ref(net, n)) + net[n].fingers[i..])[i := Ref(net, n)] ==
      seq(i + 1, j => Ref(net, n)) + net[n].fingers[i + 1..];
  }

  lemma PointsHomeAtLast(net: Net, n: Addr)
    requires n in net && |net[n].fingers| == M
    ensures SetPred(PointsHome(net, n, M), n, Ref(net, n)) == Create(net, n).net
  {
    assert seq(M, j => Ref(net, n)) + net[n].fingers[M..] == seq(M, j => Ref(net, n));
  }

  lemma OneMore(asked: seq<Addr>, a: Addr, rest: seq<Addr>)
    ensures asked + ([a] + rest) == asked + [a] + rest
  {
  }

  class Peer {
    const addr: Addr
    const chordID: Id
    const table: SafeFingerTable
    var predecessorChord: ChordNode
    var hasJoinedChordNetwork: bool

    constructor (addr: Addr, chordID: Id)
      ensures this.addr == addr && this.chordID == chordID && fresh(table) && fresh(table.entries)
      ensures table.entries.Length == M && !hasJoinedChordNetwork
      ensures forall i: nat | i < M :: table.entries[i] == FingerEntry(ChordNode(Forward(chordID, Gap(i)), ""), UNSET)
    {
      this.addr := addr;
      this.chordID := chordID;
      table := new SafeFingerTable(M, chordID);
      predecessorChord := UNSET;
      hasJoinedChordNetwork := false;
    }

    ghost function State(): PeerState
      reads this, table.entries
    {
      PeerState(chordID, Nodes(table.entries[..]), predecessorChord)
    }

    method MySuccessor() returns (c: ChordNode)
      requires table.entries.Length == M
      ensures c == State().fingers[0]
    {
      var fe := table.FingerTableGet(0);
      c := fe.value.node;
    }

    /** Scans from the highest entry down. */
    method ClosestPrecedingFinger(id: Id) returns (c: ChordNode)
      requires table.entries.Length == M
      ensures c == Closest(State(), addr, id, M)
    {
      var i := M;
      while i > 0
        invariant 0 <= i <= M
        invariant Closest(State(), addr, id, M) == Closest(State(), addr, id, i)
      {
        i := i - 1;
        var fe := table.FingerTableGet(i);
        if StrictlyBetween(fe.value.node.id, chordID, id) {
          return fe.value.node;
        }
      }
      c := ChordNode(chordID, addr);
    }

    method RpcClosestPrecedingFinger(peers: Peers, ghost net: Net, remote: ChordNode, id: Id)
      returns (c: Option<ChordNode>)
      requires Network(peers) && net == View(peers)
      ensures c == if remote.addr in net then Some(Closest(net[remote.addr], remote.addr, id, M)) else None
    {
      if remote.addr !in peers {
        return None;
      }
      var r := peers[remote.addr].ClosestPrecedingFinger(id);
      c := Some(r);
    }

    method RpcSuccessor(peers: Peers, ghost net: Net, remote: ChordNode) returns (c: Option<ChordNode>)
      requires Network(peers) && net == View(peers)
      ensures c == if remote.addr in net then Some(net[remote.addr].fingers[0]) else None
    {
      if remote.addr !in peers {
        return None;
      }
      var r := peers[remote.addr].MySuccessor();
      c := Some(r);
    }

    /** The lookup loop hops from peer to peer, always nearer to id. */
    /** Asks the peers of Consulted, in order. */
    method FindPredecessor(peers: Peers, ghost net: Net, ghost ring: set<Addr>, id: Id) returns (r: Option<ChordNode>)
      requires Network(peers) && net == View(peers) && Routes(net, ring) && addr in ring && peers[addr] == this
      ensures r == ChordLookup.FindPredecessor(net, ring, addr, id)
    {
      ghost var asked: seq<Addr> := [];
      var remoteChord := ChordNode(chordID, addr);
      var remoteChordSuccessor := MySuccessor();
      ViewKept(peers);
      while !LeftOpenRightClosed(id, remoteChord.id, remoteChordSuccessor.id)
        invariant net == View(peers)
        invariant remoteChord.addr in ring && remoteChord == Ref(net, remoteChord.addr)
        invariant remoteChordSuccessor == net[remoteChord.addr].fingers[0]
        invariant ChordLookup.FindPredecessor(net, ring, addr, id) ==
                  ChordLookup.FindPredecessor(net, ring, remoteChord.addr, id)
        invariant Consulted(net, ring, addr, id) == asked + Consulted(net, ring, remoteChord.addr, id)
        decreases Span(remoteChord.id, id)
      {
        OneHop(net, ring, remoteChord.addr, id);
        ghost var before, last := asked, remoteChord.addr;
        asked := asked + [last];
        var c := RpcClosestPrecedingFinger(peers, net, remoteChord, id);
        remoteChord := c.value;
        ViewKept(peers);
        var s := RpcSuccessor(peers, net, remoteChord);
        if s.None? {
          assert asked == Consulted(net, ring, addr, id);
          return None;
        }
        OneMore(before, last, Consulted(net, ring, remoteChord.addr, id));
        ViewKept(peers);
        remoteChordSuccessor := s.value;
      }
      assert asked == Consulted(net, ring, addr, id);
      r := Some(remoteChord);
    }

    method FindSuccessor(peers: Peers, ghost net: Net, ghost ring: set<Addr>, id: Id) returns (r: Option<ChordNode>)
      requires Network(peers) && net == View(peers) && Routes(net, ring) && addr in ring && peers[addr] == this
      ensures r == ChordLookup.FindSuccessor(net, ring, addr, id)
    {
      var p := FindPredecessor(peers, net, ring, id);
      if p.None? {
        return None;
      }
      FindPredecessorCorrect(net, ring, addr, id);
      ViewKept(peers);
      r := RpcSuccessor(peers, net, p.value);
    }

    method SetEntry(peers: Peers, i: nat, c: ChordNode)
      requires Network(peers) && addr in peers && peers[addr] == this && i < M
      modifies table.entries
      ensures Network(peers)
      ensures View(peers) == SetFinger(old(View(peers)), addr, i, c)
    {
      NodeReplaced(table.entries[..], i, c);
      var ok := table.FingerTableSetNode(i, c);
      assert forall a | a in peers && a != addr :: peers[a].State() == old(peers[a].State());
    }

    /** Entry i takes over the node of entry i-1. */
    method CopyEntry(peers: Peers, i: nat)
      requires Network(peers) && addr in peers && peers[addr] == this && 1 <= i < M
      modifies table.entries
      ensures Network(peers)
      ensures View(peers) == SetFinger(old(View(peers)), addr, i, old(View(peers))[addr].fingers[i - 1])
    {
      ghost var c := State().fingers[i - 1];
      NodeReplaced(table.entries[..], i, c);
      var ok := table.FingerTableAssignMinusOne(i);
      assert forall a | a in peers && a != addr :: peers[a].State() == old(peers[a].State());
    }

    method SetPredecessor(peers: Peers, c: ChordNode)
      requires Network(peers) && addr in peers && peers[addr] == this
      modifies this
      ensures Network(peers) && hasJoinedChordNetwork == old(hasJoinedChordNetwork)
      ensures View(peers) == SetPred(old(View(peers)), addr, c)
    {
      predecessorChord := c;
      assert forall a | a in peers && a != addr :: peers[a].State() == old(peers[a].State());
      assert View(peers) == SetPred(old(View(peers)), addr, c);
    }

    /** If s should be entry i here, set it and pass the call on to the predecessor. */
    method UpdateFingerTable(peers: Peers, ghost ring: set<Addr>, s: ChordNode, i: nat)
      requires Network(peers) && Ring(View(peers), ring) && addr in ring && peers[addr] == this
      requires s.addr in ring && s == Ref(View(peers), s.addr) && i < M
      requires addr != s.addr && Dist(chordID, s.id) >= Gap(i)
      modifies Tables(peers)
      ensures Network(peers)
      ensures View(peers) == UpdateFinger(old(View(peers)), ring, addr, s.addr, i)
      decreases Dist(s.id, chordID), 0
    {
      ghost var net := View(peers);
      var fe := table.FingerTableGet(i);
      ViewKept(peers);
      if LeftClosedRightOpen(s.id, chordID, fe.value.node.id) {
        UpdateKeepsRing(net, ring, addr, s.addr, i);
        assert Neighbours(net, ring, addr);
        SetEntry(peers, i, s);
        RpcUpdateFingerTable(peers, ring, predecessorChord, s, i);
      }
    }

    method RpcUpdateFingerTable(peers: Peers, ghost ring: set<Addr>, remote: ChordNode, s: ChordNode, i: nat)
      requires Network(peers) && Ring(View(peers), ring)
      requires remote.addr in ring && remote == Ref(View(peers), remote.addr)
      requires s.addr in ring && s == Ref(View(peers), s.addr) && i < M
      requires remote.addr == s.addr || Dist(remote.id, s.id) >= Gap(i)
      modifies Tables(peers)
      ensures Network(peers)
      ensures View(peers) == UpdateFinger(old(View(peers)), ring, remote.addr, s.addr, i)
      decreases Dist(s.id, remote.id), 1
    {
      if s.addr == remote.addr {
        return;
      }
      peers[remote.addr].UpdateFingerTable(peers, ring, s, i);
    }
  
    method RpcFindSuccessor(peers: Peers, ghost net: Net, ghost ring: set<Addr>, remote: ChordNode, id: Id)
      returns (r: Option<ChordNode>)
      requires Network(peers) && net == View(peers) && Routes(net, ring) && remote.addr in ring
      ensures r == ChordLookup.FindSuccessor(net, ring, remote.addr, id)
    {
      r := peers[remote.addr].FindSuccessor(peers, net, ring, id);
    }

    method RpcGetPredecessor(peers: Peers, remote: ChordNode) returns (c: ChordNode)
      requires Network(peers) && remote.addr in peers
      ensures c == View(peers)[remote.addr].pred
    {
      c := peers[remote.addr].predecessorChord;
    }

    /** Takes s as successor and the predecessor of s as predecessor. */
    method LinkToNeighbours(peers: Peers, s: ChordNode) returns (p: ChordNode)
      requires Network(peers) && addr in peers && peers[addr] == this && s.addr in peers
      requires s == Ref(View(peers), s.addr) && s.addr != addr
      modifies this, table.entries
      ensures Network(peers) && hasJoinedChordNetwork == old(hasJoinedChordNetwork)
      ensures p == old(View(peers))[s.addr].pred
      ensures View(peers) == LinkSelf(old(View(peers)), addr, s.addr)
    {
      ghost var net := View(peers);
      SetEntry(peers, 0, s);
      ghost var first := SetFinger(net, addr, 0, s);
      assert first[s.addr] == net[s.addr] && View(peers) == first;
      p := RpcGetPredecessor(peers, s);
      SetPredecessor(peers, p);
      assert LinkSelf(net, addr, s.addr) == SetPred(first, addr, p);
    }

    /** Puts this peer between s and the predecessor of s. */
    method LinkBefore(peers: Peers, s: ChordNode)
      requires Network(peers) && addr in peers && peers[addr] == this && s.addr in peers
      requires s == Ref(View(peers), s.addr) && View(peers)[s.addr].pred.addr in peers && s.addr != addr
      modifies Objects(peers), Tables(peers)
      ensures Network(peers) && hasJoinedChordNetwork == old(hasJoinedChordNetwork)
      ensures View(peers) == LinkIn(old(View(peers)), addr, s.addr)
    {
      var p := LinkToNeighbours(peers, s);
      ghost var linked := View(peers);
      var self := ChordNode(chordID, addr);
      peers[s.addr].SetPredecessor(peers, self);
      peers[p.addr].SetEntry(peers, 0, self);
      assert View(peers) == LinkAround(linked, p.addr, addr, s.addr);
    }

    method InitFingerTable(peers: Peers, ghost net: Net, ghost ring: set<Addr>, existing: ChordNode) returns (ok: bool)
      requires Network(peers) && net == View(peers) && Ring(net, ring) && existing.addr in ring
      requires addr in peers && peers[addr] == this && Fresh(net, ring, addr)
      modifies Objects(peers), Tables(peers)
      ensures Network(peers) && hasJoinedChordNetwork == old(hasJoinedChordNetwork)
      ensures var r := Init(net, ring, addr, existing.addr); View(peers) == r.net && ok == r.ok
    {
      var fe := table.FingerTableGet(0);
      var start := fe.value.start.id;
      assert start == Forward(chordID, Gap(0)) == Forward(net[addr].id, 1);
      ViewKept(peers);
      var s := RpcFindSuccessor(peers, net, ring, existing, start);
      ViewKept(peers);
      if s.None? {
        return false;
      }
      assert s.value == Ref(net, s.value.addr) by {
        FindSuccessorCorrect(net, ring, existing.addr, start);
      }
      InitFrom(net, ring, addr, existing.addr, s.value.addr);
      ghost var linked := LinkIn(net, addr, s.value.addr);
      ghost var fill := FillBegins(linked, ring + {addr}, addr, existing.addr);
      ok := LinkAndFill(peers, linked, fill, ring + {addr}, existing, s.value);
    }

    method LinkAndFill(peers: Peers, ghost linked: Net, ghost fill: (Net, nat) -> Option<Outcome>,
            ghost ring: set<Addr>, existing: ChordNode, s: ChordNode)
      returns (ok: bool)
      requires Network(peers) && addr in peers && peers[addr] == this && s.addr in peers && s.addr != addr
      requires s == Ref(View(peers), s.addr) && View(peers)[s.addr].pred.addr in peers
      requires linked == LinkIn(View(peers), addr, s.addr)
      requires Foretells(fill, ring, addr, existing.addr) && fill(linked, 0).Some?
      modifies Objects(peers), Tables(peers)
      ensures Network(peers) && hasJoinedChordNetwork == old(hasJoinedChordNetwork)
      ensures fill(linked, 0) == Some(Outcome(View(peers), ok))
    {
      LinkBefore(peers, s);
      ok := FillRest(peers, fill, linked, ring, existing);
    }

    /** Where entry i+1 starts, and the node of entry i. */
    method NextStart(peers: Peers, ghost net: Net, i: nat) returns (start: Id, node: ChordNode)
      requires Network(peers) && net == View(peers) && addr in peers && peers[addr] == this && i + 1 < M
      ensures start == Forward(net[addr].id, Gap(i + 1)) && |net[addr].fingers| == M && node == net[addr].fingers[i]
      ensures start == Forward(chordID, Gap(i + 1)) && net[addr].id == chordID
      ensures Network(peers) && View(peers) == net
    {
      var fe1 := table.FingerTableGet(i + 1);
      var fe2 := table.FingerTableGet(i);
      start, node := fe1.value.start.id, fe2.value.node;
      ViewKept(peers);
    }

    /** Entry i as the existing peer finds it. */
    method LookUpEntry(peers: Peers, ghost net: Net, ghost ring: set<Addr>, existing: ChordNode, i: nat, start: Id)
      returns (ok: bool)
      requires Network(peers) && net == View(peers) && Ring(net, ring) && existing.addr in ring
      requires addr in ring && peers[addr] == this && i < M
      modifies table.entries
      ensures Network(peers)
      ensures var f := ChordLookup.FindSuccessor(net, ring, existing.addr, start);
        ok == f.Some? && View(peers) == if ok then SetFinger(net, addr, i, f.value) else net
    {
      var f := RpcFindSuccessor(peers, net, ring, existing, start);
      ViewKept(peers);
      if f.None? {
        return false;
      }
      SetEntry(peers, i, f.value);
      ok := true;
    }

    /** Entry i+1: a copy of entry i, or an answer from the existing peer. */
    method FillEntry(peers: Peers, ghost net: Net, ghost ring: set<Addr>, existing: ChordNode, i: nat)
      returns (ok: bool)
      requires Network(peers) && net == View(peers) && Ring(net, ring) && existing.addr in ring
      requires addr in ring && peers[addr] == this && i + 1 < M
      modifies table.entries
      ensures Network(peers)
      ensures var f := NextEntry(net, ring, addr, existing.addr, i);
        ok == f.Some? && View(peers) == if ok then SetFinger(net, addr, i + 1, f.value) else net
    {
      var start, node := NextStart(peers, net, i);
      if LeftClosedRightOpen(start, chordID, node.id) {
        CopyEntry(peers, i + 1);
        ok := true;
      } else {
        ok := LookUpEntry(peers, net, ring, existing, i + 1, start);
      }
    }

    /** One round of filling. */
    method FillNext(peers: Peers, ghost fill: (Net, nat) -> Option<Outcome>, ghost net: Net, ghost ring: set<Addr>,
            existing: ChordNode, i: nat)
      returns (ok: bool)
      requires Network(peers) && net == View(peers) && addr in peers && peers[addr] == this
      requires Foretells(fill, ring, addr, existing.addr) && i + 1 < M && fill(net, i).Some?
      modifies table.entries
      ensures Network(peers)
      ensures fill(net, i) == if ok then fill(View(peers), i + 1) else Some(Outcome(View(peers), false))
    {
      FillTableStep(fill, net, ring, addr, existing.addr, i);
      ok := FillEntry(peers, net, ring, existing, i);
    }

    /** All rounds: until the table is filled, or filling stops. */
    method FillRest(peers: Peers, ghost fill: (Net, nat) -> Option<Outcome>, ghost net: Net, ghost ring: set<Addr>,
            existing: ChordNode)
      returns (ok: bool)
      requires Network(peers) && net == View(peers) && addr in peers && peers[addr] == this
      requires Foretells(fill, ring, addr, existing.addr) && fill(net, 0).Some?
      modifies table.entries
      ensures Network(peers)
      ensures fill(net, 0) == Some(Outcome(View(peers), ok))
    {
      for i := 0 to M - 1
        invariant Network(peers) && fill(View(peers), i) == fill(net, 0)
      {
        ok := FillNext(peers, fill, View(peers), ring, existing, i);
        if !ok {
          return;
        }
      }
      FillTableEnd(fill, View(peers), ring, addr, existing.addr);
      ok := true;
    }

    method UpdateOthers(peers: Peers, ghost ring: set<Addr>) returns (ok: bool)
      requires Network(peers) && Ring(View(peers), ring) && addr in ring && peers[addr] == this
      modifies Tables(peers)
      ensures Network(peers)
      ensures var r := ChordJoin.UpdateOthers(old(View(peers)), ring, addr, 0); View(peers) == r.net && ok == r.ok
    {
      ghost var net := View(peers);
      var self := ChordNode(chordID, addr);
      for i := 0 to M
        invariant Network(peers) && Ring(View(peers), ring) && SameIds(net, View(peers))
        invariant ChordJoin.UpdateOthers(net, ring, addr, 0) == ChordJoin.UpdateOthers(View(peers), ring, addr, i)
      {
        ghost var now := View(peers);
        UpdateStart(now, ring, addr, i);
        label step:
        var p := FindPredecessor(peers, now, ring, Back(chordID, Gap(i)));
        ViewKept@step(peers);
        if p.None? {
          return false;
        }
        RpcUpdateFingerTable(peers, ring, p.value, self, i);
      }
      ok := true;
    }

    /** Initialises the table, then updates the others. */
    method JoinThrough(peers: Peers, ghost net: Net, ghost ring: set<Addr>, existing: ChordNode) returns (ok: bool)
      requires Network(peers) && net == View(peers) && Ring(net, ring) && existing.addr in ring
      requires addr in peers && peers[addr] == this && Fresh(net, ring, addr)
      modifies Objects(peers), Tables(peers)
      ensures Network(peers) && hasJoinedChordNetwork == old(hasJoinedChordNetwork)
      ensures var r := ChordJoin.Join(net, ring, addr, existing.addr); View(peers) == r.net && ok == r.ok
    {
      ok := InitFingerTable(peers, net, ring, existing);
      if ok {
        ok := UpdateOthers(peers, ring + {addr});
      }
    }

    /** Join through an existing member, or create a network when there is none. */
    method Join(peers: Peers, ghost ring: set<Addr>, existing: ChordNode) returns (ok: bool)
      requires Network(peers) && addr in peers && peers[addr] == this && Shape(View(peers), ring)
      requires existing.addr != "" ==>
        Ring(View(peers), ring) && existing.addr in ring && Fresh(View(peers), ring, addr)
      modifies Objects(peers), Tables(peers)
      ensures Network(peers)
      ensures var r := if existing.addr == "" then Create(old(View(peers)), addr)
                       else ChordJoin.Join(old(View(peers)), ring, addr, existing.addr);
        View(peers) == r.net && ok == r.ok
      ensures hasJoinedChordNetwork == (ok || old(hasJoinedChordNetwork))
    {
      ghost var net := View(peers);
      if existing.addr != "" {
        ok := JoinThrough(peers, net, ring, existing);
      } else {
        CreateNetwork(peers, net);
        ok := true;
      }
      if ok {
        MarkJoined(peers);
      }
    }

    method CreateNetwork(peers: Peers, ghost net: Net)
      requires Network(peers) && net == View(peers) && addr in peers && peers[addr] == this
      modifies this, table.entries
      ensures Network(peers) && View(peers) == Create(net, addr).net
    {
      var self := ChordNode(chordID, addr);
      PointsHomeAtFirst(net, addr);
      for i := 0 to M
        invariant Network(peers) && View(peers) == PointsHome(net, addr, i)
      {
        PointsHomeNext(net, addr, i);
        SetEntry(peers, i, self);
      }
      SetPredecessor(peers, self);
      PointsHomeAtLast(net, addr);
    }

    method MarkJoined(peers: Peers)
      requires Network(peers) && addr in peers && peers[addr] == this
      modifies this`hasJoinedChordNetwork
      ensures Network(peers) && View(peers) == old(View(peers)) && hasJoinedChordNetwork
    {
      hasJoinedChordNetwork := true;
      assert forall a | a in peers :: peers[a].State() == old(peers[a].State());
    }
  }
}
