/** All peers gossiping over a network that loses, duplicates and reorders packets. */
module GossipNet {
  import opened Basics
  import opened GossipLog
  import opened GossipPeer
  import opened GossipExchange

  /** An acknowledgement is handled as the status it carries. */
  datatype Packet =
    | RumorsPacket(src: Addr, dst: Addr, rumors: seq<Rumor>)
    | StatusPacket(src: Addr, dst: Addr, status: Status)

  /** A peer's rumor table, all it has handed to its registry, and how often it forwarded a message. */
  datatype PeerState = PeerState(table: Table, handed: seq<Rumor>, forwards: nat)

  /** `sent` only grows: a packet in it may arrive never, once or many times, in any order. */
  datatype Sys = Sys(peers: map<Addr, PeerState>, sent: set<Packet>, created: seq<Rumor>)

  /** One atomic step.  The destinations stand for the random neighbours a peer tries. */
  datatype Action =
    | Broadcast(a: Addr, msg: Msg, dests: set<Addr>)
    | TakeRumors(p: Packet, dests: set<Addr>)
    | TakeStatus(p: Packet, missing: seq<Rumor>, dests: set<Addr>)
    | AntiEntropy(a: Addr, dest: Addr)

  ghost predicate Step(s: Sys, act: Action, s': Sys) {
    match act
    case Broadcast(a, msg, dests) =>
      && a in s.peers
      && var v := s.peers[a];
      && var r := Rumor(a, |Log(v.table, a)| + 1, msg);
      s' == Sys(s.peers[a := v.(table := Append(v.table, r), handed := v.handed + [r])],
                s.sent + (set d | d in dests :: RumorsPacket(a, d, [r])),
                s.created + [r])
    case TakeRumors(p, dests) =>
      && p in s.sent && p.RumorsPacket? && p.dst in s.peers
      && var v := s.peers[p.dst];
      && var table, kept := Receive(v.table, p.rumors), Accepted(v.table, p.rumors);
      && var forward := kept != [] && p.src != p.dst;
      && var v' := PeerState(table, v.handed + Others(kept, p.dst), v.forwards + if forward then 1 else 0);
      s' == Sys(s.peers[p.dst := v'],
                s.sent + (if p.src != p.dst then {StatusPacket(p.dst, p.src, StatusOf(table))} else {})
                       + (if forward then set d | d in dests :: RumorsPacket(p.dst, d, p.rumors) else {}),
                s.created)
    case TakeStatus(p, missing, dests) =>
      && p in s.sent && p.StatusPacket? && p.dst in s.peers
      && var v := s.peers[p.dst];
      && var local := StatusOf(v.table);
      if local == p.status then
        s' == s.(sent := s.sent + set d | d in dests :: StatusPacket(p.dst, d, local))
      else
        && (Ahead(local, p.status) ==> IsMissingList(v.table, p.status, missing))
        && s' == s.(sent := s.sent
                          + (if Ahead(local, p.status) then {RumorsPacket(p.dst, p.src, missing)} else {})
                          + (if Behind(local, p.status) then {StatusPacket(p.dst, p.src, local)} else {}))
    case AntiEntropy(a, dest) =>
      a in s.peers && s' == s.(sent := s.sent + {StatusPacket(a, dest, StatusOf(s.peers[a].table))})
  }

  ghost predicate Start(s: Sys) {
    && (forall a | a in s.peers :: s.peers[a] == PeerState(map[], [], 0))
    && s.sent == {} && s.created == []
  }

  /** What each origin has published so far. */
  function Published(s: Sys): Table {
    map o | o in s.peers :: Log(s.peers[o].table, o)
  }

  ghost predicate Genuine(pub: Table, r: Rumor) {
    r.origin in pub && 1 <= r.sequence <= |pub[r.origin]| && pub[r.origin][r.sequence - 1] == r
  }

  /** Every log of the table is a prefix of what its origin published. */
  ghost predicate PrefixesOf(pub: Table, t: Table) {
    forall o | o in t :: o in pub && t[o] <= pub[o]
  }

  ghost predicate PeerOk(pub: Table, b: Addr, v: PeerState) {
    && WellFormed(v.table)
    && PrefixesOf(pub, v.table)
    && (forall o :: From(v.handed, o) == Log(v.table, o))
    && v.forwards + |Log(v.table, b)| <= |v.handed|
  }

  ghost predicate AllGenuine(pub: Table, rs: seq<Rumor>) {
    forall r | r in rs :: Genuine(pub, r)
  }

  ghost predicate PacketOk(pub: Table, p: Packet) {
    p.RumorsPacket? ==> AllGenuine(pub, p.rumors)
  }

  ghost predicate PeersOk(pub: Table, peers: map<Addr, PeerState>) {
    forall b {:trigger PeerOk(pub, b, peers[b])} | b in peers :: PeerOk(pub, b, peers[b])
  }

  ghost predicate PacketsOk(pub: Table, sent: set<Packet>) {
    forall p {:trigger PacketOk(pub, p)} | p in sent :: PacketOk(pub, p)
  }

  ghost predicate Inv(s: Sys) {
    && PeersOk(Published(s), s.peers)
    && PacketsOk(Published(s), s.sent)
    && forall o :: From(s.created, o) == Log(Published(s), o)
  }

  lemma StartIsOk(s: Sys)
    requires Start(s)
    ensures Inv(s)
  {
  }

  /** Receiving genuine rumors keeps a table's logs prefixes of what was published. */
  lemma {:induction false} ReceiveGenuine(pub: Table, t: Table, rs: seq<Rumor>)
    requires WellFormed(t) && PrefixesOf(pub, t)
    requires AllGenuine(pub, rs)
    ensures WellFormed(Receive(t, rs)) && PrefixesOf(pub, Receive(t, rs))
    decreases rs
  {
    if rs != [] {
      KeepKeepsForm(t, rs[0]);
      LengthIsLastSeqno(t, rs[0].origin);
      assert Genuine(pub, rs[0]);
      ReceiveGenuine(pub, Keep(t, rs[0]), rs[1..]);
    }
  }

  /** A peer accepts nothing of its own from the network: it holds all it published. */
  lemma AcceptsOnlyOthers(pub: Table, b: Addr, t: Table, rs: seq<Rumor>)
    requires WellFormed(t) && PrefixesOf(pub, t) && b in pub && Log(t, b) == pub[b]
    requires AllGenuine(pub, rs)
    ensures Log(Receive(t, rs), b) == Log(t, b)
    ensures Others(Accepted(t, rs), b) == Accepted(t, rs)
  {
    ReceiveGenuine(pub, t, rs);
    LogsGrowByAccepted(t, rs, b);
    assert From(Accepted(t, rs), b) == [];
    NoneOfOne(Accepted(t, rs), b);
  }

  lemma {:induction false} NoneOfOne(rs: seq<Rumor>, b: Addr)
    requires From(rs, b) == []
    ensures Others(rs, b) == rs
  {
    if rs != [] {
      assert rs == rs[..|rs| - 1] + [rs[|rs| - 1]];
      NoneOfOne(rs[..|rs| - 1], b);
    }
  }

  lemma TakeRumorsPeer(pub: Table, b: Addr, v: PeerState, rs: seq<Rumor>, forward: bool)
    requires PeerOk(pub, b, v) && b in pub && Log(v.table, b) == pub[b]
    requires AllGenuine(pub, rs)
    requires forward ==> Accepted(v.table, rs) != []
    ensures var handed, forwards := v.handed + Others(Accepted(v.table, rs), b), v.forwards + if forward then 1 else 0;
      var v' := PeerState(Receive(v.table, rs), handed, forwards);
      PeerOk(pub, b, v') && Log(v'.table, b) == pub[b]
  {
    ReceiveGenuine(pub, v.table, rs);
    AcceptsOnlyOthers(pub, b, v.table, rs);
    var kept := Accepted(v.table, rs);
    forall o ensures From(v.handed + kept, o) == Log(Receive(v.table, rs), o) {
      FromConcat(v.handed, kept, o);
      LogsGrowByAccepted(v.table, rs, o);
    }
  }

  /** Publishing one more rumor keeps every other peer and every packet as good as it was. */
  lemma PublishKeeps(pub: Table, pub': Table, b: Addr, v: PeerState)
    requires PeerOk(pub, b, v) && pub.Keys == pub'.Keys
    requires forall o | o in pub :: pub[o] <= pub'[o]
    ensures PeerOk(pub', b, v)
  {
  }

  lemma BroadcastPeer(pub: Table, a: Addr, v: PeerState, r: Rumor)
    requires PeerOk(pub, a, v) && a in pub && Log(v.table, a) == pub[a]
    requires r.origin == a && r.sequence == |Log(v.table, a)| + 1
    ensures var v' := v.(table := Append(v.table, r), handed := v.handed + [r]);
      PeerOk(pub[a := pub[a] + [r]], a, v') && Log(v'.table, a) == pub[a] + [r]
  {
    KeepKeepsForm(v.table, r);
    LengthIsLastSeqno(v.table, a);
    forall o ensures From(v.handed + [r], o) == Log(Append(v.table, r), o) {
      FromConcat(v.handed, [r], o);
      FromOne(r, o);
    }
  }

  lemma FromOne(r: Rumor, o: Addr)
    ensures From([r], o) == if r.origin == o then [r] else []
  {
    assert [r][..0] == [];
  }

  lemma PublishKeepsAll(pub: Table, pub': Table, peers: map<Addr, PeerState>, sent: set<Packet>)
    requires PeersOk(pub, peers) && PacketsOk(pub, sent) && pub.Keys == pub'.Keys
    requires forall o | o in pub :: pub[o] <= pub'[o]
    ensures PeersOk(pub', peers) && PacketsOk(pub', sent)
  {
    forall b {:trigger PeerOk(pub', b, peers[b])} | b in peers ensures PeerOk(pub', b, peers[b]) {
      PublishKeeps(pub, pub', b, peers[b]);
    }
    forall p {:trigger PacketOk(pub', p)} | p in sent ensures PacketOk(pub', p) {
      assert PacketOk(pub, p);
    }
  }

  lemma ReplacePeer(pub: Table, peers: map<Addr, PeerState>, b: Addr, v: PeerState)
    requires PeersOk(pub, peers) && PeerOk(pub, b, v)
    ensures PeersOk(pub, peers[b := v])
  {
    forall c {:trigger PeerOk(pub, c, peers[b := v][c])} | c in peers[b := v] ensures PeerOk(pub, c, peers[b := v][c]) {
      assert c != b ==> PeerOk(pub, c, peers[c]);
    }
  }

  /** The same genuine rumors may go to any number of peers. */
  lemma SendToAll(pub: Table, src: Addr, dests: set<Addr>, rs: seq<Rumor>)
    requires AllGenuine(pub, rs)
    ensures PacketsOk(pub, set d | d in dests :: RumorsPacket(src, d, rs))
  {
  }

  lemma PublishedAt(s: Sys, a: Addr, v: PeerState)
    requires a in s.peers
    ensures Published(s.(peers := s.peers[a := v])) == Published(s)[a := Log(v.table, a)]
  {
  }

  lemma BroadcastCreated(pub: Table, created: seq<Rumor>, r: Rumor)
    requires r.origin in pub && forall o :: From(created, o) == Log(pub, o)
    ensures var pub' := pub[r.origin := pub[r.origin] + [r]];
      forall o :: From(created + [r], o) == Log(pub', o)
  {
    var pub' := pub[r.origin := pub[r.origin] + [r]];
    forall o ensures From(created + [r], o) == Log(pub', o) {
      FromConcat(created, [r], o);
      FromOne(r, o);
    }
  }

  /** What broadcasting r does to the published logs, the peers and the packets. */
  lemma BroadcastAll(pub: Table, peers: map<Addr, PeerState>, sent: set<Packet>, a: Addr, r: Rumor, dests: set<Addr>)
    requires PeersOk(pub, peers) && PacketsOk(pub, sent) && a in peers && a in pub && Log(peers[a].table, a) == pub[a]
    requires r.origin == a && r.sequence == |Log(peers[a].table, a)| + 1
    ensures var pub', v := pub[a := pub[a] + [r]], peers[a];
      && PeersOk(pub', peers[a := v.(table := Append(v.table, r), handed := v.handed + [r])])
      && PacketsOk(pub', sent + set d | d in dests :: RumorsPacket(a, d, [r]))
  {
    var pub', v := pub[a := pub[a] + [r]], peers[a];
    var v' := v.(table := Append(v.table, r), handed := v.handed + [r]);
    assert PeerOk(pub, a, peers[a]);
    BroadcastPeer(pub, a, v, r);
    PublishKeepsAll(pub, pub', peers, sent);
    ReplacePeer(pub', peers, a, v');
    SendToAll(pub', a, dests, [r]);
  }

  lemma BroadcastKeepsInv(s: Sys, act: Action, s': Sys)
    requires Inv(s) && act.Broadcast? && Step(s, act, s')
    ensures Inv(s')
  {
    var a, pub := act.a, Published(s);
    var v := s.peers[a];
    var r := Rumor(a, |Log(v.table, a)| + 1, act.msg);
    BroadcastAll(pub, s.peers, s.sent, a, r, act.dests);
    BroadcastCreated(pub, s.created, r);
    assert PeerOk(pub, a, s.peers[a]);
    BroadcastPeer(pub, a, v, r);
    PublishedAt(s, a, s'.peers[a]);
    assert Published(s') == pub[a := pub[a] + [r]];
  }

  /** What a peer sends on taking in rumors is as genuine as what it took in. */
  lemma TakeRumorsSends(pub: Table, sent: set<Packet>, p: Packet, table: Table, forward: bool, dests: set<Addr>)
    requires PacketsOk(pub, sent) && p.RumorsPacket? && AllGenuine(pub, p.rumors)
    ensures PacketsOk(pub, sent + (if p.src != p.dst then {StatusPacket(p.dst, p.src, StatusOf(table))} else {})
                                + (if forward then set d | d in dests :: RumorsPacket(p.dst, d, p.rumors) else {}))
  {
    SendToAll(pub, p.dst, dests, p.rumors);
  }

  lemma TakeRumorsKeepsInv(s: Sys, act: Action, s': Sys)
    requires Inv(s) && act.TakeRumors? && Step(s, act, s')
    ensures Inv(s')
  {
    var p, pub := act.p, Published(s);
    var b := p.dst;
    var v := s.peers[b];
    var forward := Accepted(v.table, p.rumors) != [] && p.src != p.dst;
    assert PeerOk(pub, b, v) && PacketOk(pub, p);
    TakeRumorsPeer(pub, b, v, p.rumors, forward);
    var v' := s'.peers[b];
    ReplacePeer(pub, s.peers, b, v');
    TakeRumorsSends(pub, s.sent, p, v'.table, forward, act.dests);
    PublishedAt(s, b, v');
    assert Published(s') == pub;
  }

  lemma TakeStatusKeepsInv(s: Sys, act: Action, s': Sys)
    requires Inv(s) && act.TakeStatus? && Step(s, act, s')
    ensures Inv(s')
  {
    var p, pub := act.p, Published(s);
    var v := s.peers[p.dst];
    assert PeerOk(pub, p.dst, v);
    if Ahead(StatusOf(v.table), p.status) && StatusOf(v.table) != p.status {
      MissingIsGenuine(pub, v.table, p.status, act.missing);
    }
    assert Published(s') == pub;
  }

  lemma MissingIsGenuine(pub: Table, t: Table, remote: Status, rs: seq<Rumor>)
    requires PrefixesOf(pub, t) && IsMissingList(t, remote, rs)
    ensures AllGenuine(pub, rs)
  {
    forall r | r in rs ensures Genuine(pub, r) {
      assert IsNews(t, remote, r);
    }
  }

  lemma StepKeepsInv(s: Sys, act: Action, s': Sys)
    requires Inv(s) && Step(s, act, s')
    ensures Inv(s')
  {
    match act
    case Broadcast(_, _, _) => BroadcastKeepsInv(s, act, s');
    case TakeRumors(_, _) => TakeRumorsKeepsInv(s, act, s');
    case TakeStatus(_, _, _) => TakeStatusKeepsInv(s, act, s');
    case AntiEntropy(_, _) =>
      assert Published(s') == Published(s);
  }

  ghost predicate IsRun(states: seq<Sys>, acts: seq<Action>) {
    && |states| == |acts| + 1
    && Start(states[0])
    && forall i: nat | i < |acts| :: Step(states[i], acts[i], states[i + 1])
  }

  lemma {:induction false} RunKeepsInv(states: seq<Sys>, acts: seq<Action>, i: nat)
    requires IsRun(states, acts) && i < |states|
    ensures Inv(states[i])
  {
    if i == 0 {
      StartIsOk(states[0]);
    } else {
      RunKeepsInv(states, acts, i - 1);
      StepKeepsInv(states[i - 1], acts[i - 1], states[i]);
    }
  }

  /** In every reachable state each peer's log for an origin is a prefix of that origin's own log, its
      entry k carries sequence number k+1, and log length and last sequence number agree. */
  lemma LogsArePrefixes(states: seq<Sys>, acts: seq<Action>, i: nat, b: Addr, o: Addr)
    requires IsRun(states, acts) && i < |states| && b in states[i].peers
    ensures var t := states[i].peers[b].table;
      && (o in t ==> o in states[i].peers && t[o] <= Log(states[i].peers[o].table, o))
      && (forall k: nat | k < |Log(t, o)| :: Log(t, o)[k].origin == o && Log(t, o)[k].sequence == k + 1)
      && LastSeqno(t, o) == |Log(t, o)|
  {
    RunKeepsInv(states, acts, i);
    assert PeerOk(Published(states[i]), b, states[i].peers[b]);
  }

  /** Any two peers' tables can be joined at any time, so every status exchange of a run starts from
      tables of which one exchange computes the join. */
  lemma TablesAreCompatible(states: seq<Sys>, acts: seq<Action>, i: nat, b: Addr, c: Addr)
    requires IsRun(states, acts) && i < |states| && b in states[i].peers && c in states[i].peers
    ensures var t, u := states[i].peers[b].table, states[i].peers[c].table;
      WellFormed(t) && WellFormed(u) && Compatible(t, u)
  {
    RunKeepsInv(states, acts, i);
    var s := states[i];
    var t, u, pub := s.peers[b].table, s.peers[c].table, Published(s);
    assert PeerOk(pub, b, s.peers[b]) && PeerOk(pub, c, s.peers[c]);
    forall o ensures Log(t, o) <= Log(u, o) || Log(u, o) <= Log(t, o) {
      assert Log(t, o) <= Log(pub, o) && Log(u, o) <= Log(pub, o);
    }
  }

  lemma {:induction false} FromMembers(rs: seq<Rumor>, o: Addr, r: Rumor)
    ensures r in From(rs, o) <==> r in rs && r.origin == o
  {
    if rs != [] {
      assert rs == rs[..|rs| - 1] + [rs[|rs| - 1]];
      FromMembers(rs[..|rs| - 1], o, r);
    }
  }

  ghost predicate Numbered(rs: seq<Rumor>, o: Addr) {
    forall k: nat | k < |From(rs, o)| :: From(rs, o)[k].sequence == k + 1
  }

  /** The last rumor has a number no earlier one of its origin has. */
  lemma LastIsNew(rs: seq<Rumor>)
    requires rs != [] && Numbered(rs, rs[|rs| - 1].origin)
    ensures rs[|rs| - 1] !in rs[..|rs| - 1]
  {
    var front, r := rs[..|rs| - 1], rs[|rs| - 1];
    var n := |From(front, r.origin)|;
    assert From(rs, r.origin)[n] == r;
    forall k: nat | k < n ensures From(front, r.origin)[k] != r {
      assert From(rs, r.origin)[k] == From(front, r.origin)[k];
    }
    FromMembers(front, r.origin, r);
  }

  /** A list whose rumors of each origin are numbered in order holds each rumor once. */
  lemma {:induction false} NumberedOnce(rs: seq<Rumor>)
    requires forall o :: Numbered(rs, o)
    ensures NoRepeats(rs)
  {
    if rs != [] {
      var front := rs[..|rs| - 1];
      forall o ensures Numbered(front, o) {
        assert Numbered(rs, o);
        assert From(front, o) <= From(rs, o);
      }
      NumberedOnce(front);
      LastIsNew(rs);
    }
  }

  /** A list without repeats is no longer than a list that holds all its elements. */
  lemma {:induction false} NoLonger(rs: seq<Rumor>, all: seq<Rumor>)
    requires NoRepeats(rs) && forall r | r in rs :: r in all
    ensures |rs| <= |all|
  {
    if rs != [] {
      var front, r := rs[..|rs| - 1], rs[|rs| - 1];
      assert r in rs;
      var i :| 0 <= i < |all| && all[i] == r;
      var rest := all[..i] + all[i + 1..];
      forall q | q in front ensures q in rest {
        assert q in rs && q != r;
        var j :| 0 <= j < |all| && all[j] == q;
        assert j != i;
        assert rest[if j < i then j else j - 1] == q;
      }
      NoLonger(front, rest);
    }
  }

  /** Each rumor is handed to a peer's registry at most once and in per-origin order: what was handed
      of an origin is exactly the log held of it.  Forwards are bounded by the rumors created. */
  lemma HandedOnceForwardsBounded(states: seq<Sys>, acts: seq<Action>, i: nat, b: Addr)
    requires IsRun(states, acts) && i < |states| && b in states[i].peers
    ensures var v := states[i].peers[b];
      && NoRepeats(v.handed)
      && (forall o :: From(v.handed, o) == Log(v.table, o))
      && v.forwards + |Log(v.table, b)| <= |v.handed| <= |states[i].created|
  {
    RunKeepsInv(states, acts, i);
    var s := states[i];
    var v := s.peers[b];
    assert PeerOk(Published(s), b, v);
    forall o ensures Numbered(v.handed, o) {
      assert From(v.handed, o) == Log(v.table, o);
    }
    NumberedOnce(v.handed);
    forall r | r in v.handed ensures r in s.created {
      FromMembers(v.handed, r.origin, r);
      assert r in Published(s)[r.origin];
      FromMembers(s.created, r.origin, r);
    }
    NoLonger(v.handed, s.created);
  }
}
