/** Chord state as values: every peer's finger table and predecessor, and what it means for
    the tables to describe a ring. */
module ChordRing {
  import opened Basics
  import opened IdRing

  /** A peer as other peers refer to it. */
  datatype ChordNode = ChordNode(id: Id, addr: Addr)

  /** What a finger entry holds before it is first written. */
  const UNSET := ChordNode(0, "")

  datatype PeerState = PeerState(id: Id, fingers: seq<ChordNode>, pred: ChordNode)

  type Net = map<Addr, PeerState>

  function Ref(net: Net, a: Addr): ChordNode
    requires a in net
  {
    ChordNode(net[a].id, a)
  }

  function SetFinger(net: Net, a: Addr, i: nat, c: ChordNode): Net
    requires a in net && i < |net[a].fingers|
  {
    net[a := net[a].(fingers := net[a].fingers[i := c])]
  }

  function SetPred(net: Net, a: Addr, c: ChordNode): Net
    requires a in net
  {
    net[a := net[a].(pred := c)]
  }

  /** c names a member of the ring. */
  ghost predicate IsMember(net: Net, ring: set<Addr>, c: ChordNode) {
    c.addr in ring && c.addr in net && c == Ref(net, c.addr)
  }

  /** a is the first member at or after id: the linear-scan answer to a lookup of id. */
  ghost predicate IsFirst(net: Net, ring: set<Addr>, id: Id, a: Addr)
    requires ring <= net.Keys
  {
    a in ring && forall b | b in ring :: Dist(id, net[a].id) <= Dist(id, net[b].id)
  }

  /** b is the next member after a. */
  ghost predicate IsNext(net: Net, ring: set<Addr>, a: Addr, b: Addr)
    requires ring <= net.Keys && a in ring
  {
    b in ring && forall c | c in ring :: Span(net[a].id, net[b].id) <= Span(net[a].id, net[c].id)
  }

  /** a is the last member strictly before id. */
  ghost predicate IsLastBefore(net: Net, ring: set<Addr>, id: Id, a: Addr)
    requires ring <= net.Keys
  {
    a in ring && forall b | b in ring :: Span(net[a].id, id) <= Span(net[b].id, id)
  }

  ghost predicate Shape(net: Net, ring: set<Addr>) {
    && ring <= net.Keys
    && "" !in net
    && (forall a | a in net :: |net[a].fingers| == M)
    && (forall a, b | a in ring && b in ring && net[a].id == net[b].id :: a == b)
  }

  /** The successor pointer of a goes to the next member. */
  ghost predicate SuccessorOk(net: Net, ring: set<Addr>, a: Addr)
    requires Shape(net, ring) && a in ring
  {
    && IsMember(net, ring, net[a].fingers[0])
    && IsNext(net, ring, a, net[a].fingers[0].addr)
  }

  /** Entry i of a is unset or names a member, however far. */
  ghost predicate EntryOk(net: Net, ring: set<Addr>, a: Addr, i: nat)
    requires Shape(net, ring) && a in ring && i < M
  {
    net[a].fingers[i] == UNSET || IsMember(net, ring, net[a].fingers[i])
  }

  /** All that lookups need: true successors, and entries that are unset or members. */
  ghost predicate Routes(net: Net, ring: set<Addr>) {
    && Shape(net, ring)
    && (forall a {:trigger SuccessorOk(net, ring, a)} | a in ring :: SuccessorOk(net, ring, a))
    && (forall a, i: nat {:trigger EntryOk(net, ring, a, i)} | a in ring && i < M :: EntryOk(net, ring, a, i))
  }

  /** The predecessor pointer of a goes to the member before it. */
  ghost predicate PredecessorOk(net: Net, ring: set<Addr>, a: Addr)
    requires Shape(net, ring) && a in ring
  {
    && IsMember(net, ring, net[a].pred)
    && IsNext(net, ring, net[a].pred.addr, a)
  }

  ghost predicate Neighbours(net: Net, ring: set<Addr>, a: Addr)
    requires Shape(net, ring) && a in ring
  {
    SuccessorOk(net, ring, a) && PredecessorOk(net, ring, a)
  }

  /** If set, finger i of a is at least 2^i away or a itself. */
  ghost predicate FarEnough(net: Net, ring: set<Addr>, a: Addr, i: nat)
    requires Shape(net, ring) && a in ring && i < M
  {
    net[a].fingers[i] == UNSET || Span(net[a].id, net[a].fingers[i].id) >= Gap(i)
  }

  /** Finger i of a is unset, or names a member at least 2^i away or a itself. */
  ghost predicate FingerOk(net: Net, ring: set<Addr>, a: Addr, i: nat)
    requires Shape(net, ring) && a in ring && i < M
  {
    EntryOk(net, ring, a, i) && FarEnough(net, ring, a, i)
  }

  /** The invariant of every ring: correct neighbours, and fingers that may be stale or unset
      but never point too close. */
  ghost predicate Ring(net: Net, ring: set<Addr>) {
    && Routes(net, ring)
    && (forall a {:trigger PredecessorOk(net, ring, a)} | a in ring :: PredecessorOk(net, ring, a))
    && (forall a, i: nat {:trigger FarEnough(net, ring, a, i)} | a in ring && i < M :: FarEnough(net, ring, a, i))
  }

  /** No member has an unset finger. */
  ghost predicate Complete(net: Net, ring: set<Addr>)
    requires Shape(net, ring)
  {
    forall a, i: nat | a in ring && i < M :: net[a].fingers[i] != UNSET
  }

  /** Finger i of a is the first member at or after its start. */
  ghost predicate FingerExact(net: Net, ring: set<Addr>, a: Addr, i: nat)
    requires Shape(net, ring) && a in ring && i < M
  {
    && IsMember(net, ring, net[a].fingers[i])
    && IsFirst(net, ring, Forward(net[a].id, Gap(i)), net[a].fingers[i].addr)
  }

  ghost predicate Exact(net: Net, ring: set<Addr>) {
    && Ring(net, ring)
    && forall a, i: nat {:trigger FingerExact(net, ring, a, i)} | a in ring && i < M :: FingerExact(net, ring, a, i)
  }

  lemma FirstIsUnique(net: Net, ring: set<Addr>, id: Id, a: Addr, b: Addr)
    requires Shape(net, ring) && IsFirst(net, ring, id, a) && IsFirst(net, ring, id, b)
    ensures a == b
  {
    assert Dist(id, net[a].id) == Dist(id, net[b].id);
  }

  /** Clockwise order seen from any point: three identifiers go round once or twice. */
  lemma Turn(a: Id, b: Id, c: Id)
    ensures Dist(a, b) + Dist(b, c) == Dist(a, c) || Dist(a, b) + Dist(b, c) == Dist(a, c) + N
    ensures Dist(a, b) <= Dist(a, c) ==> Dist(a, b) + Dist(b, c) == Dist(a, c)
  {
  }
}
