/** Rumor tables as values: per-origin logs, what a peer accepts, and what a status says. */
module GossipLog {
  import opened Basics

  type Msg = string

  datatype Rumor = Rumor(origin: Addr, sequence: nat, msg: Msg)

  type Table = map<Addr, seq<Rumor>>

  /** For each origin, how many of its rumors a peer holds. */
  type Status = map<Addr, nat>

  function Log(t: Table, o: Addr): seq<Rumor> {
    if o in t then t[o] else []
  }

  function LastSeqno(t: Table, o: Addr): nat {
    if o !in t || |t[o]| == 0 then 0 else t[o][|t[o]| - 1].sequence
  }

  predicate Expected(t: Table, r: Rumor) {
    r.sequence == LastSeqno(t, r.origin) + 1
  }

  function Append(t: Table, r: Rumor): Table {
    t[r.origin := Log(t, r.origin) + [r]]
  }

  /** What one rumor of a message does to the table: only the expected one is kept. */
  function Keep(t: Table, r: Rumor): Table {
    if Expected(t, r) then Append(t, r) else t
  }

  /** The table after going through the rumors of a message. */
  function Receive(t: Table, rs: seq<Rumor>): Table
    decreases rs
  {
    if rs == [] then t else Receive(Keep(t, rs[0]), rs[1..])
  }

  /** The rumors kept, in order. */
  function Accepted(t: Table, rs: seq<Rumor>): seq<Rumor>
    decreases rs
  {
    if rs == [] then []
    else (if Expected(t, rs[0]) then [rs[0]] else []) + Accepted(Keep(t, rs[0]), rs[1..])
  }

  function StatusOf(t: Table): Status {
    map o | o in t :: |t[o]|
  }

  /** Entry k of every log is that origin's rumor k+1, and there are no empty logs. */
  ghost predicate WellFormed(t: Table) {
    && (forall o | o in t :: |t[o]| > 0)
    && (forall o, k: nat | o in t && k < |t[o]| :: t[o][k].origin == o && t[o][k].sequence == k + 1)
  }

  /** In a well-formed table the last sequence number is the length of the log. */
  lemma LengthIsLastSeqno(t: Table, o: Addr)
    requires WellFormed(t)
    ensures LastSeqno(t, o) == |Log(t, o)|
  {
  }

  lemma KeepKeepsForm(t: Table, r: Rumor)
    requires WellFormed(t)
    ensures WellFormed(Keep(t, r))
    ensures Log(Keep(t, r), r.origin) == Log(t, r.origin) + if r.sequence == |Log(t, r.origin)| + 1 then [r] else []
  {
    LengthIsLastSeqno(t, r.origin);
  }

  lemma {:induction false} ReceiveKeepsForm(t: Table, rs: seq<Rumor>)
    requires WellFormed(t)
    ensures WellFormed(Receive(t, rs))
    decreases rs
  {
    if rs != [] {
      KeepKeepsForm(t, rs[0]);
      ReceiveKeepsForm(Keep(t, rs[0]), rs[1..]);
    }
  }

  /** Taking the messages in two parts is the same as taking them at once. */
  lemma {:induction false} ReceiveConcat(t: Table, rs: seq<Rumor>, more: seq<Rumor>)
    ensures Receive(t, rs + more) == Receive(Receive(t, rs), more)
    ensures Accepted(t, rs + more) == Accepted(t, rs) + Accepted(Receive(t, rs), more)
    decreases rs
  {
    if rs == [] {
      assert rs + more == more;
    } else {
      assert (rs + more)[1..] == rs[1..] + more;
      ReceiveConcat(Keep(t, rs[0]), rs[1..], more);
    }
  }

  lemma OneMoreRumor(t: Table, rs: seq<Rumor>, i: nat)
    requires i < |rs|
    ensures var t' := Receive(t, rs[..i]);
      && Receive(t, rs[..i + 1]) == Keep(t', rs[i])
      && Accepted(t, rs[..i + 1]) == Accepted(t, rs[..i]) + if Expected(t', rs[i]) then [rs[i]] else []
  {
    assert rs[..i + 1] == rs[..i] + [rs[i]];
    ReceiveConcat(t, rs[..i], [rs[i]]);
  }

  /** The rumors of one origin, in order. */
  function From(rs: seq<Rumor>, o: Addr): seq<Rumor> {
    if rs == [] then []
    else From(rs[..|rs| - 1], o) + if rs[|rs| - 1].origin == o then [rs[|rs| - 1]] else []
  }

  lemma {:induction false} FromConcat(rs: seq<Rumor>, more: seq<Rumor>, o: Addr)
    ensures From(rs + more, o) == From(rs, o) + From(more, o)
  {
    if more == [] {
      assert rs + more == rs;
    } else {
      assert (rs + more)[..|rs + more| - 1] == rs + more[..|more| - 1];
      FromConcat(rs, more[..|more| - 1], o);
    }
  }

  /** A log grows by exactly the accepted rumors of its origin. */
  lemma {:induction false} LogsGrowByAccepted(t: Table, rs: seq<Rumor>, o: Addr)
    ensures Log(Receive(t, rs), o) == Log(t, o) + From(Accepted(t, rs), o)
    decreases rs
  {
    if rs != [] {
      var t', head := Keep(t, rs[0]), if Expected(t, rs[0]) then [rs[0]] else [];
      LogsGrowByAccepted(t', rs[1..], o);
      FromConcat(head, Accepted(t', rs[1..]), o);
      assert head[..0] == [];
      assert From(head, o) == if Expected(t, rs[0]) && rs[0].origin == o then [rs[0]] else [];
    }
  }

  /** From which entry on a peer with the given status misses the log of o. */
  function Offset(remote: Status, o: Addr): nat {
    if o in remote then remote[o] else 0
  }

  /** r is in t and beyond what the status covers. */
  ghost predicate IsNews(t: Table, remote: Status, r: Rumor) {
    r.origin in t && Offset(remote, r.origin) < r.sequence <= |t[r.origin]| && t[r.origin][r.sequence - 1] == r
  }

  predicate InSequenceOrder(rs: seq<Rumor>) {
    forall i, j | 0 <= i < j < |rs| :: rs[i].sequence <= rs[j].sequence
  }

  ghost predicate NoRepeats(rs: seq<Rumor>) {
    forall i, j | 0 <= i < j < |rs| :: rs[i] != rs[j]
  }

  /** A list of exactly the rumors of t that the status does not cover, by sequence number. */
  ghost predicate IsMissingList(t: Table, remote: Status, rs: seq<Rumor>) {
    && InSequenceOrder(rs)
    && NoRepeats(rs)
    && forall r :: r in rs <==> IsNews(t, remote, r)
  }

  /** The local peer holds rumors the remote status lacks. */
  ghost predicate Ahead(local: Status, remote: Status) {
    exists o | o in local :: o !in remote || local[o] > remote[o]
  }

  /** The remote status covers rumors the local peer lacks. */
  ghost predicate Behind(local: Status, remote: Status) {
    exists o | o in remote :: o !in local || local[o] < remote[o]
  }

  /** Unequal statuses always give one side something to send. */
  lemma UnequalMeansAheadOrBehind(local: Status, remote: Status)
    ensures local == remote <==> !Ahead(local, remote) && !Behind(local, remote)
  {
    if !Ahead(local, remote) && !Behind(local, remote) {
      assert forall o | o in local :: o in remote && local[o] == remote[o];
      assert local.Keys == remote.Keys;
    }
  }
}
