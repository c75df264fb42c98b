/** A join into a ring with exact tables, followed entry by entry. */
module ChordExact {
  import opened Basics
  import opened IdRing
  import opened ChordRing
  import opened ChordLookup
  import opened ChordHops
  import opened ChordJoin

  /** The shortcut is right: while the start of entry i+1 lies before entry i's node, that node is
      also the first member at or after the new start, wrap-around and i pointing home included. */
  lemma ShortcutIsLookup(net: Net, ring: set<Addr>, n: Addr, i: nat)
    requires Ring(net, ring) && n in ring && i + 1 < M && FingerExact(net, ring, n, i)
    requires LeftClosedRightOpen(Forward(net[n].id, Gap(i + 1)), net[n].id, net[n].fingers[i].id)
    ensures IsFirst(net, ring, Forward(net[n].id, Gap(i + 1)), net[n].fingers[i].addr)
  {
    var start, next, f := Forward(net[n].id, Gap(i)), Forward(net[n].id, Gap(i + 1)), net[n].fingers[i];
    IntervalsAreCyclic(next, net[n].id, f.id);
    assert Gap(i + 1) == 2 * Gap(i);
    assert Dist(start, f.id) <= Dist(start, net[n].id);
    forall b | b in ring ensures Dist(next, f.id) <= Dist(next, net[b].id) {
      assert Dist(start, f.id) <= Dist(start, net[b].id);
    }
  }

  /** The predecessor of s can reach s without the newcomer: s is itself or one of its fingers. */
  ghost predicate Bridged(net: Net, ring: set<Addr>, s: Addr)
    requires Ring(net, ring) && s in ring
  {
    assert Neighbours(net, ring, s);
    var p := net[s].pred.addr;
    s == p || exists i: nat | 1 <= i < M :: net[p].fingers[i] == Ref(net, s)
  }

  /** With exact tables it is finger 1: a newcomer between p and s leaves s at least 2 away. */
  lemma ExactIsBridged(net: Net, ring: set<Addr>, n: Addr, s: Addr)
    requires Exact(net, ring) && Fresh(net, ring, n) && IsFirst(net, ring, Forward(net[n].id, 1), s)
    ensures Bridged(net, ring, s)
  {
    Placement(net, ring, n, s, s);
    assert Neighbours(net, ring, s);
    var p := net[s].pred.addr;
    assert FingerExact(net, ring, p, 1);
    var f := net[p].fingers[1].addr;
    Placement(net, ring, n, s, f);
    assert Gap(1) == 2;
    assert Dist(Forward(net[p].id, 2), net[f].id) <= Dist(Forward(net[p].id, 2), net[s].id);
    assert net[f].id == net[s].id;
  }

  /** Right after linking into a ring of complete tables, lookups pass the newcomer by provided
      its successor is bridged. */
  lemma LinkedIsJoining(net: Net, ring: set<Addr>, n: Addr, s: Addr, net': Net)
    requires Ring(net, ring) && Complete(net, ring) && Fresh(net, ring, n)
    requires IsFirst(net, ring, Forward(net[n].id, 1), s) && Bridged(net, ring, s)
    requires LinkedBetween(net, net', net[s].pred.addr, n, s) && Ring(net', ring + {n})
    ensures Joining(net', ring + {n}, n) && StepsOver(net', ring + {n}, n)
    ensures FingerExact(net', ring + {n}, n, 0)
  {
    assert Neighbours(net, ring, s);
    forall a, i: nat | a in ring && i < M
      ensures net'[a].fingers[i] != UNSET && (i >= 1 ==> net'[a].fingers[i].addr != n)
    {
      assert FingerOk(net, ring, a, i);
    }
    assert Joining(net', ring + {n}, n);
    SuccessorIsExact(net', ring + {n}, n);
  }

  lemma SuccessorIsExact(net: Net, ring: set<Addr>, a: Addr)
    requires Ring(net, ring) && a in ring
    ensures FingerExact(net, ring, a, 0)
  {
    assert Neighbours(net, ring, a);
    var s := net[a].fingers[0].addr;
    forall b | b in ring ensures Dist(Forward(net[a].id, 1), net[s].id) <= Dist(Forward(net[a].id, 1), net[b].id) {
      assert Span(net[a].id, net[s].id) <= Span(net[a].id, net[b].id);
    }
  }

  /** n's entries up to i are exact, and lookups pass it by. */
  ghost predicate Filled(net: Net, ring: set<Addr>, n: Addr, i: nat) {
    && Joining(net, ring, n)
    && StepsOver(net, ring, n)
    && forall j: nat {:trigger FingerExact(net, ring, n, j)} | j <= i && j < M :: FingerExact(net, ring, n, j)
  }

  /** Setting a higher entry of n does not disturb who steps over it. */
  lemma StillJoining(net: Net, ring: set<Addr>, n: Addr, b: Addr, i: nat, c: ChordNode)
    requires Joining(net, ring, n) && StepsOver(net, ring, n) && 1 <= i < M
    requires Ring(SetFinger(net, n, i, c), ring) && b in ring && b != n
    ensures Joining(SetFinger(net, n, i, c), ring, n) && StepsOver(SetFinger(net, n, i, c), ring, n)
  {
    var net' := SetFinger(net, n, i, c);
    assert Neighbours(net, ring, n) && Neighbours(net', ring, n);
    assert Span(net[n].pred.id, net[n].id) <= Span(net[n].pred.id, net[b].id);
    assert net[n].pred.addr != n;
    assert net'[net[n].pred.addr] == net[net[n].pred.addr];
  }

  /** Copied or looked up, the next entry is the first member at or after its start. */
  lemma NextEntryIsFirst(net: Net, ring: set<Addr>, n: Addr, existing: Addr, i: nat)
    requires Filled(net, ring, n, i) && existing in ring && existing != n && i + 1 < M
    ensures var f := NextEntry(net, ring, n, existing, i);
      && f.Some?
      && IsMember(net, ring, f.value)
      && IsFirst(net, ring, Forward(net[n].id, Gap(i + 1)), f.value.addr)
  {
    assert FingerExact(net, ring, n, i);
    var start := Forward(net[n].id, Gap(i + 1));
    if LeftClosedRightOpen(start, net[n].id, net[n].fingers[i].id) {
      ShortcutIsLookup(net, ring, n, i);
    } else {
      JoiningLookup(net, ring, n, existing, start);
      FindSuccessorCorrect(net, ring, existing, start);
    }
  }

  lemma FillStep(net: Net, ring: set<Addr>, n: Addr, existing: Addr, i: nat, f: ChordNode)
    requires Filled(net, ring, n, i) && existing in ring && existing != n && i + 1 < M
    requires IsMember(net, ring, f) && IsFirst(net, ring, Forward(net[n].id, Gap(i + 1)), f.addr)
    ensures Filled(SetFinger(net, n, i + 1, f), ring, n, i + 1)
  {
    var start := Forward(net[n].id, Gap(i + 1));
    assert Dist(start, f.id) <= Dist(start, net[n].id);
    SetFingerKeepsRing(net, ring, n, i + 1, f);
    StillJoining(net, ring, n, existing, i + 1, f);
    ExactEntriesKept(net, ring, n, i, f);
  }

  lemma ExactEntriesKept(net: Net, ring: set<Addr>, n: Addr, i: nat, f: ChordNode)
    requires Filled(net, ring, n, i) && i + 1 < M && Ring(SetFinger(net, n, i + 1, f), ring)
    requires IsMember(net, ring, f) && IsFirst(net, ring, Forward(net[n].id, Gap(i + 1)), f.addr)
    ensures var net' := SetFinger(net, n, i + 1, f);
      forall j: nat {:trigger FingerExact(net', ring, n, j)} | j <= i + 1 :: FingerExact(net', ring, n, j)
  {
    var net' := SetFinger(net, n, i + 1, f);
    forall j: nat {:trigger FingerExact(net', ring, n, j)} | j <= i + 1 ensures FingerExact(net', ring, n, j) {
      if j <= i {
        assert FingerExact(net, ring, n, j);
      }
    }
  }

  ghost predicate OthersKept(net: Net, net': Net, n: Addr)
    requires n in net
  {
    && SameIds(net, net')
    && (forall a | a in net && a != n :: net'[a] == net[a])
    && net'[n].pred == net[n].pred
  }

  lemma FillTableUnfolds(net: Net, ring: set<Addr>, n: Addr, existing: Addr, i: nat)
    requires Ring(net, ring) && n in ring && existing in ring && i + 1 < M
    requires IsMember(net, ring, net[n].fingers[i]) && NextEntry(net, ring, n, existing, i).Some?
    ensures var net' := SetFinger(net, n, i + 1, NextEntry(net, ring, n, existing, i).value);
      && Ring(net', ring) && IsMember(net', ring, net'[n].fingers[i + 1])
      && FillTable(net, ring, n, existing, i) == FillTable(net', ring, n, existing, i + 1)
  {
    FillKeepsRing(net, ring, n, existing, i);
  }

  /** Filling n's table from entry i on succeeds with every entry exact and no one else changed. */
  ghost predicate FillsExactly(net: Net, ring: set<Addr>, n: Addr, existing: Addr, i: nat) {
    && Ring(net, ring) && n in ring && existing in ring && i < M
    && IsMember(net, ring, net[n].fingers[i])
    && var r := FillTable(net, ring, n, existing, i);
    r.ok && Filled(r.net, ring, n, M) && OthersKept(net, r.net, n)
  }

  lemma FillsExactlyAtLast(net: Net, ring: set<Addr>, n: Addr, existing: Addr)
    requires Filled(net, ring, n, M - 1) && existing in ring
    ensures FillsExactly(net, ring, n, existing, M - 1)
  {
    assert FingerExact(net, ring, n, M - 1);
    forall j: nat {:trigger FingerExact(net, ring, n, j)} | j < M ensures FingerExact(net, ring, n, j) {
      assert j <= M - 1;
    }
  }

  lemma FillsExactlyBefore(net: Net, ring: set<Addr>, n: Addr, existing: Addr, i: nat)
    requires Ring(net, ring) && n in ring && existing in ring && i + 1 < M
    requires IsMember(net, ring, net[n].fingers[i]) && NextEntry(net, ring, n, existing, i).Some?
    requires var f := NextEntry(net, ring, n, existing, i).value;
      FillsExactly(SetFinger(net, n, i + 1, f), ring, n, existing, i + 1)
    ensures FillsExactly(net, ring, n, existing, i)
  {
    FillTableUnfolds(net, ring, n, existing, i);
    var net' := SetFinger(net, n, i + 1, NextEntry(net, ring, n, existing, i).value);
    var last := FillTable(net', ring, n, existing, i + 1).net;
    assert forall a | a in net && a != n :: net'[a] == net[a] && last[a] == net'[a];
  }

  lemma NextIsFilled(net: Net, ring: set<Addr>, n: Addr, existing: Addr, i: nat)
    requires Filled(net, ring, n, i) && existing in ring && existing != n && i + 1 < M
    ensures IsMember(net, ring, net[n].fingers[i]) && NextEntry(net, ring, n, existing, i).Some?
    ensures Filled(SetFinger(net, n, i + 1, NextEntry(net, ring, n, existing, i).value), ring, n, i + 1)
  {
    assert FingerExact(net, ring, n, i);
    NextEntryIsFirst(net, ring, n, existing, i);
    FillStep(net, ring, n, existing, i, NextEntry(net, ring, n, existing, i).value);
  }

  lemma {:induction false} FillTableExact(net: Net, ring: set<Addr>, n: Addr, existing: Addr, i: nat)
    requires Filled(net, ring, n, i) && existing in ring && existing != n && i < M
    ensures FillsExactly(net, ring, n, existing, i)
    decreases M - i
  {
    if i + 1 < M {
      NextIsFilled(net, ring, n, existing, i);
      FillTableExact(SetFinger(net, n, i + 1, NextEntry(net, ring, n, existing, i).value), ring, n, existing, i + 1);
      FillsExactlyBefore(net, ring, n, existing, i);
    } else {
      FillsExactlyAtLast(net, ring, n, existing);
    }
  }

  /** By its old table, a wants n as finger i: n lies past the start of the entry and before the
      node in it. */
  ghost predicate Wants(net: Net, ring: set<Addr>, n: Addr, a: Addr, i: nat)
    requires Exact(net, ring) && n in net && a in ring && i < M
  {
    Gap(i) < Dist(net[a].id, net[n].id) < Span(net[a].id, net[a].fingers[i].id)
  }

  /** a lies at or before cur, going back from n. */
  ghost predicate Reached(net: Net, n: Addr, cur: Addr, a: Addr)
    requires {n, cur, a} <= net.Keys
  {
    a != n && Dist(net[n].id, net[a].id) <= Dist(net[n].id, net[cur].id)
  }

  /** Once a peer does not want n, no peer further back does: the wanting peers are consecutive. */
  lemma WantingIsContiguous(net: Net, ring: set<Addr>, n: Addr, cur: Addr, a: Addr, i: nat)
    requires Exact(net, ring) && Fresh(net, ring, n) && cur in ring && a in ring && i < M
    requires Dist(net[cur].id, net[n].id) > Gap(i) && !Wants(net, ring, n, cur, i)
    requires Reached(net, n, cur, a)
    ensures !Wants(net, ring, n, a, i)
  {
    assert FingerExact(net, ring, cur, i) && FingerExact(net, ring, a, i);
    assert FingerOk(net, ring, cur, i) && FingerOk(net, ring, a, i);
    var f := net[cur].fingers[i].addr;
    var start := Forward(net[a].id, Gap(i));
    assert Dist(start, net[a].fingers[i].id) <= Dist(start, net[f].id);
  }

  /** net' is net after the peers back from cur that want n, by their tables in net0, got it as
      finger i. */
  ghost predicate GaveFinger(net0: Net, ring: set<Addr>, net: Net, net': Net, n: Addr, cur: Addr, i: nat)
    requires Exact(net0, ring) && n in net0 && n in net && cur in net && i < M && SameIds(net0, net)
    requires forall a | a in net :: |net[a].fingers| == M
  {
    && SameIds(net, net')
    && (forall a | a in net :: net'[a].pred == net[a].pred && |net'[a].fingers| == M)
    && (forall a, j: nat | a in net && j < M && j != i :: net'[a].fingers[j] == net[a].fingers[j])
    && net'[n].fingers[i] == net[n].fingers[i]
    && (forall a | a in ring && a != n :: net'[a].fingers[i] ==
          if Reached(net, n, cur, a) && Wants(net0, ring, n, a, i) then Ref(net, n) else net[a].fingers[i])
  }

  /** One update call, from a peer past 2^i before n: exactly the peers it reaches that want n get
      it as finger i, and nothing else changes. */
  lemma {:induction false} UpdateRun(net0: Net, ring: set<Addr>, net: Net, n: Addr, cur: Addr, i: nat)
    requires Exact(net0, ring) && Fresh(net0, ring, n) && SameIds(net0, net) && Ring(net, ring + {n})
    requires cur in ring + {n} && 1 <= i < M
    requires cur == n || Dist(net[cur].id, net[n].id) > Gap(i)
    requires forall a | a in ring && Reached(net, n, cur, a) :: net[a].fingers[i] == net0[a].fingers[i]
    ensures GaveFinger(net0, ring, net, UpdateFinger(net, ring + {n}, cur, n, i), n, cur, i)
    decreases Dist(net[n].id, net[cur].id)
  {
    var ring' := ring + {n};
    if cur != n {
      var f := net[cur].fingers[i];
      assert Reached(net, n, cur, cur);
      IntervalsAreCyclic(net[n].id, net[cur].id, f.id);
      if LeftClosedRightOpen(net[n].id, net[cur].id, f.id) {
        UpdateKeepsRing(net, ring', cur, n, i);
        var net1 := SetFinger(net, cur, i, Ref(net, n));
        var p := net[cur].pred.addr;
        PredecessorIsOneMore(net, ring, n, cur);
        forall a | a in ring && Reached(net1, n, p, a) ensures net1[a].fingers[i] == net0[a].fingers[i] {
          assert Reached(net, n, p, a);
        }
        UpdateRun(net0, ring, net1, n, p, i);
        GaveOneMore(net0, ring, net, UpdateFinger(net1, ring', p, n, i), n, p, cur, i);
      } else {
        forall a | a in ring && Reached(net, n, cur, a) ensures !Wants(net0, ring, n, a, i) {
          WantingIsContiguous(net0, ring, n, cur, a, i);
        }
      }
    }
  }

  /** The peers reached from cur are cur and those reached from its predecessor p. */
  ghost predicate OneMore(net: Net, ring: set<Addr>, n: Addr, p: Addr, cur: Addr)
    requires ring + {n, p, cur} <= net.Keys
  {
    && cur != n
    && !Reached(net, n, p, cur)
    && forall a | a in ring && a != cur :: Reached(net, n, cur, a) <==> Reached(net, n, p, a)
  }

  lemma PredecessorIsOneMore(net: Net, ring: set<Addr>, n: Addr, cur: Addr)
    requires Ring(net, ring + {n}) && cur in ring && cur != n
    ensures net[cur].pred.addr in net && OneMore(net, ring, n, net[cur].pred.addr, cur)
  {
    assert Neighbours(net, ring + {n}, cur);
    var p := net[cur].pred.addr;
    assert Span(net[p].id, net[cur].id) <= Span(net[p].id, net[n].id);
    forall a | a in ring && a != cur ensures Reached(net, n, cur, a) <==> Reached(net, n, p, a) {
      StepBack(net, ring + {n}, n, cur, a);
    }
  }

  lemma GaveOneMore(net0: Net, ring: set<Addr>, net: Net, net': Net, n: Addr, p: Addr, cur: Addr, i: nat)
    requires Exact(net0, ring) && {n, p} <= net0.Keys && SameIds(net0, net) && cur in ring && i < M
    requires forall a | a in net :: |net[a].fingers| == M
    requires OneMore(net, ring, n, p, cur) && Wants(net0, ring, n, cur, i)
    requires GaveFinger(net0, ring, SetFinger(net, cur, i, Ref(net, n)), net', n, p, i)
    ensures GaveFinger(net0, ring, net, net', n, cur, i)
  {
    var net1 := SetFinger(net, cur, i, Ref(net, n));
    forall a | a in ring && a != n
      ensures net'[a].fingers[i] ==
        if Reached(net, n, cur, a) && Wants(net0, ring, n, a, i) then Ref(net, n) else net[a].fingers[i]
    {
      assert Reached(net1, n, p, a) == Reached(net, n, p, a);
    }
  }

  /** Nothing lies between a peer and its predecessor. */
  lemma StepBack(net: Net, ring: set<Addr>, n: Addr, cur: Addr, a: Addr)
    requires Ring(net, ring) && n in ring && cur in ring && cur != n && a in ring && a != cur
    ensures net[cur].pred.addr in net
    ensures Reached(net, n, cur, a) <==> Reached(net, n, net[cur].pred.addr, a)
  {
    assert Neighbours(net, ring, cur);
    var p := net[cur].pred.addr;
    assert Span(net[p].id, net[cur].id) <= Span(net[p].id, net[n].id);
    assert Span(net[p].id, net[cur].id) <= Span(net[p].id, net[a].id);
  }

  /** The others' tables once the updates for indices 1 .. i-1 are through; n's own is exact. */
  ghost predicate Updated(net0: Net, ring: set<Addr>, net: Net, n: Addr, i: nat) {
    && Exact(net0, ring) && Fresh(net0, ring, n)
    && SameIds(net0, net) && Ring(net, ring + {n})
    && (forall j: nat {:trigger FingerExact(net, ring + {n}, n, j)} | j < M :: FingerExact(net, ring + {n}, n, j))
    && (forall a, j: nat | a in ring && 1 <= j < M :: net[a].fingers[j] ==
          if j < i && Wants(net0, ring, n, a, j) then Ref(net, n) else net0[a].fingers[j])
  }

  lemma UpdatedIsComplete(net0: Net, ring: set<Addr>, net: Net, n: Addr, i: nat)
    requires Updated(net0, ring, net, n, i)
    ensures Complete(net, ring + {n})
  {
    var ring' := ring + {n};
    forall a, j: nat | a in ring' && j < M ensures net[a].fingers[j] != UNSET {
      if a == n {
        assert FingerExact(net, ring', n, j);
      } else if j == 0 {
        assert Neighbours(net, ring', a);
      } else {
        assert FingerExact(net0, ring, a, j);
      }
    }
  }

  /** Peers that want n lie back from the last member before n - 2^i. */
  lemma WantingAreReached(net0: Net, ring: set<Addr>, net: Net, n: Addr, p: Addr, a: Addr, i: nat)
    requires Exact(net0, ring) && Fresh(net0, ring, n) && SameIds(net0, net) && Ring(net, ring + {n})
    requires a in ring && i < M && IsLastBefore(net, ring + {n}, Back(net[n].id, Gap(i)), p)
    requires Wants(net0, ring, n, a, i)
    ensures Reached(net, n, p, a)
  {
    var id := Back(net[n].id, Gap(i));
    assert Span(net[p].id, id) <= Span(net[n].id, id);
    assert Span(net[p].id, id) <= Span(net[a].id, id);
  }

  /** The update for index i starts at the last member before n - 2^i. */
  lemma UpdateStarts(net0: Net, ring: set<Addr>, net: Net, n: Addr, i: nat) returns (p: Addr)
    requires Updated(net0, ring, net, n, i) && i < M
    ensures p in ring + {n} && FindPredecessor(net, ring + {n}, n, Back(net[n].id, Gap(i))) == Some(Ref(net, p))
    ensures IsLastBefore(net, ring + {n}, Back(net[n].id, Gap(i)), p)
    ensures p == n || Dist(net[p].id, net[n].id) > Gap(i)
  {
    var ring', id := ring + {n}, Back(net[n].id, Gap(i));
    UpdatedIsComplete(net0, ring, net, n, i);
    CompleteLookupsAnswer(net, ring', n, id);
    FindPredecessorCorrect(net, ring', n, id);
    UpdateStart(net, ring', n, i);
    p := FindPredecessor(net, ring', n, id).value.addr;
  }

  lemma UpdatedBy(net0: Net, ring: set<Addr>, net: Net, n: Addr, i: nat, p: Addr)
    requires Updated(net0, ring, net, n, i) && i < M && p in ring + {n}
    requires IsLastBefore(net, ring + {n}, Back(net[n].id, Gap(i)), p)
    requires p == n || Dist(net[p].id, net[n].id) > Gap(i)
    ensures Updated(net0, ring, UpdateFinger(net, ring + {n}, p, n, i), n, i + 1)
  {
    if i == 0 {
      FirstEntryStands(net, ring + {n}, p, n);
    } else {
      UpdateRun(net0, ring, net, n, p, i);
      forall a | a in ring && Wants(net0, ring, n, a, i) ensures Reached(net, n, p, a) {
        WantingAreReached(net0, ring, net, n, p, a, i);
      }
      GaveKeepsUpdated(net0, ring, net, UpdateFinger(net, ring + {n}, p, n, i), n, p, i);
    }
  }

  lemma FirstEntryStands(net: Net, ring: set<Addr>, p: Addr, n: Addr)
    requires Ring(net, ring) && p in ring && n in ring && (p == n || Dist(net[p].id, net[n].id) >= 1)
    ensures UpdateFinger(net, ring, p, n, 0) == net
  {
    if p != n && LeftClosedRightOpen(net[n].id, net[p].id, net[p].fingers[0].id) {
      UpdateKeepsRing(net, ring, p, n, 0);
    }
  }

  lemma GaveKeepsUpdated(net0: Net, ring: set<Addr>, net: Net, net': Net, n: Addr, p: Addr, i: nat)
    requires Updated(net0, ring, net, n, i) && 1 <= i < M && p in ring + {n}
    requires Ring(net', ring + {n}) && GaveFinger(net0, ring, net, net', n, p, i)
    requires forall a | a in ring && Wants(net0, ring, n, a, i) :: Reached(net, n, p, a)
    ensures Updated(net0, ring, net', n, i + 1)
  {
    forall j: nat {:trigger FingerExact(net', ring + {n}, n, j)} | j < M ensures FingerExact(net', ring + {n}, n, j) {
      assert FingerExact(net, ring + {n}, n, j);
    }
  }

  lemma {:induction false} UpdateOthersExact(net0: Net, ring: set<Addr>, net: Net, n: Addr, i: nat)
    requires Updated(net0, ring, net, n, i) && i <= M
    ensures var r := UpdateOthers(net, ring + {n}, n, i); r.ok && Updated(net0, ring, r.net, n, M)
    decreases M - i
  {
    if i < M {
      var p := UpdateStarts(net0, ring, net, n, i);
      UpdatedBy(net0, ring, net, n, i, p);
      UpdateOthersExact(net0, ring, UpdateFinger(net, ring + {n}, p, n, i), n, i + 1);
    }
  }

  /** After all updates an old member's entry is exact unless the member sits exactly 2^j before n. */
  lemma UpdatedEntry(net0: Net, ring: set<Addr>, net: Net, n: Addr, a: Addr, j: nat)
    requires Updated(net0, ring, net, n, M) && a in ring && 1 <= j < M
    ensures FingerExact(net, ring + {n}, a, j) <==> Dist(net[a].id, net[n].id) != Gap(j)
    ensures Dist(net[a].id, net[n].id) == Gap(j) ==> net[a].fingers[j] == net0[a].fingers[j]
  {
    assert FingerExact(net0, ring, a, j) && FingerOk(net0, ring, a, j);
    if Dist(net[a].id, net[n].id) == Gap(j) {
      assert Dist(Forward(net[a].id, Gap(j)), net[n].id) == 0;
    } else {
      UpdatedFirst(net0, ring, net, n, a, j);
    }
  }

  /** Of the old entry f and the newcomer n, the one an update leaves is the nearer to the start. */
  lemma Nearest(x: Id, n: Id, f: Id, b: Id, gap: nat)
    requires 1 <= gap < N && Span(x, f) >= gap && x != n && Dist(x, n) != gap
    requires b == n || Dist(Forward(x, gap), f) <= Dist(Forward(x, gap), b)
    ensures var start := Forward(x, gap);
      Dist(start, if gap < Dist(x, n) < Span(x, f) then n else f) <= Dist(start, b)
  {
  }

  lemma UpdatedFirst(net0: Net, ring: set<Addr>, net: Net, n: Addr, a: Addr, j: nat)
    requires Updated(net0, ring, net, n, M) && a in ring && 1 <= j < M
    requires Dist(net[a].id, net[n].id) != Gap(j)
    ensures FingerExact(net, ring + {n}, a, j)
  {
    assert FingerExact(net0, ring, a, j) && FingerOk(net0, ring, a, j);
    var start, f, g := Forward(net[a].id, Gap(j)), net0[a].fingers[j], net[a].fingers[j];
    assert g == if Wants(net0, ring, n, a, j) then Ref(net, n) else f;
    forall b | b in ring + {n} ensures Dist(start, net[g.addr].id) <= Dist(start, net[b].id) {
      Nearest(net[a].id, net[n].id, f.id, net[b].id, Gap(j));
    }
  }

  /** The lookup of n + 1 and the linking leave n joining with its first entry exact. */
  lemma JoinLinks(net: Net, ring: set<Addr>, n: Addr, existing: Addr) returns (s: Addr)
    requires Exact(net, ring) && Fresh(net, ring, n) && existing in ring
    ensures s in ring && net[s].pred.addr in ring
    ensures FindSuccessor(net, ring, existing, Forward(net[n].id, 1)) == Some(Ref(net, s))
    ensures LinkedBetween(net, LinkIn(net, n, s), net[s].pred.addr, n, s)
    ensures Filled(LinkIn(net, n, s), ring + {n}, n, 0)
  {
    var start := Forward(net[n].id, 1);
    HopBound(net, ring, existing, start);
    FindSuccessorCorrect(net, ring, existing, start);
    s := FindSuccessor(net, ring, existing, start).value.addr;
    assert Neighbours(net, ring, s);
    LinkInLinks(net, n, s, net[s].pred.addr);
    LinkInKeepsRing(net, ring, n, s, LinkIn(net, n, s));
    ExactIsComplete(net, ring);
    ExactIsBridged(net, ring, n, s);
    LinkedIsJoining(net, ring, n, s, LinkIn(net, n, s));
  }

  lemma JoinUpdates(net: Net, ring: set<Addr>, n: Addr, existing: Addr)
    requires Exact(net, ring) && Fresh(net, ring, n) && existing in ring
    ensures var r := Join(net, ring, n, existing);
      r.ok && r.ring == ring + {n} && Updated(net, ring, r.net, n, M)
  {
    var s := JoinLinks(net, ring, n, existing);
    var linked := LinkIn(net, n, s);
    FillTableExact(linked, ring + {n}, n, existing, 0);
    var filled := FillTable(linked, ring + {n}, n, existing, 0);
    FilledIsUpdated(net, ring, linked, filled.net, n, s);
    UpdateOthersExact(net, ring, filled.net, n, 0);
  }

  lemma EntryAfterJoin(net: Net, ring: set<Addr>, r: Net, n: Addr, a: Addr, i: nat)
    requires Updated(net, ring, r, n, M) && a in ring && i < M
    ensures FingerExact(r, ring + {n}, a, i) <==> i == 0 || net[a].id != Back(net[n].id, Gap(i))
    ensures i >= 1 && net[a].id == Back(net[n].id, Gap(i)) ==> r[a].fingers[i] == net[a].fingers[i]
  {
    if i == 0 {
      SuccessorIsExact(r, ring + {n}, a);
    } else {
      UpdatedEntry(net, ring, r, n, a, i);
    }
  }

  /** The join theorem.  Joining a ring with exact tables through any member succeeds, and every
      finger of the enlarged ring is then the first member at or after its start, except exactly
      finger i >= 1 of a member sitting at n - 2^i, which keeps its old value. */
  lemma JoinExact(net: Net, ring: set<Addr>, n: Addr, existing: Addr)
    requires Exact(net, ring) && Fresh(net, ring, n) && existing in ring
    ensures var r := Join(net, ring, n, existing);
      && r.ok && r.ring == ring + {n}
      && (forall i: nat {:trigger FingerExact(r.net, r.ring, n, i)} | i < M :: FingerExact(r.net, r.ring, n, i))
      && (forall a, i: nat {:trigger FingerExact(r.net, r.ring, a, i)} | a in ring && i < M ::
            FingerExact(r.net, r.ring, a, i) <==> i == 0 || net[a].id != Back(net[n].id, Gap(i)))
      && (forall a, i: nat | a in ring && 1 <= i < M && net[a].id == Back(net[n].id, Gap(i)) ::
            r.net[a].fingers[i] == net[a].fingers[i])
  {
    JoinUpdates(net, ring, n, existing);
    var r := Join(net, ring, n, existing).net;
    forall a, i: nat {:trigger FingerExact(r, ring + {n}, a, i)} | a in ring && i < M
      ensures FingerExact(r, ring + {n}, a, i) <==> i == 0 || net[a].id != Back(net[n].id, Gap(i))
      ensures i >= 1 && net[a].id == Back(net[n].id, Gap(i)) ==> r[a].fingers[i] == net[a].fingers[i]
    {
      EntryAfterJoin(net, ring, r, n, a, i);
    }
  }

  lemma FilledIsUpdated(net0: Net, ring: set<Addr>, linked: Net, net: Net, n: Addr, s: Addr)
    requires Exact(net0, ring) && Fresh(net0, ring, n) && s in ring && net0[s].pred.addr in ring
    requires LinkedBetween(net0, linked, net0[s].pred.addr, n, s)
    requires Filled(net, ring + {n}, n, M) && OthersKept(linked, net, n)
    ensures Updated(net0, ring, net, n, 0)
  {
  }

  /** Updates leave exact tables if and only if no member sits 2^i before the newcomer, i >= 1. */
  lemma ExactAfterUpdates(net: Net, ring: set<Addr>, r: Net, n: Addr)
    requires Updated(net, ring, r, n, M)
    ensures Exact(r, ring + {n}) <==> forall a, i: nat | a in ring && 1 <= i < M :: net[a].id != Back(net[n].id, Gap(i))
  {
    var ring' := ring + {n};
    forall a, i: nat {:trigger FingerExact(r, ring', a, i)} | a in ring && i < M
      ensures FingerExact(r, ring', a, i) <==> i == 0 || net[a].id != Back(net[n].id, Gap(i))
    {
      EntryAfterJoin(net, ring, r, n, a, i);
    }
    forall a, i: nat | a in ring && 1 <= i < M && Exact(r, ring') ensures net[a].id != Back(net[n].id, Gap(i)) {
      assert FingerExact(r, ring', a, i);
    }
  }

  /** Exactness survives a join if and only if no member sits 2^i before the newcomer, i >= 1. */
  lemma ExactAfterJoin(net: Net, ring: set<Addr>, n: Addr, existing: Addr)
    requires Exact(net, ring) && Fresh(net, ring, n) && existing in ring
    ensures var r := Join(net, ring, n, existing);
      Exact(r.net, r.ring) <==>
        forall a, i: nat | a in ring && 1 <= i < M :: net[a].id != Back(net[n].id, Gap(i))
  {
    JoinUpdates(net, ring, n, existing);
    ExactAfterUpdates(net, ring, Join(net, ring, n, existing).net, n);
  }
}
