/** When a join succeeds and when it does not. */
module ChordFaults {
  import opened Basics
  import opened IdRing
  import opened ChordRing
  import opened ChordLookup
  import opened ChordHops
  import opened ChordJoin
  import opened ChordExact

  lemma {:induction false} UpdateKeepsComplete(net: Net, ring: set<Addr>, cur: Addr, s: Addr, i: nat)
    requires Ring(net, ring) && cur in ring && s in ring && i < M
    requires cur == s || Dist(net[cur].id, net[s].id) >= Gap(i)
    requires Complete(net, ring)
    ensures Complete(UpdateFinger(net, ring, cur, s, i), ring)
    decreases Dist(net[s].id, net[cur].id)
  {
    if cur != s && LeftClosedRightOpen(net[s].id, net[cur].id, net[cur].fingers[i].id) {
      UpdateKeepsRing(net, ring, cur, s, i);
      UpdateKeepsComplete(SetFinger(net, cur, i, Ref(net, s)), ring, net[cur].pred.addr, s, i);
    }
  }

  lemma {:induction false} UpdateOthersSucceeds(net: Net, ring: set<Addr>, n: Addr, i: nat)
    requires Ring(net, ring) && Complete(net, ring) && n in ring && i <= M
    ensures var r := UpdateOthers(net, ring, n, i); r.ok && Complete(r.net, ring)
    decreases M - i
  {
    if i < M {
      var id := Back(net[n].id, Gap(i));
      CompleteLookupsAnswer(net, ring, n, id);
      UpdateStart(net, ring, n, i);
      var p := FindPredecessor(net, ring, n, id).value.addr;
      UpdateKeepsComplete(net, ring, p, n, i);
      UpdateOthersSucceeds(UpdateFinger(net, ring, p, n, i), ring, n, i + 1);
    }
  }

  lemma FilledIsComplete(net: Net, ring: set<Addr>, n: Addr)
    requires Filled(net, ring, n, M)
    ensures Complete(net, ring)
  {
    forall a, i: nat | a in ring && i < M ensures net[a].fingers[i] != UNSET {
      if a == n {
        assert FingerExact(net, ring, n, i);
      }
    }
  }

  /** In any ring of complete tables, stale ones included, a join between a bridged member and its
      predecessor succeeds and leaves all tables complete. */
  lemma BridgedJoinSucceeds(net: Net, ring: set<Addr>, n: Addr, s: Addr, existing: Addr)
    requires Ring(net, ring) && Complete(net, ring) && Fresh(net, ring, n) && existing in ring
    requires IsFirst(net, ring, Forward(net[n].id, 1), s) && Bridged(net, ring, s)
    ensures var r := Join(net, ring, n, existing);
      r.ok && r.ring == ring + {n} && Complete(r.net, r.ring)
  {
    JoinGetsLinked(net, ring, n, s, existing);
    var linked := LinkIn(net, n, s);
    LinkedIsJoining(net, ring, n, s, linked);
    FillTableExact(linked, ring + {n}, n, existing, 0);
    var filled := FillTable(linked, ring + {n}, n, existing, 0);
    FilledIsComplete(filled.net, ring + {n}, n);
    InitFrom(net, ring, n, existing, s);
    UpdateOthersSucceeds(filled.net, ring + {n}, n, 0);
  }

  /** n's entries from k on, and at least the last one, are unset. */
  ghost predicate UnsetFrom(net: Net, n: Addr, k: nat)
    requires n in net && |net[n].fingers| == M
  {
    && 1 <= k < M
    && (forall i: nat | i < k :: net[n].fingers[i] != UNSET)
    && (forall i: nat | k <= i < M :: net[n].fingers[i] == UNSET)
  }

  /** Where the newcomer's own table sends a lookup: off to nobody exactly if the identifier 0, which an
      unset entry shows, comes before the one looked for. */
  lemma NewcomerPoints(net: Net, ring: set<Addr>, n: Addr, id: Id, k: nat)
    requires Ring(net, ring) && n in ring && UnsetFrom(net, n, k)
    requires !LeftOpenRightClosed(id, net[n].id, net[n].fingers[0].id)
    ensures var c := Closest(net[n], n, id, M);
      if StrictlyBetween(0, net[n].id, id) then c == UNSET
      else IsMember(net, ring, c) && Span(c.id, id) < Span(net[n].id, id)
  {
    var p := net[n];
    ClosestProgress(net, ring, n, id);
    assert Neighbours(net, ring, n);
    IntervalsAreCyclic(id, p.id, p.fingers[0].id);
    IntervalsAreCyclic(p.fingers[0].id, p.id, id);
    if StrictlyBetween(0, p.id, id) {
      assert p.fingers[M - 1] == UNSET;
    } else {
      var i := ClosestIndex(p, n, id, M, 0);
    }
  }

  /** While the newcomer's table is part unset, a lookup fails exactly when it asks the newcomer for
      an identifier past 0. */
  lemma {:induction false} LookupFailsExactly(net: Net, ring: set<Addr>, n: Addr, k: nat, cur: Addr, id: Id)
    requires Joining(net, ring, n) && UnsetFrom(net, n, k) && cur in ring
    ensures FindPredecessor(net, ring, cur, id).None? <==>
      n in Consulted(net, ring, cur, id) && StrictlyBetween(0, net[n].id, id)
    decreases Span(net[cur].id, id)
  {
    if !LeftOpenRightClosed(id, net[cur].id, net[cur].fingers[0].id) {
      if cur == n {
        NewcomerPoints(net, ring, n, id, k);
        AsksItself(net, ring, n, id);
        if !StrictlyBetween(0, net[n].id, id) {
          ConsultedStep(net, ring, n, id);
          LookupFailsExactly(net, ring, n, k, Closest(net[n], n, id, M).addr, id);
        }
      } else {
        var i := HopLands(net, ring, n, cur, id);
        ConsultedStep(net, ring, cur, id);
        LookupFailsExactly(net, ring, n, k, net[cur].fingers[i].addr, id);
      }
    }
  }

  /** Tables that differ only in n's higher entries lead the same lookups to n. */
  lemma {:induction false} SameWayToNewcomer(linked: Net, net: Net, ring: set<Addr>, n: Addr, cur: Addr, id: Id)
    requires Joining(linked, ring, n) && Joining(net, ring, n) && OthersKept(linked, net, n)
    requires net[n].fingers[0] == linked[n].fingers[0] && cur in ring
    ensures n in Consulted(net, ring, cur, id) <==> n in Consulted(linked, ring, cur, id)
    decreases Span(net[cur].id, id)
  {
    if !LeftOpenRightClosed(id, net[cur].id, net[cur].fingers[0].id) {
      if cur == n {
        AsksItself(net, ring, n, id);
        AsksItself(linked, ring, n, id);
      } else {
        var i := HopLands(net, ring, n, cur, id);
        ConsultedStep(net, ring, cur, id);
        ConsultedStep(linked, ring, cur, id);
        SameWayToNewcomer(linked, net, ring, n, net[cur].fingers[i].addr, id);
      }
    }
  }

  /** Some member lies in [n + 2^i, n + 2^(i+1)]. */
  ghost predicate SomeoneAround(net: Net, ring: set<Addr>, n: Addr, i: nat)
    requires ring <= net.Keys && n in ring && i + 1 < M
  {
    exists b :: b in ring && b != n && Gap(i) <= Dist(net[n].id, net[b].id) <= Gap(i + 1)
  }

  /** The next entry is a copy exactly if nobody does. */
  lemma LookedUpExactly(net: Net, ring: set<Addr>, n: Addr, i: nat)
    requires Ring(net, ring) && n in ring && i + 1 < M && FingerExact(net, ring, n, i)
    ensures !LeftClosedRightOpen(Forward(net[n].id, Gap(i + 1)), net[n].id, net[n].fingers[i].id) <==>
      SomeoneAround(net, ring, n, i)
  {
    var start, next, f := Forward(net[n].id, Gap(i)), Forward(net[n].id, Gap(i + 1)), net[n].fingers[i];
    IntervalsAreCyclic(next, net[n].id, f.id);
    assert Gap(i + 1) == 2 * Gap(i);
    assert Dist(start, f.id) <= Dist(start, net[n].id);
    if SomeoneAround(net, ring, n, i) {
      var b :| b in ring && b != n && Gap(i) <= Dist(net[n].id, net[b].id) <= Gap(i + 1);
      assert Dist(start, f.id) <= Dist(start, net[b].id);
    } else if f.addr != n {
      assert !(Gap(i) <= Dist(net[n].id, f.id) <= Gap(i + 1));
    }
  }

  /** Read off the tables right after linking in: entry i+1 has to be looked up, lies past identifier 0,
      and the lookup asks the newcomer. */
  ghost predicate Trap(linked: Net, ring: set<Addr>, n: Addr, existing: Addr, i: nat)
    requires Ring(linked, ring) && n in ring && existing in ring && i + 1 < M
  {
    var start := Forward(linked[n].id, Gap(i + 1));
    && SomeoneAround(linked, ring, n, i)
    && StrictlyBetween(0, linked[n].id, start)
    && n in Consulted(linked, ring, existing, start)
  }

  lemma EntryFailsExactly(linked: Net, net: Net, ring: set<Addr>, n: Addr, existing: Addr, i: nat)
    requires Joining(linked, ring, n)
    requires PartFilled(linked, net, ring, n, i) && existing in ring && i + 1 < M
    ensures NextEntry(net, ring, n, existing, i).None? <==> Trap(linked, ring, n, existing, i)
  {
    var start := Forward(net[n].id, Gap(i + 1));
    assert FingerExact(net, ring, n, i);
    LookedUpExactly(net, ring, n, i);
    assert SomeoneAround(net, ring, n, i) <==> SomeoneAround(linked, ring, n, i);
    LookupFailsExactly(net, ring, n, i + 1, existing, start);
    SameWayToNewcomer(linked, net, ring, n, existing, start);
  }

  /** An entry found is the right one, whatever the state of the others' tables. */
  lemma EntryFoundIsFirst(net: Net, ring: set<Addr>, n: Addr, existing: Addr, i: nat)
    requires Ring(net, ring) && n in ring && existing in ring && i + 1 < M && FingerExact(net, ring, n, i)
    requires NextEntry(net, ring, n, existing, i).Some?
    ensures var f := NextEntry(net, ring, n, existing, i).value;
      && IsMember(net, ring, f) && IsFirst(net, ring, Forward(net[n].id, Gap(i + 1)), f.addr)
      && Ring(SetFinger(net, n, i + 1, f), ring)
  {
    var start := Forward(net[n].id, Gap(i + 1));
    FillKeepsRing(net, ring, n, existing, i);
    if LeftClosedRightOpen(start, net[n].id, net[n].fingers[i].id) {
      ShortcutIsLookup(net, ring, n, i);
    } else {
      FindSuccessorCorrect(net, ring, existing, start);
    }
  }

  lemma StillJoins(net: Net, ring: set<Addr>, n: Addr, i: nat, f: ChordNode)
    requires Joining(net, ring, n) && 1 <= i < M && IsMember(net, ring, f) && Span(net[n].id, f.id) >= Gap(i)
    ensures Joining(SetFinger(net, n, i, f), ring, n)
  {
    var net' := SetFinger(net, n, i, f);
    SetFingerKeepsRing(net, ring, n, i, f);
    forall a, j: nat | a in ring && a != n && j < M
      ensures net'[a].fingers[j] != UNSET && (j >= 1 ==> net'[a].fingers[j].addr != n)
    {
      assert net'[a] == net[a];
    }
  }

  lemma ExactUpTo(net: Net, ring: set<Addr>, n: Addr, i: nat, f: ChordNode)
    requires Shape(net, ring) && n in ring && i + 1 < M
    requires forall j: nat {:trigger FingerExact(net, ring, n, j)} | j <= i :: FingerExact(net, ring, n, j)
    requires IsMember(net, ring, f) && IsFirst(net, ring, Forward(net[n].id, Gap(i + 1)), f.addr)
    ensures var net' := SetFinger(net, n, i + 1, f);
      && Shape(net', ring)
      && forall j: nat {:trigger FingerExact(net', ring, n, j)} | j <= i + 1 :: FingerExact(net', ring, n, j)
  {
    var net' := SetFinger(net, n, i + 1, f);
    forall j: nat {:trigger FingerExact(net', ring, n, j)} | j <= i + 1 ensures FingerExact(net', ring, n, j) {
      if j <= i {
        assert FingerExact(net, ring, n, j);
      }
    }
  }

  /** Entries above i are still unset, and nobody else's tables have changed. */
  ghost predicate UnsetAbove(linked: Net, net: Net, n: Addr, i: nat) {
    && n in linked && n in net && |linked[n].fingers| == M == |net[n].fingers|
    && OthersKept(linked, net, n)
    && net[n].fingers[0] == linked[n].fingers[0]
    && (i + 1 < M ==> UnsetFrom(net, n, i + 1))
  }

  lemma OneFewerUnset(linked: Net, net: Net, n: Addr, i: nat, f: ChordNode)
    requires UnsetAbove(linked, net, n, i) && i + 1 < M && f != UNSET
    ensures UnsetAbove(linked, SetFinger(net, n, i + 1, f), n, i + 1)
  {
  }

  /** net is linked with n's entries filled exactly up to i and unset above. */
  ghost predicate PartFilled(linked: Net, net: Net, ring: set<Addr>, n: Addr, i: nat) {
    && i < M
    && Joining(net, ring, n)
    && UnsetAbove(linked, net, n, i)
    && forall j: nat {:trigger FingerExact(net, ring, n, j)} | j <= i :: FingerExact(net, ring, n, j)
  }

  lemma OneMoreFilled(linked: Net, net: Net, ring: set<Addr>, n: Addr, i: nat, f: ChordNode)
    requires PartFilled(linked, net, ring, n, i) && i + 1 < M
    requires IsMember(net, ring, f) && IsFirst(net, ring, Forward(net[n].id, Gap(i + 1)), f.addr)
    ensures PartFilled(linked, SetFinger(net, n, i + 1, f), ring, n, i + 1)
  {
    var start := Forward(net[n].id, Gap(i + 1));
    assert Dist(start, f.id) <= Dist(start, net[n].id);
    OneFewerUnset(linked, net, n, i, f);
    StillJoins(net, ring, n, i + 1, f);
    ExactUpTo(net, ring, n, i, f);
  }

  lemma AllFilled(linked: Net, net: Net, ring: set<Addr>, n: Addr)
    requires PartFilled(linked, net, ring, n, M - 1)
    ensures Complete(net, ring)
  {
    forall a, i: nat | a in ring && i < M ensures net[a].fingers[i] != UNSET {
      if a == n {
        assert FingerExact(net, ring, n, i);
      }
    }
  }

  /** How filling n's table from entry i on ends: with complete tables, with some still unset, or before
      the last entry; or the network is not fit for it. */
  datatype Ending = Unfit | Stops | EndsUnset | EndsComplete

  ghost function HowFillingEnds(net: Net, ring: set<Addr>, n: Addr, existing: Addr, i: nat): Ending {
    if Ring(net, ring) && n in ring && existing in ring && i < M && IsMember(net, ring, net[n].fingers[i]) then
      var r := FillTable(net, ring, n, existing, i);
      if !r.ok then Stops else if Complete(r.net, ring) then EndsComplete else EndsUnset
    else Unfit
  }

  /** The traps foretell it. */
  ghost function Foretold(linked: Net, ring: set<Addr>, n: Addr, existing: Addr, i: nat): Ending
    requires Ring(linked, ring) && n in ring && existing in ring
  {
    if forall j: nat | i <= j && j + 1 < M :: !Trap(linked, ring, n, existing, j) then EndsComplete else Stops
  }

  lemma StopsInTrap(linked: Net, net: Net, ring: set<Addr>, n: Addr, existing: Addr, i: nat)
    requires Ring(linked, ring) && Ring(net, ring) && n in ring && existing in ring && i + 1 < M
    requires IsMember(net, ring, net[n].fingers[i])
    requires NextEntry(net, ring, n, existing, i).None? && Trap(linked, ring, n, existing, i)
    ensures HowFillingEnds(net, ring, n, existing, i) == Foretold(linked, ring, n, existing, i)
  {
  }

  lemma GoesOn(linked: Net, net: Net, ring: set<Addr>, n: Addr, existing: Addr, i: nat)
    requires Ring(linked, ring) && Ring(net, ring) && n in ring && existing in ring && i + 1 < M
    requires IsMember(net, ring, net[n].fingers[i])
    requires NextEntry(net, ring, n, existing, i).Some? && !Trap(linked, ring, n, existing, i)
    requires var f := NextEntry(net, ring, n, existing, i).value;
      HowFillingEnds(SetFinger(net, n, i + 1, f), ring, n, existing, i + 1) ==
      Foretold(linked, ring, n, existing, i + 1)
    ensures HowFillingEnds(net, ring, n, existing, i) == Foretold(linked, ring, n, existing, i)
  {
    FillTableUnfolds(net, ring, n, existing, i);
    assert (forall j: nat | i <= j && j + 1 < M :: !Trap(linked, ring, n, existing, j)) <==>
      (forall j: nat | i + 1 <= j && j + 1 < M :: !Trap(linked, ring, n, existing, j));
  }

  lemma NextIsTrapOrFilled(linked: Net, net: Net, ring: set<Addr>, n: Addr, existing: Addr, i: nat)
    requires Joining(linked, ring, n)
    requires PartFilled(linked, net, ring, n, i) && existing in ring && i + 1 < M
    ensures Ring(linked, ring) && Ring(net, ring) && n in ring && IsMember(net, ring, net[n].fingers[i])
    ensures match NextEntry(net, ring, n, existing, i)
      case None => Trap(linked, ring, n, existing, i)
      case Some(f) =>
        && !Trap(linked, ring, n, existing, i)
        && PartFilled(linked, SetFinger(net, n, i + 1, f), ring, n, i + 1)
  {
    assert FingerExact(net, ring, n, i);
    EntryFailsExactly(linked, net, ring, n, existing, i);
    var f := NextEntry(net, ring, n, existing, i);
    if f.Some? {
      EntryFoundIsFirst(net, ring, n, existing, i);
      OneMoreFilled(linked, net, ring, n, i, f.value);
    }
  }

  lemma FilledToTheEnd(linked: Net, net: Net, ring: set<Addr>, n: Addr, existing: Addr)
    requires Ring(linked, ring)
    requires PartFilled(linked, net, ring, n, M - 1) && existing in ring
    ensures HowFillingEnds(net, ring, n, existing, M - 1) == Foretold(linked, ring, n, existing, M - 1)
  {
    assert FingerExact(net, ring, n, M - 1);
    AllFilled(linked, net, ring, n);
  }

  /** The network with the next entry filled, unless that is a trap. */
  lemma NextFilled(linked: Net, net: Net, ring: set<Addr>, n: Addr, existing: Addr, i: nat) returns (next: Option<Net>)
    requires Joining(linked, ring, n)
    requires PartFilled(linked, net, ring, n, i) && existing in ring && i + 1 < M
    ensures next.None? ==> HowFillingEnds(net, ring, n, existing, i) == Foretold(linked, ring, n, existing, i)
    ensures next.Some? ==> PartFilled(linked, next.value, ring, n, i + 1)
    ensures next.Some? ==>
      HowFillingEnds(next.value, ring, n, existing, i + 1) == Foretold(linked, ring, n, existing, i + 1) ==>
      HowFillingEnds(net, ring, n, existing, i) == Foretold(linked, ring, n, existing, i)
  {
    NextIsTrapOrFilled(linked, net, ring, n, existing, i);
    var f := NextEntry(net, ring, n, existing, i);
    if f.None? {
      StopsInTrap(linked, net, ring, n, existing, i);
      next := None;
    } else {
      next := Some(SetFinger(net, n, i + 1, f.value));
      if HowFillingEnds(next.value, ring, n, existing, i + 1) == Foretold(linked, ring, n, existing, i + 1) {
        GoesOn(linked, net, ring, n, existing, i);
      }
    }
  }

  lemma {:induction false} FillFailsExactly(linked: Net, net: Net, ring: set<Addr>, n: Addr, existing: Addr, i: nat)
    requires Joining(linked, ring, n)
    requires PartFilled(linked, net, ring, n, i) && existing in ring
    ensures HowFillingEnds(net, ring, n, existing, i) == Foretold(linked, ring, n, existing, i)
    decreases M - i
  {
    if i + 1 == M {
      FilledToTheEnd(linked, net, ring, n, existing);
    } else {
      var next := NextFilled(linked, net, ring, n, existing, i);
      if next.Some? {
        FillFailsExactly(linked, next.value, ring, n, existing, i + 1);
      }
    }
  }

  /** A join into a ring of complete tables gets as far as linking in. */
  lemma JoinGetsLinked(net: Net, ring: set<Addr>, n: Addr, s: Addr, existing: Addr)
    requires Ring(net, ring) && Complete(net, ring) && Fresh(net, ring, n) && existing in ring
    requires IsFirst(net, ring, Forward(net[n].id, 1), s)
    ensures FindSuccessor(net, ring, existing, Forward(net[n].id, 1)) == Some(Ref(net, s))
    ensures net[s].pred.addr in ring && LinkedBetween(net, LinkIn(net, n, s), net[s].pred.addr, n, s)
    ensures Ring(LinkIn(net, n, s), ring + {n})
  {
    var start := Forward(net[n].id, 1);
    CompleteLookupsAnswer(net, ring, existing, start);
    FindSuccessorCorrect(net, ring, existing, start);
    FirstIsUnique(net, ring, start, s, FindSuccessor(net, ring, existing, start).value.addr);
    assert Neighbours(net, ring, s);
    LinkInLinks(net, n, s, net[s].pred.addr);
    LinkInKeepsRing(net, ring, n, s, LinkIn(net, n, s));
  }

  /** From there on its outcome is that of filling. */
  lemma JoinIsFilling(net: Net, ring: set<Addr>, n: Addr, s: Addr, existing: Addr)
    requires Ring(net, ring) && Fresh(net, ring, n) && existing in ring && s in net && net[s].pred.addr in net
    requires FindSuccessor(net, ring, existing, Forward(net[n].id, 1)) == Some(Ref(net, s))
    requires Ring(LinkIn(net, n, s), ring + {n})
    requires HowFillingEnds(LinkIn(net, n, s), ring + {n}, n, existing, 0) in {Stops, EndsComplete}
    ensures Join(net, ring, n, existing).ok <==>
      HowFillingEnds(LinkIn(net, n, s), ring + {n}, n, existing, 0) == EndsComplete
  {
    InitFrom(net, ring, n, existing, s);
    var filled := FillTable(LinkIn(net, n, s), ring + {n}, n, existing, 0);
    if filled.ok {
      UpdateOthersSucceeds(filled.net, ring + {n}, n, 0);
    }
  }

  /** In a ring of complete tables, stale ones included, a join fails exactly when its tables right after
      linking in hold a trap. */
  lemma JoinFailsExactly(net: Net, ring: set<Addr>, n: Addr, s: Addr, existing: Addr)
    requires Ring(net, ring) && Complete(net, ring) && Fresh(net, ring, n) && existing in ring
    requires IsFirst(net, ring, Forward(net[n].id, 1), s)
    ensures net[s].pred.addr in net
    ensures var linked := LinkIn(net, n, s);
      && Ring(linked, ring + {n})
      && (Join(net, ring, n, existing).ok <==> forall i: nat | i + 1 < M :: !Trap(linked, ring + {n}, n, existing, i))
  {
    JoinGetsLinked(net, ring, n, s, existing);
    var linked := LinkIn(net, n, s);
    LinkedTable(net, ring, n, s, linked);
    FillFailsExactly(linked, linked, ring + {n}, n, existing, 0);
    JoinIsFilling(net, ring, n, s, existing);
  }

  /** A join that succeeds leaves no finger unset. */
  lemma SuccessfulJoinIsComplete(net: Net, ring: set<Addr>, n: Addr, existing: Addr)
    requires Ring(net, ring) && Complete(net, ring) && Fresh(net, ring, n) && existing in ring
    ensures var r := Join(net, ring, n, existing); r.ok ==> r.ring == ring + {n} && Complete(r.net, r.ring)
  {
    var start := Forward(net[n].id, 1);
    CompleteLookupsAnswer(net, ring, existing, start);
    FindSuccessorCorrect(net, ring, existing, start);
    var s := FindSuccessor(net, ring, existing, start).value.addr;
    JoinGetsLinked(net, ring, n, s, existing);
    LinkedTable(net, ring, n, s, LinkIn(net, n, s));
    FillFailsExactly(LinkIn(net, n, s), LinkIn(net, n, s), ring + {n}, n, existing, 0);
    InitFrom(net, ring, n, existing, s);
    var filled := FillTable(LinkIn(net, n, s), ring + {n}, n, existing, 0);
    if filled.ok {
      UpdateOthersSucceeds(filled.net, ring + {n}, n, 0);
    }
  }

  lemma LinkedTable(net: Net, ring: set<Addr>, n: Addr, s: Addr, net': Net)
    requires Ring(net, ring) && Complete(net, ring) && Fresh(net, ring, n)
    requires IsFirst(net, ring, Forward(net[n].id, 1), s) && net[s].pred.addr in ring
    requires LinkedBetween(net, net', net[s].pred.addr, n, s) && Ring(net', ring + {n})
    ensures Joining(net', ring + {n}, n) && PartFilled(net', net', ring + {n}, n, 0)
  {
    forall a, i: nat | a in ring && i < M
      ensures net'[a].fingers[i] != UNSET && (i >= 1 ==> net'[a].fingers[i].addr != n)
    {
      LinkedEntry(net, ring, n, s, net', a, i);
    }
    assert Neighbours(net', ring + {n}, n);
    SuccessorIsExact(net', ring + {n}, n);
  }

  lemma LinkedEntry(net: Net, ring: set<Addr>, n: Addr, s: Addr, net': Net, a: Addr, i: nat)
    requires Ring(net, ring) && Complete(net, ring) && Fresh(net, ring, n)
    requires s in net && net[s].pred.addr in ring && LinkedBetween(net, net', net[s].pred.addr, n, s)
    requires a in ring && i < M && "" !in net
    ensures net'[a].fingers[i] != UNSET && (i >= 1 ==> net'[a].fingers[i].addr != n)
  {
    assert FingerOk(net, ring, a, i);
    assert LinkedAt(net, net', net[s].pred.addr, n, s, a);
  }

  /** The circle has at least four points. */
  lemma AtLeastFour()
    ensures N >= 4
  {
    Pow2Monotone(2, M);
    assert Pow2(2) == 4;
  }

  /** z joins the network p has just created: p's higher fingers keep pointing home. */
  lemma SecondPeerJoins(c: Net, p: Addr, z: Addr, n: Addr)
    requires Exact(c, {p}) && Fresh(c, {p}, z) && Fresh(c, {p}, n) && z != n
    requires c[p].id == N - 2 && c[z].id == 0 && c[n].id == N - 1
    ensures var j := Join(c, {p}, z, p);
      && j.ok && j.ring == {p, z} && Ring(j.net, {p, z}) && Fresh(j.net, {p, z}, n)
      && j.net[p].id == N - 2 && j.net[z].id == 0
      && j.net[n].id == N - 1 && j.net[p].fingers[0] == Ref(j.net, z)
      && forall i: nat | 1 <= i < M :: j.net[p].fingers[i] == Ref(j.net, p)
  {
    AtLeastFour();
    JoinExact(c, {p}, z, p);
    var j := Join(c, {p}, z, p);
    assert {p} + {z} == {p, z};
    FirstPeersTable(c, j.net, p, z);
  }

  lemma ThirdPeerFails(c: Net, p: Addr, z: Addr, n: Addr)
    requires Exact(c, {p}) && Fresh(c, {p}, z) && Fresh(c, {p}, n) && z != n
    requires c[p].id == N - 2 && c[z].id == 0 && c[n].id == N - 1
    ensures var j := Join(c, {p}, z, p);
      && j.ok && Ring(j.net, j.ring) && Fresh(j.net, j.ring, n) && p in j.ring
      && !Join(j.net, j.ring, n, p).ok
  {
    AtLeastFour();
    SecondPeerJoins(c, p, z, n);
    JoinBetweenFails(Join(c, {p}, z, p).net, p, z, n);
  }

  lemma FirstPeerCreates(net: Net, p: Addr, a: Addr)
    requires Shape(net, {}) && {p, a} <= net.Keys && p != a && net[a].id != net[p].id
    requires forall i: nat | i < M :: net[a].fingers[i] == UNSET
    ensures var c := Create(net, p); c.ring == {p} && Exact(c.net, {p}) && Fresh(c.net, {p}, a) && SameIds(net, c.net)
  {
    CreateIsExact(net, p);
  }

  /** Not every sequence of joins succeeds.  After N-2 created a network and 0 joined it, finger 1 of
      N-2 is stale, and N-1 cannot join through N-2: its own unset table is asked while it fills it. */
  lemma StaleFingerStopsJoin(net: Net, p: Addr, z: Addr, n: Addr)
    requires Shape(net, {}) && {p, z, n} <= net.Keys && p != z && p != n && z != n
    requires net[p].id == N - 2 && net[z].id == 0 && net[n].id == N - 1
    requires forall i: nat | i < M :: net[z].fingers[i] == UNSET && net[n].fingers[i] == UNSET
    ensures var c := Create(net, p);
      && Ring(c.net, c.ring) && Fresh(c.net, c.ring, z)
      && var j := Join(c.net, c.ring, z, p);
      && j.ok && Ring(j.net, j.ring) && Fresh(j.net, j.ring, n) && p in j.ring
      && !Join(j.net, j.ring, n, p).ok
  {
    AtLeastFour();
    FirstPeerCreates(net, p, z);
    FirstPeerCreates(net, p, n);
    ThirdPeerFails(Create(net, p).net, p, z, n);
  }

  lemma JoinBetweenFails(net: Net, p: Addr, z: Addr, n: Addr)
    requires Ring(net, {p, z}) && Fresh(net, {p, z}, n) && p != z
    requires net[p].id == N - 2 && net[z].id == 0 && net[n].id == N - 1
    requires net[p].fingers[0] == Ref(net, z)
    requires forall i: nat | 1 <= i < M :: net[p].fingers[i] == Ref(net, p)
    ensures !Join(net, {p, z}, n, p).ok
  {
    AtLeastFour();
    var ring, next := {p, z}, Forward(net[n].id, 1);
    FindSuccessorCorrect(net, ring, p, next);
    assert FindPredecessor(net, ring, p, next) == Some(Ref(net, p));
    assert FindSuccessor(net, ring, p, next) == Some(Ref(net, z));
    assert net[z].pred == Ref(net, p) by {
      assert Neighbours(net, ring, z);
      var q := net[z].pred.addr;
      assert Span(net[q].id, net[z].id) <= Span(net[q].id, net[p].id);
    }
    var linked := LinkIn(net, n, z);
    LinkInLinks(net, n, z, p);
    LinkInKeepsRing(net, ring, n, z, linked);
    assert ring + {n} == {p, z, n};
    LookupReachesNewcomer(linked, p, z, n);
  }

  lemma FirstPeersTable(before: Net, after: Net, p: Addr, z: Addr)
    requires Exact(before, {p}) && Ring(after, {p, z}) && p != z
    requires after[p].id == before[p].id == N - 2 && after[z].id == 0
    requires forall a, i: nat {:trigger FingerExact(after, {p, z}, a, i)} | a in {p} && i < M ::
      FingerExact(after, {p, z}, a, i) <==> i == 0 || before[a].id != Back(0, Gap(i))
    requires forall a, i: nat | a in {p} && 1 <= i < M && before[a].id == Back(0, Gap(i)) ::
      after[a].fingers[i] == before[a].fingers[i]
    ensures after[p].fingers[0] == Ref(after, z)
    ensures forall i: nat | 1 <= i < M :: after[p].fingers[i] == Ref(after, p)
  {
    AtLeastFour();
    assert Neighbours(after, {p, z}, p);
    assert after[p].fingers[0] == Ref(after, z) by {
      assert Span(after[p].id, after[p].fingers[0].id) <= Span(after[p].id, after[z].id);
    }
    forall i: nat | 1 <= i < M ensures after[p].fingers[i] == Ref(after, p) {
      if i == 1 {
        assert FingerExact(before, {p}, p, i);
        assert Gap(1) == 2;
      } else {
        Pow2Monotone(2, i);
        assert Gap(i) >= 4;
        assert FingerExact(after, {p, z}, p, i);
        var start := Forward(after[p].id, Gap(i));
        assert Dist(start, after[p].fingers[i].id) <= Dist(start, after[p].id);
      }
    }
  }

  /** The lookup of 1 goes from p to n, whose highest entry is unset but reads as identifier 0. */
  lemma LookupReachesNewcomer(net: Net, p: Addr, z: Addr, n: Addr)
    requires Ring(net, {p, z, n})
    requires net[p].id == N - 2 && net[z].id == 0 && net[n].id == N - 1
    requires net[p].fingers[0] == Ref(net, n) && net[n].fingers[0] == Ref(net, z)
    requires forall i: nat | 1 <= i < M :: net[p].fingers[i] == Ref(net, p) && net[n].fingers[i] == UNSET
    ensures NextEntry(net, {p, z, n}, n, p, 0).None?
  {
    AtLeastFour();
    assert Gap(1) == 2 && Forward(N - 1, 2) == 1;
    var i := ClosestIndex(net[p], p, 1, M, 0);
    assert Closest(net[p], p, 1, M) == Ref(net, n);
    assert Closest(net[n], n, 1, M) == UNSET;
    assert FindPredecessor(net, {p, z, n}, n, 1).None?;
    assert FindPredecessor(net, {p, z, n}, p, 1).None?;
  }
}
