/** One status exchange between two peers computes the join of their tables. */
module GossipExchange {
  import opened Basics
  import opened GossipLog

  ghost predicate SameLogs(t: Table, u: Table) {
    forall o :: Log(t, o) == Log(u, o)
  }

  /** Both tables hold prefixes of common logs. */
  ghost predicate Compatible(t: Table, u: Table) {
    forall o :: Log(t, o) <= Log(u, o) || Log(u, o) <= Log(t, o)
  }

  ghost predicate Within(t: Table, u: Table) {
    forall o :: Log(t, o) <= Log(u, o)
  }

  /** For every origin the longer of the two logs. */
  function Join(t: Table, u: Table): Table {
    map o | o in t.Keys + u.Keys :: if |Log(t, o)| >= |Log(u, o)| then Log(t, o) else Log(u, o)
  }

  /** j holds for every origin the longer of the logs in t and u. */
  ghost predicate IsJoin(t: Table, u: Table, j: Table) {
    forall o :: Log(t, o) <= Log(j, o) && Log(u, o) <= Log(j, o) && (Log(j, o) == Log(t, o) || Log(j, o) == Log(u, o))
  }

  lemma JoinIsJoin(t: Table, u: Table)
    requires Compatible(t, u)
    ensures IsJoin(t, u, Join(t, u))
  {
    forall o ensures
      && Log(t, o) <= Log(Join(t, u), o) && Log(u, o) <= Log(Join(t, u), o)
      && (Log(Join(t, u), o) == Log(t, o) || Log(Join(t, u), o) == Log(u, o))
    {
      assert Log(t, o) <= Log(u, o) || Log(u, o) <= Log(t, o);
    }
  }

  /** The receiving loop, with u its table so far: the list has been taken in up to entry k, and the
      table stays between where it started and the join. */
  ghost predicate TakenIn(t: Table, u: Table, goal: Table, rs: seq<Rumor>, k: nat)
    requires k <= |rs|
  {
    && WellFormed(u)
    && Within(t, u) && Within(u, goal)
    && forall i | 0 <= i < k :: rs[i].sequence <= |Log(u, rs[i].origin)|
  }

  /** Rumors the list must hold before entry k have been taken in. */
  lemma EarlierIsHeld(sender: Table, known: Status, t: Table, u: Table, goal: Table, rs: seq<Rumor>, k: nat, s: nat)
    requires WellFormed(sender) && IsMissingList(sender, known, rs) && k < |rs|
    requires TakenIn(t, u, goal, rs, k)
    requires Offset(known, rs[k].origin) < s < rs[k].sequence
    ensures s <= |Log(u, rs[k].origin)|
  {
    assert IsNews(sender, known, rs[k]);
    var q := sender[rs[k].origin][s - 1];
    assert IsNews(sender, known, q);
    var j :| 0 <= j < |rs| && rs[j] == q;
    assert j < k;
  }

  /** Because the list is sorted, the next rumor is either held already or exactly the expected one. */
  lemma NextIsHeldOrExpected(sender: Table, known: Status, t: Table, u: Table, goal: Table, rs: seq<Rumor>, k: nat)
    requires WellFormed(sender) && IsMissingList(sender, known, rs) && k < |rs|
    requires TakenIn(t, u, goal, rs, k)
    requires forall o :: Offset(known, o) <= |Log(t, o)|
    ensures rs[k].sequence <= |Log(u, rs[k].origin)| + 1
  {
    var s := |Log(u, rs[k].origin)| + 1;
    assert Log(t, rs[k].origin) <= Log(u, rs[k].origin);
    if s < rs[k].sequence {
      EarlierIsHeld(sender, known, t, u, goal, rs, k, s);
    }
  }

  lemma TakeNext(sender: Table, known: Status, t: Table, u: Table, goal: Table, rs: seq<Rumor>, k: nat)
    requires WellFormed(sender) && IsJoin(t, sender, goal)
    requires IsMissingList(sender, known, rs) && k < |rs|
    requires TakenIn(t, u, goal, rs, k)
    requires forall o :: Offset(known, o) <= |Log(t, o)|
    ensures TakenIn(t, Keep(u, rs[k]), goal, rs, k + 1)
  {
    var r := rs[k];
    NextIsHeldOrExpected(sender, known, t, u, goal, rs, k);
    KeepKeepsForm(u, r);
    assert IsNews(sender, known, r) && Log(sender, r.origin) <= Log(goal, r.origin);
    KeptBetween(sender, known, t, u, goal, r);
    forall i | 0 <= i < k + 1 ensures rs[i].sequence <= |Log(Keep(u, r), rs[i].origin)| {
      assert Log(u, rs[i].origin) <= Log(Keep(u, r), rs[i].origin);
    }
  }

  lemma KeptBetween(sender: Table, known: Status, t: Table, u: Table, goal: Table, r: Rumor)
    requires WellFormed(u) && IsNews(sender, known, r) && Within(t, u) && Within(u, goal)
    requires Log(sender, r.origin) <= Log(goal, r.origin)
    ensures Within(t, Keep(u, r)) && Within(u, Keep(u, r)) && Within(Keep(u, r), goal)
  {
    var u' := Keep(u, r);
    forall o ensures Log(t, o) <= Log(u', o) && Log(u, o) <= Log(u', o) && Log(u', o) <= Log(goal, o) {
      assert Log(t, o) <= Log(u, o) && Log(u, o) <= Log(goal, o);
      if o == r.origin {
        KeptWithin(sender, known, u, goal, r);
      }
    }
  }

  lemma KeptWithin(sender: Table, known: Status, u: Table, goal: Table, r: Rumor)
    requires WellFormed(u) && IsNews(sender, known, r)
    requires Log(sender, r.origin) <= Log(goal, r.origin) && Log(u, r.origin) <= Log(goal, r.origin)
    ensures Log(u, r.origin) <= Log(Keep(u, r), r.origin) <= Log(goal, r.origin)
  {
    KeepKeepsForm(u, r);
    assert Log(goal, r.origin)[r.sequence - 1] == r;
  }

  lemma {:induction false} ListIsTakenIn(sender: Table, known: Status, t: Table, u: Table, goal: Table,
          rs: seq<Rumor>, k: nat)
    requires WellFormed(sender) && IsJoin(t, sender, goal)
    requires IsMissingList(sender, known, rs) && k <= |rs|
    requires TakenIn(t, u, goal, rs, k)
    requires forall o :: Offset(known, o) <= |Log(t, o)|
    ensures TakenIn(t, Receive(u, rs[k..]), goal, rs, |rs|)
    decreases |rs| - k
  {
    if k < |rs| {
      TakeNext(sender, known, t, u, goal, rs, k);
      assert rs[k..][1..] == rs[k + 1..];
      ListIsTakenIn(sender, known, t, Keep(u, rs[k]), goal, rs, k + 1);
    }
  }

  /** A peer that has at least what the status said, and receives the sender's missing list for that
      status, ends with the longest logs of both. */
  lemma MissingListGivesJoin(sender: Table, known: Status, t: Table, rs: seq<Rumor>)
    requires WellFormed(t) && WellFormed(sender) && Compatible(t, sender)
    requires IsMissingList(sender, known, rs)
    requires forall o :: Offset(known, o) <= |Log(t, o)|
    ensures SameLogs(Receive(t, rs), Join(t, sender))
  {
    assert rs[0..] == rs;
    var goal := Join(t, sender);
    JoinIsJoin(t, sender);
    ListIsTakenIn(sender, known, t, t, goal, rs, 0);
    var u := Receive(t, rs);
    forall o ensures Log(u, o) == Log(goal, o) {
      LastOneIn(sender, known, t, u, goal, rs, o);
    }
  }

  lemma LastOneIn(sender: Table, known: Status, t: Table, u: Table, goal: Table, rs: seq<Rumor>, o: Addr)
    requires WellFormed(sender) && IsJoin(t, sender, goal)
    requires IsMissingList(sender, known, rs) && TakenIn(t, u, goal, rs, |rs|)
    requires forall o :: Offset(known, o) <= |Log(t, o)|
    ensures Log(u, o) == Log(goal, o)
  {
    assert Log(t, o) <= Log(u, o) <= Log(goal, o);
    var n := |Log(sender, o)|;
    if n > |Log(t, o)| {
      var last := sender[o][n - 1];
      assert IsNews(sender, known, last);
      var i :| 0 <= i < |rs| && rs[i] == last;
    }
  }

  /** Everything u has beyond t came from the list before entry k. */
  ghost predicate Explained(t: Table, u: Table, rs: seq<Rumor>, k: nat)
    requires k <= |rs|
  {
    forall o, s: nat {:trigger Log(u, o)[s]} | |Log(t, o)| <= s < |Log(u, o)| :: Log(u, o)[s] in rs[..k]
  }

  lemma StaysExplained(t: Table, u: Table, rs: seq<Rumor>, k: nat)
    requires WellFormed(u) && k < |rs| && Explained(t, u, rs, k)
    ensures Explained(t, Keep(u, rs[k]), rs, k + 1)
  {
    KeepKeepsForm(u, rs[k]);
    var u' := Keep(u, rs[k]);
    forall o, s: nat {:trigger Log(u', o)[s]} | |Log(t, o)| <= s < |Log(u', o)| ensures Log(u', o)[s] in rs[..k + 1] {
      if s < |Log(u, o)| {
        assert Log(u, o)[s] in rs[..k];
      } else {
        assert rs[..k + 1][k] == rs[k];
      }
    }
  }

  /** If nothing reached the peer since it sent the status, it accepts the whole list. */
  lemma {:induction false} WholeListIsAccepted(sender: Table, t: Table, u: Table, goal: Table, rs: seq<Rumor>, k: nat)
    requires WellFormed(sender) && IsJoin(t, sender, goal)
    requires IsMissingList(sender, StatusOf(t), rs) && k <= |rs|
    requires TakenIn(t, u, goal, rs, k) && Explained(t, u, rs, k)
    ensures Accepted(u, rs[k..]) == rs[k..]
    decreases |rs| - k
  {
    if k < |rs| {
      var r := rs[k];
      NextIsHeldOrExpected(sender, StatusOf(t), t, u, goal, rs, k);
      NotHeldYet(sender, t, u, goal, rs, k);
      LengthIsLastSeqno(u, r.origin);
      TakeNext(sender, StatusOf(t), t, u, goal, rs, k);
      StaysExplained(t, u, rs, k);
      AcceptedStep(u, rs, k);
      WholeListIsAccepted(sender, t, Keep(u, r), goal, rs, k + 1);
    }
  }

  lemma HeldIsListed(sender: Table, t: Table, u: Table, goal: Table, rs: seq<Rumor>, k: nat, o: Addr, s: nat)
    requires IsJoin(t, sender, goal) && k <= |rs|
    requires TakenIn(t, u, goal, rs, k) && Explained(t, u, rs, k)
    requires |Log(t, o)| < s <= |Log(u, o)| && s <= |Log(sender, o)|
    ensures Log(sender, o)[s - 1] in rs[..k]
  {
    assert Log(t, o) <= Log(u, o) <= Log(goal, o) && Log(sender, o) <= Log(goal, o);
    assert Log(u, o)[s - 1] == Log(goal, o)[s - 1] == Log(sender, o)[s - 1];
  }

  lemma NotHeldYet(sender: Table, t: Table, u: Table, goal: Table, rs: seq<Rumor>, k: nat)
    requires WellFormed(sender) && IsJoin(t, sender, goal)
    requires IsMissingList(sender, StatusOf(t), rs) && k < |rs|
    requires TakenIn(t, u, goal, rs, k) && Explained(t, u, rs, k)
    ensures rs[k].sequence > |Log(u, rs[k].origin)|
  {
    var r := rs[k];
    assert IsNews(sender, StatusOf(t), r);
    if r.sequence <= |Log(u, r.origin)| {
      HeldIsListed(sender, t, u, goal, rs, k, r.origin, r.sequence);
    }
  }

  lemma AcceptedStep(u: Table, rs: seq<Rumor>, k: nat)
    requires k < |rs| && Expected(u, rs[k])
    ensures Accepted(u, rs[k..]) == [rs[k]] + Accepted(Keep(u, rs[k]), rs[k + 1..])
    ensures rs[k..] == [rs[k]] + rs[k + 1..]
  {
    assert rs[k..][0] == rs[k] && rs[k..][1..] == rs[k + 1..];
  }

  lemma MissingListIsAccepted(sender: Table, t: Table, rs: seq<Rumor>)
    requires WellFormed(t) && WellFormed(sender) && Compatible(t, sender)
    requires IsMissingList(sender, StatusOf(t), rs)
    ensures Accepted(t, rs) == rs
  {
    assert rs[0..] == rs;
    JoinIsJoin(t, sender);
    WholeListIsAccepted(sender, t, t, Join(t, sender), rs, 0);
  }

  /** Being ahead is having longer logs. */
  lemma NotAheadIsWithin(t: Table, u: Table)
    requires WellFormed(t) && WellFormed(u) && Compatible(t, u)
    ensures !Ahead(StatusOf(t), StatusOf(u)) <==> Within(t, u)
    ensures Behind(StatusOf(t), StatusOf(u)) == Ahead(StatusOf(u), StatusOf(t))
  {
    if !Ahead(StatusOf(t), StatusOf(u)) {
      forall o ensures Log(t, o) <= Log(u, o) {
        assert Log(t, o) <= Log(u, o) || Log(u, o) <= Log(t, o);
        if o in t {
          assert o in StatusOf(t);
        }
      }
    }
    if Within(t, u) {
      forall o | o in t ensures o in u && |t[o]| <= |u[o]| {
        assert Log(t, o) <= Log(u, o);
      }
    }
  }

  /** What a holds after b's answer to its status. */
  ghost function AfterAnswer(a: Table, b: Table, fromB: seq<Rumor>): Table {
    if Ahead(StatusOf(b), StatusOf(a)) then Receive(a, fromB) else a
  }

  lemma AnswerGivesJoin(a: Table, b: Table, fromB: seq<Rumor>)
    requires WellFormed(a) && WellFormed(b) && Compatible(a, b)
    requires IsMissingList(b, StatusOf(a), fromB)
    ensures WellFormed(AfterAnswer(a, b, fromB)) && SameLogs(AfterAnswer(a, b, fromB), Join(a, b))
  {
    JoinIsJoin(a, b);
    ReceiveKeepsForm(a, fromB);
    if Ahead(StatusOf(b), StatusOf(a)) {
      MissingListGivesJoin(b, StatusOf(a), a, fromB);
    } else {
      NotAheadIsWithin(b, a);
      forall o ensures Log(a, o) == Log(Join(a, b), o) {
        assert Log(b, o) <= Log(a, o);
      }
    }
  }

  /** a's status has reached b, which answered with the rumors fromB if it is ahead and with its own
      status if it is behind; a takes both in either order and answers that status with fromA if it
      is ahead.  Both then hold the pointwise longest logs, and unequal statuses were answered. */
  lemma ExchangeComputesJoin(a: Table, b: Table, fromB: seq<Rumor>, fromA: seq<Rumor>, rumorsFirst: bool)
    requires WellFormed(a) && WellFormed(b) && Compatible(a, b)
    requires IsMissingList(b, StatusOf(a), fromB)
    requires IsMissingList(if rumorsFirst then AfterAnswer(a, b, fromB) else a, StatusOf(b), fromA)
    ensures SameLogs(AfterAnswer(a, b, fromB), Join(a, b))
    ensures var answering := if rumorsFirst then AfterAnswer(a, b, fromB) else a;
      var b1 := if Behind(StatusOf(b), StatusOf(a)) then AfterAnswer(b, answering, fromA) else b;
      SameLogs(b1, Join(a, b))
    ensures StatusOf(a) != StatusOf(b) ==> Behind(StatusOf(b), StatusOf(a)) || Ahead(StatusOf(b), StatusOf(a))
  {
    UnequalMeansAheadOrBehind(StatusOf(b), StatusOf(a));
    AnswerGivesJoin(a, b, fromB);
    var answering := if rumorsFirst then AfterAnswer(a, b, fromB) else a;
    AnswererIsCompatible(a, b, answering);
    if Behind(StatusOf(b), StatusOf(a)) {
      AnswerGivesJoin(b, answering, fromA);
    } else {
      NotBehindIsJoin(a, b);
    }
  }

  /** A peer that is not behind holds the join already. */
  lemma NotBehindIsJoin(a: Table, b: Table)
    requires WellFormed(a) && WellFormed(b) && Compatible(a, b) && !Behind(StatusOf(b), StatusOf(a))
    ensures SameLogs(b, Join(a, b))
  {
    JoinIsJoin(a, b);
    NotAheadIsWithin(b, a);
    NotAheadIsWithin(a, b);
    forall o ensures Log(b, o) == Log(Join(a, b), o) {
      assert Log(a, o) <= Log(b, o);
    }
  }

  /** It makes no difference whether the answering peer has already taken in the other's rumors. */
  lemma AnswererIsCompatible(a: Table, b: Table, answering: Table)
    requires Compatible(a, b) && (SameLogs(answering, Join(a, b)) || answering == a)
    ensures Compatible(b, answering) && SameLogs(Join(b, answering), Join(a, b))
  {
    forall o ensures Log(b, o) <= Log(answering, o) || Log(answering, o) <= Log(b, o) {
      assert Log(a, o) <= Log(b, o) || Log(b, o) <= Log(a, o);
    }
    forall o ensures Log(Join(b, answering), o) == Log(Join(a, b), o) {
      assert Log(a, o) <= Log(b, o) || Log(b, o) <= Log(a, o);
    }
  }
}
