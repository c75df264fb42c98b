/** Budgeted flooding of a search request. */
module SearchBudget {
  import opened Basics

  const TWO_TO_THE_64: nat := 0x1_0000_0000_0000_0000

  type Uint = x: nat | x < TWO_TO_THE_64

  /** Machine subtraction of one, wrapping below zero. */
  function Decrement(b: Uint): (d: Uint)
    ensures d == (b - 1) % TWO_TO_THE_64
  {
    if b == 0 then TWO_TO_THE_64 - 1 else b - 1
  }

  function Sum(s: seq<nat>): nat {
    if s == [] then 0 else Sum(s[..|s| - 1]) + s[|s| - 1]
  }

  lemma {:induction false} SumConcat(s: seq<nat>, t: seq<nat>)
    ensures Sum(s + t) == Sum(s) + Sum(t)
  {
    if t == [] {
      assert s + t == s;
    } else {
      assert (s + t)[..|s + t| - 1] == s + t[..|t| - 1];
      SumConcat(s, t[..|t| - 1]);
    }
  }

  /** The first i shares when the first `more` of them are one above q. */
  lemma {:induction false} SumOfShares(s: seq<nat>, q: nat, more: nat, i: nat)
    requires i <= |s| && more <= |s|
    requires forall j | 0 <= j < |s| :: s[j] == if j < more then q + 1 else q
    ensures Sum(s[..i]) == i * q + if i < more then i else more
  {
    if i > 0 {
      SumOfShares(s, q, more, i - 1);
      assert s[..i][..i - 1] == s[..i - 1];
      assert i * q == (i - 1) * q + q;
    }
  }

  lemma SharesSumUp(s: seq<nat>, budget: nat, q: nat, more: nat)
    requires more <= |s| && budget == |s| * q + more
    requires forall j | 0 <= j < |s| :: s[j] == if j < more then q + 1 else q
    ensures Sum(s) == budget
  {
    SumOfShares(s, q, more, |s|);
    assert s[..|s|] == s;
  }

  /** The shares sum to the total and differ by at most one. */
  predicate EvenShares(shares: seq<nat>, total: nat) {
    Sum(shares) == total && forall i, j | 0 <= i < |shares| && 0 <= j < |shares| :: shares[i] <= shares[j] + 1
  }

  /** Shares as even as they can be, the larger ones first. */
  method DistributeBudget(budget: Uint, neighbors: Uint) returns (budgets: array<Uint>)
    requires neighbors > 0
    ensures budgets.Length == neighbors
    ensures EvenShares(budgets[..], budget)
    ensures forall i, j | 0 <= i < j < neighbors :: budgets[i] >= budgets[j]
    ensures forall i | 0 <= i < neighbors :: budgets[i] > 0 <==> i < budget
  {
    ShareFits(budget, neighbors);
    SmallBudget(budget, neighbors);
    var share, mod := budget / neighbors, budget % neighbors;
    budgets := FillShares(neighbors, share, mod);
    SharesSumUp(budgets[..], budget, share, mod);
  }

  method FillShares(neighbors: Uint, share: Uint, mod: Uint) returns (budgets: array<Uint>)
    requires mod < neighbors && (mod > 0 ==> share + 1 < TWO_TO_THE_64)
    ensures budgets.Length == neighbors
    ensures forall j | 0 <= j < neighbors :: budgets[j] == if j < mod then share + 1 else share
  {
    budgets := new Uint[neighbors];
    var i := 0;
    while i < mod
      invariant 0 <= i <= mod
      invariant forall j | 0 <= j < i :: budgets[j] == share + 1
    {
      budgets[i] := share + 1;
      i := i + 1;
    }
    while i < neighbors
      invariant mod <= i <= neighbors
      invariant forall j | 0 <= j < i :: budgets[j] == if j < mod then share + 1 else share
    {
      budgets[i] := share;
      i := i + 1;
    }
  }

  lemma ShareFits(budget: Uint, neighbors: Uint)
    requires neighbors > 0
    ensures 0 <= budget / neighbors <= budget && budget == neighbors * (budget / neighbors) + budget % neighbors
    ensures budget % neighbors > 0 ==> budget / neighbors + 1 < TWO_TO_THE_64
  {
    var q, r := budget / neighbors, budget % neighbors;
    assert budget == q * neighbors + r;
    if neighbors >= 2 {
      TimesAtLeast(q, neighbors);
    }
  }

  /** Below the number of neighbours there is one unit for the first ones, and from there on for all. */
  lemma SmallBudget(budget: nat, neighbors: nat)
    requires neighbors > 0
    ensures budget < neighbors ==> budget / neighbors == 0 && budget % neighbors == budget
    ensures budget >= neighbors ==> budget / neighbors >= 1
  {
    assert budget == neighbors * (budget / neighbors) + budget % neighbors;
    assert budget / neighbors == 0 ==> neighbors * (budget / neighbors) == 0;
  }

  lemma TimesAtLeast(q: nat, n: nat)
    requires n >= 2
    ensures q * n >= 2 * q
  {
    assert q * n == 2 * q + q * (n - 2);
  }

  /** A request on its way to dst, for one search. */
  datatype Request = Request(dst: Addr, budget: Uint)

  function Budgets(rs: seq<Request>): (s: seq<nat>)
    ensures |s| == |rs| && forall i | 0 <= i < |rs| :: s[i] == rs[i].budget
  {
    seq(|rs|, i requires 0 <= i < |rs| => rs[i].budget)
  }

  /** Each neighbour's share as a request, but for those without budget. */
  function Addressed(neighbors: seq<Addr>, shares: seq<Uint>): seq<Request>
    requires |shares| == |neighbors|
  {
    if neighbors == [] then []
    else
      var last := |neighbors| - 1;
      Addressed(neighbors[..last], shares[..last])
      + if shares[last] > 0 then [Request(neighbors[last], shares[last])] else []
  }

  /** Addressing loses no budget, and every request has some. */
  lemma {:induction false} AddressedSum(neighbors: seq<Addr>, shares: seq<Uint>)
    requires |shares| == |neighbors|
    ensures var rs := Addressed(neighbors, shares);
      Sum(Budgets(rs)) == Sum(shares) && forall r | r in rs :: r.dst in neighbors && 1 <= r.budget
  {
    if neighbors != [] {
      var last := |neighbors| - 1;
      AddressedSum(neighbors[..last], shares[..last]);
      var front, rs := Addressed(neighbors[..last], shares[..last]), Addressed(neighbors, shares);
      assert shares[last] > 0 ==> Budgets(rs)[..|rs| - 1] == Budgets(front);
      assert shares[last] == 0 ==> rs == front;
    }
  }

  /** The total went out in even shares, one for each neighbour. */
  ghost predicate SharedOut(neighbors: seq<Addr>, total: nat, sent: seq<Request>) {
    exists shares: seq<Uint> {:trigger EvenShares(shares, total)} ::
      |shares| == |neighbors| && EvenShares(shares, total) && sent == Addressed(neighbors, shares)
  }

  lemma SharedOutSum(neighbors: seq<Addr>, total: nat, sent: seq<Request>)
    requires SharedOut(neighbors, total, sent)
    ensures Sum(Budgets(sent)) == total && forall r | r in sent :: r.dst in neighbors && 1 <= r.budget
  {
    var shares: seq<Uint> :|
      |shares| == |neighbors| && EvenShares(shares, total) && sent == Addressed(neighbors, shares);
    AddressedSum(neighbors, shares);
  }

  /** With the neighbours that have a share in front, they are addressed in turn. */
  lemma {:induction false} AddressedInTurn(neighbors: seq<Addr>, shares: seq<Uint>, k: nat)
    requires |shares| == |neighbors|
    requires forall i | 0 <= i < |shares| :: shares[i] > 0 <==> i < k
    ensures var rs := Addressed(neighbors, shares);
      && |rs| == (if k < |neighbors| then k else |neighbors|)
      && forall i | 0 <= i < |rs| :: rs[i].dst == neighbors[i] && rs[i].budget == shares[i]
  {
    if neighbors != [] {
      var last := |neighbors| - 1;
      AddressedInTurn(neighbors[..last], shares[..last], k);
    }
  }

  /** The neighbours are asked in turn, one request each: all of them, or as many as there are units.  The
      budgets sum to the total, are even, and the larger ones come first. */
  ghost predicate AskedInTurn(neighbors: seq<Addr>, total: nat, sent: seq<Request>) {
    && |sent| == (if total < |neighbors| then total else |neighbors|)
    && (forall i | 0 <= i < |sent| :: sent[i].dst == neighbors[i] && 1 <= sent[i].budget)
    && Sum(Budgets(sent)) == total
    && (forall i, j | 0 <= i < j < |sent| :: sent[j].budget <= sent[i].budget <= sent[j].budget as int + 1)
  }

  lemma EvenlyInTurn(neighbors: seq<Addr>, shares: seq<Uint>, total: nat)
    requires |shares| == |neighbors| && EvenShares(shares, total)
    requires forall i, j | 0 <= i < j < |shares| :: shares[i] >= shares[j]
    requires forall i | 0 <= i < |shares| :: shares[i] > 0 <==> i < total
    ensures AskedInTurn(neighbors, total, Addressed(neighbors, shares))
  {
    AddressedInTurn(neighbors, shares, total);
    AddressedSum(neighbors, shares);
  }

  /** Among distinct neighbours nobody is asked twice. */
  lemma NobodyTwice(neighbors: seq<Addr>, total: nat, sent: seq<Request>)
    requires AskedInTurn(neighbors, total, sent)
    requires forall i, j | 0 <= i < j < |neighbors| :: neighbors[i] != neighbors[j]
    ensures forall i, j | 0 <= i < j < |sent| :: sent[i].dst != sent[j].dst
  {
  }

  method Send(neighbors: seq<Addr>, budgets: array<Uint>) returns (requests: seq<Request>)
    requires budgets.Length == |neighbors|
    ensures requests == Addressed(neighbors, budgets[..])
  {
    requests := [];
    for i := 0 to |neighbors|
      invariant requests == Addressed(neighbors[..i], budgets[..i])
    {
      assert neighbors[..i + 1][..i] == neighbors[..i] && budgets[..i + 1][..i] == budgets[..i];
      if budgets[i] > 0 {
        requests := requests + [Request(neighbors[i], budgets[i])];
      }
    }
    assert neighbors[..|neighbors|] == neighbors && budgets[..|neighbors|] == budgets[..];
  }

  /** What may be sent on for a request: nothing unless it is new, and then at most what is left of its
      budget after spending a unit here, in requests that all have some. */
  predicate Allowed(isNew: bool, budget: Uint, sent: seq<Request>) {
    if isNew then Sum(Budgets(sent)) <= Decrement(budget) && forall r | r in sent :: 1 <= r.budget
    else sent == []
  }

  class SearchPeer {
    /** Identifiers of the requests seen so far. */
    var requests: set<string>

    constructor ()
      ensures requests == {}
    {
      requests := {};
    }

    /** The origin's own sends: with no more budget than neighbours every neighbour gets one unit. */
    method SendSearchRequests(neighbors: seq<Addr>, budget: Uint) returns (sent: seq<Request>)
      requires |neighbors| < TWO_TO_THE_64
      ensures if neighbors == [] then sent == []
              else SharedOut(neighbors, if budget <= |neighbors| then |neighbors| else budget, sent)
      ensures |sent| == |neighbors|
      ensures forall i | 0 <= i < |neighbors| :: sent[i].dst == neighbors[i]
      ensures neighbors != [] ==> AskedInTurn(neighbors, if budget <= |neighbors| then |neighbors| else budget, sent)
    {
      sent := [];
      if budget <= |neighbors| {
        var ones := new Uint[|neighbors|](i => 1);
        SumOfOnes(ones[..]);
        assert EvenShares(ones[..], |neighbors|);
        EvenlyInTurn(neighbors, ones[..], |neighbors|);
        sent := Send(neighbors, ones);
      } else if |neighbors| > 0 {
        var budgets := DistributeBudget(budget, |neighbors|);
        EvenlyInTurn(neighbors, budgets[..], budget);
        sent := Send(neighbors, budgets);
      }
    }

    /** Serves a request the first time it arrives, spends one unit and shares the rest out. */
    method SearchRequestCallback(requestID: string, budget: Uint, neighbors: seq<Addr>)
      returns (served: bool, sent: seq<Request>)
      requires |neighbors| < TWO_TO_THE_64
      modifies this
      ensures served == (requestID !in old(requests))
      ensures requests == old(requests) + {requestID}
      ensures if served && Decrement(budget) > 0 && neighbors != [] then SharedOut(neighbors, Decrement(budget), sent)
              else sent == []
      ensures if served && Decrement(budget) > 0 && neighbors != [] then AskedInTurn(neighbors, Decrement(budget), sent)
              else sent == []
      ensures Allowed(served, budget, sent)
    {
      sent := [];
      if requestID in requests {
        served := false;
        return;
      }
      requests := requests + {requestID};
      served := true;
      var rest := Decrement(budget);
      if rest > 0 {
        if |neighbors| > 0 {
          var budgets := DistributeBudget(rest, |neighbors|);
          EvenlyInTurn(neighbors, budgets[..], rest);
          sent := Send(neighbors, budgets);
          SharedOutSum(neighbors, rest, sent);
        }
      }
    }
  }

  lemma {:induction false} SumOfOnes(s: seq<nat>)
    requires forall i | 0 <= i < |s| :: s[i] == 1
    ensures Sum(s) == |s|
  {
    if s != [] {
      SumOfOnes(s[..|s| - 1]);
    }
  }

  /** One search across the network: who has served it, every request ever sent for it, and which of
      those have arrived at least once.  A request may also never arrive, or arrive again. */
  datatype Search = Search(served: set<Addr>, sends: seq<Request>, arrived: set<nat>)

  /** What callback and arrival of request i do: `sent` is any list the callback may send on. */
  ghost predicate Arrive(s: Search, i: nat, sent: seq<Request>, s': Search) {
    && i < |s.sends|
    && var r := s.sends[i];
    && Allowed(r.dst !in s.served, r.budget, sent)
    && s' == Search(s.served + {r.dst}, s.sends + sent, s.arrived + {i})
  }

  /** The budget of requests that have not arrived yet. */
  function InFlight(sends: seq<Request>, arrived: set<nat>): nat {
    if sends == [] then 0
    else
      var last := |sends| - 1;
      InFlight(sends[..last], arrived) + if last in arrived then 0 else sends[last].budget
  }

  ghost predicate Inv(s: Search, total: nat) {
    && (forall i | 0 <= i < |s.sends| :: 1 <= s.sends[i].budget)
    && (forall i | i in s.arrived :: i < |s.sends| && s.sends[i].dst in s.served)
    && |s.served| + InFlight(s.sends, s.arrived) <= total
  }

  lemma {:induction false} InFlightArrive(sends: seq<Request>, arrived: set<nat>, i: nat)
    requires i < |sends|
    ensures InFlight(sends, arrived) == InFlight(sends, arrived + {i}) + if i in arrived then 0 else sends[i].budget
  {
    var last := |sends| - 1;
    if i < last {
      assert sends[..last][i] == sends[i];
      InFlightArrive(sends[..last], arrived, i);
    } else {
      InFlightLocal(sends[..last], arrived, arrived + {i});
    }
  }

  lemma {:induction false} InFlightLocal(sends: seq<Request>, a: set<nat>, b: set<nat>)
    requires forall i: nat | i < |sends| :: i in a <==> i in b
    ensures InFlight(sends, a) == InFlight(sends, b)
  {
    if sends != [] {
      InFlightLocal(sends[..|sends| - 1], a, b);
    }
  }

  lemma {:induction false} InFlightSend(sends: seq<Request>, more: seq<Request>, arrived: set<nat>)
    requires forall i | i in arrived :: i < |sends|
    ensures InFlight(sends + more, arrived) == InFlight(sends, arrived) + Sum(Budgets(more))
  {
    if more == [] {
      assert sends + more == sends;
    } else {
      var last := |more| - 1;
      assert (sends + more)[..|sends + more| - 1] == sends + more[..last];
      assert Budgets(more)[..last] == Budgets(more[..last]);
      InFlightSend(sends, more[..last], arrived);
    }
  }

  /** In flight, every request has budget left, so spending a unit never wraps; and nodes served plus
      budget in flight never grow. */
  lemma ArriveKeepsInv(s: Search, i: nat, sent: seq<Request>, s': Search, total: nat)
    requires Inv(s, total) && Arrive(s, i, sent, s')
    ensures Inv(s', total)
    ensures Decrement(s.sends[i].budget) == s.sends[i].budget - 1
  {
    InFlightArrive(s.sends, s.arrived, i);
    InFlightSend(s.sends, sent, s.arrived + {i});
    if s.sends[i].dst in s.served {
      assert s.served + {s.sends[i].dst} == s.served;
      assert s'.sends == s.sends;
    }
  }

  ghost predicate IsRun(states: seq<Search>, arrivals: seq<(nat, seq<Request>)>, initial: seq<Request>) {
    && |states| == |arrivals| + 1
    && states[0] == Search({}, initial, {})
    && forall k: nat | k < |arrivals| :: Arrive(states[k], arrivals[k].0, arrivals[k].1, states[k + 1])
  }

  lemma StartInv(initial: seq<Request>)
    requires forall r | r in initial :: 1 <= r.budget
    ensures Inv(Search({}, initial, {}), Sum(Budgets(initial)))
  {
    InFlightSend([], initial, {});
    assert [] + initial == initial;
  }

  /** In every run, nodes served plus budget in flight stay within what the origin sent. */
  lemma {:induction false} BudgetIsConserved(states: seq<Search>, arrivals: seq<(nat, seq<Request>)>,
          initial: seq<Request>, k: nat)
    requires IsRun(states, arrivals, initial) && k < |states|
    requires forall r | r in initial :: 1 <= r.budget
    ensures Inv(states[k], Sum(Budgets(initial)))
    ensures |states[k].served| <= Sum(Budgets(initial))
  {
    if k == 0 {
      StartInv(initial);
    } else {
      BudgetIsConserved(states, arrivals, initial, k - 1);
      var (i, sent) := arrivals[k - 1];
      assert Arrive(states[k - 1], i, sent, states[k]);
      ArriveKeepsInv(states[k - 1], i, sent, states[k], Sum(Budgets(initial)));
    }
  }

  /** A search whose origin shared out a total is served by at most that many nodes. */
  lemma ServedAtMost(neighbors: seq<Addr>, total: nat, initial: seq<Request>, states: seq<Search>,
          arrivals: seq<(nat, seq<Request>)>, k: nat)
    requires SharedOut(neighbors, total, initial) && IsRun(states, arrivals, initial) && k < |states|
    ensures |states[k].served| + InFlight(states[k].sends, states[k].arrived) <= total
  {
    SharedOutSum(neighbors, total, initial);
    BudgetIsConserved(states, arrivals, initial, k);
  }
}
