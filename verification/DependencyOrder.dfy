/** Ordering contracts so that each one comes after what it depends on
    (tools/deployment_tool/Contract.js, _getDependenciesCount, and
    tools/deployment_tool/ContractRegistry.js, _orderContracts). */
module DependencyOrder {
  import opened Sorting
  import opened Contracts

  /** The contracts are closed under dependencies and no dependency leads back: each one has a
      lower rank than what depends on it. */
  ghost predicate Ranked(graph: set<Contract>, rank: map<Contract, nat>)
    reads graph`linkReplacements
  {
    forall c | c in graph :: c in rank && forall d | d in c.Dependencies() :: d in graph && d in rank && rank[d] < rank[c]
  }

  ghost predicate DependencyClosed(graph: set<Contract>)
    reads graph`linkReplacements
  {
    forall c | c in graph :: forall d | d in c.Dependencies() :: d in graph
  }

  /** Each contract of the group depends on one of the group, so following dependencies inside it
      never ends and comes back somewhere. */
  ghost predicate Circular(group: set<Contract>)
    reads group`linkReplacements
  {
    group != {} && forall c | c in group :: exists d | d in group :: d in c.Dependencies()
  }

  /** The contracts up to and including a group of them have ranks below a bound. */
  ghost predicate RankedBelow(ranked: set<Contract>, rank: map<Contract, nat>, bound: nat)
    reads ranked`linkReplacements
  {
    Ranked(ranked, rank) && forall c | c in ranked :: rank[c] < bound
  }

  lemma RankOneMore(ranked: set<Contract>, rank: map<Contract, nat>, bound: nat, next: Contract)
    requires RankedBelow(ranked, rank, bound) && next !in ranked
    requires forall d | d in next.Dependencies() :: d in ranked
    ensures RankedBelow(ranked + {next}, rank[next := bound], bound + 1)
  {
    var more := rank[next := bound];
    forall c | c in ranked + {next}
      ensures c in more && more[c] <= bound
      ensures forall d | d in c.Dependencies() :: d in ranked && d in more && more[d] < more[c]
    {
    }
  }

  ghost predicate NoneCircular(graph: set<Contract>)
    reads graph`linkReplacements
  {
    forall group: set<Contract> | group <= graph :: !Circular(group)
  }

  lemma NextToRank(graph: set<Contract>, ranked: set<Contract>) returns (next: Contract)
    requires DependencyClosed(graph) && NoneCircular(graph)
    requires !(graph <= ranked)
    ensures next in graph && next !in ranked
    ensures forall d | d in next.Dependencies() :: d in ranked
  {
    var rest := graph - ranked;
    var c :| c in graph && c !in ranked;
    assert c in rest && rest <= graph;
    assert !Circular(rest);
    next :| next in rest && forall d | d in rest :: d !in next.Dependencies();
    assert forall d | d in next.Dependencies() :: d in graph;
  }

  /** Without a circular group ranks can be given one contract at a time. */
  lemma {:induction false} Ranks(graph: set<Contract>, ranked: set<Contract>, rank: map<Contract, nat>, bound: nat)
    returns (all: map<Contract, nat>)
    requires DependencyClosed(graph) && NoneCircular(graph)
    requires ranked <= graph && RankedBelow(ranked, rank, bound)
    ensures Ranked(graph, all)
    decreases graph - ranked
  {
    if graph <= ranked {
      assert graph == ranked;
      all := rank;
    } else {
      var next := NextToRank(graph, ranked);
      RankOneMore(ranked, rank, bound, next);
      all := Ranks(graph, ranked + {next}, rank[next := bound], bound + 1);
    }
  }

  lemma {:induction false} LowestRank(group: set<Contract>, rank: map<Contract, nat>) returns (lowest: Contract)
    requires group != {} && forall c | c in group :: c in rank
    ensures lowest in group && forall c | c in group :: rank[lowest] <= rank[c]
    decreases |group|
  {
    lowest :| lowest in group;
    if group != {lowest} {
      assert group - {lowest} != {};
      var other := LowestRank(group - {lowest}, rank);
      lowest := if rank[other] < rank[lowest] then other else lowest;
    }
  }

  /** There are ranks exactly if nothing is missing and no group of contracts is circular. */
  lemma RankedIffNotCircular(graph: set<Contract>)
    ensures (exists rank: map<Contract, nat> :: Ranked(graph, rank)) <==>
              DependencyClosed(graph) && NoneCircular(graph)
  {
    if rank: map<Contract, nat> :| Ranked(graph, rank) {
      forall group: set<Contract> | group <= graph
        ensures !Circular(group)
      {
        if group != {} {
          var lowest := LowestRank(group, rank);
          assert lowest in group && forall d | d in group :: d !in lowest.Dependencies();
        }
      }
    }
    if DependencyClosed(graph) && NoneCircular(graph) {
      var rank := Ranks(graph, {}, map[], 0);
    }
  }

  /** One for the contract itself and the counts of all its dependencies, each as often as it
      is one: shared dependencies are counted repeatedly. */
  function DependenciesCount(c: Contract, ghost graph: set<Contract>, ghost rank: map<Contract, nat>): nat
    requires Ranked(graph, rank) && c in graph
    reads graph`linkReplacements
    decreases rank[c], 1, 0
  {
    1 + CountAll(c.Dependencies(), graph, rank, rank[c])
  }

  function CountAll(contracts: seq<Contract>, ghost graph: set<Contract>, ghost rank: map<Contract, nat>, ghost bound: nat): nat
    requires Ranked(graph, rank) && forall c | c in contracts :: c in graph && rank[c] < bound
    reads graph`linkReplacements
    decreases bound, 0, |contracts|
  {
    if contracts == [] then 0
    else DependenciesCount(contracts[0], graph, rank) + CountAll(contracts[1..], graph, rank, bound)
  }

  lemma {:induction false} CountAllIncludes(contracts: seq<Contract>, c: Contract, graph: set<Contract>,
                                            rank: map<Contract, nat>, bound: nat)
    requires Ranked(graph, rank) && forall d | d in contracts :: d in graph && rank[d] < bound
    requires c in contracts
    ensures DependenciesCount(c, graph, rank) <= CountAll(contracts, graph, rank, bound)
    decreases |contracts|
  {
    if contracts[0] != c {
      CountAllIncludes(contracts[1..], c, graph, rank, bound);
    }
  }

  /** A contract counts strictly more than each of its dependencies. */
  lemma CountGrows(c: Contract, d: Contract, graph: set<Contract>, rank: map<Contract, nat>)
    requires Ranked(graph, rank) && c in graph && d in c.Dependencies()
    ensures DependenciesCount(d, graph, rank) < DependenciesCount(c, graph, rank)
  {
    CountAllIncludes(c.Dependencies(), d, graph, rank, rank[c]);
  }

  // ---------- What is counted ----------

  /** The contract and everything it depends on, directly or not, each once. */
  ghost function Reach(c: Contract, graph: set<Contract>, rank: map<Contract, nat>): (reach: set<Contract>)
    requires Ranked(graph, rank) && c in graph
    reads graph`linkReplacements
    ensures c in reach && reach <= graph && forall d | d in reach && d != c :: rank[d] < rank[c]
    decreases rank[c], 1, 0
  {
    {c} + ReachAll(c.Dependencies(), graph, rank, rank[c])
  }

  ghost function ReachAll(contracts: seq<Contract>, graph: set<Contract>, rank: map<Contract, nat>, bound: nat)
    : (reach: set<Contract>)
    requires Ranked(graph, rank) && forall c | c in contracts :: c in graph && rank[c] < bound
    reads graph`linkReplacements
    ensures reach <= graph && forall d | d in reach :: rank[d] < bound
    decreases bound, 0, |contracts|
  {
    if contracts == [] then {}
    else Reach(contracts[0], graph, rank) + ReachAll(contracts[1..], graph, rank, bound)
  }

  /** It is the smallest set that holds the contract and is closed under dependencies. */
  lemma ReachIsLeast(c: Contract, graph: set<Contract>, rank: map<Contract, nat>, closed: set<Contract>)
    requires Ranked(graph, rank) && c in graph
    ensures DependencyClosed(Reach(c, graph, rank))
    ensures c in closed && closed <= graph && DependencyClosed(closed) ==> Reach(c, graph, rank) <= closed
  {
    ReachClosed(c, graph, rank);
    if c in closed && closed <= graph && DependencyClosed(closed) {
      ReachWithin(c, graph, rank, closed);
    }
  }

  lemma {:induction false} ReachClosed(c: Contract, graph: set<Contract>, rank: map<Contract, nat>)
    requires Ranked(graph, rank) && c in graph
    ensures forall x | x in Reach(c, graph, rank) :: forall d | d in x.Dependencies() :: d in Reach(c, graph, rank)
    decreases rank[c], 1, 0
  {
    ReachAllClosed(c.Dependencies(), graph, rank, rank[c]);
  }

  lemma {:induction false} ReachAllClosed(contracts: seq<Contract>, graph: set<Contract>, rank: map<Contract, nat>, bound: nat)
    requires Ranked(graph, rank) && forall c | c in contracts :: c in graph && rank[c] < bound
    ensures forall c | c in contracts :: c in ReachAll(contracts, graph, rank, bound)
    ensures forall x | x in ReachAll(contracts, graph, rank, bound) ::
              forall d | d in x.Dependencies() :: d in ReachAll(contracts, graph, rank, bound)
    decreases bound, 0, |contracts|
  {
    if contracts != [] {
      ReachClosed(contracts[0], graph, rank);
      ReachAllClosed(contracts[1..], graph, rank, bound);
    }
  }

  lemma {:induction false} ReachWithin(c: Contract, graph: set<Contract>, rank: map<Contract, nat>, closed: set<Contract>)
    requires Ranked(graph, rank) && closed <= graph && DependencyClosed(closed) && c in closed
    ensures Reach(c, graph, rank) <= closed
    decreases rank[c], 1, 0
  {
    ReachAllWithin(c.Dependencies(), graph, rank, rank[c], closed);
  }

  lemma {:induction false} ReachAllWithin(contracts: seq<Contract>, graph: set<Contract>, rank: map<Contract, nat>, bound: nat,
                                          closed: set<Contract>)
    requires Ranked(graph, rank) && closed <= graph && DependencyClosed(closed)
    requires forall c | c in contracts :: c in closed && rank[c] < bound
    ensures ReachAll(contracts, graph, rank, bound) <= closed
    decreases bound, 0, |contracts|
  {
    if contracts != [] {
      ReachWithin(contracts[0], graph, rank, closed);
      ReachAllWithin(contracts[1..], graph, rank, bound, closed);
    }
  }

  /** No two of the listed contracts are the same or lead to the same contract. */
  ghost predicate Apart(contracts: seq<Contract>, graph: set<Contract>, rank: map<Contract, nat>)
    requires Ranked(graph, rank) && forall c | c in contracts :: c in graph
    reads graph`linkReplacements
  {
    forall i, j | 0 <= i < j < |contracts| :: Reach(contracts[i], graph, rank) !! Reach(contracts[j], graph, rank)
  }

  /** At no level do two dependencies share one. */
  ghost predicate NothingShared(c: Contract, graph: set<Contract>, rank: map<Contract, nat>)
    requires Ranked(graph, rank) && c in graph
    reads graph`linkReplacements
  {
    forall x | x in Reach(c, graph, rank) :: Apart(x.Dependencies(), graph, rank)
  }

  /** The count is at least the number of transitive dependencies, the contract itself included,
      and exactly that if and only if nothing is shared. */
  lemma {:induction false} CountIsReach(c: Contract, graph: set<Contract>, rank: map<Contract, nat>)
    requires Ranked(graph, rank) && c in graph
    ensures |Reach(c, graph, rank)| <= DependenciesCount(c, graph, rank)
    ensures |Reach(c, graph, rank)| == DependenciesCount(c, graph, rank) <==> NothingShared(c, graph, rank)
    decreases rank[c], 1, 0
  {
    var below := ReachAll(c.Dependencies(), graph, rank, rank[c]);
    CountAllIsReach(c.Dependencies(), graph, rank, rank[c]);
    assert Reach(c, graph, rank) == {c} + below && c !in below;
    UnionSize({c}, below);
  }

  lemma {:induction false} CountAllIsReach(contracts: seq<Contract>, graph: set<Contract>, rank: map<Contract, nat>, bound: nat)
    requires Ranked(graph, rank) && forall c | c in contracts :: c in graph && rank[c] < bound
    ensures |ReachAll(contracts, graph, rank, bound)| <= CountAll(contracts, graph, rank, bound)
    ensures |ReachAll(contracts, graph, rank, bound)| == CountAll(contracts, graph, rank, bound) <==>
              && Apart(contracts, graph, rank)
              && forall x | x in ReachAll(contracts, graph, rank, bound) :: Apart(x.Dependencies(), graph, rank)
    decreases bound, 0, |contracts|
  {
    if contracts != [] {
      var first, others := Reach(contracts[0], graph, rank), ReachAll(contracts[1..], graph, rank, bound);
      CountIsReach(contracts[0], graph, rank);
      CountAllIsReach(contracts[1..], graph, rank, bound);
      UnionSize(first, others);
      ApartOneMore(contracts, graph, rank, bound);
    }
  }

  lemma UnionSize<T>(a: set<T>, b: set<T>)
    ensures |a + b| <= |a| + |b|
    ensures |a + b| == |a| + |b| <==> a !! b
  {
    assert a + b == a + (b - a) && b == (b - a) + (a * b);
    assert |b| == |b - a| + |a * b|;
  }

  lemma ApartOneMore(contracts: seq<Contract>, graph: set<Contract>, rank: map<Contract, nat>, bound: nat)
    requires Ranked(graph, rank) && (forall c | c in contracts :: c in graph && rank[c] < bound) && contracts != []
    ensures Apart(contracts, graph, rank) <==>
              && Apart(contracts[1..], graph, rank)
              && Reach(contracts[0], graph, rank) !! ReachAll(contracts[1..], graph, rank, bound)
  {
    DisjointFromAll(Reach(contracts[0], graph, rank), contracts[1..], graph, rank, bound);
    ApartFromFirst(contracts, graph, rank);
  }

  lemma ApartFromFirst(contracts: seq<Contract>, graph: set<Contract>, rank: map<Contract, nat>)
    requires Ranked(graph, rank) && (forall c | c in contracts :: c in graph) && contracts != []
    ensures Apart(contracts, graph, rank) <==>
              && Apart(contracts[1..], graph, rank)
              && forall i | 0 <= i < |contracts| - 1 :: Reach(contracts[0], graph, rank) !! Reach(contracts[1..][i], graph, rank)
  {
    var rest := contracts[1..];
    assert forall i | 0 <= i < |rest| :: contracts[i + 1] == rest[i];
    if Apart(rest, graph, rank) && forall i | 0 <= i < |rest| :: Reach(contracts[0], graph, rank) !! Reach(rest[i], graph, rank) {
      forall i, j | 0 <= i < j < |contracts|
        ensures Reach(contracts[i], graph, rank) !! Reach(contracts[j], graph, rank)
      {
        assert contracts[j] == rest[j - 1] && (0 < i ==> contracts[i] == rest[i - 1]);
      }
    }
  }

  lemma {:induction false} DisjointFromAll(one: set<Contract>, contracts: seq<Contract>, graph: set<Contract>,
                                           rank: map<Contract, nat>, bound: nat)
    requires Ranked(graph, rank) && forall c | c in contracts :: c in graph && rank[c] < bound
    ensures one !! ReachAll(contracts, graph, rank, bound) <==>
              forall i | 0 <= i < |contracts| :: one !! Reach(contracts[i], graph, rank)
    decreases |contracts|
  {
    if contracts != [] {
      var rest := contracts[1..];
      DisjointFromAll(one, rest, graph, rank, bound);
      assert forall i | 0 <= i < |rest| :: rest[i] == contracts[i + 1];
    }
  }

  /** Whatever is shared by two dependencies makes the count too large. */
  lemma SharedIsCountedTwice(c: Contract, i: nat, j: nat, shared: Contract, graph: set<Contract>, rank: map<Contract, nat>)
    requires Ranked(graph, rank) && c in graph && i < j < |c.Dependencies()|
    requires c.Dependencies()[i] in graph && shared in Reach(c.Dependencies()[i], graph, rank)
    requires c.Dependencies()[j] in graph && shared in Reach(c.Dependencies()[j], graph, rank)
    ensures |Reach(c, graph, rank)| < DependenciesCount(c, graph, rank)
  {
    CountIsReach(c, graph, rank);
    assert !Apart(c.Dependencies(), graph, rank);
  }

  /** A library under both dependencies of a contract: four contracts are counted as five. */
  lemma FourCountedAsFive(c: Contract, a: Contract, b: Contract, shared: Contract, graph: set<Contract>, rank: map<Contract, nat>)
    requires Ranked(graph, rank) && c in graph && c.Dependencies() == [a, b] && a != b
    requires a.Dependencies() == [shared] && b.Dependencies() == [shared] && shared.Dependencies() == []
    ensures Reach(c, graph, rank) == {c, a, b, shared} && |{c, a, b, shared}| == 4
    ensures DependenciesCount(c, graph, rank) == 5
  {
    var deps := c.Dependencies();
    assert deps[0] == a && deps[1] == b && a in deps && b in deps;
    DiamondRanks(c, a, b, shared, graph, rank);
    OneDependency(a, shared, graph, rank);
    OneDependency(b, shared, graph, rank);
    TwoDependencies(a, b, graph, rank, rank[c]);
    FourDifferent(c, a, b, shared);
  }

  lemma DiamondRanks(c: Contract, a: Contract, b: Contract, shared: Contract, graph: set<Contract>, rank: map<Contract, nat>)
    requires Ranked(graph, rank) && c in graph && a in c.Dependencies() && b in c.Dependencies()
    requires a.Dependencies() == [shared] && b.Dependencies() == [shared]
    ensures c != a && c != b && c != shared && a != shared && b != shared
  {
    assert shared in a.Dependencies() && shared in b.Dependencies();
  }

  lemma FourDifferent<T>(a: T, b: T, c: T, d: T)
    requires a != b && a != c && a != d && b != c && b != d && c != d
    ensures |{a, b, c, d}| == 4
  {
  }

  lemma TwoDependencies(a: Contract, b: Contract, graph: set<Contract>, rank: map<Contract, nat>, bound: nat)
    requires Ranked(graph, rank) && a in graph && b in graph && rank[a] < bound && rank[b] < bound
    ensures CountAll([a, b], graph, rank, bound) == DependenciesCount(a, graph, rank) + DependenciesCount(b, graph, rank)
    ensures ReachAll([a, b], graph, rank, bound) == Reach(a, graph, rank) + Reach(b, graph, rank)
  {
    var both, second := [a, b], [b];
    assert both[1..] == second && second[1..] == [];
    assert CountAll(second, graph, rank, bound) == DependenciesCount(b, graph, rank);
    assert ReachAll(second, graph, rank, bound) == Reach(b, graph, rank);
  }

  lemma OneDependency(a: Contract, d: Contract, graph: set<Contract>, rank: map<Contract, nat>)
    requires Ranked(graph, rank) && a in graph && a.Dependencies() == [d] && d.Dependencies() == []
    ensures d in graph && DependenciesCount(a, graph, rank) == 2 && Reach(a, graph, rank) == {a, d}
  {
    assert d in a.Dependencies();
    var one := [d];
    assert one[1..] == [];
    var none: seq<Contract> := [];
    assert CountAll(none, graph, rank, rank[d]) == 0 && ReachAll(none, graph, rank, rank[d]) == {};
    assert DependenciesCount(d, graph, rank) == 1 + CountAll(none, graph, rank, rank[d]);
    assert Reach(d, graph, rank) == {d} + ReachAll(none, graph, rank, rank[d]);
    assert CountAll(none, graph, rank, rank[a]) == 0 && ReachAll(none, graph, rank, rank[a]) == {};
    assert ReachAll(one, graph, rank, rank[a]) == Reach(d, graph, rank) + ReachAll(none, graph, rank, rank[a]);
    assert CountAll(one, graph, rank, rank[a]) == 1 && ReachAll(one, graph, rank, rank[a]) == {d};
  }

  ghost function Counts(graph: set<Contract>, rank: map<Contract, nat>): (counts: map<Contract, nat>)
    requires Ranked(graph, rank)
    reads graph`linkReplacements
    ensures counts.Keys == graph
  {
    map c | c in graph :: DependenciesCount(c, graph, rank)
  }

  /** The same contracts, from the lowest count to the highest. */
  ghost predicate Ordered(order: seq<Contract>, contracts: seq<Contract>, counts: map<Contract, nat>)
    requires forall c | c in contracts :: c in counts
  {
    && multiset(order) == multiset(contracts)
    && (forall c | c in order :: c in contracts)
    && forall i, j | 0 <= i < j < |order| :: counts[order[i]] <= counts[order[j]]
  }

  /** In such an order every registered dependency of a contract is found before it. */
  lemma OrderedIsTopological(order: seq<Contract>, contracts: seq<Contract>, graph: set<Contract>, rank: map<Contract, nat>)
    requires Ranked(graph, rank) && forall c | c in contracts :: c in graph
    requires Ordered(order, contracts, Counts(graph, rank))
    ensures forall i, d | 0 <= i < |order| && d in order[i].Dependencies() && d in contracts :: d in order[..i]
  {
    Rearranged(contracts, order);
    var counts := Counts(graph, rank);
    forall i, d | 0 <= i < |order| && d in order[i].Dependencies() && d in contracts
      ensures d in order[..i]
    {
      assert order[i] in order;
      CountGrows(order[i], d, graph, rank);
      SmallerIsEarlier(order, contracts, counts, i, d);
    }
  }

  lemma SmallerIsEarlier(order: seq<Contract>, contracts: seq<Contract>, counts: map<Contract, nat>, i: nat, d: Contract)
    requires (forall c | c in contracts :: c in counts) && Ordered(order, contracts, counts)
    requires i < |order| && order[i] in counts && d in order && d in counts && counts[d] < counts[order[i]]
    ensures d in order[..i]
  {
    var j :| 0 <= j < |order| && order[j] == d;
    assert j < i;
    assert order[..i][j] == d;
  }

  /** Sorts by the counts. */
  method Order(contracts: seq<Contract>, ghost graph: set<Contract>, ghost rank: map<Contract, nat>)
    returns (order: seq<Contract>)
    requires Ranked(graph, rank) && forall c | c in contracts :: c in graph
    ensures Ordered(order, contracts, Counts(graph, rank))
  {
    var counts := map c | c in contracts :: DependenciesCount(c, graph, rank);
    var key := (c: Contract) requires c in counts => counts[c];
    order := SortBy(contracts, key);
    Sorted(contracts, key);
  }
}
