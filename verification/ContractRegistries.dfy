/** Planning the deployment of registered contracts
    (tools/deployment_tool/ContractRegistry.js). */
module ContractRegistries {
  import opened Results
  import opened Bytes
  import opened Sorting
  import opened AddressGenerators
  import opened Contracts
  import opened DependencyOrder
  import opened Planning

  datatype PlanError = NoFromAddress | NoStartingNonce | ContractError(error: Contracts.Error)

  datatype TransactionObject = TransactionObject(from: string, data: string, nonce: nat)

  datatype DeploymentObject = DeploymentObject(transactionObject: TransactionObject, address: string, contractName: string)

  datatype GenesisAccount = GenesisAccount(balance: string, constructorData: string)

  /** An object with accounts as properties: their values, and the order in which they were first set. */
  datatype AccountTable = AccountTable(keys: seq<string>, accounts: map<string, GenesisAccount>) {
    function Set(address: string, account: GenesisAccount): AccountTable {
      AccountTable(if address in accounts then keys else keys + [address], accounts[address := account])
    }
  }

  /** A contract, now, is as captured before, but for its assigned address and, when it is done,
      for what instantiating it changed. */
  ghost predicate AsCapturedOne(now: Info, infos: Infos, addresses: map<Contract, string>, c: Contract, done: bool,
                                encoder: AbiEncoder)
    requires ClosedIn(infos) && c in infos
  {
    && now.links == infos[c].links
    && now.address == (if c in addresses then Some(addresses[c]) else infos[c].address)
    && if done then now.state == StateInstantiated && now.data == DataIn(encoder, infos, addresses, c)
       else now.state == infos[c].state && now.bytecode == infos[c].bytecode
  }

  ghost predicate AsCaptured(now: Infos, infos: Infos, addresses: map<Contract, string>, done: seq<Contract>,
                             encoder: AbiEncoder)
    requires ClosedIn(infos)
  {
    now.Keys == infos.Keys && forall c | c in infos :: AsCapturedOne(now[c], infos, addresses, c, c in done, encoder)
  }

  lemma LinksCaptured(graph: set<Contract>, now: Infos, infos: Infos, addresses: map<Contract, string>, done: seq<Contract>,
                      encoder: AbiEncoder, contracts: seq<Contract>)
    requires Holding(graph, now) && ClosedIn(infos) && AsCaptured(now, infos, addresses, done, encoder)
    requires forall c | c in contracts :: c in graph
    ensures LinksTo(contracts, map[]) == LinksIn(infos, addresses, contracts)
  {
    var links := LinksTo(contracts, map[]);
    forall i | 0 <= i < |contracts|
      ensures links[i] == LinksIn(infos, addresses, contracts)[i]
    {
      assert contracts[i] in contracts;
    }
  }

  lemma {:induction false} ValuesCaptured(graph: set<Contract>, now: Infos, infos: Infos, addresses: map<Contract, string>,
                                          done: seq<Contract>, encoder: AbiEncoder, args: seq<Argument>)
    requires Holding(graph, now) && ClosedIn(infos) && AsCaptured(now, infos, addresses, done, encoder)
    requires forall c | c in Targets(args) :: c in graph
    ensures Dereferenced(args, map[]) == ValuesIn(infos, addresses, args)
  {
    if args != [] {
      assert args[0] in args;
      ValuesCaptured(graph, now, infos, addresses, done, encoder, args[1..]);
    }
  }

  lemma DependenciesUsable(graph: set<Contract>, now: Infos, infos: Infos, addresses: map<Contract, string>,
                           order: seq<Contract>, i: nat, encoder: AbiEncoder)
    requires i < |order| && Holding(graph, now) && ClosedIn(infos)
    requires AsCaptured(now, infos, addresses, order[..i], encoder)
    requires forall c | c in order :: c in graph && c in addresses && infos[c].state != StateInstantiated
    requires forall c | c in addresses :: c in order
    ensures order[i].linkReplacements == infos[order[i]].links
    ensures forall d | d in DependenciesIn(infos, order[i]) :: d in graph
    ensures (forall d | d in DependenciesIn(infos, order[i]) :: d in order[..i] || UsableIn(infos, d)) <==>
            && (forall d | d in order[i].ReferenceTargets() :: Usable(d))
            && (forall d | d in order[i].linkReplacements :: Usable(d))
  {
    var c := order[i];
    assert c in order;
    forall d | d in DependenciesIn(infos, c)
      ensures Usable(d) <==> d in order[..i] || UsableIn(infos, d)
    {
      if d in order[..i] {
        assert d in order;
      }
    }
    assert forall d :: d in DependenciesIn(infos, c) <==> d in c.ReferenceTargets() || d in c.linkReplacements;
  }

  /** Whether the next contract can be instantiated follows from what was captured. */
  lemma StepCaptured(graph: set<Contract>, now: Infos, infos: Infos, addresses: map<Contract, string>,
                     order: seq<Contract>, i: nat, encoder: AbiEncoder)
    requires i < |order| && Holding(graph, now) && ClosedIn(infos)
    requires AsCaptured(now, infos, addresses, order[..i], encoder)
    requires forall c | c in order :: c in graph && c in addresses && infos[c].state != StateInstantiated
    requires forall c | c in addresses :: c in order
    ensures order[i].Instantiable() <==> StepIn(infos, addresses, order, i)
  {
    var c := order[i];
    DependenciesUsable(graph, now, infos, addresses, order, i, encoder);
    assert forall d | d in infos[c].links :: d in DependenciesIn(infos, c);
    LinksCaptured(graph, now, infos, addresses, order[..i], encoder, infos[c].links);
  }

  /** And so do its data. */
  lemma DataCaptured(graph: set<Contract>, now: Infos, infos: Infos, addresses: map<Contract, string>,
                     done: seq<Contract>, c: Contract, encoder: AbiEncoder)
    requires Holding(graph, now) && ClosedIn(infos)
    requires AsCaptured(now, infos, addresses, done, encoder)
    requires c in graph && c !in done
    ensures c.Data(encoder, map[]) == DataIn(encoder, infos, addresses, c)
  {
    assert forall d | d in infos[c].links :: d in DependenciesIn(infos, c);
    LinksCaptured(graph, now, infos, addresses, done, encoder, infos[c].links);
    if c.constructorArgs.Some? {
      assert forall d | d in Targets(c.constructorArgs.value) :: d in c.References();
      ValuesCaptured(graph, now, infos, addresses, done, encoder, c.constructorArgs.value);
    }
  }

  lemma AddressAssigned(now: Infos, next: Infos, infos: Infos, order: seq<Contract>, upcoming: Upcoming, i: nat,
                        encoder: AbiEncoder)
    requires i < |order| && upcoming.Valid() && ClosedIn(infos) && forall c | c in order :: c in infos
    requires AsCaptured(now, infos, Assigned(infos, order[..i], upcoming), [], encoder)
    requires next == if HasAddressIn(now, order[i]) then now
                     else now[order[i] := now[order[i]].(address := Some(upcoming.At(Drawn(infos, order[..i]))))]
    ensures AsCaptured(next, infos, Assigned(infos, order[..i + 1], upcoming), [], encoder)
    ensures Drawn(infos, order[..i + 1]) == Drawn(infos, order[..i]) + if HasAddressIn(now, order[i]) then 0 else 1
  {
    AssignedOneMore(infos, order, upcoming, i);
    AssignedKeys(infos, order[..i], upcoming);
    AssignedNotEmpty(infos, order[..i], upcoming);
    var before, after := Assigned(infos, order[..i], upcoming), Assigned(infos, order[..i + 1], upcoming);
    assert AsCapturedOne(now[order[i]], infos, before, order[i], false, encoder);
    forall c | c in infos
      ensures AsCapturedOne(next[c], infos, after, c, false, encoder)
    {
      assert AsCapturedOne(now[c], infos, before, c, false, encoder);
    }
  }

  /** The state of the pass when the first i contracts have their addresses. */
  ghost predicate Assigning(now: Infos, left: Upcoming, infos: Infos, order: seq<Contract>, upcoming: Upcoming, i: nat,
                            encoder: AbiEncoder)
    requires i <= |order| && upcoming.Valid() && ClosedIn(infos) && forall c | c in order :: c in infos
  {
    && AsCaptured(now, infos, Assigned(infos, order[..i], upcoming), [], encoder)
    && left == upcoming.After(Drawn(infos, order[..i]))
  }

  lemma NextAssigned(now: Infos, left: Upcoming, infos: Infos, order: seq<Contract>, upcoming: Upcoming, i: nat,
                     encoder: AbiEncoder)
    requires i < |order| && upcoming.Valid() && ClosedIn(infos) && forall c | c in order :: c in infos
    requires Assigning(now, left, infos, order, upcoming, i, encoder)
    ensures order[i] in infos && order[i] in now && now[order[i]].state == infos[order[i]].state
  {
    assert AsCapturedOne(now[order[i]], infos, Assigned(infos, order[..i], upcoming), order[i], false, encoder);
  }

  /** One round keeps it. */
  lemma RoundAssigned(now: Infos, next: Infos, left: Upcoming, after: Upcoming, infos: Infos, order: seq<Contract>,
                      upcoming: Upcoming, i: nat, encoder: AbiEncoder)
    requires i < |order| && upcoming.Valid() && ClosedIn(infos) && forall c | c in order :: c in infos
    requires Assigning(now, left, infos, order, upcoming, i, encoder)
    requires order[i] in now && left.Valid()
    requires if HasAddressIn(now, order[i]) then next == now && after == left
             else next == now[order[i] := now[order[i]].(address := Some(left.At(0)))] && after == left.After(1)
    ensures Assigning(next, after, infos, order, upcoming, i + 1, encoder)
  {
    AfterOneMore(upcoming, Drawn(infos, order[..i]));
    AddressAssigned(now, next, infos, order, upcoming, i, encoder);
  }

  lemma {:induction false} AssignedNotEmpty(infos: Infos, order: seq<Contract>, upcoming: Upcoming)
    requires upcoming.Valid() && forall c | c in order :: c in infos
    ensures forall c | c in Assigned(infos, order, upcoming) :: Assigned(infos, order, upcoming)[c] != ""
  {
    if order != [] {
      AssignedNotEmpty(infos, order[..|order| - 1], upcoming);
    }
  }

  predicate NoneInstantiated(infos: Infos, order: seq<Contract>, n: nat)
    requires n <= |order| && forall c | c in order :: c in infos
  {
    forall i | 0 <= i < n :: assert order[i] in order; infos[order[i]].state != StateInstantiated
  }

  lemma NoneInstantiatedOneMore(infos: Infos, order: seq<Contract>, n: nat)
    requires n < |order| && forall c | c in order :: c in infos
    ensures order[n] in order
    ensures NoneInstantiated(infos, order, n + 1) <==>
              NoneInstantiated(infos, order, n) && infos[order[n]].state != StateInstantiated
    ensures NoneInstantiated(infos, order, |order|) ==> NoneInstantiated(infos, order, n + 1)
  {
  }

  /** It holds to begin with, and in the end every contract has the address of the plan. */
  lemma AssigningEnds(now: Infos, left: Upcoming, infos: Infos, order: seq<Contract>, upcoming: Upcoming, encoder: AbiEncoder)
    requires upcoming.Valid() && ClosedIn(infos) && forall c | c in order :: c in infos
    ensures Assigning(infos, upcoming, infos, order, upcoming, 0, encoder)
    ensures Assigning(now, left, infos, order, upcoming, |order|, encoder) ==>
              AsCaptured(now, infos, Assigned(infos, order, upcoming), [], encoder)
  {
    assert order[..|order|] == order;
  }

  /** One round: what it changes among all the contracts. */
  method AssignAddress(c: Contract, addressGenerator: AddressGenerator, ghost graph: set<Contract>, ghost now: Infos)
    returns (r: Result<string, Contracts.Error>, ghost next: Infos)
    requires Holding(graph, now) && c in graph
    requires addressGenerator.Left().Valid() && forall d | d in graph :: addressGenerator.Repr() != d
    modifies {c}`address, addressGenerator.Repr()
    ensures r.Success? <==> now[c].state != StateInstantiated
    ensures r.Success? ==> Holding(graph, next)
    ensures r.Success? ==>
              var left := old(addressGenerator.Left());
              if HasAddressIn(now, c) then next == now && addressGenerator.Left() == left
              else next == now[c := now[c].(address := Some(left.At(0)))] && addressGenerator.Left() == left.After(1)
  {
    assert now[c] == InfoOf(c);
    r := c.SetGeneratedAddress(Some(addressGenerator));
    next := now[c := now[c].(address := c.address)];
    assert HasAddressIn(now, c) ==> next == now;
  }

  /** The pass over the ordered contracts that gives each one its address. */
  method AssignAddresses(ghost registered: seq<Contract>, order: seq<Contract>, addressGenerator: AddressGenerator,
                         ghost graph: set<Contract>, ghost infos: Infos, ghost encoder: AbiEncoder)
    returns (r: Result<(), Contracts.Error>, ghost next: Infos)
    requires Holding(graph, infos) && ClosedIn(infos) && forall c | c in order :: c in graph
    requires addressGenerator.Left().Valid() && forall c | c in graph :: addressGenerator.Repr() != c
    requires forall c | c in order :: c in registered
    modifies registered`address, addressGenerator.Repr()
    ensures r.Success? <==> NoneInstantiated(infos, order, |order|)
    ensures r.Success? ==>
              && Holding(graph, next)
              && AsCaptured(next, infos, Assigned(infos, order, old(addressGenerator.Left())), [], encoder)
  {
    ghost var upcoming := addressGenerator.Left();
    ghost var now := infos;
    next := infos;
    AssigningEnds(now, upcoming, infos, order, upcoming, encoder);
    for i := 0 to |order|
      invariant Holding(graph, now)
      invariant NoneInstantiated(infos, order, i)
      invariant Assigning(now, addressGenerator.Left(), infos, order, upcoming, i, encoder)
    {
      NoneInstantiatedOneMore(infos, order, i);
      assert order[i] in registered;
      ghost var left := addressGenerator.Left();
      NextAssigned(now, left, infos, order, upcoming, i, encoder);
      var given;
      given, next := AssignAddress(order[i], addressGenerator, graph, now);
      if given.Failure? {
        return Failure(given.error), next;
      }
      RoundAssigned(now, next, left, addressGenerator.Left(), infos, order, upcoming, i, encoder);
      now := next;
    }
    AssigningEnds(now, addressGenerator.Left(), infos, order, upcoming, encoder);
    r, next := Success(()), now;
  }

  lemma Instantiated(now: Infos, next: Infos, infos: Infos, addresses: map<Contract, string>, order: seq<Contract>, i: nat,
                     encoder: AbiEncoder)
    requires i < |order| && order[i] in infos && ClosedIn(infos)
    requires AsCaptured(now, infos, addresses, order[..i], encoder)
    requires next.Keys == now.Keys && forall c | c in now && c != order[i] :: next[c] == now[c]
    requires next[order[i]].state == StateInstantiated && next[order[i]].data == DataIn(encoder, infos, addresses, order[i])
    requires next[order[i]].address == now[order[i]].address && next[order[i]].links == now[order[i]].links
    ensures AsCaptured(next, infos, addresses, order[..i + 1], encoder)
  {
    forall c | c in infos
      ensures AsCapturedOne(next[c], infos, addresses, c, c in order[..i + 1], encoder)
    {
      assert AsCapturedOne(now[c], infos, addresses, c, c in order[..i], encoder);
      PrefixMember(order, i, c);
    }
  }

  lemma PrefixMember(order: seq<Contract>, i: nat, c: Contract)
    requires i < |order|
    ensures c in order[..i + 1] <==> c in order[..i] || c == order[i]
  {
    assert order[..i + 1] == order[..i] + [order[i]];
  }

  method InstantiateNext(order: seq<Contract>, i: nat, encoder: AbiEncoder, ghost graph: set<Contract>, ghost now: Infos,
                         ghost infos: Infos, ghost addresses: map<Contract, string>)
    returns (r: Result<string, Contracts.Error>, ghost next: Infos)
    requires i < |order| && Holding(graph, now) && ClosedIn(infos)
    requires AsCaptured(now, infos, addresses, order[..i], encoder)
    requires forall c | c in order :: c in graph && c in addresses && infos[c].state != StateInstantiated
    requires forall c | c in addresses :: c in order
    modifies {order[i]}`state, {order[i]}`contractBytecode, {order[i]}`constructorData
    ensures r.Success? <==> StepIn(infos, addresses, order, i)
    ensures r.Success? ==> Holding(graph, next) && AsCaptured(next, infos, addresses, order[..i + 1], encoder)
  {
    var c := order[i];
    StepCaptured(graph, now, infos, addresses, order, i, encoder);
    if c !in order[..i] {
      DataCaptured(graph, now, infos, addresses, order[..i], c, encoder);
    }
    r := c.Instantiate(encoder);
    next := now;
    if r.Success? {
      next := now[c := InfoOf(c)];
      Instantiated(now, next, infos, addresses, order, i, encoder);
    }
  }

  predicate StepsBefore(infos: Infos, addresses: map<Contract, string>, order: seq<Contract>, n: nat)
    requires n <= |order| && ClosedIn(infos) && forall c | c in order :: c in infos
  {
    forall i | 0 <= i < n :: StepIn(infos, addresses, order, i)
  }

  lemma StepsOneMore(infos: Infos, addresses: map<Contract, string>, order: seq<Contract>, n: nat)
    requires n < |order| && ClosedIn(infos) && forall c | c in order :: c in infos
    ensures StepsBefore(infos, addresses, order, n + 1) <==>
              StepsBefore(infos, addresses, order, n) && StepIn(infos, addresses, order, n)
    ensures Steps(infos, addresses, order) ==> StepIn(infos, addresses, order, n)
  {
  }

  /** The pass that instantiates the ordered contracts, each after the ones before it. */
  method InstantiateAll(ghost registered: seq<Contract>, order: seq<Contract>, encoder: AbiEncoder,
                        ghost graph: set<Contract>, ghost captured: Infos, ghost infos: Infos,
                        ghost addresses: map<Contract, string>)
    returns (r: Result<(), Contracts.Error>, ghost next: Infos)
    requires Holding(graph, captured) && ClosedIn(infos) && AsCaptured(captured, infos, addresses, [], encoder)
    requires forall c | c in order :: c in graph && c in addresses && infos[c].state != StateInstantiated
    requires forall c | c in addresses :: c in order
    requires forall c | c in order :: c in registered
    modifies registered`state, registered`contractBytecode, registered`constructorData
    ensures r.Success? <==> Steps(infos, addresses, order)
    ensures r.Success? ==> Holding(graph, next) && AsCaptured(next, infos, addresses, order, encoder)
  {
    next := captured;
    for i := 0 to |order|
      invariant Holding(graph, next)
      invariant AsCaptured(next, infos, addresses, order[..i], encoder)
      invariant StepsBefore(infos, addresses, order, i)
    {
      assert order[i] in order && order[i] in registered;
      StepsOneMore(infos, addresses, order, i);
      var instantiated;
      instantiated, next := InstantiateNext(order, i, encoder, graph, next, infos, addresses);
      if instantiated.Failure? {
        return Failure(instantiated.error), next;
      }
    }
    assert order[..|order|] == order;
    r := Success(());
  }

  lemma GeneratorsAreNoContracts(addressGenerator: AddressGenerator, graph: set<Contract>)
    ensures forall c | c in graph :: addressGenerator.Repr() != c
  {
  }

  /** Planning succeeds with these addresses. */
  ghost predicate Plannable(infos: Infos, addresses: map<Contract, string>, contracts: seq<Contract>)
    requires ClosedIn(infos) && forall c | c in contracts :: c in infos
  {
    Registrable(infos, contracts) && AllLinked(infos, addresses, contracts)
  }

  lemma RankedIsClosed(graph: set<Contract>, rank: map<Contract, nat>, infos: Infos)
    requires Ranked(graph, rank) && Holding(graph, infos)
    ensures ClosedIn(infos)
    ensures forall c | c in graph :: DependenciesIn(infos, c) == c.Dependencies()
  {
    forall c | c in graph
      ensures DependenciesIn(infos, c) == c.Dependencies()
    {
      assert infos[c] == InfoOf(c);
    }
  }

  /** In sorted order, all steps succeed exactly if the registered contracts can be planned. */
  lemma OrderedSteps(order: seq<Contract>, contracts: seq<Contract>, graph: set<Contract>, rank: map<Contract, nat>, infos: Infos,
                     addresses: map<Contract, string>)
    requires Ranked(graph, rank) && Holding(graph, infos) && ClosedIn(infos) && forall c | c in contracts :: c in graph
    requires Ordered(order, contracts, Counts(graph, rank))
    ensures Steps(infos, addresses, order) <==> Plannable(infos, addresses, contracts)
    ensures Distinct(contracts) <==> Distinct(order)
    ensures (forall c | c in order :: c in infos) && Topological(infos, order)
  {
    OrderedIsTopological(order, contracts, graph, rank);
    Rearranged(contracts, order);
    RankedIsClosed(graph, rank, infos);
    forall i, d | 0 <= i < |order| && d in DependenciesIn(infos, order[i]) && d in order
      ensures d in order[..i]
    {
      assert order[i] in order;
      assert d in order[i].Dependencies();
    }
    StepsIffRegistrable(infos, addresses, contracts, order);
  }

  /** What a contract of a successful plan holds in the end. */
  ghost predicate Planned(c: Contract, encoder: AbiEncoder, infos: Infos, addresses: map<Contract, string>)
    requires ClosedIn(infos) && c in infos
    reads c
  {
    && c in addresses
    && c.state == StateInstantiated
    && c.address == Some(addresses[c])
    && c.constructorData == DataIn(encoder, infos, addresses, c)
  }

  lemma CapturedIsPlanned(graph: set<Contract>, now: Infos, infos: Infos, addresses: map<Contract, string>, order: seq<Contract>,
                          encoder: AbiEncoder)
    requires Holding(graph, now) && ClosedIn(infos) && AsCaptured(now, infos, addresses, order, encoder)
    requires forall c | c in order :: c in addresses && c in graph
    ensures forall c | c in order :: Planned(c, encoder, infos, addresses)
  {
    forall c | c in order
      ensures Planned(c, encoder, infos, addresses)
    {
      assert AsCapturedOne(now[c], infos, addresses, c, c in order, encoder);
      assert now[c] == InfoOf(c);
    }
  }

  lemma StepsAreNew(infos: Infos, addresses: map<Contract, string>, order: seq<Contract>)
    requires ClosedIn(infos) && forall c | c in order :: c in infos
    ensures Steps(infos, addresses, order) ==> NoneInstantiated(infos, order, |order|)
    ensures NoneInstantiated(infos, order, |order|) ==> forall c | c in order :: infos[c].state != StateInstantiated
  {
    if Steps(infos, addresses, order) {
      forall i | 0 <= i < |order|
        ensures infos[order[i]].state != StateInstantiated
      {
        assert StepIn(infos, addresses, order, i);
      }
    }
  }

  /** The two passes over ordered contracts. */
  method CarryOut(ghost registered: seq<Contract>, order: seq<Contract>, addressGenerator: AddressGenerator,
                  encoder: AbiEncoder, ghost graph: set<Contract>, ghost infos: Infos, ghost upcoming: Upcoming)
    returns (r: Result<(), Contracts.Error>)
    requires Holding(graph, infos) && ClosedIn(infos) && forall c | c in order :: c in graph
    requires upcoming == addressGenerator.Left() && upcoming.Valid()
    requires forall c | c in order :: c in registered
    modifies registered`address, registered`state, registered`contractBytecode, registered`constructorData
    modifies addressGenerator.Repr()
    ensures r.Success? <==> Steps(infos, Assigned(infos, order, upcoming), order)
    ensures r.Success? ==> forall c | c in order :: Planned(c, encoder, infos, Assigned(infos, order, upcoming))
  {
    ghost var addresses := Assigned(infos, order, upcoming);
    AssignedKeys(infos, order, upcoming);
    StepsAreNew(infos, addresses, order);
    GeneratorsAreNoContracts(addressGenerator, graph);
    var given, now := AssignAddresses(registered, order, addressGenerator, graph, infos, encoder);
    if given.Failure? {
      return Failure(given.error);
    }
    var instantiated, done := InstantiateAll(registered, order, encoder, graph, now, infos, addresses);
    if instantiated.Failure? {
      return Failure(instantiated.error);
    }
    CapturedIsPlanned(graph, done, infos, addresses, order, encoder);
    r := Success(());
  }

  /** The same, once the order is known to be the sorted one. */
  method CarryOutSorted(ghost registered: seq<Contract>, order: seq<Contract>, addressGenerator: AddressGenerator,
                        encoder: AbiEncoder, ghost graph: set<Contract>, ghost rank: map<Contract, nat>, ghost infos: Infos,
                        ghost upcoming: Upcoming)
    returns (r: Result<(), Contracts.Error>)
    requires Ranked(graph, rank) && (forall c | c in registered :: c in graph)
    requires Ordered(order, registered, Counts(graph, rank))
    requires Holding(graph, infos) && ClosedIn(infos)
    requires upcoming == addressGenerator.Left() && upcoming.Valid()
    modifies registered`address, registered`state, registered`contractBytecode, registered`constructorData
    modifies addressGenerator.Repr()
    ensures (forall c | c in order :: c in infos) && Topological(infos, order)
    ensures r.Success? <==> Plannable(infos, Assigned(infos, order, upcoming), registered)
    ensures r.Success? ==> Distinct(order)
    ensures r.Success? ==> forall c | c in order :: Planned(c, encoder, infos, Assigned(infos, order, upcoming))
  {
    OrderedSteps(order, registered, graph, rank, infos, Assigned(infos, order, upcoming));
    r := CarryOut(registered, order, addressGenerator, encoder, graph, infos, upcoming);
  }

  class ContractRegistry {
    var contracts: seq<Contract>

    constructor ()
      ensures contracts == []
    {
      contracts := [];
    }

    method AddContract(contract: Contract)
      modifies this
      ensures contracts == old(contracts) + [contract]
    {
      contracts := contracts + [contract];
    }

    method AddContracts(added: seq<Contract>)
      modifies this
      ensures contracts == old(contracts) + added
    {
      for i := 0 to |added|
        invariant contracts == old(contracts) + added[..i]
      {
        AddContract(added[i]);
      }
    }

    method OrderContracts(ghost graph: set<Contract>, ghost rank: map<Contract, nat>)
      requires Ranked(graph, rank) && forall c | c in contracts :: c in graph
      modifies this`contracts
      ensures Ordered(contracts, old(contracts), old(Counts(graph, rank)))
    {
      contracts := Order(contracts, graph, rank);
    }

    /** The passes both kinds of plan begin with. The result depends on the contracts as they
        were before (`infos`) and on the addresses the generator had left (`upcoming`). */
    method PlanContracts(addressGenerator: AddressGenerator, encoder: AbiEncoder, ghost graph: set<Contract>,
                         ghost rank: map<Contract, nat>, ghost infos: Infos, ghost upcoming: Upcoming)
      returns (r: Result<(), Contracts.Error>)
      requires Ranked(graph, rank) && (forall c | c in contracts :: c in graph)
      requires Holding(graph, infos) && ClosedIn(infos)
      requires upcoming == addressGenerator.Left() && upcoming.Valid()
      modifies this`contracts, contracts`address, contracts`state, contracts`contractBytecode, contracts`constructorData
      modifies addressGenerator.Repr()
      ensures Ordered(contracts, old(contracts), old(Counts(graph, rank)))
      ensures (forall c | c in contracts :: c in infos) && Topological(infos, contracts)
      ensures r.Success? <==> Plannable(infos, Assigned(infos, contracts, upcoming), old(contracts))
      ensures r.Success? ==> Distinct(contracts)
      ensures r.Success? ==> forall c | c in contracts :: Planned(c, encoder, infos, Assigned(infos, contracts, upcoming))
    {
      ghost var registered := contracts;
      OrderContracts(graph, rank);
      var order := contracts;
      r := CarryOutSorted(registered, order, addressGenerator, encoder, graph, rank, infos, upcoming);
    }

    /** The accounts section of a Parity chain specification, or the first error. */
    method ToParityGenesisAccounts(addressGenerator: Option<AddressGenerator>, encoder: AbiEncoder,
                                   ghost graph: set<Contract>, ghost rank: map<Contract, nat>, ghost infos: Infos)
      returns (r: Result<AccountTable, PlanError>)
      requires Ranked(graph, rank) && (forall c | c in contracts :: c in graph)
      requires Holding(graph, infos) && ClosedIn(infos)
      requires addressGenerator.Some? ==> addressGenerator.value.Left().Valid()
      modifies this`contracts, contracts`address, contracts`state, contracts`contractBytecode, contracts`constructorData
      modifies if addressGenerator.Some? then {addressGenerator.value.Repr()} else {}
      ensures Ordered(contracts, old(contracts), old(Counts(graph, rank)))
      ensures (forall c | c in contracts :: c in infos) && Topological(infos, contracts)
      ensures r.Failure? ==> r.error.ContractError?
      ensures var upcoming := if addressGenerator.Some? then old(addressGenerator.value.Left()) else DefaultAddresses();
              var addresses := Assigned(infos, contracts, upcoming);
              && (r.Success? <==> Plannable(infos, addresses, old(contracts)))
              && (r.Success? ==>
                    && Distinct(contracts)
                    && (forall c | c in contracts :: c in addresses && Planned(c, encoder, infos, addresses))
                    && r.value == Accounts(encoder, infos, addresses, contracts))
      ensures r.Success? ==> AccountsOf(contracts, r.value)
    {
      var generator: AddressGenerator;
      if addressGenerator.Some? {
        generator := addressGenerator.value;
      } else {
        var incrementing := new IncrementingAddressGenerator(DefaultAddresses().first);
        generator := Genesis(incrementing);
      }
      ghost var upcoming := generator.Left();
      var planned := PlanContracts(generator, encoder, graph, rank, infos, upcoming);
      if planned.Failure? {
        return Failure(ContractError(planned.error));
      }
      var order := contracts;
      ghost var addresses := Assigned(infos, order, upcoming);
      assert forall c | c in order :: Planned(c, encoder, infos, addresses);
      var accounts := CollectAccounts(order, encoder, infos, addresses);
      AccountsArePlanned(order, encoder, infos, addresses);
      r := Success(accounts);
    }

    /** Transactions for a running network, or the first error. */
    method ToLiveTransactionObjects(h: Hash, encoder: AbiEncoder, fromAddress: Option<string>, startingNonce: Option<nat>,
                                    ghost graph: set<Contract>, ghost rank: map<Contract, nat>, ghost infos: Infos)
      returns (r: Result<seq<DeploymentObject>, PlanError>)
      requires Ranked(graph, rank) && (forall c | c in contracts :: c in graph)
      requires Holding(graph, infos) && ClosedIn(infos)
      requires fromAddress.Some? ==> IsAddressText(fromAddress.value)
      modifies this`contracts, contracts`address, contracts`state, contracts`contractBytecode, contracts`constructorData
      ensures fromAddress.None? ==> r == Failure(NoFromAddress)
      ensures fromAddress.Some? && startingNonce.None? ==> r == Failure(NoStartingNonce)
      ensures fromAddress.None? || startingNonce.None? ==> contracts == old(contracts) && Holding(graph, infos)
      ensures fromAddress.Some? && startingNonce.Some? ==>
                && (r.Failure? ==> r.error.ContractError?)
                && Ordered(contracts, old(contracts), old(Counts(graph, rank)))
                && (forall c | c in contracts :: c in infos)
                && Topological(infos, contracts)
      ensures fromAddress.Some? && startingNonce.Some? ==>
                var upcoming := FromNonce(h, fromAddress.value, startingNonce.value);
                var addresses := Assigned(infos, contracts, upcoming);
                && (r.Success? <==> Plannable(infos, addresses, old(contracts)))
                && (r.Success? ==>
                      && Distinct(contracts)
                      && (forall c | c in contracts :: c in addresses && Planned(c, encoder, infos, addresses))
                      && r.value == Transactions(encoder, fromAddress.value, startingNonce.value, infos, addresses, contracts))
      ensures r.Success? ==>
                && fromAddress.Some? && startingNonce.Some?
                && TransactionsOf(contracts, fromAddress.value, startingNonce.value, r.value)
    {
      if fromAddress.None? {
        return Failure(NoFromAddress);
      }
      if startingNonce.None? {
        return Failure(NoStartingNonce);
      }
      var addressGenerator := new IncrementingNonceAddressGenerator(h, fromAddress.value, startingNonce.value);
      ghost var upcoming := FromNonce(h, fromAddress.value, startingNonce.value);
      var planned := PlanContracts(Live(addressGenerator), encoder, graph, rank, infos, upcoming);
      if planned.Failure? {
        return Failure(ContractError(planned.error));
      }
      var order := contracts;
      ghost var addresses := Assigned(infos, order, upcoming);
      assert forall c | c in order :: Planned(c, encoder, infos, addresses);
      var transactions := CollectTransactions(order, encoder, fromAddress.value, startingNonce.value, infos, addresses);
      TransactionsArePlanned(order, encoder, fromAddress.value, startingNonce.value, infos, addresses);
      r := Success(transactions);
    }
  }

  function TransactionOf(encoder: AbiEncoder, from: string, nonce: nat, infos: Infos, addresses: map<Contract, string>,
                         c: Contract): DeploymentObject
    requires ClosedIn(infos) && c in infos && c in addresses
  {
    DeploymentObject(TransactionObject(from, DataIn(encoder, infos, addresses, c), nonce), addresses[c], c.contractName)
  }

  /** One transaction for each contract, with consecutive nonces. */
  function Transactions(encoder: AbiEncoder, from: string, startingNonce: nat, infos: Infos, addresses: map<Contract, string>,
                        order: seq<Contract>): (transactions: seq<DeploymentObject>)
    requires ClosedIn(infos) && forall c | c in order :: c in infos && c in addresses
    ensures |transactions| == |order|
  {
    if order == [] then []
    else
      var n := |order| - 1;
      var last := TransactionOf(encoder, from, startingNonce + n, infos, addresses, order[n]);
      Transactions(encoder, from, startingNonce, infos, addresses, order[..n]) + [last]
  }

  lemma {:induction false} TransactionAt(encoder: AbiEncoder, from: string, startingNonce: nat, infos: Infos,
                                         addresses: map<Contract, string>, order: seq<Contract>, i: nat)
    requires i < |order| && ClosedIn(infos) && forall c | c in order :: c in infos && c in addresses
    ensures order[i] in order
    ensures Transactions(encoder, from, startingNonce, infos, addresses, order)[i]
         == TransactionOf(encoder, from, startingNonce + i, infos, addresses, order[i])
  {
    var n := |order| - 1;
    if i < n {
      TransactionAt(encoder, from, startingNonce, infos, addresses, order[..n], i);
      assert order[..n][i] == order[i];
    }
  }

  /** What is sent for each contract, read from the contracts. */
  ghost predicate TransactionsOf(order: seq<Contract>, from: string, startingNonce: nat, planned: seq<DeploymentObject>)
    reads order
  {
    && |planned| == |order|
    && forall i | 0 <= i < |order| ::
         && planned[i].transactionObject.from == from
         && planned[i].transactionObject.data == order[i].constructorData
         && planned[i].transactionObject.nonce == startingNonce + i
         && Some(planned[i].address) == order[i].address
         && planned[i].contractName == order[i].contractName
  }

  lemma TransactionsArePlanned(order: seq<Contract>, encoder: AbiEncoder, from: string, startingNonce: nat, infos: Infos,
                               addresses: map<Contract, string>)
    requires ClosedIn(infos) && forall c | c in order :: c in infos && c in addresses && Planned(c, encoder, infos, addresses)
    ensures TransactionsOf(order, from, startingNonce, Transactions(encoder, from, startingNonce, infos, addresses, order))
  {
    forall i | 0 <= i < |order|
      ensures order[i] in order && Planned(order[i], encoder, infos, addresses)
      ensures Transactions(encoder, from, startingNonce, infos, addresses, order)[i]
           == TransactionOf(encoder, from, startingNonce + i, infos, addresses, order[i])
    {
      TransactionAt(encoder, from, startingNonce, infos, addresses, order, i);
    }
  }

  method CollectTransactions(order: seq<Contract>, encoder: AbiEncoder, from: string, startingNonce: nat,
                             ghost infos: Infos, ghost addresses: map<Contract, string>)
    returns (transactions: seq<DeploymentObject>)
    requires ClosedIn(infos) && forall c | c in order :: c in infos && c in addresses && Planned(c, encoder, infos, addresses)
    ensures transactions == Transactions(encoder, from, startingNonce, infos, addresses, order)
  {
    transactions := [];
    for i := 0 to |order|
      invariant forall c | c in order[..i] :: c in order
      invariant transactions == Transactions(encoder, from, startingNonce, infos, addresses, order[..i])
    {
      var c := order[i];
      assert c in order && Planned(c, encoder, infos, addresses);
      assert order[..i + 1][..i] == order[..i];
      transactions := transactions + [DeploymentObject(
        TransactionObject(from, c.constructorData, startingNonce + i), c.GetAddress().value.value, c.contractName)];
    }
    assert order[..|order|] == order;
  }

  /** The accounts of a chain specification, by address; of two contracts with one address the
      later one stands, at the place of the earlier one. */
  function Accounts(encoder: AbiEncoder, infos: Infos, addresses: map<Contract, string>, order: seq<Contract>): AccountTable
    requires ClosedIn(infos) && forall c | c in order :: c in infos && c in addresses
  {
    if order == [] then AccountTable([], map[])
    else
      var last := order[|order| - 1];
      Accounts(encoder, infos, addresses, order[..|order| - 1])
        .Set(addresses[last], GenesisAccount("0", DataIn(encoder, infos, addresses, last)))
  }

  method CollectAccounts(order: seq<Contract>, encoder: AbiEncoder, ghost infos: Infos, ghost addresses: map<Contract, string>)
    returns (accounts: AccountTable)
    requires ClosedIn(infos) && forall c | c in order :: c in infos && c in addresses && Planned(c, encoder, infos, addresses)
    ensures accounts == Accounts(encoder, infos, addresses, order)
  {
    accounts := AccountTable([], map[]);
    for i := 0 to |order|
      invariant forall c | c in order[..i] :: c in order
      invariant accounts == Accounts(encoder, infos, addresses, order[..i])
    {
      var c := order[i];
      assert Planned(c, encoder, infos, addresses);
      assert order[..i + 1][..i] == order[..i];
      accounts := accounts.Set(c.GetAddress().value.value, GenesisAccount("0", c.constructorData));
    }
    assert order[..|order|] == order;
  }

  /** The accounts are at the addresses of the contracts, with nothing on them. */
  lemma {:induction false} AccountKeys(encoder: AbiEncoder, infos: Infos, addresses: map<Contract, string>, order: seq<Contract>)
    requires ClosedIn(infos) && forall c | c in order :: c in infos && c in addresses
    ensures var table := Accounts(encoder, infos, addresses, order);
            && (forall c | c in order :: addresses[c] in table.accounts)
            && (forall a | a in table.accounts :: table.accounts[a].balance == "0")
            && (forall a | a in table.accounts :: exists c | c in order :: addresses[c] == a)
            && (forall a :: a in table.keys <==> a in table.accounts)
    decreases |order|
  {
    if order != [] {
      var n := |order| - 1;
      AccountKeys(encoder, infos, addresses, order[..n]);
      assert order == order[..n] + [order[n]];
    }
  }

  /** No later contract has the address of this one. */
  predicate LastThere(addresses: map<Contract, string>, order: seq<Contract>, i: nat)
    requires i < |order| && forall c | c in order :: c in addresses
  {
    forall j | i < j < |order| :: assert order[j] in order && order[i] in order; addresses[order[j]] != addresses[order[i]]
  }

  lemma {:induction false} LastStands(encoder: AbiEncoder, infos: Infos, addresses: map<Contract, string>, order: seq<Contract>,
                                      i: nat)
    requires ClosedIn(infos) && forall c | c in order :: c in infos && c in addresses
    requires i < |order| && LastThere(addresses, order, i)
    ensures order[i] in order
    ensures var table := Accounts(encoder, infos, addresses, order);
            && addresses[order[i]] in table.accounts
            && table.accounts[addresses[order[i]]].constructorData == DataIn(encoder, infos, addresses, order[i])
    decreases |order|
  {
    var n := |order| - 1;
    var earlier := order[..n];
    if i < n {
      assert earlier[i] == order[i] && forall j | i < j < n :: earlier[j] == order[j];
      assert order[n] in order && addresses[order[n]] != addresses[order[i]];
      LastStands(encoder, infos, addresses, earlier, i);
    }
  }

  predicate DistinctAddresses(addresses: map<Contract, string>, order: seq<Contract>)
    requires forall c | c in order :: c in addresses
  {
    forall i, j | 0 <= i < j < |order| ::
      assert order[i] in order && order[j] in order; addresses[order[i]] != addresses[order[j]]
  }

  lemma DistinctOneMore(addresses: map<Contract, string>, order: seq<Contract>, n: nat)
    requires |order| == n + 1 && forall c | c in order :: c in addresses
    ensures order[n] in addresses
    ensures DistinctAddresses(addresses, order) <==>
              && DistinctAddresses(addresses, order[..n])
              && forall c | c in order[..n] :: addresses[c] != addresses[order[n]]
  {
    var earlier := order[..n];
    assert order[n] in order;
    assert forall i | 0 <= i < n :: earlier[i] == order[i] && earlier[i] in earlier;
  }

  /** At different addresses the accounts come in the order of the contracts. */
  lemma {:induction false} KeysInOrder(encoder: AbiEncoder, infos: Infos, addresses: map<Contract, string>, order: seq<Contract>)
    requires ClosedIn(infos) && (forall c | c in order :: c in infos && c in addresses) && DistinctAddresses(addresses, order)
    ensures var keys := Accounts(encoder, infos, addresses, order).keys;
            |keys| == |order| && forall i | 0 <= i < |order| :: order[i] in order && keys[i] == addresses[order[i]]
    decreases |order|
  {
    if order != [] {
      var n := |order| - 1;
      DistinctOneMore(addresses, order, n);
      NewKeyIsLast(encoder, infos, addresses, order, n);
      KeysInOrder(encoder, infos, addresses, order[..n]);
      assert forall i | 0 <= i < n :: order[..n][i] == order[i] && order[i] in order;
    }
  }

  lemma NewKeyIsLast(encoder: AbiEncoder, infos: Infos, addresses: map<Contract, string>, order: seq<Contract>, n: nat)
    requires ClosedIn(infos) && (forall c | c in order :: c in infos && c in addresses) && |order| == n + 1
    requires order[n] in addresses && forall c | c in order[..n] :: addresses[c] != addresses[order[n]]
    ensures Accounts(encoder, infos, addresses, order).keys
         == Accounts(encoder, infos, addresses, order[..n]).keys + [addresses[order[n]]]
  {
    AccountKeys(encoder, infos, addresses, order[..n]);
  }

  /** The accounts, read from the contracts: each address has the data of the last contract there, with
      nothing on the account, and there are no others; in the order of the contracts if these are all
      at different addresses. */
  ghost predicate AccountsOf(order: seq<Contract>, table: AccountTable)
    reads order
  {
    && (forall a | a in table.accounts :: table.accounts[a].balance == "0" && exists c | c in order :: c.address == Some(a))
    && (forall i | 0 <= i < |order| && (forall j | i < j < |order| :: order[j].address != order[i].address) ::
          && order[i].address.Some?
          && order[i].address.value in table.accounts
          && table.accounts[order[i].address.value].constructorData == order[i].constructorData)
    && (forall a :: a in table.keys <==> a in table.accounts)
    && ((forall i, j | 0 <= i < j < |order| :: order[i].address != order[j].address) ==>
          |table.keys| == |order| && forall i | 0 <= i < |order| :: order[i].address == Some(table.keys[i]))
  }

  lemma AccountsArePlanned(order: seq<Contract>, encoder: AbiEncoder, infos: Infos, addresses: map<Contract, string>)
    requires ClosedIn(infos) && forall c | c in order :: c in infos && c in addresses && Planned(c, encoder, infos, addresses)
    ensures AccountsOf(order, Accounts(encoder, infos, addresses, order))
  {
    var table := Accounts(encoder, infos, addresses, order);
    AccountKeys(encoder, infos, addresses, order);
    forall i | 0 <= i < |order|
      ensures order[i] in order && order[i].address == Some(addresses[order[i]])
      ensures order[i].constructorData == DataIn(encoder, infos, addresses, order[i])
    {
      assert Planned(order[i], encoder, infos, addresses);
    }
    forall i | 0 <= i < |order| && (forall j | i < j < |order| :: order[j].address != order[i].address)
      ensures table.accounts[addresses[order[i]]].constructorData == order[i].constructorData
    {
      LastStands(encoder, infos, addresses, order, i);
    }
    if forall i, j | 0 <= i < j < |order| :: order[i].address != order[j].address {
      KeysInOrder(encoder, infos, addresses, order);
    }
  }
}
