/** The plan for a list of contracts in deployment order: which addresses they get, what their
    creation data are, and when the plan exists. Stated on the contents of the contracts at
    the time the plan is made. */
module Planning {
  import opened Results
  import opened Sorting
  import opened Linking
  import opened AddressGenerators
  import opened Contracts

  /** The changeable fields of a contract at one moment. */
  datatype Info = Info(state: State, bytecode: string, address: Option<string>, links: seq<Contract>, data: string)

  type Infos = map<Contract, Info>

  function InfoOf(c: Contract): Info
    reads c
  {
    Info(c.state, c.contractBytecode, c.address, c.linkReplacements, c.constructorData)
  }

  /** The contracts have these contents now. */
  ghost predicate Holding(graph: set<Contract>, infos: Infos)
    reads graph
  {
    infos.Keys == graph && forall c | c in graph :: infos[c] == InfoOf(c)
  }

  function DependenciesIn(infos: Infos, c: Contract): seq<Contract>
    requires c in infos
  {
    c.References() + infos[c].links
  }

  predicate ClosedIn(infos: Infos) {
    forall c | c in infos :: forall d | d in DependenciesIn(infos, c) :: d in infos
  }

  /** An address counts as set when it is not empty. */
  predicate HasAddressIn(infos: Infos, c: Contract)
    requires c in infos
  {
    infos[c].address.Some? && infos[c].address.value != ""
  }

  // ---------- Addresses ----------

  /** The addresses of contracts in order: the one set beforehand, or the generator's next one. */
  function Assigned(infos: Infos, order: seq<Contract>, upcoming: Upcoming): map<Contract, string>
    requires upcoming.Valid() && forall c | c in order :: c in infos
  {
    if order == [] then map[]
    else
      var earlier, c := order[..|order| - 1], order[|order| - 1];
      var addresses := Assigned(infos, earlier, upcoming);
      if c in addresses then addresses
      else addresses[c := if HasAddressIn(infos, c) then infos[c].address.value else upcoming.At(Drawn(infos, earlier))]
  }

  /** How many addresses the generator has been asked for. */
  function Drawn(infos: Infos, order: seq<Contract>): nat
    requires forall c | c in order :: c in infos
  {
    if order == [] then 0
    else
      var earlier, c := order[..|order| - 1], order[|order| - 1];
      Drawn(infos, earlier) + if c in earlier || HasAddressIn(infos, c) then 0 else 1
  }

  lemma AssignedOneMore(infos: Infos, order: seq<Contract>, upcoming: Upcoming, i: nat)
    requires upcoming.Valid() && i < |order| && forall c | c in order :: c in infos
    ensures order[i] in order && order[i] in infos
    ensures Drawn(infos, order[..i + 1])
         == Drawn(infos, order[..i]) + if order[i] in order[..i] || HasAddressIn(infos, order[i]) then 0 else 1
    ensures var earlier, c := Assigned(infos, order[..i], upcoming), order[i];
            Assigned(infos, order[..i + 1], upcoming) == (
              if c in order[..i] then earlier
              else earlier[c := if HasAddressIn(infos, c) then infos[c].address.value
                                else upcoming.At(Drawn(infos, order[..i]))])
  {
    assert order[..i + 1][..i] == order[..i] && order[..i + 1][i] == order[i];
    AssignedKeys(infos, order[..i], upcoming);
  }

  lemma {:induction false} AssignedKeys(infos: Infos, order: seq<Contract>, upcoming: Upcoming)
    requires upcoming.Valid() && forall c | c in order :: c in infos
    ensures forall c | c in Assigned(infos, order, upcoming) :: c in order
    ensures forall c | c in order :: c in Assigned(infos, order, upcoming)
  {
    if order != [] {
      var earlier, last := order[..|order| - 1], order[|order| - 1];
      AssignedKeys(infos, earlier, upcoming);
      assert order == earlier + [last];
    }
  }

  lemma AssignedKept(infos: Infos, order: seq<Contract>, upcoming: Upcoming, n: nat, c: Contract)
    requires upcoming.Valid() && n < |order| && (forall d | d in order :: d in infos)
    requires c in Assigned(infos, order[..n], upcoming) && c != order[n]
    ensures c in Assigned(infos, order[..n + 1], upcoming)
    ensures Assigned(infos, order[..n + 1], upcoming)[c] == Assigned(infos, order[..n], upcoming)[c]
  {
    AssignedOneMore(infos, order, upcoming, n);
  }

  lemma AssignedNext(infos: Infos, order: seq<Contract>, upcoming: Upcoming, n: nat)
    requires upcoming.Valid() && n < |order| && Distinct(order) && (forall d | d in order :: d in infos)
    ensures order[n] in infos && order[n] in Assigned(infos, order[..n + 1], upcoming)
    ensures Assigned(infos, order[..n + 1], upcoming)[order[n]]
         == if HasAddressIn(infos, order[n]) then infos[order[n]].address.value else upcoming.At(Drawn(infos, order[..n]))
  {
    AssignedOneMore(infos, order, upcoming, n);
    assert order[n] !in order[..n];
  }

  /** Once assigned, an address stays. */
  lemma {:induction false} AssignedStays(infos: Infos, order: seq<Contract>, upcoming: Upcoming, i: nat, n: nat)
    requires upcoming.Valid() && i < n <= |order| && Distinct(order) && forall c | c in order :: c in infos
    requires order[i] in Assigned(infos, order[..i + 1], upcoming)
    ensures order[i] in Assigned(infos, order[..n], upcoming)
    ensures Assigned(infos, order[..n], upcoming)[order[i]] == Assigned(infos, order[..i + 1], upcoming)[order[i]]
  {
    if i + 1 < n {
      AssignedStays(infos, order, upcoming, i, n - 1);
      AssignedKept(infos, order, upcoming, n - 1, order[i]);
    }
  }

  /** Which address the i-th contract gets: with no address of its own, the generator's at the
      number of earlier contracts without one. */
  lemma AssignedAt(infos: Infos, order: seq<Contract>, upcoming: Upcoming, i: nat)
    requires upcoming.Valid() && i < |order| && Distinct(order) && forall c | c in order :: c in infos
    ensures order[i] in infos && order[i] in Assigned(infos, order, upcoming)
    ensures Assigned(infos, order, upcoming)[order[i]]
         == if HasAddressIn(infos, order[i]) then infos[order[i]].address.value else upcoming.At(Drawn(infos, order[..i]))
  {
    AssignedNext(infos, order, upcoming, i);
    AssignedStays(infos, order, upcoming, i, |order|);
    assert order[..|order|] == order;
  }

  /** The number of addresses drawn is the position, exactly when no contract so far had an
      address of its own. */
  lemma {:induction false} DrawnIsPosition(infos: Infos, order: seq<Contract>)
    requires Distinct(order) && forall c | c in order :: c in infos
    ensures Drawn(infos, order) <= |order|
    ensures Drawn(infos, order) == |order| <==> forall i | 0 <= i < |order| :: !HasAddressIn(infos, order[i])
  {
    if order != [] {
      var n := |order| - 1;
      DrawnIsPosition(infos, order[..n]);
      assert order[n] !in order[..n];
    }
  }

  // ---------- Creation data ----------

  function AddressIn(infos: Infos, addresses: map<Contract, string>, c: Contract): string
    requires c in infos
  {
    if c in addresses then addresses[c] else if infos[c].address.Some? then infos[c].address.value else ""
  }

  function LinksIn(infos: Infos, addresses: map<Contract, string>, contracts: seq<Contract>): (links: seq<Link>)
    requires forall c | c in contracts :: c in infos
  {
    seq(|contracts|, i requires 0 <= i < |contracts| =>
      assert contracts[i] in contracts;
      Link(contracts[i].contractName, AddressIn(infos, addresses, contracts[i])))
  }

  function ValuesIn(infos: Infos, addresses: map<Contract, string>, args: seq<Argument>): seq<string>
    requires forall c | c in Targets(args) :: c in infos
  {
    if args == [] then []
    else
      assert args[0] in args;
      var value := if args[0].Reference? then AddressIn(infos, addresses, args[0].contract) else args[0].value;
      [value] + ValuesIn(infos, addresses, args[1..])
  }

  function LinkedIn(infos: Infos, addresses: map<Contract, string>, c: Contract): string
    requires c in infos && forall d | d in infos[c].links :: d in infos
  {
    LinkAll(infos[c].bytecode, LinksIn(infos, addresses, infos[c].links))
  }

  /** The bytecode with the addresses of the linked contracts in place, and the encoded
      constructor arguments with the addresses of the contracts they refer to. */
  function DataIn(encoder: AbiEncoder, infos: Infos, addresses: map<Contract, string>, c: Contract): string
    requires c in infos && forall d | d in DependenciesIn(infos, c) :: d in infos
  {
    LinkedIn(infos, addresses, c)
  + if c.constructorArgs.None? || c.constructorAbi.None? then ""
    else WithoutTwo(encoder(c.constructorAbi.value, ValuesIn(infos, addresses, c.constructorArgs.value)))
  }

  // ---------- When planning succeeds ----------

  predicate UsableIn(infos: Infos, c: Contract)
    requires c in infos
  {
    infos[c].state == StateInstantiated && infos[c].address.Some?
  }

  /** What lets the i-th contract be instantiated after the ones before it. */
  predicate StepIn(infos: Infos, addresses: map<Contract, string>, order: seq<Contract>, i: nat)
    requires i < |order| && ClosedIn(infos) && forall c | c in order :: c in infos
  {
    var c := order[i];
    && c !in order[..i]
    && infos[c].state == StateNew
    && (c.constructorAbi.Some? <==> c.constructorArgs.Some?)
    && (forall d | d in DependenciesIn(infos, c) :: d in order[..i] || UsableIn(infos, d))
    && FullyLinked(LinkedIn(infos, addresses, c))
  }

  predicate Steps(infos: Infos, addresses: map<Contract, string>, order: seq<Contract>)
    requires ClosedIn(infos) && forall c | c in order :: c in infos
  {
    forall i | 0 <= i < |order| :: StepIn(infos, addresses, order, i)
  }

  /** The same without an order: no contract registered twice, all of them new, arguments just
      where there is a constructor, and every dependency registered or instantiated already. */
  predicate Registrable(infos: Infos, contracts: seq<Contract>)
    requires ClosedIn(infos) && forall c | c in contracts :: c in infos
  {
    && Distinct(contracts)
    && forall c | c in contracts ::
         && infos[c].state == StateNew
         && (c.constructorAbi.Some? <==> c.constructorArgs.Some?)
         && forall d | d in DependenciesIn(infos, c) :: d in contracts || UsableIn(infos, d)
  }

  predicate AllLinked(infos: Infos, addresses: map<Contract, string>, contracts: seq<Contract>)
    requires ClosedIn(infos) && forall c | c in contracts :: c in infos
  {
    forall c | c in contracts :: FullyLinked(LinkedIn(infos, addresses, c))
  }

  predicate Topological(infos: Infos, order: seq<Contract>)
    requires forall c | c in order :: c in infos
  {
    forall i, d | 0 <= i < |order| && d in DependenciesIn(infos, order[i]) && d in order :: d in order[..i]
  }

  /** In a topological order the order-dependent conditions come to nothing more: whether
      planning succeeds is a matter of what is registered, not of where. */
  lemma StepsIffRegistrable(infos: Infos, addresses: map<Contract, string>, contracts: seq<Contract>, order: seq<Contract>)
    requires ClosedIn(infos) && forall c | c in contracts :: c in infos
    requires multiset(order) == multiset(contracts) && (forall c | c in order :: c in infos) && Topological(infos, order)
    ensures Steps(infos, addresses, order) <==>
              Registrable(infos, contracts) && AllLinked(infos, addresses, contracts)
  {
    Rearranged(contracts, order);
    if Steps(infos, addresses, order) {
      forall i, j | 0 <= i < j < |order|
        ensures order[i] != order[j]
      {
        assert StepIn(infos, addresses, order, j);
        assert order[..j][i] == order[i];
      }
      forall c | c in contracts
        ensures infos[c].state == StateNew && (c.constructorAbi.Some? <==> c.constructorArgs.Some?)
        ensures FullyLinked(LinkedIn(infos, addresses, c))
        ensures forall d | d in DependenciesIn(infos, c) :: d in contracts || UsableIn(infos, d)
      {
        var i :| 0 <= i < |order| && order[i] == c;
        assert StepIn(infos, addresses, order, i);
        assert forall d | d in order[..i] :: d in order;
      }
    }
    if Registrable(infos, contracts) && AllLinked(infos, addresses, contracts) {
      forall i | 0 <= i < |order|
        ensures StepIn(infos, addresses, order, i)
      {
        assert order[i] in contracts;
      }
    }
  }

  /** A contract is fully linked if its bytecode is compiled code in which every placeholder
      belongs to one of the contracts it is linked with. */
  lemma CoveredIsLinked(infos: Infos, addresses: map<Contract, string>, c: Contract, tokens: seq<Token>)
    requires c in infos && forall d | d in infos[c].links :: d in infos
    requires CleanlyLinkable(tokens, LinksIn(infos, addresses, infos[c].links)) && infos[c].bytecode == Render(tokens)
    ensures FullyLinked(LinkedIn(infos, addresses, c)) <==>
              && tokens != []
              && forall i | 0 <= i < |tokens| && tokens[i].Hole? ::
                   exists d | d in infos[c].links :: Placeholder(d.contractName) == Placeholder(tokens[i].name)
  {
    FullyLinkedIff(tokens, LinksIn(infos, addresses, infos[c].links));
    forall i | 0 <= i < |tokens| && tokens[i].Hole? {
      LinkNames(infos, addresses, infos[c].links, Placeholder(tokens[i].name));
    }
  }

  lemma LinkNames(infos: Infos, addresses: map<Contract, string>, contracts: seq<Contract>, placeholder: string)
    requires forall d | d in contracts :: d in infos
    ensures (exists link | link in LinksIn(infos, addresses, contracts) :: Placeholder(link.name) == placeholder)
       <==> (exists d | d in contracts :: Placeholder(d.contractName) == placeholder)
  {
    var links := LinksIn(infos, addresses, contracts);
    if link :| link in links && Placeholder(link.name) == placeholder {
      var k :| 0 <= k < |links| && links[k] == link;
      assert contracts[k] in contracts;
    }
    if d :| d in contracts && Placeholder(d.contractName) == placeholder {
      var k :| 0 <= k < |links| && contracts[k] == d;
      assert links[k] in links;
    }
  }
}
