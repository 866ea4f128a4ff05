/** What a successful plan guarantees, and for which registered contracts there is one. */
module PlanTheorems {
  import opened Bytes
  import opened Sorting
  import opened Hex
  import opened Linking
  import opened AddressGenerators
  import opened Contracts
  import opened Planning
  import opened ContractRegistries

  // ---------- Where embedded addresses come from ----------

  /** Every address that goes into the data of the i-th contract, linked or as an argument, is
      the planned address of an earlier contract, or that of one instantiated before. */
  lemma EmbeddedAddressesAreEarlier(infos: Infos, addresses: map<Contract, string>, contracts: seq<Contract>,
                                    order: seq<Contract>, i: nat, d: Contract)
    requires ClosedIn(infos) && forall c | c in contracts :: c in infos
    requires multiset(order) == multiset(contracts) && (forall c | c in order :: c in infos) && Topological(infos, order)
    requires forall c | c in order :: c in addresses
    requires forall c | c in addresses :: c in order
    requires Plannable(infos, addresses, contracts)
    requires i < |order| && order[i] in infos && d in DependenciesIn(infos, order[i])
    ensures d in order ==> exists j | 0 <= j < i :: order[j] == d
    ensures d in order ==> d in addresses && AddressIn(infos, addresses, d) == addresses[d]
    ensures d !in order ==> UsableIn(infos, d) && AddressIn(infos, addresses, d) == infos[d].address.value
  {
    Rearranged(contracts, order);
    assert order[i] in order && order[i] in contracts;
    if d in order {
      var j :| 0 <= j < |order[..i]| && order[..i][j] == d;
      assert order[j] == d;
    } else {
      assert d !in contracts && d !in addresses;
    }
  }

  /** Where a placeholder stood in the bytecode there stands, in the data, the address of the
      contract linked under that name. */
  lemma HoleHoldsAddress(infos: Infos, addresses: map<Contract, string>, c: Contract, tokens: seq<Token>, i: nat, d: Contract)
    requires c in infos && forall e | e in infos[c].links :: e in infos
    requires CleanlyLinkable(tokens, LinksIn(infos, addresses, infos[c].links)) && infos[c].bytecode == Render(tokens)
    requires DistinctPlaceholders(LinksIn(infos, addresses, infos[c].links))
    requires i < |tokens| && tokens[i].Hole?
    requires d in infos[c].links && Placeholder(d.contractName) == Placeholder(tokens[i].name)
    ensures var linked, from := LinkedIn(infos, addresses, c), |Render(tokens[..i])|;
            && |linked| == |infos[c].bytecode|
            && from + PLACEHOLDER_LENGTH <= |linked|
            && linked[from..from + PLACEHOLDER_LENGTH] == WithoutPrefix(AddressIn(infos, addresses, d))
            && ("0x" <= AddressIn(infos, addresses, d) ==>
                  "0x" + linked[from..from + PLACEHOLDER_LENGTH] == AddressIn(infos, addresses, d))
  {
    var links := LinksIn(infos, addresses, infos[c].links);
    LinkKeepsPlaces(tokens, links, i);
    var k :| 0 <= k < |infos[c].links| && infos[c].links[k] == d;
    assert links[k] in links;
    AddressForMember(links, tokens[i].name, links[k]);
  }

  /** The arguments with every reference replaced by the planned address of its contract. */
  predicate ReplacedIn(infos: Infos, addresses: map<Contract, string>, args: seq<Argument>, values: seq<string>)
    requires forall d | d in Targets(args) :: d in infos
  {
    && |values| == |args|
    && forall k | 0 <= k < |args| ::
         assert args[k] in args;
         match args[k]
         case Plain(value) => values[k] == value
         case Reference(d) => values[k] == AddressIn(infos, addresses, d)
  }

  /** Behind the bytecode stand, in the data, the arguments as the encoder gives them for these values,
      without its 0x. */
  lemma DataEndsInArguments(encoder: AbiEncoder, infos: Infos, addresses: map<Contract, string>, c: Contract)
    requires c in infos && forall d | d in DependenciesIn(infos, c) :: d in infos
    requires c.constructorArgs.Some? && c.constructorAbi.Some?
    ensures forall d | d in Targets(c.constructorArgs.value) :: d in infos
    ensures exists values, encoded ::
              && ReplacedIn(infos, addresses, c.constructorArgs.value, values)
              && CutOff(encoder(c.constructorAbi.value, values), encoded)
              && DataIn(encoder, infos, addresses, c) == LinkedIn(infos, addresses, c) + encoded
  {
    var args := c.constructorArgs.value;
    assert forall d | d in Targets(args) :: d in ReferencesIn(args);
    var values := ValuesIn(infos, addresses, args);
    ValuesReplace(infos, addresses, args);
    var encoded := WithoutTwo(encoder(c.constructorAbi.value, values));
    assert ReplacedIn(infos, addresses, args, values) && CutOff(encoder(c.constructorAbi.value, values), encoded);
    assert DataIn(encoder, infos, addresses, c) == LinkedIn(infos, addresses, c) + encoded;
  }

  lemma {:induction false} ValuesReplace(infos: Infos, addresses: map<Contract, string>, args: seq<Argument>)
    requires forall d | d in Targets(args) :: d in infos
    ensures ReplacedIn(infos, addresses, args, ValuesIn(infos, addresses, args))
    decreases |args|
  {
    if args != [] {
      assert args[0].Reference? ==> args[0].contract in Targets(args);
      assert Targets(args[1..]) <= Targets(args);
      ValuesReplace(infos, addresses, args[1..]);
      assert forall k | 0 < k < |args| :: args[k] == args[1..][k - 1];
    }
  }

  // ---------- Predicted addresses ----------

  /** The i-th transaction has the nonce start + i. Without an address of its own the i-th
      contract is predicted to get the sender's address for the nonce start + drawn, where drawn
      counts the earlier contracts without one; the two nonces agree exactly if no earlier
      contract had an address of its own. */
  lemma PredictedNonce(h: Hash, encoder: AbiEncoder, from: string, startingNonce: nat, infos: Infos,
                       addresses: map<Contract, string>, order: seq<Contract>, i: nat)
    requires IsAddressText(from) && ClosedIn(infos) && i < |order|
    requires Distinct(order) && forall c | c in order :: c in infos && c in addresses
    requires addresses == Assigned(infos, order, FromNonce(h, from, startingNonce))
    ensures order[i] in infos && forall k | 0 <= k < i :: order[k] in infos
    ensures var planned := Transactions(encoder, from, startingNonce, infos, addresses, order)[i];
            && planned.transactionObject.nonce == startingNonce + i
            && planned.address == if HasAddressIn(infos, order[i]) then infos[order[i]].address.value
                                  else FromNonce(h, from, startingNonce).At(Drawn(infos, order[..i]))
    ensures Drawn(infos, order[..i]) <= i
    ensures Drawn(infos, order[..i]) == i <==> forall k | 0 <= k < i :: !HasAddressIn(infos, order[k])
  {
    AssignedAt(infos, order, FromNonce(h, from, startingNonce), i);
    TransactionAt(encoder, from, startingNonce, infos, addresses, order, i);
    DrawnBefore(infos, order, i);
  }

  /** One contract with an address of its own before the second one: the second transaction has
      the nonce start + 1, and its address is that for the nonce start. */
  lemma PresetShiftsPrediction(h: Hash, encoder: AbiEncoder, from: string, startingNonce: nat, infos: Infos,
                               addresses: map<Contract, string>, order: seq<Contract>)
    requires IsAddressText(from) && ClosedIn(infos) && 2 <= |order|
    requires Distinct(order) && forall c | c in order :: c in infos && c in addresses
    requires addresses == Assigned(infos, order, FromNonce(h, from, startingNonce))
    requires order[0] in order && HasAddressIn(infos, order[0]) && order[1] in order && !HasAddressIn(infos, order[1])
    ensures var planned := Transactions(encoder, from, startingNonce, infos, addresses, order)[1];
            planned.transactionObject.nonce == startingNonce + 1 && planned.address == FromNonce(h, from, startingNonce).At(0)
  {
    PredictedNonce(h, encoder, from, startingNonce, infos, addresses, order, 1);
    PresetDrawsNone(infos, [order[0]]);
    assert order[..1] == [order[0]];
  }

  lemma PresetDrawsNone(infos: Infos, order: seq<Contract>)
    requires |order| == 1 && order[0] in infos && HasAddressIn(infos, order[0])
    ensures (forall c | c in order :: c in infos) && Drawn(infos, order) == 0
  {
    assert order[..0] == [];
  }

  lemma DrawnBefore(infos: Infos, order: seq<Contract>, i: nat)
    requires i <= |order| && Distinct(order) && forall c | c in order :: c in infos
    ensures forall k | 0 <= k < i :: order[k] in infos
    ensures Drawn(infos, order[..i]) <= i
    ensures Drawn(infos, order[..i]) == i <==> forall k | 0 <= k < i :: !HasAddressIn(infos, order[k])
  {
    var earlier := order[..i];
    forall k | 0 <= k < i
      ensures order[k] in infos && earlier[k] == order[k]
    {
      assert order[k] in order;
    }
    DrawnIsPosition(infos, earlier);
  }

  /** In a genesis plan without preset addresses the k-th contract gets the k-th address. */
  lemma GenesisAddress(first: string, infos: Infos, order: seq<Contract>, k: nat)
    requires IsAddressText(first) && Distinct(order) && k < |order|
    requires forall c | c in order :: c in infos && !HasAddressIn(infos, c)
    ensures order[k] in Assigned(infos, order, Counting(first))
    ensures Assigned(infos, order, Counting(first))[order[k]] == NthAddress(first, k)
  {
    assert order[k] in order && forall i | 0 <= i < k :: order[i] in order;
    AssignedAt(infos, order, Counting(first), k);
    DrawnBefore(infos, order, k);
  }

  /** And so all addresses are different. */
  lemma GenesisAddressesDiffer(first: string, infos: Infos, order: seq<Contract>)
    requires IsAddressText(first) && Distinct(order)
    requires forall c | c in order :: c in infos && !HasAddressIn(infos, c)
    ensures forall c | c in order :: c in Assigned(infos, order, Counting(first))
    ensures DistinctAddresses(Assigned(infos, order, Counting(first)), order)
  {
    AssignedKeys(infos, order, Counting(first));
    forall i, j | 0 <= i < j < |order|
      ensures order[i] in order && order[j] in order
      ensures Assigned(infos, order, Counting(first))[order[i]] != Assigned(infos, order, Counting(first))[order[j]]
    {
      GenesisAddress(first, infos, order, i);
      GenesisAddress(first, infos, order, j);
      AddressesDiffer(first, i, j);
    }
  }

  /** There is an account for every contract exactly if their addresses are all different. */
  lemma {:induction false} OneAccountEach(encoder: AbiEncoder, infos: Infos, addresses: map<Contract, string>,
                                          order: seq<Contract>)
    requires ClosedIn(infos) && forall c | c in order :: c in infos && c in addresses
    ensures var table := Accounts(encoder, infos, addresses, order);
            && |table.keys| == |table.accounts| <= |order|
            && (|table.accounts| == |order| <==> DistinctAddresses(addresses, order))
    decreases |order|
  {
    if order != [] {
      var n := |order| - 1;
      OneAccountEach(encoder, infos, addresses, order[..n]);
      AccountKeys(encoder, infos, addresses, order[..n]);
      DistinctOneMore(addresses, order, n);
      AccountAdded(encoder, infos, addresses, order, n);
    }
  }

  lemma AccountAdded(encoder: AbiEncoder, infos: Infos, addresses: map<Contract, string>, order: seq<Contract>, n: nat)
    requires |order| == n + 1
    requires ClosedIn(infos) && forall c | c in order :: c in infos && c in addresses
    ensures order[n] in addresses
    ensures var earlier, all := Accounts(encoder, infos, addresses, order[..n]), Accounts(encoder, infos, addresses, order);
            var added := if addresses[order[n]] in earlier.accounts then 0 else 1;
            |all.accounts| == |earlier.accounts| + added && |all.keys| == |earlier.keys| + added
  {
    var earlier, all := Accounts(encoder, infos, addresses, order[..n]), Accounts(encoder, infos, addresses, order);
    assert order[n] in order;
    assert all.accounts.Keys == earlier.accounts.Keys + {addresses[order[n]]};
  }

  /** The place of an account is that of the first contract at its address: it comes behind the
      accounts of all the contracts before that one. */
  lemma AccountsInOrder(encoder: AbiEncoder, infos: Infos, addresses: map<Contract, string>, order: seq<Contract>, i: nat, j: nat,
                        p: nat, q: nat)
    requires ClosedIn(infos) && forall c | c in order :: c in infos && c in addresses
    requires i < j < |order| && order[i] in order && order[j] in order
    requires forall c | c in order[..j] :: addresses[c] != addresses[order[j]]
    requires var keys := Accounts(encoder, infos, addresses, order).keys;
             p < |keys| && q < |keys| && keys[p] == addresses[order[i]] && keys[q] == addresses[order[j]]
    ensures p < q
  {
    var keys, earlier := Accounts(encoder, infos, addresses, order).keys, Accounts(encoder, infos, addresses, order[..j]).keys;
    KeysStay(encoder, infos, addresses, order, j);
    AccountKeys(encoder, infos, addresses, order[..j]);
    assert order[..j][i] == order[i];
    assert addresses[order[i]] in earlier && addresses[order[j]] !in earlier;
    KeysDiffer(encoder, infos, addresses, order);
    var k :| 0 <= k < |earlier| && earlier[k] == addresses[order[i]];
    assert keys[k] == keys[p];
  }

  lemma {:induction false} KeysStay(encoder: AbiEncoder, infos: Infos, addresses: map<Contract, string>, order: seq<Contract>,
                                    n: nat)
    requires ClosedIn(infos) && (forall c | c in order :: c in infos && c in addresses) && n <= |order|
    ensures Accounts(encoder, infos, addresses, order[..n]).keys <= Accounts(encoder, infos, addresses, order).keys
    decreases |order| - n
  {
    if n < |order| {
      KeysStay(encoder, infos, addresses, order, n + 1);
      assert order[..n + 1][..n] == order[..n] && order[..n + 1][n] == order[n];
    } else {
      assert order[..n] == order;
    }
  }

  lemma {:induction false} KeysDiffer(encoder: AbiEncoder, infos: Infos, addresses: map<Contract, string>, order: seq<Contract>)
    requires ClosedIn(infos) && forall c | c in order :: c in infos && c in addresses
    ensures Distinct(Accounts(encoder, infos, addresses, order).keys)
    decreases |order|
  {
    if order != [] {
      var n := |order| - 1;
      KeysDiffer(encoder, infos, addresses, order[..n]);
      AccountKeys(encoder, infos, addresses, order[..n]);
      var earlier := Accounts(encoder, infos, addresses, order[..n]).keys;
      assert forall k | 0 <= k < |earlier| :: earlier[k] in earlier;
    }
  }

  /** A chain specification planned without preset addresses has one account for each contract,
      the k-th one at the k-th address with the data of the k-th contract, and no others. */
  lemma GenesisAccounts(encoder: AbiEncoder, first: string, infos: Infos, addresses: map<Contract, string>, order: seq<Contract>)
    requires IsAddressText(first) && ClosedIn(infos) && Distinct(order)
    requires forall c | c in order :: c in infos && c in addresses && !HasAddressIn(infos, c)
    requires addresses == Assigned(infos, order, Counting(first))
    ensures var table := Accounts(encoder, infos, addresses, order);
            && |table.accounts| == |table.keys| == |order|
            && (forall k | 0 <= k < |order| :: table.keys[k] == NthAddress(first, k))
            && (forall k | 0 <= k < |order| ::
                  && NthAddress(first, k) in table.accounts && order[k] in order
                  && table.accounts[NthAddress(first, k)] == GenesisAccount("0", DataIn(encoder, infos, addresses, order[k])))
            && (forall a | a in table.accounts :: exists k | 0 <= k < |order| :: NthAddress(first, k) == a)
  {
    GenesisAddressesDiffer(first, infos, order);
    OneAccountEach(encoder, infos, addresses, order);
    AccountKeys(encoder, infos, addresses, order);
    KeysInOrder(encoder, infos, addresses, order);
    forall k | 0 <= k < |order|
      ensures order[k] in order && addresses[order[k]] == NthAddress(first, k)
      ensures Accounts(encoder, infos, addresses, order).accounts[NthAddress(first, k)]
           == GenesisAccount("0", DataIn(encoder, infos, addresses, order[k]))
    {
      GenesisAddress(first, infos, order, k);
      LastStands(encoder, infos, addresses, order, k);
    }
  }

  // ---------- For which contracts there is a plan ----------

  lemma FortyDigitsArePlain(address: string)
    requires IsAddressText(address) && |address| == 2 + ADDRESS_DIGITS
    ensures PlainAddress(address)
  {
    assert WithoutPrefix(address) == address[2..];
  }

  /** Registered contracts in compiled form, in which the names they are linked with stand alone. */
  predicate CleanlyDescribed(infos: Infos, addresses: map<Contract, string>, contracts: seq<Contract>,
                             code: map<Contract, seq<Token>>)
    requires ClosedIn(infos) && forall c | c in contracts :: c in infos
  {
    forall c | c in contracts ::
      && c in code && infos[c].bytecode == Render(code[c])
      && (forall d | d in infos[c].links :: d in infos)
      && CleanlyLinkable(code[c], LinksIn(infos, addresses, infos[c].links))
  }

  /** It is enough that all names are plain. */
  predicate Described(infos: Infos, contracts: seq<Contract>, code: map<Contract, seq<Token>>)
    requires ClosedIn(infos) && forall c | c in contracts :: c in infos
  {
    forall c | c in contracts ::
      && c in code && AllWellFormed(code[c]) && infos[c].bytecode == Render(code[c])
      && forall d | d in infos[c].links :: PlainName(d.contractName)
  }

  lemma PlainIsClean(infos: Infos, addresses: map<Contract, string>, contracts: seq<Contract>, code: map<Contract, seq<Token>>)
    requires ClosedIn(infos) && (forall c | c in contracts :: c in infos) && Described(infos, contracts, code)
    requires forall c | c in contracts :: forall d | d in infos[c].links ::
               d in infos && PlainAddress(AddressIn(infos, addresses, d))
    ensures CleanlyDescribed(infos, addresses, contracts, code)
  {
    forall c | c in contracts
      ensures CleanlyLinkable(code[c], LinksIn(infos, addresses, infos[c].links))
    {
      assert forall i | 0 <= i < |infos[c].links| :: infos[c].links[i] in infos[c].links;
      PlainLinksAreIsolated(code[c], LinksIn(infos, addresses, infos[c].links));
    }
  }

  /** Every placeholder belongs to a contract that is linked. */
  predicate Covered(infos: Infos, c: Contract, tokens: seq<Token>)
    requires c in infos
  {
    && tokens != []
    && forall i | 0 <= i < |tokens| && tokens[i].Hole? ::
         exists d | d in infos[c].links :: Placeholder(d.contractName) == Placeholder(tokens[i].name)
  }

  /** For contracts in compiled form with clean names, planning succeeds exactly if they can be
      registered together and every placeholder is covered: no order of registration and no
      address makes it fail. */
  lemma PlannableIffCovered(infos: Infos, addresses: map<Contract, string>, contracts: seq<Contract>,
                            code: map<Contract, seq<Token>>)
    requires ClosedIn(infos) && (forall c | c in contracts :: c in infos)
    requires CleanlyDescribed(infos, addresses, contracts, code)
    ensures Plannable(infos, addresses, contracts) <==>
              Registrable(infos, contracts) && forall c | c in contracts :: Covered(infos, c, code[c])
  {
    forall c | c in contracts
      ensures (forall d | d in infos[c].links :: d in infos)
      ensures FullyLinked(LinkedIn(infos, addresses, c)) <==> Covered(infos, c, code[c])
    {
      CoveredIsLinked(infos, addresses, c, code[c]);
    }
  }

  /** Predicted addresses are plain. */
  lemma PredictedIsPlain(upcoming: Upcoming, infos: Infos, order: seq<Contract>, i: nat)
    requires upcoming.FromNonce? && upcoming.Valid()
    requires Distinct(order) && (forall c | c in order :: c in infos) && i < |order|
    requires order[i] in infos && !HasAddressIn(infos, order[i])
    ensures PlainAddress(AddressIn(infos, Assigned(infos, order, upcoming), order[i]))
  {
    AssignedAt(infos, order, upcoming, i);
    UpcomingIsPlain(upcoming, Drawn(infos, order[..i]));
  }

  lemma UpcomingIsPlain(upcoming: Upcoming, k: nat)
    requires upcoming.FromNonce? && upcoming.Valid()
    ensures PlainAddress(upcoming.At(k))
  {
    NonceAddressAt(upcoming, k);
    NonceAddressBits(upcoming.h, upcoming.fromAddress, upcoming.nonce + k);
    FortyDigitsArePlain(upcoming.At(k));
  }

  /** So contracts for a running network without addresses of their own, linked to each other,
      can be planned exactly under that condition. */
  lemma LivePlanIffCovered(h: Hash, from: string, startingNonce: nat, infos: Infos, contracts: seq<Contract>,
                           order: seq<Contract>, code: map<Contract, seq<Token>>)
    requires IsAddressText(from) && Distinct(contracts)
    requires ClosedIn(infos) && (forall c | c in contracts :: c in infos) && Described(infos, contracts, code)
    requires forall c | c in contracts :: !HasAddressIn(infos, c) && forall d | d in infos[c].links :: d in contracts
    requires multiset(order) == multiset(contracts) && (forall c | c in order :: c in infos)
    ensures Plannable(infos, Assigned(infos, order, FromNonce(h, from, startingNonce)), contracts) <==>
              Registrable(infos, contracts) && forall c | c in contracts :: Covered(infos, c, code[c])
  {
    var addresses := Assigned(infos, order, FromNonce(h, from, startingNonce));
    Rearranged(contracts, order);
    forall d | d in contracts
      ensures PlainAddress(AddressIn(infos, addresses, d))
    {
      var i :| 0 <= i < |order| && order[i] == d;
      PredictedIsPlain(FromNonce(h, from, startingNonce), infos, order, i);
    }
    assert forall c | c in contracts :: forall d | d in infos[c].links :: d in contracts && d in infos;
    PlainIsClean(infos, addresses, contracts, code);
    PlannableIffCovered(infos, addresses, contracts, code);
  }

  lemma GenesisIsPlain(first: string, infos: Infos, order: seq<Contract>, k: nat)
    requires IsAddressText(first) && |first| == 2 + ADDRESS_DIGITS && Distinct(order) && k < |order|
    requires AddressValue(first) + |order| <= Pow16(ADDRESS_DIGITS)
    requires forall c | c in order :: c in infos && !HasAddressIn(infos, c)
    ensures order[k] in infos && PlainAddress(AddressIn(infos, Assigned(infos, order, Counting(first)), order[k]))
  {
    assert order[k] in order;
    GenesisAddress(first, infos, order, k);
    NthIsPlain(first, k);
  }

  lemma NthIsPlain(first: string, k: nat)
    requires IsAddressText(first) && |first| == 2 + ADDRESS_DIGITS && AddressValue(first) + k < Pow16(ADDRESS_DIGITS)
    ensures PlainAddress(NthAddress(first, k))
  {
    AddressTextValue(AddressValue(first) + k);
    AddressDigits(AddressValue(first) + k);
    FortyDigitsArePlain(NthAddress(first, k));
  }

  /** The same for a chain specification, as long as the addresses fit forty digits. */
  lemma GenesisPlanIffCovered(first: string, infos: Infos, contracts: seq<Contract>, order: seq<Contract>,
                              code: map<Contract, seq<Token>>)
    requires IsAddressText(first) && |first| == 2 + ADDRESS_DIGITS && Distinct(contracts)
    requires AddressValue(first) + |contracts| <= Pow16(ADDRESS_DIGITS)
    requires ClosedIn(infos) && (forall c | c in contracts :: c in infos) && Described(infos, contracts, code)
    requires forall c | c in contracts :: !HasAddressIn(infos, c) && forall d | d in infos[c].links :: d in contracts
    requires multiset(order) == multiset(contracts) && (forall c | c in order :: c in infos)
    ensures Plannable(infos, Assigned(infos, order, Counting(first)), contracts) <==>
              Registrable(infos, contracts) && forall c | c in contracts :: Covered(infos, c, code[c])
  {
    var addresses := Assigned(infos, order, Counting(first));
    Rearranged(contracts, order);
    forall d | d in contracts
      ensures PlainAddress(AddressIn(infos, addresses, d))
    {
      var i :| 0 <= i < |order| && order[i] == d;
      GenesisIsPlain(first, infos, order, i);
    }
    assert forall c | c in contracts :: forall d | d in infos[c].links :: d in contracts && d in infos;
    PlainIsClean(infos, addresses, contracts, code);
    PlannableIffCovered(infos, addresses, contracts, code);
  }
}
