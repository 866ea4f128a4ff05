/** A contract on its way from its compiled form to the data of its creation transaction
    (tools/deployment_tool/Contract.js). */
module Contracts {
  import opened Results
  import opened Linking
  import opened AddressGenerators

  datatype State = StateNew | StateLinked | StateInstantiated

  datatype Error =
    | WrongState
    | MissingConstructorArguments
    | MissingConstructorAbi
    | MissingAddress
    | MissingAddressGenerator
    | NotFullyLinked

  /** `encodeParameters` of web3: the inputs of a constructor and the values for them. */
  type AbiEncoder = (string, seq<string>) -> string

  datatype Argument = Plain(value: string) | Reference(contract: Contract)

  class Contract {
    const contractName: string
    const constructorAbi: Option<string>
    const constructorArgs: Option<seq<Argument>>
    var contractBytecode: string
    var linkReplacements: seq<Contract>
    var address: Option<string>
    var constructorData: string
    var state: State

    constructor (contractName: string, contractBytecode: string,
                 constructorAbi: Option<string>, constructorArgs: Option<seq<Argument>>)
      ensures this.contractName == contractName && this.contractBytecode == contractBytecode
      ensures this.constructorAbi == constructorAbi && this.constructorArgs == constructorArgs
      ensures state == StateNew && linkReplacements == [] && address == None
    {
      this.contractName := contractName;
      this.contractBytecode := contractBytecode;
      this.constructorAbi := constructorAbi;
      this.constructorArgs := constructorArgs;
      linkReplacements := [];
      address := None;
      constructorData := "";
      state := StateNew;
    }

    method AddLinkedDependency(linkedContract: Contract) returns (r: Result<(), Error>)
      modifies this`linkReplacements
      ensures r == (if state == StateNew then Success(()) else Failure(WrongState))
      ensures linkReplacements == old(linkReplacements) + if r.Success? then [linkedContract] else []
    {
      if state != StateNew {
        return Failure(WrongState);
      }
      linkReplacements := linkReplacements + [linkedContract];
      r := Success(());
    }

    method SetAddress(address: string) returns (r: Result<string, Error>)
      modifies this`address
      ensures r == (if state != StateInstantiated then Success(address) else Failure(WrongState))
      ensures this.address == if r.Success? then Some(address) else old(this.address)
    {
      if state !in [StateNew, StateLinked] {
        return Failure(WrongState);
      }
      this.address := Some(address);
      r := Success(address);
    }

    /** Set beforehand; an empty address counts as not set. */
    predicate HasAddress()
      reads this`address
    {
      address.Some? && address.value != ""
    }

    method SetGeneratedAddress(addressGenerator: Option<AddressGenerator>) returns (r: Result<string, Error>)
      requires addressGenerator.Some? ==> addressGenerator.value.Left().Valid() && addressGenerator.value.Repr() != this
      modifies this`address, if addressGenerator.Some? then {addressGenerator.value.Repr()} else {}
      ensures r.Success? <==> state != StateInstantiated && (old(HasAddress()) || addressGenerator.Some?)
      ensures r.Failure? ==> r.error == if state == StateInstantiated then WrongState else MissingAddressGenerator
      ensures r.Success? ==> address == Some(r.value)
      ensures r.Failure? || old(HasAddress()) ==>
                && address == old(address)
                && (addressGenerator.Some? ==> addressGenerator.value.Left() == old(addressGenerator.value.Left()))
      ensures r.Success? && !old(HasAddress()) ==>
                && address == Some(old(addressGenerator.value.Left()).At(0))
                && addressGenerator.value.Left() == old(addressGenerator.value.Left()).After(1)
    {
      if state !in [StateNew, StateLinked] {
        return Failure(WrongState);
      }
      if address.Some? && address.value != "" {
        return Success(address.value);
      }
      :- Need(addressGenerator.Some?, MissingAddressGenerator);
      var generator := addressGenerator.value;
      var generated := generator.GenerateAddress();
      address := Some(generated);
      r := Success(generated);
    }

    function GetAddress(): Result<Option<string>, Error>
      reads this
    {
      if state == StateInstantiated then Success(address) else Failure(WrongState)
    }

    /** Contracts whose addresses are constructor arguments. */
    function References(): seq<Contract> {
      if constructorArgs.Some? then ReferencesIn(constructorArgs.value) else []
    }

    function ReferenceTargets(): set<Contract> {
      if constructorArgs.Some? then Targets(constructorArgs.value) else {}
    }

    /** All contracts whose addresses are arguments are instantiated and have one. */
    ghost predicate ReferencesUsable()
      reads ReferenceTargets()`state, ReferenceTargets()`address
    {
      forall d | d in ReferenceTargets() :: Usable(d)
    }

    /** Contracts that have to be instantiated before this one, with repetitions. */
    function Dependencies(): seq<Contract>
      reads this`linkReplacements
    {
      References() + linkReplacements
    }

    /** What `instantiate` demands: the state and the constructor data of the contract itself,
        and instantiated dependencies with addresses that link all of its bytecode. */
    ghost predicate Instantiable()
      reads this`state, this`contractBytecode, this`linkReplacements
      reads ReferenceTargets()`state, ReferenceTargets()`address, linkReplacements`state, linkReplacements`address
    {
      && state == StateNew
      && (constructorAbi.Some? <==> constructorArgs.Some?)
      && ReferencesUsable()
      && (forall d | d in linkReplacements :: Usable(d))
      && FullyLinked(LinkAll(contractBytecode, LinksTo(linkReplacements, map[])))
    }

    /** The part of it that comes before the constructor arguments are encoded. */
    ghost predicate Linkable()
      reads this`state, this`contractBytecode, this`linkReplacements
      reads linkReplacements`state, linkReplacements`address
    {
      && state == StateNew
      && (forall d | d in linkReplacements :: Usable(d))
      && FullyLinked(LinkAll(contractBytecode, LinksTo(linkReplacements, map[])))
    }

    /** The bytecode with the contracts linked that come before the first unusable one. */
    ghost function PartlyLinked(): string
      reads this`contractBytecode, this`linkReplacements, linkReplacements`state, linkReplacements`address
    {
      LinkAll(contractBytecode, LinksTo(linkReplacements, map[])[..LeadingUsable(linkReplacements)])
    }

    /** What stops linking in the state NEW. */
    ghost function LinkError(): Option<Error>
      reads this`contractBytecode, this`linkReplacements, linkReplacements`state, linkReplacements`address
    {
      var m := LeadingUsable(linkReplacements);
      if m < |linkReplacements| then Some(UseError(linkReplacements[m]))
      else if !FullyLinked(PartlyLinked()) then Some(NotFullyLinked)
      else None
    }

    /** What stops the encoding of the constructor arguments. */
    ghost function EncodeError(): Option<Error>
      reads ReferenceTargets()`state, ReferenceTargets()`address
    {
      var m := LeadingUsable(References());
      if m < |References()| then Some(UseError(References()[m])) else None
    }

    /** What stops linking, or else encoding. */
    ghost function BuildError(): Option<Error>
      reads this`contractBytecode, this`linkReplacements
      reads ReferenceTargets()`state, ReferenceTargets()`address, linkReplacements`state, linkReplacements`address
    {
      if LinkError().Some? then LinkError() else EncodeError()
    }

    /** What stops instantiation, in the order of the checks. */
    ghost function InstantiateError(): Option<Error>
      reads this`state, this`contractBytecode, this`linkReplacements
      reads ReferenceTargets()`state, ReferenceTargets()`address, linkReplacements`state, linkReplacements`address
    {
      if state != StateNew then Some(WrongState)
      else if constructorAbi.Some? && constructorArgs.None? then Some(MissingConstructorArguments)
      else if constructorArgs.Some? && constructorAbi.None? then Some(MissingConstructorAbi)
      else BuildError()
    }

    /** The creation data, given the addresses of contracts that are still to get theirs. */
    ghost function Data(encoder: AbiEncoder, addresses: map<Contract, string>): string
      reads this`contractBytecode, this`linkReplacements, ReferenceTargets()`address, linkReplacements`address
    {
      LinkAll(contractBytecode, LinksTo(linkReplacements, addresses)) + EncodedArguments(encoder, addresses)
    }

    ghost function EncodedArguments(encoder: AbiEncoder, addresses: map<Contract, string>): string
      reads ReferenceTargets()`address
    {
      if constructorArgs.None? || constructorAbi.None? then ""
      else WithoutTwo(encoder(constructorAbi.value, Dereferenced(constructorArgs.value, addresses)))
    }

    /** The text is what the encoder makes of the arguments, references replaced by addresses,
        without its first two characters; nothing if there are no arguments. */
    ghost predicate EncodesArguments(encoder: AbiEncoder, encoded: string)
      reads ReferenceTargets()`address
    {
      if constructorArgs.None? || constructorAbi.None? then encoded == ""
      else
        exists values :: Replaced(constructorArgs.value, values) && CutOff(encoder(constructorAbi.value, values), encoded)
    }

    method LinkBytecodeReplacement(contractName: string, contractAddress: string) returns (linked: string)
      ensures linked == LinkOne(contractBytecode, Link(contractName, contractAddress))
      ensures "0x" <= contractAddress ==> linked == ReplaceAll(contractBytecode, Placeholder(contractName), contractAddress[2..])
    {
      linked := ReplaceAll(contractBytecode, Placeholder(contractName), WithoutPrefix(contractAddress));
    }

    /** The loop over the linked contracts; it applies the links before the first unusable one. */
    method ApplyLinks() returns (r: Result<(), Error>)
      modifies this`contractBytecode
      ensures contractBytecode == old(PartlyLinked())
      ensures r.Success? <==> old(LeadingUsable(linkReplacements)) == |linkReplacements|
      ensures r.Failure? ==> r.error == old(UseError(linkReplacements[LeadingUsable(linkReplacements)]))
    {
      var contracts := linkReplacements;
      ghost var links, m, original := LinksTo(contracts, map[]), LeadingUsable(contracts), contractBytecode;
      LinkFirstOnesIsLinkAll(original, links, m);
      for i := 0 to |contracts|
        invariant i <= m
        invariant contractBytecode == LinkFirstOnes(original, links, i)
      {
        var linkedContract := contracts[i];
        assert linkedContract in contracts && linkedContract.address == old(linkedContract.address);
        assert i < m <==> old(Usable(linkedContract));
        var linkedAddress :- linkedContract.GetAddress();
        :- Need(linkedAddress.Some?, MissingAddress);
        assert links[i] == Link(linkedContract.contractName, linkedAddress.value);
        contractBytecode := LinkBytecodeReplacement(linkedContract.contractName, linkedAddress.value);
      }
      r := Success(());
    }

    /** In the state NEW the links before the first unusable one are applied, even if it fails. */
    method LinkBytecode() returns (r: Result<(), Error>)
      modifies this`state, this`contractBytecode
      ensures r.Success? <==> old(Linkable())
      ensures state == if r.Success? then StateLinked else old(state)
      ensures old(state != StateNew) ==> r == Failure(WrongState) && contractBytecode == old(contractBytecode)
      ensures old(state == StateNew) ==>
                && contractBytecode == old(PartlyLinked())
                && old(LinkError()) == (if r.Success? then None else Some(r.error))
      ensures r.Success? ==> contractBytecode == old(LinkAll(contractBytecode, LinksTo(linkReplacements, map[])))
    {
      if state != StateNew {
        return Failure(WrongState);
      }
      ghost var links := LinksTo(linkReplacements, map[]);
      assert links[..|links|] == links;
      var _ :- ApplyLinks();
      :- Need(FullyLinked(contractBytecode), NotFullyLinked);
      state := StateLinked;
      r := Success(());
    }

    method EncodeConstructorArguments(encoder: AbiEncoder) returns (r: Result<string, Error>)
      requires constructorArgs.Some? ==> constructorAbi.Some?
      ensures r.Success? <==> ReferencesUsable()
      ensures EncodeError() == if r.Success? then None else Some(r.error)
      ensures r.Success? ==> r.value == EncodedArguments(encoder, map[])
      ensures r.Success? ==> EncodesArguments(encoder, r.value)
    {
      if constructorArgs.None? {
        return Success("");
      }
      var args := constructorArgs.value;
      var values: seq<string> := [];
      for i := 0 to |args|
        invariant values == Dereferenced(args[..i], map[])
        invariant forall d | d in ReferencesIn(args[..i]) :: Usable(d)
      {
        DereferencedAt(args, i, map[]);
        ReferencesOneMore(args, i);
        match args[i]
        case Plain(value) =>
          values := values + [value];
        case Reference(contract) =>
          assert args[i] in args && contract in ReferenceTargets();
          ReferenceAt(args, i);
          if !Usable(contract) {
            LeadingUsableIs(ReferencesIn(args), |ReferencesIn(args[..i])|);
          }
          var referenced :- contract.GetAddress();
          :- Need(referenced.Some?, MissingAddress);
          values := values + [referenced.value];
      }
      assert args[..|args|] == args;
      LeadingUsableIs(ReferencesIn(args), |ReferencesIn(args)|);
      DereferencedReplaces(args);
      r := Success(WithoutTwo(encoder(constructorAbi.value, values)));
    }

    /** Linking does not change whether other contracts can be referred to, nor whether this one can. */
    method LinkForEncoding(ghost encoder: AbiEncoder) returns (r: Result<(), Error>)
      modifies this`state, this`contractBytecode
      ensures r.Success? <==> old(Linkable())
      ensures state == if r.Success? then StateLinked else old(state)
      ensures old(state == StateNew) ==> contractBytecode == old(PartlyLinked())
      ensures r.Success? ==> old(BuildError()) == EncodeError()
      ensures r.Failure? && old(state == StateNew) ==> old(BuildError()) == Some(r.error)
      ensures r.Success? ==> contractBytecode == old(LinkAll(contractBytecode, LinksTo(linkReplacements, map[])))
      ensures r.Success? ==> ReferencesUsable() == old(ReferencesUsable())
      ensures r.Success? ==> EncodedArguments(encoder, map[]) == old(EncodedArguments(encoder, map[]))
    {
      ghost var references, m := References(), LeadingUsable(References());
      r := LinkBytecode();
      if r.Success? {
        assert forall d | d in ReferenceTargets() :: d.address == old(d.address) && (d == this || d.state == old(d.state));
        assert forall k | 0 <= k < |references| :: references[k] in ReferenceTargets();
        LeadingUsableIs(references, m);
      }
    }

    /** Linking and encoding, in this order. */
    method BuildConstructorData(encoder: AbiEncoder) returns (r: Result<string, Error>, ghost encoded: string)
      requires constructorArgs.Some? ==> constructorAbi.Some?
      modifies this`state, this`contractBytecode
      ensures r.Success? <==> old(Linkable()) && old(ReferencesUsable())
      ensures r.Success? ==> r.value == contractBytecode + encoded
      ensures state == if old(Linkable()) then StateLinked else old(state)
      ensures r.Success? ==> old(BuildError()) == None
      ensures r.Failure? && old(state == StateNew) ==>
                contractBytecode == old(PartlyLinked()) && old(BuildError()) == Some(r.error)
      ensures r.Success? ==> contractBytecode == old(LinkAll(contractBytecode, LinksTo(linkReplacements, map[])))
      ensures r.Success? ==> encoded == old(EncodedArguments(encoder, map[])) && EncodesArguments(encoder, encoded)
    {
      encoded := EncodedArguments(encoder, map[]);
      var _ :- LinkForEncoding(encoder);
      var arguments :- EncodeConstructorArguments(encoder);
      r := Success(contractBytecode + arguments);
    }

    /** A failure leaves the links before the first unusable one applied, and the state LINKED if it
        was the constructor arguments that failed. */
    method Instantiate(encoder: AbiEncoder) returns (r: Result<string, Error>)
      modifies this`state, this`contractBytecode, this`constructorData
      ensures r.Success? <==> old(Instantiable())
      ensures old(InstantiateError()) == if r.Success? then None else Some(r.error)
      ensures old(state) != StateNew ==> r == Failure(WrongState)
      ensures old(state) == StateNew ==>
                && (constructorAbi.Some? && constructorArgs.None? ==> r == Failure(MissingConstructorArguments))
                && (constructorArgs.Some? && constructorAbi.None? ==> r == Failure(MissingConstructorAbi))
      ensures r.Success? ==>
                && state == StateInstantiated
                && constructorData == r.value == old(Data(encoder, map[]))
                && contractBytecode == old(LinkAll(contractBytecode, LinksTo(linkReplacements, map[])))
      ensures r.Success? ==> exists arguments :: r.value == contractBytecode + arguments && EncodesArguments(encoder, arguments)
      ensures r.Failure? ==>
                var links := old(state == StateNew) && (constructorAbi.Some? <==> constructorArgs.Some?);
                && constructorData == old(constructorData)
                && state == (if links && old(Linkable()) then StateLinked else old(state))
                && contractBytecode == if links then old(PartlyLinked()) else old(contractBytecode)
    {
      if state != StateNew {
        return Failure(WrongState);
      }
      :- Need(constructorAbi.Some? ==> constructorArgs.Some?, MissingConstructorArguments);
      :- Need(constructorArgs.Some? ==> constructorAbi.Some?, MissingConstructorAbi);
      var built, encoded :- BuildConstructorData(encoder);
      constructorData := built;
      state := StateInstantiated;
      r := Success(constructorData);
    }
  }

  /** A contract that refers to one that is not instantiated yet: instantiating the other one
      afterwards does not help, since the first attempt leaves the contract in the state LINKED. */
  method StuckInLinked(encoder: AbiEncoder) returns (stuck: Contract, first: Result<string, Error>, second: Result<string, Error>)
    ensures fresh(stuck) && stuck.state == StateLinked
    ensures first == Failure(WrongState) && second == Failure(WrongState)
  {
    var other := new Contract("Other", "0x00", None, None);
    var args := [Reference(other)];
    stuck := new Contract("Stuck", "0x00", Some(""), Some(args));
    assert args[0].contract in stuck.ReferenceTargets();
    assert stuck.Linkable();
    first := stuck.Instantiate(encoder);
    assert other.Instantiable();
    var instantiated := other.Instantiate(encoder);
    assert instantiated.Success?;
    second := stuck.Instantiate(encoder);
  }

  /** How many contracts come before the first one whose address cannot be taken. */
  function LeadingUsable(contracts: seq<Contract>): (m: nat)
    reads contracts`state, contracts`address
    ensures m <= |contracts| && (forall k | 0 <= k < m :: Usable(contracts[k]))
    ensures m < |contracts| ==> !Usable(contracts[m])
  {
    if contracts == [] || !Usable(contracts[0]) then 0 else 1 + LeadingUsable(contracts[1..])
  }

  lemma {:induction false} LeadingUsableIs(contracts: seq<Contract>, m: nat)
    requires m <= |contracts| && (forall k | 0 <= k < m :: Usable(contracts[k]))
    requires m < |contracts| ==> !Usable(contracts[m])
    ensures LeadingUsable(contracts) == m
  {
    if m > 0 {
      LeadingUsableIs(contracts[1..], m - 1);
    }
  }

  /** Linking stops at the first linked contract that is not instantiated or has no address; if there
      is none, it fails exactly for bytecode that is empty or has an underscore left. */
  lemma LinkErrorIs(c: Contract, k: nat)
    requires k <= |c.linkReplacements| && forall j | 0 <= j < k :: Usable(c.linkReplacements[j])
    ensures k < |c.linkReplacements| ==>
              var d := c.linkReplacements[k];
              && (d.state != StateInstantiated ==> c.LinkError() == Some(WrongState))
              && (d.state == StateInstantiated && d.address == None ==> c.LinkError() == Some(MissingAddress))
    ensures k == |c.linkReplacements| ==>
              var linked := LinkAll(c.contractBytecode, LinksTo(c.linkReplacements, map[]));
              c.LinkError() == if linked == "" || '_' in linked then Some(NotFullyLinked) else None
  {
    if k == |c.linkReplacements| || !Usable(c.linkReplacements[k]) {
      LeadingUsableIs(c.linkReplacements, k);
    }
    ghost var links := LinksTo(c.linkReplacements, map[]);
    assert links[..|links|] == links;
  }

  /** Encoding stops at the first argument that refers to such a contract. */
  lemma EncodeErrorIs(c: Contract, k: nat)
    requires c.constructorArgs.Some? && k < |c.constructorArgs.value| && c.constructorArgs.value[k].Reference?
    requires forall d | d in Targets(c.constructorArgs.value[..k]) :: Usable(d)
    ensures var d := c.constructorArgs.value[k].contract;
            && (d.state != StateInstantiated ==> c.EncodeError() == Some(WrongState))
            && (d.state == StateInstantiated && d.address == None ==> c.EncodeError() == Some(MissingAddress))
  {
    var args := c.constructorArgs.value;
    if !Usable(args[k].contract) {
      var references, n := ReferencesIn(args), |ReferencesIn(args[..k])|;
      ReferenceAt(args, k);
      assert forall j | 0 <= j < n :: references[j] == references[..n][j] && references[..n][j] in ReferencesIn(args[..k]);
      LeadingUsableIs(references, n);
    }
  }

  /** Why the address of a contract cannot be taken. */
  function UseError(c: Contract): Error
    reads c`state
  {
    if c.state != StateInstantiated then WrongState else MissingAddress
  }

  /** `slice(2)`. */
  function WithoutTwo(s: string): (cut: string)
    ensures CutOff(s, cut)
  {
    if |s| <= 2 then "" else s[2..]
  }

  /** The text without its first two characters, such as the 0x of encoded arguments. */
  predicate CutOff(s: string, cut: string) {
    if |s| < 2 then cut == "" else s == s[..2] + cut
  }

  /** The arguments with every reference replaced by the address of its contract. */
  ghost predicate Replaced(args: seq<Argument>, values: seq<string>)
    reads Targets(args)`address
  {
    && |values| == |args|
    && forall k | 0 <= k < |args| ::
         assert args[k] in args;
         match args[k]
         case Plain(value) => values[k] == value
         case Reference(contract) => contract.address == Some(values[k])
  }

  lemma {:induction false} DereferencedReplaces(args: seq<Argument>)
    requires forall d | d in Targets(args) :: d.address.Some?
    ensures Replaced(args, Dereferenced(args, map[]))
  {
    if args != [] {
      assert args[0].Reference? ==> args[0].contract in Targets(args);
      assert Targets(args[1..]) <= Targets(args);
      DereferencedReplaces(args[1..]);
      assert forall k | 0 < k < |args| :: args[k] == args[1..][k - 1];
    }
  }

  function ReferenceOf(arg: Argument): seq<Contract> {
    if arg.Reference? then [arg.contract] else []
  }

  function ReferencesIn(args: seq<Argument>): (r: seq<Contract>)
    ensures forall d | d in r :: d in Targets(args)
    ensures forall d | d in Targets(args) :: d in r
  {
    if args == [] then [] else ReferenceOf(args[0]) + ReferencesIn(args[1..])
  }

  lemma Regroup(a: seq<Contract>, b: seq<Contract>, c: seq<Contract>)
    ensures a + (b + c) == (a + b) + c
  {
  }

  lemma {:induction false} ReferencesSplit(left: seq<Argument>, right: seq<Argument>)
    ensures ReferencesIn(left + right) == ReferencesIn(left) + ReferencesIn(right)
  {
    if left == [] {
      assert left + right == right;
    } else {
      ReferencesSplit(left[1..], right);
      assert (left + right)[0] == left[0] && (left + right)[1..] == left[1..] + right;
      Regroup(ReferenceOf(left[0]), ReferencesIn(left[1..]), ReferencesIn(right));
    }
  }

  lemma ReferencesOneMore(args: seq<Argument>, i: nat)
    requires i < |args|
    ensures ReferencesIn(args[..i + 1]) == ReferencesIn(args[..i]) + ReferenceOf(args[i])
  {
    var one := [args[i]];
    assert args[..i + 1] == args[..i] + one;
    assert one[1..] == [];
    ReferencesSplit(args[..i], one);
  }

  lemma ReferenceAt(args: seq<Argument>, i: nat)
    requires i < |args| && args[i].Reference?
    ensures var n := |ReferencesIn(args[..i])|;
            && n < |ReferencesIn(args)| && ReferencesIn(args)[..n] == ReferencesIn(args[..i])
            && ReferencesIn(args)[n] == args[i].contract
  {
    assert args == args[..i] + args[i..];
    ReferencesSplit(args[..i], args[i..]);
    assert ReferencesIn(args[i..])[0] == args[i].contract;
  }

  function Targets(args: seq<Argument>): set<Contract> {
    set a | a in args && a.Reference? :: a.contract
  }

  /** A contract whose address others can already take. */
  predicate Usable(c: Contract)
    reads c`state, c`address
  {
    c.state == StateInstantiated && c.address.Some?
  }

  /** The address of a contract: the assigned one, else the one it has. */
  function AddressOf(c: Contract, addresses: map<Contract, string>): string
    reads c`address
  {
    if c in addresses then addresses[c] else if c.address.Some? then c.address.value else ""
  }

  function LinksTo(contracts: seq<Contract>, addresses: map<Contract, string>): (links: seq<Link>)
    reads contracts`address
    ensures |links| == |contracts|
    ensures forall i | 0 <= i < |contracts| :: links[i] == Link(contracts[i].contractName, AddressOf(contracts[i], addresses))
  {
    if contracts == [] then []
    else [Link(contracts[0].contractName, AddressOf(contracts[0], addresses))] + LinksTo(contracts[1..], addresses)
  }

  function ValueOf(arg: Argument, addresses: map<Contract, string>): string
    reads (if arg.Reference? then {arg.contract} else {})`address
  {
    if arg.Reference? then AddressOf(arg.contract, addresses) else arg.value
  }

  function Dereferenced(args: seq<Argument>, addresses: map<Contract, string>): seq<string>
    reads Targets(args)`address
  {
    if args == [] then [] else [ValueOf(args[0], addresses)] + Dereferenced(args[1..], addresses)
  }

  lemma {:induction false} DereferencedAt(args: seq<Argument>, i: nat, addresses: map<Contract, string>)
    requires i < |args|
    ensures Dereferenced(args[..i + 1], addresses) == Dereferenced(args[..i], addresses) + [ValueOf(args[i], addresses)]
  {
    if i > 0 {
      DereferencedAt(args[1..], i - 1, addresses);
      assert args[..i + 1][1..] == args[1..][..i] && args[..i][1..] == args[1..][..i - 1];
    } else {
      assert args[..1][1..] == [];
    }
  }
}
