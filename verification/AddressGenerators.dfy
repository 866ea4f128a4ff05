/** The addresses contracts are predicted to get (tools/deployment_tool/address_generators.js). */
module AddressGenerators {
  import opened Bytes
  import opened Hex
  import Rlp

  predicate IsAddressText(address: string) {
    |address| > 2 && address[..2] == "0x" && IsHex(address[2..])
  }

  function AddressValue(address: string): nat
    requires IsAddressText(address)
  {
    FromHex(address[2..])
  }

  const ADDRESS_DIGITS := 40

  /** A number as an address of at least forty digits. */
  function AddressText(n: nat): string {
    "0x" + PadLeft(ToHex(n), ADDRESS_DIGITS)
  }

  lemma AddressTextValue(n: nat)
    ensures IsAddressText(AddressText(n)) && AddressValue(AddressText(n)) == n && IsLowerHex(AddressText(n)[2..])
  {
    HexRoundTrip(n);
    PaddingKeepsValue(ToHex(n), ADDRESS_DIGITS);
    assert AddressText(n)[2..] == PadLeft(ToHex(n), ADDRESS_DIGITS);
  }

  /** The address given out after k others, when `first` is given out by the next call. */
  function NthAddress(first: string, k: nat): string
    requires IsAddressText(first)
  {
    if k == 0 then first else AddressText(AddressValue(first) + k)
  }

  lemma NthAddressValue(first: string, k: nat)
    requires IsAddressText(first)
    ensures IsAddressText(NthAddress(first, k)) && AddressValue(NthAddress(first, k)) == AddressValue(first) + k
  {
    AddressTextValue(AddressValue(first) + k);
  }

  /** The first address comes back as it was given; from then on the addresses count up in
      hexadecimal and each has forty digits exactly while its number fits them. */
  lemma AddressDigits(n: nat)
    ensures |AddressText(n)| == 2 + ADDRESS_DIGITS <==> n < Pow16(ADDRESS_DIGITS)
  {
    HexLength(n, ADDRESS_DIGITS);
  }

  /** No address is given out twice. */
  lemma AddressesDiffer(first: string, k: nat, other: nat)
    requires IsAddressText(first) && k != other
    ensures NthAddress(first, k) != NthAddress(first, other)
  {
    NthAddressValue(first, k);
    NthAddressValue(first, other);
  }

  /** 0x0000000000000000000000000000000000010000 */
  const DEFAULT_START := "0x" + Zeros(35) + "10000"

  lemma DefaultStartIsAddress()
    ensures IsAddressText(DEFAULT_START) && AddressValue(DEFAULT_START) == 0x10000
  {
    assert DEFAULT_START[2..] == Zeros(35) + "10000";
    assert FromHex("1") == 1 by {
      assert "1"[..0] == "";
    }
    assert "10"[..1] == "1" && "100"[..2] == "10" && "1000"[..3] == "100" && "10000"[..4] == "1000";
    LeadingZeros(35, "10000");
  }

  class IncrementingAddressGenerator {
    var nextAvailableAddress: string

    ghost predicate Valid()
      reads this
    {
      IsAddressText(nextAvailableAddress)
    }

    constructor (startAddress: string)
      requires IsAddressText(startAddress)
      ensures Valid() && nextAvailableAddress == startAddress
    {
      nextAvailableAddress := startAddress;
    }

    method GenerateAddress() returns (addressHex: string)
      requires Valid()
      modifies this
      ensures Valid()
      ensures addressHex == old(nextAvailableAddress) && IsAddressText(addressHex)
      ensures nextAvailableAddress == AddressText(AddressValue(addressHex) + 1)
    {
      addressHex := nextAvailableAddress;
      AddressTextValue(AddressValue(addressHex) + 1);
      nextAvailableAddress := AddressText(AddressValue(addressHex) + 1);
    }
  }

  /** The hash text of sender and nonce, cut by `slice(12)` and `substring(14)`. */
  function NonceAddress(h: Hash, fromAddress: string, nonce: nat): string
    requires IsAddressText(fromAddress)
  {
    var encoded := Rlp.Encode(Rlp.List([Rlp.Str(HexBytes(fromAddress[2..])), Rlp.Str(Rlp.BigEndian(nonce))]));
    var text := "0x" + HexText(h(encoded));
    "0x" + text[12..][14..]
  }

  /** The sender's address and the nonce as the byte strings that are encoded: as many bytes as the
      address has pairs of digits, and the shortest big-endian form. */
  predicate SenderAndNonce(fromAddress: string, nonce: nat, sender: Buffer, number: Buffer)
    requires IsAddressText(fromAddress)
  {
    && |sender| == (|fromAddress| - 1) / 2 && Rlp.FromBigEndian(sender) == AddressValue(fromAddress)
    && (number == [] || number[0] != 0) && Rlp.FromBigEndian(number) == nonce
  }

  /** The rightmost 160 bits of the hash of the list of these two, as section 7 of the Ethereum
      Yellow Paper has it. */
  ghost predicate RightmostBits(h: Hash, fromAddress: string, nonce: nat, address: string)
    requires IsAddressText(fromAddress) && IsAddressText(address)
  {
    exists sender, number ::
      && SenderAndNonce(fromAddress, nonce, sender, number)
      && AddressValue(address) == Rlp.FromBigEndian(h(Rlp.Encode(Rlp.List([Rlp.Str(sender), Rlp.Str(number)])))[12..])
  }

  lemma NonceAddressBits(h: Hash, fromAddress: string, nonce: nat)
    requires IsAddressText(fromAddress)
    ensures var address := NonceAddress(h, fromAddress, nonce);
            && IsAddressText(address) && |address| == 2 + ADDRESS_DIGITS && IsLowerHex(address[2..])
            && RightmostBits(h, fromAddress, nonce, address)
  {
    var address, sender, number := NonceAddress(h, fromAddress, nonce), HexBytes(fromAddress[2..]), Rlp.BigEndian(nonce);
    HexBytesValue(fromAddress[2..]);
    Rlp.BigEndianRoundTrip(nonce);
    assert SenderAndNonce(fromAddress, nonce, sender, number);
    LastTwentyBytes(h(Rlp.Encode(Rlp.List([Rlp.Str(sender), Rlp.Str(number)]))));
  }

  /** What the two cuts leave of a hash. */
  lemma LastTwentyBytes(hash: Digest)
    ensures var address := "0x" + ("0x" + HexText(hash))[12..][14..];
            && IsAddressText(address) && |address| == 2 + ADDRESS_DIGITS && IsLowerHex(address[2..])
            && AddressValue(address) == Rlp.FromBigEndian(hash[12..])
  {
    var cut := ("0x" + HexText(hash))[12..][14..];
    HexTextDrop(hash, 12);
    HexTextIsHex(hash[12..]);
    HexTextValue(hash[12..]);
    assert cut == HexText(hash)[24..];
    assert ("0x" + cut)[2..] == cut;
  }

  /** There is only one such address of forty digits. */
  lemma RightmostBitsAreOne(h: Hash, fromAddress: string, nonce: nat, address: string, other: string)
    requires IsAddressText(fromAddress) && IsAddressText(address) && IsAddressText(other)
    requires RightmostBits(h, fromAddress, nonce, address) && RightmostBits(h, fromAddress, nonce, other)
    requires |address| == |other| && IsLowerHex(address[2..]) && IsLowerHex(other[2..])
    ensures address == other
  {
    var sender, number :|
      && SenderAndNonce(fromAddress, nonce, sender, number)
      && AddressValue(address) == Rlp.FromBigEndian(h(Rlp.Encode(Rlp.List([Rlp.Str(sender), Rlp.Str(number)])))[12..]);
    var sender', number' :|
      && SenderAndNonce(fromAddress, nonce, sender', number')
      && AddressValue(other) == Rlp.FromBigEndian(h(Rlp.Encode(Rlp.List([Rlp.Str(sender'), Rlp.Str(number')])))[12..]);
    Rlp.FromBigEndianInjective(sender, sender');
    Rlp.BigEndianShortest(number);
    Rlp.BigEndianShortest(number');
    LowerHexInjective(address[2..], other[2..]);
    assert address == "0x" + address[2..] && other == "0x" + other[2..];
  }

  class IncrementingNonceAddressGenerator {
    const h: Hash
    const fromAddress: string
    var nextNonce: nat

    constructor (h: Hash, fromAddress: string, startingNonce: nat)
      ensures this.h == h && this.fromAddress == fromAddress && nextNonce == startingNonce
    {
      this.h := h;
      this.fromAddress := fromAddress;
      nextNonce := startingNonce;
    }

    method GenerateAddress() returns (address: string)
      requires IsAddressText(fromAddress)
      modifies this
      ensures address == NonceAddress(h, fromAddress, old(nextNonce)) && nextNonce == old(nextNonce) + 1
      ensures IsAddressText(address) && |address| == 2 + ADDRESS_DIGITS && IsLowerHex(address[2..])
      ensures RightmostBits(h, fromAddress, old(nextNonce), address)
    {
      NonceAddressBits(h, fromAddress, nextNonce);
      address := NonceAddress(h, fromAddress, nextNonce);
      nextNonce := nextNonce + 1;
    }
  }

  /** The addresses a generator has still to give out. */
  datatype Upcoming = Counting(first: string) | FromNonce(h: Hash, fromAddress: string, nonce: nat) {
    predicate Valid() {
      if Counting? then IsAddressText(first) else IsAddressText(fromAddress)
    }

    /** The one given out after k others. */
    function At(k: nat): (address: string)
      requires Valid()
      ensures address != ""
    {
      if Counting? then NthAddress(first, k) else NonceAddress(h, fromAddress, nonce + k)
    }

    /** What is left after k of them. */
    function After(k: nat): (rest: Upcoming)
      requires Valid()
      ensures rest.Valid()
      ensures rest.At(0) == At(k)
    {
      if Counting? then
        NthAddressValue(first, k);
        Counting(NthAddress(first, k))
      else FromNonce(h, fromAddress, nonce + k)
    }
  }

  /** What a genesis plan uses when it is given no generator. */
  function DefaultAddresses(): (upcoming: Upcoming)
    ensures upcoming.Counting? && upcoming.Valid()
    ensures |upcoming.first| == 42 && AddressValue(upcoming.first) == 0x10000
  {
    DefaultStartIsAddress();
    Counting(DEFAULT_START)
  }

  lemma NextCounted(upcoming: Upcoming)
    requires upcoming.Counting? && upcoming.Valid()
    ensures upcoming.At(0) == upcoming.first
    ensures upcoming.After(1) == Counting(AddressText(AddressValue(upcoming.first) + 1))
  {
  }

  lemma NonceAddressAt(upcoming: Upcoming, k: nat)
    requires upcoming.FromNonce? && upcoming.Valid()
    ensures upcoming.At(k) == NonceAddress(upcoming.h, upcoming.fromAddress, upcoming.nonce + k)
  {
  }

  /** Giving out one address more leaves what is left after one more. */
  lemma AfterOneMore(upcoming: Upcoming, k: nat)
    requires upcoming.Valid()
    ensures upcoming.After(k).After(1) == upcoming.After(k + 1)
  {
    if upcoming.Counting? {
      NthAddressValue(upcoming.first, k);
    }
  }

  /** Either kind of generator, behind the one method they share. */
  datatype AddressGenerator =
    | Genesis(addresses: IncrementingAddressGenerator)
    | Live(nonces: IncrementingNonceAddressGenerator)
  {
    function Repr(): object {
      if Genesis? then addresses else nonces
    }

    ghost function Left(): Upcoming
      reads Repr()
    {
      if Genesis? then Counting(addresses.nextAvailableAddress)
      else FromNonce(nonces.h, nonces.fromAddress, nonces.nextNonce)
    }

    method GenerateAddress() returns (address: string)
      requires Left().Valid()
      modifies Repr()
      ensures address == old(Left()).At(0) && Left() == old(Left()).After(1)
      ensures IsAddressText(address)
      ensures Genesis? ==>
                && address == old(addresses.nextAvailableAddress) && addresses.Valid()
                && AddressValue(addresses.nextAvailableAddress) == AddressValue(address) + 1
      ensures Live? ==>
                && RightmostBits(nonces.h, nonces.fromAddress, old(nonces.nextNonce), address)
                && nonces.nextNonce == old(nonces.nextNonce) + 1
    {
      ghost var left := Left();
      if Genesis? {
        address := addresses.GenerateAddress();
        AddressTextValue(AddressValue(address) + 1);
        NextCounted(left);
        assert Left() == left.After(1);
      } else {
        address := nonces.GenerateAddress();
        NonceAddressAt(left, 0);
        assert Left() == left.After(1);
      }
    }
  }
}
