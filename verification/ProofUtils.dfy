/** Flattening a proof received as separately encoded nodes, and reading the account value out
    of the result (test_integration/lib/proof_utils.js), on bytes instead of hex strings. */
module ProofUtils {
  import opened Results
  import opened Bytes
  import opened Nibbles
  import CompactEncoding
  import opened TrieNodes
  import opened TrieLookup
  import opened ProofTheorems
  import Rlp

  /** The decoder of the RLP library. */
  type Decoder = Buffer -> Option<Rlp.Item>

  /** It reads the encodings of the standard back, whatever else it accepts. */
  ghost predicate ReadsEncodings(decode: Decoder) {
    forall item: Rlp.Item :: |Rlp.Encode(item)| < Rlp.LENGTH_LIMIT ==> decode(Rlp.Encode(item)) == Some(item)
  }

  /** The strict decoder of the standard is such a decoder. */
  lemma StandardReadsEncodings()
    ensures ReadsEncodings(b => Rlp.Decode(b))
  {
    forall item: Rlp.Item | |Rlp.Encode(item)| < Rlp.LENGTH_LIMIT
      ensures Rlp.Decode(Rlp.Encode(item)) == Some(item)
    {
      Rlp.DecodeEncode(item);
    }
  }

  /** The encoding of the list of everything the given buffers decode to. */
  function Flattened(decode: Decoder, proof: seq<Buffer>): Option<Buffer> {
    match DecodedList(decode, proof)
    case None => None
    case Some(items) => Some(Rlp.Encode(Rlp.List(items)))
  }

  function DecodedList(decode: Decoder, proof: seq<Buffer>): (r: Option<seq<Rlp.Item>>)
    ensures r.Some? ==> |r.value| == |proof|
  {
    if proof == [] then Some([])
    else
      match DecodedList(decode, proof[..|proof| - 1])
      case None => None
      case Some(items) =>
        match decode(proof[|proof| - 1])
        case None => None
        case Some(item) => Some(items + [item])
  }

  /** Flattening fails exactly if some buffer does not decode. */
  lemma {:induction false} FlattenedIff(decode: Decoder, proof: seq<Buffer>)
    ensures Flattened(decode, proof).Some? <==> forall i | 0 <= i < |proof| :: decode(proof[i]).Some?
  {
    if proof != [] {
      var last := |proof| - 1;
      FlattenedIff(decode, proof[..last]);
      assert forall i | 0 <= i < last :: proof[..last][i] == proof[i];
    }
  }

  method SerializeProof(decode: Decoder, proof: seq<Buffer>) returns (r: Option<Buffer>)
    ensures r == Flattened(decode, proof)
    ensures r.Some? <==> forall i | 0 <= i < |proof| :: decode(proof[i]).Some?
  {
    FlattenedIff(decode, proof);
    var serializedProof: seq<Rlp.Item> := [];
    for i := 0 to |proof|
      invariant DecodedList(decode, proof[..i]) == Some(serializedProof)
    {
      assert proof[..i + 1][..i] == proof[..i];
      var decoded := decode(proof[i]);
      if decoded == None {
        return None;
      }
      serializedProof := serializedProof + [decoded.value];
    }
    assert proof[..|proof|] == proof;
    r := Some(Rlp.Encode(Rlp.List(serializedProof)));
  }

  lemma {:induction false} AllDecoded(decode: Decoder, proof: seq<Buffer>, items: seq<Rlp.Item>)
    requires |proof| == |items| && forall i | 0 <= i < |proof| :: decode(proof[i]) == Some(items[i])
    ensures DecodedList(decode, proof) == Some(items)
  {
    if proof != [] {
      var last := |proof| - 1;
      AllDecoded(decode, proof[..last], items[..last]);
      assert items == items[..last] + [items[last]];
    }
  }

  /** The encoding of some item. */
  predicate Canonical(b: Buffer) {
    |b| < Rlp.LENGTH_LIMIT && Rlp.Decode(b).Some?
  }

  /** Encodings of the standard are transported unchanged: the result is a list prefix and then the
      given buffers, byte for byte, one after the other. */
  lemma FlattenedKeepsBytes(decode: Decoder, proof: seq<Buffer>)
    requires ReadsEncodings(decode) && forall i | 0 <= i < |proof| :: Canonical(proof[i])
    ensures Flattened(decode, proof) == Some(Rlp.Header(Rlp.LIST_OFFSET, |Flatten(proof)|) + Flatten(proof))
  {
    var items := seq(|proof|, i requires 0 <= i < |proof| => Rlp.Decode(proof[i]).value);
    forall i | 0 <= i < |proof|
      ensures proof[i] == Rlp.Encode(items[i]) && decode(proof[i]) == Some(items[i])
    {
      Rlp.EncodeDecode(proof[i]);
    }
    AllDecoded(decode, proof, items);
    Rlp.EncodeAllIsFlatten(items, proof);
  }

  /** Serialized nodes flatten to the same transported form as the generator gives them. */
  lemma FlattenedNodes(decode: Decoder, nodes: seq<seq<Buffer>>)
    requires ReadsEncodings(decode) && Serializable(nodes)
    ensures Flattened(decode, seq(|nodes|, i requires 0 <= i < |nodes| => SerializeRaw(nodes[i])))
         == Some(Rlp.Encode(NodesItem(nodes)))
  {
    var proof := seq(|nodes|, i requires 0 <= i < |nodes| => SerializeRaw(nodes[i]));
    AllDecoded(decode, proof, NodesItem(nodes).items);
  }

  /** The last entry of the last node; indexing anything else throws. */
  function EncodedAccountValue(decode: Decoder, accountProof: Buffer): Option<Buffer> {
    match decode(accountProof)
    case None => None
    case Some(item) =>
      if !item.List? || item.items == [] then None
      else
        var leafElement := item.items[|item.items| - 1];
        if !leafElement.List? || leafElement.items == [] then None
        else
          match leafElement.items[|leafElement.items| - 1]
          case Str(bytes) => Some(bytes)
          case List(_) => None
  }

  lemma {:induction false} LookupEndsAtLast(h: Hash, expected: Buffer, nodes: seq<seq<Buffer>>, path: Buffer)
    requires IsNibbleArray(path) && Lookup(h, expected, nodes, path).Some?
    ensures nodes != [] && nodes[|nodes| - 1] != []
    ensures var last := nodes[|nodes| - 1];
            last[|last| - 1] == Lookup(h, expected, nodes, path).value.value
    decreases |nodes|
  {
    if nodes[1..] != [] {
      var node := nodes[0];
      var step := if |node| == 17 then 1 else |CompactEncoding.DecodePath(node[0]).value.nibbles|;
      LookupEndsAtLast(h, if |node| == 17 then node[path[0]] else node[1], nodes[1..], path[step..]);
      assert nodes[1..][|nodes[1..]| - 1] == nodes[|nodes| - 1];
    }
  }

  /** The value read this way from the flattened nodes of any accepted proof is the one the
      lookup finds, whatever kind of node it ends at. */
  lemma AccountValueIsLookedUp(decode: Decoder, h: Hash, root: Buffer, nodes: seq<seq<Buffer>>, path: Buffer)
    requires ReadsEncodings(decode) && IsNibbleArray(path) && Lookup(h, root, nodes, path).Some?
    requires |Rlp.Encode(NodesItem(nodes))| < Rlp.LENGTH_LIMIT
    ensures var flattened := Flattened(decode, seq(|nodes|, i requires 0 <= i < |nodes| => SerializeRaw(nodes[i])));
            && flattened.Some?
            && EncodedAccountValue(decode, flattened.value) == Some(Lookup(h, root, nodes, path).value.value)
  {
    SerializableParts(nodes);
    FlattenedNodes(decode, nodes);
    LookupEndsAtLast(h, root, nodes, path);
    LastEntryIsRead(decode, nodes);
  }

  lemma LastEntryIsRead(decode: Decoder, nodes: seq<seq<Buffer>>)
    requires ReadsEncodings(decode) && nodes != [] && nodes[|nodes| - 1] != []
    requires |Rlp.Encode(NodesItem(nodes))| < Rlp.LENGTH_LIMIT
    ensures var last := nodes[|nodes| - 1];
            EncodedAccountValue(decode, Rlp.Encode(NodesItem(nodes))) == Some(last[|last| - 1])
  {
    var last := nodes[|nodes| - 1];
    assert NodesItem(nodes).items[|nodes| - 1] == RawItem(last);
    assert RawItem(last).items[|last| - 1] == Rlp.Str(last[|last| - 1]);
  }
}
