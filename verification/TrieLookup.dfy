/** What a proof has to satisfy: the lookup in a Modified Merkle Patricia Trie (Appendix D of
    the Ethereum Yellow Paper) along a list of node contents, every node being referred to by
    its hash. Written from the standard, independently of the generator. */
module TrieLookup {
  import opened Results
  import opened Bytes
  import opened Nibbles
  import opened CompactEncoding
  import opened TrieNodes
  import Rlp

  datatype Ending = AtLeaf | AtBranch

  datatype Found = Found(value: Buffer, ending: Ending)

  /** Follows the path from the node with the expected hash. The walk must use the whole path
      and every node of the list, and end at a leaf, or at a branch that holds a value. */
  function Lookup(h: Hash, expected: Buffer, nodes: seq<seq<Buffer>>, path: Buffer): Option<Found>
    requires IsNibbleArray(path)
    decreases |nodes|
  {
    if nodes == [] || h(SerializeRaw(nodes[0])) != expected then None
    else
      var node, others := nodes[0], nodes[1..];
      if |node| == 17 then
        if path != [] then Lookup(h, node[path[0]], others, path[1..])
        else if node[16] == [] || others != [] then None
        else Some(Found(node[16], AtBranch))
      else if |node| == 2 then
        match DecodePath(node[0])
        case None => None
        case Some(NodePath(true, section)) =>
          if path != section || others != [] then None else Some(Found(node[1], AtLeaf))
        case Some(NodePath(false, section)) =>
          if !(section <= path) then None else Lookup(h, node[1], others, path[|section|..])
      else None
  }

  /** Two different byte strings with the same hash, exhibited by two lists of nodes. */
  predicate CollidesAt(h: Hash, a: seq<seq<Buffer>>, b: seq<seq<Buffer>>, i: nat) {
    && i < |a| && i < |b|
    && SerializeRaw(a[i]) != SerializeRaw(b[i])
    && h(SerializeRaw(a[i])) == h(SerializeRaw(b[i]))
  }

  predicate Serializable(nodes: seq<seq<Buffer>>) {
    forall i | 0 <= i < |nodes| :: |SerializeRaw(nodes[i])| < Rlp.LENGTH_LIMIT
  }

  /** A root and a path determine the nodes and the value: two lists that both pass are the
      same list, or the two nodes at some depth are a collision of the hash function. */
  lemma {:induction false} LookupBinds(h: Hash, expected: Buffer, a: seq<seq<Buffer>>, b: seq<seq<Buffer>>, path: Buffer)
    requires IsNibbleArray(path)
    requires Lookup(h, expected, a, path).Some? && Lookup(h, expected, b, path).Some?
    requires Serializable(a)
    ensures (a == b) || exists i: nat :: CollidesAt(h, a, b, i)
    decreases |a|
  {
    if SerializeRaw(a[0]) != SerializeRaw(b[0]) {
      assert CollidesAt(h, a, b, 0);
    } else {
      SerializeRawInjective(a[0], b[0]);
      var node := a[0];
      if a[1..] != [] {
        var step := if |node| == 17 then 1 else |DecodePath(node[0]).value.nibbles|;
        var reference := if |node| == 17 then node[path[0]] else node[1];
        LookupBinds(h, reference, a[1..], b[1..], path[step..]);
        if a[1..] != b[1..] {
          var i: nat :| CollidesAt(h, a[1..], b[1..], i);
          assert CollidesAt(h, a, b, i + 1);
        }
      }
      assert a == [a[0]] + a[1..] && b == [b[0]] + b[1..];
    }
  }

  function RawLists(nodes: seq<NodeData>): seq<seq<Buffer>> {
    seq(|nodes|, i requires 0 <= i < |nodes| => Raw(nodes[i]))
  }

  lemma RawListsInjective(a: seq<NodeData>, b: seq<NodeData>)
    requires RawLists(a) == RawLists(b)
    ensures a == b
  {
    assert |RawLists(a)| == |RawLists(b)|;
    forall i | 0 <= i < |a|
      ensures a[i] == b[i]
    {
      assert RawLists(a)[i] == RawLists(b)[i];
      RawInjective(a[i], b[i]);
    }
  }

  // ---------- The transported form ----------

  function NodesItem(nodes: seq<seq<Buffer>>): Rlp.Item {
    Rlp.List(seq(|nodes|, i requires 0 <= i < |nodes| => RawItem(nodes[i])))
  }

  /** Reads a list of lists of byte strings back from its RLP encoding. */
  function DecodeNodes(encoded: Buffer): Option<seq<seq<Buffer>>> {
    match Rlp.Decode(encoded)
    case None => None
    case Some(item) => if NodeLists(item) then Some(ListsOf(item)) else None
  }

  predicate Strings(item: Rlp.Item) {
    item.List? && forall i | 0 <= i < |item.items| :: item.items[i].Str?
  }

  predicate NodeLists(item: Rlp.Item) {
    item.List? && forall i | 0 <= i < |item.items| :: Strings(item.items[i])
  }

  function StringsOf(item: Rlp.Item): seq<Buffer>
    requires Strings(item)
  {
    seq(|item.items|, i requires 0 <= i < |item.items| => item.items[i].bytes)
  }

  function ListsOf(item: Rlp.Item): seq<seq<Buffer>>
    requires NodeLists(item)
  {
    seq(|item.items|, i requires 0 <= i < |item.items| => StringsOf(item.items[i]))
  }

  lemma DecodeEncodedNodes(nodes: seq<seq<Buffer>>)
    requires |Rlp.Encode(NodesItem(nodes))| < Rlp.LENGTH_LIMIT
    ensures DecodeNodes(Rlp.Encode(NodesItem(nodes))) == Some(nodes)
  {
    var item := NodesItem(nodes);
    Rlp.DecodeEncode(item);
    forall i | 0 <= i < |nodes|
      ensures Strings(item.items[i]) && StringsOf(item.items[i]) == nodes[i]
    {
      assert item.items[i] == RawItem(nodes[i]);
      assert StringsOf(RawItem(nodes[i])) == nodes[i];
    }
    assert ListsOf(item) == nodes;
  }

  /** The check a verifier of a proof performs, on the proof as it is transported. */
  predicate Verifies(h: Hash, digest: Buffer, path: Buffer, rlpParentNodes: Buffer, root: Buffer) {
    match DecodeNodes(rlpParentNodes)
    case None => false
    case Some(nodes) =>
      match Lookup(h, root, nodes, NibblesOf(path))
      case None => false
      case Some(Found(value, AtLeaf)) => digest == h(value)
      case Some(Found(value, AtBranch)) => digest == h(Rlp.EncodeString(value))
  }
}
