/** The nodes of a Modified Merkle Patricia Trie (src/LeafNode.ts, src/ExtensionNode.ts,
    src/BranchNode.ts, src/NodeBase.ts).

    The fields of a node are read-only, but a branch node holds its key array by reference.
    `NodeObject` is the node with that reference, `NodeData` what it contains at one moment. */
module TrieNodes {
  import opened Results
  import opened Bytes
  import opened GeneratorErrors
  import opened Nibbles
  import opened CompactEncoding
  import Rlp

  datatype Node<K> =
    | Leaf(nibblePath: Buffer, value: Buffer)
    | Extension(nibblePath: Buffer, key: Buffer)
    | Branch(keys: K, value: Buffer)

  /** An array of keys, which is written to while nodes hold it. */
  class KeyArray {
    var keys: seq<Buffer>

    constructor (keys: seq<Buffer>)
      ensures this.keys == keys
    {
      this.keys := keys;
    }
  }

  type NodeObject = Node<KeyArray>

  /** What the constructors' assertions leave of all conceivable nodes. */
  predicate Constructed(node: Node<seq<Buffer>>) {
    match node
    case Leaf(path, value) => path != [] && value != [] && IsNibbleArray(path)
    case Extension(path, key) => path != [] && key != [] && IsNibbleArray(path)
    case Branch(keys, _) => |keys| == 16
  }

  type NodeData = n: Node<seq<Buffer>> | Constructed(n) witness Branch(seq(16, _ => []), [])

  function NewLeaf<K>(nibblePath: Buffer, value: Buffer): Result<Node<K>, Error> {
    if nibblePath == [] || value == [] || !IsNibbleArray(nibblePath) then Failure(AssertionFailed)
    else Success(Leaf(nibblePath, value))
  }

  function NewExtension<K>(nibblePath: Buffer, key: Buffer): Result<Node<K>, Error> {
    if nibblePath == [] || key == [] || !IsNibbleArray(nibblePath) then Failure(AssertionFailed)
    else Success(Extension(nibblePath, key))
  }

  function NewBranch(keys: KeyArray, value: Buffer): Result<NodeObject, Error>
    reads keys
  {
    if |keys.keys| != 16 then Failure(AssertionFailed) else Success(Branch(keys, value))
  }

  /** The present contents of a node. */
  function Snapshot(node: NodeObject): Node<seq<Buffer>>
    reads if node.Branch? then {node.keys} else {}
  {
    match node
    case Leaf(path, value) => Leaf(path, value)
    case Extension(path, key) => Extension(path, key)
    case Branch(held, value) => Branch(held.keys, value)
  }

  /** The underlying data of a node as a list of buffers. */
  function Raw(node: NodeData): (raw: seq<Buffer>)
    ensures |raw| == if node.Branch? then 17 else 2
  {
    match node
    case Leaf(path, value) =>
      DecodeEncodedPath(NodePath(true, path));
      [EncodeLeafPath(path).value, value]
    case Extension(path, key) =>
      DecodeEncodedPath(NodePath(false, path));
      [EncodeExtensionPath(path).value, key]
    case Branch(keys, value) => keys + [value]
  }

  function RawItem(raw: seq<Buffer>): Rlp.Item {
    Rlp.List(seq(|raw|, i requires 0 <= i < |raw| => Rlp.Str(raw[i])))
  }

  function SerializeRaw(raw: seq<Buffer>): Buffer {
    Rlp.Encode(RawItem(raw))
  }

  function Serialize(node: NodeData): Buffer {
    SerializeRaw(Raw(node))
  }

  function HashOf(h: Hash, node: NodeData): Digest {
    h(Serialize(node))
  }

  /** The raw list identifies the node: item count tells a branch, the flag nibble of the
      first item tells a leaf from an extension. */
  lemma RawInjective(a: NodeData, b: NodeData)
    requires Raw(a) == Raw(b)
    ensures a == b
  {
    if a.Branch? {
      assert a.keys == Raw(a)[..16] && b.keys == Raw(b)[..16];
      assert a.value == Raw(a)[16] && b.value == Raw(b)[16];
    } else {
      DecodeEncodedPath(NodePath(a.Leaf?, a.nibblePath));
      DecodeEncodedPath(NodePath(b.Leaf?, b.nibblePath));
      assert Raw(a)[0] == Raw(b)[0] && Raw(a)[1] == Raw(b)[1];
    }
  }

  lemma RawItemInjective(a: seq<Buffer>, b: seq<Buffer>)
    requires RawItem(a) == RawItem(b)
    ensures a == b
  {
    assert |RawItem(a).items| == |RawItem(b).items|;
    forall i | 0 <= i < |a|
      ensures a[i] == b[i]
    {
      assert RawItem(a).items[i] == RawItem(b).items[i];
    }
  }

  lemma SerializeRawInjective(a: seq<Buffer>, b: seq<Buffer>)
    requires SerializeRaw(a) == SerializeRaw(b)
    requires |SerializeRaw(a)| < Rlp.LENGTH_LIMIT
    ensures a == b
  {
    Rlp.EncodeInjective(RawItem(a), RawItem(b));
    RawItemInjective(a, b);
  }
}
