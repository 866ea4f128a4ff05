/** Compact (hex-prefix) encoding of node paths, as LeafNode and ExtensionNode write it and
    as Appendix C of the Ethereum Yellow Paper reads it. */
module CompactEncoding {
  import opened Results
  import opened Bytes
  import opened GeneratorErrors
  import opened Nibbles

  /** LeafNode.encodeCompact: flag 2 and a zero nibble before an even path, flag 3 before an odd one. */
  function EncodeLeafPath(nibblePath: Buffer): Result<Buffer, Error>
    requires IsNibbleArray(nibblePath)
  {
    if |nibblePath| == 0 then Failure(AssertionFailed)
    else if |nibblePath| % 2 == 0 then Packed([2, 0] + nibblePath)
    else Packed([3] + nibblePath)
  }

  /** ExtensionNode.encodeCompact: the same with flags 0 and 1. */
  function EncodeExtensionPath(nibblePath: Buffer): Result<Buffer, Error>
    requires IsNibbleArray(nibblePath)
  {
    if |nibblePath| == 0 then Failure(AssertionFailed)
    else if |nibblePath| % 2 == 0 then Packed([0, 0] + nibblePath)
    else Packed([1] + nibblePath)
  }

  datatype NodePath = NodePath(terminator: bool, nibbles: Buffer)

  /** The decoder of Appendix C; buffers that no path encodes to give None. */
  function DecodePath(encoded: Buffer): (path: Option<NodePath>)
    ensures path.Some? ==> IsNibbleArray(path.value.nibbles)
  {
    var nibbles := NibblesOf(encoded);
    if nibbles == [] || 4 <= nibbles[0] then None
    else if nibbles[0] % 2 == 1 then Some(NodePath(nibbles[0] == 3, nibbles[1..]))
    else if nibbles[1] == 0 then Some(NodePath(nibbles[0] == 2, nibbles[2..]))
    else None
  }

  function EncodePath(path: NodePath): Result<Buffer, Error>
    requires IsNibbleArray(path.nibbles)
  {
    if path.terminator then EncodeLeafPath(path.nibbles) else EncodeExtensionPath(path.nibbles)
  }

  /** One decoder recovers both the node kind and the path, so no leaf path is encoded like an
      extension path; encoding fails on the empty path only and takes floor(n / 2) + 1 bytes. */
  lemma DecodeEncodedPath(path: NodePath)
    requires IsNibbleArray(path.nibbles)
    ensures EncodePath(path).Success? <==> path.nibbles != []
    ensures path.nibbles != [] ==>
              && DecodePath(EncodePath(path).value) == Some(path)
              && |EncodePath(path).value| == |path.nibbles| / 2 + 1
  {
    if path.nibbles != [] {
      var flags := if |path.nibbles| % 2 == 0 then [if path.terminator then 2 else 0, 0]
                   else [if path.terminator then 3 else 1];
      SplitPack(flags + path.nibbles);
      assert (flags + path.nibbles)[|flags|..] == path.nibbles;
    }
  }

  /** The path read from the nibbles of a buffer, with its flag nibbles, gives the nibbles back. */
  lemma FlagsAndPath(nibbles: Buffer, path: NodePath)
    requires IsNibbleArray(nibbles) && |nibbles| % 2 == 0 && nibbles != [] && nibbles[0] < 4
    requires if nibbles[0] % 2 == 1 then path == NodePath(nibbles[0] == 3, nibbles[1..])
             else nibbles[1] == 0 && path == NodePath(nibbles[0] == 2, nibbles[2..])
    requires path.nibbles != []
    ensures EncodePath(path) == Packed(nibbles)
  {
    if nibbles[0] % 2 == 1 {
      assert |path.nibbles| % 2 == 1;
      assert nibbles == [if path.terminator then 3 else 1] + path.nibbles;
    } else {
      assert |path.nibbles| % 2 == 0;
      assert nibbles == [if path.terminator then 2 else 0, 0] + path.nibbles;
    }
  }

  /** Conversely a buffer that decodes to a non-empty path is the encoding of that path. */
  lemma EncodeDecodedPath(encoded: Buffer)
    requires DecodePath(encoded).Some? && DecodePath(encoded).value.nibbles != []
    ensures EncodePath(DecodePath(encoded).value) == Success(encoded)
  {
    PackSplit(encoded);
    FlagsAndPath(NibblesOf(encoded), DecodePath(encoded).value);
  }
}
