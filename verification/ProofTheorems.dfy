/** What generated proofs are good for: every one of them passes the lookup of the standard,
    and no two of them disagree about the value at a path under one root. */
module ProofTheorems {
  import opened Results
  import opened Bytes
  import opened Nibbles
  import opened CompactEncoding
  import opened TrieNodes
  import opened NodeChains
  import opened TrieLookup
  import opened ProofGeneration
  import Rlp

  // ---------- Completeness ----------

  function EndingOf(pattern: string): Ending
    requires pattern != ""
  {
    if pattern[|pattern| - 1] == 'b' then AtBranch else AtLeaf
  }

  lemma FlattenFrom(sections: seq<Buffer>, i: nat)
    requires i < |sections|
    ensures Flatten(sections[i..]) == sections[i] + Flatten(sections[i + 1..])
  {
    assert sections[i..][1..] == sections[i + 1..];
  }

  /** A node that is not the last one hands the walk over to the node it refers to. */
  lemma LookupThrough(h: Hash, node: NodeData, section: Buffer, others: seq<seq<Buffer>>, rest: Buffer)
    requires IsNibbleArray(section) && IsNibbleArray(rest) && IsNibbleArray(section + rest)
    requires (node.Extension? && node.nibblePath == section) || (node.Branch? && |section| == 1)
    ensures Lookup(h, HashOf(h, node), [Raw(node)] + others, section + rest)
         == Lookup(h, Reference(node, section), others, rest)
  {
    var nodes := [Raw(node)] + others;
    assert nodes[0] == Raw(node) && nodes[1..] == others;
    assert (section + rest)[|section|..] == rest;
    if node.Extension? {
      DecodeEncodedPath(NodePath(false, section));
      assert section <= section + rest;
    } else {
      assert Raw(node)[section[0]] == node.keys[section[0]];
    }
  }

  lemma LookupEnds(h: Hash, node: NodeData, section: Buffer)
    requires IsNibbleArray(section)
    requires (node.Leaf? && node.nibblePath == section) || (node.Branch? && section == [] && node.value != [])
    ensures Lookup(h, HashOf(h, node), [Raw(node)], section)
         == Some(Found(node.value, if node.Leaf? then AtLeaf else AtBranch))
  {
    if node.Leaf? {
      DecodeEncodedPath(NodePath(true, section));
    } else {
      assert Raw(node)[16] == node.value;
    }
  }

  lemma NibbleParts(section: Buffer, rest: Buffer)
    requires IsNibbleArray(section + rest)
    ensures IsNibbleArray(section) && IsNibbleArray(rest)
  {
    assert forall k | 0 <= k < |section| :: section[k] == (section + rest)[k];
    assert forall k | 0 <= k < |rest| :: rest[k] == (section + rest)[|section| + k];
  }

  lemma ChainHead(h: Hash, pattern: string, value: Buffer, sections: seq<Buffer>, branches: seq<seq<Buffer>>, i: nat)
    requires i + 1 < |pattern| && FitFrom(pattern, sections, branches, i) && value != []
    ensures FitFrom(pattern, sections, branches, i + 1)
    ensures var nodes := ChainFrom(h, pattern, value, sections, branches, i);
            var below := ChainFrom(h, pattern, value, sections, branches, i + 1);
            && nodes == [nodes[0]] + below
            && RawLists(nodes) == [Raw(nodes[0])] + RawLists(below)
            && ((nodes[0].Extension? && nodes[0].nibblePath == sections[i]) || (nodes[0].Branch? && |sections[i]| == 1))
            && Reference(nodes[0], sections[i]) == HashOf(h, below[0])
  {
    CountBranchesFrom(pattern, i);
    var nodes := ChainFrom(h, pattern, value, sections, branches, i);
    var below := ChainFrom(h, pattern, value, sections, branches, i + 1);
    assert nodes == [nodes[0]] + below;
    assert RawLists(nodes) == [Raw(nodes[0])] + RawLists(below);
  }

  /** The walk succeeds from every node of a chain on, with what is left of the path. */
  lemma {:induction false} ChainLookup(h: Hash, pattern: string, value: Buffer, sections: seq<Buffer>,
                                       branches: seq<seq<Buffer>>, i: nat)
    requires i < |pattern| && FitFrom(pattern, sections, branches, i) && value != []
    requires IsNibbleArray(Flatten(sections[i..]))
    ensures (var nodes := ChainFrom(h, pattern, value, sections, branches, i);
             Lookup(h, HashOf(h, nodes[0]), RawLists(nodes), Flatten(sections[i..])))
         == Some(Found(value, EndingOf(pattern)))
    decreases |pattern| - i
  {
    FlattenFrom(sections, i);
    NibbleParts(sections[i], Flatten(sections[i + 1..]));
    var nodes := ChainFrom(h, pattern, value, sections, branches, i);
    if i + 1 == |pattern| {
      assert sections[i + 1..] == [];
      assert RawLists(nodes) == [Raw(nodes[0])];
      LookupEnds(h, nodes[0], sections[i]);
    } else {
      ChainHead(h, pattern, value, sections, branches, i);
      ChainLookup(h, pattern, value, sections, branches, i + 1);
      var below := ChainFrom(h, pattern, value, sections, branches, i + 1);
      LookupThrough(h, nodes[0], sections[i], RawLists(below), Flatten(sections[i + 1..]));
    }
  }

  /** Every generated proof is accepted: its nodes, decoded from the transported form, lead
      from the root along exactly the whole path to the value, and the reported digest is the
      one a verifier computes for that kind of ending. */
  lemma GeneratedVerifies(h: Hash, pattern: string, path: Buffer, value: Buffer, proof: ProofData)
    requires Generated(h, pattern, path, value, proof)
    requires |proof.rlpParentNodes| < Rlp.LENGTH_LIMIT
    ensures proof.pattern == pattern && proof.encodedPath == path
    ensures var nodes := DecodeNodes(proof.rlpParentNodes);
            && nodes.Some? && |nodes.value| == |pattern|
            && Lookup(h, proof.root, nodes.value, NibblesOf(path)) == Some(Found(value, EndingOf(pattern)))
    ensures Verifies(h, proof.value, proof.encodedPath, proof.rlpParentNodes, proof.root)
  {
    var sections, branches :|
      && Choices(pattern, path, value, sections, branches)
      && proof == Assemble(h, pattern, path, value, Chain(h, pattern, value, sections, branches));
    DecodeEncodedNodes(RawLists(Chain(h, pattern, value, sections, branches)));
    assert sections[0..] == sections;
    ChainLookup(h, pattern, value, sections, branches, 0);
  }

  // ---------- Binding ----------

  lemma SerializableParts(nodes: seq<seq<Buffer>>)
    requires |Rlp.Encode(NodesItem(nodes))| < Rlp.LENGTH_LIMIT
    ensures Serializable(nodes)
  {
    forall i | 0 <= i < |nodes|
      ensures |SerializeRaw(nodes[i])| < Rlp.LENGTH_LIMIT
    {
      EncodeAllPart(NodesItem(nodes).items, i);
    }
  }

  lemma {:induction false} EncodeAllPart(items: seq<Rlp.Item>, i: nat)
    requires i < |items|
    ensures |Rlp.Encode(items[i])| <= |Rlp.EncodeAll(items)|
  {
    if i > 0 {
      EncodeAllPart(items[1..], i - 1);
    }
  }

  /** Nothing but the generated nodes passes the lookup for a generated root and path, wherever it
      comes from: another list of nodes, or another value, exhibits a collision. */
  lemma AcceptedBinds(h: Hash, pattern: string, path: Buffer, value: Buffer, proof: ProofData, nodes: seq<seq<Buffer>>)
    requires Generated(h, pattern, path, value, proof) && |proof.rlpParentNodes| < Rlp.LENGTH_LIMIT
    ensures DecodeNodes(proof.rlpParentNodes).Some?
    ensures var own, found := DecodeNodes(proof.rlpParentNodes).value, Lookup(h, proof.root, nodes, NibblesOf(path));
            found.Some? ==>
              || (nodes == own && found.value == Found(value, EndingOf(pattern)))
              || exists i: nat :: CollidesAt(h, own, nodes, i)
  {
    GeneratedVerifies(h, pattern, path, value, proof);
    var own := DecodeNodes(proof.rlpParentNodes).value;
    GeneratedSerializable(h, pattern, path, value, proof);
    if Lookup(h, proof.root, nodes, NibblesOf(path)).Some? {
      LookupBinds(h, proof.root, own, nodes, NibblesOf(path));
    }
  }

  lemma GeneratedSerializable(h: Hash, pattern: string, path: Buffer, value: Buffer, proof: ProofData)
    requires Generated(h, pattern, path, value, proof) && |proof.rlpParentNodes| < Rlp.LENGTH_LIMIT
    ensures DecodeNodes(proof.rlpParentNodes).Some? && Serializable(DecodeNodes(proof.rlpParentNodes).value)
  {
    var sections, branches :|
      && Choices(pattern, path, value, sections, branches)
      && proof == Assemble(h, pattern, path, value, Chain(h, pattern, value, sections, branches));
    var nodes := RawLists(Chain(h, pattern, value, sections, branches));
    DecodeEncodedNodes(nodes);
    SerializableParts(nodes);
  }

  /** The kinds of the nodes spell the pattern. */
  function SymbolOf(node: NodeData): char {
    match node
    case Leaf(_, _) => 'l'
    case Extension(_, _) => 'e'
    case Branch(_, _) => 'b'
  }

  lemma ChainSpellsPattern(h: Hash, pattern: string, value: Buffer, sections: seq<Buffer>, branches: seq<seq<Buffer>>)
    requires Fit(pattern, sections, branches) && value != []
    ensures var nodes := Chain(h, pattern, value, sections, branches);
            pattern == seq(|nodes|, i requires 0 <= i < |nodes| => SymbolOf(nodes[i]))
  {
    forall i | 0 <= i < |pattern|
      ensures SymbolOf(Chain(h, pattern, value, sections, branches)[i]) == pattern[i]
    {
      ChainLinked(h, pattern, value, sections, branches, i);
    }
  }

  /** Two generated proofs with the same root for the same path are the same proof, of the same
      value by the same pattern, unless they exhibit a collision of the hash function. */
  lemma GeneratedBinds(h: Hash, path: Buffer,
                       patternA: string, valueA: Buffer, proofA: ProofData,
                       patternB: string, valueB: Buffer, proofB: ProofData)
    requires Generated(h, patternA, path, valueA, proofA) && |proofA.rlpParentNodes| < Rlp.LENGTH_LIMIT
    requires Generated(h, patternB, path, valueB, proofB) && |proofB.rlpParentNodes| < Rlp.LENGTH_LIMIT
    requires proofA.root == proofB.root
    ensures (patternA == patternB && valueA == valueB && proofA == proofB)
         || (&& DecodeNodes(proofA.rlpParentNodes).Some? && DecodeNodes(proofB.rlpParentNodes).Some?
             && exists i: nat :: CollidesAt(h, DecodeNodes(proofA.rlpParentNodes).value,
                                            DecodeNodes(proofB.rlpParentNodes).value, i))
  {
    var sectionsA, branchesA :|
      && Choices(patternA, path, valueA, sectionsA, branchesA)
      && proofA == Assemble(h, patternA, path, valueA, Chain(h, patternA, valueA, sectionsA, branchesA));
    var sectionsB, branchesB :|
      && Choices(patternB, path, valueB, sectionsB, branchesB)
      && proofB == Assemble(h, patternB, path, valueB, Chain(h, patternB, valueB, sectionsB, branchesB));
    var a, b := Chain(h, patternA, valueA, sectionsA, branchesA), Chain(h, patternB, valueB, sectionsB, branchesB);
    GeneratedVerifies(h, patternA, path, valueA, proofA);
    GeneratedVerifies(h, patternB, path, valueB, proofB);
    DecodeEncodedNodes(RawLists(a));
    DecodeEncodedNodes(RawLists(b));
    AcceptedBinds(h, patternA, path, valueA, proofA, RawLists(b));
    if RawLists(a) == RawLists(b) {
      RawListsInjective(a, b);
      ChainSpellsPattern(h, patternA, valueA, sectionsA, branchesA);
      ChainSpellsPattern(h, patternB, valueB, sectionsB, branchesB);
    }
  }

  // ---------- The serialized chain ----------

  function Serialized(nodes: seq<NodeData>): seq<Buffer> {
    seq(|nodes|, i requires 0 <= i < |nodes| => Serialize(nodes[i]))
  }

  /** The transported bytes are a list prefix and then the serialized nodes, one after the other;
      the first of them hashes to the root and each other one to the reference in the node before
      it, at the place where that node's section of the path leads. */
  lemma SerializedChain(h: Hash, pattern: string, path: Buffer, value: Buffer, sections: seq<Buffer>, branches: seq<seq<Buffer>>)
    requires Choices(pattern, path, value, sections, branches)
    ensures var nodes := Chain(h, pattern, value, sections, branches);
            var proof, parts := Assemble(h, pattern, path, value, nodes), Serialized(nodes);
            && proof.rlpParentNodes == Rlp.Header(Rlp.LIST_OFFSET, |Flatten(parts)|) + Flatten(parts)
            && h(parts[0]) == proof.root
            && forall i | 0 <= i < |pattern| - 1 ::
                 && SectionFits(pattern[i], false, sections[i])
                 && h(parts[i + 1]) == Reference(nodes[i], sections[i])
    ensures var nodes := Chain(h, pattern, value, sections, branches);
            var proof := Assemble(h, pattern, path, value, nodes);
            |proof.rlpParentNodes| < Rlp.LENGTH_LIMIT ==> DecodeNodes(proof.rlpParentNodes) == Some(RawLists(nodes))
  {
    var nodes := Chain(h, pattern, value, sections, branches);
    var proof, parts := Assemble(h, pattern, path, value, nodes), Serialized(nodes);
    Rlp.EncodeAllIsFlatten(NodesItem(RawLists(nodes)).items, parts);
    forall i | 0 <= i < |pattern| - 1
      ensures SectionFits(pattern[i], false, sections[i])
      ensures h(parts[i + 1]) == Reference(nodes[i], sections[i])
    {
      ChainLinked(h, pattern, value, sections, branches, i);
    }
    if |proof.rlpParentNodes| < Rlp.LENGTH_LIMIT {
      DecodeEncodedNodes(RawLists(nodes));
    }
  }
}
