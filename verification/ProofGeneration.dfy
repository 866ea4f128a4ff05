/** Generating a Merkle-Patricia proof for a pattern, a path and a value
    (src/FuzzyProofGenerator.ts, generate and generateByPattern). */
module ProofGeneration {
  import opened Results
  import opened Bytes
  import opened GeneratorErrors
  import opened Nibbles
  import opened Patterns
  import opened PathSections
  import opened BranchKeys
  import opened TrieNodes
  import opened NodeChains
  import opened NodeBuilding
  import opened NodeCreation
  import opened TrieLookup
  import Rlp

  datatype ProofData = ProofData(
    pattern: string, value: Buffer, encodedPath: Buffer, rlpParentNodes: Buffer, root: Buffer)

  /** An ending branch holds the value and takes nothing from the path. */
  function WithoutEndingBranch(pattern: string): string
    requires pattern != ""
  {
    if pattern[|pattern| - 1] == 'b' then pattern[..|pattern| - 1] else pattern
  }

  /** The exact condition under which `generate` returns, for every outcome of its random choices. */
  predicate Generates(pattern: string, path: Buffer, value: Buffer) {
    && Valid(pattern)
    && value != []
    && var symbols := WithoutEndingBranch(pattern);
    && |symbols| <= 2 * |path|
    && (CountBranches(symbols) == |symbols| ==> |symbols| == 2 * |path|)
  }

  /** The proof data for a list of nodes. */
  function Assemble(h: Hash, pattern: string, path: Buffer, value: Buffer, nodes: seq<NodeData>): ProofData
    requires nodes != [] && pattern != ""
  {
    ProofData(
      pattern,
      if pattern[|pattern| - 1] == 'b' then h(Rlp.EncodeString(value)) else h(value),
      path,
      Rlp.Encode(NodesItem(RawLists(nodes))),
      HashOf(h, nodes[0]))
  }

  /** The random choices of a run that succeeds: how the path is cut and what the key arrays hold. */
  predicate Choices(pattern: string, path: Buffer, value: Buffer, sections: seq<Buffer>, branches: seq<seq<Buffer>>) {
    Valid(pattern) && value != [] && Fit(pattern, sections, branches) && Flatten(sections) == NibblesOf(path)
  }

  /** The outcome of some run of `generate`. */
  ghost predicate Generated(h: Hash, pattern: string, path: Buffer, value: Buffer, proof: ProofData) {
    exists sections, branches ::
      && Choices(pattern, path, value, sections, branches)
      && proof == Assemble(h, pattern, path, value, Chain(h, pattern, value, sections, branches))
  }

  lemma {:induction false} FlattenNibbles(parts: seq<Buffer>, i: nat)
    requires IsNibbleArray(Flatten(parts)) && i < |parts|
    ensures IsNibbleArray(parts[i])
  {
    assert forall k | 0 <= k < |parts[0]| :: parts[0][k] == Flatten(parts)[k];
    assert forall k | 0 <= k < |Flatten(parts[1..])| :: Flatten(parts[1..])[k] == Flatten(parts)[|parts[0]| + k];
    if i > 0 {
      FlattenNibbles(parts[1..], i - 1);
    }
  }

  /** Sections cut at random serve every symbol of the pattern. */
  lemma RandomSectionsFit(pattern: string, nibblePath: Buffer, cut: seq<Buffer>, sections: seq<Buffer>,
                          branches: seq<seq<Buffer>>)
    requires Valid(pattern) && IsNibbleArray(nibblePath)
    requires Partition(WithoutEndingBranch(pattern), nibblePath, cut)
    requires sections == if pattern[|pattern| - 1] == 'b' then cut + [[]] else cut
    requires |branches| == CountBranches(pattern) && forall k | 0 <= k < |branches| :: |branches[k]| == 16
    ensures Fit(pattern, sections, branches) && Flatten(sections) == nibblePath
  {
    ValidIffWellPlaced(pattern);
    forall i | 0 <= i < |cut|
      ensures IsNibbleArray(cut[i])
    {
      FlattenNibbles(cut, i);
    }
    SectionsServe(pattern, cut, sections);
    FlattenAppend(cut, []);
    assert pattern[0..] == pattern;
  }

  lemma SectionsServe(pattern: string, cut: seq<Buffer>, sections: seq<Buffer>)
    requires pattern != "" && forall i | 0 <= i < |pattern| :: WellPlaced(pattern, i)
    requires |cut| == (if pattern[|pattern| - 1] == 'b' then |pattern| - 1 else |pattern|)
    requires forall i | 0 <= i < |cut| :: cut[i] != [] && IsNibbleArray(cut[i]) && (pattern[i] == 'b' ==> |cut[i]| == 1)
    requires sections == if pattern[|pattern| - 1] == 'b' then cut + [[]] else cut
    ensures forall i | 0 <= i < |pattern| :: SectionFits(pattern[i], i + 1 == |pattern|, sections[i])
  {
    forall i | 0 <= i < |pattern|
      ensures SectionFits(pattern[i], i + 1 == |pattern|, sections[i])
    {
      assert WellPlaced(pattern, i);
      SectionServes(pattern, i, sections[i]);
    }
  }

  lemma SectionServes(pattern: string, i: nat, section: Buffer)
    requires i < |pattern| && WellPlaced(pattern, i)
    requires if i + 1 == |pattern| && pattern[i] == 'b' then section == []
             else section != [] && IsNibbleArray(section) && (pattern[i] == 'b' ==> |section| == 1)
    ensures SectionFits(pattern[i], i + 1 == |pattern|, section)
  {
  }

  lemma SymbolsAreKnown(pattern: string)
    requires Valid(pattern)
    ensures WithoutEndingBranch(pattern) != "" && KnownSymbols(WithoutEndingBranch(pattern))
  {
    ValidIffWellPlaced(pattern);
    forall i | 0 <= i < |pattern|
      ensures KnownSymbol(pattern[i])
    {
      assert WellPlaced(pattern, i);
    }
    assert WellPlaced(pattern, 0);
  }

  /** The list that is encoded and transported, read from the nodes as they are at the end. */
  method RawNodes(nodes: seq<NodeObject>, ghost chain: seq<NodeData>) returns (rawNodes: seq<seq<Buffer>>)
    requires Holds(nodes, chain)
    ensures rawNodes == RawLists(chain)
  {
    rawNodes := [];
    for i := 0 to |nodes|
      invariant rawNodes == RawLists(chain)[..i]
    {
      rawNodes := rawNodes + [Raw(Snapshot(nodes[i]))];
    }
  }

  /** The end of `generate`: the proof data, read from the nodes. */
  method ReadProof(h: Hash, pattern: string, path: Buffer, value: Buffer, nodes: seq<NodeObject>, ghost chain: seq<NodeData>)
    returns (proof: ProofData)
    requires Holds(nodes, chain) && nodes != [] && pattern != ""
    ensures proof == Assemble(h, pattern, path, value, chain)
  {
    var rlpValue := Rlp.EncodeString(value);
    var valueHash, rlpValueHash := h(value), h(rlpValue);
    var rlpParentNodesArray := RawNodes(nodes, chain);
    assert Snapshot(nodes[0]) == chain[0];
    proof := ProofData(
      pattern,
      if pattern[|pattern| - 1] == 'b' then rlpValueHash else valueHash,
      path,
      Rlp.Encode(NodesItem(rlpParentNodesArray)),
      HashOf(h, Snapshot(nodes[0])));
  }

  lemma ChosenIsGenerated(h: Hash, pattern: string, path: Buffer, value: Buffer, sections: seq<Buffer>,
                          branches: seq<seq<Buffer>>)
    requires Choices(pattern, path, value, sections, branches)
    ensures Generated(h, pattern, path, value, Assemble(h, pattern, path, value, Chain(h, pattern, value, sections, branches)))
  {
  }

  method Generate(h: Hash, pattern: string, path: Buffer, value: Buffer) returns (r: Result<ProofData, Error>)
    ensures r.Success? <==> Generates(pattern, path, value)
    ensures r.Success? ==> Generated(h, pattern, path, value, r.value)
    ensures r.Failure? ==> r.error == if Valid(pattern) then AssertionFailed else AssertPatternValidity(pattern).error
  {
    var validity := AssertPatternValidity(pattern);
    :- validity;
    SymbolsAreKnown(pattern);
    var endingWithBranchNode := pattern[|pattern| - 1] == 'b';
    var nibblePath := ToNibbles(path);
    var checked := AssertNibbleArray(nibblePath);
    assert checked.Pass?;
    :- Need(|pattern| - (if endingWithBranchNode then 1 else 0) <= |nibblePath|, AssertionFailed);

    var cut :- GenerateRandomPathData(WithoutEndingBranch(pattern), nibblePath);
    var pathData := if endingWithBranchNode then cut + [[]] else cut;
    var branchesKeysData := GenerateRandomBranchesKeysData(h, CountBranches(pattern));
    ghost var branches := Contents(branchesKeysData);
    RandomSectionsFit(pattern, nibblePath, cut, pathData, branches);
    CompleteIffFit(pattern, pathData, branchesKeysData, branches);
    var nodes :- CreateNodes(h, pattern, value, pathData, branchesKeysData);
    ghost var chain := Chain(h, pattern, value, pathData, branches);

    var proof := ReadProof(h, pattern, path, value, nodes, chain);
    ChosenIsGenerated(h, pattern, path, value, pathData, branches);
    r := Success(proof);
  }

  /** The exact condition under which `generateByPattern` returns. */
  predicate GeneratesByPattern(pattern: string, pathMaxLength: int, valueMaxLength: int) {
    && 1 <= valueMaxLength
    && Valid(pattern)
    && (|pattern| + 1) / 2 <= pathMaxLength
    && CountBranches(pattern) < |pattern|
  }

  function Branches(n: nat): string {
    seq(n, _ => 'b')
  }

  /** Two or more branches are a valid pattern that `generateByPattern` never serves, while
      `generate` serves it for exactly the paths with one nibble less. */
  lemma BranchesOnly(n: nat)
    requires 2 <= n
    ensures Valid(Branches(n))
    ensures forall pathMaxLength: int, valueMaxLength: int :: !GeneratesByPattern(Branches(n), pathMaxLength, valueMaxLength)
    ensures forall path, value :: Generates(Branches(n), path, value) <==> value != [] && 2 * |path| == n - 1
  {
    var pattern := Branches(n);
    assert forall i | 0 <= i < n :: WellPlaced(pattern, i);
    ValidIffWellPlaced(pattern);
    BranchesCount(n);
    BranchesCount(n - 1);
    assert WithoutEndingBranch(pattern) == Branches(n - 1);
  }

  lemma {:induction false} BranchesCount(n: nat)
    ensures CountBranches(Branches(n)) == n
  {
    if n > 0 {
      BranchesCount(n - 1);
      assert Branches(n)[1..] == Branches(n - 1);
    }
  }

  /** The pattern bbb for the path 00 and the value 01. */
  lemma ThreeBranches()
    ensures Valid("bbb") && Generates("bbb", [0], [1])
    ensures forall pathMaxLength: int, valueMaxLength: int :: !GeneratesByPattern("bbb", pathMaxLength, valueMaxLength)
  {
    assert "bbb" == Branches(3);
    BranchesOnly(3);
  }

  /** A random path and a random value for a pattern. No path it draws suits a pattern of
      branches only, such as "bbb", although `generate` serves some of them. */
  method GenerateByPattern(h: Hash, pattern: string, pathMaxLength: int, valueMaxLength: int)
    returns (r: Result<ProofData, Error>)
    ensures r.Success? <==> GeneratesByPattern(pattern, pathMaxLength, valueMaxLength)
    ensures r.Success? ==> exists path, value ::
              && (|pattern| + 1) / 2 <= |path| <= pathMaxLength
              && 1 <= |value| <= valueMaxLength
              && Generated(h, pattern, path, value, r.value)
    ensures r.Failure? ==>
              r.error == if Valid(pattern) || pathMaxLength < 1 || valueMaxLength < 1 then AssertionFailed
                         else AssertPatternValidity(pattern).error
  {
    if pathMaxLength < 1 {
      return Failure(AssertionFailed);
    }
    :- Need(1 <= valueMaxLength, AssertionFailed);
    :- AssertPatternValidity(pattern);
    var pathMinLength := (|pattern| + 1) / 2;
    :- Need(pathMinLength <= pathMaxLength, AssertionFailed);
    var pathLength :| pathMinLength <= pathLength <= pathMaxLength;
    var path := RandomBytes(pathLength);
    var valueLength :| 1 <= valueLength <= valueMaxLength;
    var value := RandomBytes(valueLength);
    EndingBranchCounted(pattern);
    r := Generate(h, pattern, path, value);
  }

  /** Some symbol takes more than one nibble exactly if a long enough path is never refused. */
  lemma EndingBranchCounted(pattern: string)
    requires pattern != ""
    ensures var symbols := WithoutEndingBranch(pattern);
            if CountBranches(pattern) < |pattern| then CountBranches(symbols) < |symbols|
            else CountBranches(symbols) == |symbols| == |pattern| - 1
  {
    CountBranchesStep(pattern, |pattern| - 1);
    assert pattern[..|pattern|] == pattern;
  }
}
