/** Building the nodes bottom-up, each with the hash of the one below it
    (src/FuzzyProofGenerator.ts, createNodes). The key arrays are written to in place while branch
    nodes already hold them by reference. */
module NodeCreation {
  import opened Results
  import opened Bytes
  import opened GeneratorErrors
  import opened Sorting
  import opened Patterns
  import opened TrieNodes
  import opened NodeChains
  import opened NodeBuilding

  ghost function Contents(arrays: seq<KeyArray>): (contents: seq<seq<Buffer>>)
    reads arrays
    ensures |contents| == |arrays|
    ensures forall k | 0 <= k < |arrays| :: contents[k] == arrays[k].keys
  {
    if arrays == [] then [] else [arrays[0].keys] + Contents(arrays[1..])
  }

  /** The nodes hold, now, what the chain says. */
  ghost predicate Holds(nodes: seq<NodeObject>, chain: seq<NodeData>)
    reads set n | n in nodes && n.Branch? :: n.keys
  {
    |nodes| == |chain| && forall i | 0 <= i < |nodes| :: Snapshot(nodes[i]) == chain[i]
  }

  lemma LinkedHolds(h: Hash, branches: seq<KeyArray>, before: seq<seq<Buffer>>, k: nat,
                    nodes: seq<NodeObject>, chain: seq<NodeData>, previousHash: Buffer)
    requires k <= |branches| == |before|
    requires Linked(h, branches, before, Contents(branches), k, nodes, chain, previousHash)
    ensures Holds(nodes, chain)
  {
    forall i | 0 <= i < |nodes|
      ensures Snapshot(nodes[i]) == chain[i]
    {
      assert HoldsIn(nodes[i], chain[i], branches, Contents(branches), k);
    }
  }

  /** The arrays hold these contents now. */
  ghost predicate Hold(branches: seq<KeyArray>, contents: seq<seq<Buffer>>)
    reads branches
  {
    |contents| == |branches| && forall q | 0 <= q < |branches| :: branches[q].keys == contents[q]
  }

  /** A branch: it is linked by storing one entry in its key array. */
  method CreateBranch(h: Hash, last: bool, section: Buffer, value: Buffer,
                      branches: seq<KeyArray>, branchIndex: nat, previousHash: Buffer, ghost built: Built)
    returns (r: Result<NodeObject, Error>, ghost next: Built)
    requires Hold(branches, built.contents) && built.used == branchIndex && built.hash == previousHash
    modifies if branchIndex < |branches| then {branches[branchIndex]} else {}
    ensures r.Failure? ==> Round(h, 'b', last, section, value, branches, built) == None && r.error == AssertionFailed
    ensures r.Success? ==>
              && Round(h, 'b', last, section, value, branches, built) == Some(next)
              && next.nodes == [r.value] + built.nodes && next.used == branchIndex + 1
              && Hold(branches, next.contents)
              && Constructed(Snapshot(r.value)) && next.hash == HashOf(h, Snapshot(r.value))
  {
    next := built;
    if |branches| <= branchIndex {
      return Failure(AssertionFailed), next;
    }
    var bks := branches[branchIndex];
    if last {
      if |section| != 0 {
        return Failure(AssertionFailed), next;
      }
      r := NewBranch(bks, value);
    } else {
      if |section| != 1 || !(0 <= section[0] <= 15) {
        return Failure(AssertionFailed), next;
      }
      bks.keys := Stored(bks.keys, section[0], previousHash);
      r := NewBranch(bks, []);
    }
    if r.Success? {
      next := Round(h, 'b', last, section, value, branches, built).value;
    }
  }

  /** One round of the loop. */
  method CreateNode(h: Hash, symbol: char, last: bool, section: Buffer, value: Buffer,
                    branches: seq<KeyArray>, branchIndex: nat, previousHash: Buffer, ghost built: Built)
    returns (r: Result<NodeObject, Error>, ghost next: Built)
    requires value != [] && (symbol == 'b' || symbol == if last then 'l' else 'e')
    requires Hold(branches, built.contents) && built.used == branchIndex && built.hash == previousHash
    requires previousHash == [] <==> last
    modifies if branchIndex < |branches| then {branches[branchIndex]} else {}
    ensures r.Failure? ==> Round(h, symbol, last, section, value, branches, built) == None && r.error == AssertionFailed
    ensures r.Success? ==>
              && Round(h, symbol, last, section, value, branches, built) == Some(next)
              && next.nodes == [r.value] + built.nodes && next.used == (if symbol == 'b' then branchIndex + 1 else branchIndex)
              && Hold(branches, next.contents)
              && Constructed(Snapshot(r.value)) && next.hash == HashOf(h, Snapshot(r.value))
  {
    next := built;
    match symbol {
      case 'l' =>
        assert last && |previousHash| == 0;
        if |section| < 1 {
          return Failure(AssertionFailed), next;
        }
        r := NewLeaf(section, value);
        if r.Success? {
          next := Round(h, symbol, last, section, value, branches, built).value;
        }
      case 'e' =>
        assert |previousHash| != 0;
        if |section| < 1 {
          return Failure(AssertionFailed), next;
        }
        r := NewExtension(section, previousHash);
        if r.Success? {
          next := Round(h, symbol, last, section, value, branches, built).value;
        }
      case 'b' =>
        r, next := CreateBranch(h, last, section, value, branches, branchIndex, previousHash, built);
    }
  }

  lemma RoundSymbols(pattern: string, i: nat)
    requires Valid(pattern) && i < |pattern|
    ensures pattern[i] == 'b' || pattern[i] == if i + 1 == |pattern| then 'l' else 'e'
  {
    ValidIffWellPlaced(pattern);
    assert WellPlaced(pattern, i);
  }

  /** The loop, from the last symbol to the first. */
  method CreateCheckedNodes(h: Hash, pattern: string, value: Buffer, sections: seq<Buffer>, branches: seq<KeyArray>,
                            ghost before: seq<seq<Buffer>>)
    returns (r: Result<seq<NodeObject>, Error>)
    requires value != [] && Valid(pattern) && |sections| == |pattern| && Hold(branches, before)
    modifies branches
    ensures var built := AllBuilt(h, pattern, value, sections, branches, before);
            if r.Failure? then built == None && r.error == AssertionFailed
            else built.Some? && built.value.nodes == r.value && Hold(branches, built.value.contents)
  {
    var nodes: seq<NodeObject> := [];
    var previousHash: Buffer := [];
    var branchIndex := 0;
    ghost var built := Built([], before, 0, []);

    for i := |pattern| downto 0
      invariant built.nodes == nodes && built.used == branchIndex && built.hash == previousHash
      invariant Hold(branches, built.contents)
      invariant BuiltFrom(h, pattern, value, sections, branches, before, i) == Some(built)
    {
      RoundSymbols(pattern, i);
      BuiltOneMore(h, pattern, value, sections, branches, before, i, built);
      var created;
      created, built := CreateNode(h, pattern[i], i == |pattern| - 1, sections[i], value, branches, branchIndex, previousHash,
                                   built);
      if created.Failure? {
        FailureStays(h, pattern, value, sections, branches, before, i);
        return Failure(created.error);
      }
      var node := created.value;
      if pattern[i] == 'b' {
        branchIndex := branchIndex + 1;
      }
      previousHash := HashOf(h, Snapshot(node));
      nodes := [node] + nodes;
    }
    if branchIndex != |branches| {
      return Failure(AssertionFailed);
    }
    r := Success(nodes);
  }

  /** The nodes and the final contents of the arrays are those of the loop as a function. An error
      other than a failed assertion is that of the pattern. */
  method CreateNodes(h: Hash, pattern: string, value: Buffer, sections: seq<Buffer>, branches: seq<KeyArray>)
    returns (r: Result<seq<NodeObject>, Error>)
    modifies branches
    ensures r.Success? <==> value != [] && Valid(pattern) && Complete(pattern, sections, branches, old(Contents(branches)))
    ensures r.Success? ==>
              var built := AllBuilt(h, pattern, value, sections, branches, old(Contents(branches)));
              built.Some? && r.value == built.value.nodes && Contents(branches) == built.value.contents
    ensures r.Success? && Distinct(branches) ==>
              && Fit(pattern, sections, PaddedAll(old(Contents(branches))))
              && Holds(r.value, Chain(h, pattern, value, sections, PaddedAll(old(Contents(branches)))))
    ensures r.Failure? ==>
              r.error == if pattern != "" && value != [] && |sections| == |pattern| && !Valid(pattern)
                         then AssertPatternValidity(pattern).error else AssertionFailed
  {
    if |pattern| == 0 {
      return Failure(AssertionFailed);
    }
    :- Need(|value| != 0, AssertionFailed);
    :- Need(|sections| != 0, AssertionFailed);
    :- Need(|pattern| == |sections|, AssertionFailed);
    :- AssertPatternValidity(pattern);
    ghost var before := Contents(branches);
    AllBuiltIffComplete(h, pattern, value, sections, branches, before);
    r := CreateCheckedNodes(h, pattern, value, sections, branches, before);
    ghost var built := AllBuilt(h, pattern, value, sections, branches, before);
    assert r.Success? ==> Contents(branches) == built.value.contents;
    if r.Success? && Distinct(branches) {
      BuiltIsChain(h, pattern, value, sections, branches, before);
      LinkedHolds(h, branches, before, |branches|, r.value, Chain(h, pattern, value, sections, PaddedAll(before)),
                  built.value.hash);
    }
  }
}
