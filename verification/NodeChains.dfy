/** The chain of node contents a pattern describes: what createNodes is meant to build, given
    the path sections and the initial contents of the branch key arrays, which are used up from
    the value upwards. */
module NodeChains {
  import opened Bytes
  import opened Nibbles
  import opened Patterns
  import opened TrieNodes

  /** The section a symbol needs, at the end of the pattern or before it. */
  predicate SectionFits(symbol: char, last: bool, section: Buffer) {
    if symbol == 'b' then (if last then section == [] else |section| == 1 && section[0] < 16)
    else symbol == (if last then 'l' else 'e') && section != [] && IsNibbleArray(section)
  }

  /** The node of a symbol, above a node with the given hash. */
  function NodeAt(symbol: char, last: bool, section: Buffer, value: Buffer, keys: seq<Buffer>, below: Buffer): NodeData
    requires SectionFits(symbol, last, section) && value != [] && (symbol == 'b' ==> |keys| == 16)
    requires !last ==> below != []
  {
    if symbol == 'l' then Leaf(section, value)
    else if symbol == 'e' then Extension(section, below)
    else if last then Branch(keys, value)
    else Branch(keys[section[0] := below], [])
  }

  /** Which key array serves the branch at this position. */
  function KeysIndex(pattern: string, i: nat): nat
    requires i < |pattern|
  {
    CountBranches(pattern[i + 1..])
  }

  /** Sections and key arrays that serve the pattern from some position on. */
  predicate FitFrom(pattern: string, sections: seq<Buffer>, branches: seq<seq<Buffer>>, from: nat)
    requires from <= |pattern|
  {
    && |sections| == |pattern|
    && (forall j | from <= j < |pattern| :: SectionFits(pattern[j], j + 1 == |pattern|, sections[j]))
    && CountBranches(pattern[from..]) <= |branches|
    && forall k | 0 <= k < |branches| :: |branches[k]| == 16
  }

  /** And all of it, with no key array left over. */
  predicate Fit(pattern: string, sections: seq<Buffer>, branches: seq<seq<Buffer>>) {
    pattern != "" && FitFrom(pattern, sections, branches, 0) && |branches| == CountBranches(pattern)
  }

  lemma CountBranchesFrom(pattern: string, i: nat)
    requires i < |pattern|
    ensures CountBranches(pattern[i..]) == CountBranches(pattern[i + 1..]) + if pattern[i] == 'b' then 1 else 0
    ensures pattern[0..] == pattern
  {
    assert pattern[i..][1..] == pattern[i + 1..];
  }

  lemma {:induction false} FitFromLater(pattern: string, sections: seq<Buffer>, branches: seq<seq<Buffer>>, from: nat, later: nat)
    requires from <= later <= |pattern| && FitFrom(pattern, sections, branches, from)
    ensures FitFrom(pattern, sections, branches, later)
    decreases later - from
  {
    if from < later {
      CountBranchesFrom(pattern, from);
      FitFromLater(pattern, sections, branches, from + 1, later);
    }
  }

  /** The nodes from a position down to the value, each but the last holding the next one's hash. */
  function ChainFrom(h: Hash, pattern: string, value: Buffer, sections: seq<Buffer>, branches: seq<seq<Buffer>>, i: nat)
    : (nodes: seq<NodeData>)
    requires i <= |pattern| && FitFrom(pattern, sections, branches, i) && value != []
    ensures |nodes| == |pattern| - i
    decreases |pattern| - i
  {
    if i == |pattern| then []
    else
      CountBranchesFrom(pattern, i);
      var below := ChainFrom(h, pattern, value, sections, branches, i + 1);
      var keys := if pattern[i] == 'b' then branches[KeysIndex(pattern, i)] else [];
      [NodeAt(pattern[i], i + 1 == |pattern|, sections[i], value, keys,
              if below == [] then [] else HashOf(h, below[0]))] + below
  }

  function Chain(h: Hash, pattern: string, value: Buffer, sections: seq<Buffer>, branches: seq<seq<Buffer>>)
    : (nodes: seq<NodeData>)
    requires Fit(pattern, sections, branches) && value != []
    ensures |nodes| == |pattern|
  {
    ChainFrom(h, pattern, value, sections, branches, 0)
  }

  /** The hash through which a node refers to the next one on a path taking this section. */
  function Reference(node: NodeData, section: Buffer): Buffer {
    match node
    case Leaf(_, _) => []
    case Extension(_, key) => key
    case Branch(keys, _) => if |section| == 1 && section[0] < 16 then keys[section[0]] else []
  }

  lemma {:induction false} ChainFromAt(h: Hash, pattern: string, value: Buffer, sections: seq<Buffer>,
                                       branches: seq<seq<Buffer>>, from: nat, i: nat)
    requires from <= i <= |pattern| && FitFrom(pattern, sections, branches, from) && value != []
    ensures FitFrom(pattern, sections, branches, i)
    ensures ChainFrom(h, pattern, value, sections, branches, from)[i - from..]
         == ChainFrom(h, pattern, value, sections, branches, i)
    decreases i - from
  {
    FitFromLater(pattern, sections, branches, from, i);
    if from < i {
      FitFromLater(pattern, sections, branches, from, from + 1);
      ChainFromAt(h, pattern, value, sections, branches, from + 1, i);
      var nodes := ChainFrom(h, pattern, value, sections, branches, from);
      assert nodes[1..] == ChainFrom(h, pattern, value, sections, branches, from + 1);
      assert nodes[1..][i - from - 1..] == nodes[i - from..];
    }
  }

  /** The i-th node is of the kind its symbol says, holds its section or the value, and holds
      the hash of the next node where that section leads to; the other keys of a branch are those of
      the key array whose number is that of the branches below it. */
  lemma ChainLinked(h: Hash, pattern: string, value: Buffer, sections: seq<Buffer>, branches: seq<seq<Buffer>>, i: nat)
    requires Fit(pattern, sections, branches) && value != [] && i < |pattern|
    ensures SectionFits(pattern[i], i + 1 == |pattern|, sections[i])
    ensures var node := Chain(h, pattern, value, sections, branches)[i];
            match pattern[i]
            case 'l' => node == Leaf(sections[i], value)
            case 'e' => node.Extension? && node.nibblePath == sections[i]
            case _ => node.Branch? && node.value == if i + 1 == |pattern| then value else []
    ensures i + 1 < |pattern| ==>
              var nodes := Chain(h, pattern, value, sections, branches);
              Reference(nodes[i], sections[i]) == HashOf(h, nodes[i + 1])
    ensures pattern[i] == 'b' ==>
              var keys, k := Chain(h, pattern, value, sections, branches)[i].keys, CountBranches(pattern[i + 1..]);
              && k < |branches| && |branches[k]| == 16
              && forall s | 0 <= s < 16 && (i + 1 == |pattern| || s != sections[i][0]) :: keys[s] == branches[k][s]
  {
    var nodes := Chain(h, pattern, value, sections, branches);
    ChainFromAt(h, pattern, value, sections, branches, 0, i);
    CountBranchesFrom(pattern, i);
    assert nodes[i..][0] == nodes[i];
    if i + 1 < |pattern| {
      assert nodes[i..][1] == nodes[i + 1];
    }
  }
}
