/** The loop of createNodes as a function of what the key arrays held before
    (src/FuzzyProofGenerator.ts, createNodes), for arrays of any length, shared or not, and what
    it builds in terms of the chain. */
module NodeBuilding {
  import opened Results
  import opened Bytes
  import opened Sorting
  import opened Patterns
  import opened TrieNodes
  import opened NodeChains

  /** `keys[slot] = key`. An entry past the end makes the array longer; entries left out in between
      count as empty buffers. */
  function Stored(keys: seq<Buffer>, slot: nat, key: Buffer): (stored: seq<Buffer>)
    ensures slot < |stored| && stored[slot] == key
    ensures |stored| == if slot < |keys| then |keys| else slot + 1
    ensures forall s | 0 <= s < |stored| && s != slot :: stored[s] == if s < |keys| then keys[s] else []
  {
    if slot < |keys| then keys[slot := key] else keys + Empties(slot - |keys|) + [key]
  }

  function Empties(n: nat): (empties: seq<Buffer>)
    ensures |empties| == n
  {
    seq(n, _ => [])
  }

  /** What every variable that refers to the k-th array refers to from now on. */
  function Overwritten(branches: seq<KeyArray>, contents: seq<seq<Buffer>>, k: nat, keys: seq<Buffer>): (r: seq<seq<Buffer>>)
    requires k < |branches| == |contents|
    ensures |r| == |contents| && r[k] == keys
  {
    seq(|contents|, q requires 0 <= q < |contents| => if branches[q] == branches[k] then keys else contents[q])
  }

  /** The nodes made so far, what the key arrays hold, how many of them are used, and the hash of
      the node made last. */
  datatype Built = Built(nodes: seq<NodeObject>, contents: seq<seq<Buffer>>, used: nat, hash: Buffer)

  /** One node more, if its constructor accepts it. */
  function Made(h: Hash, node: NodeObject, data: Node<seq<Buffer>>, contents: seq<seq<Buffer>>, used: nat, built: Built)
    : Option<Built>
  {
    if Constructed(data) then Some(Built([node] + built.nodes, contents, used, HashOf(h, data))) else None
  }

  /** One round of the loop. */
  function Round(h: Hash, symbol: char, last: bool, section: Buffer, value: Buffer, branches: seq<KeyArray>, built: Built)
    : (r: Option<Built>)
    requires |built.contents| == |branches|
    ensures r.Some? ==> |r.value.contents| == |branches| && |r.value.nodes| == |built.nodes| + 1 && r.value.hash != []
  {
    match symbol
    case 'l' =>
      if !last || built.hash != [] || section == [] then None
      else Made(h, Leaf(section, value), Leaf(section, value), built.contents, built.used, built)
    case 'e' =>
      if built.hash == [] || section == [] then None
      else Made(h, Extension(section, built.hash), Extension(section, built.hash), built.contents, built.used, built)
    case 'b' =>
      if |branches| <= built.used then None
      else
        var held, keys := branches[built.used], built.contents[built.used];
        if last then
          if section != [] then None
          else Made(h, Branch(held, value), Branch(keys, value), built.contents, built.used + 1, built)
        else if |section| != 1 || 15 < section[0] then None
        else
          var stored := Stored(keys, section[0], built.hash);
          Made(h, Branch(held, []), Branch(stored, []), Overwritten(branches, built.contents, built.used, stored),
               built.used + 1, built)
    case _ => None
  }

  /** The state when the symbols from i on are done, unless an assertion has failed. */
  function BuiltFrom(h: Hash, pattern: string, value: Buffer, sections: seq<Buffer>, branches: seq<KeyArray>,
                     before: seq<seq<Buffer>>, i: nat): (r: Option<Built>)
    requires i <= |pattern| == |sections| && |before| == |branches|
    ensures r.Some? ==> |r.value.contents| == |branches| && |r.value.nodes| == |pattern| - i
    ensures r.Some? ==> (r.value.hash == [] <==> i == |pattern|)
    decreases |pattern| - i
  {
    if i == |pattern| then Some(Built([], before, 0, []))
    else
      match BuiltFrom(h, pattern, value, sections, branches, before, i + 1)
      case None => None
      case Some(built) => Round(h, pattern[i], i + 1 == |pattern|, sections[i], value, branches, built)
  }

  lemma BuiltOneMore(h: Hash, pattern: string, value: Buffer, sections: seq<Buffer>, branches: seq<KeyArray>,
                     before: seq<seq<Buffer>>, i: nat, built: Built)
    requires i < |pattern| == |sections| && |before| == |branches|
    requires BuiltFrom(h, pattern, value, sections, branches, before, i + 1) == Some(built)
    ensures BuiltFrom(h, pattern, value, sections, branches, before, i)
         == Round(h, pattern[i], i + 1 == |pattern|, sections[i], value, branches, built)
  {
  }

  lemma {:induction false} FailureStays(h: Hash, pattern: string, value: Buffer, sections: seq<Buffer>, branches: seq<KeyArray>,
                                        before: seq<seq<Buffer>>, i: nat)
    requires i <= |pattern| == |sections| && |before| == |branches|
    requires BuiltFrom(h, pattern, value, sections, branches, before, i).None?
    ensures BuiltFrom(h, pattern, value, sections, branches, before, 0).None?
  {
    if i > 0 {
      FailureStays(h, pattern, value, sections, branches, before, i - 1);
    }
  }

  /** What createNodes returns, if it returns. */
  function AllBuilt(h: Hash, pattern: string, value: Buffer, sections: seq<Buffer>, branches: seq<KeyArray>,
                    before: seq<seq<Buffer>>): Option<Built>
    requires |pattern| == |sections| && |before| == |branches|
  {
    var built := BuiltFrom(h, pattern, value, sections, branches, before, 0);
    if built.Some? && built.value.used == |branches| then built else None
  }

  // ---------- When nodes are built ----------

  /** An array that is used for the first time has sixteen entries, or gets them by its last one. */
  predicate Serves(keys: seq<Buffer>, last: bool, section: Buffer) {
    |keys| == 16 || (|keys| < 16 && !last && section == [15])
  }

  predicate UsedBefore(branches: seq<KeyArray>, k: nat)
    requires k < |branches|
  {
    exists q | 0 <= q < k :: branches[q] == branches[k]
  }

  /** One symbol finds its section and its key array. */
  predicate Served(pattern: string, sections: seq<Buffer>, branches: seq<KeyArray>, before: seq<seq<Buffer>>, j: nat)
    requires j < |pattern| == |sections| && |before| == |branches|
  {
    && SectionFits(pattern[j], j + 1 == |pattern|, sections[j])
    && (pattern[j] == 'b' ==>
          var k := KeysIndex(pattern, j);
          && k < |branches|
          && (UsedBefore(branches, k) || Serves(before[k], j + 1 == |pattern|, sections[j])))
  }

  predicate ServedFrom(pattern: string, sections: seq<Buffer>, branches: seq<KeyArray>, before: seq<seq<Buffer>>, i: nat)
    requires i <= |pattern| == |sections| && |before| == |branches|
  {
    forall j | i <= j < |pattern| :: Served(pattern, sections, branches, before, j)
  }

  /** Variables for one array see the same contents. */
  predicate Consistent(branches: seq<KeyArray>, contents: seq<seq<Buffer>>)
    requires |contents| == |branches|
  {
    forall q, k | 0 <= q < |branches| && 0 <= k < |branches| && branches[q] == branches[k] :: contents[q] == contents[k]
  }

  /** Arrays used so far have sixteen entries, the others are as they were. */
  predicate Grown(branches: seq<KeyArray>, before: seq<seq<Buffer>>, contents: seq<seq<Buffer>>, used: nat)
    requires |before| == |contents| == |branches| && used <= |branches|
  {
    && (forall k | 0 <= k < used :: |contents[k]| == 16)
    && forall k | used <= k < |branches| ::
         if UsedWithin(branches, k, used) then |contents[k]| == 16 else contents[k] == before[k]
  }

  predicate UsedWithin(branches: seq<KeyArray>, k: nat, used: nat)
    requires k < |branches| && used <= |branches|
  {
    exists q | 0 <= q < used :: branches[q] == branches[k]
  }

  lemma ServedOneMore(pattern: string, sections: seq<Buffer>, branches: seq<KeyArray>, before: seq<seq<Buffer>>, i: nat)
    requires i < |pattern| == |sections| && |before| == |branches|
    ensures ServedFrom(pattern, sections, branches, before, i) <==>
              && Served(pattern, sections, branches, before, i)
              && ServedFrom(pattern, sections, branches, before, i + 1)
  {
  }

  /** Storing into an array that has sixteen entries afterwards. */
  lemma GrownOneMore(branches: seq<KeyArray>, before: seq<seq<Buffer>>, contents: seq<seq<Buffer>>, k: nat, keys: seq<Buffer>)
    requires |before| == |contents| == |branches| && k < |branches|
    requires Consistent(branches, contents) && Grown(branches, before, contents, k) && |keys| == 16
    ensures Consistent(branches, Overwritten(branches, contents, k, keys))
    ensures Grown(branches, before, Overwritten(branches, contents, k, keys), k + 1)
  {
    var contents' := Overwritten(branches, contents, k, keys);
    forall q | k + 1 <= q < |branches|
      ensures if UsedWithin(branches, q, k + 1) then |contents'[q]| == 16 else contents'[q] == before[q]
    {
      assert UsedWithin(branches, q, k) ==> UsedWithin(branches, q, k + 1);
      assert branches[q] == branches[k] ==> UsedWithin(branches, q, k + 1);
    }
  }

  lemma UnwrittenIsOverwritten(branches: seq<KeyArray>, contents: seq<seq<Buffer>>, k: nat)
    requires |contents| == |branches| && k < |branches| && Consistent(branches, contents)
    ensures Overwritten(branches, contents, k, contents[k]) == contents
  {
  }

  /** The length of the array a branch is given, and that of what it stores there. */
  lemma ServesIffSixteen(branches: seq<KeyArray>, before: seq<seq<Buffer>>, contents: seq<seq<Buffer>>, k: nat,
                         last: bool, section: Buffer, hash: Buffer)
    requires |before| == |contents| == |branches| && k < |branches| && Grown(branches, before, contents, k)
    requires if last then section == [] else |section| == 1 && section[0] < 16
    ensures UsedBefore(branches, k) || Serves(before[k], last, section) <==>
              if last then |contents[k]| == 16 else |Stored(contents[k], section[0], hash)| == 16
  {
    assert UsedWithin(branches, k, k) <==> UsedBefore(branches, k);
  }

  /** One round succeeds exactly if its symbol is served, and keeps the lengths of the arrays right. */
  lemma BranchServed(h: Hash, last: bool, section: Buffer, value: Buffer, branches: seq<KeyArray>,
                     before: seq<seq<Buffer>>, built: Built)
    requires |before| == |branches| == |built.contents| && built.used <= |branches|
    requires Consistent(branches, built.contents) && Grown(branches, before, built.contents, built.used)
    ensures var r := Round(h, 'b', last, section, value, branches, built);
            && (r.Some? <==>
                  && SectionFits('b', last, section)
                  && built.used < |branches|
                  && (UsedBefore(branches, built.used) || Serves(before[built.used], last, section)))
            && (r.Some? ==>
                  && r.value.used == built.used + 1 <= |branches|
                  && Consistent(branches, r.value.contents)
                  && Grown(branches, before, r.value.contents, r.value.used))
  {
    var k, contents := built.used, built.contents;
    if k < |branches| && SectionFits('b', last, section) {
      ServesIffSixteen(branches, before, contents, k, last, section, built.hash);
      UnwrittenIsOverwritten(branches, contents, k);
      var keys := if last then contents[k] else Stored(contents[k], section[0], built.hash);
      if |keys| == 16 {
        GrownOneMore(branches, before, contents, k, keys);
      }
    }
  }

  lemma RoundServed(h: Hash, pattern: string, value: Buffer, sections: seq<Buffer>, branches: seq<KeyArray>,
                    before: seq<seq<Buffer>>, built: Built, i: nat)
    requires Valid(pattern) && value != [] && i < |pattern| == |sections| && |before| == |branches| == |built.contents|
    requires Consistent(branches, built.contents) && built.used == KeysIndex(pattern, i) <= |branches|
    requires Grown(branches, before, built.contents, built.used)
    requires built.hash == [] <==> i + 1 == |pattern|
    ensures var r := Round(h, pattern[i], i + 1 == |pattern|, sections[i], value, branches, built);
            && (r.Some? <==> Served(pattern, sections, branches, before, i))
            && (r.Some? ==>
                  && r.value.used == CountBranches(pattern[i..]) <= |branches|
                  && Consistent(branches, r.value.contents)
                  && Grown(branches, before, r.value.contents, r.value.used))
  {
    ValidIffWellPlaced(pattern);
    assert WellPlaced(pattern, i);
    CountBranchesFrom(pattern, i);
    if pattern[i] == 'b' {
      BranchServed(h, i + 1 == |pattern|, sections[i], value, branches, before, built);
    }
  }

  /** The loop comes through exactly if every symbol is served. */
  lemma {:induction false} BuiltIffServed(h: Hash, pattern: string, value: Buffer, sections: seq<Buffer>, branches: seq<KeyArray>,
                                          before: seq<seq<Buffer>>, i: nat)
    requires Valid(pattern) && value != [] && i <= |pattern| == |sections| && |before| == |branches|
    requires Consistent(branches, before)
    ensures var r := BuiltFrom(h, pattern, value, sections, branches, before, i);
            && (r.Some? <==> ServedFrom(pattern, sections, branches, before, i))
            && (r.Some? ==>
                  && r.value.used == CountBranches(pattern[i..]) <= |branches|
                  && Consistent(branches, r.value.contents)
                  && Grown(branches, before, r.value.contents, r.value.used))
    decreases |pattern| - i
  {
    if i < |pattern| {
      BuiltIffServed(h, pattern, value, sections, branches, before, i + 1);
      ServedOneMore(pattern, sections, branches, before, i);
      var r := BuiltFrom(h, pattern, value, sections, branches, before, i + 1);
      if r.Some? {
        RoundServed(h, pattern, value, sections, branches, before, r.value, i);
      }
    }
  }

  // ---------- When all of it is built ----------

  /** Every symbol is served and no array is left over. */
  predicate Complete(pattern: string, sections: seq<Buffer>, branches: seq<KeyArray>, before: seq<seq<Buffer>>)
    requires |before| == |branches|
  {
    && |sections| == |pattern|
    && ServedFrom(pattern, sections, branches, before, 0)
    && |branches| == CountBranches(pattern)
  }

  lemma AllBuiltIffComplete(h: Hash, pattern: string, value: Buffer, sections: seq<Buffer>, branches: seq<KeyArray>,
                            before: seq<seq<Buffer>>)
    requires Valid(pattern) && value != [] && |pattern| == |sections| && |before| == |branches|
    requires Consistent(branches, before)
    ensures AllBuilt(h, pattern, value, sections, branches, before).Some? <==> Complete(pattern, sections, branches, before)
  {
    BuiltIffServed(h, pattern, value, sections, branches, before, 0);
    assert pattern[0..] == pattern;
  }

  function Padded(keys: seq<Buffer>): seq<Buffer> {
    if |keys| < 16 then keys + Empties(16 - |keys|) else keys
  }

  function PaddedAll(contents: seq<seq<Buffer>>): (padded: seq<seq<Buffer>>)
    ensures |padded| == |contents|
  {
    seq(|contents|, k requires 0 <= k < |contents| => Padded(contents[k]))
  }

  /** Arrays of sixteen entries serve every branch, shared or not. */
  lemma CompleteIffFit(pattern: string, sections: seq<Buffer>, branches: seq<KeyArray>, before: seq<seq<Buffer>>)
    requires pattern != "" && |before| == |branches| && forall k | 0 <= k < |before| :: |before[k]| == 16
    ensures PaddedAll(before) == before
    ensures Complete(pattern, sections, branches, before) <==> Fit(pattern, sections, before)
  {
    assert pattern[0..] == pattern;
    if |sections| == |pattern| && |branches| == CountBranches(pattern) {
      forall j | 0 <= j < |pattern|
        ensures Served(pattern, sections, branches, before, j) <==> SectionFits(pattern[j], j + 1 == |pattern|, sections[j])
      {
        KeysIndexBelow(pattern, 0, j);
      }
      assert Complete(pattern, sections, branches, before) <==>
             forall j | 0 <= j < |pattern| :: SectionFits(pattern[j], j + 1 == |pattern|, sections[j]);
    }
  }

  lemma {:induction false} KeysIndexBelow(pattern: string, i: nat, j: nat)
    requires i <= j < |pattern|
    ensures CountBranches(pattern[j..]) <= CountBranches(pattern[i..])
    ensures pattern[j] == 'b' ==> KeysIndex(pattern, j) < CountBranches(pattern[i..])
    decreases j - i
  {
    CountBranchesFrom(pattern, i);
    if i < j {
      KeysIndexBelow(pattern, i + 1, j);
    }
  }

  // ---------- Nodes and the chain ----------

  /** A node holds these data when the first k arrays have the given contents. */
  ghost predicate HoldsIn(node: NodeObject, data: NodeData, branches: seq<KeyArray>, contents: seq<seq<Buffer>>, k: nat)
    requires k <= |branches| == |contents|
  {
    match node
    case Leaf(path, value) => data == Leaf(path, value)
    case Extension(path, key) => data == Extension(path, key)
    case Branch(keys, value) => exists j | 0 <= j < k :: branches[j] == keys && data == Branch(contents[j], value)
  }

  /** What the loop keeps when no two branches share a key array: the nodes made so far hold
      the chain, use up the first k arrays, and the other arrays are as they were. */
  ghost predicate Linked(h: Hash, branches: seq<KeyArray>, before: seq<seq<Buffer>>, contents: seq<seq<Buffer>>,
                         k: nat, nodes: seq<NodeObject>, chain: seq<NodeData>, previousHash: Buffer)
    requires k <= |branches| == |before| == |contents|
  {
    && |nodes| == |chain|
    && (forall i | 0 <= i < |nodes| :: HoldsIn(nodes[i], chain[i], branches, contents, k))
    && (forall j | k <= j < |branches| :: contents[j] == before[j])
    && previousHash == (if nodes == [] then [] else HashOf(h, chain[0]))
  }

  /** One round: storing into one key array does not disturb the nodes that hold other ones. */
  lemma LinkedOneMore(h: Hash, branches: seq<KeyArray>, before: seq<seq<Buffer>>,
                      contents: seq<seq<Buffer>>, contents': seq<seq<Buffer>>, k: nat, k': nat,
                      node: NodeObject, data: NodeData, nodes: seq<NodeObject>, below: seq<NodeData>, previousHash: Buffer)
    requires k <= k' <= k + 1 && k' <= |branches| == |before| == |contents| == |contents'|
    requires Linked(h, branches, before, contents, k, nodes, below, previousHash)
    requires forall j | 0 <= j < |branches| && (k' == k || j != k) :: contents'[j] == contents[j]
    requires HoldsIn(node, data, branches, contents', k')
    ensures Linked(h, branches, before, contents', k', [node] + nodes, [data] + below, HashOf(h, data))
  {
    var all, chain := [node] + nodes, [data] + below;
    forall i | 0 <= i < |all|
      ensures HoldsIn(all[i], chain[i], branches, contents', k')
    {
      if i > 0 {
        assert HoldsIn(nodes[i - 1], below[i - 1], branches, contents, k);
      }
    }
  }

  lemma ChainOneMore(h: Hash, pattern: string, value: Buffer, sections: seq<Buffer>, branches: seq<seq<Buffer>>, i: nat)
    requires i < |pattern| && value != [] && FitFrom(pattern, sections, branches, i)
    ensures FitFrom(pattern, sections, branches, i + 1)
    ensures var below := ChainFrom(h, pattern, value, sections, branches, i + 1);
            var hash := if below == [] then [] else HashOf(h, below[0]);
            var keys := if pattern[i] == 'b' then branches[KeysIndex(pattern, i)] else [];
            && ChainFrom(h, pattern, value, sections, branches, i)
            == [NodeAt(pattern[i], i + 1 == |pattern|, sections[i], value, keys, hash)] + below
  {
    CountBranchesFrom(pattern, i);
  }

  /** What one round adds, when its array is as it was in the beginning. */
  lemma RoundNode(h: Hash, symbol: char, last: bool, section: Buffer, value: Buffer, branches: seq<KeyArray>, built: Built,
                  padded: seq<Buffer>)
    requires value != [] && built.used <= |branches| == |built.contents| && SectionFits(symbol, last, section)
    requires built.hash == [] <==> last
    requires symbol == 'b' ==>
               && built.used < |branches|
               && Serves(built.contents[built.used], last, section) && padded == Padded(built.contents[built.used])
    ensures symbol == 'b' ==> |padded| == 16
    ensures var r := Round(h, symbol, last, section, value, branches, built);
            var data := NodeAt(symbol, last, section, value, padded, built.hash);
            && r.Some?
            && r.value.used == (if symbol == 'b' then built.used + 1 else built.used) && r.value.hash == HashOf(h, data)
            && r.value.nodes == [r.value.nodes[0]] + built.nodes
            && HoldsIn(r.value.nodes[0], data, branches, r.value.contents, r.value.used)
            && (Distinct(branches) ==>
                  forall j | 0 <= j < |branches| && (symbol != 'b' || j != built.used) ::
                    r.value.contents[j] == built.contents[j])
  {
    if symbol == 'b' && !last {
      assert Stored(built.contents[built.used], section[0], built.hash) == padded[section[0] := built.hash];
    }
  }

  lemma {:induction false} KeysIndexTaken(pattern: string, k: nat) returns (j: nat)
    requires k < CountBranches(pattern)
    ensures j < |pattern| && pattern[j] == 'b' && KeysIndex(pattern, j) == k
  {
    if pattern[0] == 'b' && CountBranches(pattern[1..]) == k {
      j := 0;
    } else {
      j := KeysIndexTaken(pattern[1..], k);
      assert pattern[1..][j + 1..] == pattern[j + 2..];
      j := j + 1;
    }
  }

  /** Arrays that are all different serve the pattern with sixteen entries each, in the end. */
  lemma PaddedFits(pattern: string, sections: seq<Buffer>, branches: seq<KeyArray>, before: seq<seq<Buffer>>)
    requires pattern != "" && |before| == |branches| && Distinct(branches)
    requires Complete(pattern, sections, branches, before)
    ensures Fit(pattern, sections, PaddedAll(before))
  {
    assert pattern[0..] == pattern;
    forall j | 0 <= j < |pattern|
      ensures SectionFits(pattern[j], j + 1 == |pattern|, sections[j])
    {
      assert Served(pattern, sections, branches, before, j);
    }
    forall k | 0 <= k < |branches|
      ensures |PaddedAll(before)[k]| == 16
    {
      var j := KeysIndexTaken(pattern, k);
      assert Served(pattern, sections, branches, before, j);
    }
  }

  lemma {:induction false} BuiltChainFrom(h: Hash, pattern: string, value: Buffer, sections: seq<Buffer>, branches: seq<KeyArray>,
                                          before: seq<seq<Buffer>>, i: nat)
    requires Valid(pattern) && value != [] && i <= |pattern| && |before| == |branches| && Distinct(branches)
    requires Complete(pattern, sections, branches, before) && Fit(pattern, sections, PaddedAll(before))
    ensures FitFrom(pattern, sections, PaddedAll(before), i)
    ensures var r := BuiltFrom(h, pattern, value, sections, branches, before, i);
            && r.Some? && r.value.used == CountBranches(pattern[i..]) <= |branches|
            && Linked(h, branches, before, r.value.contents, r.value.used, r.value.nodes,
                      ChainFrom(h, pattern, value, sections, PaddedAll(before), i), r.value.hash)
    decreases |pattern| - i
  {
    FitFromLater(pattern, sections, PaddedAll(before), 0, i);
    if i < |pattern| {
      BuiltChainFrom(h, pattern, value, sections, branches, before, i + 1);
      LinkedRound(h, pattern, value, sections, branches, before, i,
                  BuiltFrom(h, pattern, value, sections, branches, before, i + 1).value);
    }
  }

  lemma LinkedRound(h: Hash, pattern: string, value: Buffer, sections: seq<Buffer>, branches: seq<KeyArray>,
                    before: seq<seq<Buffer>>, i: nat, built: Built)
    requires Valid(pattern) && value != [] && i < |pattern| == |sections|
    requires |before| == |branches| == |built.contents| && Distinct(branches)
    requires Served(pattern, sections, branches, before, i)
    requires FitFrom(pattern, sections, PaddedAll(before), i) && FitFrom(pattern, sections, PaddedAll(before), i + 1)
    requires built.used == KeysIndex(pattern, i) <= |branches|
    requires Linked(h, branches, before, built.contents, built.used, built.nodes,
                    ChainFrom(h, pattern, value, sections, PaddedAll(before), i + 1), built.hash)
    ensures var r := Round(h, pattern[i], i + 1 == |pattern|, sections[i], value, branches, built);
            && r.Some? && r.value.used == CountBranches(pattern[i..]) <= |branches|
            && Linked(h, branches, before, r.value.contents, r.value.used, r.value.nodes,
                      ChainFrom(h, pattern, value, sections, PaddedAll(before), i), r.value.hash)
  {
    var symbol, last, below := pattern[i], i + 1 == |pattern|, ChainFrom(h, pattern, value, sections, PaddedAll(before), i + 1);
    CountBranchesFrom(pattern, i);
    ChainOneMore(h, pattern, value, sections, PaddedAll(before), i);
    var keys := if symbol == 'b' then PaddedAll(before)[built.used] else [];
    RoundNode(h, symbol, last, sections[i], value, branches, built, keys);
    var r := Round(h, symbol, last, sections[i], value, branches, built).value;
    LinkedOneMore(h, branches, before, built.contents, r.contents, built.used, r.used, r.nodes[0],
                  NodeAt(symbol, last, sections[i], value, keys, built.hash), built.nodes, below, built.hash);
  }

  /** When no two branches share an array, what is built is the chain. */
  lemma BuiltIsChain(h: Hash, pattern: string, value: Buffer, sections: seq<Buffer>, branches: seq<KeyArray>,
                     before: seq<seq<Buffer>>)
    requires Valid(pattern) && value != [] && |before| == |branches| && Distinct(branches)
    requires Complete(pattern, sections, branches, before)
    ensures Fit(pattern, sections, PaddedAll(before))
    ensures var built := AllBuilt(h, pattern, value, sections, branches, before);
            && built.Some?
            && Linked(h, branches, before, built.value.contents, |branches|, built.value.nodes,
                      Chain(h, pattern, value, sections, PaddedAll(before)), built.value.hash)
  {
    PaddedFits(pattern, sections, branches, before);
    BuiltChainFrom(h, pattern, value, sections, branches, before, 0);
    assert pattern[0..] == pattern;
  }

  // ---------- Shared arrays ----------

  /** What a node that was made contains in the end. */
  function InTheEnd(node: NodeObject, branches: seq<KeyArray>, contents: seq<seq<Buffer>>, k: nat): Node<seq<Buffer>>
    requires k < |contents| == |branches| && (node.Branch? ==> node.keys == branches[k])
  {
    match node
    case Leaf(path, value) => Leaf(path, value)
    case Extension(path, key) => Extension(path, key)
    case Branch(_, value) => Branch(contents[k], value)
  }

  /** Two branches on one array: the upper one stores the hash of the lower one in the array the
      lower one was hashed with. The lower one still has that hash exactly if the entry was
      there before, or if two different nodes have one hash. */
  lemma SharedKeys(h: Hash, value: Buffer, slot: byte, held: KeyArray, keys: seq<Buffer>)
    requires value != [] && slot < 16 && |keys| == 16
    ensures var built := AllBuilt(h, "bb", value, [[slot], []], [held, held], [keys, keys]);
            var hash := HashOf(h, Branch(keys, value));
            && built.Some?
            && built.value.nodes == [Branch(held, []), Branch(held, value)]
            && var upper := InTheEnd(built.value.nodes[0], [held, held], built.value.contents, 1);
               var lower := InTheEnd(built.value.nodes[1], [held, held], built.value.contents, 0);
               && upper == Branch(keys[slot := hash], []) && lower == Branch(keys[slot := hash], value)
               && Reference(upper, [slot]) == hash
               && (lower == Branch(keys, value) <==> keys[slot] == hash)
               && (HashOf(h, lower) == hash <==>
                     || keys[slot] == hash
                     || (lower != Branch(keys, value) && HashOf(h, lower) == HashOf(h, Branch(keys, value))))
  {
    var branches, before, sections := [held, held], [keys, keys], [[slot], []];
    var hash := HashOf(h, Branch(keys, value));
    var none := Built([], before, 0, []);
    var one := Built([Branch(held, value)] + none.nodes, before, 1, hash);
    assert "bb"[0] == 'b' && "bb"[1] == 'b' && |"bb"| == 2;
    assert BuiltFrom(h, "bb", value, sections, branches, before, 2) == Some(none);
    assert Round(h, 'b', true, [], value, branches, none) == Some(one);
    assert BuiltFrom(h, "bb", value, sections, branches, before, 1) == Some(one);
    assert Overwritten(branches, before, 1, keys[slot := hash]) == [keys[slot := hash], keys[slot := hash]];
    assert keys[slot := hash] == keys <==> keys[slot] == hash;
  }
}
