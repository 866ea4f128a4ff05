/** Random contents for the keys of branch nodes (src/FuzzyProofGenerator.ts,
    generateRandomBranchesKeysData and generateRandomBranchKeysData). */
module BranchKeys {
  import opened Bytes
  import opened Sorting
  import opened RandomNumbers
  import opened TrieNodes

  /** How many of the first n keys are not empty. */
  function Used(keys: seq<Buffer>, n: nat): nat
    requires n <= |keys|
  {
    if n == 0 then 0 else Used(keys, n - 1) + if keys[n - 1] == [] then 0 else 1
  }

  lemma {:induction false} UsedUpdate(keys: seq<Buffer>, slot: nat, key: Buffer, n: nat)
    requires n <= |keys| && slot < |keys| && keys[slot] == [] && key != []
    ensures Used(keys[slot := key], n) == Used(keys, n) + if slot < n then 1 else 0
  {
    if n > 0 {
      UsedUpdate(keys, slot, key, n - 1);
    }
  }

  lemma {:induction false} UnusedKeys(keys: seq<Buffer>, n: nat)
    requires n <= |keys| && forall i | 0 <= i < |keys| :: keys[i] == []
    ensures Used(keys, n) == 0
  {
    if n > 0 {
      UnusedKeys(keys, n - 1);
    }
  }

  method RandomBytes(length: nat) returns (bytes: Buffer)
    ensures |bytes| == length
  {
    bytes := [];
    for i := 0 to length
      invariant |bytes| == i
    {
      var drawn: byte := *;
      bytes := bytes + [drawn];
    }
  }

  /** The digest of some 256 bytes. */
  ghost predicate RandomDigest(h: Hash, digest: Buffer) {
    exists bytes :: |bytes| == 256 && digest == h(bytes)
  }

  method GenerateRandomKeccak256(h: Hash) returns (digest: Digest)
    ensures RandomDigest(h, digest)
  {
    var bytes := RandomBytes(256);
    digest := h(bytes);
  }

  /** A new array of sixteen keys: exactly `amount` distinct slots hold a digest and the others
      are empty, for a random amount below sixteen, so a slot always stays empty. */
  method GenerateRandomBranchKeysData(h: Hash) returns (branchKeysData: KeyArray, amount: nat)
    ensures fresh(branchKeysData) && |branchKeysData.keys| == 16
    ensures amount < 16 && Used(branchKeysData.keys, 16) == amount
    ensures forall i | 0 <= i < 16 :: branchKeysData.keys[i] == [] || RandomDigest(h, branchKeysData.keys[i])
  {
    branchKeysData := new KeyArray(seq(16, _ => []));
    amount :| 0 <= amount < 16;
    var indexes: seq<int> := [];
    for i := 0 to amount
      invariant |indexes| == i && Distinct(indexes)
      invariant forall k | 0 <= k < i :: 0 <= indexes[k] < 16
      invariant |branchKeysData.keys| == 16 && forall k | 0 <= k < 16 :: branchKeysData.keys[k] == []
    {
      ghost var free := FreeNumberExists(indexes, 0, 15);
      var x :| 0 <= x < 16 && x !in indexes;
      indexes := indexes + [x];
    }
    UnusedKeys(branchKeysData.keys, 16);
    for i := 0 to amount
      invariant |branchKeysData.keys| == 16 && Used(branchKeysData.keys, 16) == i
      invariant forall k | i <= k < amount :: branchKeysData.keys[indexes[k]] == []
      invariant forall k | 0 <= k < 16 :: branchKeysData.keys[k] == [] || RandomDigest(h, branchKeysData.keys[k])
    {
      var digest := GenerateRandomKeccak256(h);
      UsedUpdate(branchKeysData.keys, indexes[i], digest, 16);
      branchKeysData.keys := branchKeysData.keys[indexes[i] := digest];
    }
  }

  /** One new array for each branch node, so no two branches share an array. */
  method GenerateRandomBranchesKeysData(h: Hash, branchNodeAmount: nat) returns (branchesKeysData: seq<KeyArray>)
    ensures |branchesKeysData| == branchNodeAmount && Distinct(branchesKeysData)
    ensures forall k | k in branchesKeysData :: fresh(k) && |k.keys| == 16 && Used(k.keys, 16) < 16
    ensures forall k | k in branchesKeysData :: forall i | 0 <= i < 16 :: k.keys[i] == [] || RandomDigest(h, k.keys[i])
  {
    branchesKeysData := [];
    for i := 0 to branchNodeAmount
      invariant |branchesKeysData| == i && Distinct(branchesKeysData)
      invariant forall k | k in branchesKeysData :: fresh(k) && |k.keys| == 16 && Used(k.keys, 16) < 16
      invariant forall k | k in branchesKeysData :: forall i | 0 <= i < 16 :: k.keys[i] == [] || RandomDigest(h, k.keys[i])
    {
      var keys, _ := GenerateRandomBranchKeysData(h);
      branchesKeysData := branchesKeysData + [keys];
    }
  }
}
