# Verification of the proof generator and the deployment planner

A Dafny model of two tools of the repository, with proofs about every run of them.

**The Merkle-Patricia proof generator** (`tools/fuzzy_proof_generator_tool/src`). A pattern such as
`bebl` names the nodes on a path through a trie, from the root down. The generator checks the
pattern, cuts the nibbles of a path into random sections by stars and bars, fills branch nodes with
random keys, builds the nodes bottom-up so that each one holds the hash of the next, and returns the
RLP-encoded list of nodes with the root. The main results: `generate` returns exactly under a stated
condition, whatever is drawn; whatever it returns passes the lookup of the Modified Merkle Patricia
Trie, written here from Appendix D of the Ethereum Yellow Paper and not from the generator; and two
results with one root and one path are the same, or exhibit two byte strings with one hash.

**The deployment planner** (`tools/deployment_tool`). Contracts depend on each other through linked
libraries and through references among their constructor arguments. The registry sorts them by a
recursive count, predicts an address for each, replaces placeholders in bytecode by addresses and
collects transactions or genesis accounts. The main results: sorting by the count is a topological
order, so whether a plan exists depends on which contracts are registered and never on the order of
registration; every address that goes into a contract's data is that of an earlier one; textual
replacement of placeholders means filling them, in any order, for all plain names; and a predicted
address is that of the nonce its transaction is sent with exactly when no earlier contract has a
preset address. Textual replacement is stated exactly, for every name and every bytecode: it fills the
placeholders of a name if and only if none of its occurrences starts inside another placeholder.

## How it is organised

| files | content |
|---|---|
| `Results`, `Bytes`, `Sorting`, `GeneratorErrors` | results and errors, buffers and hash functions, a sort by key |
| `Rlp`, `Nibbles`, `CompactEncoding`, `TrieNodes` | encodings and their inverses, nodes |
| `Patterns`, `RandomNumbers`, `PathSections`, `BranchKeys` | the stages before nodes are built |
| `NodeChains` | the chain of nodes as a value |
| `NodeBuilding`, `NodeCreation` | the loop that builds nodes as a function, and as a method over key arrays that nodes share |
| `TrieLookup` | the lookup of the standard, and what a root binds |
| `ProofGeneration`, `ProofTheorems`, `ProofUtils` | whole runs and what their results are good for |
| `Hex`, `AddressGenerators` | hexadecimal text, the two address generators |
| `Linking`, `Contracts` | placeholders in bytecode, the class of contracts |
| `DependencyOrder`, `Planning`, `ContractRegistries`, `PlanTheorems` | order, plan as a value, the registry, what a plan guarantees |

Array loops, key arrays, contracts, address generators and the registry are imperative, each proved
against a function on values; the theorems are about those functions. Keccak-256 is a parameter of
type `Hash`, any function to 32 bytes. No lemma assumes it injective, which no such function is;
results that rest on it end in "or here are two byte strings with the same hash". Random choices
are nondeterministic, so what is stated holds for every outcome. The planner's `graph`, `rank` and
`infos` are ghost: the set of contracts reachable through dependencies, a witness that none leads back
(by `RankedIffNotCircular` there is one exactly when no group of contracts is circular), and what the
contracts hold before the call.

## Where code and documentation differ

- `generate` serves a pattern of branches only exactly when the path has one nibble less than the
  pattern has symbols: with nothing to stretch, `generateRandomNumbers(sum, 0)` returns the empty
  list whatever the sum. `generateByPattern` draws paths that are never of that length, so it always
  throws for such patterns, although they are valid (`ProofGeneration.BranchesOnly`, and
  `ThreeBranches` for the pattern `bbb`).
- A predicted address is that of nonce start + (earlier contracts without a preset address), the
  transaction has nonce start + position. They differ as soon as an earlier contract was given an
  address by `setAddress` (`PlanTheorems.PredictedNonce`, and `PresetShiftsPrediction` for the first
  of two contracts).
- `_getDependenciesCount` is documented as the count of transitive dependencies. It is that number
  exactly if no two dependencies share one at any level, and larger otherwise
  (`DependencyOrder.CountIsReach`, and `FourCountedAsFive` for a library under both dependencies of a
  contract). The order is topological all the same.
- When the constructor arguments of a contract cannot be encoded, `instantiate` throws with the
  contract already linked and in the state LINKED, from which it cannot be instantiated again
  (`Contracts.Contract.Instantiate`, and `StuckInLinked` for a contract that refers to one that is
  not instantiated yet).
- The error for an unknown symbol in `generatePathData` names the first symbol of the pattern, which is
  the unknown one only if that is the first (`PathSections.NamedSymbol`, and `WrongSymbolNamed` for the
  pattern `lx`).

## Model

| member | source | states |
|---|---|---|
| Patterns.ValidIffInLanguage | tools/fuzzy_proof_generator_tool/src/FuzzyProofGenerator.ts:122-203 | the validity check accepts exactly the strings (b\|eb)\*l and (b\|eb)+b, the mutual recursion terminating on every string |
| Patterns.ValidIffWellPlaced | tools/fuzzy_proof_generator_tool/src/FuzzyProofGenerator.ts:122-203 | the same language symbol by symbol: an extension leads to a branch, a leaf comes last, an ending branch follows a branch |
| Patterns.ReportedIsUnknown | tools/fuzzy_proof_generator_tool/src/FuzzyProofGenerator.ts:140-142 | the symbol reported as unexpected is the first unknown one of the pattern |
| Patterns.FirstFaultIsReported | tools/fuzzy_proof_generator_tool/src/FuzzyProofGenerator.ts:122-203 | the error is that of the first position with a fault, where the fault is a condition on the symbol there and the one or two before it; a pattern is accepted exactly if no position has one |
| Nibbles.ToNibbles | tools/fuzzy_proof_generator_tool/src/Nibbles.ts:41-61 | the shift and mask loop computes quotient and remainder by 16 of every byte, in order |
| Nibbles.NibblesToBuffer | tools/fuzzy_proof_generator_tool/src/Nibbles.ts:78-99 | returns exactly for an even length; the shift-and-or loop joins nibble pairs as 16 * high + low |
| Nibbles.AssertNibbleArray | tools/fuzzy_proof_generator_tool/src/Nibbles.ts:102-111 | the mask test passes exactly when every entry is below 16 |
| Nibbles.PackSplit | tools/fuzzy_proof_generator_tool/src/Nibbles.ts:41-99 | splitting any buffer into nibbles and joining them gives the buffer back |
| Nibbles.SplitPack | tools/fuzzy_proof_generator_tool/src/Nibbles.ts:41-99 | joining any even number of nibbles and splitting the bytes gives the nibbles back |
| CompactEncoding.DecodeEncodedPath | tools/fuzzy_proof_generator_tool/src/LeafNode.ts:88-104 | one decoder, that of Appendix C, recovers path and node kind from a leaf's and from an extension's encoding, so the two never coincide; encoding fails on the empty path only and gives floor(n / 2) + 1 bytes |
| CompactEncoding.EncodeDecodedPath | tools/fuzzy_proof_generator_tool/src/ExtensionNode.ts:89-104 | a buffer that decodes to a non-empty path is the encoding of that path and kind |
| Rlp.DecodeEncode | tools/fuzzy_proof_generator_tool/src/NodeBase.ts:35-37 | RLP decoding undoes encoding, for every item with an encoding below 2^64 bytes, the limit of Appendix B |
| Rlp.EncodeDecode | tools/fuzzy_proof_generator_tool/src/NodeBase.ts:35-37 | encodings are canonical: whatever the strict decoder of Appendix B accepts is the one encoding of what it decodes to |
| Rlp.EncodingsOfTheStandard | tools/fuzzy_proof_generator_tool/src/NodeBase.ts:35-37 | the encoding in the words of Appendix B: a byte below 128 stands for itself, strings and lists follow prefixes from 0x80 and 0xc0 on, long lengths in big-endian form without leading zeros |
| TrieNodes.RawInjective | tools/fuzzy_proof_generator_tool/src/BranchNode.ts:69-76 | the raw list of a leaf, extension or branch node determines the node and its kind |
| RandomNumbers.FreeNumberExists | tools/fuzzy_proof_generator_tool/src/FuzzyProofGenerator.ts:323-330 | in a range with more numbers than have been picked some number is not picked, so the do-while loops always have a way out |
| RandomNumbers.GapsOfBars | tools/fuzzy_proof_generator_tool/src/FuzzyProofGenerator.ts:338-353 | the differences of sorted distinct picks are non-negative numbers with the wanted sum, from which the picks can be recovered |
| RandomNumbers.BarsOfGaps | tools/fuzzy_proof_generator_tool/src/FuzzyProofGenerator.ts:318-345 | every list of two or more non-negative numbers comes from some sorted distinct picks in the range, by the same map: stars and bars is a bijection |
| RandomNumbers.CanBeDrawnIff | tools/fuzzy_proof_generator_tool/src/FuzzyProofGenerator.ts:306-354 | the possible outcomes are exactly the lists of that many non-negative numbers with that sum (for no numbers, the empty list whatever the sum) |
| RandomNumbers.GenerateRandomNumbers | tools/fuzzy_proof_generator_tool/src/FuzzyProofGenerator.ts:306-354 | returns exactly for non-negative arguments, for every draw, with a possible outcome |
| PathSections.FitsIffDivisible | tools/fuzzy_proof_generator_tool/src/FuzzyProofGenerator.ts:261-289 | the loop finds a path and lengths left for every symbol and none over exactly when branches and lengths add up to the path and there is one length for each other symbol |
| PathSections.CutFlattens | tools/fuzzy_proof_generator_tool/src/FuzzyProofGenerator.ts:261-294 | one section for every symbol, and together they are the path: nothing is lost, moved or repeated |
| PathSections.CutMeasures | tools/fuzzy_proof_generator_tool/src/FuzzyProofGenerator.ts:263-281 | one nibble for a branch, and for the other symbols the given lengths in order |
| PathSections.CutSections | tools/fuzzy_proof_generator_tool/src/FuzzyProofGenerator.ts:256-289 | the loop with its two indexes and its assertions gives, for any lengths, the sections or the first error of the recursion over the symbols |
| PathSections.SectionsIffFits | tools/fuzzy_proof_generator_tool/src/FuzzyProofGenerator.ts:261-289 | for any lengths, negative ones included, the loop comes through exactly if every symbol finds path and a length left and none are left over |
| PathSections.DividedSections | tools/fuzzy_proof_generator_tool/src/FuzzyProofGenerator.ts:256-294 | for lengths that are not negative this is the closed arithmetic condition, and the sections then give the path back, so the last assertion holds |
| PathSections.NamedSymbol | tools/fuzzy_proof_generator_tool/src/FuzzyProofGenerator.ts:282-285 | an unknown symbol is reported exactly if the loop comes to one; the error names the first symbol of the pattern, which is the one that stopped the loop exactly if that is the first |
| PathSections.WrongSymbolNamed | tools/fuzzy_proof_generator_tool/src/FuzzyProofGenerator.ts:282-285 | the pattern lx is refused for the symbol l |
| PathSections.GeneratePathData | tools/fuzzy_proof_generator_tool/src/FuzzyProofGenerator.ts:248-297 | returns what the loop cut if that gives the path back, with the exact error otherwise; for lengths that are not negative exactly when they divide the path, with sections of these lengths |
| PathSections.GenerateRandomPathData | tools/fuzzy_proof_generator_tool/src/FuzzyProofGenerator.ts:209-242 | returns, for every draw, exactly when the path is long enough and, for branches only, exactly long enough; non-empty sections that partition the path |
| PathSections.CanBeCutIffPartition | tools/fuzzy_proof_generator_tool/src/FuzzyProofGenerator.ts:209-242 | every partition of the path into non-empty sections, single nibbles for branches, is a possible outcome, and there are no others |
| BranchKeys.GenerateRandomBranchKeysData | tools/fuzzy_proof_generator_tool/src/FuzzyProofGenerator.ts:378-405 | a new array with exactly the drawn number of its sixteen slots filled, each with the digest of some 256 bytes, and the others empty; the distinct slots can always be drawn |
| BranchKeys.GenerateRandomKeccak256 | tools/fuzzy_proof_generator_tool/src/FuzzyProofGenerator.ts:498-502 | the digest of some 256 bytes |
| BranchKeys.GenerateRandomBranchesKeysData | tools/fuzzy_proof_generator_tool/src/FuzzyProofGenerator.ts:361-370 | one new key array for each branch, no two the same object, with nothing but such digests in them |
| NodeChains.ChainLinked | tools/fuzzy_proof_generator_tool/src/FuzzyProofGenerator.ts:433-488 | the i-th node of the specified chain is of the kind its symbol says, holds its section and the value where it belongs, and refers by hash to node i + 1 at the place its section leads to; the other keys of a branch are those of the array that is used up next from below |
| NodeCreation.CreateNodes | tools/fuzzy_proof_generator_tool/src/FuzzyProofGenerator.ts:417-495 | for key arrays of any length, shared or not: returns exactly when the pattern is valid, the value not empty and every symbol served; the nodes and the final contents of all arrays; if no two branches share an array the nodes hold the chain in the end, although arrays were stored into while nodes held them; which error |
| NodeCreation.CreateNode | tools/fuzzy_proof_generator_tool/src/FuzzyProofGenerator.ts:434-487 | one round of the loop does to the arrays and nodes what the round as a function says, and fails exactly when that does |
| NodeBuilding.AllBuiltIffComplete | tools/fuzzy_proof_generator_tool/src/FuzzyProofGenerator.ts:433-490 | the loop comes through exactly if every symbol has its section and every branch an array that has, when first used, sixteen entries or gets them by its last one, with no array left over |
| NodeBuilding.CompleteIffFit | tools/fuzzy_proof_generator_tool/src/FuzzyProofGenerator.ts:433-490 | arrays of sixteen entries serve every branch, shared or not |
| NodeBuilding.BuiltIsChain | tools/fuzzy_proof_generator_tool/src/FuzzyProofGenerator.ts:429-494 | when no two branches share an array, what is built is the chain: no store disturbs a node made before |
| NodeBuilding.SharedKeys | tools/fuzzy_proof_generator_tool/src/FuzzyProofGenerator.ts:472-479 | two branches on one array: the lower one has the hash the upper one refers to exactly if the entry already held it, or by a collision |
| TrieLookup.DecodeEncodedNodes | tools/fuzzy_proof_generator_tool/src/FuzzyProofGenerator.ts:105-114 | decoding the transported bytes gives back every node's raw list |
| TrieLookup.LookupBinds | tools/fuzzy_proof_generator_tool/src/FuzzyProofGenerator.ts:105-116 | two lists of nodes that both pass the lookup for one root and one path are the same list, or two nodes at some depth are different bytes with one hash |
| ProofGeneration.Generate | tools/fuzzy_proof_generator_tool/src/FuzzyProofGenerator.ts:63-119 | returns, for every outcome of its choices, exactly under the stated condition on pattern, value and path length; the result is the proof data of a chain of nodes for a partition of the whole path; the error is the fault of the pattern, if it has one |
| ProofGeneration.GenerateByPattern | tools/fuzzy_proof_generator_tool/src/FuzzyProofGenerator.ts:33-60 | returns exactly for a valid pattern that is not branches only and lengths that allow a path and a value; the result is one of `generate` for a path and a value within the bounds; which error |
| ProofGeneration.BranchesOnly | tools/fuzzy_proof_generator_tool/src/FuzzyProofGenerator.ts:33-60 | two or more branches are a valid pattern that is never served by pattern, while `generate` serves it for exactly the paths with one nibble less |
| ProofGeneration.ThreeBranches | tools/fuzzy_proof_generator_tool/src/FuzzyProofGenerator.ts:33-60 | bbb is such a pattern, served by `generate` for a path of one byte |
| ProofTheorems.ChainLookup | tools/fuzzy_proof_generator_tool/src/FuzzyProofGenerator.ts:429-494 | from every node of a chain on, the lookup of the standard uses up the rest of the path and finds the value, at a leaf or a branch as the pattern ends |
| ProofTheorems.GeneratedVerifies | tools/fuzzy_proof_generator_tool/src/FuzzyProofGenerator.ts:63-119 | every result of `generate` verifies: its nodes, decoded, lead from its root along exactly its path to the value, and its digest is the one for that kind of ending |
| ProofTheorems.GeneratedBinds | tools/fuzzy_proof_generator_tool/src/FuzzyProofGenerator.ts:110-116 | two results with one root and one path have the same pattern, value, nodes and digest, or exhibit a collision of the hash function |
| ProofTheorems.AcceptedBinds | tools/fuzzy_proof_generator_tool/src/FuzzyProofGenerator.ts:105-116 | whatever list of nodes passes the lookup for the root and path of a result of `generate` is that result's list and leads to its value and ending, or exhibits a collision |
| ProofTheorems.SerializedChain | tools/fuzzy_proof_generator_tool/src/FuzzyProofGenerator.ts:105-116 | the transported bytes are a list prefix and then the nodes' serializations; the first hashes to the root, each other one to the reference in the node before it; they decode to the nodes' raw lists |
| ProofUtils.SerializeProof | test_integration/lib/proof_utils.js:187-191 | for any decoder, the loop fails exactly when some buffer does not decode, and else encodes the list of everything decoded |
| ProofUtils.StandardReadsEncodings | test_integration/lib/proof_utils.js:187-191 | the strict decoder of the standard is a decoder that reads encodings back, so the results below are about some decoder |
| ProofUtils.FlattenedKeepsBytes | test_integration/lib/proof_utils.js:187-191 | for any decoder that reads encodings back, encodings of the standard are carried over byte for byte: the result is a list prefix and the given buffers |
| ProofUtils.FlattenedNodes | test_integration/lib/proof_utils.js:187-191 | for any such decoder, serialized nodes flatten to the same bytes as the generator transports |
| ProofUtils.AccountValueIsLookedUp | test_integration/lib/proof_utils.js:199-203 | for any such decoder, reading the last entry of the last node of any proof that passes the lookup gives the value the lookup finds |
| AddressGenerators.NthAddressValue | tools/deployment_tool/address_generators.js:45-53 | the k-th address of the counting generator reads as the start plus k: printing and reading undo each other |
| AddressGenerators.AddressDigits | tools/deployment_tool/address_generators.js:49-50 | a printed address has forty digits exactly while its number fits forty digits |
| AddressGenerators.AddressesDiffer | tools/deployment_tool/address_generators.js:45-53 | addresses given out at different times differ |
| AddressGenerators.NonceAddressBits | tools/deployment_tool/address_generators.js:88-104 | the predicted address has forty digits in lower case that read as the last twenty bytes of the hash of the list of two byte strings: one that reads as the sender, with a byte for every two digits, and the nonce in shortest big-endian form, as section 7 of the Yellow Paper has it |
| AddressGenerators.RightmostBitsAreOne | tools/deployment_tool/address_generators.js:88-104 | there is only one such address |
| Hex.HexBytesValue | tools/deployment_tool/address_generators.js:96 | a hexadecimal text and the bytes it is turned into are one number, with a byte for every two digits |
| Hex.HexTextValue | tools/deployment_tool/address_generators.js:96-100 | so are bytes and the hexadecimal text of them |
| AddressGenerators.DefaultAddresses | tools/deployment_tool/address_generators.js:35-37 | without a generator the addresses start at 0x10000, in forty digits |
| AddressGenerators.AddressGenerator.GenerateAddress | tools/deployment_tool/address_generators.js:29-105 | either generator gives out the next address and is left with the ones after it: one that counts up by one, or the sender's address for the next nonce in the sense of `NonceAddressBits` |
| Linking.ReplaceFillsIff | tools/deployment_tool/Contract.js:327-333 | for every name and every compiled bytecode, global textual replacement fills exactly the placeholders of that name if and only if none of its occurrences starts inside another placeholder |
| Linking.PlainIsIsolated | tools/deployment_tool/Contract.js:327-333 | a name that does not begin with an underscore, has no two in a row and does not fill its placeholder with code is never found inside another one, in any bytecode of such names |
| Linking.ShortIsNotLikeCode | tools/deployment_tool/Contract.js:328-329 | the last of these only matters from 36 characters on |
| Linking.UnderscorePairIsMistaken | tools/deployment_tool/Contract.js:327-333 | ab__Z is mistaken in the bytecode of X, ab and Z |
| Linking.LeadingUnderscoreIsMistaken | tools/deployment_tool/Contract.js:327-333 | _A is mistaken in the bytecode of X and A |
| Linking.LikeCodeIsMistaken | tools/deployment_tool/Contract.js:327-333 | every name that fills its placeholder with code is mistaken in some bytecode |
| Linking.LinkAllFills | tools/deployment_tool/Contract.js:302-309 | replacing one name after the other is filling all placeholders at once |
| Linking.LinkOrderIrrelevant | tools/deployment_tool/Contract.js:302-309 | the order of the links does not matter when their placeholders differ |
| Linking.LinkKeepsPlaces | tools/deployment_tool/Contract.js:299-333 | linking keeps the length of the bytecode and changes nothing but placeholders; with 0x in front, the text in a placeholder's place is the address of the first contract linked under that name |
| Linking.WithoutPrefix | tools/deployment_tool/Contract.js:330 | with 0x in front again it is the address, if that begins with 0x |
| Linking.FirstPrefixIsDropped | tools/deployment_tool/Contract.js:330 | otherwise the first 0x is left out wherever it stands, and a text without one stays |
| Linking.PlaceholderShape | tools/deployment_tool/Contract.js:328-329 | two underscores, the name and underscores up to forty characters, longer names cut, character by character |
| Linking.FullyLinkedIff | tools/deployment_tool/Contract.js:341-346 | the check for underscores passes exactly when there is bytecode and every placeholder belongs to a link |
| Linking.RelinkedTheSame | tools/deployment_tool/Contract.js:302-309 | bytecode left by an attempt that linked only the first contracts is linked to the same text later |
| Contracts.Contract.AddLinkedDependency | tools/deployment_tool/Contract.js:98-101 | appends the contract exactly in the state NEW, and changes nothing otherwise |
| Contracts.Contract.SetAddress | tools/deployment_tool/Contract.js:112-120 | sets the address exactly before instantiation |
| Contracts.Contract.SetGeneratedAddress | tools/deployment_tool/Contract.js:131-146 | keeps an address set before and does not draw one then; otherwise takes the next of the generator; fails exactly when instantiated, or without both address and generator |
| Contracts.Contract.LinkBytecode | tools/deployment_tool/Contract.js:299-318 | succeeds exactly in the state NEW with instantiated links that cover all of the bytecode; the bytecode afterwards is linked with the contracts before the first unusable one, also after a failure; which error |
| Contracts.Contract.EncodeConstructorArguments | tools/deployment_tool/Contract.js:270-291 | succeeds exactly when every referenced contract is instantiated, and fails for the first that is not; the result is what the encoder gives for a list of values without its first two characters, each value being the plain argument or the address of the contract referred to |
| Contracts.Contract.Instantiate | tools/deployment_tool/Contract.js:175-196 | succeeds exactly for an instantiable contract; its data are the linked bytecode it then holds and behind that the arguments, as `EncodeConstructorArguments` has them; which error comes first, and the state and bytecode a failure leaves |
| Contracts.LinkErrorIs | tools/deployment_tool/Contract.js:299-318 | linking stops at the first linked contract that is not instantiated or has no address, and otherwise fails exactly for empty bytecode or an underscore left |
| Contracts.EncodeErrorIs | tools/deployment_tool/Contract.js:270-291 | encoding stops at the first argument that refers to such a contract |
| Contracts.StuckInLinked | tools/deployment_tool/Contract.js:175-196 | a contract that refers to one not instantiated yet fails, and still fails when the other one is instantiated |
| DependencyOrder.CountGrows | tools/deployment_tool/Contract.js:354-373 | a contract counts strictly more than each of its dependencies, however often shared ones are counted |
| DependencyOrder.ReachIsLeast | tools/deployment_tool/Contract.js:348-353 | the transitive dependencies are the smallest set that holds the contract and is closed under dependencies |
| DependencyOrder.CountIsReach | tools/deployment_tool/Contract.js:348-373 | the count is at least the number of transitive dependencies, itself included, and exactly that if and only if no two dependencies share one at any level |
| DependencyOrder.SharedIsCountedTwice | tools/deployment_tool/Contract.js:354-373 | whatever two dependencies share makes the count too large |
| DependencyOrder.FourCountedAsFive | tools/deployment_tool/Contract.js:354-373 | a library under both dependencies of a contract: four contracts are counted as five |
| DependencyOrder.RankedIffNotCircular | tools/deployment_tool/Contract.js:354-373 | a rank that decreases along dependencies, on which the recursion terminates, exists exactly when no dependency is missing and no group of contracts is circular |
| DependencyOrder.OrderedIsTopological | tools/deployment_tool/ContractRegistry.js:146-148 | in the sorted order every registered dependency stands before what depends on it |
| DependencyOrder.Order | tools/deployment_tool/ContractRegistry.js:146-148 | the sort gives a rearrangement with non-decreasing counts |
| Planning.AssignedAt | tools/deployment_tool/ContractRegistry.js:81 | the i-th contract gets its preset address, or the generator's at the number of earlier contracts without one |
| Planning.DrawnIsPosition | tools/deployment_tool/Contract.js:131-146 | that number is the position exactly when no earlier contract has a preset address |
| Planning.StepsIffRegistrable | tools/deployment_tool/ContractRegistry.js:117-119 | in a topological order, all instantiations succeed one after the other exactly when the registered contracts are distinct, new, complete and linked, each dependency registered or instantiated: a condition without an order |
| ContractRegistries.CarryOut | tools/deployment_tool/ContractRegistry.js:80-82 | the two passes over the mutable contracts succeed exactly when each step can, and leave every contract instantiated with the planned address and data |
| ContractRegistries.ContractRegistry.AddContracts | tools/deployment_tool/ContractRegistry.js:52-54 | appends the contracts in order |
| ContractRegistries.ContractRegistry.ToParityGenesisAccounts | tools/deployment_tool/ContractRegistry.js:72-99 | succeeds exactly when the registered contracts are plannable; topological order and final states; every account has the balance 0 and the constructor data of the last contract at its address, there are no others, and at different addresses they come in the order of the contracts |
| ContractRegistries.ContractRegistry.ToLiveTransactionObjects | tools/deployment_tool/ContractRegistry.js:114-140 | the same for transactions: the i-th one has the sender given, the data, the address and the name of the i-th contract as it is then, and the nonce start + i; without sender or nonce it fails and no contract is changed |
| PlanTheorems.EmbeddedAddressesAreEarlier | tools/deployment_tool/ContractRegistry.js:114-140 | every address that goes into the data of the i-th contract is the planned one of an earlier contract, or that of one instantiated before the plan |
| PlanTheorems.HoleHoldsAddress | tools/deployment_tool/Contract.js:299-333 | where a placeholder stood in a contract's bytecode there stands in the plan, behind the 0x left out, the address of the contract linked under that name |
| PlanTheorems.DataEndsInArguments | tools/deployment_tool/Contract.js:175-196 | and behind the bytecode stand the encoded arguments, each reference replaced by the planned address of its contract |
| PlanTheorems.PredictedNonce | tools/deployment_tool/ContractRegistry.js:114-137 | the i-th transaction has nonce start + i, its address is predicted for nonce start + drawn; they agree exactly when no earlier contract has a preset address |
| PlanTheorems.PresetShiftsPrediction | tools/deployment_tool/ContractRegistry.js:114-137 | after one contract with a preset address the second transaction has nonce start + 1 and the address for nonce start |
| PlanTheorems.GenesisAddressesDiffer | tools/deployment_tool/ContractRegistry.js:72-99 | without preset addresses all addresses of a genesis plan differ |
| PlanTheorems.OneAccountEach | tools/deployment_tool/ContractRegistry.js:84-98 | there are as many accounts as contracts exactly when the addresses differ |
| PlanTheorems.AccountsInOrder | tools/deployment_tool/ContractRegistry.js:84-98 | an account comes behind those of all contracts before the first one at its address |
| ContractRegistries.LastStands | tools/deployment_tool/ContractRegistry.js:84-98 | of several contracts at one address the data of the last one stand |
| ContractRegistries.KeysInOrder | tools/deployment_tool/ContractRegistry.js:84-98 | at different addresses the accounts come in the order of the contracts |
| PlanTheorems.GenesisAccounts | tools/deployment_tool/ContractRegistry.js:72-99 | without preset addresses there is one account for each contract, the k-th one at the k-th address with the data of the k-th contract, and no other |
| PlanTheorems.PlannableIffCovered | tools/deployment_tool/ContractRegistry.js:114-140 | for compiled contracts whose links stand alone and addresses of forty digits a plan exists exactly when they can be registered together and every placeholder is covered by a link |
| PlanTheorems.LivePlanIffCovered | tools/deployment_tool/ContractRegistry.js:114-140 | for contracts with plain names and without preset addresses on a running network that condition alone decides, for every sender, nonce and order |
| PlanTheorems.GenesisPlanIffCovered | tools/deployment_tool/ContractRegistry.js:72-99 | the same for a chain specification whose addresses fit forty digits |

## Left out

- NodeCreation.CreateNodes: what the nodes hold in the end is put in terms of the chain when no two branches share an array, which `generate` never does; for shared arrays it is the loop as a function, and `SharedKeys` for two branches on one array. An array that grows counts the entries in between as empty buffers. What the arrays hold after a failure is not stated.
- ProofTheorems.GeneratedVerifies: for node lists whose encoding stays below 2^64 bytes, beyond which RLP has no encoding; likewise `GeneratedBinds` and the results about decoding.
- Rlp.EncodeDecode: about the strict decoder of Appendix B. The decoder of the RLP library may accept more, such as the empty buffer or longer prefixes than necessary.
- ProofUtils.FlattenedKeepsBytes: for buffers that are encodings of the standard; what the library makes of others it accepts is not modelled. Bytes stand for the hexadecimal strings that carry them.
- Linking.LinkAllFills: for several links one after the other each name has to be isolated in the bytecode it is linked in, which plain names always are. Regular-expression characters in names and `$` in replacements are taken literally.
- PathSections.GeneratePathData: lengths are whole numbers.
- Contracts.Contract.EncodeConstructorArguments: a missing address is reported as `MissingAddress`; the source fails inside web3 there. The ABI encoder is a total function parameter and its own errors are not modelled.
- ContractRegistries.ContractRegistry.ToLiveTransactionObjects: which contract an error names, and what contracts hold after a failed plan, is not stated. Circular dependencies are excluded, the count does not terminate on them.
- ContractRegistries.ContractRegistry.ToParityGenesisAccounts: the accounts keep the order of first insertion; that JavaScript puts keys first that are array indexes, which no address with 0x is, is not modelled.
- AddressGenerators.AddressGenerator.GenerateAddress: start addresses and senders are `0x` and hexadecimal digits; what web3 and the RLP library make of other text is not part of this model.
- Sorting stands for `Array.prototype.sort`: order and rearrangement are stated, not its algorithm. Nothing proved depends on the order of equal counts.
- Keccak-256, random bytes and `Math.random`: a parameter and free choices; that drawing again ends at some time is a matter of probability, proved is only that an undrawn value is left.
- Messages of errors, apart from what tells them apart.
- Nodes below 32 bytes, which Appendix D embeds in their parents: the generator always refers to nodes by hash, and so does the lookup.
- `loadTruffleContract`, `deployContracts`, signing, receipts, `tools/blue_deployment`, prompts and Docker helpers: input and output.
- `_fetchProof`, `_getProof`, `_storagePath` and the offsets in `proof_utils.js`: network calls and storage layout.
- The Solidity contracts: their source is not part of this model.
