# Merkle airdrop: model and proofs

This project models the airdrop tooling in `utils/` and the contract that pays out against it:
the `MerkleTree` class (sorted, deduplicated leaves, layers, proofs), the `BalanceTree` over packed
(index, account, amount) leaves with its proof verifier, `parseBalanceMap`, which turns rows into a
published blob (root, total, claims), and the claim bitmap of `MerkleDistributor`.

## How it is organised

- `Wrappers`, `Errors`, `Ordering`, `Buffers`, `Hashing`: options and results, the exceptions,
  sorting and deduplication, bytes with hexadecimal and packed forms, keccak256.
- `LayeredTree`, `TreeShape`, `TreeBinding`: the tree over any node type and any way of joining two
  nodes. `TreeShape` relates the layers to the recursion of sections 2.1 and 2.1.1 of RFC 6962 and
  bounds sizes; `TreeBinding` says what a root commits to.
- `MerkleHash`, `MerkleTree`: joining by sorted concatenation and keccak256, and the class.
- `BalanceTree`, `BalanceProperties`: leaves, the verifier, and what they guarantee.
- `ParseBalanceMap`, `BalanceMapProperties`, `InputProperties`, `BlobProperties`: the parser, what it
  does with each of its two input formats, and the published blob.
- `VerifierBoundary`: the one length of proof item at which the verifier stops being exact.
- `Distributor`, `Payouts`: the contract over whole runs of claims, and what runs pay against the
  published blob.

The source's mutable objects and loops are classes and methods with loops (`MerkleTree`,
`BalanceTree`, `MerkleDistributor`, the reducers of `parseBalanceMap`); each is proved equal to a
function, and the theorems are about those functions.

## How to read the results

keccak256 is an arbitrary function from byte strings to 32-byte strings. It is never assumed to be
injective, since no such function is. A result that depends on it names the finite set of byte
strings hashed in the run at hand (`BuildPreimages`, `VerifyPreimages`, `AttemptPreimages`) and
returns two strings: either the claim holds, or these are two different members of that very set
with the same hash. Completeness, refinement, canonicity and round-trip results hold outright.

`BalanceMaps.Env` collects the foreign code: keccak256, address decoding and checksumming
(`isAddress`, `getAddress`), `BigNumber.from`, `toHexString` and `toString(16)`. Its laws say only
that what was printed can be read back; `LawsAreConsistent` gives an instance.

A class constructor in Dafny cannot throw, so the source's constructors are the static methods
`Create`, which return the exception; the Dafny constructors only store the finished fields.

The comment at utils/balance-tree.ts:29 speaks of `abi.encode`; the code packs the fields without
padding (84 bytes), and the model follows the code.

`verifyProof` takes items of any length, and it is not exact for all of them. A leaf packs 84 bytes,
so a 52-byte item next to a 32-byte hash can spell a leaf, and the fold then carries on from that
leaf. `VerifierExact` and `NoAdditionalDistributions` hold for every proof and name this case
(`LeafReadAsPair`); `VerifierBoundary` shows that it occurs. Proofs given out by the tree have
32-byte items only (`ProofHashSized`), and the contract takes `bytes32` items, so the case never
arises there.

## Model

| member | source | states |
|---|---|---|
| Buffers.BufferOrder | utils/merkle-tree.ts:11 | `Buffer.compare` is a total, antisymmetric, transitive order on byte strings |
| Buffers.BufferOrderExact | utils/merkle-tree.ts:11 | a buffer comes before another just when it is a prefix or has the smaller byte at the first difference |
| Buffers.BufferOrderIsNumeric | utils/merkle-tree.ts:11 | equally long buffers are ordered as the big-endian numbers they spell |
| Buffers.HexRoundTrip | utils/merkle-tree.ts:16 | a buffer's `0x` text can be read back as that buffer |
| Buffers.HexLowerCase | utils/merkle-tree.ts:90-94 | the text is `0x` and two lower-case digits a byte |
| Buffers.HexInjective | utils/merkle-tree.ts:15-18 | different buffers never share a position-index key |
| Buffers.PackReadsBack | utils/balance-tree.ts:30-35 | a uint256 packed in 32 bytes reads back, most significant byte first |
| Ordering.StrictlySortedUnique | utils/merkle-tree.ts:11-13 | a strictly increasing list is fixed by its members, whatever sorting algorithm produced it |
| Ordering.DedupSorted | utils/merkle-tree.ts:106-110 | adjacent deduplication of a sorted list is strictly increasing and keeps exactly the same members |
| MerkleHash.JoinerCommutes | utils/merkle-tree.ts:120-122 | hashing a pair does not depend on which node came first |
| MerkleHash.SortAndConcatSorts | utils/merkle-tree.ts:120-122 | the pair is concatenated in sorted order; of two equally long buffers the one spelling the smaller number comes first |
| MerkleHash.CombinedHashLaws | utils/merkle-tree.ts:51-60 | argument order does not matter, and an absent argument leaves the other as it is |
| MerkleHash.SortAndConcatInjective | utils/merkle-tree.ts:120-122 | sorting two equally long buffers forgets only which was first |
| MerkleHash.SetCanonicity | utils/merkle-tree.ts:8-22 | two inputs give the same leaves, hence root and proofs, exactly when they have the same members |
| LayeredTree.NextLayerIsStep | utils/merkle-tree.ts:40-49 | node k of the next layer joins nodes 2k and 2k+1, or is node 2k promoted at an odd end |
| TreeShape.RootIsTreeHash | utils/merkle-tree.ts:24-64 | the layered root is the recursive tree hash of RFC 6962, section 2.1 |
| TreeShape.RootSplits | utils/merkle-tree.ts:24-64 | the root of n > 1 leaves joins the root of the first k with the root of the rest, k the split point |
| TreeShape.SplitPointLargest | utils/merkle-tree.ts:33-35 | the split point is a power of two below n that no other power of two below n exceeds |
| TreeShape.ProofIsAuditPath | utils/merkle-tree.ts:70-104 | the proof collected from the layers is the recursive audit path of RFC 6962, section 2.1.1, for every position and size |
| TreeShape.ProofSplits | utils/merkle-tree.ts:70-104 | a proof is the proof within its own side of the split followed by the other side's root |
| TreeShape.RunningHash | utils/merkle-tree.ts:40-88 | after the items of layers 0..j-1 the running hash is node i / 2^j of layer j, which exists, through promoted nodes too |
| TreeShape.ProofReachesRoot | utils/merkle-tree.ts:62-88 | folding leaf i's proof over leaf i gives the root, for any commutative join |
| TreeShape.LayerLengths | utils/merkle-tree.ts:24-49 | layer j has exactly ceil(n / 2^j) nodes |
| TreeShape.LayerCount | utils/merkle-tree.ts:28-37 | there are ceil(log2 n) + 1 layers |
| TreeShape.ProofLength | utils/merkle-tree.ts:77-87 | a proof has at most ceil(log2 n) items |
| TreeShape.AncestorIsQuotient | utils/merkle-tree.ts:84 | halving the index j times divides it by 2^j |
| TreeBinding.OpenRoot | utils/merkle-tree.ts:51-88 | where joins bind their sides, a list that carries a value to the root first carries it to some leaf, or to itself when it is one, and goes on with exactly that leaf's audit path |
| TreeBinding.SameRootSameLeaves | utils/merkle-tree.ts:24-64 | where joins bind their sides, strictly increasing leaf lists with equal roots are equal, whatever their lengths, although pairs are sorted before hashing |
| MerkleTrees.IndexedPosition | utils/merkle-tree.ts:15-18 | the position index has a key for exactly the leaves and sends each to its unique position |
| MerkleTrees.MembershipProofs | utils/merkle-tree.ts:70-88 | there is a proof for exactly the buffers given to the constructor (otherwise the exception), it folds to the root and is no longer than the tree is high |
| MerkleTrees.MerkleTree.Create | utils/merkle-tree.ts:8-22 | throws for the empty input alone; otherwise the leaves are the canonical list of the input |
| MerkleTrees.MerkleTree.IndexPositions | utils/merkle-tree.ts:15-18 | the reducer's memo maps each element's hex key to its position and holds no other key |
| MerkleTrees.MerkleTree.GetLayers | utils/merkle-tree.ts:24-38 | the loop builds the whole layering, or reports an empty tree |
| MerkleTrees.MerkleTree.GetNextLayer | utils/merkle-tree.ts:40-49 | the reducer computes the next layer |
| MerkleTrees.MerkleTree.GetRoot | utils/merkle-tree.ts:62-64 | the root of the layering over the tree's leaves |
| MerkleTrees.MerkleTree.GetProof | utils/merkle-tree.ts:70-88 | the proof of the element's position, or the exception for an element the tree lacks |
| MerkleTrees.MerkleTree.GetHexProof | utils/merkle-tree.ts:90-94 | the same items as hexadecimal text |
| BalanceTrees.LeafLayout | utils/balance-tree.ts:29-35 | 84 bytes: big-endian index, the 20-byte address, big-endian amount |
| BalanceTrees.LeafPreimageInjective | utils/balance-tree.ts:29-35 | index, account and amount can be told apart again in the 84 packed bytes |
| BalanceTrees.BalanceTree.Create | utils/balance-tree.ts:6-12 | the tree over one leaf hash per (position, account, amount) |
| BalanceTrees.BalanceTree.VerifyProof | utils/balance-tree.ts:14-27 | the loop accepts exactly when the proof folds the leaf hash to the root |
| BalanceTrees.BalanceTree.GetProof | utils/balance-tree.ts:41-44 | hex proof of a balance, or the exception when its leaf is not in the tree |
| BalanceProperties.Completeness | utils/balance-tree.ts:14-44 | every balance's published proof decodes and is accepted |
| BalanceProperties.ProofHashSized | utils/balance-tree.ts:40-44 | every item of every proof given out is 32 bytes long |
| BalanceProperties.VerifierExact | utils/balance-tree.ts:14-35 | for every proof, whatever its items: accepted exactly when the claim is the tree's balance at that very index with the one proof the tree gives out, or the fold reads a leaf's packed fields as a pair, never both and never with items of 32 bytes; or strings hashed in the run collide |
| VerifierBoundary.LeafSizedItemAccepted | utils/balance-tree.ts:14-27 | that second case is met for every hash function: a one-balance list and a one-item proof under which an index outside the list is accepted |
| VerifierBoundary.ExactOnlyForHashes | utils/balance-tree.ts:14-27 | an instance of it in which nothing hashed collides |
| BalanceProperties.RootCommitment | utils/balance-tree.ts:6-12 | equal roots come from equal balance lists, lengths and order included, or strings hashed in the builds collide |
| BalanceProperties.NoLeafLost | utils/balance-tree.ts:6-12 | the tree has one leaf per balance exactly when no two packed leaves collide, even if accounts and amounts repeat |
| BalanceProperties.LeavesIncrease | utils/merkle-tree.ts:8-13 | the leaf hashes of a balance tree, read as numbers, strictly increase |
| BalanceMaps.IncludesExact | utils/parse-balance-map.ts:51-55 | `includes` holds exactly when the word occurs at some position |
| BalanceMaps.FlagsExact | utils/parse-balance-map.ts:51-57 | no flags exactly for empty reasons; otherwise isSOCKS, isLP and isUser are set exactly when "socks", "lp" and "user" occur |
| BalanceMaps.StringOrderExact | utils/parse-balance-map.ts:61 | an address comes before another just when it is a prefix or has the smaller code point at the first difference |
| BalanceMaps.FirstErrorWins | utils/parse-balance-map.ts:40-59 | once a row throws, later rows do not matter |
| BalanceMaps.CollectData | utils/parse-balance-map.ts:40-59 | the reducer's memo, or the exception of the first row at fault |
| BalanceMaps.SortAddresses | utils/parse-balance-map.ts:61 | the keys in strictly increasing order, whatever order the object lists them in |
| BalanceMaps.BuildClaims | utils/parse-balance-map.ts:69-80 | one claim per address in order; the proof lookup never fails |
| BalanceMaps.SumAmounts | utils/parse-balance-map.ts:82-85 | the total of the entries' amounts |
| BalanceMaps.ParseBalanceMap | utils/parse-balance-map.ts:28-92 | the whole run: the blob, or the exception the source throws |
| BalanceMapProperties.CollectExact | utils/parse-balance-map.ts:40-59 | collecting succeeds exactly on valid rows with distinct accounts and positive amounts, and records exactly those rows |
| BalanceMapProperties.FirstBadRow | utils/parse-balance-map.ts:43-49 | a rejected input is blamed on its first row at fault and on that row's first fault: address, duplicate, number, amount |
| BalanceMapProperties.Acceptance | utils/parse-balance-map.ts:40-66 | normal return exactly when there is a row, all addresses are valid, accounts are distinct and amounts are positive and below 256^32; which failures mean an empty tree or a value out of range |
| BalanceMapProperties.RejectionExact | utils/parse-balance-map.ts:40-66 | each exception is raised exactly when it is deserved: empty input, an amount that cannot be packed, or the first fault of the first row at fault |
| BalanceMapProperties.Conservation | utils/parse-balance-map.ts:40-85 | one claim per row, under its checksummed address, with its amount printed and the flags its reasons call for; indices a bijection onto 0..n-1 in address order; total equal to the sum over the rows and to the sum of the claims' printed amounts |
| InputProperties.NewFormatExact | utils/parse-balance-map.ts:28-92 | an array counts as it stands: accepted exactly when its own rows are acceptable, then one claim per given row with that row's amount and flags; otherwise exactly the exception those rows deserve |
| InputProperties.OldFormatExact | utils/parse-balance-map.ts:30-66 | an object is accepted exactly for distinct valid accounts with positive amounts below 256^32, numbers or text, then one claim per entry with its amount and no flags; otherwise the first entry at fault, in the order given, is blamed for its first fault |
| BlobProperties.RowOrderIndependence | utils/parse-balance-map.ts:40-91 | permuting the rows changes neither acceptance nor root, total or claims |
| BlobProperties.ClaimsMatchBalances | utils/parse-balance-map.ts:69-80 | each claim carries its balance's index, amount and proof, and each balance is claimed |
| BlobProperties.BlobRebuildsTree | utils/parse-balance-map.ts:6-9 | exactly one balance list can be read off the claims, and its tree has the published root and proofs |
| BlobProperties.BlobRoundTrip | utils/parse-balance-map.ts:6-9 | feeding the claims back in, in any order, reproduces root, total, indices, amounts and proofs |
| BlobProperties.NoAdditionalDistributions | utils/parse-balance-map.ts:6-9 | for every proof: the published root accepts exactly the claims in the blob and the readings of a leaf as a pair, of which there are none among 32-byte items; or strings hashed in the run collide |
| Distributor.SetBit | contracts/6/token/MerkleDistributor.sol:28-40 | or-ing in a one-bit mask sets that bit and changes no other |
| Distributor.MarkExact | contracts/6/token/MerkleDistributor.sol:36-40 | marking an index claimed marks that index alone, across words |
| Distributor.BitmapLayout | contracts/6/token/MerkleDistributor.sol:28-40 | in every run binary digit b of word w is set exactly when index 256 w + b has been paid |
| Distributor.MerkleDistributor.IsClaimed | contracts/6/token/MerkleDistributor.sol:28-34 | whether the index's bit is set |
| Distributor.MerkleDistributor.SetClaimed | contracts/6/token/MerkleDistributor.sol:36-40 | exactly this index becomes claimed |
| Distributor.MerkleDistributor.Claim | contracts/6/token/MerkleDistributor.sol:42-59 | the new state and the outcome; a failing call leaves the state as it was |
| Distributor.CallExact | contracts/6/token/MerkleDistributor.sol:42-59 | after any run a call fails as already claimed exactly for a paid index, else as an invalid proof exactly when the verifier rejects it, else as a failed transfer exactly when the transfer fails, and otherwise pays; only then does the state change |
| Distributor.PaymentsExact | contracts/6/token/MerkleDistributor.sol:42-59 | a run pays, of all calls made, exactly the first one for each index that is valid and whose transfer goes through |
| Distributor.PaidOnce | contracts/6/token/MerkleDistributor.sol:42-59 | in every run all payments are valid claims, no index is paid twice, and the bitmap marks exactly the paid indices |
| Distributor.WordsFit | contracts/6/token/MerkleDistributor.sol:17 | in every run each bitmap word is a uint256 |
| Distributor.UnpaidClaimsPay | contracts/6/token/MerkleDistributor.sol:42-59 | after any run, valid claims with distinct unpaid indices are all paid, in order |
| Payouts.PaymentsConserve | utils/parse-balance-map.ts:64-91 | at every point of a run, what was paid and what is still owed add up to the total |
| Payouts.PayoutBound | utils/parse-balance-map.ts:64-91 | accepted claims with distinct indices never exceed the total, and reach it exactly when every entry is claimed, or strings hashed in the run collide |
| Payouts.RunPayout | contracts/6/token/MerkleDistributor.sol:42-59 | no sequence of calls pays more than the published total, or strings hashed in the run collide |
| Payouts.NeverBlocked | contracts/6/token/MerkleDistributor.sol:42-59 | after any calls whatever, each published entry has been paid with exactly its own claim or can still be claimed, or strings hashed in the run collide |
| Payouts.EveryEntryPays | utils/parse-balance-map.ts:64-91 | claiming every published entry once, in any order, succeeds and pays exactly `tokenTotal` |
| Payouts.TotalCanBePaid | utils/parse-balance-map.ts:64-91 | every accepted input has such a run, with `bytes32` proofs read off the tree |
| Payouts.CompleteRunPays | contracts/6/token/MerkleDistributor.sol:42-59 | any run in which each entry is claimed at some point, other calls in between included, has paid exactly `tokenTotal` in the end, or strings hashed in the run collide |

## Left out

- Indices and amounts outside uint256 in `verifyProof` and `toNode`: the packing library either rejects or reinterprets them. In `parseBalanceMap` an amount of 2^256 or more is the exception `ValueOutOfRange`, as the packer cannot fit it in 32 bytes.
- Accounts in the tree are 20-byte addresses; text reaches them only through `Env.decode`.
- Internals of keccak256, address checksums, ICAP addresses and `BigNumber`: foreign code, arbitrary functions here.
- Old-format numbers that are negative or not whole; strings in that format are covered as text after `0x`.
- Strings are compared character by character; JavaScript compares UTF-16 units, which agrees on the ASCII of checksummed addresses.
- Key order inside the published `claims` object: claims are a map.
- `bufArrToHexArr`'s check that every item is a buffer, which the types already give.
- Distributor.MerkleDistributor.Claim: the token transfer is a Boolean parameter, so token balances, reentrant tokens and event logs are not modelled; OpenZeppelin's MerkleProof is not part of this model, and the contract's proof check is taken to be the verifier in utils/balance-tree.ts.
- Deposits and owner withdrawals, which do not touch the bitmap.
- Deployment and validation scripts, and the vault, worker, staking and interest-model contracts.
