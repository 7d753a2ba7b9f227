# A verified model of the Sigsum log client, monitor and witness

This project models the parts of sigsum-go on which the trust in a transparency log rests, and proves
what they are for:

- **The Merkle tree** (`Merkle.dfy`, `Verify.dfy`, `CompactRange.dfy`, `Batch.dfy`, `BatchProofs.dfy`,
  `Tail.dfy`, `Tree.dfy`, with the bit arithmetic in `Bits.dfy`).  The specification is RFC 9162, defined
  top-down; the code works bottom-up on the bits of `uint64`.  The two meet in `Merkle.MTHUp` and
  `Merkle.PathUp`.  All five verifiers are sound and unique in their proofs, and they and the prover are
  complete, for every tree with a size of 64 bits; only for ranges across index 2^63 two of them panic.
- **The witness** (`Witness.dfy`, `WitnessAnswers.dfy`, `Chains.dfy`, `RequestText.dfy`, `RequestExact.dfy`): a
  durable state machine.  Over every run of requests, failed stores, crashes and restarts it never cosigns two inconsistent trees.
- **The monitor** (`Client.dfy`, `ClientExact.dfy`, `GetLeaves.dfy`, `Monitor.dfy`, `MonitorProofs.dfy`,
  `MonitorAnswers.dfy`): whatever the log answers, it walks the log without gap or repeat, and what it has processed in checked batches is what the latest
  head commits to.
- **Policies** (`Policies.dfy`, `PolicyConfig.dfy`, `PolicyMeaning.dfy`): quorums and the policy file.
- **Sigsum proofs** (`Ascii.dfy`, `AsciiExact.dfy`, `ProofText.dfy`, `ProofIO.dfy`, `ProofExact.dfy`,
  `ProofVerify.dfy`, `Submit.dfy`): what is submitted is accepted by the verifier, and survives being
  written and read.

`EndToEnd.dfy` puts the witness, the monitor and the verifier together: a signature that a verifier
accepts is reported by every monitor that goes past its index with checked batches, when one witness has
cosigned the heads of both.

`Crypto.dfy` and `Types.dfy` hold the shared values.  `dafny verify dfyconfig.toml` checks everything.

Three conventions run through the project:

- Code that changes things step by step is a method or a class, and its `ensures` ties it to a function
  or predicate on values (`VerifyInclusionBatch` to `BatchVerdict`, `State.Update` to `Step`).  Such a
  function is a mathematical restatement, mostly recursive on lists that shrink layer by layer, and the
  lemmas are about it.  What such a function decides is also stated without it, in terms of signatures, RFC
  trees and proofs, and letters: in the modules whose names end in `Exact`, `Answers` or `Meaning`, and in
  the lemmas called after what is accepted.
- Hash and signature verification are arbitrary functions, and no collision freedom is assumed, since it
  is false of every function to 32 bytes.  A soundness claim is a function that returns a
  `MaybeCollision`: if it returns `None` the claim holds, and otherwise two different byte strings with the
  same hash, computed from the arguments.
- The network, the clock, the signer and the file system are arguments: sequences of replies and events
  over which every claim is quantified.

## What the code does differently from what is promised

- The guard of `verifyInclusionLeft`, `pkg/merkle/verify.go` line 166, shifts a signed 1, which overflows for 63
  path elements.  So `VerifyInclusionBatch` and `VerifyInclusionTail` panic on valid proofs of ranges across index
  2^63: `BatchProofs.BatchPanicsAcrossHalf`.  `Batch.BatchPanicsExactly`, `Tail.TailPanicsExactly`,
  `BatchProofs.BatchComplete` and `Tail.TailComplete` give the exact condition, which also covers indices that wrap
  around.  No tree head that the parser accepts is as large, and below it no panic is left:
  `BatchProofs.BatchNeverPanicsBelowHalf`.
- A single leaf that `getLeaves` receives after a cached one is never checked, because the length test of
  `pkg/monitor/client.go` line 111 looks at the new leaves and the verification after it at the cached
  one.  `GetLeaves.SingleLeafIsUnchecked` shows it for every cache, and `GetLeaves.UncheckedExactly` gives the exact
  condition.  The cache is then not for the next leaf: `MonitorProofs.RunPanicsExactly` says that the monitor panics
  if and only if its next request for leaves succeeds.  When that request fails, the monitor goes on and the leaf
  stays unchecked: `MonitorProofs.SingleLeaves`.
- In a tree of one leaf the client hands back a trivial proof without asking the log, `pkg/client/client.go` lines
  65-67.  When that leaf is another one, a submission to an honest log fails instead of waiting:
  `Submit.OneOtherLeafFails`.  `Submit.HonestRound` and `Submit.HonestLogDelivers` give the exact condition.
- The limit of 63 hashes in `pkg/types/proof.go` rejects valid consistency proofs for trees above 2^62
  leaves: `Types.ConsistencyLimitIsExact`.  With such a log the monitor gets no further: `MonitorProofs.HonestRound`.
- `pkg/client/client.go` passes start - end, which wraps around, as the maximum number of leaves, so a log
  can return more than asked: `GetLeaves.ParseLeavesHasNoLimit`.  The monitor stays within the tree anyway:
  `GetLeaves.OutcomeWithinTree`.
- `state.Load` does not return when the file lacks the cosignature of the witness; the all-zero
  cosignature is then verified: `Witness.LoadWithoutCosignature`.
- `doc/sigsum-proof.md` writes `tree_size=` where the code writes and reads `size=`; the model follows the
  code.

## Model

| member | source | states |
|---|---|---|
| `Merkle.Split` | pkg/merkle/tree.go:212-217 | k, by definition a power of two, satisfies 1 <= k < n <= 2k, so it is the largest one smaller than n |
| `Merkle.MTHUp` | pkg/merkle/tree.go:34-43 | the root of RFC 9162 section 2.1.1, split top-down, is also the root of the list obtained by pairing neighbours and promoting an odd last node |
| `Merkle.PathUp` | pkg/merkle/verify.go:129-142 | PATH of section 2.1.3.1 is the sibling of the leaf, if it has one, followed by the PATH of its parent one layer up |
| `Merkle.SplitHalves` | pkg/merkle/tree.go:212-217 | a tree of three or more leaves and its second layer split at the same node |
| `Merkle.SubproofUp` | pkg/merkle/verify.go:44-49 | SUBPROOF of section 2.1.4.1 from an even old size is that of the layer above |
| `Merkle.SubproofOdd` | pkg/merkle/verify.go:51-67 | SUBPROOF from an odd old size is the last old leaf, unless it is the whole old tree, and then its PATH in the new tree |
| `Crypto.InteriorCollision` | pkg/merkle/merkle.go:22-33 | equal interior hashes have equal children, or two different byte strings with the same hash are returned |
| `Verify.PathLengthCountsSteps` | pkg/merkle/verify.go:12-17 | the formula from Len64 and OnesCount64 is exactly the number of siblings that the loops consume |
| `Verify.PathHasPathLength` | pkg/merkle/verify.go:12-17 | the PATH of every leaf of every tree has the length that pathLength computes |
| `Verify.PathLengthBounds` | pkg/merkle/verify.go:12-17 | a path has at most Len64(size-1) elements, and at least one unless the tree has one leaf |
| `Bits.Diverge` | pkg/merkle/verify.go:222-227 | Len64(fn^en)-1 is the level on which the ends of a range become neighbours under one parent |
| `Bits.MaskClearsLowBits` | pkg/merkle/verify.go:227 | en & -(1<<k) with the wrap-around of uint64 clears exactly the k lowest bits |
| `Batch.CanSplitExactly` | pkg/merkle/verify.go:165-168 | for every uint64 index and slice length, wrapped around or not: the level of the split is below 63 if and only if the first and last index are on one side of 2^63, which is when the signed guard 1 << len(path) is right |
| `Batch.SplitCount` | pkg/merkle/verify.go:218-224 | the uint64 arithmetic gives the place of the split, and a slice in range, also when the index wraps around |
| `Batch.SplitBounds` | pkg/merkle/verify.go:215-231 | where the range splits: the bounds that the comments of the source claim, and that all layers up to the split consume an element of the start path |
| `Verify.VerifyInclusion` | pkg/merkle/verify.go:102-148 | the loop computes its specification; the path is never indexed out of range and nothing is left over |
| `Verify.InclusionComplete` | pkg/merkle/verify.go:102-148 | for every tree and leaf, the PATH is accepted |
| `Verify.InclusionUnique` | pkg/merkle/verify.go:102-148 | two accepted proofs for one index, size and root carry the same leaf and path, or a collision is returned |
| `Verify.InclusionSound` | pkg/merkle/verify.go:102-148 | acceptance against the root of d forces the leaf d[index] and the path PATH(index, d), or a collision is returned |
| `Verify.PathCollision` | pkg/merkle/verify.go:126-146 | two paths that lead two nodes to the same root are equal, element by element, or a collision is returned |
| `Verify.PathLeadsToRoot` | pkg/merkle/verify.go:126-142 | following PATH from a leaf gives the root of the tree |
| `Verify.PathLeadsToPrefixRoot` | pkg/merkle/verify.go:69-85 | following PATH and using left siblings only gives the root of the leaves up to this one |
| `Verify.VerifyConsistency` | pkg/merkle/verify.go:21-96 | the loop computes its specification; the dead panic is dead, given oldSize <= newSize, which both callers establish |
| `Verify.Trim` | pkg/merkle/verify.go:44-49 | trimming the trailing zeros of the old size keeps both roots and the proof |
| `Verify.TrimmedProof` | pkg/merkle/verify.go:44-87 | the RFC proof, as the loops consume it: the old subtree, if it is not the whole old tree, and then its path |
| `Verify.ConsistencyComplete` | pkg/merkle/verify.go:21-96 | for every tree and every prefix, empty and full ones included, the RFC proof is accepted between their roots |
| `Verify.ConsistencyUnique` | pkg/merkle/verify.go:21-96 | two accepted proofs between the same sizes to one new root start from the same old root and are the same proof, or a collision is returned |
| `Verify.ConsistencySound` | pkg/merkle/verify.go:21-96 | acceptance against the root of d forces the old root to be that of the prefix of d and the path to be PROOF(oldSize, d), or a collision is returned |
| `CompactRange.Extend` | pkg/merkle/tree.go:16-23 | the loop that pops and joins equals its recursive specification, for any node function |
| `CompactRange.NewCompactRange` | pkg/merkle/tree.go:26-32 | the compact range of any list is its list of perfect subtrees, largest first |
| `CompactRange.RangeIsPerfectSubtrees` | pkg/merkle/tree.go:12-15 | found layer by layer or top-down, the subtree hashes are the same |
| `CompactRange.RangeHasOneEntryPerOneBit` | pkg/merkle/tree.go:12-15 | one entry for each one-bit of the number of leaves |
| `CompactRange.ExtendAppends` | pkg/merkle/tree.go:16-23 | extending the compact range of d with h gives the compact range of d + [h] |
| `CompactRange.GetRootHash` | pkg/merkle/tree.go:34-43 | the loop joins the subtrees from the right |
| `CompactRange.RangeRootIsMTH` | pkg/merkle/tree.go:34-43 | the root hash of the compact range of d is MTH(d), for every d |
| `CompactRange.SplitIsTopPower` | pkg/merkle/tree.go:101-140 | a list whose length is no power of two splits at the size of its first perfect subtree |
| `CompactRange.RootOf` | pkg/merkle/tree.go:87-89 | rootOf computes MTH |
| `Batch.MakeLeftRange` | pkg/merkle/verify.go:152-161 | the reversed compact range of a list that ends at a large power of two |
| `Batch.ExtendPrepends` | pkg/merkle/verify.go:152-161 | extending it with the flipped node function is prepending to the list |
| `Batch.LeftStep` | pkg/merkle/verify.go:172-187 | one layer up, the range loses its last entry exactly when the left node has a right sibling in the list, and that entry is the sibling |
| `Batch.LeftRangeMatchesZeroBits` | pkg/merkle/verify.go:165-187 | the reversed range has one entry for each zero bit of 2^k - len(leaves), where the loop pops |
| `Batch.VerifyInclusionLeft` | pkg/merkle/verify.go:165-191 | panics exactly for no leaves, too many, or 63 and more path elements, where the signed shift of the guard overflows; otherwise the loop computes its specification: every pop is in range and no entry is left over |
| `Batch.RightStep` | pkg/merkle/verify.go:232-252 | the same for the compact range of the leaves between split and end |
| `Batch.VerifyInclusionRight` | pkg/merkle/verify.go:229-256 | the loop over the end path computes its specification: every pop is in range and no entry is left over |
| `Batch.VerifyInclusionBatch` | pkg/merkle/verify.go:197-268 | for all uint64 indices and sizes, with wrap-around: the whole verifier computes its specification, panics included; behind the guard every slice is in range and the other panics are dead |
| `Batch.BatchPanicsExactly` | pkg/merkle/verify.go:197-227 | the verifier panics if and only if there are two or more leaves, the last index is in the tree, the paths have the right lengths, and exactly one of the first and last index is below 2^63 |
| `BatchProofs.BatchPanicsAcrossHalf` | pkg/merkle/verify.go:165-168 | the smallest example: the two true leaves on both sides of index 2^63, with their PATHs |
| `BatchProofs.BatchNeverPanicsBelowHalf` | pkg/merkle/verify.go:197-268 | in a tree of at most 2^63 leaves it never panics |
| `Tail.TailPanicsExactly` | pkg/merkle/verify.go:272-288 | the same for the tail verifier |
| `BatchProofs.LeftComplete` | pkg/merkle/verify.go:165-191 | the true leaves up to a multiple of 2^k lead, along their path, to the node k layers up |
| `BatchProofs.RightComplete` | pkg/merkle/verify.go:229-256 | the true leaves from a multiple of 2^k on lead, along the end path, to the node k layers up |
| `BatchProofs.BatchComplete` | pkg/merkle/verify.go:197-268 | for every tree with a uint64 size and every non-empty range, the true leaves with the PATHs of both ends are accepted if the range does not go across index 2^63, and make the verifier panic if it does |
| `BatchProofs.LeftCollision` | pkg/merkle/verify.go:165-191 | two left parts with the same result are the same leaves and path, or a collision is returned |
| `BatchProofs.LeftSound` | pkg/merkle/verify.go:165-191 | when the left part leads to the root of a perfect tree, its leaves are the end of that tree and its path is their PATH, or a collision is returned |
| `BatchProofs.RightCollision` | pkg/merkle/verify.go:229-256 | two right parts with the same result are the same leaves and path, or a collision is returned |
| `BatchProofs.BatchUnique` | pkg/merkle/verify.go:197-268 | two accepted batches of one length at one place of one tree are equal in leaves and in both paths, or a collision is returned |
| `BatchProofs.BatchSound` | pkg/merkle/verify.go:197-268 | every accepted batch is d[fn..fn+len] with the PATHs of both ends, for any d that the root commits to, or a collision is returned |
| `BatchProofs.TreeCollision` | pkg/merkle/merkle.go:22-33 | two lists of one length with one root are equal, or a collision is returned |
| `BatchProofs.BatchNonEmpty` | pkg/merkle/verify.go:198-208 | an accepted batch is not empty and within the tree |
| `Tail.VerifyInclusionTail` | pkg/merkle/verify.go:272-301 | for all uint64 indices, with wrap-around: the verifier computes its specification, panics included |
| `Tail.TailToBatch` | pkg/merkle/verify.go:272-301 | an end path computed from an accepted tail makes the batch verifier accept |
| `Tail.BatchToTail` | pkg/merkle/verify.go:272-301 | an accepted batch that ends a tree with a uint64 size is an accepted tail, whatever its end path |
| `Tail.TailIsBatch` | pkg/merkle/verify.go:197-301 | for every tree with a uint64 size, the tail verifier accepts if and only if some end path makes the batch verifier accept, with no assumption about the hash |
| `Tail.TailComplete` | pkg/merkle/verify.go:272-301 | for every tree with a uint64 size and every start, the true tail with the PATH of its first leaf alone is accepted if it does not go across index 2^63, and makes the verifier panic if it does |
| `Tail.TailSound` | pkg/merkle/verify.go:272-301 | an accepted tail is d[fn..] and its path is PATH(fn, d), or a collision is returned |
| `Tree.ReversePath` | pkg/merkle/tree.go:91-97 | reverses the array in place |
| `Tree.Inclusion` | pkg/merkle/tree.go:101-140 | whatever larger tree supplies the compact range, the reversed result is PATH(m, leaves) |
| `Tree.Consistency` | pkg/merkle/tree.go:150-199 | whatever larger tree supplies the compact range, the reversed result is SUBPROOF(m, leaves, true); the panic is dead |
| `Tree.SameSplit` | pkg/merkle/tree.go:104-122 | while hashes of the larger tree are reused, prefix and larger tree split at the same node |
| `Tree.FirstSubtree` | pkg/merkle/tree.go:104-122 | the first hash of a compact range of two or more is that of the left half of the tree, and the others are the range of the right half |
| `Tree.Tree.constructor` | pkg/merkle/tree.go:56-58 | the empty tree satisfies the invariant |
| `Tree.Tree.AddLeafHash` | pkg/merkle/tree.go:65-74 | appends exactly one new leaf, or nothing when it is a duplicate; the invariant is kept: compact range of the leaves, index inverse to the duplicate-free list |
| `Tree.Tree.GetLeafIndex` | pkg/merkle/tree.go:76-81 | finds the position of a leaf exactly when it is present |
| `Tree.Tree.GetTreeRootHash` | pkg/merkle/tree.go:83-85 | MTH of the leaves |
| `Tree.Tree.ProveInclusion` | pkg/merkle/tree.go:142-147 | PATH(index, leaves[..size]) for every earlier version, or an error exactly for indices and sizes out of range |
| `Tree.Tree.ProveConsistency` | pkg/merkle/tree.go:201-209 | PROOF(m, leaves[..n]) for all m <= n <= Size, or an error exactly otherwise |
| `Types.InclusionPathFits` | pkg/types/proof.go:13-15 | the limit of 63 hashes never rejects an inclusion path of the right length below 2^63 leaves, and it is empty only in a tree of one leaf |
| `Types.ConsistencyProofFits` | pkg/types/proof.go:13-15 | nor a consistency proof of the right length up to 2^62 leaves, which is never empty |
| `Types.ConsistencyProofTooLong` | pkg/types/proof.go:13-15 | above 2^62 leaves the valid proof from three leaves has 64 hashes |
| `Types.ConsistencyLimitIsExact` | pkg/types/proof.go:13-15 | all consistency proofs to a tree fit if and only if it has at most 2^62 leaves |
| `Types.ProofHasConsistencyLength` | pkg/merkle/verify.go:51-62 | the RFC proof has the length that VerifyConsistency asks for |
| `Crypto.DomainsAreSeparate` | pkg/merkle/merkle.go:17-37 | what is hashed for leaves, interior nodes and the empty tree, byte by byte, is never the same |
| `Types.LeafCollision` | pkg/types/leaf.go:51-61 | leaves with one leaf hash are one leaf, or a collision is returned |
| `Chains.ChainIsMonotone` | cmd/sigsum-witness/sigsum-witness.go:237-265 | heads joined by accepted consistency proofs never shrink, and equal sizes have equal roots |
| `Chains.ChainSound` | cmd/sigsum-witness/sigsum-witness.go:237-265 | if the last head commits to d, every head before it commits to a prefix of d, or a collision is returned |
| `Witness.State.LoadFile` | cmd/sigsum-witness/sigsum-witness.go:184-215 | starts from the empty tree without a file, and from a file if and only if the signature of the log and the cosignature of the witness, or the all-zero one if there is none, verify |
| `Witness.State.Store` | cmd/sigsum-witness/sigsum-witness.go:218-234 | replaces the file atomically or not at all, and never by a smaller tree |
| `Witness.State.Update` | cmd/sigsum-witness/sigsum-witness.go:151-174 | with state.Update of lines 237-265: memory, file and response after every request, for every outcome of signing and storing |
| `Witness.State.Serve` | pkg/requests/witness.go:46-57 | the request checks come first and establish what the consistency verifier needs |
| `Witness.StepKeepsInv` | cmd/sigsum-witness/sigsum-witness.go:184-265 | every step keeps: all that was cosigned is behind the file, and behind the memory while the witness runs |
| `Witness.RunKeepsInv` | cmd/sigsum-witness/sigsum-witness.go:184-265 | so does every run, from every state with the invariant |
| `Witness.CosignedHeadsNeverShrink` | cmd/sigsum-witness/sigsum-witness.go:237-265 | over every run of requests, failures, crashes and restarts: cosigned sizes never decrease and no size is cosigned with two roots, whatever the hash |
| `Witness.CosignedHeadsAreConsistent` | cmd/sigsum-witness/sigsum-witness.go:237-265 | if a cosigned head commits to d, every head cosigned before commits to a prefix of d, or a collision is returned |
| `Witness.NoSplitView` | cmd/sigsum-witness/sigsum-witness.go:237-265 | the leaves behind a later cosigned head extend those behind an earlier one, or a collision is returned |
| `Witness.RestartRemembers` | cmd/sigsum-witness/sigsum-witness.go:184-215 | after any run, a restart continues from a head no smaller than any that was cosigned, and equal to it if of the same size |
| `Witness.LoadWithoutCosignature` | cmd/sigsum-witness/sigsum-witness.go:184-215 | a file without the cosignature of the witness is loaded if and only if the log signature and the all-zero cosignature verify |
| `WitnessAnswers.StartsExactly` | cmd/sigsum-witness/sigsum-witness.go:184-215 | from a file with an entry of this witness: it starts if and only if VerifySignature holds for the log on the head and for the entry, and continues from that head |
| `WitnessAnswers.RunHoldsSignedHead` | cmd/sigsum-witness/sigsum-witness.go:184-265 | over every run from every initial file, valid or not: a running witness holds a head that the log key has signed, or the empty one if there was no file |
| `WitnessAnswers.CosignedWasRequested` | cmd/sigsum-witness/sigsum-witness.go:151-174 | every head cosigned in a run came with a request with the origin line of the log, its key id and a valid log signature |
| `WitnessAnswers.FirstHeadIsCosigned` | cmd/sigsum-witness/sigsum-witness.go:184-265 | a new witness is at the empty tree of the RFC and cosigns the first head of any honest log |
| `WitnessAnswers.AnswersExactly` | cmd/sigsum-witness/sigsum-witness.go:151-174 | which refusal every request gets, in order: bad sizes, unknown origin, wrong key id or log signature, wrong old size; and that nothing changes then |
| `WitnessAnswers.ProofIsRefused` | cmd/sigsum-witness/sigsum-witness.go:243-249 | a request that gets to its proof is refused for it if and only if the head of the witness is not that of a prefix, or the path not the RFC proof, or a collision is returned |
| `WitnessAnswers.GoodRequest` | cmd/sigsum-witness/sigsum-witness.go:250-265 | answer, memory and file after a request that nothing is wrong with, for every outcome of signing and storing |
| `Witness.AlwaysRestarts` | cmd/sigsum-witness/sigsum-witness.go:184-234 | with a signer whose signatures verify, the witness never stores a file from which it refuses to start |
| `Witness.HonestRequestIsWellFormed` | pkg/requests/witness.go:46-57 | the request of an honest log of at most 2^62 leaves passes the size and emptiness checks |
| `Witness.HonestLogIsCosigned` | cmd/sigsum-witness/sigsum-witness.go:243-264 | a running witness answers a wrong old size of an honest log with a Conflict that tells the right one and changes nothing, and with that size, when signing and storing work, the new head is cosigned and is then in memory and file |
| `RequestText.FromASCII` | pkg/requests/witness.go:19-59 | reads a request as its specification says |
| `RequestText.ToASCII` | pkg/requests/witness.go:61-72 | writes a request as its specification says |
| `RequestText.ParseBase64` | pkg/types/proof.go:109-131 | the loop reads at most 63 hashes up to an empty line |
| `RequestText.ParseSignatureLines` | pkg/checkpoint/checkpoint.go:93-129 | the loop reads at most 16 signature lines, exactly one of them of the log |
| `RequestText.ParsedIsWellFormed` | pkg/requests/witness.go:40-57 | only requests with oldSize <= size, at most 63 hashes, and a proof that is empty exactly when it should be, are accepted |
| `RequestExact.PathExactly` | pkg/types/proof.go:109-131 | non-empty lines up to an empty one are read as a path if and only if each is a hash and there are at most 63 |
| `RequestExact.SignaturesExactly` | pkg/checkpoint/checkpoint.go:93-129 | signature lines are read if and only if there are at most 16, none is invalid and exactly one is of the log, wherever it stands among others |
| `RequestExact.RequestsExactly` | pkg/requests/witness.go:19-59 | a text of any lines is read as a request if and only if all lines can be read and the request is well-formed, and then it is the request with these values |
| `RequestText.RequestRoundTrip` | pkg/requests/witness.go:19-72 | the text of a request is read back as that request if and only if it is well-formed with a size below 2^63, given line codecs that read what they have written |
| `Client.InclusionGetsThrough` | pkg/client/client.go:61-70 | the client hands back the true inclusion proof of every leaf of every tree of less than 2^63 leaves, also where it does not ask the log |
| `ClientExact.InclusionExactly` | pkg/client/client.go:61-70 | for two or more leaves a proof is handed back if and only if it can be read from its text, and otherwise the request fails; for fewer the log is not asked |
| `ClientExact.ConsistencyExactly` | pkg/client/client.go:72-78 | the same for consistency proofs |
| `Client.ConsistencyGetsThrough` | pkg/client/client.go:72-78 | the client hands back the true consistency proof if and only if it has at most 63 hashes |
| `GetLeaves.GetLeaves` | pkg/monitor/client.go:78-136 | one call, with any cache and replies: a failed request is an error first, then a cache that is not for the next leaf panics, and otherwise the checks are those of the specification |
| `GetLeaves.OutcomeWithinTree` | pkg/monitor/client.go:118-135 | a call returns at least one leaf and stays within the tree, even if the log returns more than asked |
| `GetLeaves.OutcomeSound` | pkg/monitor/client.go:71-136 | with no cache, or at least two leaves: every leaf returned is the leaf of d at its own index, for any d that the head commits to, or a collision is returned |
| `GetLeaves.CacheIsAdjacent` | pkg/monitor/client.go:90-98 | the cache returned is for the next range if and only if the call was not a single leaf after a cached one |
| `GetLeaves.SingleLeafIsUnchecked` | pkg/monitor/client.go:111-116 | after any cache: when a single leaf after a cached one is accepted, so is every other leaf in its place, with the cache unchanged |
| `GetLeaves.UncheckedExactly` | pkg/monitor/client.go:71-136 | a batch is checked if and only if of any two different leaves at most one is accepted in any given place of it, or a collision is returned |
| `GetLeaves.HonestBatchIsAccepted` | pkg/monitor/client.go:78-136 | every batch of an honest log of less than 2^63 leaves, with what the client makes of its proofs, is accepted, first or continued, and a checked one leaves the honest cache for the next |
| `GetLeaves.ParseLeavesHasNoLimit` | pkg/types/leaf.go:108-128 | the client rejects empty replies, but because its maximum wraps around, no long ones |
| `Monitor.GetTreeHead` | pkg/monitor/client.go:33-53 | hands back exactly a head that VerifySignature accepts for the log key, that is not smaller, and whose proof verifies, equal sizes included |
| `MonitorAnswers.BadHeadIsAlerted` | pkg/monitor/client.go:33-53 | a caught-up monitor alerts, and changes nothing, for an unsigned or smaller head, a failed request, and a head of the same size with another root |
| `MonitorAnswers.HeadsExactly` | pkg/monitor/monitor.go:106-116 | for every head that commits to some d: a caught-up monitor alerts if and only if the head is not signed, its own head is not that of a prefix of d, or the path is not the RFC proof; a good head of the same size passes silently and a larger one is announced; or a collision is returned |
| `MonitorAnswers.BehindGoesOn` | pkg/monitor/monitor.go:106-118 | a monitor that is behind does not look at heads |
| `MonitorAnswers.LeavesExactly` | pkg/monitor/client.go:78-136 | with an honest cache or none, a checked reply is accepted if and only if it consists of the true leaves with the RFC proofs that are needed for them, at their indices, or a collision is returned |
| `MonitorAnswers.BadLeavesAreAlerted` | pkg/monitor/monitor.go:124-129 | any other reply is alerted, and the monitor waits where it was |
| `MonitorAnswers.ReportedBySignature` | pkg/monitor/monitor.go:68-98 | a leaf is reported if and only if no keys are configured, or its key is among them and VerifySignature holds for its signature on its checksum |
| `Monitor.ProcessLeaves` | pkg/monitor/monitor.go:118-138 | the inner loop ends within the tree, at a failed request or in a panic, and does what the state machine does on the same replies |
| `Monitor.MonitorLog` | pkg/monitor/monitor.go:102-139 | the whole loop does what the state machine does, for every sequence of replies |
| `MonitorProofs.StepIsGapFree` | pkg/monitor/monitor.go:106-138 | each step keeps NextLeafIndex <= TreeHead.Size; a batch starts at the next index, is not empty and stays within the tree, and a head is replaced by a larger signed one only when it is done with |
| `MonitorProofs.RunIsGapFree` | pkg/monitor/monitor.go:106-138 | so does every run: the ranges reported are contiguous, without gap or repeat, and end where the state says |
| `MonitorProofs.HeadChainIsValid` | pkg/monitor/client.go:33-53 | all heads of a run are joined by accepted consistency proofs |
| `MonitorProofs.ProcessedLeavesAreLogged` | pkg/monitor/monitor.go:106-138 | if the last head of a run commits to d, every checked batch processed earlier, against whatever head, is the range of d at its index, or a collision is returned |
| `MonitorProofs.EventFor` | pkg/monitor/monitor.go:118-138 | no index is passed without a batch for it: for every index that a run goes past, the event is computed in which a batch with that index is processed |
| `MonitorProofs.ProcessedIsPassedOn` | pkg/monitor/monitor.go:118-138 | each batch that is processed is passed on with its start index |
| `MonitorProofs.HonestBatchesAreFollowed` | pkg/monitor/monitor.go:118-138 | an honest log hands out all leaves in non-empty batches: if every batch is checked or ends the tree, the monitor gets to the end, exactly the leaves are passed on and there is no alert, and otherwise it panics |
| `MonitorProofs.HonestRound` | pkg/monitor/monitor.go:106-138 | a whole round with an honest log: if the consistency proof has at most 63 hashes the new head is announced, exactly the new leaves are passed on, and the monitor waits at the end of the new tree; and otherwise there is an alert and no change |
| `MonitorProofs.StuckStep` | pkg/monitor/client.go:78-98 | in one step the cache gets stuck exactly by an unchecked leaf; a stuck monitor panics on the next leaves, and gives up the cache when the next request fails |
| `MonitorProofs.RunPanicsExactly` | pkg/monitor/client.go:78-117 | over every run of any events: the monitor panics if and only if it processes a single leaf after a cached one, not the last of the tree, and the next request for leaves succeeds |
| `MonitorProofs.PanicsExactly` | pkg/monitor/client.go:78-117 | the same for two events |
| `MonitorProofs.NeverPanics` | pkg/monitor/client.go:78-117 | without single-leaf replies no run panics |
| `MonitorProofs.SingleLeaves` | pkg/monitor/client.go:78-117 | single, single, then a third request: the second leaf can be anything; if the third request succeeds the monitor panics, and if it fails there is an alert only and the monitor goes on behind the unchecked leaf |
| `MonitorProofs.FilterLeaves` | pkg/monitor/monitor.go:68-98 | the loop computes its specification |
| `MonitorProofs.FilteredExactly` | pkg/monitor/monitor.go:68-98 | a leaf is reported if and only if its key is known and its signature valid, in order and each with its own index |
| `Policies.EvalQuorum` | pkg/policy/policy.go:59-77 | the recursive evaluation with its counter terminates and computes its specification |
| `Policies.QuorumIsMonotone` | pkg/policy/policy.go:59-77 | more verified witnesses never lose a quorum |
| `Policies.QuorumDependsOnMembers` | pkg/policy/policy.go:59-77 | only witnesses that the quorum mentions matter |
| `Policies.AllMembersAreQuorum` | pkg/policy/policy.go:59-77 | all its witnesses together are a quorum, if each threshold is at most the number of members |
| `Policies.AnyAndAll` | pkg/policy/config.go:89-101 | threshold 1 is "any" and threshold n is "all" |
| `Policies.GroupHolds` | pkg/policy/policy.go:69-77 | a group holds if and only if at least k of the listed members do |
| `Policies.OnlyValidEntriesCount` | pkg/policy/policy.go:28-53 | for every policy, a head is accepted as it is without all entries whose VerifySignature fails, and exactly if the log signature verifies and the others are a quorum |
| `Policies.KofNAccepts` | pkg/policy/policy.go:28-53 | signature by signature, for a k-of-n policy: a head is accepted if and only if the listed log with this key hash signed it and at least k of the listed witness keys have an entry that verifies |
| `Policies.VerifyCosignedTreeHead` | pkg/policy/policy.go:28-53 | the loop over the cosignatures, in any order, accepts exactly a head of a known log whose signature verifies, with a quorum among the entries of known witnesses whose signatures verify |
| `Policies.MoreCosignatures` | pkg/policy/policy.go:28-53 | added cosignatures never turn acceptance into rejection, and those of unknown witnesses change nothing |
| `Policies.FullyCosignedIsAccepted` | pkg/policy/policy.go:28-53 | a head signed by a known log and cosigned by all witnesses is accepted |
| `Policies.RandomizeEntities` | pkg/policy/policy.go:104-119 | the entities with a URL, each exactly once, in some order |
| `Policies.NewKofNPolicy` | pkg/policy/policy.go:126-149 | succeeds exactly for k <= n and distinct keys, and then has exactly these logs and witnesses and is well-formed |
| `Policies.KofNCounts` | pkg/policy/policy.go:126-149 | its quorum holds if and only if at least k distinct declared witnesses are verified |
| `PolicyConfig.Config.ParseLog` | pkg/policy/config.go:38-52 | one log line, or an error and no change |
| `PolicyConfig.Config.ParseWitness` | pkg/policy/config.go:54-76 | one witness line, which declares the name and the witness, or an error and no change |
| `PolicyConfig.Config.ParseGroup` | pkg/policy/config.go:78-118 | one group line over names that were declared before, with threshold 1 for "any", the number of members for "all" and the number that is written otherwise; or an error and no change |
| `PolicyConfig.Config.ParseQuorum` | pkg/policy/config.go:120-135 | the quorum line, at most one, or an error and no change |
| `PolicyConfig.ParseConfig` | pkg/policy/config.go:154-179 | the scanning loop computes its specification |
| `PolicyConfig.LineKeeps` | pkg/policy/config.go:137-152 | every line keeps names fixed and quorums over declared witnesses, each attainable |
| `PolicyConfig.ParsedPolicyIsWellFormed` | pkg/policy/config.go:154-179 | the quorum of every accepted file mentions declared witnesses only and is met by all of them |
| `PolicyMeaning.AtoiReads` | pkg/policy/config.go:93-98 | every spelling of a number below 2^63, with a sign and leading zeros or without, is read as that number |
| `PolicyMeaning.LineIsAccepted` | pkg/policy/config.go:38-152 | a line is accepted if and only if it has one of the four forms, declares a new key or name, refers to declared names, and has a threshold from 1 to the number of members |
| `PolicyMeaning.LinesSay` | pkg/policy/config.go:38-152 | every line of a valid file means what it says, for every set of verified witnesses: see the next row |
| `PolicyMeaning.PolicySays` | pkg/policy/config.go:38-179 | for every accepted file and set v: a witness name holds iff its key hash is in v, a group with "any" iff some named member holds, with "all" iff every one does, with k iff at least k do; the policy iff the name on the quorum line does; "none" always; logs and witnesses have the declared keys and URLs |
| `PolicyMeaning.PolicyHasWhatIsDeclared` | pkg/policy/config.go:38-76 | the logs and witnesses of a policy are exactly those that its file declares |
| `PolicyConfig.ExactlyOneQuorumLine` | pkg/policy/config.go:166-179 | a file of valid lines is accepted if and only if it has exactly one quorum line |
| `Ascii.IntFromDecimalInverts` | pkg/ascii/parser.go:16-22 | a text is read as n if and only if n < 2^63 and it is the decimal form of n: no second spelling is accepted |
| `Ascii.DecodeHexInverts` | pkg/crypto/crypto.go:97-122 | hex is read back as the bytes that were written |
| `AsciiExact.HexExactly` | pkg/crypto/crypto.go:97-122 | a text is read as the bytes b if and only if it is the hex form of b in any mixture of upper and lower case |
| `AsciiExact.ValueExactly` | pkg/ascii/parser.go:44-61 | which texts have a value for a key: the key, an equals sign, a value without newline, and a newline |
| `AsciiExact.IntExactly` | pkg/ascii/parser.go:63-69 | and which a number |
| `AsciiExact.HashExactly` | pkg/ascii/parser.go:71-77 | and which a hash |
| `AsciiExact.ValuesExactly` | pkg/ascii/parser.go:95-107 | and which a given number of values: those joined by single spaces, empty values included |
| `Ascii.LineAt` | pkg/ascii/line.go:14-41 | a line is the text before the first newline and the rest is what follows it; the end is the empty text, and an error is a text without a newline |
| `Ascii.Parser.GetLine` | pkg/ascii/line.go:33-41 | reads that line and leaves the rest |
| `Ascii.Parser.GetEmptyLine` | pkg/ascii/line.go:53-62 | an empty line or an error |
| `Ascii.Parser.GetValue` | pkg/ascii/parser.go:44-61 | the value on the next line, if its key is the expected one; the end and an empty line are told apart |
| `Ascii.Parser.GetInt` | pkg/ascii/parser.go:63-69 | the number on the next line, if the key is the expected one and the number canonical and below 2^63, or why there is none |
| `Ascii.Parser.GetHash` | pkg/ascii/parser.go:71-77 | the hash on the next line, if the key is the expected one and there are exactly 32 bytes of hex, or why there is none |
| `Ascii.Parser.GetValues` | pkg/ascii/parser.go:95-107 | exactly count values separated by single spaces |
| `Ascii.Writer.Line` | pkg/ascii/writer.go:10-42 | writes the items in a loop; fails exactly if a number is 2^63 or more |
| `Ascii.ReadValues` | pkg/ascii/parser.go:95-107 | what WriteLine writes for any items is read back as these items, and the text after it is left |
| `Ascii.ReadInt` | pkg/ascii/parser.go:63-69 | a number that WriteLine accepts is read back, and the text after it is left |
| `Ascii.ReadHash` | pkg/ascii/parser.go:71-77 | a hash that WriteLine writes is read back, and the text after it is left |
| `ProofIO.ParseHashes` | pkg/types/proof.go:36-55 | the loop reads between one and 63 hashes up to the end |
| `ProofIO.ParseCosignatures` | pkg/types/tree_head.go:211-230 | the loop fills the map, refuses a repeated key hash, and says how the list ended |
| `ProofIO.FromASCII` | pkg/proof/proof.go:96-139 | reads versions 1 and 2 as the specification says |
| `ProofIO.ToASCII` | pkg/proof/proof.go:141-166 | succeeds if and only if all numbers are below 2^63, with the cosignatures in whatever order the map is iterated |
| `ProofIO.WriteCosignatures` | pkg/types/tree_head.go:195-207 | writes every cosignature exactly once |
| `ProofText.ReadHashes` | pkg/types/proof.go:26-55 | a written path is read back if and only if it has between one and 63 hashes |
| `ProofText.ReadCosignatures` | pkg/types/tree_head.go:195-230 | for every iteration order the written cosignatures are read back as the same map |
| `ProofText.RoundTrip` | pkg/proof/proof.go:96-166 | for every order, the text of a proof is read back as that proof if and only if the tree is not empty, an inclusion part that is left out is trivial, and one that is written has between one and 63 hashes |
| `ProofExact.ProofIsLaidOut` | pkg/proof/proof.go:141-166 | the text of a proof, letter by letter |
| `ProofExact.OldRoundTrip` | pkg/proof/proof.go:53-139 | a version 1 text is read as the same proof as the version 2 text, for every checksum of two bytes, and with one of another length not at all |
| `ProofExact.OnlyItsTexts` | pkg/proof/proof.go:96-139 | whatever is read as a version 2 proof is, up to the case of hex digits, the text that is written for it with its cosignatures in some order |
| `ProofText.TreeHeadRoundTrip` | pkg/types/tree_head.go:195-254 | a written cosigned tree head, such as the file of the witness, is read back |
| `ProofVerify.Verify` | pkg/proof/proof.go:168-183 | accepts exactly a leaf signed with a known key for this message, in a tree head that the policy accepts |
| `ProofVerify.AcceptedExactly` | pkg/proof/proof.go:168-183 | signature by signature, for a k-of-n policy: the leaf signature, the log signature, at least k cosignatures, and the inclusion of the leaf hash |
| `ProofVerify.VerifyNoCosignatures` | pkg/proof/proof.go:185-191 | accepts exactly the same with the signature of the given log key instead of a policy |
| `ProofVerify.AcceptedIsLogged` | pkg/proof/proof.go:168-183 | the leaf of an accepted proof, checksum and signature included, is in every list of leaves that the head commits to, at the index of the proof, or a collision is returned |
| `ProofVerify.ProofBindsMessage` | pkg/proof/proof.go:168-183 | one proof is accepted for one message only, whatever keys and policies the verifiers use, or a collision is returned |
| `ProofVerify.AcceptedIsRepresentable` | pkg/proof/proof.go:141-183 | an accepted proof of a tree below 2^63 leaves has an inclusion part that its text can hold |
| `ProofVerify.AcceptedRoundTrip` | pkg/proof/proof.go:96-183 | every accepted proof that can be written is read back unchanged, for every order of its cosignatures |
| `Submit.SubmitLeafToLog` | pkg/submit/submit.go:149-214 | both polling loops: a proof exactly if the leaf is persisted before a failure, and a round delivers before one fails |
| `Submit.PersistedExactly` | pkg/submit/submit.go:157-170 | however often the log answers "not yet": a leaf counts as persisted if and only if nothing else comes before the answer that it is |
| `Submit.FailureEnds` | pkg/submit/submit.go:173-213 | after any number of rounds to wait for: no head, a head that is not accepted, a failed request or a proof that does not verify ends the submission to this log |
| `Submit.RequestIsVerified` | pkg/requests/requests.go:44-54 | a request is verified if and only if its signature is one of its key on its message, and asks for the leaf with these |
| `Submit.TokenFailureEnds` | pkg/submit/submit.go:119-126 | when a token cannot be made, no further log is tried |
| `Submit.FirstProofIsReturned` | pkg/submit/submit.go:116-147 | the first log that gives a proof is the one whose proof is returned |
| `Submit.SubmitLeafRequest` | pkg/submit/submit.go:106-147 | the proof comes from a log of the policy that has a URL; it is the first in some order to give one |
| `Submit.SubmittedIsAccepted` | pkg/submit/submit.go:106-214 | every proof that is returned is accepted by the verifier for the same message, key and policy |
| `Submit.SubmittedRoundTrip` | pkg/submit/submit.go:106-214 | and so is what is read back from its text |
| `EndToEnd.AcceptedIsCommitted` | pkg/proof/proof.go:168-183 | if a witness cosigned the head of an accepted proof, and later another head that commits to d, then d has the leaf hash of the proof at its index, or a collision is returned |
| `EndToEnd.BatchFor` | pkg/monitor/monitor.go:118-138 | for every index that a run goes past, the batch that is passed on with it |
| `EndToEnd.BatchIsCommitted` | pkg/monitor/monitor.go:106-138 | if the last head of the run commits to d and all batches were checked, that batch is the range of d at its index, or a collision is returned |
| `EndToEnd.BatchIsInTree` | pkg/monitor/monitor.go:106-138 | the same when the last head of the run was cosigned before the one that commits to d |
| `EndToEnd.AcceptedIsSeen` | pkg/monitor/monitor.go:68-139 | every monitor run with checked batches that starts at or before the index of an accepted proof and ends behind it, at a head which the witness of the proof cosigned before or after that of the proof, passes on the very leaf of the proof at that index and reports it to those who follow the same keys, or a collision is returned |
| `EndToEnd.AcceptedIsOfInterest` | pkg/monitor/monitor.go:68-98 | a leaf accepted with some submit keys is of interest to a monitor with these keys |
| `Submit.OneLogIsEnough` | pkg/submit/submit.go:116-147 | a submission succeeds if and only if some log gives a proof, whatever the order, when tokens can be made |
| `Submit.HonestRound` | pkg/submit/submit.go:173-213 | a round with an honest log, through the client, delivers if and only if the leaf is in the tree, and is waited for if and only if it is not and the tree does not have exactly one leaf |
| `Submit.HonestLogDelivers` | pkg/submit/submit.go:173-213 | the first tree of an honest log that includes the leaf or has one leaf settles the submission: the proof is returned if the leaf is in it, and otherwise the submission fails |
| `Submit.HonestSubmission` | pkg/submit/submit.go:149-214 | a whole submission: after any number of "not yet", an honest log gives the proof of its first tree that includes the leaf |
| `Submit.NotPersistedFails` | pkg/submit/submit.go:157-170 | when the answers end or fail before the leaf is persisted there is no proof |
| `Submit.HonestLogIsWaitedFor` | pkg/submit/submit.go:173-213 | while there is no such tree, every round is waited for |
| `Submit.OneOtherLeafFails` | pkg/client/client.go:65-67 | the failing input: an honest log whose only leaf is another one |

## Left out

- SHA-256, Ed25519, and the byte layouts that are signed (checkpoints, cosignatures, leaf namespaces): arbitrary functions.
- Base64 and the format of signature lines: arbitrary functions; `RequestText.RequestRoundTrip` takes as a precondition that they read what they have written for this request.
- HTTP requests and servers (of the client, only what it does to proofs is modelled), metrics, logging, command lines, key files, submit tokens over DNS: plumbing.
- Time, timeouts, sleeping and cancellation: the sequence of replies ends when the time is over.
- Mutex and goroutines of the witness: requests are atomic steps.
- File system detail of the state file: a replacement happens or does not, also when an error is reported or the process dies.  The file is modelled as its parsed value; `ProofText.TreeHeadRoundTrip` says that the text gives that value back.
- `rand.Shuffle` and Go's map iteration: an arbitrary order.
- Error texts and the contents of alerts: only which outcome was taken.  The callbacks of `filterLeaves` about bad signatures are not modelled.
- Sharing of backing arrays by Go slices in `extend` and `getRootHash`: these work on sequence values, with the same updates in the same order.  `reversePath` works in place on an array.
- The token size limit of `bufio.Scanner`, and the splitting of policy lines into fields with comments removed: a policy file is a list of lists of fields.
- Batch.VerifyInclusionBatch: for an `int` of 64 bits, and without panics of lack of memory.
- Tail.VerifyInclusionTail: the same.
- GetLeaves.GetLeaves: sizes, indices and the number of leaves are below 2^63, as everything that is parsed; for larger ones the panic of the batch verifier would come through.
- EndToEnd.AcceptedIsSeen: only for runs without a single leaf after a cached one, because the code does not check it.
- Tree.Tree.AddLeafHash: sizes are unbounded numbers, where the source has uint64.
- MonitorProofs.ProcessedLeavesAreLogged: says nothing about a single leaf after a cached one, because the code does not check it.
- Witness.HonestLogIsCosigned: for trees of at most 2^62 leaves, because of the limit on the length of proofs.
- `SubmitMessage`, which signs and then calls `SubmitLeafRequest`, and the parsers for other requests: they would add easy members.
