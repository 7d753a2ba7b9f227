/** The proof requests of `pkg/client/client.go`: what they hand back for what the log answers.  Some are
    answered by the client itself, and no answer with an empty or an overlong path can be read. */
module Client {
  import opened Bits
  import opened Crypto
  import opened Merkle
  import opened Verify
  import opened Types

  datatype InclusionReply = Failed | NotFound | Found(proof: InclusionProof)

  /** The paths that `hashesFromASCII` reads. */
  predicate IsReadable(path: seq<Hash>) {
    0 < |path| <= PROOF_SIZE_LIMIT
  }

  function GetInclusionProof(size: nat, answer: InclusionReply): InclusionReply {
    if size == 0 then NotFound
    else if size == 1 then Found(InclusionProof(0, []))
    else if answer.Found? && !IsReadable(answer.proof.path) then Failed
    else answer
  }

  function GetConsistencyProof(oldSize: nat, newSize: nat, answer: Option<seq<Hash>>): Option<seq<Hash>> {
    if oldSize == 0 || oldSize == newSize then Some([])
    else if answer.Some? && !IsReadable(answer.value) then None
    else answer
  }

  /** The true inclusion proof gets through for every leaf of every tree of less than 2^63 leaves. */
  lemma {:induction false} InclusionGetsThrough(d: seq<Hash>, i: nat)
    requires i < |d| < Pow2(63)
    ensures var answer := Found(InclusionProof(i, Path(i, d)));
      GetInclusionProof(|d|, answer) == answer
  {
    hide Path, Pow2, PathLength, PathSteps;
    PathHasPathLength(i, d);
    InclusionPathFits(i, |d|);
  }

  /** The true consistency proof gets through if and only if it has at most 63 hashes. */
  lemma {:induction false} ConsistencyGetsThrough(d: seq<Hash>, m: nat)
    requires m <= |d|
    ensures GetConsistencyProof(m, |d|, Some(Proof(m, d))) ==
            if |Proof(m, d)| <= PROOF_SIZE_LIMIT then Some(Proof(m, d)) else None
  {
    if 0 < m < |d| {
      ProofHasConsistencyLength(m, d);
      ConsistencyProofNotEmpty(m, |d|);
    }
  }
}
