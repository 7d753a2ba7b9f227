/** The client can read exactly the answers that the text formats of `pkg/types/proof.go` can hold. */
module ClientExact {
  import opened Crypto
  import opened Types
  import opened Client
  import opened ProofText
  import opened ProofIO
  import opened Bits

  /** For a tree of two or more leaves, a proof that a log sends is handed back exactly if it can be read from
      its text, and otherwise the request fails; for smaller trees the log is not asked. */
  lemma {:induction false} InclusionExactly(size: nat, pr: InclusionProof)
    requires pr.leafIndex < Pow2(63)
    ensures InclusionText(pr).Some?
    ensures size >= 2 ==> GetInclusionProof(size, Found(pr)) ==
                          if InclusionAt(InclusionText(pr).value).Got? then Found(pr) else Failed
    ensures size >= 2 ==> GetInclusionProof(size, NotFound) == NotFound && GetInclusionProof(size, Failed) == Failed
    ensures GetInclusionProof(1, Found(pr)) == GetInclusionProof(1, NotFound) == GetInclusionProof(1, Failed)
    ensures GetInclusionProof(0, Found(pr)) == NotFound
  {
    hide InclusionText, InclusionAt;
    InclusionIsWritten(pr);
    ReadInclusion(pr);
  }

  lemma {:induction false} ConsistencyExactly(oldSize: nat, newSize: nat, path: seq<Hash>)
    ensures HashLines(path).Some?
    ensures 0 < oldSize != newSize ==>
      && GetConsistencyProof(oldSize, newSize, None) == None
      && GetConsistencyProof(oldSize, newSize, Some(path)) ==
         if HashesAt([], HashLines(path).value).Got? then Some(path) else None
    ensures oldSize == 0 || oldSize == newSize ==> GetConsistencyProof(oldSize, newSize, None) == Some([])
  {
    hide HashLines, HashesAt;
    ReadHashes([], path);
    assert [] + path == path;
  }
}
