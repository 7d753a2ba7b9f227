/** The values of `pkg/types` that logs, witnesses and monitors exchange.  The byte layouts that are
    signed are arbitrary fixed functions. */
module Types {
  import opened Crypto
  import opened Bits
  import opened Merkle
  import opened Verify

  datatype TreeHead = TreeHead(size: nat, rootHash: Hash)

  const EMPTY_TREE_HEAD := TreeHead(0, HashEmptyTree())

  /** The signed text of a tree head, and that of a cosignature on it. */
  const FormatCheckpoint: (string, TreeHead) -> seq<byte>
  const ToCosignedData: (string, nat, TreeHead) -> seq<byte>
  const SigsumCheckpointOrigin: PublicKey -> string

  datatype SignedTreeHead = SignedTreeHead(treeHead: TreeHead, signature: Signature) {
    predicate VerifiedBy(key: PublicKey) {
      VerifySignature(key, FormatCheckpoint(SigsumCheckpointOrigin(key), treeHead), signature)
    }
  }

  datatype Cosignature = Cosignature(timestamp: nat, signature: Signature) {
    predicate VerifiedBy(key: PublicKey, origin: string, th: TreeHead) {
      VerifySignature(key, ToCosignedData(origin, timestamp, th), signature)
    }
  }

  datatype CosignedTreeHead = CosignedTreeHead(signed: SignedTreeHead, cosignatures: map<Hash, Cosignature>)

  datatype InclusionProof = InclusionProof(leafIndex: nat, path: seq<Hash>) {
    /** `InclusionProof.Verify` */
    function Verdict(leafHash: Hash, th: TreeHead): Result {
      InclusionVerdict(leafHash, leafIndex, th.size, th.rootHash, path)
    }
  }

  /** `ConsistencyProof.Verify` */
  function ConsistentWith(path: seq<Hash>, oldTree: TreeHead, newTree: TreeHead): Result
    requires oldTree.size <= newTree.size
  {
    ConsistencyVerdict(oldTree.size, newTree.size, oldTree.rootHash, newTree.rootHash, path)
  }

  /** A tree head that commits to the leaves d. */
  predicate Commits(th: TreeHead, d: seq<Hash>) {
    th.size == |d| && th.rootHash == MTH(d)
  }

  /** The text that a submitter signs. */
  const LeafSignedData: Hash -> seq<byte>

  datatype Leaf = Leaf(checksum: Hash, signature: Signature, keyHash: Hash) {
    function ToBinary(): (b: seq<byte>)
      ensures |b| == 128
      ensures b[..32] == checksum.bytes && b[32..96] == signature.bytes && b[96..] == keyHash.bytes
    {
      checksum.bytes + signature.bytes + keyHash.bytes
    }

    function ToHash(): Hash {
      HashLeafNode(ToBinary())
    }

    predicate VerifiedBy(key: PublicKey) {
      keyHash == HashBytes(key.bytes) && VerifySignature(key, LeafSignedData(checksum), signature)
    }
  }

  /** Two leaves with the same leaf hash are the same leaf, or their hash inputs collide. */
  function LeafCollision(x: Leaf, y: Leaf): (c: MaybeCollision)
    requires x.ToHash() == y.ToHash()
    ensures c.None? ==> x == y
  {
    var a, b := x.ToBinary(), y.ToBinary();
    assert x.checksum.bytes == a[..32] && x.signature.bytes == a[32..96] && x.keyHash.bytes == a[96..];
    assert y.checksum.bytes == b[..32] && y.signature.bytes == b[32..96] && y.keyHash.bytes == b[96..];
    assert FormatLeafNode(a)[1..] == a && FormatLeafNode(b)[1..] == b;
    if a == b then None else Some(Collision(FormatLeafNode(a), FormatLeafNode(b)))
  }

  // ---------- The limit on path lengths in pkg/types/proof.go ----------

  const PROOF_SIZE_LIMIT := 63

  /** Every inclusion path of a tree of less than 2^63 leaves fits, and is empty only in a tree of one leaf. */
  lemma {:induction false} InclusionPathFits(index: nat, size: nat)
    requires index < size < Pow2(63)
    ensures PathLength(index, size) <= PROOF_SIZE_LIMIT
    ensures PathLength(index, size) == 0 <==> size == 1
  {
    hide Xor, OnesCount64, PathSteps;
    PathLengthCountsSteps(index, size - 1);
    PathLengthBounds(index, size - 1);
    LenBelow(size - 1, 63);
    if size == 1 { PathLengthOfOne(); }
  }

  lemma {:induction false} PathLengthOfOne()
    ensures PathSteps(0, 0) == 0
  {
  }

  lemma {:induction false} LenBelow(n: nat, k: nat)
    requires n < Pow2(k)
    ensures Len64(n) <= k
    decreases k
  {
    if k > 0 { LenBelow(n / 2, k - 1); }
  }

  /** The number of elements that `VerifyConsistency` asks for. */
  function ConsistencyLength(oldSize: nat, newSize: nat): nat
    requires 0 < oldSize < newSize
  {
    var t := TrailingZeros64(oldSize);
    var fn, sn := Shr(oldSize - 1, t), Shr(newSize - 1, t);
    PathLength(fn, sn + 1) + (if fn > 0 then 1 else 0)
  }

  lemma {:induction false} ConsistencyProofNotEmpty(oldSize: nat, newSize: nat)
    requires 0 < oldSize < newSize
    ensures ConsistencyLength(oldSize, newSize) > 0
  {
    hide PathLength, PathSteps, Shr, Len64, TrailingZeros64;
    var t := TrailingZeros64(oldSize);
    var fn, sn := Shr(oldSize - 1, t), Shr(newSize - 1, t);
    TrimStrict(oldSize, newSize);
    PathLengthCountsSteps(fn, sn);
    PathLengthBounds(fn, sn);
  }

  /** Every consistency proof to a tree of at most 2^62 leaves fits, and is not empty. */
  lemma {:induction false} ConsistencyProofFits(oldSize: nat, newSize: nat)
    requires 0 < oldSize < newSize <= Pow2(62)
    ensures 0 < ConsistencyLength(oldSize, newSize) <= PROOF_SIZE_LIMIT
  {
    hide PathLength, PathSteps, Shr, Pow2, Len64, TrailingZeros64;
    var t := TrailingZeros64(oldSize);
    var fn, sn := Shr(oldSize - 1, t), Shr(newSize - 1, t);
    ShrMonotone(oldSize - 1, newSize - 1, t);
    PathLengthCountsSteps(fn, sn);
    PathLengthBounds(fn, sn);
    LenBelow(newSize - 1, 62);
    LenShr(newSize - 1, t);
    TrimStrict(oldSize, newSize);
  }

  /** The RFC proof has the length that is asked for. */
  lemma {:induction false} ProofHasConsistencyLength(m: nat, d: seq<Hash>)
    requires 0 < m < |d|
    ensures |Proof(m, d)| == ConsistencyLength(m, |d|)
  {
    hide Proof, Path, PathLength, PathSteps, MTH, Level, RootFromPath, PrefixRootFromPath;
    TrimmedProof(m, d);
    PathLengthCountsSteps(Shr(m - 1, TrailingZeros64(m)), Shr(|d| - 1, TrailingZeros64(m)));
  }

  lemma {:induction false} LenShr(n: nat, k: nat)
    ensures Len64(Shr(n, k)) <= Len64(n)
    decreases k
  {
    if k > 0 { LenShr(n / 2, k - 1); }
  }

  lemma {:induction false} TrimStrict(m: nat, n: nat)
    requires 0 < m < n
    ensures Shr(m - 1, TrailingZeros64(m)) < Shr(n - 1, TrailingZeros64(m))
    decreases m
  {
    if !IsOdd(m) {
      assert (m - 1) / 2 == m / 2 - 1 && m / 2 - 1 < (n - 1) / 2;
      TrimStrict(m / 2, (n + 1) / 2);
      assert (n + 1) / 2 - 1 == (n - 1) / 2;
    }
  }

  /** Above 2^62 leaves there are valid proofs that are one element too long for the parser, such as
      the one from the first three leaves. */
  lemma {:induction false} ConsistencyProofTooLong(newSize: nat)
    requires Pow2(62) < newSize <= Pow2(63)
    ensures 0 < 3 < newSize && ConsistencyLength(3, newSize) == PROOF_SIZE_LIMIT + 1
  {
    hide PathLength, PathSteps, Len64;
    PowersOrdered(2, 62);
    assert Pow2(2) == 4;
    PathLengthCountsSteps(2, newSize - 1);
    PathOfThird(newSize - 1);
    LenBelow(newSize - 1, 63);
    LenAbove(newSize - 1, 62);
    assert TrailingZeros64(3) == 0;
  }

  lemma {:induction false} PathOfThird(sn: nat)
    requires sn >= 4
    ensures PathSteps(2, sn) == Len64(sn)
  {
    PathOfFirst(sn / 4);
    assert sn / 2 / 2 == sn / 4;
    assert PathSteps(1, sn / 2) == 1 + PathSteps(0, sn / 4);
  }

  lemma {:induction false} PathOfFirst(sn: nat)
    ensures PathSteps(0, sn) == Len64(sn)
  {
    if sn > 0 { PathOfFirst(sn / 2); }
  }

  lemma {:induction false} LenAbove(n: nat, k: nat)
    requires Pow2(k) <= n
    ensures Len64(n) > k
    decreases k
  {
    if k > 0 { LenAbove(n / 2, k - 1); }
  }

  ghost predicate AllProofsFit(newSize: nat) {
    forall oldSize {:trigger ConsistencyLength(oldSize, newSize)} :: 0 < oldSize < newSize ==>
      ConsistencyLength(oldSize, newSize) <= PROOF_SIZE_LIMIT
  }

  /** The limit on path lengths accommodates all consistency proofs to a tree exactly when the tree
      has at most 2^62 leaves. */
  lemma {:induction false} ConsistencyLimitIsExact(newSize: nat)
    requires newSize < Pow2(63)
    ensures AllProofsFit(newSize) <==> newSize <= Pow2(62)
  {
    hide ConsistencyLength;
    if newSize <= Pow2(62) {
      forall oldSize: nat | 0 < oldSize < newSize
        ensures ConsistencyLength(oldSize, newSize) <= PROOF_SIZE_LIMIT
      {
        ConsistencyProofFits(oldSize, newSize);
      }
    } else {
      ConsistencyProofTooLong(newSize);
    }
  }
}
