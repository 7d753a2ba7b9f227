/** `SigsumProof.Verify` of `pkg/proof/proof.go`, and what an accepted proof says. */
module ProofVerify {
  import opened Bits
  import opened Crypto
  import opened Merkle
  import opened MerkleProofs = Verify
  import opened Types
  import opened Policies
  import opened ProofText
  import ProofIO

  function NewShortLeaf(leaf: Leaf): ShortLeaf {
    ShortLeaf(leaf.signature, leaf.keyHash)
  }

  function ToLeaf(leaf: ShortLeaf, checksum: Hash): Leaf {
    Leaf(checksum, leaf.signature, leaf.keyHash)
  }

  /** The leaf that a proof is about, for a given message. */
  function LeafFor(sp: SigsumProof, msg: Hash): Leaf {
    ToLeaf(sp.leaf, HashBytes(msg.bytes))
  }

  /** The leaf is signed by one of the submitters, the tree head is acceptable, and the leaf is in the tree. */
  predicate Accepts(sp: SigsumProof, msg: Hash, submitKeys: map<Hash, PublicKey>, policy: Policy) {
    && SubmitterSigned(sp, msg, submitKeys)
    && AcceptsTreeHead(policy, sp.logKeyHash, sp.treeHead)
    && Included(sp, msg)
  }

  predicate SubmitterSigned(sp: SigsumProof, msg: Hash, submitKeys: map<Hash, PublicKey>) {
    sp.leaf.keyHash in submitKeys && LeafFor(sp, msg).VerifiedBy(submitKeys[sp.leaf.keyHash])
  }

  predicate Included(sp: SigsumProof, msg: Hash) {
    sp.inclusion.Verdict(LeafFor(sp, msg).ToHash(), sp.treeHead.signed.treeHead) == Ok
  }

  method Verify(sp: SigsumProof, msg: Hash, submitKeys: map<Hash, PublicKey>, policy: Policy) returns (ok: bool)
    ensures ok <==> Accepts(sp, msg, submitKeys, policy)
  {
    hide AcceptsTreeHead, InclusionVerdict;
    var checksum := HashBytes(msg.bytes);
    var leaf := ToLeaf(sp.leaf, checksum);
    if sp.leaf.keyHash !in submitKeys {
      return false;
    }
    if !leaf.VerifiedBy(submitKeys[sp.leaf.keyHash]) {
      return false;
    }
    ok := VerifyCosignedTreeHead(policy, sp.logKeyHash, sp.treeHead);
    if !ok {
      return;
    }
    var head := sp.treeHead.signed.treeHead;
    var result := VerifyInclusion(leaf.ToHash(), sp.inclusion.leafIndex, head.size, head.rootHash, sp.inclusion.path);
    return result == Ok;
  }

  /** Verification against the key of the log alone. */
  method VerifyNoCosignatures(sp: SigsumProof, msg: Hash, submitKeys: map<Hash, PublicKey>, logKey: PublicKey)
    returns (ok: bool)
    ensures ok <==>
      && SubmitterSigned(sp, msg, submitKeys)
      && sp.logKeyHash == KeyHash(logKey) && sp.treeHead.signed.VerifiedBy(logKey)
      && Included(sp, msg)
  {
    hide SubmitterSigned, Included;
    var policy := NewKofNPolicy([logKey], [], 0);
    assert policy.Some? && policy.value.logs.Keys == {KeyHash(logKey)} by {
      assert [logKey][0] == logKey;
      assert KeyHashes([logKey]) == {KeyHash(logKey)};
    }
    assert policy.value.logs[KeyHash([logKey][0])].publicKey == logKey;
    ok := Verify(sp, msg, submitKeys, policy.value);
  }

  /** Signature by signature, for a k-of-n policy: the leaf is signed, for this message, with the key that is
      known under its key hash; one of the listed logs has signed the tree head, at least k of the listed
      witnesses have cosigned it, and the leaf is in the tree. */
  lemma {:induction false} AcceptedExactly(sp: SigsumProof, msg: Hash, submitKeys: map<Hash, PublicKey>, policy: Policy,
                                           logs: seq<PublicKey>, witnesses: seq<PublicKey>, k: int)
    requires IsKofN(policy, logs, witnesses, k) && Distinct(logs) && Distinct(witnesses)
    ensures var head := sp.treeHead.signed;
      var leaf := Leaf(HashBytes(msg.bytes), sp.leaf.signature, sp.leaf.keyHash);
      Accepts(sp, msg, submitKeys, policy) <==>
        && sp.leaf.keyHash in submitKeys
        && HashBytes(submitKeys[sp.leaf.keyHash].bytes) == sp.leaf.keyHash
        && VerifySignature(submitKeys[sp.leaf.keyHash], LeafSignedData(HashBytes(msg.bytes)), sp.leaf.signature)
        && (exists i :: 0 <= i < |logs| && HashBytes(logs[i].bytes) == sp.logKeyHash
              && VerifySignature(logs[i], FormatCheckpoint(SigsumCheckpointOrigin(logs[i]), head.treeHead),
                                 head.signature)
              && |Cosigners(witnesses, logs[i], sp.treeHead)| >= k)
        && InclusionVerdict(HashLeafNode(leaf.ToBinary()), sp.inclusion.leafIndex, head.treeHead.size,
                            head.treeHead.rootHash, sp.inclusion.path) == Ok
  {
    hide AcceptsTreeHead, InclusionVerdict, Cosigners;
    KofNAccepts(policy, logs, witnesses, k, sp.logKeyHash, sp.treeHead);
  }

  /** Every leaf of the log was made from the data of a leaf. */
  function LeafHashesOf(leaves: seq<Leaf>): seq<Hash> {
    seq(|leaves|, i requires 0 <= i < |leaves| => leaves[i].ToHash())
  }

  /** If the tree head of an accepted proof commits to a list of leaves, then the submitted leaf is in that
      list, at the index that the proof says. */
  function AcceptedIsLogged(sp: SigsumProof, msg: Hash, submitKeys: map<Hash, PublicKey>, policy: Policy,
                            leaves: seq<Leaf>): (c: MaybeCollision)
    requires Accepts(sp, msg, submitKeys, policy)
    requires Commits(sp.treeHead.signed.treeHead, LeafHashesOf(leaves))
    ensures sp.inclusion.leafIndex < |leaves|
    ensures c.None? ==> leaves[sp.inclusion.leafIndex] == LeafFor(sp, msg)
  {
    hide AcceptsTreeHead, SubmitterSigned, Merkle.MTH, PathSteps, RootFromPath;
    var d, leaf, index := LeafHashesOf(leaves), LeafFor(sp, msg), sp.inclusion.leafIndex;
    var c := InclusionSound(d, leaf.ToHash(), index, sp.inclusion.path);
    if c.Some? then c else LeafCollision(leaf, leaves[index])
  }

  /** A proof is a proof for one message only, whatever the keys and policies of those who accept it. */
  function ProofBindsMessage(sp: SigsumProof, msg: Hash, keys: map<Hash, PublicKey>, policy: Policy,
                             msg': Hash, keys': map<Hash, PublicKey>, policy': Policy): (c: MaybeCollision)
    requires Accepts(sp, msg, keys, policy) && Accepts(sp, msg', keys', policy')
    ensures c.None? ==> msg == msg'
  {
    hide AcceptsTreeHead, SubmitterSigned, InclusionVerdict;
    var leaf, leaf', head := LeafFor(sp, msg), LeafFor(sp, msg'), sp.treeHead.signed.treeHead;
    var path, index := sp.inclusion.path, sp.inclusion.leafIndex;
    var c := InclusionUnique(leaf.ToHash(), path, leaf'.ToHash(), path, index, head.size, head.rootHash);
    if c.Some? then c
    else
      var c := LeafCollision(leaf, leaf');
      if c.Some? || msg == msg' then c else Some(Collision(msg.bytes, msg'.bytes))
  }

  /** An accepted proof has an inclusion path of the length that its text can hold. */
  lemma {:induction false} AcceptedIsRepresentable(sp: SigsumProof, msg: Hash)
    requires Included(sp, msg) && sp.treeHead.signed.treeHead.size < Pow2(63)
    ensures Representable(sp)
  {
    hide Pow2, RootFromPath, PathSteps, PathLength;
    var size, index := sp.treeHead.signed.treeHead.size, sp.inclusion.leafIndex;
    PathLengthCountsSteps(index, size - 1);
    InclusionPathFits(index, size);
  }

  /** Whatever the order in which its cosignatures are written, an accepted proof is read back from its
      text, and is accepted again. */
  lemma {:induction false} AcceptedRoundTrip(sp: SigsumProof, msg: Hash, submitKeys: map<Hash, PublicKey>,
                                             policy: Policy, order: seq<Hash>)
    requires Accepts(sp, msg, submitKeys, policy)
    requires IsOrder(order, sp.treeHead.cosignatures) && ProofAsText(sp, order).Some?
    ensures ParsedProof(ProofAsText(sp, order).value) == Some(sp)
  {
    hide AcceptsTreeHead, SubmitterSigned, Included, Pow2, Representable, HeadText, CosignatureLines, InclusionText,
         SignedTreeHeadText, ParsedProof;
    ProofIO.SignedIsWritten(sp.treeHead.signed);
    AcceptedIsRepresentable(sp, msg);
    RoundTrip(sp, order);
  }
}
