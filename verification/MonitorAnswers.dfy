/** When the monitor alerts, and what it accepts, in terms of signatures, trees and RFC proofs. */
module MonitorAnswers {
  import opened Crypto
  import opened Bits
  import opened Merkle
  import opened MerkleProofs = Verify
  import opened Batch
  import opened BatchProofs
  import opened Tail
  import opened Types
  import opened GetLeaves
  import opened Monitor
  import opened MonitorProofs

  // ---------- Tree heads ----------

  predicate IsLogSignature(logKey: PublicKey, signed: SignedTreeHead) {
    VerifySignature(logKey, FormatCheckpoint(SigsumCheckpointOrigin(logKey), signed.treeHead), signed.signature)
  }

  /** A monitor that has caught up alerts, and changes nothing, for no answer, a head that the log has not
      signed, a smaller head, a failed request for a proof, and a head of the same size with another root. */
  lemma {:induction false} BadHeadIsAlerted(logKey: PublicKey, th: TreeHead, head: HeadReplies)
    requires || head.cth == None
             || !IsLogSignature(logKey, head.cth.value.signed)
             || head.cth.value.signed.treeHead.size < th.size
             || head.path == None
             || (head.cth.value.signed.treeHead.size == th.size
                 && head.cth.value.signed.treeHead.rootHash != th.rootHash)
    ensures Step(logKey, Initial(th, th.size), Tick(head)) == (Initial(th, th.size), [Alert])
  {
  }

  /** The head that is shown is signed, and extends the tree of the monitor, with the RFC proof for that. */
  predicate IsGoodHead(logKey: PublicKey, th: TreeHead, head: HeadReplies, d: seq<Hash>) {
    && head.cth.Some? && IsLogSignature(logKey, head.cth.value.signed)
    && th.size <= |d| && Commits(th, d[..th.size]) && head.path == Some(Proof(th.size, d))
  }

  /** For every head that commits to some d: a monitor that has caught up alerts, and changes nothing, if and
      only if the head is not good in this sense, or a collision is returned; equal sizes included.  A good
      head of the same size passes without a callback, and a larger one is announced. */
  function HeadsExactly(logKey: PublicKey, th: TreeHead, head: HeadReplies, d: seq<Hash>): (c: MaybeCollision)
    requires head.cth.Some? && Commits(head.cth.value.signed.treeHead, d)
    ensures c.None? ==>
      Step(logKey, Initial(th, th.size), Tick(head)) ==
      if !IsGoodHead(logKey, th, head, d) then (Initial(th, th.size), [Alert])
      else if |d| == th.size then (Initial(th, th.size), [])
      else (State(Fetching, head.cth.value.signed.treeHead, th.size, None), [NewTreeHead(head.cth.value.signed)])
  {
    hide ConsistencyVerdict, MTH, Proof;
    var signed := head.cth.value.signed;
    if th.size > |d| || head.path.None? then None
    else
      ConsistencyComplete(d, th.size);
      WholePrefix(th, d);
      if ConsistentWith(head.path.value, th, signed.treeHead) == Ok then
        ConsistencySound(d, th.size, th.rootHash, head.path.value)
      else None
  }

  lemma {:induction false} WholePrefix(th: TreeHead, d: seq<Hash>)
    requires th.size <= |d|
    ensures Commits(th, d[..th.size]) <==> th.rootHash == MTH(d[..th.size])
    ensures th.size == |d| ==> d[..th.size] == d
  {
    hide MTH;
  }

  /** A monitor that has not caught up does not look at heads: it goes on with the leaves. */
  lemma {:induction false} BehindGoesOn(logKey: PublicKey, th: TreeHead, next: nat, head: HeadReplies)
    requires next < th.size
    ensures Step(logKey, Initial(th, next), Tick(head)) == (State(Fetching, th, next, None), [])
  {
  }

  // ---------- Leaves ----------

  /** The true leaves from next on, with the RFC paths that the verifier needs for them. */
  predicate IsTrueReply(d: seq<Hash>, cache: Option<Cache>, next: nat, r: Replies) {
    && r.leaves.Some? && r.leaves.value != [] && IsRangeOf(LeafHashes(r.leaves.value), next, d)
    && var end := next + |r.leaves.value|;
    && (cache == None ==> r.startProof == Some(InclusionProof(next, Path(next, d))))
    && (|r.leaves.value| > 1 && end < |d| ==> r.endProof == Some(InclusionProof(end - 1, Path(end - 1, d))))
  }

  /** From a cache that an honest batch left, or none, and unless a single leaf follows a cached one: a reply
      is accepted if and only if it is a true one, or a collision is returned. */
  function LeavesExactly(d: seq<Hash>, cache: Option<Cache>, next: nat, r: Replies): (c: MaybeCollision)
    requires next < |d| < Pow2(63) && HonestCache(d, next, cache)
    requires r.leaves.Some? ==> Checked(cache, r.leaves.value)
    ensures c.None? ==> (Succeeds(cache, TreeHead(|d|, MTH(d)), next, r) <==> IsTrueReply(d, cache, next, r))
  {
    hide MTH, Path, Pow2, HonestCache, Succeeds, IsTrueReply, Checked;
    if IsTrueReply(d, cache, next, r) then
      TrueReplySucceeds(d, cache, next, r);
      None
    else if Succeeds(cache, TreeHead(|d|, MTH(d)), next, r) then
      AcceptedIsTrue(d, cache, next, r)
    else None
  }

  lemma {:induction false} TrueReplySucceeds(d: seq<Hash>, cache: Option<Cache>, next: nat, r: Replies)
    requires next < |d| < Pow2(63) && HonestCache(d, next, cache) && IsTrueReply(d, cache, next, r)
    ensures Succeeds(cache, TreeHead(|d|, MTH(d)), next, r)
  {
    hide InclusionVerdict, BatchVerdict, TailVerdict, MTH, Path, LeafHashes, Pow2, IsRangeOf, TopBitsDiffer;
    var leaves := r.leaves.value;
    var start, end := Start(cache, next), next + |leaves|;
    HonestHashes(d, next, leaves, cache);
    SliceEnds(d, start, end);
    InclusionComplete(d, start);
    HalfOfRange();
    BelowHalf(start, end - 1);
    BatchComplete(d, start, end - start);
    if end == |d| { TailComplete(d, start); }
  }

  /** What an accepted reply consists of. */
  function AcceptedIsTrue(d: seq<Hash>, cache: Option<Cache>, next: nat, r: Replies): (c: MaybeCollision)
    requires next < |d| && HonestCache(d, next, cache)
    requires Succeeds(cache, TreeHead(|d|, MTH(d)), next, r) && Checked(cache, r.leaves.value)
    ensures c.None? ==> IsTrueReply(d, cache, next, r)
  {
    hide *;
    var th := TreeHead(|d|, MTH(d));
    ItselfCommits(d);
    SucceedsAdjacent(cache, th, next, r);
    VerdictBehind(cache, th, next, r);
    var c1 := OutcomeSound(cache, th, next, r, d);
    if c1.Some? then c1
    else
      var hashes, path := Hashes(cache, r.leaves.value), StartProof(cache, r).path;
      var c2 := ProofsBehind(hashes, Start(cache, next), th, path, EndPath(r), d);
      if c2.None? then ReplyIsTrue(d, cache, next, r); c2 else c2
  }

  lemma {:induction false} ItselfCommits(d: seq<Hash>)
    ensures Commits(TreeHead(|d|, MTH(d)), d)
  {
  }

  /** The paths are those of the RFC. */
  predicate TruePaths(hashes: seq<Hash>, start: nat, size: nat, path: seq<Hash>, endPath: seq<Hash>, d: seq<Hash>) {
    && |hashes| > 0 && start + |hashes| <= |d| && path == Path(start, d)
    && (|hashes| > 1 && start + |hashes| != size ==> endPath == Path(start + |hashes| - 1, d))
  }

  function ProofsBehind(hashes: seq<Hash>, start: nat, th: TreeHead, path: seq<Hash>, endPath: seq<Hash>,
                        d: seq<Hash>): (c: MaybeCollision)
    requires RangeVerified(hashes, start, th, path, endPath) && Commits(th, d)
    ensures c.None? ==> TruePaths(hashes, start, th.size, path, endPath, d)
  {
    hide BatchVerdict, TailVerdict, MTH, Path, RootFromPath, PathSteps;
    if |hashes| == 1 then InclusionSound(d, hashes[0], start, path)
    else if start + |hashes| == th.size then TailSound(d, hashes, start, path)
    else BatchSound(d, hashes, start, path, endPath)
  }

  lemma {:induction false} ReplyIsTrue(d: seq<Hash>, cache: Option<Cache>, next: nat, r: Replies)
    requires Succeeds(cache, TreeHead(|d|, MTH(d)), next, r) && Checked(cache, r.leaves.value)
    requires cache.Some? || r.startProof.Some?
    requires IsRangeOf(LeafHashes(r.leaves.value), next, d)
    requires TruePaths(Hashes(cache, r.leaves.value), Start(cache, next), |d|, StartProof(cache, r).path, EndPath(r), d)
    ensures IsTrueReply(d, cache, next, r)
  {
    hide BatchVerdict, TailVerdict, InclusionVerdict, MTH, Path, LeafHashes, IsRangeOf;
  }

  /** A reply that does not succeed is alerted, and the monitor waits for the next round where it was. */
  lemma {:induction false} BadLeavesAreAlerted(logKey: PublicKey, th: TreeHead, next: nat, cache: Option<Cache>,
                                               r: Replies)
    requires next < th.size && Adjacent(cache, next) && !Succeeds(cache, th, next, r)
    ensures Step(logKey, State(Fetching, th, next, cache), Batch(r)) == (Initial(th, next), [Alert])
  {
    hide Outcome;
  }

  // ---------- What is reported ----------

  /** A leaf is reported exactly if its key is among the submit keys, and its signature on its checksum is one
      of that key; with no keys configured, every leaf is. */
  lemma {:induction false} ReportedBySignature(submitKeys: Option<map<Hash, PublicKey>>, leaves: seq<Leaf>,
                                               startIndex: nat, i: nat)
    requires i < |leaves|
    ensures var leaf := leaves[i];
      startIndex + i in Filtered(submitKeys, leaves, startIndex).0 <==>
      submitKeys == None
      || (leaf.keyHash in submitKeys.value
          && leaf.keyHash == HashBytes(submitKeys.value[leaf.keyHash].bytes)
          && VerifySignature(submitKeys.value[leaf.keyHash], LeafSignedData(leaf.checksum), leaf.signature))
  {
    hide Filtered;
    FilteredExactly(submitKeys, leaves, startIndex);
    assert leaves[startIndex + i - startIndex] == leaves[i];
  }
}
