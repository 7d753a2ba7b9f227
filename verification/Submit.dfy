/** `pkg/submit/submit.go`: submitting a leaf to the logs of a policy, and collecting a proof.

    What a log answers is arbitrary, and given as the sequence of its answers.  The sequence ends when
    the time for this log is over: the next request, or the sleep before it, then fails. */
module Submit {
  import opened Crypto
  import opened Merkle
  import opened MerkleProofs = Verify
  import opened Types
  import opened Policies
  import opened ProofText
  import opened ProofVerify
  import opened Client
  import opened Bits

  /** `requests.Leaf` */
  datatype LeafRequest = LeafRequest(message: Hash, signature: Signature, publicKey: PublicKey) {
    /** The leaf that is requested, if the signature is valid. */
    function Verify(): Option<Leaf> {
      var checksum := HashBytes(message.bytes);
      if !VerifySignature(publicKey, LeafSignedData(checksum), signature) then None
      else Some(Leaf(checksum, signature, KeyHash(publicKey)))
    }
  }

  datatype AddReply = AddFailed | NotPersisted | Persisted
  /** What the client hands back for a request for a tree head and, if there is one, for an inclusion
      proof after it. */
  datatype Round = Round(head: Option<CosignedTreeHead>, inclusion: InclusionReply)

  /** Whether a submit token could be made (or none is needed), and the answers. */
  datatype LogReplies = LogReplies(token: bool, adds: seq<AddReply>, rounds: seq<Round>)

  // ---------- What is collected from one log ----------

  predicate IsPersisted(adds: seq<AddReply>) {
    adds != [] && (adds[0] == Persisted || (adds[0] == NotPersisted && IsPersisted(adds[1..])))
  }

  predicate GoodHead(policy: Policy, logKeyHash: Hash, round: Round) {
    round.head.Some? && AcceptsTreeHead(policy, logKeyHash, round.head.value)
  }

  /** The log is fine, but the leaf is not in its tree yet. */
  predicate IsWait(policy: Policy, logKeyHash: Hash, round: Round) {
    && GoodHead(policy, logKeyHash, round)
    && (round.head.value.signed.treeHead.size == 0 || round.inclusion == NotFound)
  }

  predicate IsDelivery(policy: Policy, logKeyHash: Hash, leafHash: Hash, round: Round) {
    && GoodHead(policy, logKeyHash, round)
    && round.inclusion.Found?
    && round.inclusion.proof.Verdict(leafHash, round.head.value.signed.treeHead) == Ok
  }

  /** The first round that delivers a proof, unless another one fails first. */
  function Delivery(policy: Policy, logKeyHash: Hash, leafHash: Hash, rounds: seq<Round>): (r: Option<Round>)
    ensures r.Some? ==> r.value in rounds && IsDelivery(policy, logKeyHash, leafHash, r.value)
  {
    if rounds == [] then None
    else if IsDelivery(policy, logKeyHash, leafHash, rounds[0]) then Some(rounds[0])
    else if IsWait(policy, logKeyHash, rounds[0]) then Delivery(policy, logKeyHash, leafHash, rounds[1..])
    else None
  }

  /** No round both waits and delivers: an empty tree has no valid inclusion proof. */
  lemma {:induction false} WaitIsNoDelivery(policy: Policy, logKeyHash: Hash, leafHash: Hash, round: Round)
    requires IsWait(policy, logKeyHash, round)
    ensures !IsDelivery(policy, logKeyHash, leafHash, round)
  {
    hide AcceptsTreeHead;
  }

  function NoLeaf(): ShortLeaf {
    ShortLeaf(Signature(seq(64, _ => 0)), Hash(seq(32, _ => 0)))
  }

  method SubmitLeafToLog(policy: Policy, logKeyHash: Hash, leafHash: Hash, adds: seq<AddReply>, rounds: seq<Round>)
    returns (r: Option<SigsumProof>)
    ensures r.Some? <==> (exists n: nat :: PersistedAt(adds, n)) && Delivery(policy, logKeyHash, leafHash, rounds).Some?
    ensures r.Some? ==>
      var round := Delivery(policy, logKeyHash, leafHash, rounds).value;
      r.value == SigsumProof(logKeyHash, NoLeaf(), round.head.value, round.inclusion.proof)
  {
    hide AcceptsTreeHead, InclusionVerdict;
    PersistedExactly(adds);
    var i := 0;
    while true
      invariant i <= |adds| && IsPersisted(adds) == IsPersisted(adds[i..])
      decreases |adds| - i
    {
      if i == |adds| || adds[i] == AddFailed {
        return None;
      }
      if adds[i] == Persisted {
        break;
      }
      assert adds[i..][1..] == adds[i + 1..];
      i := i + 1;
    }
    i := 0;
    while true
      invariant i <= |rounds|
      invariant Delivery(policy, logKeyHash, leafHash, rounds) == Delivery(policy, logKeyHash, leafHash, rounds[i..])
      decreases |rounds| - i
    {
      if i == |rounds| {
        return None;
      }
      var round := rounds[i];
      assert rounds[i..][1..] == rounds[i + 1..];
      if round.head == None {
        return None;
      }
      var treeHead := round.head.value;
      var ok := VerifyCosignedTreeHead(policy, logKeyHash, treeHead);
      if !ok {
        return None;
      }
      if treeHead.signed.treeHead.size == 0 || round.inclusion == NotFound {
        WaitIsNoDelivery(policy, logKeyHash, leafHash, round);
        i := i + 1;
        continue;
      }
      if round.inclusion == Failed {
        return None;
      }
      var inclusion, head := round.inclusion.proof, treeHead.signed.treeHead;
      var result := VerifyInclusion(leafHash, inclusion.leafIndex, head.size, head.rootHash, inclusion.path);
      if result != Ok {
        return None;
      }
      return Some(SigsumProof(logKeyHash, NoLeaf(), treeHead, inclusion));
    }
  }

  /** The log says that the leaf is persisted, and before that only that it is not yet. */
  ghost predicate PersistedAt(adds: seq<AddReply>, n: nat) {
    n < |adds| && adds[n] == Persisted && forall i :: 0 <= i < n ==> adds[i] == NotPersisted
  }

  /** However often the log says "not yet": the leaf is persisted exactly if that is all it says before it
      says that it is. */
  lemma {:induction false} PersistedExactly(adds: seq<AddReply>)
    ensures IsPersisted(adds) <==> exists n: nat :: PersistedAt(adds, n)
    decreases |adds|
  {
    if adds != [] {
      PersistedExactly(adds[1..]);
      if n: nat :| PersistedAt(adds, n) {
        if n > 0 { PersistedTail(adds, n - 1); }
      }
      if n: nat :| PersistedAt(adds[1..], n) {
        PersistedTail(adds, n);
      }
      if adds[0] == Persisted { assert PersistedAt(adds, 0); }
    }
  }

  lemma {:induction false} PersistedTail(adds: seq<AddReply>, n: nat)
    requires adds != []
    ensures PersistedAt(adds, n + 1) <==> adds[0] == NotPersisted && PersistedAt(adds[1..], n)
  {
    if adds[0] == NotPersisted && PersistedAt(adds[1..], n) {
      forall i | 0 <= i < n + 1 ensures adds[i] == NotPersisted {
        if i > 0 { assert adds[i] == adds[1..][i - 1]; }
      }
    }
  }

  /** The answers after which a submission to this log waits: an accepted tree head, and no leaf in it yet. */
  predicate IsWaiting(policy: Policy, logKeyHash: Hash, round: Round) {
    && round.head.Some? && AcceptsTreeHead(policy, logKeyHash, round.head.value)
    && (round.head.value.signed.treeHead.size == 0 || round.inclusion == NotFound)
  }

  /** After any number of such rounds, a round with no tree head, a tree head that the policy does not
      accept, a failed request for a proof, or a proof that does not verify, ends the submission to this log. */
  lemma {:induction false} FailureEnds(policy: Policy, logKeyHash: Hash, leafHash: Hash, rounds: seq<Round>, n: nat)
    requires n < |rounds| && forall i :: 0 <= i < n ==> IsWaiting(policy, logKeyHash, rounds[i])
    requires var round := rounds[n];
      || round.head == None
      || !AcceptsTreeHead(policy, logKeyHash, round.head.value)
      || (var th := round.head.value.signed.treeHead;
          && th.size > 0
          && (round.inclusion == Failed
              || (round.inclusion.Found?
                  && InclusionVerdict(leafHash, round.inclusion.proof.leafIndex, th.size, th.rootHash,
                                      round.inclusion.proof.path) != Ok)))
    ensures Delivery(policy, logKeyHash, leafHash, rounds) == None
    decreases n
  {
    hide AcceptsTreeHead, InclusionVerdict;
    if n > 0 {
      WaitIsNoDelivery(policy, logKeyHash, leafHash, rounds[0]);
      forall i | 0 <= i < n - 1 ensures IsWaiting(policy, logKeyHash, rounds[1..][i]) {
        assert rounds[1..][i] == rounds[i + 1];
      }
      FailureEnds(policy, logKeyHash, leafHash, rounds[1..], n - 1);
    }
  }

  // ---------- All logs ----------

  /** The proof for a leaf from one log. */
  function FromLog(policy: Policy, leaf: Leaf, log: Entity, replies: LogReplies): Option<SigsumProof> {
    var logKeyHash := KeyHash(log.publicKey);
    var round := Delivery(policy, logKeyHash, leaf.ToHash(), replies.rounds);
    if !IsPersisted(replies.adds) || round.None? then None
    else Some(SigsumProof(logKeyHash, NewShortLeaf(leaf), round.value.head.value, round.value.inclusion.proof))
  }

  /** The proof from the first log that gives one, unless a token cannot be made before that. */
  function FromLogs(policy: Policy, leaf: Leaf, logs: seq<Entity>, replies: Entity -> LogReplies): Option<SigsumProof> {
    if logs == [] || !replies(logs[0]).token then None
    else
      var sp := FromLog(policy, leaf, logs[0], replies(logs[0]));
      if sp.Some? then sp else FromLogs(policy, leaf, logs[1..], replies)
  }

  /** An order in which the logs that have a URL can be tried, each once. */
  ghost predicate IsLogOrder(order: seq<Hash>, policy: Policy) {
    && (forall h :: h in order <==> h in policy.logs && policy.logs[h].url != "")
    && (forall i, j :: 0 <= i < j < |order| ==> order[i] != order[j])
  }

  ghost function InOrder(order: seq<Hash>, logs: map<Hash, Entity>): seq<Entity>
    requires forall h :: h in order ==> h in logs
  {
    seq(|order|, i requires 0 <= i < |order| => logs[order[i]])
  }

  /** The proof comes from a log that the policy lists with a URL. */
  ghost predicate IsFromSomeLog(policy: Policy, leaf: Leaf, replies: Entity -> LogReplies, sp: Option<SigsumProof>) {
    exists log :: IsListed(policy.logs, log) && FromLog(policy, leaf, log, replies(log)) == sp
  }

  method SubmitLeafRequest(policy: Policy, req: LeafRequest, replies: Entity -> LogReplies)
    returns (r: Option<SigsumProof>, ghost order: seq<Hash>)
    ensures r.Some? ==> req.Verify().Some? && IsFromSomeLog(policy, req.Verify().value, replies, r)
    ensures IsLogOrder(order, policy)
    ensures r == if req.Verify().None? then None
                 else FromLogs(policy, req.Verify().value, InOrder(order, policy.logs), replies)
  {
    hide FromLog, Delivery;
    var logs: seq<Entity>;
    logs, order := RandomizeEntities(policy.logs);
    assert InOrder(order, policy.logs) == logs;
    var leaf := req.Verify();
    if leaf == None {
      return None, order;
    }
    var leafHash := leaf.value.ToHash();
    for i := 0 to |logs|
      invariant FromLogs(policy, leaf.value, logs, replies) == FromLogs(policy, leaf.value, logs[i..], replies)
    {
      var answers := replies(logs[i]);
      assert logs[i..][1..] == logs[i + 1..];
      if !answers.token {
        return None, order;
      }
      var logKeyHash := KeyHash(logs[i].publicKey);
      var sp := SubmitLeafToLog(policy, logKeyHash, leafHash, answers.adds, answers.rounds);
      PersistedExactly(answers.adds);
      ResultOfLog(policy, leaf.value, logs[i], answers);
      if sp.Some? {
        assert logs[i] in logs && IsListed(policy.logs, logs[i]);
        return Some(sp.value.(leaf := NewShortLeaf(leaf.value))), order;
      }
    }
    return None, order;
  }

  lemma {:induction false} ResultOfLog(policy: Policy, leaf: Leaf, log: Entity, replies: LogReplies)
    ensures FromLog(policy, leaf, log, replies).Some? <==>
            IsPersisted(replies.adds) && Delivery(policy, KeyHash(log.publicKey), leaf.ToHash(), replies.rounds).Some?
    ensures FromLog(policy, leaf, log, replies).Some? ==>
      var round := Delivery(policy, KeyHash(log.publicKey), leaf.ToHash(), replies.rounds).value;
      FromLog(policy, leaf, log, replies).value ==
        SigsumProof(KeyHash(log.publicKey), NewShortLeaf(leaf), round.head.value, round.inclusion.proof)
  {
    hide Delivery;
  }

  // ---------- Submit, then verify ----------

  /** Every proof that a submission returns is accepted by a verifier with the same policy who knows the
      key of the submitter, for the submitted message. */
  lemma {:induction false} SubmittedIsAccepted(policy: Policy, req: LeafRequest, logs: seq<Entity>,
                                               replies: Entity -> LogReplies, submitKeys: map<Hash, PublicKey>)
    requires req.Verify().Some? && FromLogs(policy, req.Verify().value, logs, replies).Some?
    requires KeyHash(req.publicKey) in submitKeys && submitKeys[KeyHash(req.publicKey)] == req.publicKey
    ensures Accepts(FromLogs(policy, req.Verify().value, logs, replies).value, req.message, submitKeys, policy)
    decreases |logs|
  {
    hide AcceptsTreeHead, InclusionVerdict;
    var leaf := req.Verify().value;
    var sp := FromLog(policy, leaf, logs[0], replies(logs[0]));
    if sp.None? {
      SubmittedIsAccepted(policy, req, logs[1..], replies, submitKeys);
    } else {
      assert LeafFor(sp.value, req.message) == leaf;
    }
  }

  /** And so is what is read from its text. */
  lemma {:induction false} SubmittedRoundTrip(policy: Policy, req: LeafRequest, logs: seq<Entity>,
                                              replies: Entity -> LogReplies, submitKeys: map<Hash, PublicKey>,
                                                  order: seq<Hash>)
    requires req.Verify().Some? && FromLogs(policy, req.Verify().value, logs, replies).Some?
    requires KeyHash(req.publicKey) in submitKeys && submitKeys[KeyHash(req.publicKey)] == req.publicKey
    requires var sp := FromLogs(policy, req.Verify().value, logs, replies).value;
      IsOrder(order, sp.treeHead.cosignatures) && ProofAsText(sp, order).Some?
    ensures var sp := FromLogs(policy, req.Verify().value, logs, replies).value;
      && ParsedProof(ProofAsText(sp, order).value) == Some(sp)
      && Accepts(sp, req.message, submitKeys, policy)
  {
    hide FromLogs, Accepts, ProofAsText, ParsedProof;
    SubmittedIsAccepted(policy, req, logs, replies, submitKeys);
    var sp := FromLogs(policy, req.Verify().value, logs, replies).value;
    AcceptedRoundTrip(sp, req.message, submitKeys, policy, order);
  }

  /** When all tokens can be made, there is a proof exactly if some log gives one, whatever the order. */
  lemma {:induction false} OneLogIsEnough(policy: Policy, leaf: Leaf, logs: seq<Entity>, replies: Entity -> LogReplies)
    requires forall e :: e in logs ==> replies(e).token
    ensures FromLogs(policy, leaf, logs, replies).Some? <==>
            exists e :: e in logs && FromLog(policy, leaf, e, replies(e)).Some?
    decreases |logs|
  {
    hide FromLog;
    if logs != [] {
      OneLogIsEnough(policy, leaf, logs[1..], replies);
      assert logs == [logs[0]] + logs[1..];
    }
  }

  // ---------- Honest logs ----------

  /** The log shows an acceptable head of the tree of d, and looks up the leaf in it; the client hands
      back what it makes of that. */
  ghost predicate IsHonest(policy: Policy, logKeyHash: Hash, leafHash: Hash, round: Round, d: seq<Hash>) {
    && GoodHead(policy, logKeyHash, round)
    && Commits(round.head.value.signed.treeHead, d) && |d| < Pow2(63)
    && exists answer :: IsLookUp(leafHash, answer, d) && round.inclusion == GetInclusionProof(|d|, answer)
  }

  ghost predicate IsLookUp(leafHash: Hash, answer: InclusionReply, d: seq<Hash>) {
    if leafHash in d then answer.Found? && IsPathTo(leafHash, answer.proof, d) else answer == NotFound
  }

  ghost predicate IsPathTo(leafHash: Hash, proof: InclusionProof, d: seq<Hash>) {
    proof.leafIndex < |d| && d[proof.leafIndex] == leafHash && proof.path == Path(proof.leafIndex, d)
  }

  /** A round of an honest log delivers exactly if the leaf is in the tree, and is waited for exactly if
      it is not and the tree does not have one leaf: for one leaf the client does not ask the log, and its
      trivial proof is not valid for another leaf. */
  lemma {:induction false} HonestRound(policy: Policy, logKeyHash: Hash, leafHash: Hash, round: Round, d: seq<Hash>)
    requires IsHonest(policy, logKeyHash, leafHash, round, d)
    ensures IsDelivery(policy, logKeyHash, leafHash, round) <==> leafHash in d
    ensures IsWait(policy, logKeyHash, round) <==> leafHash !in d && |d| != 1
  {
    hide AcceptsTreeHead, InclusionVerdict, Path, Merkle.MTH, Pow2;
    var answer :| IsLookUp(leafHash, answer, d) && round.inclusion == GetInclusionProof(|d|, answer);
    if leafHash in d {
      InclusionGetsThrough(d, answer.proof.leafIndex);
      InclusionComplete(d, answer.proof.leafIndex);
      if |d| == 1 { assert Path(0, d) == [] by { Singleton(d); } }
    } else if |d| == 1 {
      TrivialProof(d[0], leafHash, d);
    }
  }

  lemma {:induction false} TrivialProof(x: Hash, leafHash: Hash, d: seq<Hash>)
    requires d == [x]
    ensures InclusionVerdict(leafHash, 0, 1, Merkle.MTH(d), []) == Ok <==> leafHash == x
  {
  }

  /** The first tree that includes the leaf, or has one leaf, settles it: if it includes the leaf, its proof
      is returned, and otherwise the submission to this log fails, though the log is honest. */
  lemma {:induction false} HonestLogDelivers(policy: Policy, logKeyHash: Hash, leafHash: Hash, rounds: seq<Round>,
                                             trees: seq<seq<Hash>>, n: nat)
    requires n < |trees| == |rounds|
    requires forall i :: 0 <= i < |rounds| ==> IsHonest(policy, logKeyHash, leafHash, rounds[i], trees[i])
    requires forall i :: 0 <= i < n ==> leafHash !in trees[i] && |trees[i]| != 1
    requires leafHash in trees[n] || |trees[n]| == 1
    ensures Delivery(policy, logKeyHash, leafHash, rounds) == if leafHash in trees[n] then Some(rounds[n]) else None
    decreases n
  {
    hide IsHonest, IsWait, IsDelivery;
    HonestRound(policy, logKeyHash, leafHash, rounds[0], trees[0]);
    if n > 0 {
      HonestLogDelivers(policy, logKeyHash, leafHash, rounds[1..], trees[1..], n - 1);
    }
  }

  /** With no such tree the submitter waits until the time is over. */
  lemma {:induction false} HonestLogIsWaitedFor(policy: Policy, logKeyHash: Hash, leafHash: Hash, rounds: seq<Round>,
                                                trees: seq<seq<Hash>>)
    requires |trees| == |rounds|
    requires forall i :: 0 <= i < |rounds| ==> IsHonest(policy, logKeyHash, leafHash, rounds[i], trees[i])
    requires forall i :: 0 <= i < |trees| ==> leafHash !in trees[i] && |trees[i]| != 1
    ensures Delivery(policy, logKeyHash, leafHash, rounds) == None
    ensures forall i :: 0 <= i < |rounds| ==> IsWait(policy, logKeyHash, rounds[i])
    decreases |rounds|
  {
    hide IsHonest, IsWait, IsDelivery;
    if rounds != [] {
      HonestRound(policy, logKeyHash, leafHash, rounds[0], trees[0]);
      HonestLogIsWaitedFor(policy, logKeyHash, leafHash, rounds[1..], trees[1..]);
      forall i | 0 <= i < |rounds| ensures IsWait(policy, logKeyHash, rounds[i]) {
        if i > 0 { assert rounds[i] == rounds[1..][i - 1]; }
      }
    }
  }

  /** A whole submission to an honest log: after any number of "not yet", with the proof of the first tree
      that includes the leaf. */
  lemma {:induction false} HonestSubmission(policy: Policy, leaf: Leaf, log: Entity, replies: LogReplies, m: nat,
                                            trees: seq<seq<Hash>>, n: nat)
    requires PersistedAt(replies.adds, m)
    requires n < |trees| == |replies.rounds|
    requires forall i :: 0 <= i < |trees| ==>
      IsHonest(policy, HashBytes(log.publicKey.bytes), leaf.ToHash(), replies.rounds[i], trees[i])
    requires leaf.ToHash() in trees[n] && forall i :: 0 <= i < n ==> leaf.ToHash() !in trees[i] && |trees[i]| != 1
    ensures var round := replies.rounds[n];
      && round.head.Some? && round.inclusion.Found?
      && FromLog(policy, leaf, log, replies) == Some(SigsumProof(
           HashBytes(log.publicKey.bytes), ShortLeaf(leaf.signature, leaf.keyHash),
           round.head.value, round.inclusion.proof))
  {
    hide IsHonest, PersistedAt, Delivery;
    PersistedExactly(replies.adds);
    HonestLogDelivers(policy, HashBytes(log.publicKey.bytes), leaf.ToHash(), replies.rounds, trees, n);
  }

  /** A leaf that is never persisted gives no proof, whatever else the log answers. */
  lemma {:induction false} NotPersistedFails(policy: Policy, leaf: Leaf, log: Entity, replies: LogReplies, n: nat)
    requires n <= |replies.adds| && forall i :: 0 <= i < n ==> replies.adds[i] == NotPersisted
    requires n == |replies.adds| || replies.adds[n] == AddFailed
    ensures FromLog(policy, leaf, log, replies) == None
  {
    PersistedExactly(replies.adds);
    forall m: nat ensures !PersistedAt(replies.adds, m) {
    }
  }

  /** When a token cannot be made for a log, no further log is tried. */
  lemma {:induction false} TokenFailureEnds(policy: Policy, leaf: Leaf, logs: seq<Entity>,
                                            replies: Entity -> LogReplies, n: nat)
    requires n < |logs| && !replies(logs[n]).token
    requires forall i :: 0 <= i < n ==> FromLog(policy, leaf, logs[i], replies(logs[i])) == None
    ensures FromLogs(policy, leaf, logs, replies) == None
    decreases n
  {
    hide FromLog;
    if n > 0 {
      assert forall i :: 0 <= i < n - 1 ==> logs[1..][i] == logs[i + 1];
      TokenFailureEnds(policy, leaf, logs[1..], replies, n - 1);
    }
  }

  /** The first log that gives a proof is the one whose proof is returned. */
  lemma {:induction false} FirstProofIsReturned(policy: Policy, leaf: Leaf, logs: seq<Entity>,
                                                replies: Entity -> LogReplies, n: nat)
    requires n < |logs| && FromLog(policy, leaf, logs[n], replies(logs[n])).Some?
    requires forall i :: 0 <= i <= n ==> replies(logs[i]).token
    requires forall i :: 0 <= i < n ==> FromLog(policy, leaf, logs[i], replies(logs[i])) == None
    ensures FromLogs(policy, leaf, logs, replies) == FromLog(policy, leaf, logs[n], replies(logs[n]))
    decreases n
  {
    hide FromLog;
    if n > 0 {
      assert forall i :: 0 <= i < n ==> logs[1..][i] == logs[i + 1];
      FirstProofIsReturned(policy, leaf, logs[1..], replies, n - 1);
    }
  }

  /** A request is verified exactly if its signature is one of its key on its message, and then asks for the
      leaf with these three. */
  lemma {:induction false} RequestIsVerified(req: LeafRequest)
    ensures req.Verify().Some? <==>
            VerifySignature(req.publicKey, LeafSignedData(HashBytes(req.message.bytes)), req.signature)
    ensures req.Verify().Some? ==>
            req.Verify().value == Leaf(HashBytes(req.message.bytes), req.signature, HashBytes(req.publicKey.bytes))
  {
  }

  /** The failing input: an honest log whose only leaf is another one. */
  lemma {:induction false} OneOtherLeafFails(policy: Policy, logKeyHash: Hash, leafHash: Hash, other: Hash,
                                             cth: CosignedTreeHead, later: seq<Round>)
    requires other != leafHash && cth.signed.treeHead == TreeHead(1, Merkle.MTH([other]))
    requires AcceptsTreeHead(policy, logKeyHash, cth)
    ensures var round := Round(Some(cth), GetInclusionProof(1, NotFound));
      && IsHonest(policy, logKeyHash, leafHash, round, [other])
      && Delivery(policy, logKeyHash, leafHash, [round] + later) == None
  {
    hide AcceptsTreeHead, InclusionVerdict, Merkle.MTH, IsWait, IsDelivery, Pow2;
    var round := Round(Some(cth), GetInclusionProof(1, NotFound));
    assert IsLookUp(leafHash, NotFound, [other]);
    PowersOrdered(0, 63);
    NoBits(0);
    assert IsHonest(policy, logKeyHash, leafHash, round, [other]);
    HonestRound(policy, logKeyHash, leafHash, round, [other]);
  }
}
