/** What a witness answers, and what it holds, in terms of the signatures in its file and in the requests. */
module WitnessAnswers {
  import opened Crypto
  import opened Bits
  import opened Merkle
  import opened MerkleProofs = Verify
  import opened Types
  import opened Witness

  /** The signature is one of the configured log on the tree head. */
  predicate IsLogSignature(keys: Keys, th: TreeHead, signature: Signature) {
    VerifySignature(keys.logPub, FormatCheckpoint(SigsumCheckpointOrigin(keys.logPub), th), signature)
  }

  /** The log has signed the tree head. */
  ghost predicate IsSigned(keys: Keys, th: TreeHead) {
    exists signature :: IsLogSignature(keys, th, signature)
  }

  // ---------- Starting ----------

  /** From a file with an entry of this witness, it starts exactly if the signature of the log and its own
      cosignature verify; then it continues from that head. */
  lemma {:induction false} StartsExactly(keys: Keys, s: Durable, cth: CosignedTreeHead)
    requires s.file == Some(cth) && HashBytes(keys.pub.bytes) in cth.cosignatures
    ensures var s' := Step(keys, s, Start(false)).0;
      var th, cs := cth.signed.treeHead, cth.cosignatures[HashBytes(keys.pub.bytes)];
      && s'.file == s.file
      && (s'.running <==>
            && IsLogSignature(keys, th, cth.signed.signature)
            && VerifySignature(keys.pub, ToCosignedData(SigsumCheckpointOrigin(keys.logPub), cs.timestamp, th),
                               cs.signature))
      && (s'.running ==> s'.th == th)
  {
  }

  /** Without a file it starts from the empty tree, and with one that cannot be opened not at all. */
  lemma {:induction false} OtherStarts(keys: Keys, s: Durable)
    ensures Step(keys, s, Start(true)).0 == s.(running := false)
    ensures s.file == None ==> Step(keys, s, Start(false)).0 == Durable(true, EMPTY_TREE_HEAD, None)
  {
  }

  /** A new witness is at the empty tree of the RFC, so that the first head of any honest log, with no
      proof, is cosigned. */
  lemma {:induction false} FirstHeadIsCosigned(keys: Keys, d: seq<Hash>, signature: Signature, cosignature: Cosignature)
    requires |d| < Pow2(63) && IsLogSignature(keys, TreeHead(|d|, MTH(d)), signature)
    ensures var s := Step(keys, FRESH_INSTALL, Start(false)).0;
      var origin := SigsumCheckpointOrigin(keys.logPub);
      var req := AddCheckpoint(0, [], origin, NewLogKeyId(origin, keys.logPub),
                               SignedTreeHead(TreeHead(|d|, MTH(d)), signature));
      && s.running && s.th == TreeHead(0, MTH([]))
      && Step(keys, s, Request(req, Some(cosignature), Succeeds)).1
         == Some(Cosigned(TreeHead(|d|, MTH(d)), cosignature))
  {
    hide ConsistencyVerdict, Pow2;
    var s := Step(keys, FRESH_INSTALL, Start(false)).0;
    assert MTH([]) == HashEmptyTree();
    assert d[..0] == [];
    ConsistencyComplete(d, 0);
  }

  // ---------- What it holds ----------

  ghost predicate HoldsSigned(keys: Keys, s: Durable, fromNothing: bool) {
    && (s.running ==> IsSigned(keys, s.th) || (fromNothing && s.th == EMPTY_TREE_HEAD))
    && (!fromNothing ==> s.file.Some?)
  }

  lemma {:induction false} StepHoldsSigned(keys: Keys, s: Durable, e: Event, fromNothing: bool)
    requires HoldsSigned(keys, s, fromNothing)
    ensures HoldsSigned(keys, Step(keys, s, e).0, fromNothing)
  {
    hide ConsistencyVerdict;
    match e
    case Start(false) =>
      if s.file.Some? && Load(keys, s.file).Some? {
        assert IsLogSignature(keys, s.file.value.signed.treeHead, s.file.value.signed.signature);
      }
    case Request(req, _, _) =>
      if s.running && Refusal(keys, s.th, req) == None {
        assert IsLogSignature(keys, req.signed.treeHead, req.signed.signature);
      }
    case _ =>
  }

  lemma {:induction false} RunHolds(keys: Keys, s: Durable, events: seq<Event>, fromNothing: bool)
    requires HoldsSigned(keys, s, fromNothing)
    ensures HoldsSigned(keys, Run(keys, s, events), fromNothing)
    decreases |events|
  {
    hide Step, HoldsSigned;
    if events != [] {
      StepHoldsSigned(keys, s, events[0], fromNothing);
      RunHolds(keys, Step(keys, s, events[0]).0, events[1..], fromNothing);
    }
  }

  /** Over every run, from every file, valid or not: a running witness holds a head that the log has
      signed, or the empty tree head, if there was no file. */
  lemma {:induction false} RunHoldsSignedHead(keys: Keys, file: Option<CosignedTreeHead>, events: seq<Event>)
    ensures var s := Run(keys, Durable(false, EMPTY_TREE_HEAD, file), events);
      s.running ==> IsSigned(keys, s.th) || (file == None && s.th == EMPTY_TREE_HEAD)
  {
    RunHolds(keys, Durable(false, EMPTY_TREE_HEAD, file), events, file == None);
  }

  // ---------- What it cosigns ----------

  /** The request is for this head, with the origin line of the log, the id of its key, and its signature. */
  predicate IsRequestFor(keys: Keys, e: Event, h: TreeHead) {
    && e.Request? && e.req.signed.treeHead == h
    && e.req.origin == SigsumCheckpointOrigin(keys.logPub)
    && e.req.keyId == NewLogKeyId(SigsumCheckpointOrigin(keys.logPub), keys.logPub)
    && IsLogSignature(keys, h, e.req.signed.signature)
  }

  /** Every head that is cosigned in a run, from any state, came with such a request. */
  lemma {:induction false} CosignedWasRequested(keys: Keys, s: Durable, events: seq<Event>, h: TreeHead)
    requires h in CosignedHeads(keys, s, events)
    ensures exists e :: e in events && IsRequestFor(keys, e, h)
    decreases |events|
  {
    hide Step, IsRequestFor;
    var (s', r) := Step(keys, s, events[0]);
    if h in CosignedBy(r) {
      StepWasRequested(keys, s, events[0], h);
    } else {
      CosignedWasRequested(keys, s', events[1..], h);
      var e :| e in events[1..] && IsRequestFor(keys, e, h);
      assert e in events;
    }
  }

  lemma {:induction false} StepWasRequested(keys: Keys, s: Durable, e: Event, h: TreeHead)
    requires h in CosignedBy(Step(keys, s, e).1)
    ensures IsRequestFor(keys, e, h)
  {
    hide ConsistencyVerdict;
  }

  // ---------- What it answers ----------

  /** The sizes and the proof fit together. */
  predicate SizesFit(req: AddCheckpoint) {
    var size := req.signed.treeHead.size;
    && req.oldSize <= size && |req.path| <= 63
    && (if req.oldSize == 0 || req.oldSize == size then |req.path| == 0 else |req.path| > 0)
  }

  /** The answer of a running witness to every request, except for the consistency proof: the first of these
      that applies, and a refused request changes nothing. */
  lemma {:induction false} AnswersExactly(keys: Keys, s: Durable, req: AddCheckpoint, cosign: Option<Cosignature>,
                                          commit: Commit)
    requires s.running
    ensures var origin := SigsumCheckpointOrigin(keys.logPub);
      var (s', r) := Step(keys, s, Request(req, cosign, commit));
      if !SizesFit(req) then (s', r) == (s, Some(BadRequest))
      else if req.origin != origin then (s', r) == (s, Some(NotFound))
      else if req.keyId != NewLogKeyId(origin, keys.logPub)
              || !IsLogSignature(keys, req.signed.treeHead, req.signed.signature) then (s', r) == (s, Some(Forbidden))
      else if req.oldSize != s.th.size then (s', r) == (s, Some(Conflict(s.th.size)))
      else r == Some(UnprocessableEntity) ==> s' == s
  {
    hide ConsistencyVerdict;
  }

  /** The request gets as far as its consistency proof. */
  predicate IsInOrder(keys: Keys, s: Durable, req: AddCheckpoint) {
    var origin := SigsumCheckpointOrigin(keys.logPub);
    && s.running && SizesFit(req) && req.origin == origin && req.keyId == NewLogKeyId(origin, keys.logPub)
    && IsLogSignature(keys, req.signed.treeHead, req.signed.signature) && req.oldSize == s.th.size
  }

  /** The proof: if the new head commits to d, it is refused exactly unless the head of the witness is that
      of a prefix of d and the path the RFC proof, or a collision is returned. */
  function ProofIsRefused(keys: Keys, s: Durable, req: AddCheckpoint, cosign: Option<Cosignature>, commit: Commit,
                          d: seq<Hash>): (c: MaybeCollision)
    requires IsInOrder(keys, s, req) && Commits(req.signed.treeHead, d)
    ensures s.th.size <= |d|
    ensures c.None? ==>
      (Step(keys, s, Request(req, cosign, commit)).1 == Some(UnprocessableEntity) <==>
       !(s.th.rootHash == MTH(d[..s.th.size]) && req.path == Proof(s.th.size, d)))
  {
    hide ConsistencyVerdict, MTH, Proof;
    ConsistencyComplete(d, s.th.size);
    if ConsistentWith(req.path, s.th, req.signed.treeHead) == Ok then
      ConsistencySound(d, s.th.size, s.th.rootHash, req.path)
    else None
  }

  /** A request that nothing is wrong with: the new head is cosigned, in memory and in the file, when signing
      and storing work; otherwise there is an error, or no answer, and the memory is as before. */
  lemma {:induction false} GoodRequest(keys: Keys, s: Durable, req: AddCheckpoint, cosign: Option<Cosignature>,
                                       commit: Commit, d: seq<Hash>)
    requires IsInOrder(keys, s, req) && Commits(req.signed.treeHead, d)
    requires s.th.size <= |d| && s.th.rootHash == MTH(d[..s.th.size]) && req.path == Proof(s.th.size, d)
    ensures var (s', r) := Step(keys, s, Request(req, cosign, commit));
      if cosign == None then (s', r) == (s, Some(InternalError))
      else
        var file := Some(CosignedTreeHead(req.signed, map[HashBytes(keys.pub.bytes) := cosign.value]));
        match commit
        case Succeeds =>
          (s', r) == (Durable(true, req.signed.treeHead, file), Some(Cosigned(req.signed.treeHead, cosign.value)))
        case Fails(replaced) =>
          (s', r) == (Durable(true, s.th, if replaced then file else s.file), Some(InternalError))
        case Dies(replaced) =>
          (s', r) == (Durable(false, s.th, if replaced then file else s.file), None)
  {
    hide ConsistencyVerdict, MTH, Proof;
    ConsistencyComplete(d, s.th.size);
  }
}
