/** The witness of `cmd/sigsum-witness/sigsum-witness.go`, with the request checks of
    `pkg/requests/witness.go`, as a durable state machine.

    The witness keeps its latest tree head in memory and, with its cosignature, in a file that is
    replaced atomically.  It can stop at any time, also while it stores, and starts again from the
    file.  Requests are handled one at a time, under the mutex of the source. */
module Witness {
  import opened Crypto
  import opened Merkle
  import opened Verify
  import opened BatchProofs
  import opened Bits
  import opened Types
  import opened Chains

  // ---------- Requests ----------

  datatype AddCheckpoint = AddCheckpoint(
    oldSize: nat, path: seq<Hash>, origin: string, keyId: seq<byte>, signed: SignedTreeHead)

  /** The checks that `AddCheckpoint.FromASCII` makes on what it has parsed. */
  predicate WellFormedRequest(req: AddCheckpoint) {
    var size := req.signed.treeHead.size;
    && |req.path| <= PROOF_SIZE_LIMIT
    && req.oldSize <= size
    && (req.path == [] <==> req.oldSize == size || req.oldSize == 0)
  }

  const NewLogKeyId: (string, PublicKey) -> seq<byte>

  datatype Response =
    | Cosigned(treeHead: TreeHead, cosignature: Cosignature)
    | BadRequest | NotFound | Forbidden | UnprocessableEntity | InternalError
    | Conflict(oldSize: nat)

  /** What happens to the file when the witness stores a new tree head: the file is replaced; or an
      error is reported, normally without, but possibly after replacing it; or the process dies
      before or after replacing it, and nobody gets an answer. */
  datatype Commit = Succeeds | Fails(replaced: bool) | Dies(replaced: bool)

  // ---------- The state machine ----------

  datatype Keys = Keys(pub: PublicKey, logPub: PublicKey) {
    function KeyHash(): Hash { HashBytes(pub.bytes) }
    function Origin(): string { SigsumCheckpointOrigin(logPub) }
  }

  datatype Durable = Durable(running: bool, th: TreeHead, file: Option<CosignedTreeHead>)

  const FRESH_INSTALL := Durable(false, EMPTY_TREE_HEAD, None)

  function ZeroCosignature(): Cosignature {
    Cosignature(0, Signature(seq(64, _ => 0)))
  }

  /** `state.Load`: the tree head to continue from, or None when the witness refuses to start.  A file
      without a cosignature of this witness is not rejected as such; its all-zero cosignature then
      has to verify. */
  function Load(keys: Keys, file: Option<CosignedTreeHead>): Option<TreeHead> {
    match file
    case None => Some(EMPTY_TREE_HEAD)
    case Some(cth) =>
      if !cth.signed.VerifiedBy(keys.logPub) then None
      else
        var cs := if keys.KeyHash() in cth.cosignatures then cth.cosignatures[keys.KeyHash()] else ZeroCosignature();
        if !cs.VerifiedBy(keys.pub, keys.Origin(), cth.signed.treeHead) then None
        else Some(cth.signed.treeHead)
  }

  /** A file without a cosignature of this witness is loaded if and only if the log signature and the
      all-zero cosignature verify. */
  lemma {:induction false} LoadWithoutCosignature(keys: Keys, cth: CosignedTreeHead)
    requires keys.KeyHash() !in cth.cosignatures
    ensures Load(keys, Some(cth)).Some? <==>
      && cth.signed.VerifiedBy(keys.logPub)
      && ZeroCosignature().VerifiedBy(keys.pub, keys.Origin(), cth.signed.treeHead)
  {
  }

  datatype Event =
    | Start(openFails: bool)
    | Stop
    | Request(req: AddCheckpoint, cosign: Option<Cosignature>, commit: Commit)

  /** The refusals that come before anything is signed. */
  function Refusal(keys: Keys, th: TreeHead, req: AddCheckpoint): Option<Response> {
    if !WellFormedRequest(req) then Some(BadRequest)
    else if req.origin != keys.Origin() then Some(NotFound)
    else if req.keyId != NewLogKeyId(req.origin, keys.logPub) || !req.signed.VerifiedBy(keys.logPub)
    then Some(Forbidden)
    else if th.size != req.oldSize then Some(Conflict(th.size))
    else if ConsistentWith(req.path, th, req.signed.treeHead) != Ok then Some(UnprocessableEntity)
    else None
  }

  function Step(keys: Keys, s: Durable, e: Event): (Durable, Option<Response>) {
    match e
    case Start(openFails) =>
      var loaded := if openFails then None else Load(keys, s.file);
      (if loaded.Some? then s.(running := true, th := loaded.value) else s.(running := false), None)
    case Stop => (s.(running := false), None)
    case Request(req, cosign, commit) =>
      if !s.running then (s, None)
      else
        var refusal := Refusal(keys, s.th, req);
        if refusal.Some? then (s, refusal)
        else if cosign.None? then (s, Some(InternalError))
        else
          var stored := s.(file := Some(CosignedTreeHead(req.signed, map[keys.KeyHash() := cosign.value])));
          match commit
          case Succeeds => (stored.(th := req.signed.treeHead), Some(Cosigned(req.signed.treeHead, cosign.value)))
          case Fails(replaced) => (if replaced then stored else s, Some(InternalError))
          case Dies(replaced) => ((if replaced then stored else s).(running := false), None)
  }

  /** The state after a run. */
  function Run(keys: Keys, s: Durable, events: seq<Event>): Durable
    decreases |events|
  {
    if events == [] then s else Run(keys, Step(keys, s, events[0]).0, events[1..])
  }

  // ---------- The program ----------

  class State {
    const keys: Keys
    var running: bool
    var th: TreeHead
    var file: Option<CosignedTreeHead>

    function Abs(): Durable
      reads this
    {
      Durable(running, th, file)
    }

    constructor (keys: Keys, file: Option<CosignedTreeHead>)
      ensures this.keys == keys && Abs() == Durable(false, EMPTY_TREE_HEAD, file)
    {
      this.keys, this.running, this.th, this.file := keys, false, EMPTY_TREE_HEAD, file;
    }

    method LoadFile(openFails: bool)
      modifies this
      ensures Abs() == Step(keys, old(Abs()), Start(openFails)).0
      ensures file == old(file) && (openFails ==> !running)
      ensures !openFails && file == None ==> running && th == EMPTY_TREE_HEAD
      ensures !openFails && file.Some? ==>
        var cth, h := file.value, HashBytes(keys.pub.bytes);
        var cs := if h in cth.cosignatures then cth.cosignatures[h] else ZeroCosignature();
        var origin := SigsumCheckpointOrigin(keys.logPub);
        && (running <==>
              && VerifySignature(keys.logPub, FormatCheckpoint(origin, cth.signed.treeHead), cth.signed.signature)
              && VerifySignature(keys.pub, ToCosignedData(origin, cs.timestamp, cth.signed.treeHead), cs.signature))
        && (running ==> th == cth.signed.treeHead)
    {
      running := false;
      if openFails {
        return;
      }
      if file == None {
        th, running := EMPTY_TREE_HEAD, true;
        return;
      }
      var cth := file.value;
      if !cth.signed.VerifiedBy(keys.logPub) {
        return;
      }
      var cs := ZeroCosignature();
      if keys.KeyHash() in cth.cosignatures {
        cs := cth.cosignatures[keys.KeyHash()];
      }
      if !cs.VerifiedBy(keys.pub, keys.Origin(), cth.signed.treeHead) {
        return;
      }
      th, running := cth.signed.treeHead, true;
    }

    /** `state.Store`; None when the process died. */
    method Store(cth: CosignedTreeHead, commit: Commit) returns (ok: Option<bool>)
      modifies this`file, this`running
      ensures cth.signed.treeHead.size < th.size ==> ok == Some(false) && Abs() == old(Abs())
      ensures cth.signed.treeHead.size >= th.size ==>
        && ok == (if commit.Dies? then None else Some(commit.Succeeds?))
        && running == (old(running) && !commit.Dies?)
        && file == if commit.Succeeds? || commit.replaced then Some(cth) else old(file)
    {
      if cth.signed.treeHead.size < th.size {
        return Some(false);
      }
      if commit.Succeeds? || commit.replaced {
        file := Some(cth);
      }
      if commit.Dies? {
        running := false;
        return None;
      }
      return Some(commit.Succeeds?);
    }

    /** The request handler of `pkg/server/witness.go`. */
    method Serve(req: AddCheckpoint, cosign: Option<Cosignature>, commit: Commit) returns (response: Option<Response>)
      requires running
      modifies this
      ensures (Abs(), response) == Step(keys, old(Abs()), Request(req, cosign, commit))
    {
      if !WellFormedRequest(req) {
        return Some(BadRequest);
      }
      response := Update(req, cosign, commit);
    }

    /** `witness.AddCheckpoint` and `state.Update`, called with what `FromASCII` has accepted. */
    method Update(req: AddCheckpoint, cosign: Option<Cosignature>, commit: Commit) returns (response: Option<Response>)
      requires running && WellFormedRequest(req)
      modifies this
      ensures (Abs(), response) == Step(keys, old(Abs()), Request(req, cosign, commit))
    {
      if req.origin != keys.Origin() {
        return Some(NotFound);
      }
      if req.keyId != NewLogKeyId(req.origin, keys.logPub) || !req.signed.VerifiedBy(keys.logPub) {
        return Some(Forbidden);
      }
      if th.size != req.oldSize {
        return Some(Conflict(th.size));
      }
      var newHead := req.signed.treeHead;
      var verdict := VerifyConsistency(th.size, newHead.size, th.rootHash, newHead.rootHash, req.path);
      if verdict != Ok {
        return Some(UnprocessableEntity);
      }
      if cosign == None {
        return Some(InternalError);
      }
      var ok := Store(CosignedTreeHead(req.signed, map[keys.KeyHash() := cosign.value]), commit);
      if ok == None {
        return None;
      }
      if !ok.value {
        return Some(InternalError);
      }
      th := newHead;
      return Some(Cosigned(newHead, cosign.value));
    }
  }

  // ---------- Whole runs ----------

  function CosignedBy(r: Option<Response>): seq<TreeHead> {
    if r.Some? && r.value.Cosigned? then [r.value.treeHead] else []
  }

  /** The tree heads of which a run hands out the cosignature, in order. */
  function CosignedHeads(keys: Keys, s: Durable, events: seq<Event>): seq<TreeHead>
    decreases |events|
  {
    if events == [] then []
    else
      var (s', r) := Step(keys, s, events[0]);
      CosignedBy(r) + CosignedHeads(keys, s', events[1..])
  }

  /** The updates behind the tree head in memory and behind the one in the file, which can differ
      after a failure. */
  datatype Lineage = Lineage(memory: Chain, stored: Chain)

  function Advance(keys: Keys, s: Durable, l: Lineage, e: Event): Lineage {
    match e
    case Start(openFails) => l.(memory := l.stored)
    case Stop => l
    case Request(req, cosign, commit) =>
      if !s.running || Refusal(keys, s.th, req).Some? || cosign.None? then l
      else
        var link := Link(l.memory, req.signed.treeHead, req.path);
        if commit.Succeeds? then Lineage(link, link)
        else if commit.replaced then l.(stored := link)
        else l
  }

  /** The updates behind each cosigned tree head of a run, at the time when it was handed out. */
  function History(keys: Keys, s: Durable, l: Lineage, events: seq<Event>): seq<Chain>
    decreases |events|
  {
    if events == [] then []
    else
      var (s', r) := Step(keys, s, events[0]);
      var l' := Advance(keys, s, l, events[0]);
      (if CosignedBy(r) != [] then [l'.memory] else []) + History(keys, s', l', events[1..])
  }

  /** Everything that was cosigned is behind the file, and behind the memory while the witness runs. */
  predicate Inv(s: Durable, l: Lineage, cosigned: seq<TreeHead>) {
    && ValidChain(l.stored)
    && (if s.file.None? then l.stored == Genesis(EMPTY_TREE_HEAD) else Head(l.stored) == s.file.value.signed.treeHead)
    && (forall h :: h in cosigned ==> OnChain(h, l.stored))
    && (s.running ==>
        && ValidChain(l.memory) && Head(l.memory) == s.th
        && forall h :: h in cosigned ==> OnChain(h, l.memory))
  }

  lemma {:induction false} StepKeepsInv(keys: Keys, s: Durable, l: Lineage, cosigned: seq<TreeHead>, e: Event)
    requires Inv(s, l, cosigned)
    ensures var (s', r) := Step(keys, s, e);
      var l' := Advance(keys, s, l, e);
      && Inv(s', l', cosigned + CosignedBy(r))
      && (CosignedBy(r) != [] ==>
            && ValidChain(l'.memory) && CosignedBy(r) == [Head(l'.memory)]
            && forall h :: h in cosigned ==> OnChain(h, l'.memory))
  {
    hide ConsistencyVerdict;
  }

  /** Each head ends a chain of accepted updates that goes through all heads before it. */
  predicate Behind(before: seq<TreeHead>, heads: seq<TreeHead>, chains: seq<Chain>)
    decreases |heads|
  {
    && |chains| == |heads|
    && (heads != [] ==>
          && ValidChain(chains[0]) && Head(chains[0]) == heads[0]
          && (forall h :: h in before ==> OnChain(h, chains[0]))
          && Behind(before + [heads[0]], heads[1..], chains[1..]))
  }

  lemma {:induction false} BehindAt(before: seq<TreeHead>, heads: seq<TreeHead>, chains: seq<Chain>, h: TreeHead,
                                    j: nat)
    requires Behind(before, heads, chains) && j < |heads| && (h in before || h in heads[..j + 1])
    ensures |chains| == |heads| && ValidChain(chains[j]) && Head(chains[j]) == heads[j] && OnChain(h, chains[j])
    decreases |heads|
  {
    hide ValidChain;
    if j > 0 {
      assert h in heads[..j + 1] ==> h == heads[0] || h in heads[1..][..j];
      BehindAt(before + [heads[0]], heads[1..], chains[1..], h, j - 1);
    }
  }

  lemma {:induction false} BehindCons(before: seq<TreeHead>, c: Chain, heads: seq<TreeHead>, chains: seq<Chain>)
    requires Behind(before + [Head(c)], heads, chains)
    requires ValidChain(c) && forall h :: h in before ==> OnChain(h, c)
    ensures Behind(before, [Head(c)] + heads, [c] + chains)
  {
    hide ValidChain;
    assert ([Head(c)] + heads)[1..] == heads && ([c] + chains)[1..] == chains;
  }

  lemma {:induction false} BehindNothing(before: seq<TreeHead>)
    ensures Behind(before, [], [])
  {
  }

  /** Over every run, from every state that satisfies the invariant. */
  lemma {:induction false} RunKeepsInv(keys: Keys, s: Durable, l: Lineage, before: seq<TreeHead>, events: seq<Event>)
    returns (l': Lineage)
    requires Inv(s, l, before)
    ensures Inv(Run(keys, s, events), l', before + CosignedHeads(keys, s, events))
    ensures Behind(before, CosignedHeads(keys, s, events), History(keys, s, l, events))
    decreases |events|
  {
    hide Step, Advance, Inv, Behind, ValidChain, OnChain;
    if events == [] {
      BehindNothing(before);
      assert CosignedHeads(keys, s, events) == [] && History(keys, s, l, events) == [];
      assert before + [] == before;
      return l;
    }
    var (s', r) := Step(keys, s, events[0]);
    var l1 := Advance(keys, s, l, events[0]);
    StepKeepsInv(keys, s, l, before, events[0]);
    l' := RunKeepsInv(keys, s', l1, before + CosignedBy(r), events[1..]);
    var heads := CosignedHeads(keys, s', events[1..]);
    assert before + CosignedBy(r) + heads == before + CosignedHeads(keys, s, events);
    if CosignedBy(r) == [] {
      assert before + CosignedBy(r) == before;
      assert CosignedHeads(keys, s, events) == heads;
      assert History(keys, s, l, events) == History(keys, s', l1, events[1..]);
    } else {
      BehindCons(before, l1.memory, heads, History(keys, s', l1, events[1..]));
    }
  }

  const NOTHING := Lineage(Genesis(EMPTY_TREE_HEAD), Genesis(EMPTY_TREE_HEAD))

  lemma {:induction false} RunFromInstall(keys: Keys, events: seq<Event>) returns (l: Lineage)
    ensures Inv(Run(keys, FRESH_INSTALL, events), l, CosignedHeads(keys, FRESH_INSTALL, events))
    ensures Behind([], CosignedHeads(keys, FRESH_INSTALL, events), History(keys, FRESH_INSTALL, NOTHING, events))
  {
    hide Run, CosignedHeads, History;
    l := RunKeepsInv(keys, FRESH_INSTALL, NOTHING, [], events);
    assert [] + CosignedHeads(keys, FRESH_INSTALL, events) == CosignedHeads(keys, FRESH_INSTALL, events);
  }

  lemma {:induction false} CosignedAt(keys: Keys, events: seq<Event>, i: nat, j: nat)
    requires i <= j < |CosignedHeads(keys, FRESH_INSTALL, events)|
    ensures
      var heads := CosignedHeads(keys, FRESH_INSTALL, events);
      var chains := History(keys, FRESH_INSTALL, NOTHING, events);
      && |chains| == |heads|
      && ValidChain(chains[j]) && Head(chains[j]) == heads[j] && OnChain(heads[i], chains[j])
  {
    hide CosignedHeads, History, Behind, ValidChain;
    var l := RunFromInstall(keys, events);
    var heads := CosignedHeads(keys, FRESH_INSTALL, events);
    assert heads[i] == heads[..j + 1][i];
    BehindAt([], heads, History(keys, FRESH_INSTALL, NOTHING, events), heads[i], j);
  }

  /** Whatever the hash function: cosigned tree heads never shrink, and no size is cosigned with two
      root hashes, over every sequence of requests, failures, crashes and restarts. */
  lemma {:induction false} CosignedHeadsNeverShrink(keys: Keys, events: seq<Event>, i: nat, j: nat)
    requires i <= j < |CosignedHeads(keys, FRESH_INSTALL, events)|
    ensures var heads := CosignedHeads(keys, FRESH_INSTALL, events);
      heads[i].size <= heads[j].size && (heads[i].size == heads[j].size ==> heads[i] == heads[j])
  {
    hide CosignedHeads, History;
    CosignedAt(keys, events, i, j);
    ChainIsMonotone(History(keys, FRESH_INSTALL, NOTHING, events)[j], CosignedHeads(keys, FRESH_INSTALL, events)[i]);
  }

  /** If a cosigned head commits to the leaves d, every head cosigned before it commits to the first
      leaves of d. */
  function CosignedHeadsAreConsistent(keys: Keys, events: seq<Event>, d: seq<Hash>, i: nat, j: nat): (c: MaybeCollision)
    requires i <= j < |CosignedHeads(keys, FRESH_INSTALL, events)|
    requires Commits(CosignedHeads(keys, FRESH_INSTALL, events)[j], d)
    ensures var h := CosignedHeads(keys, FRESH_INSTALL, events)[i];
      h.size <= |d| && (c.None? ==> Commits(h, d[..h.size]))
  {
    hide CosignedHeads, History, MTH;
    CosignedAt(keys, events, i, j);
    ChainSound(History(keys, FRESH_INSTALL, NOTHING, events)[j], d, CosignedHeads(keys, FRESH_INSTALL, events)[i])
  }

  /** No split view: the leaves behind two cosigned heads extend each other. */
  function NoSplitView(keys: Keys, events: seq<Event>, i: nat, d: seq<Hash>, j: nat, d': seq<Hash>): (c: MaybeCollision)
    requires i <= j < |CosignedHeads(keys, FRESH_INSTALL, events)|
    requires Commits(CosignedHeads(keys, FRESH_INSTALL, events)[i], d)
    requires Commits(CosignedHeads(keys, FRESH_INSTALL, events)[j], d')
    ensures c.None? ==> d <= d'
  {
    hide CosignedHeads, MTH;
    var c := CosignedHeadsAreConsistent(keys, events, d', i, j);
    if c.Some? then c else TreeCollision(d, d'[..|d|])
  }

  /** After any run, a restart continues from a tree head that extends every cosigned one. */
  lemma {:induction false} RestartRemembers(keys: Keys, events: seq<Event>, h: TreeHead)
    requires h in CosignedHeads(keys, FRESH_INSTALL, events)
    ensures var s := Step(keys, Run(keys, FRESH_INSTALL, events), Start(false)).0;
      s.running ==> h.size <= s.th.size && (h.size == s.th.size ==> h == s.th)
  {
    hide CosignedHeads, History, Run;
    var l := RunFromInstall(keys, events);
    ChainIsMonotone(l.stored, h);
  }

  // ---------- The witness stays available ----------

  /** What the signer of the witness produces verifies with its public key. */
  predicate HonestSigner(keys: Keys, e: Event) {
    e.Request? && e.cosign.Some? ==> e.cosign.value.VerifiedBy(keys.pub, keys.Origin(), e.req.signed.treeHead)
  }

  lemma {:induction false} FileStaysLoadable(keys: Keys, s: Durable, events: seq<Event>)
    requires Load(keys, s.file).Some? && forall e :: e in events ==> HonestSigner(keys, e)
    ensures Load(keys, Run(keys, s, events).file).Some?
    decreases |events|
  {
    if events != [] {
      assert events[0] in events;
      StepKeepsLoadable(keys, s, events[0]);
      FileStaysLoadable(keys, Step(keys, s, events[0]).0, events[1..]);
    }
  }

  lemma {:induction false} StepKeepsLoadable(keys: Keys, s: Durable, e: Event)
    requires Load(keys, s.file).Some? && HonestSigner(keys, e)
    ensures Load(keys, Step(keys, s, e).0.file).Some?
  {
    hide ConsistencyVerdict;
  }

  /** The witness never stores a file that it refuses to start from. */
  lemma {:induction false} AlwaysRestarts(keys: Keys, events: seq<Event>)
    requires forall e :: e in events ==> HonestSigner(keys, e)
    ensures Step(keys, Run(keys, FRESH_INSTALL, events), Start(false)).0.running
  {
    FileStaysLoadable(keys, FRESH_INSTALL, events);
  }

  // ---------- An honest log ----------

  /** The request of a log with the leaves d for a cosignature on its current tree head, given the
      size that it believes the witness to be at. */
  function HonestRequest(keys: Keys, d: seq<Hash>, oldSize: nat, signature: Signature): AddCheckpoint
    requires oldSize <= |d|
  {
    AddCheckpoint(oldSize, Proof(oldSize, d), keys.Origin(), NewLogKeyId(keys.Origin(), keys.logPub),
                  SignedTreeHead(TreeHead(|d|, MTH(d)), signature))
  }

  lemma {:induction false} HonestRequestIsWellFormed(keys: Keys, d: seq<Hash>, oldSize: nat, signature: Signature)
    requires oldSize <= |d| <= Pow2(62)
    ensures WellFormedRequest(HonestRequest(keys, d, oldSize, signature))
  {
    hide MTH, ConsistencyLength, Pow2;
    if 0 < oldSize < |d| {
      ProofHasConsistencyLength(oldSize, d);
      ConsistencyProofFits(oldSize, |d|);
    }
  }

  /** The request of an honest log is refused only when the old size is wrong. */
  lemma {:induction false} HonestRefusal(keys: Keys, th: TreeHead, d: seq<Hash>, oldSize: nat, signature: Signature)
    requires th.size <= |d| <= Pow2(62) && Commits(th, d[..th.size]) && oldSize <= |d|
    requires SignedTreeHead(TreeHead(|d|, MTH(d)), signature).VerifiedBy(keys.logPub)
    ensures Refusal(keys, th, HonestRequest(keys, d, oldSize, signature))
         == if oldSize == th.size then None else Some(Conflict(th.size))
  {
    hide MTH, ConsistencyVerdict, Pow2, Proof, WellFormedRequest;
    HonestRequestIsWellFormed(keys, d, oldSize, signature);
    ConsistencyComplete(d, th.size);
    WellFormedSizes(HonestRequest(keys, d, oldSize, signature));
  }

  /** A log whose leaves extend the tree of a running witness is refused at most once: with the wrong old
      size it is told the right one and nothing changes, and with the right old size, when signing and
      storing work, its new tree head is cosigned and stored. */
  lemma {:induction false} HonestLogIsCosigned(keys: Keys, s: Durable, d: seq<Hash>, oldSize: nat,
                                               signature: Signature, cosignature: Cosignature)
    requires s.running && s.th.size <= |d| <= Pow2(62) && Commits(s.th, d[..s.th.size]) && oldSize <= |d|
    requires SignedTreeHead(TreeHead(|d|, MTH(d)), signature).VerifiedBy(keys.logPub)
    ensures oldSize != s.th.size ==>
      Step(keys, s, Request(HonestRequest(keys, d, oldSize, signature), Some(cosignature), Succeeds))
      == (s, Some(Conflict(s.th.size)))
    ensures
      var head := TreeHead(|d|, MTH(d));
      var stored := CosignedTreeHead(SignedTreeHead(head, signature), map[keys.KeyHash() := cosignature]);
      Step(keys, s, Request(HonestRequest(keys, d, s.th.size, signature), Some(cosignature), Succeeds))
      == (Durable(true, head, Some(stored)), Some(Cosigned(head, cosignature)))
  {
    hide MTH, Refusal, Pow2, Proof;
    HonestRefusal(keys, s.th, d, oldSize, signature);
    HonestRefusal(keys, s.th, d, s.th.size, signature);
  }

  lemma {:induction false} WellFormedSizes(req: AddCheckpoint)
    requires WellFormedRequest(req)
    ensures req.oldSize <= req.signed.treeHead.size
  {
  }
}
