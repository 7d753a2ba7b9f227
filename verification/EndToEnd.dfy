/** What the programs promise together: a signature that a verifier accepts is one that a monitor sees,
    when one witness has cosigned the tree heads of both. */
module EndToEnd {
  import opened Crypto
  import opened Merkle
  import opened MerkleProofs = Verify
  import opened Types
  import opened Chains
  import opened Policies
  import opened ProofText
  import opened ProofVerify
  import opened GetLeaves
  import opened MonitorProofs
  import Witness
  import Monitor

  /** A verifier has accepted the proof, and the witness cosigned its tree head as number i. */
  ghost predicate AcceptedByVerifier(sp: SigsumProof, msg: Hash, submitKeys: map<Hash, PublicKey>, policy: Policy,
                                     cosigned: seq<TreeHead>, i: nat)
  {
    Accepts(sp, msg, submitKeys, policy) && i < |cosigned| && cosigned[i] == sp.treeHead.signed.treeHead
  }

  /** A run of the monitor, from a chain of checked heads, in which all leaves are checked. */
  datatype MonitorRun = MonitorRun(logKey: PublicKey, start: Monitor.State, chain: Chain, events: seq<Monitor.Event>) {
    predicate Valid() {
      && Sane(start) && ValidChain(chain) && Head(chain) == start.th
      && AllChecked(logKey, start, events)
    }

    function End(): Monitor.State {
      Monitor.Run(logKey, start, events).0
    }

    /** What is passed on to the application. */
    function Callbacks(): seq<Monitor.Callback> {
      Monitor.Run(logKey, start, events).1
    }

    /** The run starts at or before the index, and ends behind it. */
    predicate Passes(index: nat) {
      start.next <= index < End().next
    }
  }

  predicate IsLeafAt(leafHash: Hash, index: nat, d: seq<Hash>) {
    index < |d| && d[index] == leafHash
  }

  /** The leaves passed on include this one, at this index, and it is reported to those who follow the keys. */
  predicate Reports(cb: Monitor.Callback, index: nat, leaf: Leaf, submitKeys: map<Hash, PublicKey>) {
    && cb.NewLeaves? && cb.start <= index < cb.start + |cb.leaves| && cb.leaves[index - cb.start] == leaf
    && index in Filtered(Some(submitKeys), cb.leaves, cb.start).0
    && leaf in Filtered(Some(submitKeys), cb.leaves, cb.start).1
  }

  ghost predicate Sees(monitor: MonitorRun, sp: SigsumProof, msg: Hash, submitKeys: map<Hash, PublicKey>) {
    exists cb :: cb in monitor.Callbacks() && Reports(cb, sp.inclusion.leafIndex, LeafFor(sp, msg), submitKeys)
  }

  /** If the last head of the monitor was cosigned by the witness, not before the head of the accepted
      proof, and commits to d, then the leaf hash in the accepted proof is the one in d. */
  function AcceptedIsCommitted(keys: Witness.Keys, events: seq<Witness.Event>, i: nat, j: nat, d: seq<Hash>,
                               sp: SigsumProof, msg: Hash, submitKeys: map<Hash, PublicKey>,
                               policy: Policy): (c: MaybeCollision)
    requires var cosigned := Witness.CosignedHeads(keys, Witness.FRESH_INSTALL, events);
      && i <= j < |cosigned| && AcceptedByVerifier(sp, msg, submitKeys, policy, cosigned, i)
      && Commits(cosigned[j], d)
    ensures c.None? ==> IsLeafAt(LeafFor(sp, msg).ToHash(), sp.inclusion.leafIndex, d)
  {
    hide Witness.CosignedHeads, Merkle.MTH, AcceptsTreeHead, SubmitterSigned, MerkleProofs.RootFromPath,
         MerkleProofs.PathSteps;
    var head := sp.treeHead.signed.treeHead;
    var c := Witness.CosignedHeadsAreConsistent(keys, events, d, i, j);
    if c.Some? then c
    else InclusionSound(d[..head.size], LeafFor(sp, msg).ToHash(), sp.inclusion.leafIndex, sp.inclusion.path)
  }

  /** The batch that a run passes on with the leaf for an index. */
  function BatchFor(monitor: MonitorRun, index: nat): (cb: Monitor.Callback)
    requires monitor.Valid() && monitor.Passes(index)
    ensures cb in monitor.Callbacks() && cb.NewLeaves? && cb.start <= index < cb.start + |cb.leaves|
  {
    hide Covers, Monitor.Run, StateAt, ValidChain;
    var k := EventFor(monitor.logKey, monitor.start, monitor.events, index);
    var s := StateAt(monitor.logKey, monitor.start, monitor.events, k);
    CoveringBatch(s, monitor.events[k], index);
    ProcessedIsPassedOn(monitor.logKey, monitor.start, monitor.events, k);
    Monitor.NewLeaves(s.next, monitor.events[k].r.leaves.value)
  }

  predicate IsLeafOf(cb: Monitor.Callback, index: nat, leaf: Leaf) {
    cb.NewLeaves? && cb.start <= index < cb.start + |cb.leaves| && cb.leaves[index - cb.start] == leaf
  }

  lemma {:induction false} CoveringBatch(s: Monitor.State, e: Monitor.Event, index: nat)
    requires Covers(s, e, index)
    ensures Processes(s, e) && e.Batch? && e.r.leaves.Some? && s.next <= index < s.next + |e.r.leaves.value|
  {
    hide Outcome;
  }

  lemma {:induction false} SameLeafHash(x: Hash, y: Hash, index: nat, d: seq<Hash>)
    requires IsLeafAt(x, index, d) && IsLeafAt(y, index, d)
    ensures x == y
  {
  }

  lemma {:induction false} AtIndex(leaves: seq<Leaf>, next: nat, d: seq<Hash>, index: nat)
    requires IsRangeOf(LeafHashes(leaves), next, d) && next <= index < next + |leaves|
    ensures IsLeafAt(leaves[index - next].ToHash(), index, d)
  {
    assert LeafHashes(leaves)[index - next] == d[next..next + |leaves|][index - next];
  }

  /** If the last head of the monitor commits to d, the batch is the range of d at its index. */
  function BatchIsCommitted(monitor: MonitorRun, index: nat, d: seq<Hash>): (c: MaybeCollision)
    requires monitor.Valid() && monitor.Passes(index) && Commits(monitor.End().th, d)
    ensures c.None? ==> IsRangeOf(LeafHashes(BatchFor(monitor, index).leaves), BatchFor(monitor, index).start, d)
  {
    hide Commits, Covers, Sane, ValidChain, AllChecked, Monitor.Run, StateAt, IsRangeOf, LeafHashes;
    var k := EventFor(monitor.logKey, monitor.start, monitor.events, index);
    CoveringBatch(StateAt(monitor.logKey, monitor.start, monitor.events, k), monitor.events[k], index);
    AllCheckedAt(monitor.logKey, monitor.start, monitor.events, k);
    ProcessedLeavesAreLogged(monitor.logKey, monitor.start, monitor.chain, monitor.events, k, d)
  }

  /** Two leaves with the hash that d has at the index are one leaf. */
  function SameLeaf(cb: Monitor.Callback, index: nat, leaf: Leaf, d: seq<Hash>): (c: MaybeCollision)
    requires cb.NewLeaves? && cb.start <= index < cb.start + |cb.leaves|
    requires IsRangeOf(LeafHashes(cb.leaves), cb.start, d) && IsLeafAt(leaf.ToHash(), index, d)
    ensures c.None? ==> IsLeafOf(cb, index, leaf)
  {
    hide IsRangeOf, LeafHashes, IsLeafAt;
    AtIndex(cb.leaves, cb.start, d, index);
    SameLeafHash(cb.leaves[index - cb.start].ToHash(), leaf.ToHash(), index, d);
    LeafCollision(cb.leaves[index - cb.start], leaf)
  }

  lemma {:induction false} AcceptedIsOfInterest(sp: SigsumProof, msg: Hash, submitKeys: map<Hash, PublicKey>,
                                                policy: Policy)
    requires Accepts(sp, msg, submitKeys, policy)
    ensures OfInterest(Some(submitKeys), LeafFor(sp, msg))
    ensures sp.leaf.keyHash in submitKeys
            && HashBytes(submitKeys[sp.leaf.keyHash].bytes) == sp.leaf.keyHash
            && VerifySignature(submitKeys[sp.leaf.keyHash], LeafSignedData(HashBytes(msg.bytes)), sp.leaf.signature)
  {
    hide AcceptsTreeHead, Included;
  }

  lemma {:induction false} InterestIsReported(cb: Monitor.Callback, index: nat, leaf: Leaf,
                                              submitKeys: map<Hash, PublicKey>)
    requires IsLeafOf(cb, index, leaf) && OfInterest(Some(submitKeys), leaf)
    ensures Reports(cb, index, leaf, submitKeys)
  {
    hide Filtered, OfInterest;
    FilteredExactly(Some(submitKeys), cb.leaves, cb.start);
    var (indices, matched) := Filtered(Some(submitKeys), cb.leaves, cb.start);
    assert OfInterest(Some(submitKeys), cb.leaves[index - cb.start]) && index in indices;
    var j :| 0 <= j < |indices| && indices[j] == index;
    assert matched[j] == leaf;
  }

  lemma {:induction false} ReportedIsSeen(monitor: MonitorRun, cb: Monitor.Callback, sp: SigsumProof, msg: Hash,
                                          submitKeys: map<Hash, PublicKey>)
    requires cb in monitor.Callbacks() && Reports(cb, sp.inclusion.leafIndex, LeafFor(sp, msg), submitKeys)
    ensures Sees(monitor, sp, msg, submitKeys)
  {
    hide MonitorRun.Callbacks, Reports, LeafFor;
  }

  function Later(i: nat, j: nat): nat {
    if i <= j then j else i
  }

  /** If d is what the later one of two cosigned heads commits to, and the monitor ends with the other one
      or with that one, the batch it passed on is the range of d at its index. */
  function BatchIsInTree(keys: Witness.Keys, events: seq<Witness.Event>, j: nat, m: nat, d: seq<Hash>,
                         monitor: MonitorRun, index: nat): (c: MaybeCollision)
    requires var cosigned := Witness.CosignedHeads(keys, Witness.FRESH_INSTALL, events);
      j <= m < |cosigned| && Commits(cosigned[m], d) && monitor.End().th == cosigned[j]
    requires monitor.Valid() && monitor.Passes(index)
    ensures c.None? ==> IsRangeOf(LeafHashes(BatchFor(monitor, index).leaves), BatchFor(monitor, index).start, d)
  {
    hide Witness.CosignedHeads, Commits, MonitorRun.Valid, MonitorRun.Passes, MonitorRun.End, BatchFor, IsRangeOf,
         LeafHashes;
    var c := Witness.CosignedHeadsAreConsistent(keys, events, d, j, m);
    if c.Some? then c
    else
      var size := monitor.End().th.size;
      var cb := BatchFor(monitor, index);
      RangeOfPrefix(LeafHashes(cb.leaves), cb.start, d, size);
      BatchIsCommitted(monitor, index, d[..size])
  }

  /** What a verifier accepts, a monitor sees, or two colliding byte strings are returned: a monitor that
      passes the index of the proof, and whose last head was cosigned by the same witness as the head of
      the proof, before or after it, passes on the very leaf of the proof and reports it. */
  function AcceptedIsSeen(keys: Witness.Keys, events: seq<Witness.Event>, i: nat, j: nat, d: seq<Hash>,
                          sp: SigsumProof, msg: Hash, submitKeys: map<Hash, PublicKey>, policy: Policy,
                          monitor: MonitorRun): (c: MaybeCollision)
    requires var cosigned := Witness.CosignedHeads(keys, Witness.FRESH_INSTALL, events);
      && i < |cosigned| && j < |cosigned| && AcceptedByVerifier(sp, msg, submitKeys, policy, cosigned, i)
      && Commits(cosigned[Later(i, j)], d) && monitor.End().th == cosigned[j]
    requires monitor.Valid() && monitor.Passes(sp.inclusion.leafIndex)
    ensures c.None? ==> Sees(monitor, sp, msg, submitKeys)
  {
    hide Witness.CosignedHeads, Commits, Accepts, MonitorRun.Valid, MonitorRun.Passes, MonitorRun.End,
         MonitorRun.Callbacks, OfInterest, LeafFor, BatchFor, IsRangeOf, IsLeafAt, IsLeafOf, LeafHashes, Sees, Reports;
    var index, m := sp.inclusion.leafIndex, Later(i, j);
    AcceptedIsOfInterest(sp, msg, submitKeys, policy);
    var c1 := BatchIsInTree(keys, events, j, m, d, monitor, index);
    if c1.Some? then c1
    else
      var c2 := AcceptedIsCommitted(keys, events, i, m, d, sp, msg, submitKeys, policy);
      if c2.Some? then c2
      else
        var cb := BatchFor(monitor, index);
        var c3 := SameLeaf(cb, index, LeafFor(sp, msg), d);
        if c3.None? then
          InterestIsReported(cb, index, LeafFor(sp, msg), submitKeys);
          ReportedIsSeen(monitor, cb, sp, msg, submitKeys);
          c3
        else c3
  }
}
