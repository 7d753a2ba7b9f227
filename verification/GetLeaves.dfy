/** `getLeaves` of `pkg/monitor/client.go`: one batch of leaves, checked against a tree head with
    the help of what was cached for the batch before it. */
module GetLeaves {
  import opened Crypto
  import opened Bits
  import opened Merkle
  import opened Verify
  import opened Batch
  import opened BatchProofs
  import opened Tail
  import opened Types
  import opened Client

  /** The last leaf hash of the previous batch and its inclusion proof. */
  datatype Cache = Cache(leafHash: Hash, proof: InclusionProof)

  /** What the log answers to the requests that one call makes; None when a request fails. */
  datatype Replies = Replies(
    leaves: Option<seq<Leaf>>, startProof: Option<InclusionProof>, endProof: Option<InclusionProof>)

  /** What `LeavesFromASCII` returns when the reply holds the leaves raw.  The log client passes
      start - end for the maximum number of leaves, which wraps around. */
  function ParseLeaves(raw: seq<Leaf>, start: nat, end: nat): Option<seq<Leaf>>
    requires start < end < TWO_TO_THE_64
  {
    var maxCount := (start - end + TWO_TO_THE_64) % TWO_TO_THE_64;
    if |raw| == 0 || |raw| > maxCount then None else Some(raw)
  }

  /** The client gets no empty batch, but no reply of less than 2^63 leaves is too long for a request
      of at most 2^63. */
  lemma {:induction false} ParseLeavesHasNoLimit(raw: seq<Leaf>, start: nat, end: nat)
    requires start < end < TWO_TO_THE_64 && end - start <= Pow2(63) && |raw| < Pow2(63)
    ensures ParseLeaves(raw, start, end) == if raw == [] then None else Some(raw)
  {
    Pow2Of64();
    assert Pow2(64) == 2 * Pow2(63);
  }

  function LeafHashes(leaves: seq<Leaf>): (hs: seq<Hash>)
    ensures |hs| == |leaves|
    ensures forall i :: 0 <= i < |leaves| ==> hs[i] == leaves[i].ToHash()
  {
    if leaves == [] then [] else [leaves[0].ToHash()] + LeafHashes(leaves[1..])
  }

  /** The source panics on a cache that is not for the leaf before the requested ones. */
  predicate Adjacent(cache: Option<Cache>, next: nat) {
    cache.Some? ==> cache.value.proof.leafIndex + 1 == next
  }

  /** The range that is verified starts with the cached leaf, if there is one. */
  function Start(cache: Option<Cache>, next: nat): nat
    requires Adjacent(cache, next)
  {
    if cache.Some? then cache.value.proof.leafIndex else next
  }

  function Hashes(cache: Option<Cache>, leaves: seq<Leaf>): seq<Hash> {
    (if cache.Some? then [cache.value.leafHash] else []) + LeafHashes(leaves)
  }

  function StartProof(cache: Option<Cache>, r: Replies): InclusionProof
    requires cache.Some? || r.startProof.Some?
  {
    if cache.Some? then cache.value.proof else r.startProof.value
  }

  /** What a call returns when it succeeds: the leaves and the cache for the next call.  (For tree
      sizes up to 2^63 the verifiers do not panic.) */
  function Outcome(cache: Option<Cache>, th: TreeHead, next: nat, r: Replies): (o: Option<(seq<Leaf>, Option<Cache>)>)
    requires Adjacent(cache, next)
    ensures o.Some? ==> r.leaves == Some(o.value.0) && o.value.0 != []
  {
    if r.leaves.None? || |r.leaves.value| == 0 then None
    else
      var leaves, start := r.leaves.value, Start(cache, next);
      var end, hashes := next + |leaves|, Hashes(cache, leaves);
      if cache.None? && (r.startProof.None? || r.startProof.value.leafIndex != start) then None
      else
        var proof := StartProof(cache, r);
        if |leaves| == 1 then
          if proof.Verdict(hashes[0], th) == Ok then Some((leaves, Some(Cache(hashes[0], proof)))) else None
        else if end == th.size then
          if TailVerdict(hashes, start, th.rootHash, proof.path) == Ok then Some((leaves, None)) else None
        else if r.endProof.None? || r.endProof.value.leafIndex != end - 1 then None
        else if BatchVerdict(hashes, start, th.size, th.rootHash, proof.path, r.endProof.value.path) != Ok then None
        else Some((leaves, Some(Cache(hashes[|hashes| - 1], r.endProof.value))))
  }

  /** What a call does: it fails, returns leaves, or panics on a cache that is not for the next leaf.
      The request for leaves comes first, and when it fails the cache is not looked at. */
  datatype Fetch = FetchFails | FetchPanics | Fetched(leaves: seq<Leaf>, cache: Option<Cache>)

  predicate HasLeaves(r: Replies) {
    r.leaves.Some? && r.leaves.value != []
  }

  function FetchLeaves(cache: Option<Cache>, th: TreeHead, next: nat, r: Replies): Fetch {
    if !HasLeaves(r) then FetchFails
    else if !Adjacent(cache, next) then FetchPanics
    else
      match Outcome(cache, th, next, r)
      case None => FetchFails
      case Some((leaves, cache')) => Fetched(leaves, cache')
  }

  lemma {:induction false} NextHash(leaves: seq<Leaf>, i: nat)
    requires i < |leaves|
    ensures LeafHashes(leaves)[..i + 1] == LeafHashes(leaves)[..i] + [leaves[i].ToHash()]
  {
    var hashes := LeafHashes(leaves);
    assert hashes[i] == leaves[i].ToHash();
    hide LeafHashes;
    assert hashes[..i + 1] == hashes[..i] + [hashes[i]];
  }

  /** The loop of `getLeaves`. */
  method AppendHashes(cached: seq<Hash>, leaves: seq<Leaf>) returns (hashes: seq<Hash>)
    ensures hashes == cached + LeafHashes(leaves)
  {
    hide LeafHashes;
    hashes := cached;
    for i := 0 to |leaves|
      invariant hashes == cached + LeafHashes(leaves)[..i]
    {
      hashes := hashes + [leaves[i].ToHash()];
      NextHash(leaves, i);
    }
    assert LeafHashes(leaves)[..|leaves|] == LeafHashes(leaves);
  }

  method GetLeaves(cache: Option<Cache>, th: TreeHead, next: nat, r: Replies)
    returns (result: Fetch)
    // As everything that is parsed.
    requires th.size < Pow2(63) && next < Pow2(63) && (r.leaves.Some? ==> |r.leaves.value| < Pow2(63))
    ensures result == FetchLeaves(cache, th, next, r)
  {
    hide InclusionVerdict, BatchVerdict, TailVerdict, LeafHashes, Pow2;
    if r.leaves == None || |r.leaves.value| == 0 {
      return FetchFails;
    }
    var leaves := r.leaves.value;
    var start, end := next, next + |leaves|;
    var cached: seq<Hash>, proof := [], InclusionProof(0, []);
    if cache.Some? {
      if cache.value.proof.leafIndex + 1 != next {
        return FetchPanics;
      }
      start, proof := cache.value.proof.leafIndex, cache.value.proof;
      cached := [cache.value.leafHash];
    }
    var hashes := AppendHashes(cached, leaves);
    if cache == None {
      if r.startProof == None || r.startProof.value.leafIndex != start {
        return FetchFails;
      }
      proof := r.startProof.value;
    }

    if |leaves| == 1 {
      var verdict := VerifyInclusion(hashes[0], proof.leafIndex, th.size, th.rootHash, proof.path);
      return if verdict == Ok then Fetched(leaves, Some(Cache(hashes[0], proof))) else FetchFails;
    }
    HalfOfRange();
    if end == th.size {
      var verdict := VerifyInclusionTail(hashes, start, th.rootHash, proof.path);
      TailNeverPanicsBelowHalf(hashes, start, th.rootHash, proof.path);
      assert verdict != Panic;
      return if verdict == Ok then Fetched(leaves, None) else FetchFails;
    }
    if r.endProof == None || r.endProof.value.leafIndex != end - 1 {
      return FetchFails;
    }
    var verdict := VerifyInclusionBatch(hashes, start, th.size, th.rootHash, proof.path, r.endProof.value.path);
    BatchNeverPanicsBelowHalf(hashes, start, th.size, th.rootHash, proof.path, r.endProof.value.path);
    assert verdict != Panic;
    return if verdict == Ok then Fetched(leaves, Some(Cache(hashes[|hashes| - 1], r.endProof.value))) else FetchFails;
  }

  /** A call stays within the tree, even if the log returns more leaves than asked for. */
  lemma {:induction false} OutcomeWithinTree(cache: Option<Cache>, th: TreeHead, next: nat, r: Replies)
    requires Adjacent(cache, next) && next < th.size && Outcome(cache, th, next, r).Some?
    ensures var (leaves, cache') := Outcome(cache, th, next, r).value;
      |leaves| > 0 && next + |leaves| <= th.size
  {
    hide BatchVerdict, TailVerdict, InclusionVerdict;
    var leaves := r.leaves.value;
    if |leaves| > 1 && next + |leaves| != th.size {
      BatchNonEmpty(Hashes(cache, leaves), Start(cache, next), th.size, th.rootHash, StartProof(cache, r).path,
          r.endProof.value.path);
    }
  }

  lemma {:induction false} FetchedWithinTree(cache: Option<Cache>, th: TreeHead, next: nat, r: Replies)
    requires next < th.size && FetchLeaves(cache, th, next, r).Fetched?
    ensures var leaves := FetchLeaves(cache, th, next, r).leaves;
      |leaves| > 0 && next + |leaves| <= th.size
  {
    hide Outcome;
    OutcomeWithinTree(cache, th, next, r);
  }

  /** The call returns a batch of leaves. */
  predicate Succeeds(cache: Option<Cache>, th: TreeHead, next: nat, r: Replies) {
    Adjacent(cache, next) && Outcome(cache, th, next, r).Some? && r.leaves.Some?
  }

  /** Whether all leaves of a batch are checked: not so for a single leaf after a cached one. */
  predicate Checked(cache: Option<Cache>, leaves: seq<Leaf>) {
    cache.None? || |leaves| != 1
  }

  function EndPath(r: Replies): seq<Hash> {
    if r.endProof.Some? then r.endProof.value.path else []
  }

  /** One of the three verifiers has accepted the hashes. */
  predicate RangeVerified(hashes: seq<Hash>, start: nat, th: TreeHead, path: seq<Hash>, endPath: seq<Hash>) {
    && |hashes| > 0
    && if |hashes| == 1 then InclusionVerdict(hashes[0], start, th.size, th.rootHash, path) == Ok
       else if start + |hashes| == th.size then TailVerdict(hashes, start, th.rootHash, path) == Ok
       else BatchVerdict(hashes, start, th.size, th.rootHash, path, endPath) == Ok
  }

  function RangeSound(hashes: seq<Hash>, start: nat, th: TreeHead, path: seq<Hash>, endPath: seq<Hash>,
                      d: seq<Hash>): (c: MaybeCollision)
    requires RangeVerified(hashes, start, th, path, endPath) && Commits(th, d)
    ensures c.None? ==> IsRangeOf(hashes, start, d)
  {
    hide BatchVerdict, TailVerdict, MTH, RootFromPath, PathSteps;
    if |hashes| == 1 then InclusionSound(d, hashes[0], start, path)
    else if start + |hashes| == th.size then TailSound(d, hashes, start, path)
    else BatchSound(d, hashes, start, path, endPath)
  }

  /** Each leaf of a checked batch is the leaf at its place of the tree that the head commits to. */
  function OutcomeSound(cache: Option<Cache>, th: TreeHead, next: nat, r: Replies, d: seq<Hash>): (c: MaybeCollision)
    requires next < th.size && Commits(th, d)
    requires Succeeds(cache, th, next, r) && Checked(cache, r.leaves.value)
    ensures c.None? ==> IsRangeOf(LeafHashes(r.leaves.value), next, d)
  {
    hide *;
    assert Adjacent(cache, next) by { SucceedsAdjacent(cache, th, next, r); }
    VerdictBehind(cache, th, next, r);
    var hashes, start := Hashes(cache, r.leaves.value), Start(cache, next);
    var c := RangeSound(hashes, start, th, StartProof(cache, r).path, EndPath(r), d);
    if c.None? then DropCached(cache, r.leaves.value, next, d); c else c
  }

  lemma {:induction false} SucceedsAdjacent(cache: Option<Cache>, th: TreeHead, next: nat, r: Replies)
    requires Succeeds(cache, th, next, r)
    ensures Adjacent(cache, next)
  {
  }

  /** What was verified before a call succeeded. */
  lemma {:induction false} VerdictBehind(cache: Option<Cache>, th: TreeHead, next: nat, r: Replies)
    requires Succeeds(cache, th, next, r) && Checked(cache, r.leaves.value)
    ensures cache.Some? || r.startProof.Some?
    ensures RangeVerified(Hashes(cache, r.leaves.value), Start(cache, next), th, StartProof(cache, r).path, EndPath(r))
  {
    hide BatchVerdict, TailVerdict, InclusionVerdict, LeafHashes;
  }

  /** Without the cached hash, the hashes are those of the leaves. */
  lemma {:induction false} DropCached(cache: Option<Cache>, leaves: seq<Leaf>, next: nat, d: seq<Hash>)
    requires Adjacent(cache, next)
    requires IsRangeOf(Hashes(cache, leaves), Start(cache, next), d)
    ensures IsRangeOf(LeafHashes(leaves), next, d)
  {
    hide LeafHashes;
    var start, hashes := Start(cache, next), Hashes(cache, leaves);
    assert LeafHashes(leaves) == hashes[next - start..];
    assert d[start..start + |hashes|][next - start..] == d[next..next + |leaves|];
  }

  /** The cache that a call returns is for the next call exactly if the call was checked. */
  lemma {:induction false} CacheIsAdjacent(cache: Option<Cache>, th: TreeHead, next: nat, r: Replies)
    requires Adjacent(cache, next) && Outcome(cache, th, next, r).Some?
    ensures Adjacent(Outcome(cache, th, next, r).value.1, next + |r.leaves.value|) <==> Checked(cache, r.leaves.value)
  {
    hide BatchVerdict, TailVerdict, InclusionVerdict;
  }

  /** A single leaf after a cached one is accepted whatever it is: the proof that is verified is the
      cached one, of the leaf before it. */
  lemma {:induction false} SingleLeafIsUnchecked(cache: Option<Cache>, th: TreeHead, next: nat, r: Replies, leaf: Leaf)
    requires Succeeds(cache, th, next, r) && !Checked(cache, r.leaves.value)
    ensures Outcome(cache, th, next, r.(leaves := Some([leaf]))) == Some(([leaf], cache))
  {
    hide InclusionVerdict, BatchVerdict, TailVerdict;
  }

  /** The replies, with another leaf at one place. */
  function WithLeaf(r: Replies, p: nat, leaf: Leaf): Replies
    requires r.leaves.Some? && p < |r.leaves.value|
  {
    r.(leaves := Some(r.leaves.value[p := leaf]))
  }

  /** A batch is checked if and only if, of any two different leaves, at most one can be in any given
      place of it: exactly, or up to a collision that is returned. */
  function UncheckedExactly(cache: Option<Cache>, th: TreeHead, next: nat, r: Replies, p: nat, x: Leaf, y: Leaf,
                            d: seq<Hash>): (c: MaybeCollision)
    requires next < th.size && Commits(th, d) && x != y
    requires Succeeds(cache, th, next, r) && p < |r.leaves.value|
    ensures c.None? ==>
      (Checked(cache, r.leaves.value) <==>
        !(Succeeds(cache, th, next, WithLeaf(r, p, x)) && Succeeds(cache, th, next, WithLeaf(r, p, y))))
  {
    hide *;
    var rx, ry := WithLeaf(r, p, x), WithLeaf(r, p, y);
    WithLeafIsAt(r, p, x);
    WithLeafIsAt(r, p, y);
    SameLength(cache, r, p, x);
    SameLength(cache, r, p, y);
    if !Checked(cache, r.leaves.value) then
      UncheckedSucceeds(cache, th, next, r, p, x);
      UncheckedSucceeds(cache, th, next, r, p, y);
      None
    else if !Succeeds(cache, th, next, rx) || !Succeeds(cache, th, next, ry) then None
    else
      var c1 := OutcomeSound(cache, th, next, rx, d);
      if c1.Some? then c1
      else
        var c2 := OutcomeSound(cache, th, next, ry, d);
        if c2.Some? then c2
        else
          SameHash(rx.leaves.value, ry.leaves.value, next, d, p);
          LeafCollision(x, y)
  }

  lemma {:induction false} WithLeafIsAt(r: Replies, p: nat, leaf: Leaf)
    requires r.leaves.Some? && p < |r.leaves.value|
    ensures WithLeaf(r, p, leaf).leaves.Some? && |WithLeaf(r, p, leaf).leaves.value| == |r.leaves.value|
    ensures WithLeaf(r, p, leaf).leaves.value[p] == leaf
  {
  }

  lemma {:induction false} SameLength(cache: Option<Cache>, r: Replies, p: nat, leaf: Leaf)
    requires r.leaves.Some? && p < |r.leaves.value|
    ensures Checked(cache, WithLeaf(r, p, leaf).leaves.value) == Checked(cache, r.leaves.value)
  {
  }

  lemma {:induction false} UncheckedSucceeds(cache: Option<Cache>, th: TreeHead, next: nat, r: Replies, p: nat,
                                             leaf: Leaf)
    requires Succeeds(cache, th, next, r) && !Checked(cache, r.leaves.value) && p < |r.leaves.value|
    ensures Succeeds(cache, th, next, WithLeaf(r, p, leaf))
  {
    hide Outcome;
    SingleLeafIsUnchecked(cache, th, next, r, leaf);
    assert r.leaves.value[p := leaf] == [leaf];
  }

  lemma {:induction false} SameHash(xs: seq<Leaf>, ys: seq<Leaf>, next: nat, d: seq<Hash>, p: nat)
    requires IsRangeOf(LeafHashes(xs), next, d) && IsRangeOf(LeafHashes(ys), next, d) && p < |xs| == |ys|
    ensures xs[p].ToHash() == ys[p].ToHash()
  {
    assert LeafHashes(xs)[p] == LeafHashes(ys)[p];
  }

  // ---------- An honest log ----------

  /** What an honest batch that ends before next leaves in the cache, or nothing. */
  predicate HonestCache(d: seq<Hash>, next: nat, cache: Option<Cache>) {
    cache.Some? ==> 0 < next <= |d| && cache.value == Cache(d[next - 1], InclusionProof(next - 1, Path(next - 1, d)))
  }

  /** What the client makes of the RFC path. */
  function HonestProof(d: seq<Hash>, i: nat): Option<InclusionProof>
    requires i < |d|
  {
    var reply := GetInclusionProof(|d|, Found(InclusionProof(i, Path(i, d))));
    if reply.Found? then Some(reply.proof) else None
  }

  /** The leaves from next on, with the RFC paths of the first and the last of them. */
  function HonestReplies(d: seq<Hash>, next: nat, leaves: seq<Leaf>): Replies
    requires |leaves| > 0 && next + |leaves| <= |d|
  {
    Replies(Some(leaves), HonestProof(d, next), HonestProof(d, next + |leaves| - 1))
  }

  /** Every batch of an honest log is accepted, after nothing cached or after what an honest batch left;
      and what it leaves is honest, if it was checked. */
  lemma {:induction false} HonestBatchIsAccepted(d: seq<Hash>, next: nat, leaves: seq<Leaf>, cache: Option<Cache>)
    requires |leaves| > 0 && IsRangeOf(LeafHashes(leaves), next, d) && |d| < Pow2(63)
    requires HonestCache(d, next, cache)
    ensures Adjacent(cache, next)
    ensures var o := Outcome(cache, TreeHead(|d|, MTH(d)), next, HonestReplies(d, next, leaves));
      o.Some? && o.value.0 == leaves && (Checked(cache, leaves) ==> HonestCache(d, next + |leaves|, o.value.1))
  {
    hide InclusionVerdict, BatchVerdict, TailVerdict, MTH, Path, LeafHashes, Pow2, IsRangeOf, TopBitsDiffer;
    var start, end := Start(cache, next), next + |leaves|;
    HonestHashes(d, next, leaves, cache);
    SliceEnds(d, start, end);
    InclusionGetsThrough(d, next);
    InclusionGetsThrough(d, end - 1);
    InclusionComplete(d, start);
    HalfOfRange();
    BelowHalf(start, end - 1);
    BatchComplete(d, start, end - start);
    if end == |d| { TailComplete(d, start); }
  }

  lemma {:induction false} HonestHashes(d: seq<Hash>, next: nat, leaves: seq<Leaf>, cache: Option<Cache>)
    requires |leaves| > 0 && IsRangeOf(LeafHashes(leaves), next, d) && HonestCache(d, next, cache)
    ensures next + |leaves| <= |d| && Adjacent(cache, next)
    ensures Start(cache, next) < next + |leaves|
    ensures Hashes(cache, leaves) == d[Start(cache, next)..next + |leaves|]
  {
    hide LeafHashes, Path;
    var end := next + |leaves|;
    if cache.Some? {
      OneMore(d, next, end);
    } else {
      assert [] + LeafHashes(leaves) == LeafHashes(leaves);
    }
  }

  lemma {:induction false} OneMore(d: seq<Hash>, next: nat, end: nat)
    requires 0 < next <= end <= |d|
    ensures [d[next - 1]] + d[next..end] == d[next - 1..end]
  {
  }

  lemma {:induction false} SliceEnds(d: seq<Hash>, start: nat, end: nat)
    requires start < end <= |d|
    ensures d[start..end][0] == d[start] && d[start..end][end - start - 1] == d[end - 1]
    ensures end == |d| ==> d[start..end] == d[start..]
  {
  }

  /** The leaf after the one in an honest cache. */
  lemma {:induction false} AnyLeafAfterHonestCache(d: seq<Hash>, i: nat, leaf: Leaf)
    requires i < |d|
    ensures var cache := Some(Cache(d[i], InclusionProof(i, Path(i, d))));
      Outcome(cache, TreeHead(|d|, MTH(d)), i + 1, Replies(Some([leaf]), None, None)) == Some(([leaf], cache))
  {
    hide InclusionVerdict, MTH, Path;
    InclusionComplete(d, i);
  }
}
