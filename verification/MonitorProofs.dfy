/** What the monitor guarantees over every run, whatever the log answers. */
module MonitorProofs {
  import opened Crypto
  import opened Bits
  import opened Merkle
  import opened Verify
  import opened Batch
  import opened Tail
  import opened Types
  import opened Client
  import opened Chains
  import opened GetLeaves
  import opened Monitor

  // ---------- Progress ----------

  /** What an application may rely on when it follows the callbacks from a state: each batch of leaves
      starts where the one before it ended and stays within the tree, and a tree head is replaced,
      when all its leaves have been processed, by a larger one that the log has signed. */
  predicate GapFree(logKey: PublicKey, log: seq<Callback>, th: TreeHead, next: nat) {
    log != [] ==>
      match log[0]
      case NewTreeHead(signed) =>
        && next == th.size && signed.treeHead.size > th.size && signed.VerifiedBy(logKey)
        && GapFree(logKey, log[1..], signed.treeHead, next)
      case NewLeaves(start, leaves) =>
        && start == next && leaves != [] && next + |leaves| <= th.size
        && GapFree(logKey, log[1..], th, next + |leaves|)
      case Alert => GapFree(logKey, log[1..], th, next)
  }

  /** The state that an application arrives at by following the callbacks. */
  function Followed(log: seq<Callback>, th: TreeHead, next: nat): (TreeHead, nat) {
    if log == [] then (th, next)
    else
      match log[0]
      case NewTreeHead(signed) => Followed(log[1..], signed.treeHead, next)
      case NewLeaves(_, leaves) => Followed(log[1..], th, next + |leaves|)
      case Alert => Followed(log[1..], th, next)
  }

  /** Between two steps, no more leaves are processed than the tree has. */
  predicate Sane(s: State) {
    s.next <= s.th.size && (s.phase.Fetching? ==> s.next < s.th.size)
  }

  lemma {:induction false} StepIsGapFree(logKey: PublicKey, s: State, e: Event)
    requires Sane(s)
    ensures var (s', log) := Step(logKey, s, e);
      && Sane(s') && |log| <= 1
      && GapFree(logKey, log, s.th, s.next) && Followed(log, s.th, s.next) == (s'.th, s'.next)
  {
    hide FetchLeaves, ConsistencyVerdict;
    if e.Batch? && s.phase.Fetching? && FetchLeaves(s.cache, s.th, s.next, e.r).Fetched? {
      FetchedWithinTree(s.cache, s.th, s.next, e.r);
    }
  }

  lemma {:induction false} GapFreeAppend(logKey: PublicKey, log: seq<Callback>, rest: seq<Callback>, th: TreeHead,
                                         next: nat)
    requires |log| <= 1 && GapFree(logKey, log, th, next)
    requires var (th', next') := Followed(log, th, next); GapFree(logKey, rest, th', next')
    ensures GapFree(logKey, log + rest, th, next)
    ensures var (th', next') := Followed(log, th, next); Followed(log + rest, th, next) == Followed(rest, th', next')
  {
    if log == [] {
      assert [] + rest == rest;
    } else {
      assert (log + rest)[1..] == rest;
      assert log[1..] == [];
    }
  }

  lemma {:induction false} NoCallbacks(logKey: PublicKey, s: State)
    ensures GapFree(logKey, [], s.th, s.next) && Followed([], s.th, s.next) == (s.th, s.next)
  {
  }

  /** The callbacks of every run are gap-free, and lead to exactly the state of the monitor. */
  lemma {:induction false} RunIsGapFree(logKey: PublicKey, s: State, events: seq<Event>)
    requires Sane(s)
    ensures var (s', log) := Run(logKey, s, events);
      Sane(s') && GapFree(logKey, log, s.th, s.next) && Followed(log, s.th, s.next) == (s'.th, s'.next)
    decreases |events|
  {
    hide Step, GapFree, Followed, Sane;
    if events == [] {
      NoCallbacks(logKey, s);
    } else {
      var (s', log) := Step(logKey, s, events[0]);
      StepIsGapFree(logKey, s, events[0]);
      RunIsGapFree(logKey, s', events[1..]);
      GapFreeAppend(logKey, log, Run(logKey, s', events[1..]).1, s.th, s.next);
    }
  }

  // ---------- Leaves ----------

  /** The consistency proofs behind the tree head that the monitor works with. */
  function HeadChain(logKey: PublicKey, s: State, c: Chain, events: seq<Event>): Chain
    decreases |events|
  {
    if events == [] then c
    else
      var s' := Step(logKey, s, events[0]).0;
      HeadChain(logKey, s', if s'.th == s.th then c else Link(c, s'.th, ProofUsed(events[0])), events[1..])
  }

  function ProofUsed(e: Event): seq<Hash> {
    if e.Tick? && e.head.path.Some? then e.head.path.value else []
  }

  lemma {:induction false} StepChain(logKey: PublicKey, s: State, c: Chain, e: Event)
    requires ValidChain(c) && Head(c) == s.th
    ensures var s' := Step(logKey, s, e).0;
      var c' := if s'.th == s.th then c else Link(c, s'.th, ProofUsed(e));
      ValidChain(c') && Head(c') == s'.th && OnChain(s.th, c')
  {
    hide ConsistencyVerdict, Outcome;
  }

  lemma {:induction false} HeadChainIsValid(logKey: PublicKey, s: State, c: Chain, events: seq<Event>, h: TreeHead)
    requires ValidChain(c) && Head(c) == s.th && OnChain(h, c)
    ensures var c' := HeadChain(logKey, s, c, events);
      ValidChain(c') && Head(c') == Run(logKey, s, events).0.th && OnChain(h, c')
    decreases |events|
  {
    hide Step, ValidChain;
    if events != [] {
      var s' := Step(logKey, s, events[0]).0;
      StepChain(logKey, s, c, events[0]);
      HeadChainIsValid(logKey, s', if s'.th == s.th then c else Link(c, s'.th, ProofUsed(events[0])), events[1..], h);
    }
  }

  /** The state before event number k of a run. */
  function StateAt(logKey: PublicKey, s: State, events: seq<Event>, k: nat): State
    requires k <= |events|
    decreases k
  {
    if k == 0 then s else StateAt(logKey, Step(logKey, s, events[0]).0, events[1..], k - 1)
  }

  /** The event is a reply with which a batch of leaves is processed. */
  predicate Processes(s: State, e: Event) {
    e.Batch? && s.phase.Fetching? && Succeeds(s.cache, s.th, s.next, e.r)
  }

  /** All leaves of the batch are checked. */
  predicate ChecksLeaves(s: State, e: Event) {
    Processes(s, e) && Checked(s.cache, e.r.leaves.value)
  }

  /** The batch includes the leaf with the given index. */
  predicate Covers(s: State, e: Event, index: nat) {
    Processes(s, e) && s.next <= index < s.next + |e.r.leaves.value|
  }

  lemma {:induction false} StepCovers(logKey: PublicKey, s: State, e: Event, index: nat)
    requires Sane(s) && s.next <= index < Step(logKey, s, e).0.next
    ensures Covers(s, e, index)
  {
    hide Outcome, ConsistencyVerdict;
  }

  /** No index is passed without a batch for it: the event with which the leaf is processed. */
  function EventFor(logKey: PublicKey, s: State, events: seq<Event>, index: nat): (k: nat)
    requires Sane(s) && s.next <= index < Run(logKey, s, events).0.next
    ensures k < |events| && Covers(StateAt(logKey, s, events, k), events[k], index)
    decreases |events|
  {
    hide Step, Covers, Sane;
    var s' := Step(logKey, s, events[0]).0;
    StepIsGapFree(logKey, s, events[0]);
    if index < s'.next then
      StepCovers(logKey, s, events[0], index);
      0
    else 1 + EventFor(logKey, s', events[1..], index)
  }

  /** No batch of the run is a single leaf after a cached one. */
  predicate AllChecked(logKey: PublicKey, s: State, events: seq<Event>)
    decreases |events|
  {
    events != [] ==>
      && (Processes(s, events[0]) ==> Checked(s.cache, events[0].r.leaves.value))
      && AllChecked(logKey, Step(logKey, s, events[0]).0, events[1..])
  }

  lemma {:induction false} AllCheckedAt(logKey: PublicKey, s: State, events: seq<Event>, k: nat)
    requires AllChecked(logKey, s, events) && k < |events| && Processes(StateAt(logKey, s, events, k), events[k])
    ensures ChecksLeaves(StateAt(logKey, s, events, k), events[k])
    decreases k
  {
    hide Step, Succeeds, Checked;
    if k > 0 { AllCheckedAt(logKey, Step(logKey, s, events[0]).0, events[1..], k - 1); }
  }

  /** A batch that is processed is passed on to the application. */
  lemma {:induction false} ProcessedIsPassedOn(logKey: PublicKey, s: State, events: seq<Event>, k: nat)
    requires k < |events| && Processes(StateAt(logKey, s, events, k), events[k])
    ensures NewLeaves(StateAt(logKey, s, events, k).next, events[k].r.leaves.value) in Run(logKey, s, events).1
    decreases k
  {
    hide Step, Processes;
    if k == 0 {
      StepPassesOn(logKey, s, events[0]);
    } else {
      ProcessedIsPassedOn(logKey, Step(logKey, s, events[0]).0, events[1..], k - 1);
    }
  }

  lemma {:induction false} StepPassesOn(logKey: PublicKey, s: State, e: Event)
    requires Processes(s, e)
    ensures NewLeaves(s.next, e.r.leaves.value) in Step(logKey, s, e).1
  {
    hide Outcome, Continue;
  }

  function LeavesBehindChain(s: State, c: Chain, e: Event, d: seq<Hash>): (r: MaybeCollision)
    requires Sane(s) && ChecksLeaves(s, e)
    requires ValidChain(c) && OnChain(s.th, c) && Commits(Head(c), d)
    ensures r.None? ==> IsRangeOf(LeafHashes(e.r.leaves.value), s.next, d)
  {
    hide Succeeds, MTH, ValidChain, LeafHashes, Checked, IsRangeOf;
    ChainIsMonotone(c, s.th);
    var r1 := ChainSound(c, d, s.th);
    if r1.Some? then r1
    else
      RangeOfPrefix(LeafHashes(e.r.leaves.value), s.next, d, s.th.size);
      OutcomeSound(s.cache, s.th, s.next, e.r, d[..s.th.size])
  }

  lemma {:induction false} RangeOfPrefix(hashes: seq<Hash>, start: nat, d: seq<Hash>, n: nat)
    requires n <= |d|
    ensures IsRangeOf(hashes, start, d[..n]) ==> IsRangeOf(hashes, start, d)
  {
    if IsRangeOf(hashes, start, d[..n]) {
      assert d[..n][start..start + |hashes|] == d[start..start + |hashes|];
    }
  }

  /** Whatever the log answered before and after: if the tree head at the end of a run commits to d,
      each leaf that was processed in a checked batch is the leaf of d with the index reported for it. */
  function ProcessedLeavesAreLogged(logKey: PublicKey, s: State, c: Chain, events: seq<Event>, k: nat,
                                    d: seq<Hash>): (r: MaybeCollision)
    requires Sane(s) && ValidChain(c) && Head(c) == s.th
    requires k < |events| && ChecksLeaves(StateAt(logKey, s, events, k), events[k])
    requires Commits(Run(logKey, s, events).0.th, d)
    ensures r.None? ==> IsRangeOf(LeafHashes(events[k].r.leaves.value), StateAt(logKey, s, events, k).next, d)
    decreases k
  {
    hide Step, ChecksLeaves, Commits, ValidChain, LeafHashes, HeadChain, Run, IsRangeOf;
    var e := events[0];
    if k == 0 then
      HeadChainIsValid(logKey, s, c, events, s.th);
      LeavesBehindChain(s, HeadChain(logKey, s, c, events), e, d)
    else
      var s' := Step(logKey, s, e).0;
      StepIsGapFree(logKey, s, e);
      StepChain(logKey, s, c, e);
      var c' := if s'.th == s.th then c else Link(c, s'.th, ProofUsed(e));
      ProcessedLeavesAreLogged(logKey, s', c', events[1..], k - 1, d)
  }

  // ---------- Panics ----------

  /** The cache is not for the next leaf. */
  predicate IsStuck(s: State) {
    s.phase.Fetching? && !Adjacent(s.cache, s.next)
  }

  /** A single leaf after a cached one is processed, and it is not the last of the tree. */
  predicate IsUnchecked(s: State, e: Event) {
    Processes(s, e) && !Checked(s.cache, e.r.leaves.value) && s.next + |e.r.leaves.value| < s.th.size
  }

  /** What one step does to the cache: it gets stuck only by an unchecked leaf, and a stuck monitor
      panics on the next leaves, gives up the cache when the next request fails, and waits for either. */
  lemma {:induction false} StuckStep(logKey: PublicKey, s: State, e: Event)
    requires Sane(s) && !s.phase.Panicked?
    ensures var s' := Step(logKey, s, e).0;
      && (!IsStuck(s) ==> !s'.phase.Panicked? && (IsStuck(s') <==> IsUnchecked(s, e)))
      && (IsStuck(s) ==>
            && !IsUnchecked(s, e) && (e.Tick? ==> s' == s)
            && (e.Batch? ==> if HasLeaves(e.r) then s'.phase.Panicked? else s' == Initial(s.th, s.next)))
  {
    hide Outcome, PollTreeHead;
    if e.Batch? && Processes(s, e) { CacheIsAdjacent(s.cache, s.th, s.next, e.r); }
  }

  /** The first answer to a request for leaves has leaves. */
  predicate LeavesFollow(events: seq<Event>) {
    events != [] && if events[0].Tick? then LeavesFollow(events[1..]) else HasLeaves(events[0].r)
  }

  /** An unchecked leaf is processed, and then the next request for leaves succeeds. */
  predicate LeadsToPanic(logKey: PublicKey, s: State, events: seq<Event>)
    decreases |events|
  {
    && events != []
    && ((IsUnchecked(s, events[0]) && LeavesFollow(events[1..]))
        || LeadsToPanic(logKey, Step(logKey, s, events[0]).0, events[1..]))
  }

  /** Over every run, of any events: the monitor panics if and only if it processes an unchecked leaf and
      the request after that succeeds. */
  lemma {:induction false} RunPanicsExactly(logKey: PublicKey, s: State, events: seq<Event>)
    requires Sane(s) && !s.phase.Panicked?
    ensures Run(logKey, s, events).0.phase.Panicked? <==>
            (IsStuck(s) && LeavesFollow(events)) || LeadsToPanic(logKey, s, events)
    decreases |events|
  {
    hide Step, Sane, IsStuck, IsUnchecked, HasLeaves;
    if events != [] {
      var s' := Step(logKey, s, events[0]).0;
      StepIsGapFree(logKey, s, events[0]);
      StuckStep(logKey, s, events[0]);
      if s'.phase.Panicked? {
        AfterPanic(logKey, s', events[1..]);
      } else {
        NotStuckInitially(s.th, s.next);
        RunPanicsExactly(logKey, s', events[1..]);
      }
    }
  }

  lemma {:induction false} AfterPanic(logKey: PublicKey, s: State, events: seq<Event>)
    requires s.phase.Panicked?
    ensures Run(logKey, s, events) == (s, []) && !LeadsToPanic(logKey, s, events)
    decreases |events|
  {
    hide Step, IsUnchecked;
    if events == [] {
      NothingLeads(logKey, s);
    } else {
      PanicStays(logKey, s, events[0]);
      AfterPanic(logKey, s, events[1..]);
      assert Step(logKey, s, events[0]).0 == s;
      assert Run(logKey, s, events).1 == [] + Run(logKey, s, events[1..]).1;
      assert LeadsToPanic(logKey, s, events) == LeadsToPanic(logKey, s, events[1..]);
    }
  }

  lemma {:induction false} NothingLeads(logKey: PublicKey, s: State)
    ensures Run(logKey, s, []) == (s, []) && !LeadsToPanic(logKey, s, [])
  {
  }

  lemma {:induction false} PanicStays(logKey: PublicKey, s: State, e: Event)
    requires s.phase.Panicked?
    ensures Step(logKey, s, e) == (s, []) && !IsUnchecked(s, e)
  {
  }

  lemma {:induction false} NotStuckInitially(th: TreeHead, next: nat)
    ensures !IsStuck(Initial(th, next)) && !Initial(th, next).phase.Panicked?
  {
  }

  /** The two events of a panic: from a cache for the next leaf, or none. */
  lemma {:induction false} PanicsExactly(logKey: PublicKey, s: State, e: Event, e': Event)
    requires Sane(s) && !s.phase.Panicked? && !IsStuck(s)
    ensures Step(logKey, Step(logKey, s, e).0, e').0.phase.Panicked? <==>
            IsUnchecked(s, e) && e'.Batch? && HasLeaves(e'.r)
  {
    hide Step, Sane, IsStuck, IsUnchecked, HasLeaves;
    StuckStep(logKey, s, e);
    StepIsGapFree(logKey, s, e);
    NotStuckInitially(s.th, s.next);
    StuckStep(logKey, Step(logKey, s, e).0, e');
  }

  /** No reply with a single leaf, no panic. */
  lemma {:induction false} NeverPanics(logKey: PublicKey, s: State, events: seq<Event>)
    requires Sane(s) && !s.phase.Panicked? && !IsStuck(s)
    requires forall e :: e in events ==> e.Batch? && e.r.leaves.Some? ==> |e.r.leaves.value| != 1
    ensures !Run(logKey, s, events).0.phase.Panicked?
    decreases |events|
  {
    hide Step, Sane;
    if events != [] {
      assert events[0] in events;
      StepIsGapFree(logKey, s, events[0]);
      StuckStep(logKey, s, events[0]);
      NeverPanics(logKey, Step(logKey, s, events[0]).0, events[1..]);
    }
  }

  /** A log that hands out leaves one at a time: the second leaf can be anything.  The third request makes
      the monitor panic if it succeeds; but if it fails there is an alert only, and the monitor goes on
      behind the unchecked leaf. */
  lemma {:induction false} SingleLeaves(logKey: PublicKey, d: seq<Hash>, i: nat, x: Leaf, y: Leaf, third: Replies)
    requires i + 2 < |d| < Pow2(63) && x.ToHash() == d[i]
    ensures var th := TreeHead(|d|, MTH(d));
      var first, second := Replies(Some([x]), HonestProof(d, i), None), Replies(Some([y]), None, None);
      var (s, log) := Run(logKey, Current(th, i, None), [Batch(first), Batch(second), Batch(third)]);
      if HasLeaves(third) then s.phase.Panicked? && log == [NewLeaves(i, [x]), NewLeaves(i + 1, [y])]
      else s == Initial(th, i + 2) && log == [NewLeaves(i, [x]), NewLeaves(i + 1, [y]), Alert]
  {
    hide MTH, Path, Outcome, Step, Current, HonestProof, Pow2;
    var th := TreeHead(|d|, MTH(d));
    var first, second := Replies(Some([x]), HonestProof(d, i), None), Replies(Some([y]), None, None);
    FirstSingleLeaf(d, i, x);
    AnyLeafAfterHonestCache(d, i, y);
    var cache := Some(Cache(d[i], InclusionProof(i, Path(i, d))));
    BatchStep(logKey, th, i, None, first);
    BatchStep(logKey, th, i + 1, cache, second);
    BatchStep(logKey, th, i + 2, cache, third);
    RunOfThree(logKey, Current(th, i, None), Batch(first), Batch(second), Batch(third));
  }

  lemma {:induction false} RunOfThree(logKey: PublicKey, s: State, a: Event, b: Event, c: Event)
    ensures var (s1, l1) := Step(logKey, s, a);
      var (s2, l2) := Step(logKey, s1, b);
      var (s3, l3) := Step(logKey, s2, c);
      Run(logKey, s, [a, b, c]) == (s3, l1 + (l2 + (l3 + [])))
  {
    hide Step;
    assert [a, b, c][1..] == [b, c] && [b, c][1..] == [c] && [c][1..] == [];
    var s1, s2 := Step(logKey, s, a).0, Step(logKey, Step(logKey, s, a).0, b).0;
    assert Run(logKey, Step(logKey, s2, c).0, []) == (Step(logKey, s2, c).0, []);
    assert Run(logKey, s2, [c]) == (Step(logKey, s2, c).0, Step(logKey, s2, c).1 + []);
    assert Run(logKey, s1, [b, c]).0 == Step(logKey, s2, c).0;
  }

  lemma {:induction false} FirstSingleLeaf(d: seq<Hash>, i: nat, x: Leaf)
    requires i < |d| < Pow2(63) && x.ToHash() == d[i]
    ensures Outcome(None, TreeHead(|d|, MTH(d)), i, Replies(Some([x]), HonestProof(d, i), None))
         == Some(([x], Some(Cache(d[i], InclusionProof(i, Path(i, d))))))
  {
    hide MTH, Path, InclusionVerdict, Pow2;
    InclusionComplete(d, i);
    InclusionGetsThrough(d, i);
  }

  // ---------- An honest log ----------

  /** The leaves of d from next on, in non-empty batches. */
  predicate AreBatchesOf(d: seq<Hash>, next: nat, batches: seq<seq<Leaf>>)
    decreases |batches|
  {
    if batches == [] then next == |d|
    else
      && batches[0] != [] && IsRangeOf(LeafHashes(batches[0]), next, d)
      && AreBatchesOf(d, next + |batches[0]|, batches[1..])
  }

  /** Every batch is checked, or ends the tree: only the first one after a pause, and the last one, may be
      a single leaf. */
  predicate NoLoneLeaf(cached: bool, batches: seq<seq<Leaf>>)
    decreases |batches|
  {
    batches != [] ==>
      && (cached && |batches[0]| == 1 ==> |batches| == 1)
      && NoLoneLeaf(true, batches[1..])
  }

  function HonestEvents(d: seq<Hash>, next: nat, batches: seq<seq<Leaf>>): seq<Event>
    requires AreBatchesOf(d, next, batches)
    decreases |batches|
  {
    if batches == [] then []
    else
      RangeFits(batches[0], next, d);
      [Batch(HonestReplies(d, next, batches[0]))] + HonestEvents(d, next + |batches[0]|, batches[1..])
  }

  function PassedOn(next: nat, batches: seq<seq<Leaf>>): seq<Callback>
    decreases |batches|
  {
    if batches == [] then [] else [NewLeaves(next, batches[0])] + PassedOn(next + |batches[0]|, batches[1..])
  }

  lemma {:induction false} RangeFits(leaves: seq<Leaf>, next: nat, d: seq<Hash>)
    requires IsRangeOf(LeafHashes(leaves), next, d)
    ensures next + |leaves| <= |d|
  {
  }

  /** An honest log that hands out all leaves, in whatever batches: the monitor gets to the end of the
      tree, passes on exactly the leaves, without an alert, if every batch is checked or ends the tree;
      and otherwise it panics. */
  lemma {:induction false} HonestBatchesAreFollowed(logKey: PublicKey, d: seq<Hash>, next: nat, cache: Option<Cache>,
                                                    batches: seq<seq<Leaf>>)
    requires |d| < Pow2(63) && AreBatchesOf(d, next, batches) && (next < |d| ==> HonestCache(d, next, cache))
    ensures var th := TreeHead(|d|, MTH(d));
      var run := Run(logKey, Current(th, next, cache), HonestEvents(d, next, batches));
      if NoLoneLeaf(cache.Some?, batches) then run == (Initial(th, |d|), PassedOn(next, batches))
      else run.0.phase.Panicked?
    decreases |batches|
  {
    hide MTH, Pow2, IsRangeOf, LeafHashes, HonestCache, HonestReplies, Current, Step, Outcome, Adjacent;
    var th := TreeHead(|d|, MTH(d));
    CurrentCases(th, next, cache);
    if batches != [] {
      var leaves, rest := batches[0], batches[1..];
      var end := next + |leaves|;
      RangeFits(leaves, next, d);
      HonestBatchIsAccepted(d, next, leaves, cache);
      HonestReplyHasLeaves(d, next, leaves);
      var cache' := Outcome(cache, th, next, HonestReplies(d, next, leaves)).value.1;
      BatchStep(logKey, th, next, cache, HonestReplies(d, next, leaves));
      assert HonestEvents(d, next, batches)[1..] == HonestEvents(d, end, rest);
      CachedAfter(cache, th, next, HonestReplies(d, next, leaves));
      EndOfBatches(d, end, rest);
      assert FetchLeaves(cache, th, next, HonestReplies(d, next, leaves)) == Fetched(leaves, cache');
      assert |batches| == 1 + |rest|;
      if Checked(cache, leaves) || end == |d| {
        HonestBatchesAreFollowed(logKey, d, end, cache', rest);
        assert NoLoneLeaf(cache.Some?, batches) == NoLoneLeaf(true, rest);
        assert NoLoneLeaf(true, rest) == NoLoneLeaf(cache'.Some?, rest);
        var run := Run(logKey, Current(th, next, cache), HonestEvents(d, next, batches));
        var run' := Run(logKey, Current(th, end, cache'), HonestEvents(d, end, rest));
        assert run.0 == run'.0;
        assert run.1 == [NewLeaves(next, leaves)] + run'.1;
      } else {
        StuckAfterLoneLeaf(logKey, d, next, cache, leaves, rest);
      }
    }
  }

  lemma {:induction false} HonestReplyHasLeaves(d: seq<Hash>, next: nat, leaves: seq<Leaf>)
    requires |leaves| > 0 && next + |leaves| <= |d|
    ensures HonestReplies(d, next, leaves).leaves == Some(leaves) && HasLeaves(HonestReplies(d, next, leaves))
  {
  }

  lemma {:induction false} CachedAfter(cache: Option<Cache>, th: TreeHead, next: nat, r: Replies)
    requires Adjacent(cache, next) && Outcome(cache, th, next, r).Some?
    ensures next + |r.leaves.value| != th.size ==> Outcome(cache, th, next, r).value.1.Some?
  {
    hide InclusionVerdict, BatchVerdict, TailVerdict;
  }

  lemma {:induction false} EndOfBatches(d: seq<Hash>, next: nat, batches: seq<seq<Leaf>>)
    requires AreBatchesOf(d, next, batches)
    ensures next <= |d| && (batches == [] <==> next == |d|)
    decreases |batches|
  {
    hide LeafHashes;
    if batches != [] { EndOfBatches(d, next + |batches[0]|, batches[1..]); }
  }

  lemma {:induction false} StuckAfterLoneLeaf(logKey: PublicKey, d: seq<Hash>, next: nat, cache: Option<Cache>,
                                              leaves: seq<Leaf>, rest: seq<seq<Leaf>>)
    requires next + |leaves| < |d| && AreBatchesOf(d, next + |leaves|, rest)
    requires |leaves| > 0 && Adjacent(cache, next) && !Checked(cache, leaves)
    requires Outcome(cache, TreeHead(|d|, MTH(d)), next, HonestReplies(d, next, leaves)).Some?
    ensures var th := TreeHead(|d|, MTH(d));
      var cache' := Outcome(cache, th, next, HonestReplies(d, next, leaves)).value.1;
      Run(logKey, Current(th, next + |leaves|, cache'), HonestEvents(d, next + |leaves|, rest)).0.phase.Panicked?
  {
    hide MTH, IsRangeOf, LeafHashes, Outcome, HonestReplies, Step, Current;
    var th, end := TreeHead(|d|, MTH(d)), next + |leaves|;
    HonestReplyHasLeaves(d, next, leaves);
    CacheIsAdjacent(cache, th, next, HonestReplies(d, next, leaves));
    EndOfBatches(d, end, rest);
    RangeFits(rest[0], end, d);
    HonestReplyHasLeaves(d, end, rest[0]);
    var cache' := Outcome(cache, th, next, HonestReplies(d, next, leaves)).value.1;
    BatchStep(logKey, th, end, cache', HonestReplies(d, end, rest[0]));
    AfterPanic(logKey, State(Panicked, th, end, cache'), HonestEvents(d, end, rest)[1..]);
  }

  /** A whole round with an honest log: a monitor that has processed the first m leaves is given a signed
      head of a larger tree.  If the RFC consistency proof has at most 63 hashes, it then processes exactly
      the new leaves, and otherwise there is an alert. */
  lemma {:induction false} HonestRound(logKey: PublicKey, d: seq<Hash>, m: nat, cth: CosignedTreeHead,
                                       batches: seq<seq<Leaf>>)
    requires m < |d| < Pow2(63) && AreBatchesOf(d, m, batches) && NoLoneLeaf(false, batches)
    requires cth.signed.treeHead == TreeHead(|d|, MTH(d)) && cth.signed.VerifiedBy(logKey)
    ensures var idle := Initial(TreeHead(m, MTH(d[..m])), m);
      var tick := Tick(HeadReplies(Some(cth), GetConsistencyProof(m, |d|, Some(Proof(m, d)))));
      if |Proof(m, d)| <= PROOF_SIZE_LIMIT then
        Run(logKey, idle, [tick] + HonestEvents(d, m, batches))
        == (Initial(TreeHead(|d|, MTH(d)), |d|), [NewTreeHead(cth.signed)] + PassedOn(m, batches))
      else Step(logKey, idle, tick) == (idle, [Alert])
  {
    hide MTH, Pow2, Proof, ConsistencyVerdict, AreBatchesOf, HonestEvents, PassedOn, HonestCache, NoLoneLeaf,
         GetConsistencyProof;
    var tick := Tick(HeadReplies(Some(cth), GetConsistencyProof(m, |d|, Some(Proof(m, d)))));
    ConsistencyGetsThrough(d, m);
    ConsistencyComplete(d, m);
    CurrentCases(cth.signed.treeHead, m, None);
    NothingIsHonest(d, m);
    HonestBatchesAreFollowed(logKey, d, m, None, batches);
    assert ([tick] + HonestEvents(d, m, batches))[1..] == HonestEvents(d, m, batches);
  }

  lemma {:induction false} NothingIsHonest(d: seq<Hash>, next: nat)
    ensures HonestCache(d, next, None)
  {
  }

  // ---------- filterLeaves ----------

  /** A leaf of interest: from a known submitter, whose signature is valid. */
  predicate OfInterest(submitKeys: Option<map<Hash, PublicKey>>, leaf: Leaf) {
    submitKeys.Some? ==> leaf.keyHash in submitKeys.value && leaf.VerifiedBy(submitKeys.value[leaf.keyHash])
  }

  function Numbered(n: nat, startIndex: nat): seq<nat> {
    seq(n, i requires 0 <= i < n => startIndex + i)
  }

  /** The leaves of interest, in order, each with its index in the log. */
  function Filtered(submitKeys: Option<map<Hash, PublicKey>>, leaves: seq<Leaf>, startIndex: nat)
    : (seq<nat>, seq<Leaf>)
  {
    if leaves == [] then ([], [])
    else
      var n := |leaves| - 1;
      var (indices, matched) := Filtered(submitKeys, leaves[..n], startIndex);
      if OfInterest(submitKeys, leaves[n]) then (indices + [startIndex + n], matched + [leaves[n]])
      else (indices, matched)
  }

  method FilterLeaves(submitKeys: Option<map<Hash, PublicKey>>, leaves: seq<Leaf>, startIndex: nat)
    returns (indices: seq<nat>, matched: seq<Leaf>)
    ensures (indices, matched) == Filtered(submitKeys, leaves, startIndex)
  {
    if submitKeys == None {
      AllOfInterest(leaves, startIndex);
      return Numbered(|leaves|, startIndex), leaves;
    }
    indices, matched := [], [];
    for i := 0 to |leaves|
      invariant (indices, matched) == Filtered(submitKeys, leaves[..i], startIndex)
    {
      var leaf := leaves[i];
      assert leaves[..i + 1][..i] == leaves[..i];
      if leaf.keyHash in submitKeys.value {
        if leaf.VerifiedBy(submitKeys.value[leaf.keyHash]) {
          matched := matched + [leaf];
          indices := indices + [startIndex + i];
        }
      }
    }
    assert leaves[..|leaves|] == leaves;
  }

  lemma {:induction false} AllOfInterest(leaves: seq<Leaf>, startIndex: nat)
    ensures Filtered(None, leaves, startIndex) == (Numbered(|leaves|, startIndex), leaves)
    decreases |leaves|
  {
    if leaves == [] {
      assert Numbered(0, startIndex) == [];
    } else {
      var n := |leaves| - 1;
      AllOfInterest(leaves[..n], startIndex);
      assert leaves == leaves[..n] + [leaves[n]];
      assert Numbered(|leaves|, startIndex) == Numbered(n, startIndex) + [startIndex + n];
    }
  }

  /** Nothing of interest is missed, nothing else is reported, and each reported leaf has its own index. */
  lemma {:induction false} FilteredExactly(submitKeys: Option<map<Hash, PublicKey>>, leaves: seq<Leaf>, startIndex: nat)
    ensures var (indices, matched) := Filtered(submitKeys, leaves, startIndex);
      && |indices| == |matched|
      && (forall j :: 0 <= j < |indices| ==>
            startIndex <= indices[j] < startIndex + |leaves| && matched[j] == leaves[indices[j] - startIndex])
      && (forall j, k :: 0 <= j < k < |indices| ==> indices[j] < indices[k])
      && (forall i :: startIndex <= i < startIndex + |leaves| ==>
            (i in indices <==> OfInterest(submitKeys, leaves[i - startIndex])))
    decreases |leaves|
  {
    if leaves != [] {
      FilteredExactly(submitKeys, leaves[..|leaves| - 1], startIndex);
    }
  }
}
