/** The monitor of `pkg/monitor`: `getTreeHead` of client.go, and `MonitorLog` and `filterLeaves` of
    monitor.go, as a state machine driven by the replies of the log. */
module Monitor {
  import opened Crypto
  import opened Bits
  import opened Verify
  import opened Types
  import opened GetLeaves

  // ---------- Replies and callbacks ----------

  /** What the log answers when it is asked for a tree head and a consistency proof. */
  datatype HeadReplies = HeadReplies(cth: Option<CosignedTreeHead>, path: Option<seq<Hash>>)

  const NO_REPLY := Replies(None, None, None)

  datatype Callback =
    | NewTreeHead(signed: SignedTreeHead)
    | NewLeaves(start: nat, leaves: seq<Leaf>)  // before filterLeaves
    | Alert

  // ---------- The state machine ----------

  datatype Phase =
    | Waiting      // for the end of the query interval
    | Fetching     // in the inner loop
    | Panicked

  datatype State = State(phase: Phase, th: TreeHead, next: nat, cache: Option<Cache>)

  datatype Event = Tick(head: HeadReplies) | Batch(r: Replies)

  /** `getTreeHead` */
  function PollTreeHead(logKey: PublicKey, th: TreeHead, r: HeadReplies): Option<SignedTreeHead> {
    if r.cth.None? || !r.cth.value.signed.VerifiedBy(logKey) then None
    else
      var signed := r.cth.value.signed;
      if signed.treeHead.size < th.size || r.path.None? then None
      else if ConsistentWith(r.path.value, th, signed.treeHead) != Ok then None
      else Some(signed)
  }

  /** Enters the inner loop, or stays in it, while there are leaves to get. */
  function Continue(s: State): State {
    if s.next >= s.th.size then s.(phase := Waiting, cache := None) else s.(phase := Fetching)
  }

  function Step(logKey: PublicKey, s: State, e: Event): (State, seq<Callback>) {
    match e
    case Tick(head) =>
      if !s.phase.Waiting? then (s, [])
      else
        var idle := s.(cache := None);
        if s.th.size != s.next then (Continue(idle), [])
        else
          var polled := PollTreeHead(logKey, s.th, head);
          if polled.None? then (Continue(idle), [Alert])
          else if polled.value.treeHead.size <= s.th.size then (Continue(idle), [])
          else (Continue(idle.(th := polled.value.treeHead)), [NewTreeHead(polled.value)])
    case Batch(r) =>
      if !s.phase.Fetching? then (s, [])
      else
        match FetchLeaves(s.cache, s.th, s.next, r)
        case FetchFails => (s.(phase := Waiting, cache := None), [Alert])
        case FetchPanics => (s.(phase := Panicked), [])
        case Fetched(leaves, cache) =>
          (Continue(s.(next := s.next + |leaves|, cache := cache)), [NewLeaves(s.next, leaves)])
  }

  function Run(logKey: PublicKey, s: State, events: seq<Event>): (State, seq<Callback>)
    decreases |events|
  {
    if events == [] then (s, [])
    else
      var (s1, cs) := Step(logKey, s, events[0]);
      var (s2, ds) := Run(logKey, s1, events[1..]);
      (s2, cs + ds)
  }

  function Initial(th: TreeHead, next: nat): State {
    State(Waiting, th, next, None)
  }

  // ---------- The program ----------

  method GetTreeHead(logKey: PublicKey, th: TreeHead, r: HeadReplies) returns (result: Option<SignedTreeHead>)
    ensures result == PollTreeHead(logKey, th, r)
    ensures result.Some? <==>
      && r.cth.Some? && r.path.Some?
      && var signed := r.cth.value.signed;
      && VerifySignature(logKey, FormatCheckpoint(SigsumCheckpointOrigin(logKey), signed.treeHead), signed.signature)
      && th.size <= signed.treeHead.size
      && ConsistencyVerdict(th.size, signed.treeHead.size, th.rootHash, signed.treeHead.rootHash, r.path.value) == Ok
    ensures result.Some? ==> result == Some(r.cth.value.signed)
  {
    if r.cth == None || !r.cth.value.signed.VerifiedBy(logKey) {
      return None;
    }
    var signed := r.cth.value.signed;
    if signed.treeHead.size < th.size || r.path == None {
      return None;
    }
    var verdict := VerifyConsistency(th.size, signed.treeHead.size, th.rootHash, signed.treeHead.rootHash,
                                     r.path.value);
    return if verdict == Ok then Some(signed) else None;
  }

  /** The replies to one round of the outer loop.  When the replies to batches run out, requests fail. */
  datatype Round = Round(head: HeadReplies, batches: seq<Replies>)

  function BatchEvents(batches: seq<Replies>): seq<Event> {
    if batches == [] then [Batch(NO_REPLY)] else [Batch(batches[0])] + BatchEvents(batches[1..])
  }

  function Events(rounds: seq<Round>): seq<Event> {
    if rounds == [] then []
    else [Tick(rounds[0].head)] + BatchEvents(rounds[0].batches) + Events(rounds[1..])
  }

  /** The bounds of the wire format: sizes and numbers of leaves are below 2^63. */
  predicate InRange(round: Round) {
    && (round.head.cth.Some? ==> round.head.cth.value.signed.treeHead.size < Pow2(63))
    && BatchesInRange(round.batches)
  }

  predicate BatchesInRange(batches: seq<Replies>) {
    forall r :: r in batches ==> r.leaves.Some? ==> |r.leaves.value| < Pow2(63)
  }

  /** The run with this outcome has got to state s with this log, and the events are still to come. */
  predicate Reached(logKey: PublicKey, outcome: (State, seq<Callback>), s: State, log: seq<Callback>,
                    events: seq<Event>) {
    outcome == (Run(logKey, s, events).0, log + Run(logKey, s, events).1)
  }

  lemma {:induction false} ReachStep(logKey: PublicKey, outcome: (State, seq<Callback>), s: State,
                                     log: seq<Callback>, e: Event, rest: seq<Event>)
    requires Reached(logKey, outcome, s, log, [e] + rest)
    ensures Reached(logKey, outcome, Step(logKey, s, e).0, log + Step(logKey, s, e).1, rest)
  {
    hide Step;
    assert ([e] + rest)[1..] == rest;
    var (s1, cs) := Step(logKey, s, e);
    assert log + (cs + Run(logKey, s1, rest).1) == log + cs + Run(logKey, s1, rest).1;
  }

  lemma {:induction false} ReachEnd(logKey: PublicKey, s: State, log: seq<Callback>)
    ensures forall outcome :: Reached(logKey, outcome, s, log, []) ==> outcome == (s, log)
  {
    assert log + [] == log;
  }

  /** Outside the inner loop, replies to batches are not looked at; after a panic, nothing is. */
  lemma {:induction false} IgnoredEvents(logKey: PublicKey, s: State, events: seq<Event>, rest: seq<Event>)
    requires s.phase.Panicked? || (s.phase.Waiting? && forall i :: 0 <= i < |events| ==> events[i].Batch?)
    ensures Run(logKey, s, events + rest) == Run(logKey, s, rest)
    decreases |events|
  {
    if events == [] {
      assert [] + rest == rest;
    } else {
      assert (events + rest)[1..] == events[1..] + rest;
      assert Step(logKey, s, events[0]) == (s, []);
      IgnoredEvents(logKey, s, events[1..], rest);
      assert [] + Run(logKey, s, events[1..] + rest).1 == Run(logKey, s, events[1..] + rest).1;
    }
  }

  lemma {:induction false} AreBatches(batches: seq<Replies>)
    ensures forall i :: 0 <= i < |BatchEvents(batches)| ==> BatchEvents(batches)[i].Batch?
  {
    if batches != [] { AreBatches(batches[1..]); }
  }

  /** The state of the inner loop. */
  function Current(th: TreeHead, next: nat, cache: Option<Cache>): State {
    Continue(State(Fetching, th, next, cache))
  }

  lemma {:induction false} CurrentCases(th: TreeHead, next: nat, cache: Option<Cache>)
    ensures Continue(Initial(th, next)) == Current(th, next, None)
    ensures next >= th.size ==> Current(th, next, cache) == Initial(th, next)
    ensures next < th.size ==>
      Current(th, next, cache) == State(Fetching, th, next, cache)
  {
  }

  /** One turn of the inner loop. */
  lemma {:induction false} BatchStep(logKey: PublicKey, th: TreeHead, next: nat, cache: Option<Cache>, r: Replies)
    requires next < th.size
    ensures Step(logKey, Current(th, next, cache), Batch(r)) ==
            match FetchLeaves(cache, th, next, r)
            case FetchFails => (Initial(th, next), [Alert])
            case FetchPanics => (State(Panicked, th, next, cache), [])
            case Fetched(leaves, cache') => (Current(th, next + |leaves|, cache'), [NewLeaves(next, leaves)])
  {
    hide FetchLeaves;
  }

  lemma {:induction false} EventsFrom(rounds: seq<Round>, i: nat)
    requires i <= |rounds|
    ensures Events(rounds[i..]) ==
            if i == |rounds| then []
            else [Tick(rounds[i].head)] + (BatchEvents(rounds[i].batches) + Events(rounds[i + 1..]))
  {
    hide BatchEvents;
    if i < |rounds| {
      assert rounds[i..][1..] == rounds[i + 1..];
    }
  }

  /** The next event of the inner loop. */
  lemma {:induction false} BatchEventsFrom(batches: seq<Replies>, j: nat, rest: seq<Event>)
    requires j <= |batches|
    ensures BatchEvents(batches[j..]) + rest ==
            [Batch(if j < |batches| then batches[j] else NO_REPLY)]
            + ((if j < |batches| then BatchEvents(batches[j + 1..]) else []) + rest)
  {
    if j < |batches| {
      assert batches[j..][1..] == batches[j + 1..];
    }
  }

  /** The inner loop of `MonitorLog`: gets leaves until there are none left or a request fails. */
  method ProcessLeaves(logKey: PublicKey, th: TreeHead, next0: nat, batches: seq<Replies>, log0: seq<Callback>,
                       ghost outcome: (State, seq<Callback>), ghost rest: seq<Event>)
    returns (s: State, log: seq<Callback>)
    requires next0 <= th.size < Pow2(63) && BatchesInRange(batches)
    requires Reached(logKey, outcome, Current(th, next0, None), log0, BatchEvents(batches) + rest)
    ensures s.th == th && s.next <= th.size
    ensures s.phase.Panicked? || s == Initial(th, s.next)
    ensures Reached(logKey, outcome, s, log, rest)
  {
    hide FetchLeaves, Pow2, Reached, BatchEvents, Step, Current;
    var next, cache: Option<Cache> := next0, None;
    var j: nat := 0;
    log := log0;
    assert batches[0..] == batches;
    while next < th.size
      invariant next <= th.size && 0 <= j <= |batches|
      invariant Reached(logKey, outcome, Current(th, next, cache), log, BatchEvents(batches[j..]) + rest)
      decreases th.size - next
    {
      var r := if j < |batches| then batches[j] else NO_REPLY;
      ghost var pending := if j < |batches| then BatchEvents(batches[j + 1..]) else [];
      BatchEventsFrom(batches, j, rest);
      ReachStep(logKey, outcome, Current(th, next, cache), log, Batch(r), pending + rest);
      BatchStep(logKey, th, next, cache, r);
      ReplyInRange(batches, j);
      var result := GetLeaves.GetLeaves(cache, th, next, r);
      NoReplyFails(cache, th, next);
      match result {
        case FetchFails =>
          log := log + [Alert];
          if j < |batches| { AreBatches(batches[j + 1..]); }
          ReachIgnoring(logKey, outcome, Initial(th, next), log, pending, rest);
          return Initial(th, next), log;
        case FetchPanics =>
          s := State(Panicked, th, next, cache);
          assert log + [] == log;
          ReachIgnoring(logKey, outcome, s, log, pending, rest);
          return;
        case Fetched(leaves, cache') =>
          FetchedWithinTree(cache, th, next, r);
          log := log + [NewLeaves(next, leaves)];
          next, cache := next + |leaves|, cache';
          j := j + 1;
      }
    }
    CurrentCases(th, next, cache);
    AreBatches(batches[j..]);
    ReachIgnoring(logKey, outcome, Initial(th, next), log, BatchEvents(batches[j..]), rest);
    s := Initial(th, next);
  }

  lemma {:induction false} ReplyInRange(batches: seq<Replies>, j: nat)
    requires BatchesInRange(batches)
    ensures var r := if j < |batches| then batches[j] else NO_REPLY;
      r.leaves.Some? ==> |r.leaves.value| < Pow2(63)
  {
    hide Pow2;
    assert j < |batches| ==> batches[j] in batches;
  }

  lemma {:induction false} RoundInRange(round: Round)
    requires InRange(round)
    ensures BatchesInRange(round.batches)
    ensures round.head.cth.Some? ==> round.head.cth.value.signed.treeHead.size < Pow2(63)
  {
    hide Pow2, BatchesInRange;
  }

  /** `MonitorLog`, for as many rounds as there are replies, or until the monitor panics. */
  method MonitorLog(logKey: PublicKey, th0: TreeHead, next0: nat, rounds: seq<Round>)
    returns (s: State, log: seq<Callback>)
    requires next0 <= th0.size < Pow2(63)
    requires forall round :: round in rounds ==> InRange(round)
    ensures (s, log) == Run(logKey, Initial(th0, next0), Events(rounds))
  {
    hide PollTreeHead, Pow2, Reached, Run, BatchEvents, Events, Step, Current, Continue, InRange, BatchesInRange,
         FetchLeaves, Outcome;
    ghost var outcome := Run(logKey, Initial(th0, next0), Events(rounds));
    s, log := Initial(th0, next0), [];
    ReachStart(logKey, s, Events(rounds));
    assert rounds[0..] == rounds;
    for i := 0 to |rounds|
      invariant s == Initial(s.th, s.next) && s.next <= s.th.size < Pow2(63)
      invariant Reached(logKey, outcome, s, log, Events(rounds[i..]))
    {
      var round := rounds[i];
      assert round in rounds;
      RoundInRange(round);
      ghost var rest := Events(rounds[i + 1..]);
      EventsFrom(rounds, i);
      ReachStep(logKey, outcome, s, log, Tick(round.head), BatchEvents(round.batches) + rest);
      var th;
      log, th := Poll(logKey, s.th, s.next, round.head, log);
      CurrentCases(th, s.next, None);
      s, log := ProcessLeaves(logKey, th, s.next, round.batches, log, outcome, rest);
      if s.phase.Panicked? {
        assert rest + [] == rest;
        ReachIgnoring(logKey, outcome, s, log, rest, []);
        ReachEnd(logKey, s, log);
        return;
      }
    }
    EventsFrom(rounds, |rounds|);
    ReachEnd(logKey, s, log);
  }

  /** The first part of a round. */
  method Poll(logKey: PublicKey, th: TreeHead, next: nat, r: HeadReplies, log: seq<Callback>)
    returns (log': seq<Callback>, th': TreeHead)
    requires next <= th.size
    ensures Step(logKey, Initial(th, next), Tick(r)).0 == Continue(Initial(th', next))
    ensures log' == log + Step(logKey, Initial(th, next), Tick(r)).1
    ensures th' == th || (r.cth.Some? && th' == r.cth.value.signed.treeHead && th'.size > th.size)
  {
    hide ConsistencyVerdict;
    log', th' := log, th;
    if th.size == next {
      var polled := GetTreeHead(logKey, th, r);
      if polled == None {
        log' := log + [Alert];
      } else if polled.value.treeHead.size > th.size {
        log', th' := log + [NewTreeHead(polled.value)], polled.value.treeHead;
      }
    }
  }

  lemma {:induction false} ReachStart(logKey: PublicKey, s: State, events: seq<Event>)
    ensures Reached(logKey, Run(logKey, s, events), s, [], events)
  {
    assert [] + Run(logKey, s, events).1 == Run(logKey, s, events).1;
  }

  lemma {:induction false} ReachIgnoring(logKey: PublicKey, outcome: (State, seq<Callback>), s: State,
                                         log: seq<Callback>, events: seq<Event>, rest: seq<Event>)
    requires s.phase.Panicked? || (s.phase.Waiting? && forall i :: 0 <= i < |events| ==> events[i].Batch?)
    requires Reached(logKey, outcome, s, log, events + rest)
    ensures Reached(logKey, outcome, s, log, rest)
  {
    IgnoredEvents(logKey, s, events, rest);
  }

  lemma {:induction false} NoReplyFails(cache: Option<Cache>, th: TreeHead, next: nat)
    ensures FetchLeaves(cache, th, next, NO_REPLY) == FetchFails
  {
  }
}
