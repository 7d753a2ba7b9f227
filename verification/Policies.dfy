/** `pkg/policy/policy.go`: known logs and witnesses, and the quorum of cosignatures that a tree head needs. */
module Policies {
  import opened Crypto
  import opened Types

  datatype Entity = Entity(publicKey: PublicKey, url: string)

  datatype Quorum = Single(w: Hash) | KofN(subQuorums: seq<Quorum>, k: int)

  datatype Policy = Policy(logs: map<Hash, Entity>, witnesses: map<Hash, Entity>, quorum: Quorum)

  // ---------- IsQuorum ----------

  function Count(qs: seq<Quorum>, verified: set<Hash>): nat
    decreases qs, 0
  {
    if qs == [] then 0
    else Count(qs[..|qs| - 1], verified) + (if IsQuorum(qs[|qs| - 1], verified) then 1 else 0)
  }

  predicate IsQuorum(q: Quorum, verified: set<Hash>)
    decreases q, 1
  {
    match q
    case Single(w) => w in verified
    case KofN(subQuorums, k) => Count(subQuorums, verified) >= k
  }

  method EvalQuorum(q: Quorum, verified: set<Hash>) returns (ok: bool)
    ensures ok <==> IsQuorum(q, verified)
    decreases q
  {
    match q
    case Single(w) => return w in verified;
    case KofN(subQuorums, k) =>
      var c := 0;
      for i := 0 to |subQuorums|
        invariant c == Count(subQuorums[..i], verified)
      {
        assert subQuorums[..i + 1][..i] == subQuorums[..i];
        var sub := EvalQuorum(subQuorums[i], verified);
        if sub {
          c := c + 1;
        }
      }
      assert subQuorums[..|subQuorums|] == subQuorums;
      return c >= k;
  }

  /** The witnesses that a quorum refers to. */
  function Members(q: Quorum): set<Hash>
    decreases q, 1
  {
    match q
    case Single(w) => {w}
    case KofN(subQuorums, _) => AllMembers(subQuorums)
  }

  function AllMembers(qs: seq<Quorum>): set<Hash>
    decreases qs, 0
  {
    if qs == [] then {} else AllMembers(qs[..|qs| - 1]) + Members(qs[|qs| - 1])
  }

  /** No group asks for more members than it has. */
  predicate Attainable(q: Quorum)
    decreases q
  {
    q.KofN? ==> q.k <= |q.subQuorums| && forall sub :: sub in q.subQuorums ==> Attainable(sub)
  }

  /** More verified witnesses never undo a quorum. */
  lemma {:induction false} QuorumIsMonotone(q: Quorum, v: set<Hash>, v': set<Hash>)
    requires v <= v' && IsQuorum(q, v)
    ensures IsQuorum(q, v')
    decreases q, 1
  {
    if q.KofN? { CountIsMonotone(q.subQuorums, v, v'); }
  }

  lemma {:induction false} CountIsMonotone(qs: seq<Quorum>, v: set<Hash>, v': set<Hash>)
    requires v <= v'
    ensures Count(qs, v) <= Count(qs, v')
    decreases qs, 0
  {
    if qs != [] {
      CountIsMonotone(qs[..|qs| - 1], v, v');
      if IsQuorum(qs[|qs| - 1], v) { QuorumIsMonotone(qs[|qs| - 1], v, v'); }
    }
  }

  /** Only the members matter. */
  lemma {:induction false} QuorumDependsOnMembers(q: Quorum, v: set<Hash>, v': set<Hash>)
    requires v * Members(q) == v' * Members(q)
    ensures IsQuorum(q, v) == IsQuorum(q, v')
    decreases q, 1
  {
    match q
    case Single(w) => assert w in v <==> w in v * Members(q);
    case KofN(subQuorums, _) => CountDependsOnMembers(subQuorums, v, v');
  }

  lemma {:induction false} CountDependsOnMembers(qs: seq<Quorum>, v: set<Hash>, v': set<Hash>)
    requires v * AllMembers(qs) == v' * AllMembers(qs)
    ensures Count(qs, v) == Count(qs, v')
    decreases qs, 0
  {
    if qs != [] {
      var init, last := qs[..|qs| - 1], qs[|qs| - 1];
      RestrictTo(v, v', AllMembers(qs), AllMembers(init));
      RestrictTo(v, v', AllMembers(qs), Members(last));
      CountDependsOnMembers(init, v, v');
      QuorumDependsOnMembers(last, v, v');
    }
  }

  lemma {:induction false} RestrictTo(v: set<Hash>, v': set<Hash>, a: set<Hash>, b: set<Hash>)
    requires v * a == v' * a && b <= a
    ensures v * b == v' * b
  {
    assert forall x :: x in b ==> (x in v <==> x in v * a);
    assert forall x :: x in b ==> (x in v' <==> x in v' * a);
  }

  /** If no group asks for too much, all members together are a quorum. */
  lemma {:induction false} AllMembersAreQuorum(q: Quorum, v: set<Hash>)
    requires Attainable(q) && Members(q) <= v
    ensures IsQuorum(q, v)
    decreases q, 1
  {
    if q.KofN? { AllMembersCount(q.subQuorums, v); }
  }

  lemma {:induction false} AllMembersCount(qs: seq<Quorum>, v: set<Hash>)
    requires (forall sub :: sub in qs ==> Attainable(sub)) && AllMembers(qs) <= v
    ensures Count(qs, v) == |qs|
    decreases qs, 0
  {
    if qs != [] {
      var init, last := qs[..|qs| - 1], qs[|qs| - 1];
      assert last in qs && forall sub :: sub in init ==> sub in qs;
      AllMembersCount(init, v);
      AllMembersAreQuorum(last, v);
    }
  }

  /** "any" asks for some member, and "all" for every member. */
  lemma {:induction false} AnyAndAll(qs: seq<Quorum>, v: set<Hash>)
    ensures IsQuorum(KofN(qs, 1), v) <==> exists i :: 0 <= i < |qs| && IsQuorum(qs[i], v)
    ensures IsQuorum(KofN(qs, |qs|), v) <==> forall i :: 0 <= i < |qs| ==> IsQuorum(qs[i], v)
  {
    CountBounds(qs, v);
  }

  lemma {:induction false} CountBounds(qs: seq<Quorum>, v: set<Hash>)
    ensures Count(qs, v) <= |qs|
    ensures Count(qs, v) > 0 <==> exists i :: 0 <= i < |qs| && IsQuorum(qs[i], v)
    ensures Count(qs, v) == |qs| <==> forall i :: 0 <= i < |qs| ==> IsQuorum(qs[i], v)
    decreases |qs|
  {
    hide IsQuorum;
    if qs != [] {
      var init, last := qs[..|qs| - 1], qs[|qs| - 1];
      CountBounds(init, v);
      assert forall i :: 0 <= i < |init| ==> init[i] == qs[i];
    }
  }

  /** The members of a group that hold. */
  function Holding(qs: seq<Quorum>, v: set<Hash>): set<nat> {
    set i: nat | i < |qs| && IsQuorum(qs[i], v)
  }

  /** A group holds when at least k of its members do, each counted once for each time that it is listed. */
  lemma {:induction false} GroupHolds(qs: seq<Quorum>, k: int, v: set<Hash>)
    ensures IsQuorum(KofN(qs, k), v) <==> |Holding(qs, v)| >= k
  {
    CountIsCardinality(qs, v);
  }

  lemma {:induction false} CountIsCardinality(qs: seq<Quorum>, v: set<Hash>)
    ensures Count(qs, v) == |Holding(qs, v)|
    decreases |qs|
  {
    hide IsQuorum;
    if qs == [] {
      assert Holding(qs, v) == {};
    } else {
      var n := |qs| - 1;
      CountIsCardinality(qs[..n], v);
      assert Holding(qs, v) == Holding(qs[..n], v) + (if IsQuorum(qs[n], v) then {n} else {});
    }
  }

  // ---------- Logs and witnesses to contact ----------

  ghost predicate IsListed(m: map<Hash, Entity>, e: Entity) {
    e.url != "" && exists h :: h in m && m[h] == e
  }

  /** `randomizeEntities`: the entities with a URL, in an arbitrary order. */
  method RandomizeEntities(m: map<Hash, Entity>) returns (entities: seq<Entity>, ghost order: seq<Hash>)
    ensures forall e :: e in entities <==> IsListed(m, e)
    ensures |entities| == |order| && forall i :: 0 <= i < |order| ==> order[i] in m && entities[i] == m[order[i]]
    ensures forall h :: h in order <==> h in m && m[h].url != ""
    ensures forall i, j :: 0 <= i < j < |order| ==> order[i] != order[j]
  {
    entities, order := [], [];
    var todo := m.Keys;
    while todo != {}
      invariant todo <= m.Keys && |entities| == |order|
      invariant forall i :: 0 <= i < |order| ==> order[i] in m && entities[i] == m[order[i]]
      invariant forall h :: h in order <==> h in m.Keys - todo && m[h].url != ""
      invariant forall i, j :: 0 <= i < j < |order| ==> order[i] != order[j]
    {
      var h :| h in todo;
      todo := todo - {h};
      if |m[h].url| > 0 {
        entities, order := entities + [m[h]], order + [h];
      }
    }
  }

  // ---------- VerifyCosignedTreeHead ----------

  /** The known witnesses whose cosignature on the tree head is valid. */
  function VerifiedWitnesses(p: Policy, log: Entity, cth: CosignedTreeHead): set<Hash> {
    set keyHash | keyHash in cth.cosignatures && IsVerified(p, log, cth, keyHash)
  }

  predicate IsVerified(p: Policy, log: Entity, cth: CosignedTreeHead, keyHash: Hash)
    requires keyHash in cth.cosignatures
  {
    && keyHash in p.witnesses
    && cth.cosignatures[keyHash].VerifiedBy(p.witnesses[keyHash].publicKey,
                                            SigsumCheckpointOrigin(log.publicKey), cth.signed.treeHead)
  }

  predicate AcceptsTreeHead(p: Policy, logKeyHash: Hash, cth: CosignedTreeHead) {
    && logKeyHash in p.logs
    && cth.signed.VerifiedBy(p.logs[logKeyHash].publicKey)
    && IsQuorum(p.quorum, VerifiedWitnesses(p, p.logs[logKeyHash], cth))
  }

  method VerifyCosignedTreeHead(p: Policy, logKeyHash: Hash, cth: CosignedTreeHead) returns (ok: bool)
    ensures ok <==> AcceptsTreeHead(p, logKeyHash, cth)
    ensures ok <==>
      && logKeyHash in p.logs
      && var key := p.logs[logKeyHash].publicKey;
      && VerifySignature(key, FormatCheckpoint(SigsumCheckpointOrigin(key), cth.signed.treeHead), cth.signed.signature)
      && IsQuorum(p.quorum, ValidEntries(p, key, cth).Keys)
  {
    if logKeyHash !in p.logs {
      return false;
    }
    OnlyValidEntriesCount(p, logKeyHash, cth);
    var log := p.logs[logKeyHash];
    if !cth.signed.VerifiedBy(log.publicKey) {
      return false;
    }
    var verified: set<Hash> := {};
    var todo := cth.cosignatures.Keys;
    while todo != {}
      invariant todo <= cth.cosignatures.Keys
      invariant verified == VerifiedWitnesses(p, log, cth) - todo
    {
      var keyHash :| keyHash in todo;  // the source iterates in an arbitrary order
      todo := todo - {keyHash};
      if IsVerified(p, log, cth, keyHash) {
        verified := verified + {keyHash};
      }
    }
    assert verified == VerifiedWitnesses(p, log, cth);
    ok := EvalQuorum(p.quorum, verified);
  }

  /** Cosignatures by further keys never turn acceptance into rejection, and those by unknown keys make
      no difference. */
  lemma {:induction false} MoreCosignatures(p: Policy, logKeyHash: Hash, cth: CosignedTreeHead, cth': CosignedTreeHead)
    requires cth'.signed == cth.signed && cth.cosignatures.Keys <= cth'.cosignatures.Keys
    requires forall h :: h in cth.cosignatures ==> cth'.cosignatures[h] == cth.cosignatures[h]
    ensures AcceptsTreeHead(p, logKeyHash, cth) ==> AcceptsTreeHead(p, logKeyHash, cth')
    ensures cth'.cosignatures.Keys - cth.cosignatures.Keys !! p.witnesses.Keys ==>
      (AcceptsTreeHead(p, logKeyHash, cth) <==> AcceptsTreeHead(p, logKeyHash, cth'))
  {
    hide IsQuorum;
    if logKeyHash in p.logs {
      var log := p.logs[logKeyHash];
      var v, v' := VerifiedWitnesses(p, log, cth), VerifiedWitnesses(p, log, cth');
      assert v <= v';
      if IsQuorum(p.quorum, v) { QuorumIsMonotone(p.quorum, v, v'); }
      if cth'.cosignatures.Keys - cth.cosignatures.Keys !! p.witnesses.Keys {
        assert v == v';
      }
    }
  }

  /** The entries whose signature verifies: each with the key of the witness that the policy has under that
      hash, over the tree head, the timestamp of the entry, and the origin line of the log. */
  function ValidEntries(p: Policy, log: PublicKey, cth: CosignedTreeHead): map<Hash, Cosignature> {
    map h | h in cth.cosignatures && h in p.witnesses
            && VerifySignature(p.witnesses[h].publicKey,
                               ToCosignedData(SigsumCheckpointOrigin(log), cth.cosignatures[h].timestamp,
                                              cth.signed.treeHead),
                               cth.cosignatures[h].signature)
          :: cth.cosignatures[h]
  }

  /** Entries that do not verify count for nothing: without them a tree head is accepted or not as before. */
  lemma {:induction false} OnlyValidEntriesCount(p: Policy, logKeyHash: Hash, cth: CosignedTreeHead)
    requires logKeyHash in p.logs
    ensures var valid := ValidEntries(p, p.logs[logKeyHash].publicKey, cth);
      && (AcceptsTreeHead(p, logKeyHash, cth) <==>
            AcceptsTreeHead(p, logKeyHash, cth.(cosignatures := valid)))
      && (AcceptsTreeHead(p, logKeyHash, cth) <==>
            && IsQuorum(p.quorum, valid.Keys)
            && VerifySignature(p.logs[logKeyHash].publicKey,
                               FormatCheckpoint(SigsumCheckpointOrigin(p.logs[logKeyHash].publicKey),
                                                cth.signed.treeHead),
                               cth.signed.signature))
  {
    hide IsQuorum;
    var log := p.logs[logKeyHash];
    var valid := ValidEntries(p, log.publicKey, cth);
    assert VerifiedWitnesses(p, log, cth) == valid.Keys;
    assert VerifiedWitnesses(p, log, cth.(cosignatures := valid)) == valid.Keys;
  }

  // ---------- Building a policy ----------

  function KeyHash(key: PublicKey): Hash {
    HashBytes(key.bytes)
  }

  /** Every entity is found under the hash of its key, and the quorum refers to known witnesses only and
      can be attained. */
  predicate WellFormed(p: Policy) {
    && (forall h :: h in p.logs ==> KeyHash(p.logs[h].publicKey) == h)
    && (forall h :: h in p.witnesses ==> KeyHash(p.witnesses[h].publicKey) == h)
    && Members(p.quorum) <= p.witnesses.Keys && Attainable(p.quorum)
  }

  /** A tree head that is signed by a known log and cosigned by all witnesses is accepted. */
  lemma {:induction false} FullyCosignedIsAccepted(p: Policy, logKeyHash: Hash, cth: CosignedTreeHead)
    requires WellFormed(p) && logKeyHash in p.logs
    requires cth.signed.VerifiedBy(p.logs[logKeyHash].publicKey)
    requires forall h :: h in p.witnesses ==> h in cth.cosignatures && IsVerified(p, p.logs[logKeyHash], cth, h)
    ensures AcceptsTreeHead(p, logKeyHash, cth)
  {
    AllMembersAreQuorum(p.quorum, VerifiedWitnesses(p, p.logs[logKeyHash], cth));
  }

  function Singles(ws: seq<PublicKey>): seq<Quorum> {
    seq(|ws|, i requires 0 <= i < |ws| => Single(KeyHash(ws[i])))
  }

  function KeyHashes(ws: seq<PublicKey>): set<Hash> {
    set i | 0 <= i < |ws| :: KeyHash(ws[i])
  }

  /** `NewKofNPolicy`: fails when there are fewer than k witnesses, or two entities with the same key hash. */
  method NewKofNPolicy(logs: seq<PublicKey>, witnesses: seq<PublicKey>, k: int) returns (p: Option<Policy>)
    ensures p.Some? <==> k <= |witnesses| && Distinct(logs) && Distinct(witnesses)
    ensures p.Some? ==>
      IsKofN(p.value, logs, witnesses, k) && WellFormed(p.value)
  {
    if k > |witnesses| {
      return None;
    }
    var logMap := AddAll(logs);
    if logMap == None {
      return None;
    }
    var witnessMap := AddAll(witnesses);
    if witnessMap == None {
      return None;
    }
    SinglesAreFine(witnesses);
    return Some(Policy(logMap.value, witnessMap.value, KofN(Singles(witnesses), k)));
  }

  predicate Distinct(keys: seq<PublicKey>) {
    forall i, j :: 0 <= i < j < |keys| ==> KeyHash(keys[i]) != KeyHash(keys[j])
  }

  /** Exactly the given keys, each under its hash and without a URL. */
  predicate AreEntitiesOf(m: map<Hash, Entity>, keys: seq<PublicKey>) {
    && m.Keys == KeyHashes(keys)
    && forall i :: 0 <= i < |keys| ==> KeyHash(keys[i]) in m && m[KeyHash(keys[i])] == Entity(keys[i], "")
  }

  /** `addLog` or `addWitness` for each key. */
  method AddAll(keys: seq<PublicKey>) returns (m: Option<map<Hash, Entity>>)
    ensures m.Some? <==> Distinct(keys)
    ensures m.Some? ==> AreEntitiesOf(m.value, keys)
  {
    hide AreEntitiesOf, Distinct, KeyHash;
    var entities: map<Hash, Entity> := map[];
    NoEntities();
    assert keys[..0] == [];
    for i := 0 to |keys|
      invariant Distinct(keys[..i]) && AreEntitiesOf(entities, keys[..i])
    {
      var h := KeyHash(keys[i]);
      assert keys[..i + 1] == keys[..i] + [keys[i]];
      AddOne(entities, keys[..i], keys[i]);
      if h in entities {
        NotDistinct(keys, i + 1);
        return None;
      }
      entities := entities[h := Entity(keys[i], "")];
    }
    assert keys[..|keys|] == keys;
    return Some(entities);
  }

  lemma {:induction false} NoEntities()
    ensures Distinct([]) && AreEntitiesOf(map[], [])
  {
  }

  /** A key is either new, and can be added, or has the hash of one of the others. */
  lemma {:induction false} AddOne(m: map<Hash, Entity>, keys: seq<PublicKey>, key: PublicKey)
    requires Distinct(keys) && AreEntitiesOf(m, keys)
    ensures Distinct(keys + [key]) <==> KeyHash(key) !in m
    ensures KeyHash(key) !in m ==> AreEntitiesOf(m[KeyHash(key) := Entity(key, "")], keys + [key])
  {
    hide KeyHash;
    KeyHashesAppend(keys, key);
    var all := keys + [key];
    if KeyHash(key) in m {
      var j :| 0 <= j < |keys| && KeyHash(keys[j]) == KeyHash(key);
      assert KeyHash(all[j]) == KeyHash(all[|keys|]);
    }
  }

  lemma {:induction false} NotDistinct(keys: seq<PublicKey>, n: nat)
    requires n <= |keys| && !Distinct(keys[..n])
    ensures !Distinct(keys)
  {
    var i, j :| 0 <= i < j < n && KeyHash(keys[..n][i]) == KeyHash(keys[..n][j]);
    assert KeyHash(keys[i]) == KeyHash(keys[j]);
  }

  lemma {:induction false} KeyHashesAppend(keys: seq<PublicKey>, key: PublicKey)
    ensures KeyHashes(keys + [key]) == KeyHashes(keys) + {KeyHash(key)}
  {
    var all := keys + [key];
    forall h | h in KeyHashes(keys) + {KeyHash(key)} ensures h in KeyHashes(all) {
      if h == KeyHash(key) {
        assert KeyHash(all[|keys|]) == h;
      } else {
        var i :| 0 <= i < |keys| && KeyHash(keys[i]) == h;
        assert KeyHash(all[i]) == h;
      }
    }
  }

  lemma {:induction false} SinglesAreFine(ws: seq<PublicKey>)
    ensures AllMembers(Singles(ws)) == KeyHashes(ws)
    ensures forall q :: q in Singles(ws) ==> Attainable(q)
    decreases |ws|
  {
    if ws != [] {
      var init, last := ws[..|ws| - 1], ws[|ws| - 1];
      SinglesAreFine(init);
      assert Singles(ws)[..|ws| - 1] == Singles(init);
      KeyHashesAppend(init, last);
      assert ws == init + [last];
    }
  }

  /** The quorum of k out of n distinct witnesses: at least k of them are verified. */
  lemma {:induction false} KofNCounts(ws: seq<PublicKey>, k: int, verified: set<Hash>)
    requires Distinct(ws)
    ensures IsQuorum(KofN(Singles(ws), k), verified) <==> |verified * KeyHashes(ws)| >= k
  {
    SinglesCount(ws, verified);
  }

  /** The policy that NewKofNPolicy makes. */
  predicate IsKofN(p: Policy, logs: seq<PublicKey>, witnesses: seq<PublicKey>, k: int) {
    && p.quorum == KofN(Singles(witnesses), k)
    && AreEntitiesOf(p.logs, logs) && AreEntitiesOf(p.witnesses, witnesses)
  }

  /** The key has an entry under its hash, and its signature on the tree head verifies. */
  predicate Cosigns(w: PublicKey, log: PublicKey, cth: CosignedTreeHead) {
    var h := HashBytes(w.bytes);
    && h in cth.cosignatures
    && VerifySignature(w, ToCosignedData(SigsumCheckpointOrigin(log), cth.cosignatures[h].timestamp,
                                               cth.signed.treeHead),
                       cth.cosignatures[h].signature)
  }

  function Cosigners(witnesses: seq<PublicKey>, log: PublicKey, cth: CosignedTreeHead): set<nat> {
    set i: nat | i < |witnesses| && Cosigns(witnesses[i], log, cth)
  }

  /** Signature by signature: under a k-of-n policy a tree head is accepted if and only if it is signed by
      the listed log whose key has the hash, and cosigned by at least k of the listed witnesses. */
  lemma {:induction false} KofNAccepts(p: Policy, logs: seq<PublicKey>, witnesses: seq<PublicKey>, k: int,
                                       logKeyHash: Hash, cth: CosignedTreeHead)
    requires IsKofN(p, logs, witnesses, k) && Distinct(logs) && Distinct(witnesses)
    ensures AcceptsTreeHead(p, logKeyHash, cth) <==>
      exists i :: 0 <= i < |logs| && HashBytes(logs[i].bytes) == logKeyHash
        && VerifySignature(logs[i], FormatCheckpoint(SigsumCheckpointOrigin(logs[i]), cth.signed.treeHead),
                           cth.signed.signature)
        && |Cosigners(witnesses, logs[i], cth)| >= k
  {
    hide IsQuorum;
    forall i | 0 <= i < |logs| && HashBytes(logs[i].bytes) == logKeyHash
      ensures logKeyHash in p.logs && p.logs[logKeyHash].publicKey == logs[i]
      ensures IsQuorum(p.quorum, VerifiedWitnesses(p, p.logs[logKeyHash], cth)) <==>
              |Cosigners(witnesses, logs[i], cth)| >= k
    {
      assert KeyHash(logs[i]) == logKeyHash;
      VerifiedAreCosigners(p, witnesses, p.logs[logKeyHash], cth);
      GroupHolds(Singles(witnesses), k, VerifiedWitnesses(p, p.logs[logKeyHash], cth));
    }
    if logKeyHash in p.logs {
      assert logKeyHash in KeyHashes(logs);
      var i :| 0 <= i < |logs| && KeyHash(logs[i]) == logKeyHash;
    }
  }

  lemma {:induction false} VerifiedAreCosigners(p: Policy, witnesses: seq<PublicKey>, log: Entity,
                                                cth: CosignedTreeHead)
    requires AreEntitiesOf(p.witnesses, witnesses)
    ensures Holding(Singles(witnesses), VerifiedWitnesses(p, log, cth)) == Cosigners(witnesses, log.publicKey, cth)
  {
    var v := VerifiedWitnesses(p, log, cth);
    forall i: nat | i < |witnesses|
      ensures IsQuorum(Singles(witnesses)[i], v) <==> Cosigns(witnesses[i], log.publicKey, cth)
    {
      assert Singles(witnesses)[i] == Single(KeyHash(witnesses[i]));
      assert p.witnesses[KeyHash(witnesses[i])].publicKey == witnesses[i];
    }
  }

  lemma {:induction false} SinglesCount(ws: seq<PublicKey>, verified: set<Hash>)
    requires Distinct(ws)
    ensures Count(Singles(ws), verified) == |verified * KeyHashes(ws)|
    decreases |ws|
  {
    if ws == [] {
      assert verified * KeyHashes(ws) == {};
    } else {
      var init, last := ws[..|ws| - 1], ws[|ws| - 1];
      SinglesCount(init, verified);
      assert ws == init + [last] && Singles(ws)[..|ws| - 1] == Singles(init);
      assert Singles(ws)[|ws| - 1] == Single(KeyHash(last));
      LastIsNew(init, last, verified);
    }
  }

  lemma {:induction false} LastIsNew(init: seq<PublicKey>, last: PublicKey, verified: set<Hash>)
    requires Distinct(init + [last])
    ensures |verified * KeyHashes(init + [last])| ==
            |verified * KeyHashes(init)| + (if KeyHash(last) in verified then 1 else 0)
  {
    var h := KeyHash(last);
    KeyHashesAppend(init, last);
    var ws := init + [last];
    assert forall i :: 0 <= i < |init| ==> init[i] == ws[i] && KeyHash(ws[i]) != KeyHash(ws[|init|]);
    var before := verified * KeyHashes(init);
    assert verified * KeyHashes(init + [last]) == if h in verified then before + {h} else before;
  }
}
