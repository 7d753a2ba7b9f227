/** Sequences of tree heads in which each one was checked, with a consistency proof, against the one
    before: what a witness and a monitor build. */
module Chains {
  import opened Crypto
  import opened Merkle
  import opened Verify
  import opened Types

  /** The updates that led to a tree head, each with the consistency proof that was accepted for it. */
  datatype Chain = Genesis(start: TreeHead) | Link(prev: Chain, head: TreeHead, path: seq<Hash>)

  function Head(c: Chain): TreeHead {
    if c.Genesis? then c.start else c.head
  }

  predicate ValidChain(c: Chain) {
    c.Link? ==>
      && ValidChain(c.prev) && Head(c.prev).size <= c.head.size
      && ConsistentWith(c.path, Head(c.prev), c.head) == Ok
  }

  predicate OnChain(h: TreeHead, c: Chain) {
    h == Head(c) || (c.Link? && OnChain(h, c.prev))
  }

  lemma {:induction false} ChainIsMonotone(c: Chain, h: TreeHead)
    requires ValidChain(c) && OnChain(h, c)
    ensures h.size <= Head(c).size
    ensures h.size == Head(c).size ==> h == Head(c)
  {
    if h != Head(c) { ChainIsMonotone(c.prev, h); }
  }

  /** If the head of the chain commits to d, every head on it commits to a prefix of d. */
  function ChainSound(c: Chain, d: seq<Hash>, h: TreeHead): (r: MaybeCollision)
    requires ValidChain(c) && Commits(Head(c), d) && OnChain(h, c)
    ensures h.size <= |d|
    ensures r.None? ==> Commits(h, d[..h.size])
  {
    hide MTH, ConsistencyVerdict;
    ChainIsMonotone(c, h);
    if h == Head(c) then
      assert d[..|d|] == d;
      None
    else
      var m := Head(c.prev).size;
      var r := ConsistencySound(d, m, Head(c.prev).rootHash, c.path);
      if r.Some? then r
      else
        ChainIsMonotone(c.prev, h);
        assert d[..m][..h.size] == d[..h.size];
        ChainSound(c.prev, d[..m], h)
  }
}
