/** Compact ranges of `pkg/merkle/tree.go`: the hashes of the perfect subtrees that a list of leaves
    falls into, one for each one-bit of its length, largest first. */
module CompactRange {
  import opened Crypto
  import opened Bits
  import opened Merkle

  /** The largest power of two not above n. */
  function TopPower(n: nat): (k: nat)
    requires n > 0
    ensures 1 <= k <= n < 2 * k
  {
    LenBounds(n);
    Pow2(Len64(n) - 1)
  }

  /** The root hashes of the perfect subtrees, from left to right. */
  function PerfectSubtrees(d: seq<Hash>): seq<Hash> {
    if |d| == 0 then []
    else
      var k := TopPower(|d|);
      [MTH(d[..k])] + PerfectSubtrees(d[k..])
  }

  /** The same list, found layer by layer: an odd last node is a subtree of its own. */
  function RangeByLayers(d: seq<Hash>): seq<Hash>
    decreases |d|
  {
    if |d| == 0 then []
    else if IsOdd(|d|) then RangeByLayers(Up(d[..|d| - 1])) + [d[|d| - 1]]
    else RangeByLayers(Up(d))
  }

  lemma {:induction false} TopPowerHalves(n: nat)
    requires n >= 2
    ensures TopPower(n) == 2 * TopPower(n / 2) && !IsOdd(TopPower(n))
    ensures IsOdd(n) ==> TopPower(n - 1) == TopPower(n)
  {
    assert IsOdd(n) ==> (n - 1) / 2 == n / 2;
  }

  lemma {:induction false} SubtreesUp(d: seq<Hash>)
    requires !IsOdd(|d|)
    ensures PerfectSubtrees(Up(d)) == PerfectSubtrees(d)
    decreases |d|
  {
    hide HashInteriorNode, MTH, Up, TopPower, PerfectSubtrees;
    if |d| == 0 {
      assert Up(d) == d;
    } else {
      var k := TopPower(|d|);
      TopPowerHalves(|d|);
      SubtreesUnfold(d);
      SubtreesUnfold(Up(d));
      UpSplit(d, k);
      MTHUp(d[..k]);
      SubtreesUp(d[k..]);
    }
  }

  lemma {:induction false} SubtreesOdd(d: seq<Hash>)
    requires IsOdd(|d|)
    ensures PerfectSubtrees(d) == PerfectSubtrees(d[..|d| - 1]) + [d[|d| - 1]]
    decreases |d|
  {
    hide HashInteriorNode, TopPower, MTH, PerfectSubtrees;
    var n, k := |d|, TopPower(|d|);
    if n == 1 {
      SubtreesOfOne(d);
    } else {
      TopPowerHalves(n);
      SubtreesUnfold(d);
      SubtreesUnfold(d[..n - 1]);
      SubtreesOdd(d[k..]);
      assert d[..n - 1][..k] == d[..k] && d[..n - 1][k..] == d[k..][..n - 1 - k];
    }
  }

  lemma {:induction false} SubtreesUnfold(d: seq<Hash>)
    requires |d| > 0
    ensures PerfectSubtrees(d) == [MTH(d[..TopPower(|d|)])] + PerfectSubtrees(d[TopPower(|d|)..])
  {
    hide TopPower, MTH;
  }

  lemma {:induction false} SubtreesOfOne(d: seq<Hash>)
    requires |d| == 1
    ensures PerfectSubtrees(d) == d && PerfectSubtrees(d[..0]) == []
  {
    assert d[..1] == d && PerfectSubtrees(d[1..]) == [];
  }

  /** Layer by layer and top-down give the same compact range. */
  lemma {:induction false} RangeIsPerfectSubtrees(d: seq<Hash>)
    ensures RangeByLayers(d) == PerfectSubtrees(d)
    decreases |d|
  {
    hide HashInteriorNode, TopPower, Up, MTH;
    if |d| > 0 {
      if IsOdd(|d|) {
        SubtreesOdd(d);
        SubtreesUp(d[..|d| - 1]);
        RangeIsPerfectSubtrees(Up(d[..|d| - 1]));
      } else {
        SubtreesUp(d);
        RangeIsPerfectSubtrees(Up(d));
      }
    }
  }

  /** There is one entry for each one-bit of the number of leaves. */
  lemma {:induction false} RangeHasOneEntryPerOneBit(d: seq<Hash>)
    ensures |PerfectSubtrees(d)| == OnesCount64(|d|)
    decreases |d|
  {
    hide HashInteriorNode, TopPower, Up, MTH;
    if |d| > 0 {
      var even := if IsOdd(|d|) then d[..|d| - 1] else d;
      if IsOdd(|d|) { SubtreesOdd(d); }
      SubtreesUp(even);
      RangeHasOneEntryPerOneBit(Up(even));
    }
  }

  // ---------- extend ----------

  /** What `extend` returns, when s is the new number of leaves and h the hash to append. */
  function Extended(cr: seq<Hash>, s: nat, h: Hash, makeNode: (Hash, Hash) -> Hash): seq<Hash>
    decreases |cr|
  {
    if |cr| > 0 && !IsOdd(s) then Extended(cr[..|cr| - 1], s / 2, makeNode(cr[|cr| - 1], h), makeNode)
    else cr + [h]
  }

  method Extend(cr: seq<Hash>, i: nat, h: Hash, makeNode: (Hash, Hash) -> Hash) returns (r: seq<Hash>)
    ensures r == Extended(cr, i + 1, h, makeNode)
  {
    var node, s: nat := h, i + 1;
    r := cr;
    while |r| > 0 && !IsOdd(s)
      invariant Extended(r, s, node, makeNode) == Extended(cr, i + 1, h, makeNode)
      decreases |r|
    {
      node, r := makeNode(r[|r| - 1], node), r[..|r| - 1];
      s := s / 2;
    }
    r := r + [node];
  }

  lemma {:induction false} UpPair(even: seq<Hash>, a: Hash, b: Hash)
    requires !IsOdd(|even|)
    ensures Up(even + [a, b]) == Up(even) + [HashInteriorNode(a, b)]
    ensures Up([a, b] + even) == [HashInteriorNode(a, b)] + Up(even)
  {
    hide HashInteriorNode;
    UpAppend(even, [a, b]);
    UpAppend([a, b], even);
    assert Up([a, b]) == [HashInteriorNode(a, b)];
  }

  lemma {:induction false} RangeEven(even: seq<Hash>)
    requires !IsOdd(|even|)
    ensures RangeByLayers(even) == RangeByLayers(Up(even))
  {
    hide Up;
    if even == [] { assert Up(even) == []; }
  }

  lemma {:induction false} RangeOdd(d: seq<Hash>)
    requires IsOdd(|d|)
    ensures RangeByLayers(d) == RangeByLayers(Up(d[..|d| - 1])) + [d[|d| - 1]]
  {
  }

  lemma {:induction false} RangeSteps(even: seq<Hash>, last: Hash)
    requires !IsOdd(|even|)
    ensures RangeByLayers(even) == RangeByLayers(Up(even))
    ensures RangeByLayers(even + [last]) == RangeByLayers(even) + [last]
  {
    hide Up, RangeByLayers;
    RangeEven(even);
    RangeOdd(even + [last]);
    assert (even + [last])[..|even|] == even;
  }

  /** Extending the compact range of d with h gives the compact range of d + [h]. */
  lemma {:induction false} ExtendAppends(d: seq<Hash>, h: Hash)
    ensures Extended(RangeByLayers(d), |d| + 1, h, HashInteriorNode) == RangeByLayers(d + [h])
    decreases |d|
  {
    hide HashInteriorNode, Up, RangeByLayers;
    if IsOdd(|d|) {
      var even, last := d[..|d| - 1], d[|d| - 1];
      assert d == even + [last] && d + [h] == even + [last, h];
      RangeSteps(even, last);
      RangeSteps(even + [last, h], h);
      UpPair(even, last, h);
      ExtendAppends(Up(even), HashInteriorNode(last, h));
      assert (RangeByLayers(even) + [last])[..|RangeByLayers(even)|] == RangeByLayers(even);
    } else {
      RangeSteps(d, h);
    }
  }

  lemma {:induction false} EmptyRange()
    ensures RangeByLayers([]) == []
  {
  }

  method NewCompactRange(leaves: seq<Hash>) returns (cr: seq<Hash>)
    ensures cr == RangeByLayers(leaves) == PerfectSubtrees(leaves)
  {
    hide RangeByLayers, Extended, HashInteriorNode, PerfectSubtrees;
    cr := [];
    EmptyRange();
    for i := 0 to |leaves|
      invariant cr == RangeByLayers(leaves[..i])
    {
      cr := Extend(cr, i, leaves[i], HashInteriorNode);
      ExtendAppends(leaves[..i], leaves[i]);
      assert leaves[..i] + [leaves[i]] == leaves[..i + 1];
    }
    assert leaves[..|leaves|] == leaves;
    RangeIsPerfectSubtrees(leaves);
  }

  // ---------- getRootHash ----------

  /** The subtrees of a compact range, joined from the right. */
  function RangeRoot(cr: seq<Hash>): Hash {
    if |cr| == 0 then HashEmptyTree()
    else if |cr| == 1 then cr[0]
    else HashInteriorNode(cr[0], RangeRoot(cr[1..]))
  }

  method GetRootHash(cr: seq<Hash>) returns (h: Hash)
    ensures h == RangeRoot(cr)
  {
    if |cr| == 0 {
      return HashEmptyTree();
    }
    h := cr[|cr| - 1];
    var i := |cr| - 1;
    while i > 0
      invariant 0 <= i < |cr|
      invariant h == RangeRoot(cr[i..])
    {
      h := HashInteriorNode(cr[i - 1], h);
      assert cr[i - 1..][1..] == cr[i..];
      i := i - 1;
    }
    assert cr[0..] == cr;
  }

  /** A list whose length is not a power of two splits at the size of its first perfect subtree. */
  lemma {:induction false} SplitIsTopPower(n: nat)
    requires n >= 2 && TopPower(n) < n
    ensures Split(n) == TopPower(n)
  {
    PowersApart(Len64(n - 1), Len64(n));
    LenBounds(n - 1);
    LenBounds(n);
  }

  lemma {:induction false} PowersApart(a: nat, b: nat)
    requires a > 0 && b > 0
    ensures a < b ==> 2 * Pow2(a - 1) <= Pow2(b - 1)
    ensures b < a ==> 2 * Pow2(b - 1) <= Pow2(a - 1)
  {
    if a > 1 && b > 1 { PowersApart(a - 1, b - 1); }
  }

  /** The root hash of a compact range is the Merkle tree hash of its leaves. */
  lemma {:induction false} RangeRootIsMTH(d: seq<Hash>)
    ensures RangeRoot(PerfectSubtrees(d)) == MTH(d)
    decreases |d|
  {
    hide HashInteriorNode, TopPower, Split;
    if |d| > 0 {
      var k := TopPower(|d|);
      RangeRootIsMTH(d[k..]);
      if k == |d| {
        assert d[..k] == d && d[k..] == [];
      } else {
        SplitIsTopPower(|d|);
        assert PerfectSubtrees(d[k..]) != [];
        assert PerfectSubtrees(d)[1..] == PerfectSubtrees(d[k..]);
      }
    }
  }

  method RootOf(leaves: seq<Hash>) returns (h: Hash)
    ensures h == MTH(leaves)
  {
    var cr := NewCompactRange(leaves);
    h := GetRootHash(cr);
    RangeRootIsMTH(leaves);
  }
}
