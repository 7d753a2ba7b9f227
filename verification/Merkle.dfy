/** The Merkle tree of section 2.1 of RFC 9162: its root hash, inclusion paths and consistency
    proofs, defined top-down as in the RFC, and the laws that let them be computed bottom-up. */
module Merkle {
  import opened Crypto
  import opened Bits

  /** `split`: the largest power of two smaller than n. */
  function Split(n: nat): (k: nat)
    requires n >= 2
    ensures 1 <= k < n <= 2 * k
  {
    LenBounds(n - 1);
    Pow2(Len64(n - 1) - 1)
  }

  /** MTH of section 2.1.1, on leaf hashes. */
  function MTH(d: seq<Hash>): Hash {
    if |d| == 0 then HashEmptyTree()
    else if |d| == 1 then d[0]
    else
      var k := Split(|d|);
      HashInteriorNode(MTH(d[..k]), MTH(d[k..]))
  }

  /** PATH(m, D) of section 2.1.3.1. */
  function Path(m: nat, d: seq<Hash>): seq<Hash>
    requires m < |d|
    decreases |d|
  {
    if |d| == 1 then []
    else
      var k := Split(|d|);
      if m < k then Path(m, d[..k]) + [MTH(d[k..])]
      else Path(m - k, d[k..]) + [MTH(d[..k])]
  }

  /** SUBPROOF(m, D, b) of section 2.1.4.1. */
  function Subproof(m: nat, d: seq<Hash>, complete: bool): seq<Hash>
    requires 0 < m <= |d|
    decreases |d|
  {
    if m == |d| then (if complete then [] else [MTH(d)])
    else
      var k := Split(|d|);
      if m <= k then Subproof(m, d[..k], complete) + [MTH(d[k..])]
      else Subproof(m - k, d[k..], false) + [MTH(d[..k])]
  }

  /** PROOF(m, D) of section 2.1.4.1, extended with the empty proof for an empty old tree. */
  function Proof(m: nat, d: seq<Hash>): seq<Hash>
    requires m <= |d|
  {
    if m == 0 then [] else Subproof(m, d, true)
  }

  /** The hashes are those of d from index start on. */
  predicate IsRangeOf(hashes: seq<Hash>, start: nat, d: seq<Hash>) {
    start + |hashes| <= |d| && hashes == d[start..start + |hashes|]
  }

  // ---------- One level up ----------

  /** The parents of a layer of nodes: neighbours are paired, an odd last node is promoted. */
  function Up(d: seq<Hash>): (u: seq<Hash>)
    ensures |u| == (|d| + 1) / 2
  {
    seq((|d| + 1) / 2, i requires 0 <= i < (|d| + 1) / 2 =>
      if 2 * i + 1 < |d| then HashInteriorNode(d[2 * i], d[2 * i + 1]) else d[2 * i])
  }

  /** The layer `level` steps above the leaves d. */
  function Level(d: seq<Hash>, level: nat): seq<Hash>
    decreases level
  {
    if level == 0 then d else Level(Up(d), level - 1)
  }

  lemma {:induction false} LevelRec(d: seq<Hash>, k: nat)
    ensures Level(d, k) == if k == 0 then d else Level(Up(d), k - 1)
  {
    hide Up;
  }

  /** The sibling of node m in its layer, if there is one. */
  function Sibling(m: nat, d: seq<Hash>): seq<Hash>
    requires m < |d|
  {
    if IsOdd(m) then [d[m - 1]] else if m + 1 < |d| then [d[m + 1]] else []
  }

  lemma {:induction false} UpAppend(a: seq<Hash>, b: seq<Hash>)
    requires !IsOdd(|a|)
    ensures Up(a + b) == Up(a) + Up(b)
  {
  }

  lemma {:induction false} UpSplit(d: seq<Hash>, k: nat)
    requires k <= |d| && !IsOdd(k)
    ensures Up(d[..k]) == Up(d)[..k / 2] && Up(d[k..]) == Up(d)[k / 2..]
  {
    assert d == d[..k] + d[k..];
    UpAppend(d[..k], d[k..]);
  }

  /** A tree of three or more leaves and the tree of its second layer split at the same node. */
  lemma {:induction false} SplitHalves(n: nat)
    requires n >= 3
    ensures !IsOdd(Split(n)) && Split(n) == 2 * Split((n + 1) / 2)
  {
    var l := Len64(n - 1);
    assert (n + 1) / 2 - 1 == (n - 1) / 2 > 0;
    assert Len64((n - 1) / 2) == l - 1;
    LenBounds((n - 1) / 2);
    assert Pow2(l - 1) == 2 * Pow2(l - 2);
  }

  lemma {:induction false} MTHSplit(d: seq<Hash>)
    requires |d| >= 2
    ensures MTH(d) == HashInteriorNode(MTH(d[..Split(|d|)]), MTH(d[Split(|d|)..]))
  {
    hide HashInteriorNode, Split;
  }

  lemma {:induction false} MTHUpSmall(d: seq<Hash>)
    requires 1 <= |d| <= 2
    ensures MTH(Up(d)) == MTH(d)
  {
    hide HashInteriorNode;
    if |d| == 1 {
      assert Up(d) == d;
    } else {
      assert Up(d) == [HashInteriorNode(d[0], d[1])];
      MTHSplit(d);
      assert MTH(d[..1]) == d[0] && MTH(d[1..]) == d[1];
    }
  }

  /** The top-down root hash is also the root hash of the layer above: the step that every
      bottom-up verifier takes. */
  lemma {:induction false} MTHUp(d: seq<Hash>)
    requires |d| >= 1
    ensures MTH(Up(d)) == MTH(d)
    decreases |d|
  {
    hide *;
    if |d| <= 2 {
      MTHUpSmall(d);
    } else {
      var k := Split(|d|);
      SplitHalves(|d|);
      UpSplit(d, k);
      MTHUp(d[..k]);
      MTHUp(d[k..]);
      MTHSplit(d);
      MTHSplit(Up(d));
    }
  }

  lemma {:induction false} PathSplit(m: nat, d: seq<Hash>)
    requires m < |d| && |d| >= 2
    ensures var k := Split(|d|);
      Path(m, d) == if m < k then Path(m, d[..k]) + [MTH(d[k..])] else Path(m - k, d[k..]) + [MTH(d[..k])]
  {
  }

  lemma {:induction false} PathUpSmall(m: nat, d: seq<Hash>)
    requires m < |d| <= 2
    ensures Path(m, d) == Sibling(m, d) + Path(m / 2, Up(d))
  {
    hide HashInteriorNode;
    if |d| == 1 {
      assert Up(d) == d;
    } else {
      assert Up(d) == [HashInteriorNode(d[0], d[1])];
      assert Path(0, d[..1]) == [] && Path(0, d[1..]) == [];
      assert MTH(d[..1]) == d[0] && MTH(d[1..]) == d[1];
    }
  }

  /** An inclusion path is the sibling followed by the path of the parent. */
  lemma {:induction false} PathUp(m: nat, d: seq<Hash>)
    requires m < |d|
    ensures Path(m, d) == Sibling(m, d) + Path(m / 2, Up(d))
    decreases |d|
  {
    hide Split, MTH, Up, Path, HashInteriorNode;
    if |d| <= 2 {
      PathUpSmall(m, d);
    } else {
      var k := Split(|d|);
      SplitHalves(|d|);
      UpSplit(d, k);
      MTHUp(d[..k]);
      MTHUp(d[k..]);
      PathSplit(m, d);
      PathSplit(m / 2, Up(d));
      if m < k {
        PathUp(m, d[..k]);
        assert Sibling(m, d) == Sibling(m, d[..k]);
      } else {
        PathUp(m - k, d[k..]);
        assert Sibling(m, d) == Sibling(m - k, d[k..]);
        assert (m - k) / 2 == m / 2 - k / 2;
      }
    }
  }

  lemma {:induction false} SubproofRec(m: nat, d: seq<Hash>, complete: bool)
    requires 0 < m <= |d|
    ensures m == |d| ==> Subproof(m, d, complete) == if complete then [] else [MTH(d)]
    ensures m < |d| ==>
      var k := Split(|d|);
      Subproof(m, d, complete) ==
      if m <= k then Subproof(m, d[..k], complete) + [MTH(d[k..])]
      else Subproof(m - k, d[k..], false) + [MTH(d[..k])]
  {
    hide Split, MTH;
  }

  /** A consistency proof from an old tree with an even number of leaves is that of the layer above. */
  lemma {:induction false} SubproofUp(m: nat, d: seq<Hash>, complete: bool)
    requires 0 < m <= |d| && !IsOdd(m)
    ensures Subproof(m, d, complete) == Subproof(m / 2, Up(d), complete)
    decreases |d|
  {
    hide Split, MTH, Up, HashInteriorNode, Subproof;
    MTHUp(d);
    SubproofRec(m, d, complete);
    SubproofRec(m / 2, Up(d), complete);
    if m < |d| {
      var k := Split(|d|);
      SplitHalves(|d|);
      UpSplit(d, k);
      MTHUp(d[..k]);
      MTHUp(d[k..]);
      if m <= k {
        SubproofUp(m, d[..k], complete);
      } else {
        SubproofUp(m - k, d[k..], false);
        assert (m - k) / 2 == m / 2 - k / 2;
      }
    }
  }

  lemma {:induction false} PathOfOne(d: seq<Hash>)
    requires |d| == 1
    ensures Path(0, d) == [] && MTH(d) == d[0]
  {
  }

  /** A consistency proof from an old tree with an odd number of leaves is the last old leaf,
      unless that is the whole old tree, and the inclusion path of that leaf in the new tree. */
  lemma {:induction false} SubproofOdd(m: nat, d: seq<Hash>, complete: bool)
    requires 0 < m <= |d| && IsOdd(m)
    requires m == |d| ==> m == 1
    ensures Subproof(m, d, complete) ==
            (if m == 1 && complete then [] else [d[m - 1]]) + Path(m - 1, d)
    decreases |d|
  {
    hide Split, HashInteriorNode, MTH, Path, Subproof;
    SubproofRec(m, d, complete);
    if m == |d| {
      PathOfOne(d);
    } else {
      var k := Split(|d|);
      PathSplit(m - 1, d);
      if |d| >= 3 { SplitHalves(|d|); }
      if m <= k {
        SubproofOdd(m, d[..k], complete);
      } else {
        SubproofOdd(m - k, d[k..], false);
      }
    }
  }
}
