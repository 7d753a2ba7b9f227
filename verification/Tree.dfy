/** The Merkle tree of `pkg/merkle/tree.go`: an append-only list of distinct leaf hashes that proves
    inclusion and consistency for itself and for every earlier version of itself. */
module Tree {
  import opened Crypto
  import opened Bits
  import opened Merkle
  import opened CompactRange
  import opened Verify

  // ---------- The provers, from the root down ----------

  function Reversed(s: seq<Hash>): (r: seq<Hash>)
    ensures |r| == |s|
    ensures forall i :: 0 <= i < |s| ==> r[i] == s[|s| - 1 - i]
  {
    if s == [] then [] else Reversed(s[1..]) + [s[0]]
  }

  lemma {:induction false} ReversedAppend(s: seq<Hash>, x: Hash)
    ensures Reversed(s + [x]) == [x] + Reversed(s)
  {
  }

  lemma {:induction false} ReversedTwice(s: seq<Hash>)
    ensures Reversed(Reversed(s)) == s
  {
  }

  /** `reversePath` */
  method ReversePath(p: array<Hash>)
    modifies p
    ensures p[..] == Reversed(old(p[..]))
  {
    hide Reversed;
    ghost var was := p[..];
    var n, i := p.Length, 0;
    while i < n - 1 - i
      invariant 0 <= i <= n - i + 1
      invariant forall j :: 0 <= j < i ==> p[j] == was[n - 1 - j]
      invariant forall j :: i <= j < n - i ==> p[j] == was[j]
      invariant forall j :: 0 <= n - i <= j < n ==> p[j] == was[n - 1 - j]
    {
      p[i], p[n - 1 - i] := p[n - 1 - i], p[i];
      i := i + 1;
    }
    assert p[..] == Reversed(was);
  }

  /** A perfect subtree at the start of a larger list is also where a long prefix of it splits. */
  lemma {:induction false} SameSplit(n: nat, size: nat)
    requires size >= 2 && Split(size) < n <= size
    ensures Split(n) == Split(size)
  {
    LenBounds(n - 1);
    LenBounds(size - 1);
    PowersApart(Len64(n - 1), Len64(size - 1));
  }

  /** The first entry of a compact range of two or more entries, and the rest. */
  lemma {:induction false} FirstSubtree(d: seq<Hash>)
    requires |PerfectSubtrees(d)| > 1
    ensures |d| >= 2
    ensures PerfectSubtrees(d)[0] == MTH(d[..Split(|d|)])
    ensures PerfectSubtrees(d)[1..] == PerfectSubtrees(d[Split(|d|)..])
  {
    hide MTH, Split, TopPower;
    var k := TopPower(|d|);
    if k < |d| {
      SplitIsTopPower(|d|);
    }
  }

  /** `inclusion`: the path from the root down.  The compact range is that of a list `all` of which
      leaves is a prefix; its hashes are reused while the split is the same in both. */
  method Inclusion(leaves: seq<Hash>, m: nat, cRange: seq<Hash>, size: nat, ghost all: seq<Hash>)
    returns (p: seq<Hash>)
    requires m < |leaves| && leaves <= all
    requires size == |all| && cRange == PerfectSubtrees(all)
    ensures p == Reversed(Path(m, leaves))
  {
    hide MTH, Split, PerfectSubtrees, Path, Reversed;
    var leaves', m', cRange', size' := leaves, m, cRange, size;
    ghost var all' := all;
    p := [];
    while |leaves'| > 1 && |cRange'| > 1
      invariant 0 <= m' < |leaves'| && leaves' <= all'
      invariant size' == |all'| && cRange' == PerfectSubtrees(all')
      invariant p + Reversed(Path(m', leaves')) == Reversed(Path(m, leaves))
      decreases |leaves'|
    {
      FirstSubtree(all');
      var k := Split(size');
      if m' < k {
        break;
      }
      SameSplit(|leaves'|, size');
      PathSplit(m', leaves');
      ReversedAppend(Path(m' - k, leaves'[k..]), MTH(leaves'[..k]));
      assert all'[..k] == leaves'[..k];
      p := p + [cRange'[0]];
      cRange', size', leaves', m' := cRange'[1..], size' - k, leaves'[k..], m' - k;
      all' := all'[k..];
    }

    while |leaves'| > 1
      invariant 0 <= m' < |leaves'|
      invariant p + Reversed(Path(m', leaves')) == Reversed(Path(m, leaves))
      decreases |leaves'|
    {
      var k := Split(|leaves'|);
      PathSplit(m', leaves');
      if m' < k {
        ReversedAppend(Path(m', leaves'[..k]), MTH(leaves'[k..]));
        var h := RootOf(leaves'[k..]);
        p := p + [h];
        leaves' := leaves'[..k];
      } else {
        ReversedAppend(Path(m' - k, leaves'[k..]), MTH(leaves'[..k]));
        var h := RootOf(leaves'[..k]);
        p := p + [h];
        leaves', m' := leaves'[k..], m' - k;
      }
    }
    Singleton(leaves');
    assert Reversed(Path(m', leaves')) == [];
  }

  lemma {:induction false} SubproofEnd(d: seq<Hash>, complete: bool)
    requires |d| > 0
    ensures Reversed(Subproof(|d|, d, complete)) == if complete then [] else [MTH(d)]
  {
  }

  /** One turn of the loops of `consistency`, after the elements in p. */
  lemma {:induction false} ReversedSubproof(m: nat, d: seq<Hash>, complete: bool, p: seq<Hash>)
    requires 0 < m < |d|
    ensures var k := Split(|d|);
      p + Reversed(Subproof(m, d, complete)) ==
      if m <= k then p + [MTH(d[k..])] + Reversed(Subproof(m, d[..k], complete))
      else p + [MTH(d[..k])] + Reversed(Subproof(m - k, d[k..], false))
  {
    hide MTH, Split, Subproof, Reversed;
    var k := Split(|d|);
    SubproofRec(m, d, complete);
    if m <= k {
      ReversedAppend(Subproof(m, d[..k], complete), MTH(d[k..]));
    } else {
      ReversedAppend(Subproof(m - k, d[k..], false), MTH(d[..k]));
    }
  }

  /** `consistency`: the proof from the root down, see Inclusion for the other parameters. */
  method Consistency(leaves: seq<Hash>, m: nat, cRange: seq<Hash>, size: nat, ghost all: seq<Hash>)
    returns (p: seq<Hash>)
    requires 0 < m <= |leaves| && leaves <= all
    requires size == |all| && cRange == PerfectSubtrees(all)
    ensures p == Reversed(Subproof(m, leaves, true))
  {
    hide MTH, Split, PerfectSubtrees, Subproof, Reversed;
    var leaves', m', cRange', size' := leaves, m, cRange, size;
    ghost var all' := all;
    var complete := true;
    p := [];
    while |cRange'| > 1
      invariant 0 < m' <= |leaves'| && leaves' <= all'
      invariant size' == |all'| && cRange' == PerfectSubtrees(all')
      invariant p + Reversed(Subproof(m', leaves', complete)) == Reversed(Subproof(m, leaves, true))
      decreases |leaves'|
    {
      if m' == |leaves'| {
        break;
      }
      FirstSubtree(all');
      var k := Split(size');
      if m' <= k {
        break;
      }
      SameSplit(|leaves'|, size');
      ReversedSubproof(m', leaves', complete, p);
      assert all'[..k] == leaves'[..k];
      p := p + [cRange'[0]];
      cRange', size', leaves', m', complete := cRange'[1..], size' - k, leaves'[k..], m' - k, false;
      all' := all'[k..];
    }

    while true
      invariant 0 < m' <= |leaves'|  // the source panics when m exceeds the number of leaves
      invariant p + Reversed(Subproof(m', leaves', complete)) == Reversed(Subproof(m, leaves, true))
      decreases |leaves'|
    {
      var n := |leaves'|;
      if m' == n {
        SubproofEnd(leaves', complete);
        if complete {
          return;
        }
        var h := RootOf(leaves');
        return p + [h];
      }
      var k := Split(n);
      ReversedSubproof(m', leaves', complete, p);
      if m' <= k {
        var h := RootOf(leaves'[k..]);
        p := p + [h];
        leaves' := leaves'[..k];
      } else {
        var h := RootOf(leaves'[..k]);
        p := p + [h];
        leaves', m', complete := leaves'[k..], m' - k, false;
      }
    }
  }

  // ---------- The tree ----------

  class Tree {
    var leaves: seq<Hash>
    /** Maps leaf hash to index. */
    var leafIndex: map<Hash, nat>
    var cRange: seq<Hash>

    /** The compact range is that of the leaves, and the index is the inverse of the leaf list. */
    ghost predicate Valid()
      reads this
    {
      && cRange == PerfectSubtrees(leaves)
      && (forall i :: 0 <= i < |leaves| ==> leaves[i] in leafIndex && leafIndex[leaves[i]] == i)
      && (forall h :: h in leafIndex ==> leafIndex[h] < |leaves| && leaves[leafIndex[h]] == h)
    }

    constructor ()
      ensures Valid() && leaves == []
    {
      leaves, leafIndex, cRange := [], map[], [];
    }

    method Size() returns (n: nat)
      ensures n == |leaves|
    {
      return |leaves|;
    }

    /** Appends the leaf, unless it is a duplicate. */
    method AddLeafHash(leafHash: Hash) returns (added: bool)
      requires Valid()
      modifies this
      ensures Valid()
      ensures added <==> leafHash !in old(leaves)
      ensures leaves == if added then old(leaves) + [leafHash] else old(leaves)
    {
      hide PerfectSubtrees, RangeByLayers, Extended, HashInteriorNode;
      if leafHash in leafIndex {
        return false;
      }
      leafIndex := leafIndex[leafHash := |leaves|];
      leaves := leaves + [leafHash];
      RangeIsPerfectSubtrees(old(leaves));
      RangeIsPerfectSubtrees(leaves);
      ExtendAppends(old(leaves), leafHash);
      cRange := Extend(cRange, |leaves| - 1, leafHash, HashInteriorNode);
      return true;
    }

    /** The position of the leaf, if it is present. */
    method GetLeafIndex(leafHash: Hash) returns (index: Option<nat>)
      requires Valid()
      ensures index.Some? <==> leafHash in leaves
      ensures index.Some? ==> index.value < |leaves| && leaves[index.value] == leafHash
    {
      return if leafHash in leafIndex then Some(leafIndex[leafHash]) else None;
    }

    method GetTreeRootHash() returns (h: Hash)
      requires Valid()
      ensures h == MTH(leaves)
    {
      h := GetRootHash(cRange);
      RangeRootIsMTH(leaves);
    }

    /** PATH(index, D[size]) of RFC 9162 for any version of the tree up to the current one. */
    method ProveInclusion(index: nat, size: nat) returns (path: Option<seq<Hash>>)
      requires Valid()
      ensures path == if index < size <= |leaves| then Some(Path(index, leaves[..size])) else None
    {
      hide PerfectSubtrees, Path, Reversed;
      if index >= size || size > |leaves| {
        return None;
      }
      var p := Inclusion(leaves[..size], index, cRange, |leaves|, leaves);
      var a := new Hash[|p|](i requires 0 <= i < |p| => p[i]);
      assert a[..] == p;
      ReversePath(a);
      ReversedTwice(Path(index, leaves[..size]));
      return Some(a[..]);
    }

    /** PROOF(m, D[n]) of RFC 9162 between any two versions of the tree up to the current one. */
    method ProveConsistency(m: nat, n: nat) returns (path: Option<seq<Hash>>)
      requires Valid()
      ensures path == if m <= n <= |leaves| then Some(Proof(m, leaves[..n])) else None
    {
      hide PerfectSubtrees, Subproof, Reversed;
      if n > |leaves| || m > n {
        return None;
      }
      if m == 0 || m == n {
        if m > 0 {
          SubproofWhole(leaves[..n]);
        }
        return Some([]);
      }
      var p := Consistency(leaves[..n], m, cRange, |leaves|, leaves);
      var a := new Hash[|p|](i requires 0 <= i < |p| => p[i]);
      assert a[..] == p;
      ReversePath(a);
      ReversedTwice(Subproof(m, leaves[..n], true));
      return Some(a[..]);
    }
  }

  lemma {:induction false} SubproofWhole(d: seq<Hash>)
    requires |d| > 0
    ensures Subproof(|d|, d, true) == []
  {
  }
}
