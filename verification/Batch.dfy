/** The batch verifiers of `pkg/merkle/verify.go`: a run of consecutive leaves is verified against
    one root with the inclusion paths of its first and last leaf.

    The run is split at a multiple of 2^k.  The part to the left of the split is followed upwards
    from its first leaf, the part to the right from its last leaf; k layers up, each part has become
    a single node, and the two nodes are siblings. */
module Batch {
  import opened Crypto
  import opened Bits
  import opened Merkle
  import opened CompactRange
  import opened Verify

  // ---------- The two parts, as lists that shrink layer by layer ----------

  /** The root of the perfect tree of which l are the last leaves.  A left sibling comes from the
      path; a right sibling must agree with the list. */
  function LeftRoot(l: seq<Hash>, path: seq<Hash>): Option<Hash>
    requires 1 <= |l| <= Pow2(|path|)
    decreases |path|
  {
    if path == [] then Some(l[0])
    else if IsOdd(|l|) then LeftRoot(Up([path[0]] + l), path[1..])
    else if l[1] != path[0] then None
    else LeftRoot(Up(l), path[1..])
  }

  lemma {:induction false} LeftRootEnd(l: seq<Hash>)
    requires |l| == 1
    ensures LeftRoot(l, []) == Some(l[0])
  {
  }

  /** A list q that starts at a multiple of 2^k and ends with node en of a layer whose last node is
      sn, and a path for that node. */
  predicate RightInput(q: seq<Hash>, en: nat, sn: nat, k: nat, path: seq<Hash>) {
    en <= sn && |q| == Low(en, k) + 1 && |path| == PathSteps(en, sn)
  }

  /** The node k layers above q, and the unused part of the path.  A left sibling must agree with the
      list; a right sibling, where there is one, comes from the path. */
  function RightRoot(q: seq<Hash>, en: nat, sn: nat, k: nat, path: seq<Hash>): Option<(Hash, seq<Hash>)>
    requires RightInput(q, en, sn, k, path)
    decreases k
  {
    if k == 0 then Some((q[0], path))
    else
      RightShape(q, en, sn, k, path);
      if IsOdd(en) && q[|q| - 2] != path[0] then None
      else RightRoot(Up(WithSibling(q, en, sn, path)), en / 2, sn / 2, k - 1, path[Used(en, sn)..])
  }

  lemma {:induction false} RightRest(q: seq<Hash>, en: nat, sn: nat, k: nat, path: seq<Hash>)
    requires RightInput(q, en, sn, k, path) && RightRoot(q, en, sn, k, path).Some?
    ensures |RightRoot(q, en, sn, k, path).value.1| == PathSteps(Shr(en, k), Shr(sn, k))
    decreases k
  {
    hide PathSteps, WithSibling, Up;
    if k > 0 {
      RightShape(q, en, sn, k, path);
      RightRest(Up(WithSibling(q, en, sn, path)), en / 2, sn / 2, k - 1, path[Used(en, sn)..]);
    }
  }

  lemma {:induction false} RightShape(q: seq<Hash>, en: nat, sn: nat, k: nat, path: seq<Hash>)
    requires RightInput(q, en, sn, k, path) && k > 0
    ensures Used(en, sn) <= |path| && |q| >= 1
    ensures RightInput(Up(WithSibling(q, en, sn, path)), en / 2, sn / 2, k - 1, path[Used(en, sn)..])
    ensures IsOdd(|q|) <==> !IsOdd(en)
  {
    hide Up, PathSteps, Low;
    PathStepsRec(en, sn);
    LowestBit(en, k);
  }

  lemma {:induction false} RightRootUnfold(q: seq<Hash>, en: nat, sn: nat, k: nat, path: seq<Hash>)
    requires RightInput(q, en, sn, k, path) && k > 0
    ensures Used(en, sn) <= |path| && (IsOdd(en) ==> |q| >= 2 && |path| >= 1)
    ensures RightInput(Up(WithSibling(q, en, sn, path)), en / 2, sn / 2, k - 1, path[Used(en, sn)..])
    ensures RightRoot(q, en, sn, k, path) ==
            if IsOdd(en) && q[|q| - 2] != path[0] then None
            else RightRoot(Up(WithSibling(q, en, sn, path)), en / 2, sn / 2, k - 1, path[Used(en, sn)..])
  {
    hide Up, PathSteps, Low, WithSibling;
    RightShape(q, en, sn, k, path);
  }

  lemma {:induction false} RightRootEnd(q: seq<Hash>, en: nat, sn: nat, path: seq<Hash>)
    requires RightInput(q, en, sn, 0, path)
    ensures |q| == 1 && RightRoot(q, en, sn, 0, path) == Some((q[0], path))
  {
  }

  lemma {:induction false} LeftRootUnfold(l: seq<Hash>, path: seq<Hash>)
    requires path != [] && 1 <= |l| <= Pow2(|path|)
    ensures |Up([path[0]] + l)| <= Pow2(|path| - 1) || !IsOdd(|l|)
    ensures |Up(l)| <= Pow2(|path| - 1) && (IsOdd(|l|) || |l| >= 2)
    ensures LeftRoot(l, path) ==
            if IsOdd(|l|) then LeftRoot(Up([path[0]] + l), path[1..])
            else if l[1] != path[0] then None
            else LeftRoot(Up(l), path[1..])
  {
    hide Up;
  }

  /** The list q, with the right sibling of its last node where there is one. */
  function WithSibling(q: seq<Hash>, en: nat, sn: nat, path: seq<Hash>): seq<Hash>
    requires Used(en, sn) <= |path|
  {
    if !IsOdd(en) && en < sn then q + [path[0]] else q
  }

  // ---------- verifyInclusionLeft ----------

  function FlippedInteriorNode(left: Hash, right: Hash): Hash {
    HashInteriorNode(right, left)
  }

  /** The compact range of a list that ends at a large power of two, rightmost subtree first. */
  function LeftRange(l: seq<Hash>): seq<Hash>
    decreases |l|
  {
    if |l| == 0 then []
    else if IsOdd(|l|) then LeftRange(Up(l[1..])) + [l[0]]
    else LeftRange(Up(l))
  }

  lemma {:induction false} LeftRangeEven(even: seq<Hash>)
    requires !IsOdd(|even|)
    ensures LeftRange(even) == LeftRange(Up(even))
  {
    hide Up;
    if even == [] { assert Up(even) == []; }
  }

  lemma {:induction false} LeftRangeOdd(even: seq<Hash>, first: Hash)
    requires !IsOdd(|even|)
    ensures LeftRange([first] + even) == LeftRange(even) + [first]
  {
    hide Up, LeftRange;
    LeftRangeEven(even);
    LeftRangeUnfold([first] + even);
    assert ([first] + even)[1..] == even;
  }

  lemma {:induction false} LeftRangeUnfold(l: seq<Hash>)
    requires IsOdd(|l|)
    ensures LeftRange(l) == LeftRange(Up(l[1..])) + [l[0]]
  {
  }

  lemma {:induction false} ExtendPrepends(l: seq<Hash>, h: Hash)
    ensures Extended(LeftRange(l), |l| + 1, h, FlippedInteriorNode) == LeftRange([h] + l)
    decreases |l|
  {
    hide HashInteriorNode, Up, LeftRange;
    if IsOdd(|l|) {
      var first, even := l[0], l[1..];
      assert l == [first] + even && [h] + l == [h, first] + even;
      LeftRangeOdd(even, first);
      LeftRangeEven(even);
      LeftRangeEven([h, first] + even);
      UpPair(even, h, first);
      ExtendPrepends(Up(even), HashInteriorNode(h, first));
      assert (LeftRange(even) + [first])[..|LeftRange(even)|] == LeftRange(even);
    } else {
      LeftRangeOdd(l, h);
    }
  }

  lemma {:induction false} LeftRangeEmpty()
    ensures LeftRange([]) == []
  {
  }

  method MakeLeftRange(leaves: seq<Hash>) returns (cr: seq<Hash>)
    ensures cr == LeftRange(leaves)
  {
    hide LeftRange, Extended, FlippedInteriorNode;
    cr := [];
    var n := |leaves|;
    LeftRangeEmpty();
    assert leaves[n..] == [];
    for i := 0 to n
      invariant cr == LeftRange(leaves[n - i..])
    {
      cr := Extend(cr, i, leaves[n - 1 - i], FlippedInteriorNode);
      ExtendPrepends(leaves[n - i..], leaves[n - 1 - i]);
      assert [leaves[n - 1 - i]] + leaves[n - i..] == leaves[n - 1 - i..];
    }
    assert leaves[0..] == leaves;
  }

  lemma {:induction false} LeftStep(l: seq<Hash>, s: Hash)
    requires |l| >= 1
    ensures IsOdd(|l|) ==>
      var u := Up([s] + l); u[0] == HashInteriorNode(s, l[0]) && LeftRange(u[1..]) == LeftRange(l[1..])
    ensures !IsOdd(|l|) ==>
      var u := Up(l); u[0] == HashInteriorNode(l[0], l[1]) && LeftRange(u[1..]) + [l[1]] == LeftRange(l[1..])
  {
    hide HashInteriorNode, Up, LeftRange;
    if IsOdd(|l|) {
      assert [s] + l == [s, l[0]] + l[1..];
      UpPair(l[1..], s, l[0]);
      LeftRangeEven(l[1..]);
    } else {
      assert l == [l[0], l[1]] + l[2..] && l[1..] == [l[1]] + l[2..];
      UpPair(l[2..], l[0], l[1]);
      LeftRangeEven(l[2..]);
      LeftRangeOdd(l[2..], l[1]);
    }
  }

  /** There is one entry in the compact range for each zero bit of the index of the first leaf, which
      are the layers where the right sibling comes from the list. */
  lemma {:induction false} LeftRangeMatchesZeroBits(l: seq<Hash>, k: nat)
    requires 1 <= |l| <= Pow2(k)
    ensures |LeftRange(l[1..])| + OnesCount64(Pow2(k) - |l|) == k
    decreases k
  {
    hide Up, LeftRange, HashInteriorNode;
    if k == 0 {
      assert l[1..] == [];
      LeftRangeEmpty();
    } else {
      LeftStep(l, l[0]);
      var u := if IsOdd(|l|) then Up([l[0]] + l) else Up(l);
      LeftRangeMatchesZeroBits(u, k - 1);
      assert (Pow2(k) - |l|) / 2 == Pow2(k - 1) - |u|;
    }
  }

  /** `1 << k` as a signed 64-bit number: what the guard of `verifyInclusionLeft` compares with. */
  function SignedShift(k: nat): int {
    var half: int := Pow2(63);
    if k < 63 then Pow2(k) else if k == 63 then -half else 0
  }

  datatype Side = Root(hash: Hash) | Mismatch | Aborted

  method VerifyInclusionLeft(leaves: seq<Hash>, path: seq<Hash>) returns (result: Side)
    ensures result == Aborted <==> |leaves| == 0 || |leaves| > Pow2(|path|) || |path| >= 63
    ensures result != Aborted ==> result == match LeftRoot(leaves, path) case None => Mismatch case Some(r) => Root(r)
  {
    hide HashInteriorNode, Up, LeftRange, LeftRoot, Pow2;
    if |leaves| > SignedShift(|path|) {
      return Aborted;
    }
    if |leaves| == 0 {
      return Aborted;  // the slice from index one on is out of range
    }
    var cRange := MakeLeftRange(leaves[1..]);
    var r := leaves[0];
    var fn: nat := Pow2(|path|) - |leaves|;
    ghost var l := leaves;
    assert path[0..] == path;
    for i := 0 to |path|
      invariant 1 <= |l| <= Pow2(|path| - i) && fn == Pow2(|path| - i) - |l|
      invariant r == l[0] && cRange == LeftRange(l[1..])
      invariant LeftRoot(l, path[i..]) == LeftRoot(leaves, path)
    {
      var s := path[i];
      LeftStep(l, s);
      LowestBit(0, |path| - i);
      LeftRootUnfold(l, path[i..]);
      assert path[i..][1..] == path[i + 1..];
      if IsOdd(fn) {
        r := HashInteriorNode(s, r);
        l := Up([s] + l);
      } else {
        if s != cRange[|cRange| - 1] {
          return Mismatch;
        }
        cRange := cRange[..|cRange| - 1];
        r := HashInteriorNode(r, s);
        l := Up(l);
      }
      fn := fn / 2;
    }
    LeftRangeEmpty();
    NoBits(0);
    assert l[1..] == [] && path[|path|..] == [];
    LeftRootEnd(l);
    assert |cRange| == 0;  // the source panics on left over compact range elements
    return Root(r);
  }

  // ---------- Where the range splits ----------

  /** The level k at which the leaves fn and en become neighbours. */
  function SplitLevel(fn: nat, en: nat): nat
    requires fn < en
  {
    Diverge(fn, en);
    Len64(Xor(fn, en)) - 1
  }

  /** `en & -(1<<k)`, see MaskClearsLowBits. */
  function SplitIndex(fn: nat, en: nat): nat
    requires fn < en
  {
    var k := SplitLevel(fn, en);
    Shl(Shr(en, k), k)
  }

  /** split - 2^k <= fn < split <= en < split + 2^k, as the source claims; all k+1 lowest layers
      above fn have a sibling on its path, and en is a right child on level k. */
  lemma {:induction false} SplitBounds(fn: nat, en: nat, sn: nat)
    requires fn < en <= sn
    ensures var k, split := SplitLevel(fn, en), SplitIndex(fn, en);
      && split <= fn + Pow2(k) && fn < split <= en && en == split + Low(en, k)
      && !IsOdd(Shr(fn, k)) && Shr(fn, k) + 1 == Shr(en, k) <= Shr(sn, k)
      && PathSteps(fn, sn) == k + 1 + PathSteps(Shr(fn, k + 1), Shr(sn, k + 1))
      && PathSteps(Shr(en, k), Shr(sn, k)) == 1 + PathSteps(Shr(fn, k + 1), Shr(sn, k + 1))
      && Shr(fn, k + 1) <= Shr(sn, k + 1)
  {
    hide PathSteps, Xor, Len64, Shr, Shl, Low;
    var k := SplitLevel(fn, en);
    Diverge(fn, en);
    ShrShlLow(fn, k);
    ShrShlLow(en, k);
    ShlNext(Shr(fn, k), k);
    ShrMonotone(en, sn, k);
    ShrNext(fn, k);
    ShrNext(sn, k);
    StepsBelow(fn, sn, k);
    StepAbove(Shr(fn, k), Shr(en, k), Shr(sn, k));
  }

  lemma {:induction false} StepAbove(f: nat, e: nat, s: nat)
    requires !IsOdd(f) && e == f + 1 && e <= s
    ensures PathSteps(f, s) == PathSteps(e, s) == 1 + PathSteps(f / 2, s / 2)
  {
    assert e / 2 == f / 2;
    assert Used(f, s) == Used(e, s) == 1;
  }

  lemma {:induction false} StepsBelow(fn: nat, sn: nat, k: nat)
    requires Shr(fn, k) < Shr(sn, k)
    ensures PathSteps(fn, sn) == k + PathSteps(Shr(fn, k), Shr(sn, k))
    decreases k
  {
    if k > 0 {
      StepsBelow(fn / 2, sn / 2, k - 1);
      if fn >= sn { ShrMonotone(sn, fn, k); }
    }
  }

  // ---------- VerifyInclusionBatch ----------

  lemma {:induction false} BatchShape(leaves: seq<Hash>, fn: nat, size: nat, startPath: seq<Hash>, endPath: seq<Hash>)
    requires fn < fn + |leaves| - 1 < size
    requires |startPath| == PathSteps(fn, size - 1) && |endPath| == PathSteps(fn + |leaves| - 1, size - 1)
    ensures var en := fn + |leaves| - 1;
      var k, split := SplitLevel(fn, en), SplitIndex(fn, en);
      && fn < split <= en && split - fn <= Pow2(k) && k < |startPath|
      && RightInput(leaves[split - fn..], en, size - 1, k, endPath)
  {
    hide PathSteps, Shr, Low, Pow2, SplitLevel, SplitIndex;
    SplitBounds(fn, fn + |leaves| - 1, size - 1);
  }

  /** The end path continues above the split. */
  lemma {:induction false} BatchRest(q: seq<Hash>, fn: nat, en: nat, sn: nat, path: seq<Hash>)
    requires fn < en && RightInput(q, en, sn, SplitLevel(fn, en), path)
    requires RightRoot(q, en, sn, SplitLevel(fn, en), path).Some?
    ensures |RightRoot(q, en, sn, SplitLevel(fn, en), path).value.1| > 0
  {
    hide PathSteps, Shr, Low, Pow2, SplitLevel, SplitIndex, RightRoot;
    var k := SplitLevel(fn, en);
    SplitBounds(fn, en, sn);
    RightRest(q, en, sn, k, path);
  }

  /** The last index of a range of n leaves, as a uint64. */
  function LastIndex(fn: nat, n: nat): nat
    requires n > 0
  {
    Wrap64(fn + n - 1)
  }

  /** The range does not wrap around, and is split below bit 63.  `verifyInclusionLeft` panics on all
      others: its guard compares with the signed number 1 << 63. */
  predicate CanSplit(fn: nat, n: nat)
    requires n >= 2
  {
    LastIndex(fn, n) == fn + n - 1 && SplitLevel(fn, fn + n - 1) < 63
  }

  /** What `VerifyInclusionBatch` answers. */
  function BatchVerdict(leaves: seq<Hash>, fn: nat, size: nat, root: Hash,
                        startPath: seq<Hash>, endPath: seq<Hash>): Result
  {
    hide *;
    if |leaves| == 0 then Err(EmptyRange)
    else
      var en := LastIndex(fn, |leaves|);
      if en >= size then Err(RangeExceedsSize)
      else if |leaves| == 1 then
        if startPath != endPath then Err(InconsistentPaths)
        else InclusionVerdict(leaves[0], fn, size, root, startPath)
      else if |startPath| != PathLength(fn, size) then Err(WrongPathLength)
      else if |endPath| != PathLength(en, size) then Err(WrongPathLength)
      else if !CanSplit(fn, |leaves|) then Panic
      else
        CanSplitMeans(fn, |leaves|);
        PathLengthCountsSteps(fn, size - 1);
        PathLengthCountsSteps(en, size - 1);
        var k, split := SplitLevel(fn, en), SplitIndex(fn, en);
        BatchShape(leaves, fn, size, startPath, endPath);
        var left := LeftRoot(leaves[..split - fn], startPath[..k]);
        var right := RightRoot(leaves[split - fn..], en, size - 1, k, endPath);
        if left.None? || right.None? then Err(InconsistentWithLeaves)
        else
          BatchRest(leaves[split - fn..], fn, en, size - 1, endPath);
          var fr, (er, rest) := left.value, right.value;
          if startPath[k] != er || rest[0] != fr then Err(InconsistentTrees)
          else if startPath[k + 1..] != rest[1..] then Err(InconsistentPaths)
          else InclusionVerdict(HashInteriorNode(fr, er), Shr(fn, k + 1), Shr(size - 1, k + 1) + 1,
                                root, startPath[k + 1..])
  }

  lemma {:induction false} CanSplitMeans(fn: nat, n: nat)
    requires n >= 2 && CanSplit(fn, n)
    ensures LastIndex(fn, n) == fn + n - 1 < TWO_TO_THE_64 && SplitLevel(fn, fn + n - 1) < 63
  {
  }

  /** For the 64-bit index and the length of every slice: the range can be split if and only if its
      first and last index are both below, or both not below, 2^63. */
  lemma {:induction false} CanSplitExactly(fn: nat, n: nat)
    requires fn < TWO_TO_THE_64 && 2 <= n <= Pow2(63)
    ensures CanSplit(fn, n) <==> !TopBitsDiffer(fn, LastIndex(fn, n))
    ensures Len64(Xor(fn, LastIndex(fn, n))) > 0
    ensures CanSplit(fn, n) <==> Len64(Xor(fn, LastIndex(fn, n))) < 64
    ensures Len64(Xor(fn, LastIndex(fn, n))) <= 64
  {
    hide Pow2, Xor, Len64;
    Pow2Of64();
    assert Pow2(64) == 2 * Pow2(63) by { LowestBit(0, 64); }
    var en := LastIndex(fn, n);
    TopBitOfXor(fn, en);
    XorZero(fn, en);
    LenZero(Xor(fn, en));
    if fn + n - 1 < TWO_TO_THE_64 {
      assert en == fn + n - 1;
    } else {
      assert en == fn + n - 1 - TWO_TO_THE_64;
    }
  }

  lemma {:induction false} LenZero(n: nat)
    ensures Len64(n) == 0 <==> n == 0
  {
  }

  /** When the verifier panics, exactly. */
  lemma {:induction false} BatchPanicsExactly(leaves: seq<Hash>, fn: nat, size: nat, root: Hash,
                                              startPath: seq<Hash>, endPath: seq<Hash>)
    requires fn < TWO_TO_THE_64 && |leaves| <= Pow2(63)
    ensures BatchVerdict(leaves, fn, size, root, startPath, endPath) == Panic <==>
      && |leaves| >= 2 && LastIndex(fn, |leaves|) < size
      && |startPath| == PathLength(fn, size) && |endPath| == PathLength(LastIndex(fn, |leaves|), size)
      && TopBitsDiffer(fn, LastIndex(fn, |leaves|))
  {
    hide Pow2, PathLength, PathSteps, InclusionVerdict, LeftRoot, RightRoot, CanSplit, LastIndex, TopBitsDiffer,
         SplitLevel, SplitIndex;
    if |leaves| >= 2 { CanSplitExactly(fn, |leaves|); }
  }

  function Last(q: seq<Hash>): Hash
    requires |q| > 0
  {
    q[|q| - 1]
  }

  function Most(q: seq<Hash>): seq<Hash>
    requires |q| > 0
  {
    q[..|q| - 1]
  }

  /** One layer of the right part: the compact range of the intermediate nodes loses its last
      subtree when the end node has a left sibling, and that subtree is the sibling. */
  lemma {:induction false} RightStep(q: seq<Hash>, p: Hash)
    requires |q| >= 1
    ensures !IsOdd(|q|) ==>
      && Last(Up(q)) == HashInteriorNode(q[|q| - 2], q[|q| - 1])
      && RangeByLayers(Most(q)) == RangeByLayers(Most(Up(q))) + [q[|q| - 2]]
    ensures IsOdd(|q|) ==>
      && Last(Up(q + [p])) == HashInteriorNode(Last(q), p) && Last(Up(q)) == Last(q)
      && RangeByLayers(Most(Up(q + [p]))) == RangeByLayers(Most(Up(q))) == RangeByLayers(Most(q))
  {
    hide HashInteriorNode, Up, RangeByLayers, Last, Most;
    if IsOdd(|q|) {
      ButLast(q);
      RightStepOdd(q, Most(q), Last(q), p);
    } else {
      ButLast(q);
      ButLast(Most(q));
      RightStepEven(q, Most(Most(q)), Last(Most(q)), Last(q));
    }
  }

  lemma {:induction false} ButLast(q: seq<Hash>)
    requires |q| > 0
    ensures |Most(q)| == |q| - 1 && q == Most(q) + [Last(q)] && Last(q) == q[|q| - 1]
  {
  }

  lemma {:induction false} LastAndMost(q: seq<Hash>, last: Hash)
    ensures Last(q + [last]) == last && Most(q + [last]) == q
  {
  }

  lemma {:induction false} RightStepOdd(q: seq<Hash>, even: seq<Hash>, last: Hash, p: Hash)
    requires !IsOdd(|even|) && q == even + [last]
    ensures Last(Up(q)) == last && Last(Up(q + [p])) == HashInteriorNode(last, p)
    ensures RangeByLayers(Most(Up(q + [p]))) == RangeByLayers(Most(Up(q))) == RangeByLayers(even)
  {
    hide HashInteriorNode, Up, RangeByLayers, Last, Most;
    UpPair(even, last, p);
    UpAppend(even, [last]);
    Singleton([last]);
    RangeEven(even);
    assert q + [p] == even + [last, p];
    LastAndMost(Up(even), last);
    LastAndMost(Up(even), HashInteriorNode(last, p));
  }

  lemma {:induction false} RightStepEven(q: seq<Hash>, even: seq<Hash>, x: Hash, last: Hash)
    requires !IsOdd(|even|) && q == even + [x] + [last]
    ensures Last(Up(q)) == HashInteriorNode(x, last)
    ensures RangeByLayers(even + [x]) == RangeByLayers(Most(Up(q))) + [x]
  {
    hide HashInteriorNode, Up, RangeByLayers, Last, Most;
    UpPair(even, x, last);
    RangeSteps(even, x);
    assert q == even + [x, last];
    LastAndMost(Up(even), HashInteriorNode(x, last));
  }

  lemma {:induction false} RightStepAt(q: seq<Hash>, en: nat, sn: nat, k: nat, path: seq<Hash>)
    requires RightInput(q, en, sn, k, path) && k > 0 && Used(en, sn) <= |path|
    ensures var u := Up(WithSibling(q, en, sn, path));
      && |u| > 0
      && (IsOdd(en) ==>
            && |q| > 1 && Last(u) == HashInteriorNode(q[|q| - 2], Last(q))
            && RangeByLayers(Most(q)) == RangeByLayers(Most(u)) + [q[|q| - 2]])
      && (!IsOdd(en) ==>
            && Last(u) == (if en < sn then HashInteriorNode(Last(q), path[0]) else Last(q))
            && RangeByLayers(Most(q)) == RangeByLayers(Most(u)))
  {
    hide HashInteriorNode, Up, RangeByLayers, PathSteps, Low;
    RightShape(q, en, sn, k, path);
    RightStep(q, if path == [] then Last(q) else path[0]);
  }

  /** The part of `VerifyInclusionBatch` that follows the end path for k layers, checking its left
      siblings against the compact range of the leaves between the split and the last leaf. */
  method VerifyInclusionRight(leaves: seq<Hash>, last: nat, sn0: nat, k: nat, endPath: seq<Hash>)
    returns (result: Option<(Hash, seq<Hash>)>)
    requires RightInput(leaves, last, sn0, k, endPath)
    ensures result == RightRoot(leaves, last, sn0, k, endPath)
  {
    hide HashInteriorNode, Up, RangeByLayers, PerfectSubtrees, PathSteps, Low, RightRoot, WithSibling;
    var rightRange := NewCompactRange(leaves[..|leaves| - 1]);
    var en: nat, sn: nat, rest := last, sn0, endPath;
    var er := leaves[|leaves| - 1];
    ghost var q := leaves;
    for i := 0 to k
      invariant RightInput(q, en, sn, k - i, rest)
      invariant er == Last(q) && rightRange == RangeByLayers(Most(q))
      invariant RightRoot(q, en, sn, k - i, rest) == RightRoot(leaves, last, sn0, k, endPath)
    {
      RightRootUnfold(q, en, sn, k - i, rest);
      RightStepAt(q, en, sn, k - i, rest);
      q := Up(WithSibling(q, en, sn, rest));
      if IsOdd(en) {
        var s := rightRange[|rightRange| - 1];
        rightRange := rightRange[..|rightRange| - 1];
        if s != rest[0] {
          return None;
        }
        er := HashInteriorNode(s, er);
        rest := rest[1..];
      } else if en < sn {
        er := HashInteriorNode(er, rest[0]);
        rest := rest[1..];
      }
      en, sn := en / 2, sn / 2;
    }
    RightRootEnd(q, en, sn, rest);
    RangeEmpty(q);
    assert |rightRange| == 0;  // the source panics on left over compact range elements
    return Some((er, rest));
  }

  lemma {:induction false} RangeEmpty(q: seq<Hash>)
    requires |q| == 1
    ensures Last(q) == q[0] && RangeByLayers(Most(q)) == []
  {
  }

  method VerifyInclusionBatch(leaves: seq<Hash>, fn: nat, size: nat, root: Hash,
                              startPath: seq<Hash>, endPath: seq<Hash>) returns (result: Result)
    requires fn < TWO_TO_THE_64 && size < TWO_TO_THE_64 && |leaves| <= Pow2(63)  // the types of the source
    ensures result == BatchVerdict(leaves, fn, size, root, startPath, endPath)
  {
    hide HashInteriorNode, Xor, And, InclusionVerdict, LeftRoot, RightRoot, PathLength, PathSteps, Shr, Low, Len64,
         Pow2, Neg64, CanSplit, SplitLevel, SplitIndex, LastIndex, TopBitsDiffer;
    if |leaves| == 0 {
      return Err(EmptyRange);
    }
    var en := LastIndex(fn, |leaves|);
    if en >= size {
      return Err(RangeExceedsSize);
    }
    if |leaves| == 1 {
      if startPath != endPath {
        return Err(InconsistentPaths);
      }
      result := VerifyInclusion(leaves[0], fn, size, root, startPath);
      return;
    }
    if |startPath| != PathLength(fn, size) {
      return Err(WrongPathLength);
    }
    if |endPath| != PathLength(en, size) {
      return Err(WrongPathLength);
    }

    CanSplitExactly(fn, |leaves|);
    SplitCount(fn, |leaves|);
    var k := Len64(Xor(fn, en)) - 1;
    var split := And(en, Neg64(Pow2(k)));
    var count := Wrap64(split - fn);
    if k < 63 {
      CanSplitMeans(fn, |leaves|);
      PathLengthCountsSteps(fn, size - 1);
      PathLengthCountsSteps(en, size - 1);
      BatchShape(leaves, fn, size, startPath, endPath);
    }

    // A longer slice than the path panics, or finds 63 elements in the array behind it, and then so does
    // VerifyInclusionLeft.
    var left := Aborted;
    if k <= |startPath| {
      left := VerifyInclusionLeft(leaves[..count], startPath[..k]);
    }
    if left.Aborted? {
      return Panic;
    }
    if left.Mismatch? {
      return Err(InconsistentWithLeaves);
    }
    var right := VerifyInclusionRight(leaves[count..], en, size - 1, k, endPath);
    if right.None? {
      return Err(InconsistentWithLeaves);
    }
    BatchRest(leaves[count..], fn, en, size - 1, endPath);
    var fr := left.hash;
    var (er, rest) := right.value;
    if startPath[k] != er || rest[0] != fr {
      return Err(InconsistentTrees);
    }
    if startPath[k + 1..] != rest[1..] {
      return Err(InconsistentPaths);
    }
    result := VerifyInclusion(HashInteriorNode(fr, er), Shr(fn, k + 1), Shr(size - 1, k + 1) + 1,
                              root, startPath[k + 1..]);
  }

  /** The bit arithmetic gives the place of the split, relative to fn, also when the index wraps around. */
  lemma {:induction false} SplitCount(fn: nat, n: nat)
    requires fn < TWO_TO_THE_64 && 2 <= n <= Pow2(63)
    ensures var en := LastIndex(fn, n);
      && 0 < Len64(Xor(fn, en)) <= 64 && Pow2(Len64(Xor(fn, en)) - 1) < TWO_TO_THE_64
      && var count := Wrap64(And(en, Neg64(Pow2(Len64(Xor(fn, en)) - 1))) - fn);
      && count <= n
      && (CanSplit(fn, n) ==> Len64(Xor(fn, en)) - 1 == SplitLevel(fn, en) && count == SplitIndex(fn, en) - fn)
  {
    hide Xor, And, Neg64, Len64, Pow2, Shr, Low, PathSteps;
    var en := LastIndex(fn, n);
    CanSplitExactly(fn, n);
    TopBitOfXor(fn, en);
    var k := Len64(Xor(fn, en)) - 1;
    MaskClearsLowBits(en, k);
    Pow2Of64();
    LowestBit(0, 64);
    if fn < en {
      SplitBounds(fn, en, en);
      assert en == fn + n - 1;
    } else {
      ShrSmall(en, 63);
      assert Shl(0, 63) == 0 by { ShlOfZero(63); }
    }
  }
}
