/** `VerifyInclusionTail` of `pkg/merkle/verify.go`: batch verification for a run that ends the tree. */
module Tail {
  import opened Crypto
  import opened Bits
  import opened Merkle
  import opened CompactRange
  import opened Verify
  import opened Batch
  import opened BatchProofs

  /** What `VerifyInclusionTail` answers. */
  function TailVerdict(leaves: seq<Hash>, fn: nat, root: Hash, path: seq<Hash>): Result {
    hide *;
    if |leaves| == 0 then Err(EmptyRange)
    else if |leaves| == 1 then InclusionVerdict(leaves[0], fn, Wrap64(fn + 1), root, path)
    else
      var sn := LastIndex(fn, |leaves|);
      if |path| != PathLength(fn, sn + 1) then Err(WrongPathLength)
      else if !CanSplit(fn, |leaves|) then Panic
      else
        CanSplitMeans(fn, |leaves|);
        PathLengthCountsSteps(fn, sn);
        var k, split := SplitLevel(fn, sn), SplitIndex(fn, sn);
        SplitBounds(fn, sn, sn);
        var left := LeftRoot(leaves[..split - fn], path[..k]);
        if left.None? || MTH(leaves[split - fn..]) != path[k] then Err(InconsistentWithLeaves)
        else InclusionVerdict(HashInteriorNode(left.value, path[k]), Shr(fn, k + 1), Shr(sn, k + 1) + 1,
                              root, path[k + 1..])
  }

  /** When the verifier panics, exactly. */
  lemma {:induction false} TailPanicsExactly(leaves: seq<Hash>, fn: nat, root: Hash, path: seq<Hash>)
    requires fn < TWO_TO_THE_64 && |leaves| <= Pow2(63)
    ensures TailVerdict(leaves, fn, root, path) == Panic <==>
      && |leaves| >= 2 && |path| == PathLength(fn, LastIndex(fn, |leaves|) + 1)
      && TopBitsDiffer(fn, LastIndex(fn, |leaves|))
  {
    hide Pow2, PathLength, PathSteps, InclusionVerdict, LeftRoot, MTH, CanSplit, LastIndex, TopBitsDiffer,
         SplitLevel, SplitIndex;
    if |leaves| >= 2 { CanSplitExactly(fn, |leaves|); }
  }

  lemma {:induction false} TailNeverPanicsBelowHalf(leaves: seq<Hash>, fn: nat, root: Hash, path: seq<Hash>)
    requires |leaves| > 0 && fn + |leaves| <= Pow2(63)
    ensures TailVerdict(leaves, fn, root, path) != Panic
  {
    hide TailVerdict, Pow2, PathLength, TopBitsDiffer;
    HalfOfRange();
    TailPanicsExactly(leaves, fn, root, path);
    BelowHalf(fn, fn + |leaves| - 1);
  }

  method VerifyInclusionTail(leaves: seq<Hash>, fn: nat, root: Hash, path: seq<Hash>) returns (result: Result)
    requires fn < TWO_TO_THE_64 && |leaves| <= Pow2(63)  // the types of the source
    ensures result == TailVerdict(leaves, fn, root, path)
  {
    hide HashInteriorNode, Xor, And, InclusionVerdict, LeftRoot, PathLength, PathSteps, Shr, Low, Len64, MTH,
         Pow2, Neg64, CanSplit, SplitLevel, SplitIndex, LastIndex, TopBitsDiffer;
    if |leaves| == 0 {
      return Err(EmptyRange);
    }
    if |leaves| == 1 {
      result := VerifyInclusion(leaves[0], fn, Wrap64(fn + 1), root, path);
      return;
    }
    var sn := LastIndex(fn, |leaves|);
    if |path| != PathLength(fn, sn + 1) {
      return Err(WrongPathLength);
    }

    CanSplitExactly(fn, |leaves|);
    SplitCount(fn, |leaves|);
    var k := Len64(Xor(fn, sn)) - 1;
    var split := And(sn, Neg64(Pow2(k)));
    var count := Wrap64(split - fn);
    if k < 63 {
      CanSplitMeans(fn, |leaves|);
      PathLengthCountsSteps(fn, sn);
      SplitBounds(fn, sn, sn);
    }

    // See VerifyInclusionBatch for slices that are longer than the path.
    var left := Aborted;
    if k <= |path| {
      left := VerifyInclusionLeft(leaves[..count], path[..k]);
    }
    if left.Aborted? {
      return Panic;
    }
    if left.Mismatch? {
      return Err(InconsistentWithLeaves);
    }
    var er := RootOf(leaves[count..]);
    if er != path[k] {
      return Err(InconsistentWithLeaves);
    }
    result := VerifyInclusion(HashInteriorNode(left.hash, er), Shr(fn, k + 1), Shr(sn, k + 1) + 1,
                              root, path[k + 1..]);
  }

  /** Where the range ends the tree, its right part leads to its own Merkle tree hash... */
  lemma {:induction false} TailRightIsMTH(q: seq<Hash>, en: nat, k: nat, path: seq<Hash>)
    requires RightInput(q, en, en, k, path) && RightRoot(q, en, en, k, path).Some?
    ensures RightRoot(q, en, en, k, path).value.0 == MTH(q)
    decreases k
  {
    hide Up, MTH, PathSteps;
    if k == 0 {
      Singleton(q);
    } else {
      RightShape(q, en, en, k, path);
      MTHUp(q);
      TailRightIsMTH(Up(q), en / 2, k - 1, path[Used(en, en)..]);
    }
  }

  /** ...and the path of its last leaf in itself is what is needed to follow it. */
  lemma {:induction false} TailRightPath(q: seq<Hash>, en: nat, k: nat, rest: seq<Hash>)
    requires |q| == Low(en, k) + 1 && |rest| == PathSteps(Shr(en, k), Shr(en, k))
    ensures RightInput(q, en, en, k, Path(|q| - 1, q) + rest)
    ensures RightRoot(q, en, en, k, Path(|q| - 1, q) + rest) == Some((MTH(q), rest))
    decreases k
  {
    hide Up, MTH, Path, PathSteps, Low, Shr, RightRoot;
    var p := Path(|q| - 1, q) + rest;
    if k == 0 {
      NoBits(en);
      Singleton(q);
      assert p == rest;
      RightRootEnd(q, en, en, p);
    } else {
      LowestBit(en, k);
      MTHUp(q);
      PathUp(|q| - 1, q);
      TailRightPath(Up(q), en / 2, k - 1, rest);
      PathStepsRec(en, en);
      assert |Sibling(|q| - 1, q)| == Used(en, en);
      assert p[Used(en, en)..] == Path(|Up(q)| - 1, Up(q)) + rest;
      RightRootUnfold(q, en, en, k, p);
    }
  }

  /** An end path that turns an accepted tail into an accepted batch. */
  function TailEndPath(leaves: seq<Hash>, fn: nat, root: Hash, path: seq<Hash>): seq<Hash>
    requires TailVerdict(leaves, fn, root, path) == Ok
  {
    if |leaves| == 1 then path
    else
      hide PathLength, PathSteps, Shr, Low, Shl, SplitLevel, SplitIndex, InclusionVerdict, MTH, LeftRoot;
      var sn := fn + |leaves| - 1;
      PathLengthCountsSteps(fn, sn);
      var k, split := SplitLevel(fn, sn), SplitIndex(fn, sn);
      SplitBounds(fn, sn, sn);
      var left := LeftRoot(leaves[..split - fn], path[..k]);
      Path(sn - split, leaves[split - fn..]) + ([left.value] + path[k + 1..])
  }

  lemma {:induction false} TailToBatch(leaves: seq<Hash>, fn: nat, root: Hash, path: seq<Hash>)
    requires TailVerdict(leaves, fn, root, path) == Ok
    ensures BatchVerdict(leaves, fn, fn + |leaves|, root, path, TailEndPath(leaves, fn, root, path)) == Ok
  {
    hide PathLength, PathSteps, Shr, Low, Shl, SplitLevel, SplitIndex, InclusionVerdict, MTH, LeftRoot, RightRoot, Path,
         HashInteriorNode, BatchVerdict;
    if |leaves| == 1 {
      BatchOfOne(leaves, fn, fn + 1, root, path, path);
    } else {
      var sn := fn + |leaves| - 1;
      PathLengthCountsSteps(fn, sn);
      var k, split := SplitLevel(fn, sn), SplitIndex(fn, sn);
      SplitBounds(fn, sn, sn);
      var fr, q := LeftRoot(leaves[..split - fn], path[..k]).value, leaves[split - fn..];
      var endPath := TailEndPath(leaves, fn, root, path);
      TailRightPath(q, sn, k, [fr] + path[k + 1..]);
      assert endPath == Path(|q| - 1, q) + ([fr] + path[k + 1..]);
      BatchJoins(leaves, fn, fn + |leaves|, root, path, endPath, fr, path[k]);
    }
  }

  lemma {:induction false} BatchToTail(leaves: seq<Hash>, fn: nat, root: Hash, path: seq<Hash>, endPath: seq<Hash>)
    requires fn + |leaves| < TWO_TO_THE_64
    requires BatchVerdict(leaves, fn, fn + |leaves|, root, path, endPath) == Ok
    ensures TailVerdict(leaves, fn, root, path) == Ok
  {
    hide PathSteps, Shr, Low, Shl, SplitLevel, SplitIndex, InclusionVerdict, MTH, LeftRoot, RightRoot, Path,
         HashInteriorNode, BatchVerdict;
    BatchNonEmpty(leaves, fn, fn + |leaves|, root, path, endPath);
    if |leaves| == 1 {
      BatchOfOne(leaves, fn, fn + 1, root, path, endPath);
    } else {
      var sn := fn + |leaves| - 1;
      var k, split := SplitLevel(fn, sn), SplitIndex(fn, sn);
      SplitBounds(fn, sn, sn);
      PathLengthCountsSteps(fn, sn);
      var nodes := BatchNodes(leaves, fn, fn + |leaves|, root, path, endPath);
      TailRightIsMTH(leaves[split - fn..], sn, k, endPath);
    }
  }

  ghost predicate SomeEndPathAccepted(leaves: seq<Hash>, fn: nat, root: Hash, path: seq<Hash>) {
    exists endPath: seq<Hash> :: EndPathAccepted(leaves, fn, root, path, endPath)
  }

  predicate EndPathAccepted(leaves: seq<Hash>, fn: nat, root: Hash, path: seq<Hash>, endPath: seq<Hash>) {
    BatchVerdict(leaves, fn, fn + |leaves|, root, path, endPath) == Ok
  }

  /** Tail verification is batch verification with the end path left to the verifier, whatever the hash. */
  lemma {:induction false} TailIsBatch(leaves: seq<Hash>, fn: nat, root: Hash, path: seq<Hash>)
    requires fn + |leaves| < TWO_TO_THE_64  // the size of the tree is a uint64
    ensures TailVerdict(leaves, fn, root, path) == Ok <==> SomeEndPathAccepted(leaves, fn, root, path)
  {
    hide TailVerdict, BatchVerdict;
    if TailVerdict(leaves, fn, root, path) == Ok {
      TailToBatch(leaves, fn, root, path);
      assert EndPathAccepted(leaves, fn, root, path, TailEndPath(leaves, fn, root, path));
    }
    if SomeEndPathAccepted(leaves, fn, root, path) {
      var endPath :| EndPathAccepted(leaves, fn, root, path, endPath);
      BatchToTail(leaves, fn, root, path, endPath);
    }
  }

  /** The true last leaves of every tree are accepted with the RFC path of the first of them, unless
      the verifier panics. */
  lemma {:induction false} TailComplete(d: seq<Hash>, fn: nat)
    requires fn < |d| < TWO_TO_THE_64
    ensures TailVerdict(d[fn..], fn, MTH(d), Path(fn, d)) == if TopBitsDiffer(fn, |d| - 1) then Panic else Ok
  {
    hide TailVerdict, BatchVerdict, MTH, Path, TopBitsDiffer, CanSplit;
    var n := |d| - fn;
    assert d[fn..] == d[fn..fn + n];
    if n >= 2 { SplitsBelowHalf(fn, n); }
    if n == 1 || CanSplit(fn, n) {
      TrueBatchIsAccepted(d, fn, n);
      BatchToTail(d[fn..], fn, MTH(d), Path(fn, d), Path(|d| - 1, d));
      if n == 1 { SameTopBits(fn); }
    } else {
      PathHasPathLength(fn, d);
      TailPanics(d[fn..], fn, MTH(d), Path(fn, d));
    }
  }

  lemma {:induction false} TailPanics(leaves: seq<Hash>, fn: nat, root: Hash, path: seq<Hash>)
    requires |leaves| >= 2 && fn + |leaves| < TWO_TO_THE_64 && !CanSplit(fn, |leaves|)
    requires |path| == PathLength(fn, fn + |leaves|)
    ensures TailVerdict(leaves, fn, root, path) == Panic
  {
    hide PathLength, CanSplit;
  }

  /** An accepted tail is the end of the tree. */
  function TailSound(d: seq<Hash>, leaves: seq<Hash>, fn: nat, path: seq<Hash>): (c: MaybeCollision)
    requires |d| == fn + |leaves| && TailVerdict(leaves, fn, MTH(d), path) == Ok
    ensures c.None? ==> IsRangeOf(leaves, fn, d) && leaves == d[fn..] && path == Path(fn, d)
  {
    hide TailVerdict, BatchVerdict, MTH, Path;
    TailToBatch(leaves, fn, MTH(d), path);
    BatchSound(d, leaves, fn, path, TailEndPath(leaves, fn, MTH(d), path))
  }
}
