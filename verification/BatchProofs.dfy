/** What the batch verifiers prove: a batch is accepted exactly when it is the run of leaves at that
    place of the tree, with the paths of RFC 9162, or else a collision can be computed. */
module BatchProofs {
  import opened Crypto
  import opened Bits
  import opened Merkle
  import opened Verify
  import opened Batch

  // ---------- Binding ----------

  /** Two layers with the same parents are equal, or collide. */
  function LayerCollision(x: seq<Hash>, y: seq<Hash>): (c: MaybeCollision)
    requires |x| == |y| && Up(x) == Up(y)
    ensures c.None? ==> x == y
  {
    if |x| == 0 then None
    else if |x| == 1 then
      assert Up(x)[0] == x[0] && Up(y)[0] == y[0];
      None
    else
      assert Up(x)[0] == HashInteriorNode(x[0], x[1]) && Up(y)[0] == HashInteriorNode(y[0], y[1]);
      var c := InteriorCollision(x[0], x[1], y[0], y[1]);
      if c.Some? then c
      else
        UpSplit(x, 2);
        UpSplit(y, 2);
        assert x == x[..2] + x[2..] && y == y[..2] + y[2..];
        LayerCollision(x[2..], y[2..])
  }

  /** Two lists of leaves with the same length and the same root hash are equal, or collide. */
  function TreeCollision(x: seq<Hash>, y: seq<Hash>): (c: MaybeCollision)
    requires |x| == |y| && MTH(x) == MTH(y)
    ensures c.None? ==> x == y
    decreases |x|
  {
    hide Up, HashInteriorNode;
    if |x| <= 1 then None
    else
      hide MTH;
      MTHUp(x);
      MTHUp(y);
      var c := TreeCollision(Up(x), Up(y));
      if c.Some? then c else LayerCollision(x, y)
  }

  function LeftCollision(l: seq<Hash>, p: seq<Hash>, m: seq<Hash>, q: seq<Hash>): (c: MaybeCollision)
    requires |p| == |q| && 1 <= |l| == |m| <= Pow2(|p|)
    requires LeftRoot(l, p).Some? && LeftRoot(l, p) == LeftRoot(m, q)
    ensures c.None? ==> l == m && p == q
    decreases |p|
  {
    hide Up;
    if p == [] then None
    else
      assert p == [p[0]] + p[1..] && q == [q[0]] + q[1..];
      if IsOdd(|l|) then
        var x, y := [p[0]] + l, [q[0]] + m;
        var c := LeftCollision(Up(x), p[1..], Up(y), q[1..]);
        if c.Some? then c
        else
          assert l == x[1..] && m == y[1..];
          LayerCollision(x, y)
      else
        var c := LeftCollision(Up(l), p[1..], Up(m), q[1..]);
        if c.Some? then c else LayerCollision(l, m)
  }

  lemma {:induction false} Rejoin(p: seq<Hash>, q: seq<Hash>, n: nat)
    requires n <= |p| == |q|
    ensures p[..n] == q[..n] && p[n..] == q[n..] ==> p == q
  {
    assert p == p[..n] + p[n..] && q == q[..n] + q[n..];
  }

  lemma {:induction false} SiblingEqual(l: seq<Hash>, p: seq<Hash>, m: seq<Hash>, q: seq<Hash>, en: nat, sn: nat)
    requires 1 <= |l| == |m| && Used(en, sn) <= |p| == |q| && (IsOdd(en) ==> |l| > 1)
    requires IsOdd(en) ==> l[|l| - 2] == p[0] && m[|m| - 2] == q[0]
    ensures |WithSibling(l, en, sn, p)| == |WithSibling(m, en, sn, q)|
    ensures p[Used(en, sn)..] == q[Used(en, sn)..] && WithSibling(l, en, sn, p) == WithSibling(m, en, sn, q)
            ==> l == m && p == q
  {
    var x, y := WithSibling(l, en, sn, p), WithSibling(m, en, sn, q);
    if p[Used(en, sn)..] == q[Used(en, sn)..] && x == y {
      assert l == x[..|l|] == y[..|l|] == m;
      assert x != l ==> p[0] == x[|l|] == y[|l|] == q[0];
      Rejoin(p, q, Used(en, sn));
    }
  }

  function RightCollision(l: seq<Hash>, p: seq<Hash>, m: seq<Hash>, q: seq<Hash>,
                          en: nat, sn: nat, k: nat): (c: MaybeCollision)
    requires RightInput(l, en, sn, k, p) && RightInput(m, en, sn, k, q) && |l| == |m| && |p| == |q|
    requires RightRoot(l, en, sn, k, p).Some?
    requires RightRoot(l, en, sn, k, p) == RightRoot(m, en, sn, k, q)
    ensures c.None? ==> l == m && p == q
    decreases k
  {
    hide Up, RightInput, WithSibling;
    if k == 0 then RightOne(l, en, sn, p); RightOne(m, en, sn, q); None
    else
      RightShape(l, en, sn, k, p);
      RightShape(m, en, sn, k, q);
      var x, y, used := WithSibling(l, en, sn, p), WithSibling(m, en, sn, q), Used(en, sn);
      SiblingEqual(l, p, m, q, en, sn);
      var c := RightCollision(Up(x), p[used..], Up(y), q[used..], en / 2, sn / 2, k - 1);
      if c.Some? then c else LayerCollision(x, y)
  }

  lemma {:induction false} RightOne(q: seq<Hash>, en: nat, sn: nat, path: seq<Hash>)
    requires RightInput(q, en, sn, 0, path)
    ensures |q| == 1
  {
  }

  /** The two nodes that an accepted batch of two or more leaves comes down to. */
  predicate BatchParts(leaves: seq<Hash>, fn: nat, size: nat, root: Hash,
                       startPath: seq<Hash>, endPath: seq<Hash>, fr: Hash, er: Hash)
  {
    hide *;
    && |leaves| > 1 && fn + |leaves| <= size
    && |startPath| == PathSteps(fn, size - 1) && |endPath| == PathSteps(fn + |leaves| - 1, size - 1)
    &&
    var en := fn + |leaves| - 1;
    var k, split := SplitLevel(fn, en), SplitIndex(fn, en);
    BatchShape(leaves, fn, size, startPath, endPath);
    && LeftRoot(leaves[..split - fn], startPath[..k]) == Some(fr)
    && RightRoot(leaves[split - fn..], en, size - 1, k, endPath) == Some((er, [fr] + startPath[k + 1..]))
    && startPath[k] == er
    && InclusionVerdict(HashInteriorNode(fr, er), Shr(fn, k + 1), Shr(size - 1, k + 1) + 1,
                        root, startPath[k + 1..]) == Ok
  }

  function BatchNodes(leaves: seq<Hash>, fn: nat, size: nat, root: Hash,
                      startPath: seq<Hash>, endPath: seq<Hash>): (nodes: (Hash, Hash))
    requires |leaves| > 1 && BatchVerdict(leaves, fn, size, root, startPath, endPath) == Ok
    ensures BatchParts(leaves, fn, size, root, startPath, endPath, nodes.0, nodes.1)
  {
    hide Path, LeftRoot, RightRoot, HashInteriorNode, PathLength, PathSteps, Shr, Low, Shl, InclusionVerdict,
         SplitLevel, SplitIndex;
    var en := fn + |leaves| - 1;
    PathLengthCountsSteps(fn, size - 1);
    PathLengthCountsSteps(en, size - 1);
    var k, split := SplitLevel(fn, en), SplitIndex(fn, en);
    SplitBounds(fn, en, size - 1);
    var fr := LeftRoot(leaves[..split - fn], startPath[..k]).value;
    var (er, rest) := RightRoot(leaves[split - fn..], en, size - 1, k, endPath).value;
    RightRest(leaves[split - fn..], en, size - 1, k, endPath);
    assert rest == [fr] + rest[1..];
    (fr, er)
  }

  lemma {:induction false} BatchJoins(leaves: seq<Hash>, fn: nat, size: nat, root: Hash,
                   startPath: seq<Hash>, endPath: seq<Hash>, fr: Hash, er: Hash)
    requires BatchParts(leaves, fn, size, root, startPath, endPath, fr, er) && CanSplit(fn, |leaves|)
    ensures BatchVerdict(leaves, fn, size, root, startPath, endPath) == Ok
  {
    hide Path, LeftRoot, RightRoot, HashInteriorNode, PathLength, PathSteps, Shr, Low, Shl, InclusionVerdict,
         SplitLevel, SplitIndex;
    var en := fn + |leaves| - 1;
    PathLengthCountsSteps(fn, size - 1);
    PathLengthCountsSteps(en, size - 1);
    var k, split := SplitLevel(fn, en), SplitIndex(fn, en);
    SplitBounds(fn, en, size - 1);
    RightRest(leaves[split - fn..], en, size - 1, k, endPath);
    assert ([fr] + startPath[k + 1..])[1..] == startPath[k + 1..];
  }

  lemma {:induction false} RejoinAt(p: seq<Hash>, q: seq<Hash>, k: nat)
    requires |p| == |q| > k
    ensures p[..k] == q[..k] && p[k] == q[k] && p[k + 1..] == q[k + 1..] ==> p == q
  {
    assert p == p[..k] + [p[k]] + p[k + 1..] && q == q[..k] + [q[k]] + q[k + 1..];
  }

  function PartsCollision(leaves: seq<Hash>, startPath: seq<Hash>, endPath: seq<Hash>, f: Hash, e: Hash,
                          leaves': seq<Hash>, startPath': seq<Hash>, endPath': seq<Hash>, f': Hash, e': Hash,
                          fn: nat, size: nat, root: Hash): (c: MaybeCollision)
    requires |leaves| == |leaves'|
    requires BatchParts(leaves, fn, size, root, startPath, endPath, f, e)
    requires BatchParts(leaves', fn, size, root, startPath', endPath', f', e')
    ensures c.None? ==> leaves == leaves' && startPath == startPath' && endPath == endPath'
  {
    hide PathSteps, Shr, Low, Shl, Pow2, SplitLevel, SplitIndex, HashInteriorNode, InclusionVerdict, LeftRoot,
         RightRoot, RightInput;
    var en := fn + |leaves| - 1;
    var k, split := SplitLevel(fn, en), SplitIndex(fn, en);
    BatchShape(leaves, fn, size, startPath, endPath);
    BatchShape(leaves', fn, size, startPath', endPath');
    var n := split - fn;
    var c1 := InclusionUnique(HashInteriorNode(f, e), startPath[k + 1..], HashInteriorNode(f', e'), startPath'[k + 1..],
                              Shr(fn, k + 1), Shr(size - 1, k + 1) + 1, root);
    if c1.Some? then c1 else
    var c2 := InteriorCollision(f, e, f', e');
    if c2.Some? then c2 else
    var c3 := LeftCollision(leaves[..n], startPath[..k], leaves'[..n], startPath'[..k]);
    if c3.Some? then c3 else
    Rejoin(leaves, leaves', n);
    RejoinAt(startPath, startPath', k);
    RightCollision(leaves[n..], endPath, leaves'[n..], endPath', en, size - 1, k)
  }

  /** Two accepted batches of the same length at the same place of the same tree are the same batch
      with the same paths. */
  function BatchUnique(leaves: seq<Hash>, startPath: seq<Hash>, endPath: seq<Hash>,
                       leaves': seq<Hash>, startPath': seq<Hash>, endPath': seq<Hash>,
                       fn: nat, size: nat, root: Hash): (c: MaybeCollision)
    requires |leaves| == |leaves'|
    requires BatchVerdict(leaves, fn, size, root, startPath, endPath) == Ok
    requires BatchVerdict(leaves', fn, size, root, startPath', endPath') == Ok
    ensures c.None? ==> leaves == leaves' && startPath == startPath' && endPath == endPath'
  {
    if |leaves| == 1 then
      InclusionUnique(leaves[0], startPath, leaves'[0], startPath', fn, size, root)
    else
      var (f, e), (f', e') := BatchNodes(leaves, fn, size, root, startPath, endPath),
                              BatchNodes(leaves', fn, size, root, startPath', endPath');
      PartsCollision(leaves, startPath, endPath, f, e, leaves', startPath', endPath', f', e', fn, size, root)
  }

  // ---------- Completeness ----------

  lemma {:induction false} UpSlice(d: seq<Hash>, a: nat, b: nat)
    requires a <= b <= |d| && !IsOdd(a) && (IsOdd(b) ==> b == |d|)
    ensures Up(d[a..b]) == Up(d)[a / 2..(b + 1) / 2]
  {
    hide Up;
    if b == |d| {
      UpSplit(d, a);
      assert d[a..b] == d[a..];
    } else {
      UpSplit(d, b);
      UpSplit(d[..b], a);
      assert d[..b][a..] == d[a..b];
    }
  }

  lemma {:induction false} LevelShape(d: seq<Hash>, k: nat)
    requires |d| > 0
    ensures |Level(d, k)| == Shr(|d| - 1, k) + 1
    ensures MTH(Level(d, k)) == MTH(d)
    ensures Level(d, k + 1) == Up(Level(d, k))
    decreases k
  {
    hide Up, MTH;
    if k > 0 {
      MTHUp(d);
      LevelShape(Up(d), k - 1);
    }
  }

  /** One layer of the left part of a true batch. */
  lemma {:induction false} LeftLayer(d: seq<Hash>, fn: nat, e: nat)
    requires fn < e <= |d| && !IsOdd(e)
    ensures |Path(fn, d)| > 0 && Path(fn, d)[1..] == Path(fn / 2, Up(d))
    ensures IsOdd(fn) ==> Up([Path(fn, d)[0]] + d[fn..e]) == Up(d)[fn / 2..e / 2]
    ensures !IsOdd(fn) ==> fn + 1 < e && Path(fn, d)[0] == d[fn + 1] && Up(d[fn..e]) == Up(d)[fn / 2..e / 2]
  {
    hide Up, Path;
    PathUp(fn, d);
    if IsOdd(fn) {
      UpSlice(d, fn - 1, e);
      assert Path(fn, d)[0] == d[fn - 1];
      assert [d[fn - 1]] + d[fn..e] == d[fn - 1..e];
      Halves(fn, e);
    } else {
      UpSlice(d, fn, e);
      Halves(fn, e);
    }
  }

  lemma {:induction false} Halves(n: nat, e: nat)
    requires n < e && !IsOdd(e)
    ensures (e + 1) / 2 == e / 2 && n / 2 < e / 2
    ensures IsOdd(n) ==> (n - 1) / 2 == n / 2
    ensures !IsOdd(n) ==> n + 1 < e
  {
  }

  /** The leaves from fn up to a multiple of 2^k lead, along the lowest k nodes of the path of fn, to
      the node k layers above fn. */
  lemma {:induction false} LeftComplete(d: seq<Hash>, fn: nat, e: nat, k: nat)
    requires fn < e <= |d| && e <= fn + Pow2(k) && Low(e, k) == 0
    ensures |Path(fn, d)| >= k && Shr(fn, k) < |Level(d, k)|
    ensures LeftRoot(d[fn..e], Path(fn, d)[..k]) == Some(Level(d, k)[Shr(fn, k)])
    ensures Path(fn, d)[k..] == Path(Shr(fn, k), Level(d, k))
    decreases k
  {
    hide Up, Path, Low, Shr, Pow2, LeftRoot, Level;
    LevelRec(d, k);
    if k == 0 {
      NoBits(fn);
      LeftRootEnd(d[fn..e]);
      assert Path(fn, d)[..0] == [];
    } else {
      var p, q := Path(fn, d), Path(fn / 2, Up(d));
      LowestBit(fn, k);
      LowestBit(e, k);
      Halves(fn, e);
      LeftLayer(d, fn, e);
      LeftComplete(Up(d), fn / 2, e / 2, k - 1);
      LeftRootUnfold(d[fn..e], p[..k]);
      assert p[..k][1..] == q[..k - 1] && p[k..] == q[k - 1..];
    }
  }

  lemma {:induction false} PerfectTree(d: seq<Hash>, k: nat)
    requires |d| == Pow2(k)
    ensures Level(d, k) == [MTH(d)]
  {
    hide Level, MTH, Pow2, Shr;
    LevelShape(d, k);
    ShrSmall(|d| - 1, k);
    Singleton(Level(d, k));
  }

  /** When the left part leads to the root of a perfect tree, it is the end of that tree. */
  function LeftSound(d: seq<Hash>, l: seq<Hash>, path: seq<Hash>): (c: MaybeCollision)
    requires 1 <= |l| <= |d| == Pow2(|path|)
    requires LeftRoot(l, path) == Some(MTH(d))
    ensures c.None? ==> l == d[|d| - |l|..] && path == Path(|d| - |l|, d)
  {
    hide LeftRoot, MTH, Path, Pow2, Shr, Low, Level;
    var fn, k := |d| - |l|, |path|;
    LeftEnd(d, fn, k);
    LeftCollision(l, path, d[fn..], Path(fn, d))
  }

  lemma {:induction false} LeftEnd(d: seq<Hash>, fn: nat, k: nat)
    requires fn < |d| == Pow2(k)
    ensures |Path(fn, d)| == k && LeftRoot(d[fn..], Path(fn, d)) == Some(MTH(d))
  {
    hide LeftRoot, MTH, Path, Pow2, Shr, Low, Level;
    PerfectTree(d, k);
    PowerHasOneBit(k);
    LeftComplete(d, fn, |d|, k);
    ShrSmall(fn, k);
    Singleton([MTH(d)]);
    assert d[fn..|d|] == d[fn..] && Path(fn, d)[..k] == Path(fn, d);
  }

  /** One layer of the right part of a true batch. */
  lemma {:induction false} RightLayer(d: seq<Hash>, b: nat, en: nat)
    requires b <= en < |d| && !IsOdd(b)
    ensures var p, sn, q := Path(en, d), |d| - 1, d[b..en + 1];
      && Used(en, sn) <= |p| && p[Used(en, sn)..] == Path(en / 2, Up(d))
      && Up(WithSibling(q, en, sn, p)) == Up(d)[b / 2..en / 2 + 1]
      && (IsOdd(en) ==> |q| > 1 && q[|q| - 2] == p[0])
  {
    hide Up, Path;
    PathUp(en, d);
    assert Path(en, d)[|Sibling(en, d)|..] == Path(en / 2, Up(d));
    if !IsOdd(en) && en + 1 < |d| {
      UpSlice(d, b, en + 2);
      assert d[b..en + 1] + [d[en + 1]] == d[b..en + 2];
    } else {
      UpSlice(d, b, en + 1);
    }
  }

  /** The leaves from a multiple of 2^k up to en lead, along the path of en, to the node k layers above en. */
  lemma {:induction false} RightComplete(d: seq<Hash>, en: nat, k: nat)
    requires en < |d|
    ensures Low(en, k) <= en && Shr(en, k) < |Level(d, k)|
    ensures RightInput(d[en - Low(en, k)..en + 1], en, |d| - 1, k, Path(en, d))
    ensures RightRoot(d[en - Low(en, k)..en + 1], en, |d| - 1, k, Path(en, d))
         == Some((Level(d, k)[Shr(en, k)], Path(Shr(en, k), Level(d, k))))
    decreases k
  {
    hide Up, Path, PathSteps, WithSibling, Low, Shr, Level, RightRoot;
    PathLengthRec(en, d);
    LevelRec(d, k);
    if k == 0 {
      NoBits(en);
      RightRootEnd(d[en..en + 1], en, |d| - 1, Path(en, d));
    } else {
      LowestBit(en, k);
      RightComplete(Up(d), en / 2, k - 1);
      var b := en - Low(en, k);
      assert !IsOdd(b) && b / 2 == en / 2 - Low(en / 2, k - 1);
      RightLayer(d, b, en);
      RightRootUnfold(d[b..en + 1], en, |d| - 1, k, Path(en, d));
    }
  }

  lemma {:induction false} LowOfSplit(en: nat, k: nat)
    ensures Low(Shl(Shr(en, k), k), k) == 0
  {
    if k > 0 { LowOfSplit(en / 2, k - 1); }
  }

  /** Below 2^64, the verifier can split exactly the ranges that do not go across index 2^63. */
  lemma {:induction false} SplitsBelowHalf(fn: nat, count: nat)
    requires count >= 2 && fn + count <= TWO_TO_THE_64
    ensures CanSplit(fn, count) <==> !TopBitsDiffer(fn, fn + count - 1)
  {
    hide Pow2, Xor, Len64;
    TopBitOfXor(fn, fn + count - 1);
  }

  lemma {:induction false} BelowHalf(a: nat, b: nat)
    requires a < Pow2(63) && b < Pow2(63)
    ensures !TopBitsDiffer(a, b)
  {
  }

  /** In a tree that a parsed tree head can describe, the verifier does not panic. */
  lemma {:induction false} BatchNeverPanicsBelowHalf(leaves: seq<Hash>, fn: nat, size: nat, root: Hash,
                                                     startPath: seq<Hash>, endPath: seq<Hash>)
    requires size <= Pow2(63) && fn + |leaves| <= TWO_TO_THE_64 && |leaves| <= Pow2(63)
    ensures BatchVerdict(leaves, fn, size, root, startPath, endPath) != Panic
  {
    hide BatchVerdict, Pow2, PathLength, TopBitsDiffer;
    if fn < TWO_TO_THE_64 {
      BatchPanicsExactly(leaves, fn, size, root, startPath, endPath);
      if |leaves| >= 2 && LastIndex(fn, |leaves|) < size { BelowHalf(fn, fn + |leaves| - 1); }
    } else {
      NoLeaves(leaves, fn, size, root, startPath, endPath);
    }
  }

  lemma {:induction false} NoLeaves(leaves: seq<Hash>, fn: nat, size: nat, root: Hash,
                                    startPath: seq<Hash>, endPath: seq<Hash>)
    requires leaves == []
    ensures BatchVerdict(leaves, fn, size, root, startPath, endPath) == Err(EmptyRange)
  {
  }

  lemma {:induction false} SameTopBits(n: nat)
    ensures !TopBitsDiffer(n, n)
  {
  }

  /** The true leaves of every non-empty range are accepted with the RFC paths of both ends, unless the
      range goes across index 2^63: then the verifier panics. */
  lemma {:induction false} BatchComplete(d: seq<Hash>, fn: nat, count: nat)
    requires count > 0 && fn + count <= |d| < TWO_TO_THE_64
    ensures BatchVerdict(d[fn..fn + count], fn, |d|, MTH(d), Path(fn, d), Path(fn + count - 1, d))
         == if TopBitsDiffer(fn, fn + count - 1) then Panic else Ok
  {
    hide *;
    if count == 1 {
      SameTopBits(fn);
      TrueBatchIsAccepted(d, fn, count);
    } else {
      SplitsBelowHalf(fn, count);
      if CanSplit(fn, count) {
        TrueBatchIsAccepted(d, fn, count);
      } else {
        PathHasPathLength(fn, d);
        PathHasPathLength(fn + count - 1, d);
        BatchPanics(d[fn..fn + count], fn, |d|, MTH(d), Path(fn, d), Path(fn + count - 1, d));
      }
    }
  }

  lemma {:induction false} BatchPanics(leaves: seq<Hash>, fn: nat, size: nat, root: Hash,
                                       startPath: seq<Hash>, endPath: seq<Hash>)
    requires |leaves| >= 2 && fn + |leaves| <= size < TWO_TO_THE_64 && !CanSplit(fn, |leaves|)
    requires |startPath| == PathLength(fn, size) && |endPath| == PathLength(fn + |leaves| - 1, size)
    ensures BatchVerdict(leaves, fn, size, root, startPath, endPath) == Panic
  {
    hide PathLength, CanSplit;
  }

  /** The smallest example: the two leaves on both sides of index 2^63, with their RFC paths. */
  lemma {:induction false} BatchPanicsAcrossHalf(d: seq<Hash>)
    requires Pow2(63) < |d| < TWO_TO_THE_64
    ensures BatchVerdict(d[Pow2(63) - 1..Pow2(63) + 1], Pow2(63) - 1, |d|, MTH(d),
                         Path(Pow2(63) - 1, d), Path(Pow2(63), d)) == Panic
  {
    hide BatchVerdict, Pow2, MTH, Path;
    BatchComplete(d, Pow2(63) - 1, 2);
  }

  /** True leaves that the verifier can split are accepted. */
  lemma {:induction false} TrueBatchIsAccepted(d: seq<Hash>, fn: nat, count: nat)
    requires count > 0 && fn + count <= |d| && (count > 1 ==> CanSplit(fn, count))
    ensures BatchVerdict(d[fn..fn + count], fn, |d|, MTH(d), Path(fn, d), Path(fn + count - 1, d)) == Ok
  {
    hide *;
    if count == 1 {
      InclusionComplete(d, fn);
      BatchOfOne(d[fn..fn + 1], fn, |d|, MTH(d), Path(fn, d), Path(fn, d));
    } else {
      var en := fn + count - 1;
      var k := SplitLevel(fn, en);
      SplitBounds(fn, en, |d| - 1);
      LevelShape(d, k);
      PartsComplete(d, fn, count);
      BatchJoins(d[fn..fn + count], fn, |d|, MTH(d), Path(fn, d), Path(en, d),
                 Level(d, k)[Shr(fn, k)], Level(d, k)[Shr(en, k)]);
    }
  }

  lemma {:induction false} BatchOfOne(leaves: seq<Hash>, fn: nat, size: nat, root: Hash, path: seq<Hash>,
                                      endPath: seq<Hash>)
    requires |leaves| == 1
    ensures BatchVerdict(leaves, fn, size, root, path, endPath) == Ok <==>
            path == endPath && InclusionVerdict(leaves[0], fn, size, root, path) == Ok
  {
  }

  lemma {:induction false} PartsComplete(d: seq<Hash>, fn: nat, count: nat)
    requires count > 1 && fn + count <= |d|
    ensures var en := fn + count - 1;
      var k := SplitLevel(fn, en);
      && Shr(fn, k) < |Level(d, k)| && Shr(en, k) < |Level(d, k)|
      && BatchParts(d[fn..fn + count], fn, |d|, MTH(d), Path(fn, d), Path(en, d),
                    Level(d, k)[Shr(fn, k)], Level(d, k)[Shr(en, k)])
  {
    hide Up, MTH, Path, LeftRoot, RightRoot, HashInteriorNode, PathSteps, Shr, Level, Low, Shl, InclusionVerdict,
         SplitLevel;
    var en := fn + count - 1;
    var k, split := SplitLevel(fn, en), SplitIndex(fn, en);
    SplitBounds(fn, en, |d| - 1);
    LowOfSplit(en, k);
    LeftComplete(d, fn, split, k);
    RightComplete(d, en, k);
    PathLengthRec(fn, d);
    PathLengthRec(en, d);
    var l, u := Level(d, k), Level(d, k + 1);
    LevelShape(d, k);
    LevelShape(d, k + 1);
    ShrNext(fn, k);
    PathUp(Shr(fn, k), l);
    PathUp(Shr(en, k), l);
    Parent(Shr(fn, k), l);
    InclusionComplete(u, Shr(fn, k + 1));
    var leaves, p := d[fn..fn + count], Path(fn, d);
    assert leaves[..split - fn] == d[fn..split] && leaves[split - fn..] == d[split..en + 1];
    assert p[k] == p[k..][0] && p[k + 1..] == p[k..][1..];
  }

  /** The run of leaves at that place of the tree, with the RFC paths of both ends. */
  predicate IsTrueBatch(d: seq<Hash>, leaves: seq<Hash>, fn: nat, startPath: seq<Hash>, endPath: seq<Hash>) {
    && |leaves| > 0 && IsRangeOf(leaves, fn, d)
    && startPath == Path(fn, d) && endPath == Path(fn + |leaves| - 1, d)
  }

  /** Every accepted batch is the true one. */
  function BatchSound(d: seq<Hash>, leaves: seq<Hash>, fn: nat, startPath: seq<Hash>,
                      endPath: seq<Hash>): (c: MaybeCollision)
    requires BatchVerdict(leaves, fn, |d|, MTH(d), startPath, endPath) == Ok
    ensures c.None? ==> IsTrueBatch(d, leaves, fn, startPath, endPath)
  {
    hide *;
    BatchNonEmpty(leaves, fn, |d|, MTH(d), startPath, endPath);
    var (leaves', startPath', endPath') := TrueBatch(d, fn, |leaves|);
    BatchUnique(leaves, startPath, endPath, leaves', startPath', endPath', fn, |d|, MTH(d))
  }

  lemma {:induction false} RangeIsTrueBatch(d: seq<Hash>, fn: nat, count: nat)
    requires count > 0 && fn + count <= |d|
    ensures IsTrueBatch(d, d[fn..fn + count], fn, Path(fn, d), Path(fn + count - 1, d))
  {
    hide Path;
  }

  function TrueBatch(d: seq<Hash>, fn: nat, count: nat): (b: (seq<Hash>, seq<Hash>, seq<Hash>))
    requires count > 0 && fn + count <= |d| && (count > 1 ==> CanSplit(fn, count))
    ensures |b.0| == count && IsTrueBatch(d, b.0, fn, b.1, b.2)
    ensures BatchVerdict(b.0, fn, |d|, MTH(d), b.1, b.2) == Ok
  {
    hide *;
    TrueBatchIsAccepted(d, fn, count);
    RangeIsTrueBatch(d, fn, count);
    (d[fn..fn + count], Path(fn, d), Path(fn + count - 1, d))
  }

  lemma {:induction false} BatchNonEmpty(leaves: seq<Hash>, fn: nat, size: nat, root: Hash, startPath: seq<Hash>,
                                         endPath: seq<Hash>)
    requires BatchVerdict(leaves, fn, size, root, startPath, endPath) == Ok
    ensures |leaves| > 0 && fn + |leaves| <= size && (|leaves| > 1 ==> CanSplit(fn, |leaves|))
  {
    hide PathLength, PathSteps, LeftRoot, RightRoot, SplitIndex, SplitLevel, Pow2;
  }
}
