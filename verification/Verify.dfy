/** `VerifyInclusion` and `VerifyConsistency` of `pkg/merkle/verify.go`: each accepts exactly what
    the tree of RFC 9162 says, or else a hash collision can be computed. */
module Verify {
  import opened Crypto
  import opened Bits
  import opened Merkle

  datatype Error =
    | IndexOutOfRange | WrongPathLength | NonEmptyPath | NotEmptyTreeRoot
    | RootMismatch | OldRootMismatch | NewRootMismatch
    | EmptyRange | RangeExceedsSize | InconsistentPaths | InconsistentWithLeaves | InconsistentTrees

  /** Panic: the source stops with an internal error, or an index out of range. */
  datatype Result = Ok | Err(error: Error) | Panic

  // ---------- Path lengths ----------

  lemma {:induction false} Parent(m: nat, d: seq<Hash>)
    requires m < |d|
    ensures Up(d)[m / 2] ==
            if IsOdd(m) then HashInteriorNode(d[m - 1], d[m])
            else if m + 1 < |d| then HashInteriorNode(d[m], d[m + 1])
            else d[m]
  {
  }

  lemma {:induction false} Singleton(d: seq<Hash>)
    requires |d| == 1
    ensures MTH(d) == d[0] && Path(0, d) == [] && Up(d) == d
  {
  }

  /** `pathLength` */
  function PathLength(index: nat, size: nat): nat
    requires size > 0
  {
    var k := Len64(Xor(index, size - 1));
    k + OnesCount64(Shr(index, k))
  }

  /** The number of siblings on the way up from node fn of a layer whose last node is sn. */
  function PathSteps(fn: nat, sn: nat): nat
    decreases sn
  {
    if sn == 0 then 0 else Used(fn, sn) + PathSteps(fn / 2, sn / 2)
  }

  /** Whether node fn has a sibling, which then is the next element of its path. */
  function Used(fn: nat, sn: nat): nat {
    if IsOdd(fn) || fn < sn then 1 else 0
  }

  lemma {:induction false} PathStepsRec(fn: nat, sn: nat)
    requires fn <= sn
    ensures PathSteps(fn, sn) == Used(fn, sn) + PathSteps(fn / 2, sn / 2)
  {
  }

  lemma {:induction false} PathStepsOnes(fn: nat)
    ensures PathSteps(fn, fn) == OnesCount64(fn)
  {
    if fn > 0 { PathStepsOnes(fn / 2); }
  }

  /** The bit formula counts exactly the path elements that the loops consume. */
  lemma {:induction false} PathLengthCountsSteps(fn: nat, sn: nat)
    requires fn <= sn
    ensures PathLength(fn, sn + 1) == PathSteps(fn, sn)
    decreases sn
  {
    XorZero(fn, sn);
    if fn == sn {
      PathStepsOnes(fn);
    } else {
      XorZero(fn / 2, sn / 2);
      PathLengthCountsSteps(fn / 2, sn / 2);
    }
  }

  /** That is also the length of the path that RFC 9162 defines. */
  lemma {:induction false} PathHasPathLength(m: nat, d: seq<Hash>)
    requires m < |d|
    ensures |Path(m, d)| == PathSteps(m, |d| - 1) == PathLength(m, |d|)
    decreases |d|
  {
    hide *;
    PathLengthCountsSteps(m, |d| - 1);
    PathLengthRec(m, d);
  }

  lemma {:induction false} PathLengthRec(m: nat, d: seq<Hash>)
    requires m < |d|
    ensures |Path(m, d)| == PathSteps(m, |d| - 1)
    decreases |d|
  {
    hide Up, Path;
    if |d| == 1 {
      Singleton(d);
    } else {
      PathUp(m, d);
      PathLengthRec(m / 2, Up(d));
    }
  }

  /** A path has at most one element per layer, and a tree of two or more leaves has no empty path. */
  lemma {:induction false} PathLengthBounds(fn: nat, sn: nat)
    requires fn <= sn
    ensures PathSteps(fn, sn) <= Len64(sn)
    ensures sn > 0 ==> PathSteps(fn, sn) > 0
    decreases sn
  {
    if sn > 0 { PathLengthBounds(fn / 2, sn / 2); }
  }

  // ---------- The loops ----------

  /** The root hash computed from node r at index fn, in a layer whose last node is sn. */
  function RootFromPath(r: Hash, fn: nat, sn: nat, path: seq<Hash>): Hash
    requires |path| == PathSteps(fn, sn)
    decreases sn
  {
    if sn == 0 then r
    else if IsOdd(fn) then RootFromPath(HashInteriorNode(path[0], r), fn / 2, sn / 2, path[1..])
    else if fn < sn then RootFromPath(HashInteriorNode(r, path[0]), fn / 2, sn / 2, path[1..])
    else RootFromPath(r, fn / 2, sn / 2, path)
  }

  /** The same, with the right siblings left out: the root of the tree that ends with that node. */
  function PrefixRootFromPath(r: Hash, fn: nat, sn: nat, path: seq<Hash>): Hash
    requires |path| == PathSteps(fn, sn)
    decreases sn
  {
    if sn == 0 then r
    else if IsOdd(fn) then PrefixRootFromPath(HashInteriorNode(path[0], r), fn / 2, sn / 2, path[1..])
    else if fn < sn then PrefixRootFromPath(r, fn / 2, sn / 2, path[1..])
    else PrefixRootFromPath(r, fn / 2, sn / 2, path)
  }

  /** Completeness of the inclusion loop: the RFC path of a leaf leads to the root. */
  lemma {:induction false} PathLeadsToRoot(m: nat, d: seq<Hash>)
    requires m < |d|
    ensures |Path(m, d)| == PathSteps(m, |d| - 1)
    ensures RootFromPath(d[m], m, |d| - 1, Path(m, d)) == MTH(d)
    decreases |d|
  {
    hide HashInteriorNode, MTH, Path, Up;
    PathLengthRec(m, d);
    if |d| == 1 {
      Singleton(d);
    } else {
      PathUp(m, d);
      PathLengthRec(m / 2, Up(d));
      PathLeadsToRoot(m / 2, Up(d));
      MTHUp(d);
      Parent(m, d);
      assert Path(m, d)[|Sibling(m, d)|..] == Path(m / 2, Up(d));
    }
  }

  lemma {:induction false} UpPrefix(d: seq<Hash>, m: nat, x: Hash)
    requires m < |d|
    ensures Up(d[..m] + [x]) ==
            Up(d)[..m / 2] + [if IsOdd(m) then HashInteriorNode(d[m - 1], x) else x]
  {
    hide HashInteriorNode;
  }

  /** The left siblings of a path give the root of the prefix that ends at its leaf. */
  lemma {:induction false} PathLeadsToPrefixRoot(m: nat, d: seq<Hash>, x: Hash)
    requires m < |d|
    ensures |Path(m, d)| == PathSteps(m, |d| - 1)
    ensures PrefixRootFromPath(x, m, |d| - 1, Path(m, d)) == MTH(d[..m] + [x])
    decreases |d|
  {
    hide HashInteriorNode, MTH, Path, Up;
    PathLengthRec(m, d);
    if |d| == 1 {
      Singleton(d);
      Singleton(d[..m] + [x]);
    } else {
      PathUp(m, d);
      PathLengthRec(m / 2, Up(d));
      UpPrefix(d, m, x);
      MTHUp(d[..m] + [x]);
      PathLeadsToPrefixRoot(m / 2, Up(d), if IsOdd(m) then HashInteriorNode(d[m - 1], x) else x);
      assert Path(m, d)[|Sibling(m, d)|..] == Path(m / 2, Up(d));
    }
  }

  /** Binding: two nodes that lead to the same root at the same position are the same node with the
      same path, or a collision is found between them. */
  function PathCollision(r: Hash, p: seq<Hash>, s: Hash, q: seq<Hash>, fn: nat, sn: nat): (c: MaybeCollision)
    requires |p| == |q| == PathSteps(fn, sn)
    requires RootFromPath(r, fn, sn, p) == RootFromPath(s, fn, sn, q)
    ensures c.None? ==> r == s && p == q
    decreases sn
  {
    if sn == 0 then None
    else if IsOdd(fn) then
      var c := PathCollision(HashInteriorNode(p[0], r), p[1..], HashInteriorNode(q[0], s), q[1..], fn / 2, sn / 2);
      if c.Some? then c else InteriorCollision(p[0], r, q[0], s)
    else if fn < sn then
      var c := PathCollision(HashInteriorNode(r, p[0]), p[1..], HashInteriorNode(s, q[0]), q[1..], fn / 2, sn / 2);
      if c.Some? then c else InteriorCollision(r, p[0], s, q[0])
    else
      PathCollision(r, p, s, q, fn / 2, sn / 2)
  }

  // ---------- VerifyInclusion ----------

  /** What `VerifyInclusion` answers. */
  function InclusionVerdict(leaf: Hash, index: nat, size: nat, root: Hash, path: seq<Hash>): (r: Result)
    ensures !r.Panic? && (r == Ok ==> index < size)
  {
    if index >= size then Err(IndexOutOfRange)
    else if |path| != PathSteps(index, size - 1) then Err(WrongPathLength)
    else if RootFromPath(leaf, index, size - 1, path) != root then Err(RootMismatch)
    else Ok
  }

  method VerifyInclusion(leaf: Hash, index: nat, size: nat, root: Hash, path: seq<Hash>) returns (result: Result)
    ensures result == InclusionVerdict(leaf, index, size, root, path)
  {
    hide PathLength, HashInteriorNode;
    if index >= size {
      return Err(IndexOutOfRange);
    }
    PathLengthCountsSteps(index, size - 1);
    if |path| != PathLength(index, size) {
      return Err(WrongPathLength);
    }

    var r, rest := leaf, path;
    var fn: nat, sn: nat := index, size - 1;
    while sn > 0
      invariant |rest| == PathSteps(fn, sn)
      invariant RootFromPath(r, fn, sn, rest) == RootFromPath(leaf, index, size - 1, path)
    {
      if IsOdd(fn) {
        r, rest := HashInteriorNode(rest[0], r), rest[1..];
      } else if fn < sn {
        r, rest := HashInteriorNode(r, rest[0]), rest[1..];
      }
      fn, sn := fn / 2, sn / 2;
    }
    assert |rest| == 0;  // the source panics on left over path elements

    if r != root {
      return Err(RootMismatch);
    }
    return Ok;
  }

  /** The path of RFC 9162 is accepted for every leaf of every tree. */
  lemma {:induction false} InclusionComplete(d: seq<Hash>, m: nat)
    requires m < |d|
    ensures InclusionVerdict(d[m], m, |d|, MTH(d), Path(m, d)) == Ok
  {
    PathLeadsToRoot(m, d);
  }

  /** Two accepted proofs for one index, size and root are the same proof of the same leaf. */
  function InclusionUnique(leaf: Hash, path: seq<Hash>, leaf': Hash, path': seq<Hash>,
                           index: nat, size: nat, root: Hash): (c: MaybeCollision)
    requires InclusionVerdict(leaf, index, size, root, path) == Ok
    requires InclusionVerdict(leaf', index, size, root, path') == Ok
    ensures c.None? ==> leaf == leaf' && path == path'
  {
    PathCollision(leaf, path, leaf', path', index, size - 1)
  }

  /** An accepted proof is the RFC path of the leaf that the tree has at that index. */
  function InclusionSound(d: seq<Hash>, leaf: Hash, index: nat, path: seq<Hash>): (c: MaybeCollision)
    requires InclusionVerdict(leaf, index, |d|, MTH(d), path) == Ok
    ensures c.None? ==> leaf == d[index] && path == Path(index, d)
  {
    InclusionComplete(d, index);
    InclusionUnique(leaf, path, d[index], Path(index, d), index, |d|, MTH(d))
  }

  // ---------- VerifyConsistency ----------

  /** What `VerifyConsistency` answers. */
  function ConsistencyVerdict(oldSize: nat, newSize: nat, oldRoot: Hash, newRoot: Hash, path: seq<Hash>): (r: Result)
    requires oldSize <= newSize
    ensures !r.Panic?
  {
    if oldSize == newSize then
      if |path| > 0 then Err(NonEmptyPath) else if oldRoot != newRoot then Err(RootMismatch) else Ok
    else if oldSize == 0 then
      if |path| > 0 then Err(NonEmptyPath) else if oldRoot != HashEmptyTree() then Err(NotEmptyTreeRoot) else Ok
    else
      var t := TrailingZeros64(oldSize);
      var fn, sn := Shr(oldSize - 1, t), Shr(newSize - 1, t);
      if |path| != PathSteps(fn, sn) + (if fn > 0 then 1 else 0) then Err(WrongPathLength)
      else
        var start := if fn == 0 then oldRoot else path[0];
        var rest := if fn == 0 then path else path[1..];
        if PrefixRootFromPath(start, fn, sn, rest) != oldRoot then Err(OldRootMismatch)
        else if RootFromPath(start, fn, sn, rest) != newRoot then Err(NewRootMismatch)
        else Ok
  }

  method VerifyConsistency(oldSize: nat, newSize: nat, oldRoot: Hash, newRoot: Hash, path: seq<Hash>)
    returns (result: Result)
    requires oldSize <= newSize
    ensures result == ConsistencyVerdict(oldSize, newSize, oldRoot, newRoot, path)
  {
    if oldSize == newSize {
      if |path| > 0 { return Err(NonEmptyPath); }
      if oldRoot != newRoot { return Err(RootMismatch); }
      return Ok;
    }
    if oldSize == 0 {
      if |path| > 0 { return Err(NonEmptyPath); }
      if oldRoot != HashEmptyTree() { return Err(NotEmptyTreeRoot); }
      return Ok;
    }

    var trimBits := TrailingZeros64(oldSize);
    var fn, sn := Shr(oldSize - 1, trimBits), Shr(newSize - 1, trimBits);
    ShrMonotone(oldSize - 1, newSize - 1, trimBits);
    PathLengthCountsSteps(fn, sn);

    var wantLength := PathLength(fn, sn + 1);
    if fn > 0 {
      wantLength := wantLength + 1;
    }
    if |path| != wantLength {
      return Err(WrongPathLength);
    }

    var fr, rest := oldRoot, path;
    if fn != 0 {
      fr, rest := path[0], path[1..];
    }
    var sr := fr;
    ghost var oldResult := PrefixRootFromPath(fr, fn, sn, rest);
    ghost var newResult := RootFromPath(sr, fn, sn, rest);

    while sn > 0
      invariant |rest| == PathSteps(fn, sn)
      invariant PrefixRootFromPath(fr, fn, sn, rest) == oldResult
      invariant RootFromPath(sr, fn, sn, rest) == newResult
    {
      if IsOdd(fn) {
        fr, sr, rest := HashInteriorNode(rest[0], fr), HashInteriorNode(rest[0], sr), rest[1..];
      } else if fn < sn {
        sr, rest := HashInteriorNode(sr, rest[0]), rest[1..];
      }
      fn, sn := fn / 2, sn / 2;
    }
    assert |rest| == 0;  // the source panics on left over path elements

    if fr != oldRoot { return Err(OldRootMismatch); }
    if sr != newRoot { return Err(NewRootMismatch); }
    return Ok;
  }

  /** Trimming the bottom layers keeps the roots of both trees and the proof between them, and leaves
      an old tree that ends at a left child. */
  lemma {:induction false} Trim(m: nat, d: seq<Hash>)
    requires 0 < m < |d|
    ensures var t := TrailingZeros64(m);
      var fn, sn, l := Shr(m - 1, t), Shr(|d| - 1, t), Level(d, t);
      && |l| == sn + 1 && fn < sn && !IsOdd(fn)
      && MTH(l) == MTH(d) && MTH(l[..fn + 1]) == MTH(d[..m])
      && Subproof(m, d, true) == Subproof(fn + 1, l, true)
    decreases m
  {
    hide HashInteriorNode, Up, Subproof, MTH, Split, Shr, Low, Pow2, Level;
    var t := TrailingZeros64(m);
    LevelRec(d, t);
    if IsOdd(m) {
      NoBits(m - 1);
      NoBits(|d| - 1);
    } else {
      LowestBit(m - 1, t);
      LowestBit(|d| - 1, t);
      UpSplit(d, m);
      Trim(m / 2, Up(d));
      MTHUp(d);
      MTHUp(d[..m]);
      SubproofUp(m, d, true);
      assert (m - 1) / 2 == m / 2 - 1;
    }
  }

  /** The trimmed proof is the last node of the old tree, unless that is its root, and then its path. */
  lemma {:induction false} TrimmedProof(m: nat, d: seq<Hash>)
    requires 0 < m < |d|
    ensures var t := TrailingZeros64(m);
      var fn, sn, l := Shr(m - 1, t), Shr(|d| - 1, t), Level(d, t);
      && |l| == sn + 1 && fn < sn
      && Proof(m, d) == (if fn == 0 then [] else [l[fn]]) + Path(fn, l)
      && |Path(fn, l)| == PathSteps(fn, sn)
      && RootFromPath(l[fn], fn, sn, Path(fn, l)) == MTH(d)
      && PrefixRootFromPath(l[fn], fn, sn, Path(fn, l)) == MTH(d[..m])
      && (fn == 0 ==> l[0] == MTH(d[..m]))
  {
    hide HashInteriorNode, MTH, Up, Path, Subproof, Level, Shr, RootFromPath, PrefixRootFromPath, PathSteps;
    var t := TrailingZeros64(m);
    var fn, sn, l := Shr(m - 1, t), Shr(|d| - 1, t), Level(d, t);
    Trim(m, d);
    SubproofOdd(fn + 1, l, true);
    PathLeadsToRoot(fn, l);
    PathLeadsToPrefixRoot(fn, l, l[fn]);
    assert l[..fn] + [l[fn]] == l[..fn + 1];
    if fn == 0 {
      Singleton(l[..1]);
    }
  }

  lemma {:induction false} ConsistencyCompleteEmpty(d: seq<Hash>, m: nat)
    requires m == 0 || m == |d|
    ensures ConsistencyVerdict(m, |d|, MTH(d[..m]), MTH(d), Proof(m, d)) == Ok
  {
    if m == |d| {
      assert d[..m] == d;
    }
  }

  /** The proof of RFC 9162 is accepted between the roots of every tree and every prefix of it. */
  lemma {:induction false} ConsistencyComplete(d: seq<Hash>, m: nat)
    requires m <= |d|
    ensures ConsistencyVerdict(m, |d|, MTH(d[..m]), MTH(d), Proof(m, d)) == Ok
  {
    hide HashInteriorNode, MTH, Up, Path, Proof, RootFromPath, PrefixRootFromPath, PathSteps;
    if m == |d| || m == 0 {
      ConsistencyCompleteEmpty(d, m);
    } else {
      TrimmedProof(m, d);
      var fn, l := Shr(m - 1, TrailingZeros64(m)), Level(d, TrailingZeros64(m));
      var p := Path(fn, l);
      assert if fn == 0 then Proof(m, d) == p else Proof(m, d)[0] == l[fn] && Proof(m, d)[1..] == p;
    }
  }

  /** Two accepted proofs between the same sizes, to the same new root, are the same proof from the
      same old root. */
  function ConsistencyUnique(oldSize: nat, newSize: nat, newRoot: Hash,
                             oldRoot: Hash, path: seq<Hash>, oldRoot': Hash, path': seq<Hash>): (c: MaybeCollision)
    requires oldSize <= newSize
    requires ConsistencyVerdict(oldSize, newSize, oldRoot, newRoot, path) == Ok
    requires ConsistencyVerdict(oldSize, newSize, oldRoot', newRoot, path') == Ok
    ensures c.None? ==> oldRoot == oldRoot' && path == path'
  {
    if oldSize == newSize || oldSize == 0 then None
    else
      var t := TrailingZeros64(oldSize);
      var fn, sn := Shr(oldSize - 1, t), Shr(newSize - 1, t);
      if fn == 0 then PathCollision(oldRoot, path, oldRoot', path', fn, sn)
      else
        assert path == [path[0]] + path[1..] && path' == [path'[0]] + path'[1..];
        PathCollision(path[0], path[1..], path'[0], path'[1..], fn, sn)
  }

  /** An accepted proof against the root of d is the RFC proof, and the old root is that of the prefix of d. */
  function ConsistencySound(d: seq<Hash>, oldSize: nat, oldRoot: Hash, path: seq<Hash>): (c: MaybeCollision)
    requires oldSize <= |d|
    requires ConsistencyVerdict(oldSize, |d|, oldRoot, MTH(d), path) == Ok
    ensures c.None? ==> oldRoot == MTH(d[..oldSize]) && path == Proof(oldSize, d)
  {
    ConsistencyComplete(d, oldSize);
    ConsistencyUnique(oldSize, |d|, MTH(d), oldRoot, path, MTH(d[..oldSize]), Proof(oldSize, d))
  }
}
