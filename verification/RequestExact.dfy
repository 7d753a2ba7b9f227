/** Which texts are read as add-checkpoint requests, line by line, whatever the lines are; checkpoints may have
    further signature lines before and after that of the log. */
module RequestExact {
  import opened Crypto
  import opened Types
  import opened Ascii
  import opened Witness
  import opened RequestText

  function LinesText(lines: seq<string>): string {
    if lines == [] then "" else lines[0] + "\n" + LinesText(lines[1..])
  }

  predicate AreOneLine(lines: seq<string>) {
    lines != [] ==> OneLine(lines[0]) && AreOneLine(lines[1..])
  }

  // ---------- Paths ----------

  predicate AreHashes(lines: seq<string>) {
    lines != [] ==> HashFromBase64(lines[0]).Some? && AreHashes(lines[1..])
  }

  function Hashes(lines: seq<string>): (hs: seq<Hash>)
    requires AreHashes(lines)
    ensures |hs| == |lines|
  {
    if lines == [] then [] else [HashFromBase64(lines[0]).value] + Hashes(lines[1..])
  }

  /** Non-empty lines up to an empty one are read as a path exactly if each is a hash and there are at most 63. */
  lemma {:induction false} PathExactly(acc: seq<Hash>, lines: seq<string>, rest: string)
    requires AreOneLine(lines) && "" !in lines && |acc| <= PROOF_SIZE_LIMIT
    ensures PathAt(acc, LinesText(lines) + ("" + "\n" + rest)) ==
            if |acc| + |lines| <= PROOF_SIZE_LIMIT && AreHashes(lines) then Got((acc + Hashes(lines), true), rest)
            else Bad
    decreases |lines|
  {
    hide LineAt;
    if lines == [] {
      LineIsRead("", rest);
      assert "" + ("" + "\n" + rest) == "" + "\n" + rest;
      assert acc + [] == acc;
    } else {
      var more := LinesText(lines[1..]) + ("" + "\n" + rest);
      LineIsRead(lines[0], more);
      assert LinesText(lines) + ("" + "\n" + rest) == lines[0] + "\n" + more;
      assert lines[0] in lines && forall l :: l in lines[1..] ==> l in lines;
      if |acc| < PROOF_SIZE_LIMIT && HashFromBase64(lines[0]).Some? {
        var h := HashFromBase64(lines[0]).value;
        PathExactly(acc + [h], lines[1..], rest);
        if AreHashes(lines[1..]) { assert acc + [h] + Hashes(lines[1..]) == acc + ([h] + Hashes(lines[1..])); }
      }
    }
  }

  // ---------- Signature lines ----------

  predicate NoneInvalid(origin: string, lines: seq<string>) {
    lines != [] ==> !ReadSignatureLine(lines[0], origin).Invalid? && NoneInvalid(origin, lines[1..])
  }

  /** The signatures of the log, in order. */
  function LogSignatures(origin: string, lines: seq<string>): seq<SignatureLine> {
    if lines == [] then []
    else
      (if ReadSignatureLine(lines[0], origin).Wanted? then [ReadSignatureLine(lines[0], origin)] else [])
      + LogSignatures(origin, lines[1..])
  }

  function AsSeq(found: Option<SignatureLine>): seq<SignatureLine> {
    if found.None? then [] else [found.value]
  }

  /** At most 16 lines, none of them invalid, and exactly one of them of the log, wherever it stands. */
  lemma {:induction false} SignaturesExactly(origin: string, found: Option<SignatureLine>, count: nat,
                                             lines: seq<string>)
    requires AreOneLine(lines) && count <= 16
    ensures SignatureLinesAt(origin, found, count, LinesText(lines)) ==
            if count + |lines| <= 16 && NoneInvalid(origin, lines)
               && |AsSeq(found) + LogSignatures(origin, lines)| == 1
            then Got((AsSeq(found) + LogSignatures(origin, lines))[0], "") else Bad
    decreases |lines|
  {
    hide LineAt;
    if lines == [] {
      NoLine();
      assert AsSeq(found) + [] == AsSeq(found);
    } else {
      LineIsRead(lines[0], LinesText(lines[1..]));
      if count < 16 {
        var line := ReadSignatureLine(lines[0], origin);
        var more := LogSignatures(origin, lines[1..]);
        match line
        case Invalid =>
        case Unwanted =>
          SignaturesExactly(origin, found, count + 1, lines[1..]);
          assert [] + more == more;
        case Wanted(_, _) =>
          SignaturesExactly(origin, Some(line), count + 1, lines[1..]);
      }
    }
  }

  // ---------- Requests ----------

  /** The lines of a request. */
  datatype RequestLines = RequestLines(
    oldSize: string, path: seq<string>, origin: string, size: string, rootHash: string, signatures: seq<string>)
  {
    predicate Valid() {
      && OneLine(oldSize) && AreOneLine(path) && "" !in path
      && OneLine(origin) && OneLine(size) && OneLine(rootHash) && AreOneLine(signatures)
    }

    function CheckpointPart(): string {
      origin + "\n" + (size + "\n" + (rootHash + "\n" + ("" + "\n" + LinesText(signatures))))
    }

    function Text(): string {
      "old " + oldSize + "\n" + (LinesText(path) + ("" + "\n" + CheckpointPart()))
    }

    /** Numbers in their decimal form below 2^63, hashes, and one good signature line. */
    predicate AreReadable() {
      && IntFromDecimal(oldSize).Some? && |path| <= PROOF_SIZE_LIMIT && AreHashes(path)
      && IntFromDecimal(size).Some? && HashFromBase64(rootHash).Some?
      && |signatures| <= 16 && NoneInvalid(origin, signatures) && |LogSignatures(origin, signatures)| == 1
    }

    function Request(): AddCheckpoint
      requires AreReadable()
    {
      LogSignaturesAreWanted(origin, signatures);
      var signature := LogSignatures(origin, signatures)[0];
      var head := TreeHead(IntFromDecimal(size).value, HashFromBase64(rootHash).value);
      AddCheckpoint(IntFromDecimal(oldSize).value, Hashes(path), origin, signature.keyId,
                    SignedTreeHead(head, signature.signature))
    }
  }

  lemma {:induction false} LogSignaturesAreWanted(origin: string, lines: seq<string>)
    ensures forall i :: 0 <= i < |LogSignatures(origin, lines)| ==> LogSignatures(origin, lines)[i].Wanted?
  {
    if lines != [] { LogSignaturesAreWanted(origin, lines[1..]); }
  }

  lemma {:induction false} CheckpointExactly(l: RequestLines)
    requires l.Valid()
    ensures CheckpointAt(l.CheckpointPart()) ==
            if IntFromDecimal(l.size).Some? && HashFromBase64(l.rootHash).Some?
               && |l.signatures| <= 16 && NoneInvalid(l.origin, l.signatures)
               && |LogSignatures(l.origin, l.signatures)| == 1
            then
              LogSignaturesAreWanted(l.origin, l.signatures);
              var s := LogSignatures(l.origin, l.signatures)[0];
              Got(Checkpoint(l.origin, s.keyId,
                             SignedTreeHead(TreeHead(IntFromDecimal(l.size).value, HashFromBase64(l.rootHash).value),
                                            s.signature)), "")
            else Bad
  {
    hide LineAt, IntFromDecimal, SignatureLinesAt, LinesText, LogSignatures, NoneInvalid;
    LogSignaturesAreWanted(l.origin, l.signatures);
    var s4 := LinesText(l.signatures);
    var s3 := "" + "\n" + s4;
    var s2 := l.rootHash + "\n" + s3;
    var s1 := l.size + "\n" + s2;
    LineIsRead(l.origin, s1);
    LineIsRead(l.size, s2);
    LineIsRead(l.rootHash, s3);
    LineIsRead("", s4);
    SignaturesExactly(l.origin, None, 0, l.signatures);
    var signatures := LogSignatures(l.origin, l.signatures);
    assert AsSeq(None) + signatures == signatures;
  }

  /** A text is read as a request exactly if all its lines can be read and the request is well-formed; then
      it is the request with these values. */
  lemma {:induction false} RequestsExactly(l: RequestLines)
    requires l.Valid()
    ensures ParsedRequest(l.Text()) ==
            if l.AreReadable() && WellFormedRequest(l.Request()) then Some(l.Request()) else None
  {
    hide LineAt, IntFromDecimal, PathAt, CheckpointAt, LinesText, LogSignatures, NoneInvalid, AreHashes, Hashes;
    var line := "old " + l.oldSize;
    var checkpoint := l.CheckpointPart();
    LineIsRead(line, LinesText(l.path) + ("" + "\n" + checkpoint));
    assert OLD == "old " && line[|OLD|..] == l.oldSize;
    PathExactly([], l.path, checkpoint);
    if AreHashes(l.path) { assert [] + Hashes(l.path) == Hashes(l.path); }
    CheckpointExactly(l);
    LogSignaturesAreWanted(l.origin, l.signatures);
  }

  /** A first line without the keyword is refused. */
  lemma {:induction false} KeywordIsNeeded(line: string, rest: string)
    requires OneLine(line) && !("old " <= line)
    ensures ParsedRequest(line + "\n" + rest) == None
  {
    hide LineAt;
    LineIsRead(line, rest);
  }
}
