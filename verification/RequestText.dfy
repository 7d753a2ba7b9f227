/** The text of an add-checkpoint request: `AddCheckpoint.FromASCII` and `ToASCII` of
    `pkg/requests/witness.go`, the base64 form of a consistency proof in `pkg/types/proof.go`, and the
    checkpoint reader of `pkg/checkpoint/checkpoint.go`.

    The base64 codec and the format of a signature line are arbitrary functions; where it matters that
    they read what they have written, that is a precondition. */
module RequestText {
  import opened Bits
  import opened Crypto
  import opened Types
  import opened Ascii
  import opened Witness

  const HashToBase64: Hash -> string
  const HashFromBase64: string -> Option<Hash>

  /** What a signature line is, for a reader who is interested in one key name. */
  datatype SignatureLine = Wanted(keyId: seq<byte>, signature: Signature) | Unwanted | Invalid

  const WriteSignatureLine: (string, seq<byte>, Signature) -> string
  const ReadSignatureLine: (string, string) -> SignatureLine

  const OLD := "old "
  const SIGNATURE_LIMIT := 16

  datatype Checkpoint = Checkpoint(origin: string, keyId: seq<byte>, signed: SignedTreeHead)

  // ---------- Writing ----------

  function Base64Lines(path: seq<Hash>): string {
    if path == [] then "" else HashToBase64(path[0]) + "\n" + Base64Lines(path[1..])
  }

  function CheckpointText(cp: Checkpoint): string {
    var th := cp.signed.treeHead;
    cp.origin + "\n" + (Decimal(th.size) + "\n" + (HashToBase64(th.rootHash) + "\n" + ("" + "\n" +
    (WriteSignatureLine(cp.origin, cp.keyId, cp.signed.signature) + "\n" + ""))))
  }

  function CheckpointOf(req: AddCheckpoint): Checkpoint {
    Checkpoint(req.origin, req.keyId, req.signed)
  }

  function RequestAsText(req: AddCheckpoint): string {
    OLD + Decimal(req.oldSize) + "\n" + (Base64Lines(req.path) + ("" + "\n" + CheckpointText(CheckpointOf(req))))
  }

  method WriteBase64(w: Writer, path: seq<Hash>)
    modifies w
    ensures w.out == old(w.out) + Base64Lines(path)
  {
    assert path[0..] == path;
    for i := 0 to |path|
      invariant w.out + Base64Lines(path[i..]) == old(w.out) + Base64Lines(path)
    {
      assert path[i..][1..] == path[i + 1..];
      ghost var before, line, more := w.out, HashToBase64(path[i]), Base64Lines(path[i + 1..]);
      assert before + (line + "\n" + more) == before + line + "\n" + more;
      w.out := w.out + HashToBase64(path[i]) + "\n";
    }
    assert w.out + "" == w.out;
  }

  method ToASCII(req: AddCheckpoint) returns (text: string)
    ensures text == RequestAsText(req)
  {
    hide Base64Lines, CheckpointText;
    var w := new Writer();
    w.out := w.out + OLD + Decimal(req.oldSize) + "\n";
    ghost var line := OLD + Decimal(req.oldSize) + "\n";
    assert w.out == line;
    WriteBase64(w, req.path);
    w.out := w.out + "\n" + CheckpointText(CheckpointOf(req));
    ghost var path, cp := Base64Lines(req.path), CheckpointText(CheckpointOf(req));
    assert line + path + "\n" + cp == line + (path + ("" + "\n" + cp));
    return w.out;
  }

  // ---------- Reading ----------

  /** `ParseBase64`, after the hashes in acc: up to an empty line (true) or the end (false). */
  function PathAt(acc: seq<Hash>, s: string): Parse<(seq<Hash>, bool)>
    decreases |s|
  {
    match LineAt(s)
    case EndOfFile => Got((acc, false), "")
    case Bad => Bad
    case Got(line, rest) =>
      if line == "" then Got((acc, true), rest)
      else if |acc| >= PROOF_SIZE_LIMIT then Bad
      else
        var h := HashFromBase64(line);
        if h.None? then Bad else PathAt(acc + [h.value], rest)
  }

  /** The signature lines, after count lines with the one in found: up to the end. */
  function SignatureLinesAt(origin: string, found: Option<SignatureLine>, count: nat, s: string): Parse<SignatureLine>
    decreases |s|
  {
    match LineAt(s)
    case EndOfFile => if found.None? then Bad else Got(found.value, "")
    case Bad => Bad
    case Got(line, rest) =>
      if count >= SIGNATURE_LIMIT then Bad
      else
        match ReadSignatureLine(line, origin)
        case Invalid => Bad
        case Unwanted => SignatureLinesAt(origin, found, count + 1, rest)
        case Wanted(_, _) =>
          if found.Some? then Bad
          else SignatureLinesAt(origin, Some(ReadSignatureLine(line, origin)), count + 1, rest)
  }

  function CheckpointAt(s: string): Parse<Checkpoint> {
    var (origin, s1) :- LineAt(s);
    var (sizeLine, s2) :- LineAt(s1);
    var size := IntFromDecimal(sizeLine);
    if size.None? then Bad
    else
      var (hashLine, s3) :- LineAt(s2);
      var rootHash := HashFromBase64(hashLine);
      if rootHash.None? then Bad
      else
        var (_, s4) :- EmptyLineAt(s3);
        var (line, s5) :- SignatureLinesAt(origin, None, 0, s4);
        if !line.Wanted? then Bad
        else
          var signed := SignedTreeHead(TreeHead(size.value, rootHash.value), line.signature);
          Got(Checkpoint(origin, line.keyId, signed), s5)
  }

  /** The last checks of `FromASCII`. */
  predicate ProofIsExpected(oldSize: nat, size: nat, path: seq<Hash>) {
    && oldSize <= size
    && if oldSize == size || oldSize == 0 then |path| == 0 else |path| > 0
  }

  /** What `AddCheckpoint.FromASCII` reads, if it succeeds. */
  function RequestAt(s: string): Parse<AddCheckpoint> {
    var (line, s1) :- LineAt(s);
    if !(OLD <= line) then Bad
    else
      var oldSize := IntFromDecimal(line[|OLD|..]);
      if oldSize.None? then Bad
      else
        var ((path, emptyLine), s2) :- PathAt([], s1);
        if !emptyLine then Bad
        else
          var (cp, s3) :- CheckpointAt(s2);
          if !ProofIsExpected(oldSize.value, cp.signed.treeHead.size, path) then Bad
          else Got(AddCheckpoint(oldSize.value, path, cp.origin, cp.keyId, cp.signed), s3)
  }

  function ParsedRequest(s: string): Option<AddCheckpoint> {
    var p := RequestAt(s);
    if p.Got? then Some(p.value) else None
  }

  method ParseBase64(p: Parser) returns (r: Parse<(seq<Hash>, bool)>)
    modifies p
    ensures r == PathAt([], old(p.rest))
    ensures r.Got? && r.value.1 ==> p.rest == r.rest
  {
    hide LineAt;
    var path: seq<Hash> := [];
    while true
      invariant PathAt(path, p.rest) == PathAt([], old(p.rest))
      decreases |p.rest|
    {
      var line := p.GetLine();
      match line
      case EndOfFile => return Got((path, false), "");
      case Bad => return Bad;
      case Got(line, _) =>
        if line == "" {
          return Got((path, true), p.rest);
        }
        if |path| >= PROOF_SIZE_LIMIT {
          return Bad;
        }
        var h := HashFromBase64(line);
        if h == None {
          return Bad;
        }
        path := path + [h.value];
    }
  }

  method ParseSignatureLines(p: Parser, origin: string) returns (r: Parse<SignatureLine>)
    modifies p
    ensures r == SignatureLinesAt(origin, None, 0, old(p.rest))
  {
    hide LineAt;
    var found: Option<SignatureLine>, count := None, 0;
    while true
      invariant SignatureLinesAt(origin, found, count, p.rest) == SignatureLinesAt(origin, None, 0, old(p.rest))
      decreases |p.rest|
    {
      var line := p.GetLine();
      match line
      case EndOfFile => return if found == None then Bad else Got(found.value, "");
      case Bad => return Bad;
      case Got(line, _) =>
        if count >= SIGNATURE_LIMIT {
          return Bad;
        }
        count := count + 1;
        var sig := ReadSignatureLine(line, origin);
        if sig.Invalid? {
          return Bad;
        }
        if sig.Wanted? {
          if found.Some? {
            return Bad;
          }
          found := Some(sig);
        }
    }
  }

  method ParseCheckpoint(p: Parser) returns (r: Parse<Checkpoint>)
    modifies p
    ensures r == CheckpointAt(old(p.rest))
  {
    hide LineAt, EmptyLineAt, SignatureLinesAt;
    var origin := p.GetLine();
    if !origin.Got? {
      return origin.PropagateFailure();
    }
    var sizeLine := p.GetLine();
    if !sizeLine.Got? {
      return sizeLine.PropagateFailure();
    }
    var size := IntFromDecimal(sizeLine.value);
    if size == None {
      return Bad;
    }
    var hashLine := p.GetLine();
    if !hashLine.Got? {
      return hashLine.PropagateFailure();
    }
    var rootHash := HashFromBase64(hashLine.value);
    if rootHash == None {
      return Bad;
    }
    var empty := p.GetEmptyLine();
    if !empty.Got? {
      return empty.PropagateFailure();
    }
    var line := ParseSignatureLines(p, origin.value);
    if !line.Got? {
      return line.PropagateFailure();
    }
    if !line.value.Wanted? {
      return Bad;
    }
    var head := TreeHead(size.value, rootHash.value);
    return Got(Checkpoint(origin.value, line.value.keyId, SignedTreeHead(head, line.value.signature)), line.rest);
  }

  method FromASCII(input: string) returns (req: Option<AddCheckpoint>)
    ensures req == ParsedRequest(input)
  {
    hide LineAt, PathAt, CheckpointAt, IntFromDecimal;
    var p := new Parser(input);
    var line := p.GetLine();
    if !line.Got? || !(OLD <= line.value) {
      return None;
    }
    var oldSize := IntFromDecimal(line.value[|OLD|..]);
    if oldSize == None {
      return None;
    }
    var path := ParseBase64(p);
    if !path.Got? || !path.value.1 {
      return None;
    }
    var cp := ParseCheckpoint(p);
    if !cp.Got? || !ProofIsExpected(oldSize.value, cp.value.signed.treeHead.size, path.value.0) {
      return None;
    }
    return Some(AddCheckpoint(oldSize.value, path.value.0, cp.value.origin, cp.value.keyId, cp.value.signed));
  }

  // ---------- What is read ----------

  lemma {:induction false} PathIsShort(acc: seq<Hash>, s: string)
    requires |acc| <= PROOF_SIZE_LIMIT && PathAt(acc, s).Got?
    ensures |PathAt(acc, s).value.0| <= PROOF_SIZE_LIMIT
    decreases |s|
  {
    hide LineAt;
    match LineAt(s)
    case Got(line, rest) =>
      if line != "" { PathIsShort(acc + [HashFromBase64(line).value], rest); }
    case _ =>
  }

  /** Only requests that the witness can work with get past the reader. */
  lemma {:induction false} ParsedIsWellFormed(s: string)
    requires ParsedRequest(s).Some?
    ensures WellFormedRequest(ParsedRequest(s).value)
  {
    hide PathAt, CheckpointAt, LineAt, IntFromDecimal;
    var line := LineAt(s);
    PathIsShort([], line.rest);
  }

  // ---------- Round trip ----------

  predicate OneLine(s: string) {
    '\n' !in s
  }

  /** The hash can be told from its base64 line. */
  predicate GoodCodec(h: Hash) {
    var line := HashToBase64(h);
    OneLine(line) && line != "" && HashFromBase64(line) == Some(h)
  }

  predicate GoodCodecs(hashes: seq<Hash>) {
    hashes != [] ==> GoodCodec(hashes[0]) && GoodCodecs(hashes[1..])
  }

  /** The checkpoint has a one-line origin, and can be told from its base64 and signature lines. */
  predicate GoodCheckpoint(cp: Checkpoint) {
    var line := WriteSignatureLine(cp.origin, cp.keyId, cp.signed.signature);
    && OneLine(cp.origin) && GoodCodec(cp.signed.treeHead.rootHash)
    && OneLine(line) && ReadSignatureLine(line, cp.origin) == Wanted(cp.keyId, cp.signed.signature)
  }

  lemma {:induction false} LineIsRead(line: string, rest: string)
    requires OneLine(line)
    ensures LineAt(line + "\n" + rest) == Got(line, rest)
  {
    var s := line + "\n" + rest;
    IndexOfFirst(line, '\n', rest);
    assert s[..|line|] == line && s[|line| + 1..] == rest;
  }

  lemma {:induction false} DecimalIsOneLine(n: nat)
    ensures OneLine(Decimal(n))
  {
    DecimalDigits(n);
  }

  lemma {:induction false} ReadPath(acc: seq<Hash>, path: seq<Hash>, rest: string)
    requires GoodCodecs(path) && |acc| <= PROOF_SIZE_LIMIT
    ensures PathAt(acc, Base64Lines(path) + ("" + "\n" + rest)) ==
            if |acc + path| <= PROOF_SIZE_LIMIT then Got((acc + path, true), rest) else Bad
    decreases |path|
  {
    hide LineAt;
    if path == [] {
      assert acc + path == acc;
      LineIsRead("", rest);
      assert "" + ("" + "\n" + rest) == "" + "\n" + rest;
    } else {
      var line, more := HashToBase64(path[0]), Base64Lines(path[1..]) + ("" + "\n" + rest);
      LineIsRead(line, more);
      assert Base64Lines(path) + ("" + "\n" + rest) == line + "\n" + more;
      if |acc| < PROOF_SIZE_LIMIT {
        ReadPath(acc + [path[0]], path[1..], rest);
        assert acc + [path[0]] + path[1..] == acc + path;
      }
    }
  }

  lemma {:induction false} ReadOneSignature(cp: Checkpoint)
    requires GoodCheckpoint(cp)
    ensures SignatureLinesAt(cp.origin, None, 0,
                             WriteSignatureLine(cp.origin, cp.keyId, cp.signed.signature) + "\n" + "")
         == Got(Wanted(cp.keyId, cp.signed.signature), "")
  {
    hide LineAt;
    var sig := Wanted(cp.keyId, cp.signed.signature);
    LineIsRead(WriteSignatureLine(cp.origin, cp.keyId, cp.signed.signature), "");
    assert LineAt("") == EndOfFile by { NoLine(); }
    assert SignatureLinesAt(cp.origin, Some(sig), 1, "") == Got(sig, "");
  }

  lemma {:induction false} NoLine()
    ensures LineAt("") == EndOfFile
  {
  }

  lemma {:induction false} ReadCheckpoint(cp: Checkpoint)
    requires GoodCheckpoint(cp)
    ensures CheckpointAt(CheckpointText(cp)) == if cp.signed.treeHead.size < Pow2(63) then Got(cp, "") else Bad
  {
    hide LineAt, Decimal, IntFromDecimal, SignatureLinesAt, Pow2;
    var th := cp.signed.treeHead;
    var s4 := WriteSignatureLine(cp.origin, cp.keyId, cp.signed.signature) + "\n" + "";
    var s3 := "" + "\n" + s4;
    var s2 := HashToBase64(th.rootHash) + "\n" + s3;
    var s1 := Decimal(th.size) + "\n" + s2;
    LineIsRead(cp.origin, s1);
    LineIsRead(Decimal(th.size), s2) by { DecimalIsOneLine(th.size); }
    LineIsRead(HashToBase64(th.rootHash), s3);
    LineIsRead("", s4);
    ReadOneSignature(cp);
    DecimalIsRead(th.size);
  }

  lemma {:induction false} DecimalIsRead(n: nat)
    ensures IntFromDecimal(Decimal(n)) == if n < Pow2(63) then Some(n) else None
  {
    hide Pow2;
    IntFromDecimalInverts(n, Decimal(n));
    DecimalDigits(n);
  }

  /** The text of a request is read back as that request exactly if it is well-formed and its numbers
      are below 2^63. */
  lemma {:induction false} RequestRoundTrip(req: AddCheckpoint)
    requires GoodCodecs(req.path) && GoodCheckpoint(CheckpointOf(req))
    ensures ParsedRequest(RequestAsText(req)) == Some(req) <==>
            WellFormedRequest(req) && req.signed.treeHead.size < Pow2(63)
  {
    hide LineAt, Decimal, IntFromDecimal, PathAt, Base64Lines, CheckpointAt, CheckpointText, GoodCheckpoint, Pow2;
    var cp := CheckpointText(CheckpointOf(req));
    var s2 := "" + "\n" + cp;
    var line := OLD + Decimal(req.oldSize);
    DecimalIsOneLine(req.oldSize);
    LineIsRead(line, Base64Lines(req.path) + s2);
    assert line[|OLD|..] == Decimal(req.oldSize);
    DecimalIsRead(req.oldSize);
    ReadPath([], req.path, cp);
    assert [] + req.path == req.path;
    ReadCheckpoint(CheckpointOf(req));
  }
}
