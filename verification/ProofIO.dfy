/** `SigsumProof.ToASCII` and `SigsumProof.FromASCII` of `pkg/proof/proof.go` as programs over a writer
    and a parser, with the loops of `pkg/types`. */
module ProofIO {
  import opened Bits
  import opened Crypto
  import opened Types
  import opened Ascii
  import opened ProofText

  // ---------- Reading ----------

  method ParseHashes(p: Parser) returns (r: Parse<seq<Hash>>)
    modifies p
    ensures r == HashesAt([], old(p.rest))
  {
    hide HashAt;
    var hashes: seq<Hash> := [];
    while true
      invariant HashesAt(hashes, p.rest) == HashesAt([], old(p.rest))
      decreases |p.rest|
    {
      var h := p.GetHash("node_hash");
      match h
      case EndOfFile => return if hashes == [] then Bad else Got(hashes, "");
      case EmptyLine(_) => return Bad;
      case Bad => return Bad;
      case Got(hash, _) =>
        if |hashes| >= PROOF_SIZE_LIMIT {
          return Bad;
        }
        hashes := hashes + [hash];
    }
  }

  method ParseInclusion(p: Parser) returns (r: Parse<InclusionProof>)
    modifies p
    ensures r == InclusionAt(old(p.rest))
  {
    hide HashesAt, IntAt;
    var index := p.GetInt("leaf_index");
    if !index.Got? {
      return index.PropagateFailure();
    }
    var path := ParseHashes(p);
    if !path.Got? {
      return path.PropagateFailure();
    }
    return Got(InclusionProof(index.value, path.value), path.rest);
  }

  method ParseSignedTreeHead(p: Parser) returns (r: Parse<SignedTreeHead>)
    modifies p
    ensures r == SignedTreeHeadAt(old(p.rest))
    ensures r.Got? ==> p.rest == r.rest
  {
    hide HashAt, IntAt, SignatureAt;
    var size := p.GetInt("size");
    if !size.Got? {
      return size.PropagateFailure();
    }
    var rootHash := p.GetHash("root_hash");
    if !rootHash.Got? {
      return rootHash.PropagateFailure();
    }
    var signature := p.GetSignature("signature");
    if !signature.Got? {
      return signature.PropagateFailure();
    }
    return Got(SignedTreeHead(TreeHead(size.value, rootHash.value), signature.value), p.rest);
  }

  method ParseCosignature(p: Parser) returns (r: Parse<(Hash, Cosignature)>)
    modifies p
    ensures r == CosignatureAt(old(p.rest))
    ensures r.Got? || r.EmptyLine? ==> p.rest == r.rest
  {
    hide ValuesAt;
    var v := p.GetValues("cosignature", 3);
    if !v.Got? {
      return v.PropagateFailure();
    }
    var keyHash, timestamp := HashFromHex(v.value[0]), IntFromDecimal(v.value[1]);
    var signature := SignatureFromHex(v.value[2]);
    if keyHash == None || timestamp == None || signature == None {
      return Bad;
    }
    return Got((keyHash.value, Cosignature(timestamp.value, signature.value)), p.rest);
  }

  method ParseCosignatures(p: Parser) returns (r: Parse<(map<Hash, Cosignature>, bool)>)
    modifies p
    ensures r == CosignaturesAt(map[], old(p.rest))
    ensures r.Got? && r.value.1 ==> p.rest == r.rest
  {
    hide CosignatureAt;
    var css: map<Hash, Cosignature> := map[];
    while true
      invariant CosignaturesAt(css, p.rest) == CosignaturesAt(map[], old(p.rest))
      decreases |p.rest|
    {
      var c := ParseCosignature(p);
      match c
      case EndOfFile => return Got((css, false), "");
      case EmptyLine(_) => return Got((css, true), p.rest);
      case Bad => return Bad;
      case Got((keyHash, cs), _) =>
        if keyHash in css {
          return Bad;
        }
        css := css[keyHash := cs];
    }
  }

  method ParseLeaf(p: Parser, version: nat) returns (r: Parse<ShortLeaf>)
    modifies p
    ensures r == LeafAt(version, old(p.rest))
    ensures r.Got? ==> p.rest == r.rest
  {
    hide ValuesAt;
    if version == 1 {
      var v := p.GetValues("leaf", 3);
      if !v.Got? {
        return v.PropagateFailure();
      }
      var checksum := DecodeHex(v.value[0]);
      if checksum == None || |checksum.value| != 2 {
        return Bad;
      }
      return ShortLeafOf(v.value[1], v.value[2], p.rest);
    }
    var v := p.GetValues("leaf", 2);
    if !v.Got? {
      return v.PropagateFailure();
    }
    return ShortLeafOf(v.value[0], v.value[1], p.rest);
  }

  method FromASCII(input: string) returns (sp: Option<SigsumProof>)
    ensures sp == ParsedProof(input)
  {
    hide IntAt, HashAt, LeafAt, EmptyLineAt, SignedTreeHeadAt, CosignaturesAt, InclusionAt;
    var p := new Parser(input);
    var version := p.GetInt("version");
    if !version.Got? || (version.value != VERSION && version.value != 1) {
      return None;
    }
    var logKeyHash := p.GetHash("log");
    if !logKeyHash.Got? {
      return None;
    }
    var leaf := ParseLeaf(p, version.value);
    if !leaf.Got? {
      return None;
    }
    var empty := p.GetEmptyLine();
    if !empty.Got? {
      return None;
    }
    var signed := ParseSignedTreeHead(p);
    if !signed.Got? {
      return None;
    }
    var css := ParseCosignatures(p);
    if !css.Got? {
      return None;
    }
    var treeHead, size := CosignedTreeHead(signed.value, css.value.0), signed.value.treeHead.size;
    if size == 0 {
      return None;
    }
    if size == 1 {
      return if css.value.1 then None else Some(SigsumProof(logKeyHash.value, leaf.value, treeHead, NO_INCLUSION));
    }
    if !css.value.1 {
      return None;
    }
    var inclusion := ParseInclusion(p);
    if !inclusion.Got? {
      return None;
    }
    return Some(SigsumProof(logKeyHash.value, leaf.value, treeHead, inclusion.value));
  }

  // ---------- Writing ----------

  method WriteHashes(w: Writer, hashes: seq<Hash>) returns (ok: bool)
    modifies w
    ensures ok && HashLines(hashes).Some?
    ensures w.out == old(w.out) + HashLines(hashes).value
  {
    hide WriteLine;
    assert hashes[0..] == hashes;
    AllHashesWritten(hashes);
    for i := 0 to |hashes|
      invariant HashLines(hashes[i..]).Some?
      invariant w.out + HashLines(hashes[i..]).value == old(w.out) + HashLines(hashes).value
    {
      assert hashes[i..][1..] == hashes[i + 1..];
      AllHashesWritten(hashes[i + 1..]);
      ghost var before := w.out;
      BytesAreWritten("node_hash", hashes[i].bytes);
      var _ := w.Line("node_hash", [Bytes(hashes[i].bytes)]);
      ghost var line, more := WriteLine("node_hash", [Bytes(hashes[i].bytes)]).value, HashLines(hashes[i + 1..]).value;
      assert before + line + more == before + (line + more);
    }
    assert hashes[|hashes|..] == [];
    return true;
  }

  lemma {:induction false} AllHashesWritten(hashes: seq<Hash>)
    ensures HashLines(hashes).Some?
  {
    hide WriteLine;
    if hashes != [] {
      BytesAreWritten("node_hash", hashes[0].bytes);
      AllHashesWritten(hashes[1..]);
    }
  }

  /** All numbers are below 2^63. */
  predicate Writable(sp: SigsumProof) {
    && sp.treeHead.signed.treeHead.size < Pow2(63)
    && (forall h :: h in sp.treeHead.cosignatures ==> sp.treeHead.cosignatures[h].timestamp < Pow2(63))
    && (sp.treeHead.signed.treeHead.size > 1 ==> sp.inclusion.leafIndex < Pow2(63))
  }

  lemma {:induction false} IntIsWritten(key: string, n: nat)
    ensures WriteLine(key, [Int(n)]).Some? <==> n < Pow2(63)
  {
    assert [Int(n)][1..] == [];
  }

  lemma {:induction false} CosignatureIsWritten(h: Hash, cs: Cosignature)
    ensures WriteLine("cosignature", CosignatureItems(h, cs)).Some? <==> cs.timestamp < Pow2(63)
  {
    hide Pow2, Decimal, EncodeHex;
    var items := CosignatureItems(h, cs);
    assert items[1..][1..] == [items[2]] && [items[2]][1..] == [];
    RestUnfold(items[1..]);
    RestUnfold([items[2]]);
    RestUnfold([]);
  }

  lemma {:induction false} LinesAppend(order: seq<Hash>, h: Hash, css: map<Hash, Cosignature>)
    requires forall x :: x in order + [h] ==> x in css
    requires forall x :: x in order ==> x in css
    ensures CosignatureLines(order + [h], css) ==
            Then(CosignatureLines(order, css), WriteLine("cosignature", CosignatureItems(h, css[h])))
    decreases |order|
  {
    hide WriteLine;
    if order == [] {
      assert [h][1..] == [] && [] + [h] == [h];
      var line := WriteLine("cosignature", CosignatureItems(h, css[h]));
      assert line.Some? ==> line.value + "" == line.value && "" + line.value == line.value;
    } else {
      var more := order[1..];
      assert (order + [h])[1..] == more + [h];
      assert order == [order[0]] + more;
      LinesAppend(more, h, css);
      var a, b, c := WriteLine("cosignature", CosignatureItems(order[0], css[order[0]])), CosignatureLines(more, css),
                     WriteLine("cosignature", CosignatureItems(h, css[h]));
      assert a.Some? && b.Some? && c.Some? ==> a.value + b.value + c.value == a.value + (b.value + c.value);
    }
  }

  lemma {:induction false} NoDuplicatesAppend(order: seq<Hash>, h: Hash)
    requires NoDuplicates(order) && h !in order
    ensures NoDuplicates(order + [h])
    decreases |order|
  {
    if order == [] {
      assert [] + [h] == [h] && [h][1..] == [];
    } else {
      assert (order + [h])[1..] == order[1..] + [h];
      NoDuplicatesAppend(order[1..], h);
    }
  }

  /** Writes the cosignature lines in some order. */
  method WriteCosignatures(w: Writer, css: map<Hash, Cosignature>) returns (ok: bool, ghost order: seq<Hash>)
    modifies w
    ensures ok <==> forall h :: h in css ==> css[h].timestamp < Pow2(63)
    ensures ok ==> IsOrder(order, css) && CosignatureLines(order, css).Some?
    ensures ok ==> w.out == old(w.out) + CosignatureLines(order, css).value
  {
    hide WriteLine, Pow2, CosignatureItems;
    var todo := css.Keys;
    order := [];
    assert old(w.out) + "" == old(w.out);
    while todo != {}
      invariant todo <= css.Keys && NoDuplicates(order)
      invariant forall h :: h in order <==> h in css.Keys - todo
      invariant forall h :: h in order ==> css[h].timestamp < Pow2(63)
      invariant CosignatureLines(order, css).Some?
      invariant w.out == old(w.out) + CosignatureLines(order, css).value
    {
      var h :| h in todo;  // the source iterates in an arbitrary order
      todo := todo - {h};
      CosignatureIsWritten(h, css[h]);
      NoDuplicatesAppend(order, h);
      LinesAppend(order, h, css);
      var done := w.Line("cosignature", CosignatureItems(h, css[h]));
      if !done {
        return false, order;
      }
      ghost var lines, line := CosignatureLines(order, css).value, WriteLine("cosignature", CosignatureItems(h,
                                                css[h])).value;
      assert old(w.out) + lines + line == old(w.out) + (lines + line);
      order := order + [h];
    }
    ok := true;
  }

  method WriteSigned(w: Writer, sth: SignedTreeHead) returns (ok: bool)
    modifies w
    ensures ok <==> SignedTreeHeadText(sth).Some?
    ensures ok ==> w.out == old(w.out) + SignedTreeHeadText(sth).value
  {
    hide WriteLine;
    var size, rootHash, signature := [Int(sth.treeHead.size)], [Bytes(sth.treeHead.rootHash.bytes)],
        [Bytes(sth.signature.bytes)];
    ghost var a, b, c := WriteLine("size", size), WriteLine("root_hash", rootHash), WriteLine("signature", signature);
    ok := w.Line("size", size);
    if ok {
      ok := w.Line("root_hash", rootHash);
    }
    if ok {
      ok := w.Line("signature", signature);
    }
    assert ok ==> old(w.out) + a.value + b.value + c.value == old(w.out) + (a.value + (b.value + c.value));
  }

  method WriteInclusion(w: Writer, pr: InclusionProof) returns (ok: bool)
    modifies w
    ensures ok <==> InclusionText(pr).Some?
    ensures ok ==> w.out == old(w.out) + InclusionText(pr).value
  {
    hide WriteLine, HashLines;
    ok := w.Line("leaf_index", [Int(pr.leafIndex)]);
    if !ok {
      return;
    }
    ok := WriteHashes(w, pr.path);
    ghost var index, path := WriteLine("leaf_index", [Int(pr.leafIndex)]).value, HashLines(pr.path).value;
    assert old(w.out) + index + path == old(w.out) + (index + path);
  }

  lemma {:induction false} HeadLines(sp: SigsumProof)
    ensures var a, b, c := WriteLine("version", [Int(VERSION)]), WriteLine("log", [Bytes(sp.logKeyHash.bytes)]),
        LeafText(sp.leaf);
      a.Some? && b.Some? && c.Some? && HeadText(sp) == Some(a.value + (b.value + (c.value + "\n")))
  {
    hide WriteLine, LeafText, LeafAt;
    VersionWritten();
    BytesAreWritten("log", sp.logKeyHash.bytes);
    ReadLeaf(sp.leaf, "");
  }

  /** The first lines of a proof, with the empty line after them. */
  method WriteHead(w: Writer, sp: SigsumProof) returns (ok: bool)
    modifies w
    ensures ok && HeadText(sp).Some?
    ensures w.out == old(w.out) + HeadText(sp).value
  {
    hide WriteLine, HeadText;
    HeadLines(sp);
    var _ := w.Line("version", [Int(VERSION)]);
    var _ := w.Line("log", [Bytes(sp.logKeyHash.bytes)]);
    var _ := w.Line("leaf", [Bytes(sp.leaf.keyHash.bytes), Bytes(sp.leaf.signature.bytes)]);
    w.out := w.out + "\n";
    ghost var a, b := WriteLine("version", [Int(VERSION)]).value, WriteLine("log", [Bytes(sp.logKeyHash.bytes)]).value;
    ghost var c := LeafText(sp.leaf).value;
    assert old(w.out) + a + b + c + "\n" == old(w.out) + (a + (b + (c + "\n")));
    return true;
  }

  /** Succeeds exactly if all numbers are below 2^63; the text is the one for the order in which the
      cosignatures happen to come. */
  method ToASCII(sp: SigsumProof) returns (text: Option<string>, ghost order: seq<Hash>)
    ensures text.Some? <==> Writable(sp)
    ensures text.Some? ==> IsOrder(order, sp.treeHead.cosignatures) && text == ProofAsText(sp, order)
  {
    hide WriteLine, HeadText, SignedTreeHeadText, CosignatureLines, InclusionText, Pow2;
    var size := sp.treeHead.signed.treeHead.size;
    SignedIsWritten(sp.treeHead.signed);
    InclusionIsWritten(sp.inclusion);
    order := [];
    var w := new Writer();
    var _ := WriteHead(w, sp);
    var ok := WriteSigned(w, sp.treeHead.signed);
    if !ok {
      return None, order;
    }
    ok, order := WriteCosignatures(w, sp.treeHead.cosignatures);
    if !ok {
      return None, order;
    }
    ghost var a, b, c := HeadText(sp).value, SignedTreeHeadText(sp.treeHead.signed).value,
                         CosignatureLines(order, sp.treeHead.cosignatures).value;
    if size <= 1 {
      assert "" + a + b + c == a + ((b + c) + "");
      return Some(w.out), order;
    }
    w.out := w.out + "\n";
    ok := WriteInclusion(w, sp.inclusion);
    if !ok {
      return None, order;
    }
    ghost var d := InclusionText(sp.inclusion).value;
    assert "" + a + b + c + "\n" + d == a + ((b + c) + ("\n" + d));
    return Some(w.out), order;
  }

  lemma {:induction false} SignedIsWritten(sth: SignedTreeHead)
    ensures SignedTreeHeadText(sth).Some? <==> sth.treeHead.size < Pow2(63)
  {
    hide WriteLine, Pow2;
    IntIsWritten("size", sth.treeHead.size);
    BytesAreWritten("root_hash", sth.treeHead.rootHash.bytes);
    BytesAreWritten("signature", sth.signature.bytes);
  }

  lemma {:induction false} InclusionIsWritten(pr: InclusionProof)
    ensures InclusionText(pr).Some? <==> pr.leafIndex < Pow2(63)
  {
    hide WriteLine, Pow2, HashLines;
    IntIsWritten("leaf_index", pr.leafIndex);
    AllHashesWritten(pr.path);
  }
}
