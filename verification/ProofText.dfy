/** The text of a Sigsum proof: the printers and parsers of `pkg/types` and of `pkg/proof/proof.go`. */
module ProofText {
  import opened Bits
  import opened Crypto
  import opened Types
  import opened Ascii

  /** A leaf without its checksum. */
  datatype ShortLeaf = ShortLeaf(signature: Signature, keyHash: Hash)

  datatype SigsumProof = SigsumProof(
    logKeyHash: Hash, leaf: ShortLeaf, treeHead: CosignedTreeHead, inclusion: InclusionProof)

  const VERSION: nat := 2
  const NO_INCLUSION := InclusionProof(0, [])

  // ---------- Printing ----------

  /** `hashesToASCII` */
  function HashLines(hashes: seq<Hash>): Option<string> {
    if hashes == [] then Some("")
    else Then(WriteLine("node_hash", [Bytes(hashes[0].bytes)]), HashLines(hashes[1..]))
  }

  function InclusionText(pr: InclusionProof): Option<string> {
    Then(WriteLine("leaf_index", [Int(pr.leafIndex)]), HashLines(pr.path))
  }

  function SignedTreeHeadText(sth: SignedTreeHead): Option<string> {
    Then(WriteLine("size", [Int(sth.treeHead.size)]),
         Then(WriteLine("root_hash", [Bytes(sth.treeHead.rootHash.bytes)]),
              WriteLine("signature", [Bytes(sth.signature.bytes)])))
  }

  function CosignatureItems(keyHash: Hash, cs: Cosignature): (items: seq<Item>)
    ensures |items| == 3
  {
    [Bytes(keyHash.bytes), Int(cs.timestamp), Bytes(cs.signature.bytes)]
  }

  /** The cosignature lines, in the order in which the map is iterated. */
  function CosignatureLines(order: seq<Hash>, css: map<Hash, Cosignature>): Option<string>
    requires forall h :: h in order ==> h in css
  {
    if order == [] then Some("")
    else Then(WriteLine("cosignature", CosignatureItems(order[0], css[order[0]])), CosignatureLines(order[1..], css))
  }

  /** An order in which a map can be iterated. */
  ghost predicate IsOrder(order: seq<Hash>, css: map<Hash, Cosignature>) {
    && (forall h :: h in order <==> h in css)
    && NoDuplicates(order)
  }

  predicate NoDuplicates(order: seq<Hash>) {
    order != [] ==> order[0] !in order[1..] && NoDuplicates(order[1..])
  }

  function LeafText(leaf: ShortLeaf): Option<string> {
    WriteLine("leaf", [Bytes(leaf.keyHash.bytes), Bytes(leaf.signature.bytes)])
  }

  function HeadText(sp: SigsumProof): Option<string> {
    Then(WriteLine("version", [Int(VERSION)]),
    Then(WriteLine("log", [Bytes(sp.logKeyHash.bytes)]),
    Then(LeafText(sp.leaf),
         Some("\n"))))
  }

  /** What is written after the first lines. */
  function BodyText(sp: SigsumProof, order: seq<Hash>): Option<string>
    requires IsOrder(order, sp.treeHead.cosignatures)
  {
    var tree := Then(SignedTreeHeadText(sp.treeHead.signed), CosignatureLines(order, sp.treeHead.cosignatures));
    var inclusion :=
      if sp.treeHead.signed.treeHead.size <= 1 then Some("") else Then(Some("\n"), InclusionText(sp.inclusion));
    Then(tree, inclusion)
  }

  /** What `SigsumProof.ToASCII` writes, if it succeeds. */
  function ProofAsText(sp: SigsumProof, order: seq<Hash>): Option<string>
    requires IsOrder(order, sp.treeHead.cosignatures)
  {
    Then(HeadText(sp), BodyText(sp, order))
  }

  // ---------- Parsing ----------

  /** `hashesFromASCII`, after the hashes in acc: one or more, at most PROOF_SIZE_LIMIT, up to the end. */
  function HashesAt(acc: seq<Hash>, s: string): Parse<seq<Hash>>
    decreases |s|
  {
    match HashAt("node_hash", s)
    case EndOfFile => if acc == [] then Bad else Got(acc, "")
    case EmptyLine(_) => Bad
    case Bad => Bad
    case Got(h, rest) => if |acc| >= PROOF_SIZE_LIMIT then Bad else HashesAt(acc + [h], rest)
  }

  function InclusionAt(s: string): Parse<InclusionProof> {
    var (index, s1) :- IntAt("leaf_index", s);
    var (path, s2) :- HashesAt([], s1);
    Got(InclusionProof(index, path), s2)
  }

  function SignedTreeHeadAt(s: string): Parse<SignedTreeHead> {
    var (size, s1) :- IntAt("size", s);
    var (rootHash, s2) :- HashAt("root_hash", s1);
    var (signature, s3) :- SignatureAt("signature", s2);
    Got(SignedTreeHead(TreeHead(size, rootHash), signature), s3)
  }

  function CosignatureAt(s: string): (p: Parse<(Hash, Cosignature)>)
    ensures p.Got? ==> |p.rest| < |s|
  {
    var (v, rest) :- ValuesAt("cosignature", 3, s);
    var keyHash, timestamp, signature := HashFromHex(v[0]), IntFromDecimal(v[1]), SignatureFromHex(v[2]);
    if keyHash.None? || timestamp.None? || signature.None? then Bad
    else Got((keyHash.value, Cosignature(timestamp.value, signature.value)), rest)
  }

  /** `ParseCosignatures`, after the ones in acc: up to an empty line (true) or the end (false). */
  function CosignaturesAt(acc: map<Hash, Cosignature>, s: string): Parse<(map<Hash, Cosignature>, bool)>
    decreases |s|
  {
    match CosignatureAt(s)
    case EndOfFile => Got((acc, false), "")
    case EmptyLine(rest) => Got((acc, true), rest)
    case Bad => Bad
    case Got((keyHash, cs), rest) => if keyHash in acc then Bad else CosignaturesAt(acc[keyHash := cs], rest)
  }

  function ShortLeafOf(keyHash: string, signature: string, rest: string): Parse<ShortLeaf> {
    var h, sig := HashFromHex(keyHash), SignatureFromHex(signature);
    if h.None? || sig.None? then Bad else Got(ShortLeaf(sig.value, h.value), rest)
  }

  /** `ShortLeaf.Parse` and, for version 1 with its short checksum, `ShortLeaf.ParseVersion1`. */
  function LeafAt(version: nat, s: string): Parse<ShortLeaf> {
    if version == 1 then
      var (v, rest) :- ValuesAt("leaf", 3, s);
      var checksum := DecodeHex(v[0]);
      if checksum.None? || |checksum.value| != 2 then Bad else ShortLeafOf(v[1], v[2], rest)
    else
      var (v, rest) :- ValuesAt("leaf", 2, s);
      ShortLeafOf(v[0], v[1], rest)
  }

  /** The first lines, and the empty line after them. */
  function HeadAt(s: string): Parse<(Hash, ShortLeaf)> {
    var (version, s1) :- IntAt("version", s);
    if version != VERSION && version != 1 then Bad
    else
      var (logKeyHash, s2) :- HashAt("log", s1);
      var (leaf, s3) :- LeafAt(version, s2);
      var (_, s4) :- EmptyLineAt(s3);
      Got((logKeyHash, leaf), s4)
  }

  function BodyAt(logKeyHash: Hash, leaf: ShortLeaf, s: string): Parse<SigsumProof> {
    var (signed, s1) :- SignedTreeHeadAt(s);
    var ((css, emptyLine), s2) :- CosignaturesAt(map[], s1);
    var treeHead := CosignedTreeHead(signed, css);
    if signed.treeHead.size == 0 then Bad
    else if signed.treeHead.size == 1 then
      if emptyLine then Bad else Got(SigsumProof(logKeyHash, leaf, treeHead, NO_INCLUSION), s2)
    else if !emptyLine then Bad
    else
      var (inclusion, s3) :- InclusionAt(s2);
      Got(SigsumProof(logKeyHash, leaf, treeHead, inclusion), s3)
  }

  function ProofAt(s: string): Parse<SigsumProof> {
    var ((logKeyHash, leaf), rest) :- HeadAt(s);
    BodyAt(logKeyHash, leaf, rest)
  }

  /** What `SigsumProof.FromASCII` reads, if it succeeds. */
  function ParsedProof(s: string): Option<SigsumProof> {
    var p := ProofAt(s);
    if p.Got? then Some(p.value) else None
  }

  // ---------- Round trip ----------

  lemma {:induction false} ReadHashes(acc: seq<Hash>, hashes: seq<Hash>)
    requires |acc| <= PROOF_SIZE_LIMIT
    ensures HashLines(hashes).Some?
    ensures HashesAt(acc, HashLines(hashes).value) ==
            if 0 < |acc + hashes| <= PROOF_SIZE_LIMIT then Got(acc + hashes, "") else Bad
    decreases |hashes|
  {
    hide HashAt, WriteLine;
    if hashes == [] {
      assert acc + hashes == acc;
      NoHash();
    } else {
      var h := hashes[0];
      BytesAreWritten("node_hash", h.bytes);
      ReadHashes([], hashes[1..]);
      ReadHash("node_hash", h, HashLines(hashes[1..]).value);
      if |acc| < PROOF_SIZE_LIMIT {
        ReadHashes(acc + [h], hashes[1..]);
        assert acc + [h] + hashes[1..] == acc + hashes;
      }
    }
  }

  lemma {:induction false} NoHash()
    ensures HashAt("node_hash", "") == EndOfFile
  {
    EndOfText("node_hash");
  }

  lemma {:induction false} ReadInclusion(pr: InclusionProof)
    requires InclusionText(pr).Some?
    ensures InclusionAt(InclusionText(pr).value) ==
            if 0 < |pr.path| <= PROOF_SIZE_LIMIT then Got(pr, "") else Bad
  {
    hide HashLines, HashesAt, WriteLine, IntAt;
    ReadHashes([], pr.path);
    assert [] + pr.path == pr.path;
    ReadInt("leaf_index", pr.leafIndex, HashLines(pr.path).value);
  }

  lemma {:induction false} ReadSignedTreeHead(sth: SignedTreeHead, rest: string)
    requires SignedTreeHeadText(sth).Some?
    ensures SignedTreeHeadAt(SignedTreeHeadText(sth).value + rest) == Got(sth, rest)
  {
    hide WriteLine, IntAt, HashAt, SignatureAt;
    var a := WriteLine("size", [Int(sth.treeHead.size)]).value;
    var b := WriteLine("root_hash", [Bytes(sth.treeHead.rootHash.bytes)]).value;
    var c := WriteLine("signature", [Bytes(sth.signature.bytes)]).value;
    ReadInt("size", sth.treeHead.size, b + (c + rest));
    ReadHash("root_hash", sth.treeHead.rootHash, c + rest);
    ReadSignature("signature", sth.signature, rest);
    assert a + (b + c) + rest == a + (b + (c + rest));
  }

  lemma {:induction false} ReadCosignature(keyHash: Hash, cs: Cosignature, rest: string)
    requires WriteLine("cosignature", CosignatureItems(keyHash, cs)).Some?
    ensures CosignatureAt(WriteLine("cosignature", CosignatureItems(keyHash, cs)).value + rest) ==
            Got((keyHash, cs), rest)
  {
    hide *;
    var items := CosignatureItems(keyHash, cs);
    TimestampFits(keyHash, cs);
    CosignatureTexts(keyHash, cs);
    ReadValues("cosignature", items, rest);
    HexIsRead(keyHash, cs.signature);
    IntFromDecimalInverts(cs.timestamp, Decimal(cs.timestamp));
    CosignatureFields(WriteLine("cosignature", items).value + rest, Texts(items), rest, keyHash, cs);
  }

  lemma {:induction false} CosignatureTexts(keyHash: Hash, cs: Cosignature)
    ensures Plain("cosignature")
    ensures Texts(CosignatureItems(keyHash, cs)) ==
            [EncodeHex(keyHash.bytes), Decimal(cs.timestamp), EncodeHex(cs.signature.bytes)]
  {
    hide Texts, EncodeHex, Decimal;
    var items := CosignatureItems(keyHash, cs);
    ThreeTexts(items[0], items[1], items[2]);
  }

  lemma {:induction false} CosignatureFields(s: string, v: seq<string>, rest: string, keyHash: Hash, cs: Cosignature)
    requires ValuesAt("cosignature", 3, s) == Got(v, rest) && |v| == 3
    requires HashFromHex(v[0]) == Some(keyHash) && SignatureFromHex(v[2]) == Some(cs.signature)
    requires IntFromDecimal(v[1]) == Some(cs.timestamp)
    ensures CosignatureAt(s) == Got((keyHash, cs), rest)
  {
    hide ValuesAt, HashFromHex, SignatureFromHex, IntFromDecimal;
  }

  lemma {:induction false} HexIsRead(h: Hash, signature: Signature)
    ensures HashFromHex(EncodeHex(h.bytes)) == Some(h)
    ensures SignatureFromHex(EncodeHex(signature.bytes)) == Some(signature)
  {
    DecodeHexInverts(h.bytes);
    DecodeHexInverts(signature.bytes);
  }

  lemma {:induction false} TimestampFits(keyHash: Hash, cs: Cosignature)
    requires WriteLine("cosignature", CosignatureItems(keyHash, cs)).Some?
    ensures cs.timestamp < Pow2(63)
  {
    hide Decimal, EncodeHex, Pow2;
    ItemsWritten(CosignatureItems(keyHash, cs)[1..], 0);
  }

  lemma {:induction false} ThreeTexts(a: Item, b: Item, c: Item)
    ensures Texts([a, b, c]) == [ItemText(a), ItemText(b), ItemText(c)]
    ensures Texts([a, b]) == [ItemText(a), ItemText(b)]
  {
    assert [a, b, c][1..] == [b, c] && [b, c][1..] == [c] && [c][1..] == [];
    assert [a, b][1..] == [b] && [b][1..] == [];
    assert Texts([c]) == [ItemText(c)] && Texts([b]) == [ItemText(b)];
  }

  /** The part of the map that the keys in order select. */
  function Selected(order: seq<Hash>, css: map<Hash, Cosignature>): map<Hash, Cosignature>
    requires forall h :: h in order ==> h in css
  {
    map h | h in order :: css[h]
  }

  lemma {:induction false} ReadCosignatures(acc: map<Hash, Cosignature>, order: seq<Hash>, css: map<Hash,
                                            Cosignature>, tail: string)
    requires forall h :: h in order ==> h in css && h !in acc
    requires NoDuplicates(order)
    requires CosignatureLines(order, css).Some? && (tail != "" ==> tail[0] == '\n')
    ensures CosignaturesAt(acc, CosignatureLines(order, css).value + tail) ==
            Got((acc + Selected(order, css), tail != ""), if tail == "" then "" else tail[1..])
    decreases |order|, 1
  {
    if order == [] {
      assert acc + Selected(order, css) == acc;
      assert "" + tail == tail;
      ReadTail(tail);
    } else {
      CosignaturesStep(acc, order, css, tail);
    }
  }

  lemma {:induction false} CosignaturesUnfold(acc: map<Hash, Cosignature>, s: string, h: Hash, cs: Cosignature,
                                              rest: string)
    requires CosignatureAt(s) == Got((h, cs), rest) && h !in acc
    ensures CosignaturesAt(acc, s) == CosignaturesAt(acc[h := cs], rest)
  {
    hide CosignatureAt;
  }

  lemma {:induction false} CosignaturesStep(acc: map<Hash, Cosignature>, order: seq<Hash>, css: map<Hash,
                                            Cosignature>, tail: string)
    requires order != [] && forall h :: h in order ==> h in css && h !in acc
    requires NoDuplicates(order)
    requires CosignatureLines(order, css).Some? && (tail != "" ==> tail[0] == '\n')
    ensures CosignaturesAt(acc, CosignatureLines(order, css).value + tail) ==
            Got((acc + Selected(order, css), tail != ""), if tail == "" then "" else tail[1..])
    decreases |order|, 0
  {
    hide WriteLine, CosignatureAt, CosignaturesAt, CosignatureItems, Selected;
    var h, more := order[0], order[1..];
    RestOfOrder(acc, order, css);
    var line, lines := WriteLine("cosignature", CosignatureItems(h, css[h])).value, CosignatureLines(more, css).value;
    ReadCosignature(h, css[h], lines + tail);
    assert line + lines + tail == line + (lines + tail);
    CosignaturesUnfold(acc, line + (lines + tail), h, css[h], lines + tail);
    ReadCosignatures(acc[h := css[h]], more, css, tail);
  }

  lemma {:induction false} RestOfOrder(acc: map<Hash, Cosignature>, order: seq<Hash>, css: map<Hash, Cosignature>)
    requires order != [] && forall h :: h in order ==> h in css && h !in acc
    requires NoDuplicates(order)
    ensures var h, more := order[0], order[1..];
      && (forall x :: x in more ==> x in css && x !in acc[h := css[h]])
      && NoDuplicates(more)
      && acc[h := css[h]] + Selected(more, css) == acc + Selected(order, css)
  {
    var h, more := order[0], order[1..];
    assert order == [h] + more;
    var a, b := acc[h := css[h]] + Selected(more, css), acc + Selected(order, css);
    assert a.Keys == b.Keys;
  }

  lemma {:induction false} ReadTail(tail: string)
    requires tail != "" ==> tail[0] == '\n'
    ensures CosignatureAt(tail) == if tail == "" then EndOfFile else EmptyLine(tail[1..])
  {
  }

  lemma {:induction false} ReadLeaf(leaf: ShortLeaf, rest: string)
    ensures LeafText(leaf).Some?
    ensures LeafAt(VERSION, LeafText(leaf).value + rest) == Got(leaf, rest)
  {
    var items := [Bytes(leaf.keyHash.bytes), Bytes(leaf.signature.bytes)];
    TwoBytesWritten(items[0], items[1]);
    ReadValues("leaf", items, rest);
    ThreeTexts(items[0], items[1], items[1]);
    HexIsRead(leaf.keyHash, leaf.signature);
  }

  lemma {:induction false} TwoBytesWritten(a: Item, b: Item)
    requires a.Bytes? && b.Bytes?
    ensures WriteItems([a, b]).Some?
  {
    assert [a, b][1..] == [b] && [b][1..] == [];
    assert WriteRest([b]).Some?;
  }

  /** What the reader makes of the text of a proof from the tree head on. */
  lemma {:induction false} ReadTreePart(treeHead: CosignedTreeHead, order: seq<Hash>, tail: string)
    requires IsOrder(order, treeHead.cosignatures)
    requires SignedTreeHeadText(treeHead.signed).Some? && CosignatureLines(order, treeHead.cosignatures).Some?
    requires tail != "" ==> tail[0] == '\n'
    ensures var s := SignedTreeHeadText(treeHead.signed).value + (CosignatureLines(order,
        treeHead.cosignatures).value + tail);
      && SignedTreeHeadAt(s).Got? && SignedTreeHeadAt(s).value == treeHead.signed
      && CosignaturesAt(map[], SignedTreeHeadAt(s).rest) ==
         Got((treeHead.cosignatures, tail != ""), if tail == "" then "" else tail[1..])
  {
    hide SignedTreeHeadText, SignedTreeHeadAt, CosignatureLines, CosignaturesAt;
    var css := treeHead.cosignatures;
    ReadSignedTreeHead(treeHead.signed, CosignatureLines(order, css).value + tail);
    ReadCosignatures(map[], order, css, tail);
    assert map[] + Selected(order, css) == css;
  }

  /** The first lines of a proof. */
  lemma {:induction false} ReadHeadPart(sp: SigsumProof, rest: string)
    ensures WriteLine("version", [Int(VERSION)]).Some? && LeafText(sp.leaf).Some?
    ensures var s := WriteLine("version", [Int(VERSION)]).value
                   + (WriteLine("log", [Bytes(sp.logKeyHash.bytes)]).value + (LeafText(sp.leaf).value + ("\n" + rest)));
      && IntAt("version", s).Got? && IntAt("version", s).value == VERSION
      && var s1 := IntAt("version", s).rest;
      && HashAt("log", s1).Got? && HashAt("log", s1).value == sp.logKeyHash
      && var s2 := HashAt("log", s1).rest;
      && LeafAt(VERSION, s2).Got? && LeafAt(VERSION, s2).value == sp.leaf
      && EmptyLineAt(LeafAt(VERSION, s2).rest) == Got((), rest)
  {
    VersionWritten();
    BytesAreWritten("log", sp.logKeyHash.bytes);
    ReadLeaf(sp.leaf, "\n" + rest);
    ReadEmptyLine(rest);
    hide WriteLine, IntAt, HashAt, LeafAt, EmptyLineAt, LeafText;
    var leaf := LeafText(sp.leaf).value;
    var log := WriteLine("log", [Bytes(sp.logKeyHash.bytes)]).value;
    ReadInt("version", VERSION, log + (leaf + ("\n" + rest)));
    ReadHash("log", sp.logKeyHash, leaf + ("\n" + rest));
  }

  lemma {:induction false} VersionWritten()
    ensures WriteLine("version", [Int(VERSION)]).Some?
  {
    assert [Int(VERSION)][1..] == [];
    assert Pow2(2) == 4;
    PowersOrdered(2, 63);
  }

  lemma {:induction false} ReadEmptyLine(rest: string)
    ensures EmptyLineAt("\n" + rest) == Got((), rest)
  {
    assert ("\n" + rest)[0] == '\n';
  }

  /** The proofs that can be told from their text. */
  predicate Representable(sp: SigsumProof) {
    var size := sp.treeHead.signed.treeHead.size;
    && size > 0
    && (size == 1 ==> sp.inclusion == NO_INCLUSION)
    && (size > 1 ==> 0 < |sp.inclusion.path| <= PROOF_SIZE_LIMIT)
  }

  lemma {:induction false} ReadBody(sp: SigsumProof, order: seq<Hash>)
    requires IsOrder(order, sp.treeHead.cosignatures) && BodyText(sp, order).Some?
    ensures var p := BodyAt(sp.logKeyHash, sp.leaf, BodyText(sp, order).value);
      p.Got? && p.value == sp <==> Representable(sp)
  {
    hide SignedTreeHeadText, SignedTreeHeadAt, CosignatureLines, CosignaturesAt, InclusionText, InclusionAt;
    var tail := if sp.treeHead.signed.treeHead.size <= 1 then "" else "\n" + InclusionText(sp.inclusion).value;
    var d := SignedTreeHeadText(sp.treeHead.signed).value;
    var e := CosignatureLines(order, sp.treeHead.cosignatures).value;
    assert BodyText(sp, order).value == d + (e + tail) by { assert d + e + tail == d + (e + tail); }
    ReadTreePart(sp.treeHead, order, tail);
    if sp.treeHead.signed.treeHead.size > 1 {
      ReadInclusion(sp.inclusion);
      assert tail[1..] == InclusionText(sp.inclusion).value;
    }
  }

  /** Whatever the order of the cosignatures: the text of a proof is read back as that proof exactly if
      the tree is not empty, an inclusion proof that is left out is the trivial one, and one that is
      written has between one and 63 hashes. */
  lemma {:induction false} RoundTrip(sp: SigsumProof, order: seq<Hash>)
    requires IsOrder(order, sp.treeHead.cosignatures) && ProofAsText(sp, order).Some?
    ensures ParsedProof(ProofAsText(sp, order).value) == Some(sp) <==> Representable(sp)
  {
    hide WriteLine, IntAt, HashAt, LeafAt, EmptyLineAt, LeafText, SignedTreeHeadText, CosignatureLines, InclusionText,
         BodyAt, Representable;
    var a, b, c := WriteLine("version", [Int(VERSION)]).value, WriteLine("log", [Bytes(sp.logKeyHash.bytes)]).value,
                   LeafText(sp.leaf).value;
    var body := BodyText(sp, order).value;
    assert ProofAsText(sp, order).value == a + (b + (c + ("\n" + body))) by {
      assert a + (b + (c + "\n")) + body == a + (b + (c + ("\n" + body)));
    }
    ReadHeadPart(sp, body);
    ReadBody(sp, order);
  }

  // ---------- The file of a witness ----------

  /** `CosignedTreeHead.ToASCII` and `CosignedTreeHead.FromASCII`, which accepts no empty line at the end. */
  function TreeHeadText(cth: CosignedTreeHead, order: seq<Hash>): Option<string>
    requires IsOrder(order, cth.cosignatures)
  {
    Then(SignedTreeHeadText(cth.signed), CosignatureLines(order, cth.cosignatures))
  }

  function ParsedTreeHead(s: string): Option<CosignedTreeHead> {
    var signed := SignedTreeHeadAt(s);
    if !signed.Got? then None
    else
      var css := CosignaturesAt(map[], signed.rest);
      if !css.Got? || css.value.1 then None else Some(CosignedTreeHead(signed.value, css.value.0))
  }

  /** A stored cosigned tree head is read back as it was. */
  lemma {:induction false} TreeHeadRoundTrip(cth: CosignedTreeHead, order: seq<Hash>)
    requires IsOrder(order, cth.cosignatures) && TreeHeadText(cth, order).Some?
    ensures ParsedTreeHead(TreeHeadText(cth, order).value) == Some(cth)
  {
    hide SignedTreeHeadText, SignedTreeHeadAt, CosignatureLines, CosignaturesAt;
    ReadTreePart(cth, order, "");
    var lines := CosignatureLines(order, cth.cosignatures).value;
    assert lines + "" == lines;
  }
}
