/** Which texts are read as Sigsum proofs: for version 2 those that are written, up to the case of hex digits;
    and for version 1 those with the older first lines, which have a checksum of two bytes. */
module ProofExact {
  import opened Crypto
  import opened Bits
  import opened Types
  import opened Ascii
  import opened AsciiExact
  import opened ProofText
  import opened ProofIO

  // ---------- The layout ----------

  function HashesLayout(hashes: seq<Hash>): string {
    if hashes == [] then "" else "node_hash=" + EncodeHex(hashes[0].bytes) + "\n" + HashesLayout(hashes[1..])
  }

  function CosignaturesLayout(order: seq<Hash>, css: map<Hash, Cosignature>): string
    requires forall h :: h in order ==> h in css
  {
    if order == [] then ""
    else
      var cs := css[order[0]];
      "cosignature=" + EncodeHex(order[0].bytes) + " " + Decimal(cs.timestamp) + " " + EncodeHex(cs.signature.bytes)
      + "\n"
      + CosignaturesLayout(order[1..], css)
  }

  /** The text of a proof, letter by letter. */
  function Layout(sp: SigsumProof, order: seq<Hash>): string
    requires IsOrder(order, sp.treeHead.cosignatures)
  {
    var th := sp.treeHead.signed.treeHead;
    "version=2\n"
    + ("log=" + EncodeHex(sp.logKeyHash.bytes) + "\n")
    + ("leaf=" + EncodeHex(sp.leaf.keyHash.bytes) + " " + EncodeHex(sp.leaf.signature.bytes) + "\n")
    + "\n"
    + ("size=" + Decimal(th.size) + "\n")
    + ("root_hash=" + EncodeHex(th.rootHash.bytes) + "\n")
    + ("signature=" + EncodeHex(sp.treeHead.signed.signature.bytes) + "\n")
    + CosignaturesLayout(order, sp.treeHead.cosignatures)
    + (if th.size <= 1 then ""
       else "\n" + ("leaf_index=" + Decimal(sp.inclusion.leafIndex) + "\n") + HashesLayout(sp.inclusion.path))
  }

  lemma {:induction false} OneBytes(key: string, b: seq<byte>)
    ensures WriteLine(key, [Bytes(b)]) == Some(key + "=" + EncodeHex(b) + "\n")
  {
    assert [Bytes(b)][1..] == [];
    assert EncodeHex(b) + "" == EncodeHex(b);
  }

  lemma {:induction false} OneInt(key: string, n: nat)
    requires n < Pow2(63)
    ensures WriteLine(key, [Int(n)]) == Some(key + "=" + Decimal(n) + "\n")
  {
    hide Pow2, Decimal;
    assert [Int(n)][1..] == [];
    assert Decimal(n) + "" == Decimal(n);
  }

  lemma {:induction false} HashesAreLaidOut(hashes: seq<Hash>)
    ensures HashLines(hashes) == Some(HashesLayout(hashes))
  {
    hide WriteLine, EncodeHex;
    if hashes != [] {
      OneBytes("node_hash", hashes[0].bytes);
      HashesAreLaidOut(hashes[1..]);
      assert "node_hash" + "=" == "node_hash=";
    }
  }

  lemma {:induction false} CosignaturesAreLaidOut(order: seq<Hash>, css: map<Hash, Cosignature>)
    requires forall h :: h in order ==> h in css && css[h].timestamp < Pow2(63)
    ensures CosignatureLines(order, css) == Some(CosignaturesLayout(order, css))
    decreases |order|
  {
    hide WriteLine, EncodeHex, Decimal, Pow2;
    if order != [] {
      var h, cs := order[0], css[order[0]];
      CosignatureLine(h, cs);
      CosignaturesAreLaidOut(order[1..], css);
      var a, b, c := EncodeHex(h.bytes), Decimal(cs.timestamp), EncodeHex(cs.signature.bytes);
      assert "cosignature" + "=" + (a + " " + (b + " " + c)) + "\n" == "cosignature=" + a + " " + b + " " + c + "\n";
    }
  }

  /** What is written, when all numbers are below 2^63, is this layout. */
  lemma {:induction false} ProofIsLaidOut(sp: SigsumProof, order: seq<Hash>)
    requires IsOrder(order, sp.treeHead.cosignatures) && Writable(sp)
    ensures ProofAsText(sp, order) == Some(Layout(sp, order))
  {
    hide WriteLine, EncodeHex, Decimal, Pow2, HashLines, CosignatureLines, HashesLayout, CosignaturesLayout;
    var th := sp.treeHead.signed.treeHead;
    var css := sp.treeHead.cosignatures;
    VersionLine();
    OneBytes("log", sp.logKeyHash.bytes);
    LeafLine(sp.leaf);
    OneInt("size", th.size);
    OneBytes("root_hash", th.rootHash.bytes);
    OneBytes("signature", sp.treeHead.signed.signature.bytes);
    CosignaturesAreLaidOut(order, css);
    HashesAreLaidOut(sp.inclusion.path);
    if th.size > 1 { OneInt("leaf_index", sp.inclusion.leafIndex); }
    Keys();
    var tail := if th.size <= 1 then ""
                else "\n" + ("leaf_index=" + Decimal(sp.inclusion.leafIndex) + "\n") + HashesLayout(sp.inclusion.path);
    var a, d, e := "log=" + EncodeHex(sp.logKeyHash.bytes) + "\n", "size=" + Decimal(th.size) + "\n",
                   "root_hash=" + EncodeHex(th.rootHash.bytes) + "\n";
    var f := "signature=" + EncodeHex(sp.treeHead.signed.signature.bytes) + "\n";
    var k, v := EncodeHex(sp.leaf.keyHash.bytes), EncodeHex(sp.leaf.signature.bytes);
    var c := "leaf=" + k + " " + v + "\n";
    assert "leaf=" + (k + " " + v) + "\n" == c;
    assert HeadText(sp) == Some("version=2\n" + (a + (c + "\n")));
    assert SignedTreeHeadText(sp.treeHead.signed) == Some(d + (e + f));
    assert BodyText(sp, order) == Some((d + (e + f)) + CosignaturesLayout(order, css) + tail) by {
      if th.size > 1 {
        var x, y := "leaf_index=" + Decimal(sp.inclusion.leafIndex) + "\n", HashesLayout(sp.inclusion.path);
        assert "\n" + (x + y) == "\n" + x + y;
      }
    }
    Concatenated("version=2\n", a, c, d, e, f, CosignaturesLayout(order, css), tail);
  }

  /** The keys, with their equals signs. */
  lemma {:induction false} Keys()
    ensures "version" + "=" == "version=" && "log" + "=" == "log=" && "leaf" + "=" == "leaf="
    ensures "size" + "=" == "size=" && "root_hash" + "=" == "root_hash=" && "signature" + "=" == "signature="
    ensures "leaf_index" + "=" == "leaf_index="
  {
  }

  lemma {:induction false} Concatenated(a: string, b: string, c: string, d: string, e: string, f: string, g: string,
                                        h: string)
    ensures (a + (b + (c + "\n"))) + (((d + (e + f)) + g) + h) == a + b + c + "\n" + d + e + f + g + h
  {
  }

  lemma {:induction false} VersionLine()
    ensures WriteLine("version", [Int(VERSION)]) == Some("version=2\n")
  {
    PowersOrdered(1, 63);
    assert Pow2(1) == 2;
    OneInt("version", 2);
    assert Decimal(2) == "2";
    assert "version" + "=" + "2" + "\n" == "version=2\n";
  }

  // ---------- Version 1 ----------

  /** The first lines of version 1. */
  function OldHeadText(sp: SigsumProof, checksum: seq<byte>): Option<string> {
    Then(WriteLine("version", [Int(1)]),
    Then(WriteLine("log", [Bytes(sp.logKeyHash.bytes)]),
    Then(WriteLine("leaf", [Bytes(checksum), Bytes(sp.leaf.keyHash.bytes), Bytes(sp.leaf.signature.bytes)]),
         Some("\n"))))
  }

  function OldText(sp: SigsumProof, checksum: seq<byte>, order: seq<Hash>): Option<string>
    requires IsOrder(order, sp.treeHead.cosignatures)
  {
    Then(OldHeadText(sp, checksum), BodyText(sp, order))
  }

  /** A version 1 text is read as the same proof as the version 2 text, whatever its checksum of two bytes
      is, and with a checksum of any other length not at all. */
  lemma {:induction false} OldRoundTrip(sp: SigsumProof, checksum: seq<byte>, order: seq<Hash>)
    requires IsOrder(order, sp.treeHead.cosignatures) && BodyText(sp, order).Some?
    ensures OldText(sp, checksum, order).Some?
    ensures ParsedProof(OldText(sp, checksum, order).value) == Some(sp) <==> Representable(sp) && |checksum| == 2
    ensures |checksum| != 2 ==> ParsedProof(OldText(sp, checksum, order).value) == None
  {
    hide WriteLine, HeadAt, BodyAt, BodyText, Representable;
    var body := BodyText(sp, order).value;
    OldHeadIsRead(sp, checksum, body);
    ReadBody(sp, order);
  }

  lemma {:induction false} OldHeadIsRead(sp: SigsumProof, checksum: seq<byte>, rest: string)
    ensures OldHeadText(sp, checksum).Some?
    ensures HeadAt(OldHeadText(sp, checksum).value + rest) ==
            if |checksum| == 2 then Got((sp.logKeyHash, sp.leaf), rest) else Bad
  {
    OldVersionWritten();
    BytesAreWritten("log", sp.logKeyHash.bytes);
    OldLeafIsRead(sp.leaf, checksum, "\n" + rest);
    ReadEmptyLine(rest);
    hide WriteLine, IntAt, HashAt, LeafAt, EmptyLineAt;
    var a, b := WriteLine("version", [Int(1)]).value, WriteLine("log", [Bytes(sp.logKeyHash.bytes)]).value;
    var c := WriteLine("leaf", [Bytes(checksum), Bytes(sp.leaf.keyHash.bytes), Bytes(sp.leaf.signature.bytes)]).value;
    assert a + (b + (c + "\n")) + rest == a + (b + (c + ("\n" + rest)));
    ReadInt("version", 1, b + (c + ("\n" + rest)));
    ReadHash("log", sp.logKeyHash, c + ("\n" + rest));
  }

  lemma {:induction false} OldVersionWritten()
    ensures WriteLine("version", [Int(1)]).Some?
  {
    assert [Int(1)][1..] == [];
    assert Pow2(1) == 2;
    PowersOrdered(1, 63);
  }

  lemma {:induction false} OldLeafIsRead(leaf: ShortLeaf, checksum: seq<byte>, rest: string)
    ensures WriteLine("leaf", [Bytes(checksum), Bytes(leaf.keyHash.bytes), Bytes(leaf.signature.bytes)]).Some?
    ensures LeafAt(1, WriteLine("leaf", [Bytes(checksum), Bytes(leaf.keyHash.bytes),
                                         Bytes(leaf.signature.bytes)]).value + rest) ==
            if |checksum| == 2 then Got(leaf, rest) else Bad
  {
    hide EncodeHex, DecodeHex, ValuesAt, HashFromHex, SignatureFromHex;
    var items := [Bytes(checksum), Bytes(leaf.keyHash.bytes), Bytes(leaf.signature.bytes)];
    ThreeBytesWritten(items[0], items[1], items[2]);
    ReadValues("leaf", items, rest);
    ThreeTexts(items[0], items[1], items[2]);
    DecodeHexInverts(checksum);
    HexIsRead(leaf.keyHash, leaf.signature);
  }

  lemma {:induction false} ThreeBytesWritten(a: Item, b: Item, c: Item)
    requires a.Bytes? && b.Bytes? && c.Bytes?
    ensures WriteItems([a, b, c]).Some?
  {
    assert [a, b, c][1..] == [b, c] && [b, c][1..] == [c] && [c][1..] == [];
    assert WriteRest([c]).Some?;
    assert WriteRest([b, c]).Some?;
  }

  // ---------- Nothing else is read ----------

  predicate IsKey(name: string) {
    Plain(name) && IsLower(name)
  }

  lemma {:induction false} LineLower(name: string, v: string, rest: string)
    requires IsKey(name)
    ensures Lower(name + "=" + v + "\n" + rest) == name + "=" + Lower(v) + "\n" + Lower(rest)
  {
    hide Lower;
    LowerOfLower(name);
    LowerOfLower("=");
    LowerOfLower("\n");
    LowerAppend(name, "=");
    LowerAppend(name + "=", v);
    LowerAppend(name + "=" + v, "\n");
    LowerAppend(name + "=" + v + "\n", rest);
  }

  lemma {:induction false} IntLower(name: string, s: string)
    requires IsKey(name) && IntAt(name, s).Got?
    ensures WriteLine(name, [Int(IntAt(name, s).value)]).Some?
    ensures Lower(s) == WriteLine(name, [Int(IntAt(name, s).value)]).value + Lower(IntAt(name, s).rest)
  {
    hide Lower, Decimal, IntAt, Pow2;
    var n, rest := IntAt(name, s).value, IntAt(name, s).rest;
    IntExactly(name, s, n, rest);
    LineLower(name, Decimal(n), rest);
    DecimalIsLower(n);
    LowerOfLower(Decimal(n));
    assert [Int(n)][1..] == [];
    assert name + "=" + Decimal(n) + "\n" + Lower(rest) == (name + "=" + Decimal(n) + "\n") + Lower(rest);
  }

  lemma {:induction false} BytesLower(name: string, v: string, b: seq<byte>, rest: string)
    requires IsKey(name) && IsHexOf(v, b)
    ensures WriteLine(name, [Bytes(b)]).Some?
    ensures Lower(name + "=" + v + "\n" + rest) == WriteLine(name, [Bytes(b)]).value + Lower(rest)
  {
    hide Lower, EncodeHex;
    LineLower(name, v, rest);
    assert [Bytes(b)][1..] == [];
    assert name + "=" + EncodeHex(b) + "\n" + Lower(rest) == (name + "=" + EncodeHex(b) + "\n") + Lower(rest);
  }

  lemma {:induction false} HashLower(name: string, s: string)
    requires IsKey(name) && HashAt(name, s).Got?
    ensures WriteLine(name, [Bytes(HashAt(name, s).value.bytes)]).Some?
    ensures Lower(s) == WriteLine(name, [Bytes(HashAt(name, s).value.bytes)]).value + Lower(HashAt(name, s).rest)
  {
    hide Lower, HashAt, WriteLine;
    var h, rest := HashAt(name, s).value, HashAt(name, s).rest;
    HashExactly(name, s, h, rest);
    var v :| IsHexOf(v, h.bytes) && s == name + "=" + v + "\n" + rest;
    BytesLower(name, v, h.bytes, rest);
  }

  lemma {:induction false} SignatureLower(name: string, s: string)
    requires IsKey(name) && SignatureAt(name, s).Got?
    ensures WriteLine(name, [Bytes(SignatureAt(name, s).value.bytes)]).Some?
    ensures Lower(s) ==
            WriteLine(name, [Bytes(SignatureAt(name, s).value.bytes)]).value + Lower(SignatureAt(name, s).rest)
  {
    hide Lower, SignatureAt, WriteLine;
    var sig, rest := SignatureAt(name, s).value, SignatureAt(name, s).rest;
    SignatureExactly(name, s, sig, rest);
    var v :| IsHexOf(v, sig.bytes) && s == name + "=" + v + "\n" + rest;
    BytesLower(name, v, sig.bytes, rest);
  }

  lemma {:induction false} JoinThree(a: string, b: string, c: string)
    ensures Joined([a, b, c]) == a + " " + (b + " " + c)
    ensures Lower(Joined([a, b, c])) == Lower(a) + " " + (Lower(b) + " " + Lower(c))
    ensures Joined([a, b]) == a + " " + b && Lower(Joined([a, b])) == Lower(a) + " " + Lower(b)
  {
    assert [a, b, c][1..] == [b, c] && [b, c][1..] == [c] && [a, b][1..] == [b];
    assert Joined([b, c]) == b + " " + Joined([c]) && Joined([a, b, c]) == a + " " + Joined([b, c]);
    assert Joined([a, b]) == a + " " + Joined([b]);
    JoinedLower(a, b, c);
  }

  lemma {:induction false} JoinedLower(a: string, b: string, c: string)
    ensures Lower(a + " " + (b + " " + c)) == Lower(a) + " " + (Lower(b) + " " + Lower(c))
    ensures Lower(a + " " + b) == Lower(a) + " " + Lower(b)
  {
    hide Lower;
    LowerOfLower(" ");
    LowerAppend(b, " ");
    LowerAppend(b + " ", c);
    LowerAppend(a, " ");
    LowerAppend(a + " ", b + " " + c);
    LowerAppend(a + " ", b);
  }

  lemma {:induction false} CosignatureLower(s: string)
    requires CosignatureAt(s).Got?
    ensures var (h, cs) := CosignatureAt(s).value;
      && WriteLine("cosignature", CosignatureItems(h, cs)).Some?
      && Lower(s) == WriteLine("cosignature", CosignatureItems(h, cs)).value + Lower(CosignatureAt(s).rest)
  {
    hide Lower, ValuesAt, WriteLine, DecodeHex, EncodeHex, IntFromDecimal, Joined, Pow2, Decimal;
    var v, rest := ValuesAt("cosignature", 3, s).value, CosignatureAt(s).rest;
    var (h, cs) := CosignatureAt(s).value;
    ValuesExactly("cosignature", s, v, rest);
    assert v == [v[0], v[1], v[2]];
    HexExactly(v[0], h.bytes);
    IntFromDecimalInverts(cs.timestamp, v[1]);
    HexExactly(v[2], cs.signature.bytes);
    DecimalIsLower(cs.timestamp);
    LowerOfLower(Decimal(cs.timestamp));
    JoinThree(v[0], v[1], v[2]);
    LineLower("cosignature", Joined(v), rest);
    CosignatureLine(h, cs);
    var line := EncodeHex(h.bytes) + " " + (Decimal(cs.timestamp) + " " + EncodeHex(cs.signature.bytes));
    assert "cosignature" + "=" + line + "\n" + Lower(rest) == ("cosignature" + "=" + line + "\n") + Lower(rest);
  }

  lemma {:induction false} CosignatureLine(h: Hash, cs: Cosignature)
    requires cs.timestamp < Pow2(63)
    ensures WriteLine("cosignature", CosignatureItems(h, cs)) ==
            Some("cosignature" + "=" + (EncodeHex(h.bytes) + " " + (Decimal(cs.timestamp) + " " +
                                                                   EncodeHex(cs.signature.bytes))) + "\n")
  {
    hide Decimal, EncodeHex, Pow2;
    var items := CosignatureItems(h, cs);
    assert items[1..][1..] == [items[2]] && [items[2]][1..] == [];
    RestUnfold(items[1..]);
    RestUnfold([items[2]]);
    RestUnfold([]);
    var a, b, c := EncodeHex(h.bytes), Decimal(cs.timestamp), EncodeHex(cs.signature.bytes);
    assert a + (" " + (b + (" " + (c + "")))) == a + " " + (b + " " + c);
  }

  lemma {:induction false} LeafLower(s: string)
    requires LeafAt(VERSION, s).Got?
    ensures LeafText(LeafAt(VERSION, s).value).Some?
    ensures Lower(s) == LeafText(LeafAt(VERSION, s).value).value + Lower(LeafAt(VERSION, s).rest)
  {
    hide Lower, ValuesAt, DecodeHex, EncodeHex, Joined, WriteLine;
    var v, rest := ValuesAt("leaf", 2, s).value, LeafAt(VERSION, s).rest;
    var leaf := LeafAt(VERSION, s).value;
    ValuesExactly("leaf", s, v, rest);
    assert v == [v[0], v[1]];
    HexExactly(v[0], leaf.keyHash.bytes);
    HexExactly(v[1], leaf.signature.bytes);
    JoinThree(v[0], v[1], v[1]);
    LineLower("leaf", Joined(v), rest);
    LeafLine(leaf);
    var line := EncodeHex(leaf.keyHash.bytes) + " " + EncodeHex(leaf.signature.bytes);
    assert "leaf" + "=" + line + "\n" + Lower(rest) == ("leaf" + "=" + line + "\n") + Lower(rest);
  }

  lemma {:induction false} LeafLine(leaf: ShortLeaf)
    ensures LeafText(leaf) ==
            Some("leaf" + "=" + (EncodeHex(leaf.keyHash.bytes) + " " + EncodeHex(leaf.signature.bytes)) + "\n")
  {
    hide EncodeHex;
    var items := [Bytes(leaf.keyHash.bytes), Bytes(leaf.signature.bytes)];
    assert items[1..] == [items[1]] && [items[1]][1..] == [];
    RestUnfold([items[1]]);
    RestUnfold([]);
    var a, b := EncodeHex(leaf.keyHash.bytes), EncodeHex(leaf.signature.bytes);
    assert a + (" " + (b + "")) == a + " " + b;
  }

  lemma {:induction false} HashesLower(acc: seq<Hash>, s: string)
    requires |acc| <= PROOF_SIZE_LIMIT && HashesAt(acc, s).Got?
    ensures var hs := HashesAt(acc, s).value;
      && acc <= hs && 0 < |hs| <= PROOF_SIZE_LIMIT
      && HashLines(hs[|acc|..]).Some? && Lower(s) == HashLines(hs[|acc|..]).value
    decreases |s|
  {
    hide Lower, HashAt, WriteLine;
    match HashAt("node_hash", s)
    case EndOfFile =>
      assert s == "" by { TextEnds("node_hash", s); }
      EmptyIsLower();
      assert acc[|acc|..] == [];
    case Got(h, rest) =>
      HashesLower(acc + [h], rest);
      HashLower("node_hash", s);
      var hs := HashesAt(acc, s).value;
      assert hs[|acc|..] == [h] + hs[|acc| + 1..];
  }

  lemma {:induction false} EmptyIsLower()
    ensures Lower("") == ""
  {
  }

  lemma {:induction false} TextEnds(name: string, s: string)
    requires HashAt(name, s).EndOfFile?
    ensures s == ""
  {
    OtherLines(name, s, "");
  }

  /** The order in which cosignatures come in a text. */
  lemma {:induction false} CosignaturesLower(acc: map<Hash, Cosignature>, s: string) returns (order: seq<Hash>)
    requires CosignaturesAt(acc, s).Got?
    ensures var (css, emptyLine) := CosignaturesAt(acc, s).value;
      && LinesInOrder(acc, css, order) && (forall h :: h in order ==> h in css)
      && CosignatureLines(order, css).Some?
      && Lower(s) == CosignatureLines(order, css).value
                     + (if emptyLine then "\n" + Lower(CosignaturesAt(acc, s).rest) else "")
      && (!emptyLine ==> CosignaturesAt(acc, s).rest == "")
    decreases |s|
  {
    hide Lower, CosignatureAt, WriteLine, CosignatureItems, LinesInOrder;
    match CosignatureAt(s)
    case EndOfFile =>
      CosignatureEnds(s, "");
      EmptyIsLower();
      order := [];
      NoLines(acc);
    case EmptyLine(rest) =>
      CosignatureEnds(s, rest);
      EmptyLineLower(rest);
      order := [];
      NoLines(acc);
      assert "" + ("\n" + Lower(rest)) == "\n" + Lower(rest);
    case Got((h, cs), rest) =>
      var more := CosignaturesLower(acc[h := cs], rest);
      CosignatureLower(s);
      order := [h] + more;
      var (css, emptyLine) := CosignaturesAt(acc, s).value;
      OneMoreLine(acc, css, h, cs, more);
      var a, b := WriteLine("cosignature", CosignatureItems(h, cs)).value, CosignatureLines(more, css).value;
      var c := if emptyLine then "\n" + Lower(CosignaturesAt(acc, s).rest) else "";
      assert a + (b + c) == (a + b) + c;
  }

  /** The cosignatures in css, in this order after those in acc. */
  ghost predicate LinesInOrder(acc: map<Hash, Cosignature>, css: map<Hash, Cosignature>, order: seq<Hash>) {
    && (forall h :: h in css <==> h in acc || h in order)
    && (forall h :: h in order ==> h !in acc)
    && (forall h :: h in acc ==> css[h] == acc[h])
    && NoDuplicates(order)
  }

  lemma {:induction false} NoLines(acc: map<Hash, Cosignature>)
    ensures LinesInOrder(acc, acc, [])
    ensures CosignatureLines([], acc) == Some("")
  {
  }

  lemma {:induction false} OneMoreLine(acc: map<Hash, Cosignature>, css: map<Hash, Cosignature>, h: Hash,
                                       cs: Cosignature, more: seq<Hash>)
    requires h !in acc && LinesInOrder(acc[h := cs], css, more)
    requires forall x :: x in more ==> x in css
    ensures LinesInOrder(acc, css, [h] + more)
    ensures forall x :: x in [h] + more ==> x in css
    ensures h in css && css[h] == cs
    ensures CosignatureLines([h] + more, css) ==
            Then(WriteLine("cosignature", CosignatureItems(h, cs)), CosignatureLines(more, css))
  {
    hide WriteLine, CosignatureItems;
    assert ([h] + more)[1..] == more;
    assert css[h] == acc[h := cs][h];
  }

  lemma {:induction false} EmptyLineLower(rest: string)
    ensures Lower("\n" + rest) == "\n" + Lower(rest)
  {
  }

  lemma {:induction false} CosignatureEnds(s: string, rest: string)
    ensures CosignatureAt(s) == EndOfFile ==> s == ""
    ensures CosignatureAt(s) == EmptyLine(rest) ==> s == "\n" + rest
  {
    OtherLines("cosignature", s, rest);
  }

  lemma {:induction false} SignedLower(s: string)
    requires SignedTreeHeadAt(s).Got?
    ensures SignedTreeHeadText(SignedTreeHeadAt(s).value).Some?
    ensures Lower(s) == SignedTreeHeadText(SignedTreeHeadAt(s).value).value + Lower(SignedTreeHeadAt(s).rest)
  {
    hide Lower, IntAt, HashAt, SignatureAt, WriteLine;
    var s1 := IntAt("size", s).rest;
    var s2 := HashAt("root_hash", s1).rest;
    var s3 := SignatureAt("signature", s2).rest;
    IntLower("size", s);
    HashLower("root_hash", s1);
    SignatureLower("signature", s2);
    var sth := SignedTreeHeadAt(s).value;
    var a := WriteLine("size", [Int(sth.treeHead.size)]).value;
    var b := WriteLine("root_hash", [Bytes(sth.treeHead.rootHash.bytes)]).value;
    var c := WriteLine("signature", [Bytes(sth.signature.bytes)]).value;
    assert a + (b + (c + Lower(s3))) == (a + (b + c)) + Lower(s3);
  }

  lemma {:induction false} InclusionLower(s: string)
    requires InclusionAt(s).Got?
    ensures InclusionText(InclusionAt(s).value).Some? && 0 < |InclusionAt(s).value.path| <= PROOF_SIZE_LIMIT
    ensures Lower(s) == InclusionText(InclusionAt(s).value).value
  {
    hide Lower, IntAt, HashesAt, WriteLine, HashLines;
    IntLower("leaf_index", s);
    var rest := IntAt("leaf_index", s).rest;
    HashesLower([], rest);
    var hs := HashesAt([], rest).value;
    var none: seq<Hash> := [];
    assert hs[|none|..] == hs;
  }

  lemma {:induction false} HeadLower(s: string)
    requires HeadAt(s).Got? && IntAt("version", s).value == VERSION
    ensures var (logKeyHash, leaf) := HeadAt(s).value;
      forall sp: SigsumProof :: sp.logKeyHash == logKeyHash && sp.leaf == leaf ==>
        HeadText(sp).Some? && Lower(s) == HeadText(sp).value + Lower(HeadAt(s).rest)
  {
    hide Lower, IntAt, HashAt, LeafAt, WriteLine, LeafText, EmptyLineAt;
    IntLower("version", s);
    var s1 := IntAt("version", s).rest;
    HashLower("log", s1);
    var s2 := HashAt("log", s1).rest;
    LeafLower(s2);
    var s3 := LeafAt(VERSION, s2).rest;
    EmptyLineIs(s3);
    EmptyLineLower(EmptyLineAt(s3).rest);
  }

  lemma {:induction false} EmptyLineIs(s: string)
    requires EmptyLineAt(s).Got?
    ensures s == "\n" + EmptyLineAt(s).rest
  {
    assert s == "" + "\n" + LineAt(s).rest;
  }

  lemma {:induction false} BodyLower(logKeyHash: Hash, leaf: ShortLeaf, s: string) returns (order: seq<Hash>)
    requires BodyAt(logKeyHash, leaf, s).Got?
    ensures var sp := BodyAt(logKeyHash, leaf, s).value;
      && sp.logKeyHash == logKeyHash && sp.leaf == leaf && Representable(sp)
      && IsOrder(order, sp.treeHead.cosignatures)
      && BodyText(sp, order).Some? && Lower(s) == BodyText(sp, order).value
  {
    hide Lower, SignedTreeHeadAt, SignedTreeHeadText, CosignaturesAt, CosignatureLines, InclusionAt, InclusionText;
    SignedLower(s);
    var s1 := SignedTreeHeadAt(s).rest;
    order := CosignaturesLower(map[], s1);
    var sp := BodyAt(logKeyHash, leaf, s).value;
    assert forall h :: h in order <==> h in sp.treeHead.cosignatures;
    var a, b := SignedTreeHeadText(sp.treeHead.signed).value, CosignatureLines(order, sp.treeHead.cosignatures).value;
    if sp.treeHead.signed.treeHead.size == 1 {
      assert a + (b + "") == a + b + "";
    } else {
      InclusionLower(CosignaturesAt(map[], s1).rest);
      var c := InclusionText(sp.inclusion).value;
      assert a + (b + ("\n" + c)) == a + b + ("\n" + c);
    }
  }

  /** Whatever is read as a proof of version 2 is, up to the case of hex digits, the text that is written for
      that proof with its cosignatures in some order; and the proof is one that its text can hold. */
  lemma {:induction false} OnlyItsTexts(s: string) returns (order: seq<Hash>)
    requires ParsedProof(s).Some? && IntAt("version", s).value == VERSION
    ensures var sp := ParsedProof(s).value;
      && Representable(sp) && IsOrder(order, sp.treeHead.cosignatures)
      && ProofAsText(sp, order) == Some(Lower(s))
  {
    hide Lower, HeadAt, HeadText, BodyAt, BodyText, Representable;
    var sp := ParsedProof(s).value;
    HeadLower(s);
    order := BodyLower(HeadAt(s).value.0, HeadAt(s).value.1, HeadAt(s).rest);
  }
}
