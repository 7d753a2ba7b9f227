/** What the lines of a policy file mean, in terms of the words in them: which files are valid, and when the
    quorum that a name stands for holds. */
module PolicyMeaning {
  import opened Crypto
  import opened Bits
  import opened Ascii
  import opened Policies
  import opened PolicyConfig

  // ---------- Numbers ----------

  /** A threshold may be written with a sign and with leading zeros. */
  function Zeros(n: nat): string {
    seq(n, _ => '0')
  }

  lemma {:induction false} DigitsAfterZeros(z: nat, n: nat)
    ensures forall i :: 0 <= i < |Zeros(z) + Decimal(n)| ==> IsDigit((Zeros(z) + Decimal(n))[i])
    ensures DigitsValue(Zeros(z) + Decimal(n)) == n
    decreases n
  {
    DecimalDigits(n);
    var s := Zeros(z) + Decimal(n);
    if n >= 10 {
      DigitsAfterZeros(z, n / 10);
      assert s[..|s| - 1] == Zeros(z) + Decimal(n / 10);
    } else {
      ValueOfZeros(z);
      assert s[..|s| - 1] == Zeros(z);
    }
  }

  lemma {:induction false} ValueOfZeros(z: nat)
    ensures DigitsValue(Zeros(z)) == 0
    decreases z
  {
    if z > 0 {
      ValueOfZeros(z - 1);
      assert Zeros(z)[..z - 1] == Zeros(z - 1);
    }
  }

  /** Every spelling of a number below 2^63 is read as that number, and as its negation after a minus sign. */
  lemma {:induction false} AtoiReads(z: nat, n: nat)
    requires n < Pow2(63)
    ensures Atoi(Zeros(z) + Decimal(n)) == Some(n)
    ensures Atoi("+" + Zeros(z) + Decimal(n)) == Some(n)
    ensures var m: int := n; Atoi("-" + Zeros(z) + Decimal(n)) == Some(-m)
  {
    hide Pow2, Decimal, DigitsValue;
    DigitsAfterZeros(z, n);
    var s := Zeros(z) + Decimal(n);
    assert IsDigit(s[0]);
    assert ("+" + Zeros(z) + Decimal(n))[1..] == s;
    assert ("-" + Zeros(z) + Decimal(n))[1..] == s;
  }

  // ---------- Valid lines ----------

  /** The threshold k that is written for a group of n members. */
  ghost predicate IsThreshold(word: string, n: nat, k: int) {
    || (word == "any" && k == 1)
    || (word == "all" && k == n)
    || (word != "any" && word != "all" && Atoi(word) == Some(k))
  }

  lemma {:induction false} ThresholdMeans(word: string, n: nat, k: int)
    ensures Threshold(word, n) == Some(k) <==> IsThreshold(word, n, k)
  {
  }

  ghost predicate HasThreshold(word: string, n: nat) {
    exists k :: IsThreshold(word, n, k) && 1 <= k <= n
  }

  /** The lines that are valid after those that gave c. */
  ghost predicate IsValidLine(c: Parsed, fields: seq<string>) {
    || fields == []
    || (2 <= |fields| <= 3 && fields[0] == "log" && IsNewKey(fields[1], c.logs))
    || (3 <= |fields| <= 4 && fields[0] == "witness" && fields[1] !in c.names && IsNewKey(fields[2], c.witnesses))
    || (|fields| >= 4 && fields[0] == "group" && fields[1] !in c.names
        && HasThreshold(fields[2], |fields| - 3)
        && forall i :: 3 <= i < |fields| ==> fields[i] in c.names)
    || (|fields| == 2 && fields[0] == "quorum" && c.quorum == None && fields[1] in c.names)
  }

  /** Hex for a key that is not declared yet. */
  predicate IsNewKey(s: string, entities: map<Hash, Entity>) {
    PublicKeyFromHex(s).Some? && HashBytes(PublicKeyFromHex(s).value.bytes) !in entities
  }

  lemma {:induction false} LookUpMeans(names: map<string, Quorum>, members: seq<string>)
    ensures LookUp(names, members).Some? <==> forall i :: 0 <= i < |members| ==> members[i] in names
    ensures LookUp(names, members).Some? ==>
      var qs := LookUp(names, members).value;
      |qs| == |members| && forall i :: 0 <= i < |members| ==> members[i] in names && qs[i] == names[members[i]]
    decreases |members|
  {
    if members != [] { LookUpMeans(names, members[..|members| - 1]); }
  }

  /** A line is accepted exactly if it is one of these. */
  lemma {:induction false} LineIsAccepted(c: Parsed, fields: seq<string>)
    ensures Line(c, fields).Some? <==> IsValidLine(c, fields)
  {
    hide LookUp, Threshold, PublicKeyFromHex, IsThreshold;
    if |fields| >= 4 && fields[0] == "group" {
      var args, n := fields[1..], |fields| - 3;
      assert args[2..] == fields[3..] && |args| - 2 == n;
      LookUpMeans(c.names, args[2..]);
      assert (forall i :: 0 <= i < |args[2..]| ==> args[2..][i] in c.names)
        <==> (forall i :: 3 <= i < |fields| ==> fields[i] in c.names) by { Members(fields, c.names); }
      if k :| IsThreshold(fields[2], n, k) && 1 <= k <= n { ThresholdMeans(fields[2], n, k); }
      if Threshold(fields[2], n).Some? { ThresholdMeans(fields[2], n, Threshold(fields[2], n).value); }
    }
  }

  lemma {:induction false} Members(fields: seq<string>, names: map<string, Quorum>)
    requires |fields| >= 4
    ensures (forall i :: 0 <= i < |fields[3..]| ==> fields[3..][i] in names)
      <==> (forall i :: 3 <= i < |fields| ==> fields[i] in names)
  {
    if forall i :: 0 <= i < |fields[3..]| ==> fields[3..][i] in names {
      forall i | 3 <= i < |fields| ensures fields[i] in names { assert fields[i] == fields[3..][i - 3]; }
    }
  }

  // ---------- What names stand for ----------

  /** The members of a group line that hold. */
  function HoldingNames(names: map<string, Quorum>, fields: seq<string>, v: set<Hash>): set<nat> {
    set i: nat | 3 <= i < |fields| && fields[i] in names && IsQuorum(names[fields[i]], v)
  }

  /** What a line says about the names, the logs, the witnesses and the quorum, for the witnesses in v. */
  ghost predicate Says(fields: seq<string>, c: Parsed, v: set<Hash>) {
    && (fields != [] && fields[0] == "log" ==>
          && 2 <= |fields| <= 3 && PublicKeyFromHex(fields[1]).Some?
          && var key := PublicKeyFromHex(fields[1]).value;
          && HashBytes(key.bytes) in c.logs
          && c.logs[HashBytes(key.bytes)] == Entity(key, if |fields| == 3 then fields[2] else ""))
    && (fields != [] && fields[0] == "witness" ==>
          && 3 <= |fields| <= 4 && PublicKeyFromHex(fields[2]).Some? && fields[1] in c.names
          && var key := PublicKeyFromHex(fields[2]).value;
          && HashBytes(key.bytes) in c.witnesses
          && c.witnesses[HashBytes(key.bytes)] == Entity(key, if |fields| == 4 then fields[3] else "")
          && (IsQuorum(c.names[fields[1]], v) <==> HashBytes(key.bytes) in v))
    && (fields != [] && fields[0] == "group" ==>
          && |fields| >= 4 && fields[1] in c.names && (forall i :: 3 <= i < |fields| ==> fields[i] in c.names)
          && (fields[2] == "any" ==>
                (IsQuorum(c.names[fields[1]], v) <==>
                   exists i :: 3 <= i < |fields| && IsQuorum(c.names[fields[i]], v)))
          && (fields[2] == "all" ==>
                (IsQuorum(c.names[fields[1]], v) <==>
                   forall i :: 3 <= i < |fields| ==> IsQuorum(c.names[fields[i]], v)))
          && (fields[2] != "any" && fields[2] != "all" ==>
                && Atoi(fields[2]).Some? && 1 <= Atoi(fields[2]).value <= |fields| - 3
                && (IsQuorum(c.names[fields[1]], v) <==> |HoldingNames(c.names, fields, v)| >= Atoi(fields[2]).value)))
    && (fields != [] && fields[0] == "quorum" ==>
          && |fields| == 2 && fields[1] in c.names && c.quorum.Some?
          && (IsQuorum(c.quorum.value, v) <==> IsQuorum(c.names[fields[1]], v)))
  }

  /** Later lines take nothing away. */
  predicate Extends(c: Parsed, c': Parsed) {
    && (forall name :: name in c.names ==> name in c'.names && c'.names[name] == c.names[name])
    && (forall h :: h in c.logs ==> h in c'.logs && c'.logs[h] == c.logs[h])
    && (forall h :: h in c.witnesses ==> h in c'.witnesses && c'.witnesses[h] == c.witnesses[h])
    && (c.quorum.Some? ==> c'.quorum == c.quorum)
  }

  lemma {:induction false} LineExtends(c: Parsed, fields: seq<string>)
    requires Line(c, fields).Some?
    ensures Extends(c, Line(c, fields).value)
  {
    hide LookUp, Threshold, PublicKeyFromHex, KeyHash;
  }

  lemma {:induction false} LinesExtend(c: Parsed, lines: seq<seq<string>>)
    requires Lines(c, lines).Some?
    ensures Extends(c, Lines(c, lines).value)
    decreases |lines|
  {
    hide Line, Extends;
    if lines == [] {
      ExtendsItself(c);
    } else {
      var c' := Line(c, lines[0]).value;
      LineExtends(c, lines[0]);
      LinesExtend(c', lines[1..]);
      ExtendsIsTransitive(c, c', Lines(c', lines[1..]).value);
    }
  }

  lemma {:induction false} ExtendsItself(c: Parsed)
    ensures Extends(c, c)
  {
  }

  lemma {:induction false} ExtendsIsTransitive(a: Parsed, b: Parsed, c: Parsed)
    requires Extends(a, b) && Extends(b, c)
    ensures Extends(a, c)
  {
  }

  lemma {:induction false} LineSays(c: Parsed, fields: seq<string>, v: set<Hash>)
    requires Line(c, fields).Some?
    ensures Says(fields, Line(c, fields).value, v)
  {
    hide LookUp, Threshold, PublicKeyFromHex, Atoi, HoldingNames;
    if fields != [] && fields[0] == "group" { GroupSays(c, fields, v); }
  }

  lemma {:induction false} GroupSays(c: Parsed, fields: seq<string>, v: set<Hash>)
    requires fields != [] && fields[0] == "group" && Line(c, fields).Some?
    ensures Says(fields, Line(c, fields).value, v)
  {
    hide LookUp, Threshold, Atoi, IsQuorum;
    var args, n := fields[1..], |fields| - 3;
    assert args[2..] == fields[3..] && args[0] == fields[1] && args[1] == fields[2] && |args| - 2 == n;
    var qs, k := LookUp(c.names, fields[3..]).value, Threshold(fields[2], n).value;
    var c' := Line(c, fields).value;
    assert c'.names == c.names[fields[1] := KofN(qs, k)];
    ThresholdMeans(fields[2], n, k);
    LookUpMeans(c.names, fields[3..]);
    forall i | 3 <= i < |fields|
      ensures fields[i] in c.names && fields[i] in c'.names && c'.names[fields[i]] == qs[i - 3]
    {
      assert fields[i] == fields[3..][i - 3];
    }
    AnyAndAll(qs, v);
    GroupHolds(qs, k, v);
    SameMembers(c'.names, fields, qs, v);
    assert (exists i :: 0 <= i < |qs| && IsQuorum(qs[i], v))
      <==> (exists i :: 3 <= i < |fields| && IsQuorum(c'.names[fields[i]], v)) by {
      if i :| 0 <= i < |qs| && IsQuorum(qs[i], v) { assert IsQuorum(c'.names[fields[i + 3]], v); }
      if i :| 3 <= i < |fields| && IsQuorum(c'.names[fields[i]], v) { assert IsQuorum(qs[i - 3], v); }
    }
    assert (forall i :: 0 <= i < |qs| ==> IsQuorum(qs[i], v))
      <==> (forall i :: 3 <= i < |fields| ==> IsQuorum(c'.names[fields[i]], v)) by {
      if forall i :: 3 <= i < |fields| ==> IsQuorum(c'.names[fields[i]], v) {
        forall i | 0 <= i < |qs| ensures IsQuorum(qs[i], v) { assert IsQuorum(c'.names[fields[i + 3]], v); }
      }
    }
  }

  lemma {:induction false} SameMembers(names: map<string, Quorum>, fields: seq<string>, qs: seq<Quorum>, v: set<Hash>)
    requires |fields| == |qs| + 3
    requires forall i :: 3 <= i < |fields| ==> fields[i] in names && names[fields[i]] == qs[i - 3]
    ensures |HoldingNames(names, fields, v)| == |Holding(qs, v)|
  {
    Shifted(Holding(qs, v), HoldingNames(names, fields, v));
  }

  /** Sets of numbers that differ by three everywhere have the same size. */
  lemma {:induction false} Shifted(a: set<nat>, b: set<nat>)
    requires forall i: nat :: i in a ==> i + 3 in b
    requires forall i: nat :: i in b ==> i >= 3 && i - 3 in a
    ensures |a| == |b|
    decreases |a|
  {
    if a == {} {
      assert b == {};
    } else {
      var x :| x in a;
      Shifted(a - {x}, b - {x + 3});
    }
  }

  lemma {:induction false} SaysLater(fields: seq<string>, c: Parsed, c': Parsed, v: set<Hash>)
    requires Says(fields, c, v) && Extends(c, c')
    ensures Says(fields, c', v)
  {
    hide IsQuorum, PublicKeyFromHex, Atoi;
    if fields != [] && fields[0] == "group" {
      assert HoldingNames(c.names, fields, v) == HoldingNames(c'.names, fields, v);
    }
  }

  /** Every line of a valid file means what it says, whatever the other lines are. */
  lemma {:induction false} LinesSay(c: Parsed, lines: seq<seq<string>>, i: nat, v: set<Hash>)
    requires i < |lines| && Lines(c, lines).Some?
    ensures Says(lines[i], Lines(c, lines).value, v)
    decreases i
  {
    hide Line, Says, Extends;
    var c' := Line(c, lines[0]).value;
    if i == 0 {
      LineSays(c, lines[0], v);
      LinesExtend(c', lines[1..]);
      SaysLater(lines[0], c', Lines(c', lines[1..]).value, v);
    } else {
      LinesSay(c', lines[1..], i - 1, v);
    }
  }

  /** Each line of an accepted file means what it says of the policy, and the name "none" always holds. */
  lemma {:induction false} PolicySays(lines: seq<seq<string>>, i: nat, v: set<Hash>)
    requires i < |lines| && ParsedPolicy(lines).Some?
    ensures var p, c := ParsedPolicy(lines).value, Lines(NOTHING_PARSED, lines).value;
      && Says(lines[i], c, v)
      && p.logs == c.logs && p.witnesses == c.witnesses && c.quorum == Some(p.quorum)
      && "none" in c.names && IsQuorum(c.names["none"], v)
  {
    hide Line, Says, IsQuorum;
    LinesSay(NOTHING_PARSED, lines, i, v);
    LinesExtend(NOTHING_PARSED, lines);
    NoneHolds(v);
  }

  lemma {:induction false} NoneHolds(v: set<Hash>)
    ensures IsQuorum(KofN([], 0), v)
  {
  }

  // ---------- Nothing else ----------

  /** A line of the file declares the key. */
  ghost predicate Declares(keyword: string, at: nat, lines: seq<seq<string>>, h: Hash) {
    exists i :: 0 <= i < |lines| && IsDeclaration(keyword, at, lines[i], h)
  }

  predicate IsDeclaration(keyword: string, at: nat, fields: seq<string>, h: Hash) {
    && |fields| > at && fields[0] == keyword && PublicKeyFromHex(fields[at]).Some?
    && HashBytes(PublicKeyFromHex(fields[at]).value.bytes) == h
  }

  lemma {:induction false} LineDeclares(c: Parsed, fields: seq<string>, h: Hash)
    requires Line(c, fields).Some?
    ensures h in Line(c, fields).value.logs <==> h in c.logs || IsDeclaration("log", 1, fields, h)
    ensures h in Line(c, fields).value.witnesses <==> h in c.witnesses || IsDeclaration("witness", 2, fields, h)
  {
    hide LookUp, Threshold, PublicKeyFromHex;
  }

  lemma {:induction false} LinesDeclare(c: Parsed, lines: seq<seq<string>>, h: Hash)
    requires Lines(c, lines).Some?
    ensures h in Lines(c, lines).value.logs <==> h in c.logs || Declares("log", 1, lines, h)
    ensures h in Lines(c, lines).value.witnesses <==> h in c.witnesses || Declares("witness", 2, lines, h)
    decreases |lines|
  {
    hide Line, IsDeclaration;
    if lines != [] {
      var c' := Line(c, lines[0]).value;
      LineDeclares(c, lines[0], h);
      LinesDeclare(c', lines[1..], h);
      DeclaresFirst("log", 1, lines, h);
      DeclaresFirst("witness", 2, lines, h);
    }
  }

  lemma {:induction false} DeclaresFirst(keyword: string, at: nat, lines: seq<seq<string>>, h: Hash)
    requires lines != []
    ensures Declares(keyword, at, lines, h) <==>
            IsDeclaration(keyword, at, lines[0], h) || Declares(keyword, at, lines[1..], h)
  {
    hide IsDeclaration;
    if i :| 0 <= i < |lines| && IsDeclaration(keyword, at, lines[i], h) {
      if i > 0 { assert lines[i] == lines[1..][i - 1]; }
    }
    if i :| 0 <= i < |lines[1..]| && IsDeclaration(keyword, at, lines[1..][i], h) {
      assert lines[i + 1] == lines[1..][i];
    }
  }

  /** The logs and witnesses of a policy are those that its file declares. */
  lemma {:induction false} PolicyHasWhatIsDeclared(lines: seq<seq<string>>, h: Hash)
    requires ParsedPolicy(lines).Some?
    ensures h in ParsedPolicy(lines).value.logs <==> Declares("log", 1, lines, h)
    ensures h in ParsedPolicy(lines).value.witnesses <==> Declares("witness", 2, lines, h)
  {
    LinesDeclare(NOTHING_PARSED, lines, h);
  }
}
