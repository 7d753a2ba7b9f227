/** Exactly which texts the readers of `pkg/ascii` and `pkg/crypto` accept: those that are written, up to the
    case of hex digits. */
module AsciiExact {
  import opened Crypto
  import opened Bits
  import opened Ascii

  // ---------- Case ----------

  function LowerChar(c: char): char {
    if 'A' <= c <= 'Z' then (c as int + 32) as char else c
  }

  /** The text with its upper-case letters made lower-case. */
  function Lower(s: string): (l: string)
    ensures |l| == |s|
  {
    seq(|s|, i requires 0 <= i < |s| => LowerChar(s[i]))
  }

  predicate IsLower(s: string) {
    forall i :: 0 <= i < |s| ==> !('A' <= s[i] <= 'Z')
  }

  lemma {:induction false} LowerAppend(a: string, b: string)
    ensures Lower(a + b) == Lower(a) + Lower(b)
  {
  }

  lemma {:induction false} LowerOfLower(s: string)
    requires IsLower(s)
    ensures Lower(s) == s
  {
  }

  lemma {:induction false} DecimalIsLower(n: nat)
    ensures IsLower(Decimal(n))
  {
    DecimalDigits(n);
    assert forall i :: 0 <= i < |Decimal(n)| ==> IsDigit(Decimal(n)[i]);
  }

  // ---------- Hex ----------

  lemma {:induction false} HexDigitExactly(c: char, n: nat)
    requires n < 16
    ensures HexValue(c) == Some(n) <==> LowerChar(c) == HexChar(n)
  {
  }

  lemma {:induction false} HexValueBound(c: char)
    ensures HexValue(c).Some? ==> HexValue(c).value < 16
  {
  }

  /** A text is read as the bytes b if and only if it is the hex form of b in any mixture of cases. */
  lemma {:induction false} HexExactly(s: string, b: seq<byte>)
    ensures DecodeHex(s) == Some(b) <==> Lower(s) == EncodeHex(b)
    decreases |s|
  {
    hide HexValue, LowerChar, HexChar;
    if |s| >= 2 && b != [] {
      HexExactly(s[2..], b[1..]);
      HexPair(s[0], s[1], b[0]);
      assert Lower(s) == [LowerChar(s[0]), LowerChar(s[1])] + Lower(s[2..]);
      var h := [HexChar(b[0] as nat / 16), HexChar(b[0] as nat % 16)];
      assert EncodeHex(b) == h + EncodeHex(b[1..]);
      assert Lower(s)[0] == LowerChar(s[0]) && Lower(s)[1] == LowerChar(s[1]) && Lower(s)[2..] == Lower(s[2..]);
      assert EncodeHex(b)[0] == h[0] && EncodeHex(b)[1] == h[1] && EncodeHex(b)[2..] == EncodeHex(b[1..]);
      HexValueBound(s[0]);
      HexValueBound(s[1]);
      assert b == [b[0]] + b[1..];
    }
  }

  lemma {:induction false} HexPair(c: char, d: char, x: byte)
    ensures (HexValue(c).Some? && HexValue(d).Some? && 16 * HexValue(c).value + HexValue(d).value == x as nat) <==>
            LowerChar(c) == HexChar(x as nat / 16) && LowerChar(d) == HexChar(x as nat % 16)
  {
    hide LowerChar, HexValue, HexChar;
    HexDigitExactly(c, x as nat / 16);
    HexDigitExactly(d, x as nat % 16);
    HexValueBound(c);
    HexValueBound(d);
  }

  // ---------- Lines ----------

  /** Which lines have a value for a key. */
  lemma {:induction false} ValueExactly(name: string, s: string, v: string, rest: string)
    requires Plain(name)
    ensures ValueAt(name, s) == Got(v, rest) <==> '\n' !in v && s == name + "=" + v + "\n" + rest
  {
    if '\n' !in v && s == name + "=" + v + "\n" + rest { ReadLine(name, v, rest); }
    if ValueAt(name, s) == Got(v, rest) {
      var line := LineAt(s).value;
      var i := IndexOf(line, '=');
      assert line == line[..i] + [line[i]] + line[i + 1..];
      assert '\n' !in line[i + 1..];
    }
  }

  /** The end of the text, and an empty line. */
  lemma {:induction false} OtherLines(name: string, s: string, rest: string)
    ensures ValueAt(name, s) == EndOfFile <==> s == ""
    ensures ValueAt(name, s) == EmptyLine(rest) <==> s == "\n" + rest
  {
    if s == "\n" + rest {
      assert s[0] == '\n' && s[1..] == rest;
    }
    if ValueAt(name, s) == EmptyLine(rest) {
      assert s == "" + "\n" + rest;
    }
  }

  lemma {:induction false} IntExactly(name: string, s: string, n: nat, rest: string)
    requires Plain(name)
    ensures IntAt(name, s) == Got(n, rest) <==> n < Pow2(63) && s == name + "=" + Decimal(n) + "\n" + rest
  {
    hide Decimal, IntFromDecimal, ValueAt, Pow2;
    if IntAt(name, s) == Got(n, rest) {
      var v := ValueAt(name, s).value;
      ValueExactly(name, s, v, rest);
      IntFromDecimalInverts(n, v);
    }
    if n < Pow2(63) && s == name + "=" + Decimal(n) + "\n" + rest {
      ItemIsPlain(Int(n));
      ValueExactly(name, s, Decimal(n), rest);
      IntFromDecimalInverts(n, Decimal(n));
    }
  }

  /** The hex forms of some bytes. */
  predicate IsHexOf(v: string, b: seq<byte>) {
    Lower(v) == EncodeHex(b)
  }

  lemma {:induction false} HexHasNoNewline(v: string, b: seq<byte>)
    requires IsHexOf(v, b)
    ensures '\n' !in v && ' ' !in v
  {
    HexIsPlain(b);
    forall i | 0 <= i < |v| ensures v[i] != '\n' && v[i] != ' ' {
      assert Lower(v)[i] == LowerChar(v[i]);
      assert Lower(v)[i] in EncodeHex(b);
    }
  }

  lemma {:induction false} HashExactly(name: string, s: string, h: Hash, rest: string)
    requires Plain(name)
    ensures HashAt(name, s) == Got(h, rest) <==>
            exists v :: IsHexOf(v, h.bytes) && s == name + "=" + v + "\n" + rest
  {
    hide DecodeHex, EncodeHex, ValueAt, Lower;
    if HashAt(name, s) == Got(h, rest) {
      var v := ValueAt(name, s).value;
      ValueExactly(name, s, v, rest);
      HexExactly(v, h.bytes);
      assert IsHexOf(v, h.bytes);
    }
    if v :| IsHexOf(v, h.bytes) && s == name + "=" + v + "\n" + rest {
      HexHasNoNewline(v, h.bytes);
      ValueExactly(name, s, v, rest);
      HexExactly(v, h.bytes);
    }
  }

  lemma {:induction false} SignatureExactly(name: string, s: string, sig: Signature, rest: string)
    requires Plain(name)
    ensures SignatureAt(name, s) == Got(sig, rest) <==>
            exists v :: IsHexOf(v, sig.bytes) && s == name + "=" + v + "\n" + rest
  {
    hide DecodeHex, EncodeHex, ValueAt, Lower;
    if SignatureAt(name, s) == Got(sig, rest) {
      var v := ValueAt(name, s).value;
      ValueExactly(name, s, v, rest);
      HexExactly(v, sig.bytes);
      assert IsHexOf(v, sig.bytes);
    }
    if v :| IsHexOf(v, sig.bytes) && s == name + "=" + v + "\n" + rest {
      HexHasNoNewline(v, sig.bytes);
      ValueExactly(name, s, v, rest);
      HexExactly(v, sig.bytes);
    }
  }

  // ---------- Values separated by spaces ----------

  function Joined(vs: seq<string>): string
    requires |vs| > 0
  {
    if |vs| == 1 then vs[0] else vs[0] + " " + Joined(vs[1..])
  }

  predicate NoSpaces(vs: seq<string>) {
    forall i :: 0 <= i < |vs| ==> ' ' !in vs[i]
  }

  /** Splitting is the inverse of joining: no value is lost, merged or trimmed, empty ones included. */
  lemma {:induction false} SplitExactly(s: string, vs: seq<string>)
    requires |vs| > 0
    ensures SplitSpaces(s) == vs <==> NoSpaces(vs) && s == Joined(vs)
  {
    hide SplitSpaces, Joined, NoSpaces;
    if SplitSpaces(s) == vs { SplitJoins(s); }
    if NoSpaces(vs) && s == Joined(vs) { JoinSplits(vs); }
  }

  lemma {:induction false} SplitJoins(s: string)
    ensures NoSpaces(SplitSpaces(s)) && Joined(SplitSpaces(s)) == s
    decreases |s|
  {
    hide SplitSpaces, Joined, NoSpaces;
    var i := IndexOf(s, ' ');
    SplitUnfold(s);
    if i == |s| {
      JoinOne(s);
      assert s[..i] == s;
    } else {
      var first, rest := s[..i], s[i + 1..];
      SplitJoins(rest);
      JoinMore(first, SplitSpaces(rest));
      assert s == first + [s[i]] + rest;
      assert first + " " + rest == first + [' '] + rest;
    }
  }

  lemma {:induction false} JoinSplits(vs: seq<string>)
    requires |vs| > 0 && NoSpaces(vs)
    ensures SplitSpaces(Joined(vs)) == vs
    decreases |vs|
  {
    hide SplitSpaces, Joined, NoSpaces;
    var s := Joined(vs);
    SplitUnfold(s);
    if |vs| == 1 {
      assert vs == [vs[0]];
      JoinOne(vs[0]);
      NoIndex(s, ' ');
    } else {
      var first, more := vs[0], vs[1..];
      assert vs == [first] + more;
      JoinMore(first, more);
      JoinSplits(more);
      var rest := Joined(more);
      assert s == first + [' '] + rest;
      IndexOfFirst(first, ' ', rest);
      assert s[..|first|] == first && s[|first| + 1..] == rest;
    }
  }

  lemma {:induction false} SplitUnfold(s: string)
    ensures SplitSpaces(s) ==
            var i := IndexOf(s, ' ');
            if i == |s| then [s] else [s[..i]] + SplitSpaces(s[i + 1..])
  {
  }

  lemma {:induction false} JoinOne(v: string)
    ensures Joined([v]) == v && (NoSpaces([v]) <==> ' ' !in v)
  {
  }

  lemma {:induction false} JoinMore(v: string, vs: seq<string>)
    requires |vs| > 0
    ensures Joined([v] + vs) == v + " " + Joined(vs)
    ensures NoSpaces([v] + vs) <==> ' ' !in v && NoSpaces(vs)
  {
    var all := [v] + vs;
    assert all[0] == v && all[1..] == vs;
    if NoSpaces(all) {
      forall i | 0 <= i < |vs| ensures ' ' !in vs[i] { assert vs[i] == all[i + 1]; }
    }
  }

  lemma {:induction false} ValuesExactly(name: string, s: string, vs: seq<string>, rest: string)
    requires Plain(name) && |vs| > 0
    ensures ValuesAt(name, |vs|, s) == Got(vs, rest) <==>
            NoSpaces(vs) && '\n' !in Joined(vs) && s == name + "=" + Joined(vs) + "\n" + rest
  {
    hide ValueAt, SplitSpaces, Joined, NoSpaces;
    if ValuesAt(name, |vs|, s) == Got(vs, rest) {
      var v := ValueAt(name, s).value;
      ValueExactly(name, s, v, rest);
      SplitExactly(v, vs);
    }
    if NoSpaces(vs) && '\n' !in Joined(vs) && s == name + "=" + Joined(vs) + "\n" + rest {
      ValueExactly(name, s, Joined(vs), rest);
      SplitExactly(Joined(vs), vs);
    }
  }
}
