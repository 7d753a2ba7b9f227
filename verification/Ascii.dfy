/** The line-based text format of `pkg/ascii`: line.go, parser.go and writer.go.  A text is a sequence
    of lines "key=value", each ended by a newline character. */
module Ascii {
  import opened Crypto
  import opened Bits

  // ---------- Numbers and byte strings ----------

  predicate IsDigit(c: char) {
    '0' <= c <= '9'
  }

  /** fmt's %d, for a number below ten */
  function DigitChar(n: nat): char
    requires n < 10
  {
    (n + 48) as char
  }

  /** fmt's %d */
  function Decimal(n: nat): (s: string)
    ensures |s| > 0
  {
    if n < 10 then [DigitChar(n)] else Decimal(n / 10) + [DigitChar(n % 10)]
  }

  /** The value of a string of digits. */
  function DigitsValue(s: string): nat
    requires forall i :: 0 <= i < |s| ==> IsDigit(s[i])
  {
    if s == "" then 0
    else
      assert IsDigit(s[|s| - 1]);
      10 * DigitsValue(s[..|s| - 1]) + (s[|s| - 1] as int - 48)
  }

  /** `IntFromDecimal`: decimal digits without leading zeros, for a number below 2^63. */
  function IntFromDecimal(s: string): Option<nat> {
    if |s| > 1 && s[0] == '0' then None
    else if s == "" || exists i :: 0 <= i < |s| && !IsDigit(s[i]) then None
    else if DigitsValue(s) >= Pow2(63) then None
    else Some(DigitsValue(s))
  }

  lemma {:induction false} DecimalDigits(n: nat)
    ensures forall i :: 0 <= i < |Decimal(n)| ==> IsDigit(Decimal(n)[i])
    ensures DigitsValue(Decimal(n)) == n
    ensures Decimal(n)[0] == '0' <==> n == 0
    ensures n == 0 ==> |Decimal(n)| == 1
  {
    if n >= 10 { DecimalDigits(n / 10); }
  }

  lemma {:induction false} DigitsDecimal(s: string)
    requires s != "" && (|s| > 1 ==> s[0] != '0')
    requires forall i :: 0 <= i < |s| ==> IsDigit(s[i])
    ensures Decimal(DigitsValue(s)) == s
    ensures s[0] != '0' ==> DigitsValue(s) > 0
  {
    var init := s[..|s| - 1];
    if |s| == 1 {
      assert DigitsValue(init) == 0;
      assert s == [s[0]];
    } else {
      DigitsDecimal(init);
      assert s == init + [s[|s| - 1]];
    }
  }

  /** The decimal format is canonical: a text is accepted for a number exactly if it is the one that
      is written for it. */
  lemma {:induction false} IntFromDecimalInverts(n: nat, s: string)
    ensures IntFromDecimal(s) == Some(n) <==> n < Pow2(63) && s == Decimal(n)
  {
    hide Pow2;
    DecimalDigits(n);
    if IntFromDecimal(s) == Some(n) { DigitsDecimal(s); }
  }

  function HexChar(n: nat): char
    requires n < 16
  {
    if n < 10 then (n + 48) as char else (n + 87) as char
  }

  /** Both cases are accepted. */
  function HexValue(c: char): Option<nat> {
    var x := c as int;
    if 48 <= x <= 57 then Some(x - 48)
    else if 97 <= x <= 102 then Some(x - 87)
    else if 65 <= x <= 70 then Some(x - 55)
    else None
  }

  /** fmt's %x */
  function EncodeHex(b: seq<byte>): (s: string)
    ensures |s| == 2 * |b|
  {
    if b == [] then "" else [HexChar(b[0] as nat / 16), HexChar(b[0] as nat % 16)] + EncodeHex(b[1..])
  }

  /** `hex.DecodeString` */
  function DecodeHex(s: string): (b: Option<seq<byte>>)
    ensures b.Some? ==> 2 * |b.value| == |s|
  {
    if s == "" then Some([])
    else if |s| == 1 || HexValue(s[0]).None? || HexValue(s[1]).None? then None
    else
      var rest := DecodeHex(s[2..]);
      if rest.None? then None
      else Some([(16 * HexValue(s[0]).value + HexValue(s[1]).value) as byte] + rest.value)
  }

  lemma {:induction false} HexDigitInverts(n: nat)
    requires n < 16
    ensures HexValue(HexChar(n)) == Some(n)
  {
  }

  lemma {:induction false} DecodeHexInverts(b: seq<byte>)
    ensures DecodeHex(EncodeHex(b)) == Some(b)
  {
    if b != [] {
      DecodeHexInverts(b[1..]);
      assert EncodeHex(b)[2..] == EncodeHex(b[1..]);
      assert b == [b[0]] + b[1..];
      HexDigitInverts(b[0] as nat / 16);
      HexDigitInverts(b[0] as nat % 16);
    }
  }

  function HashFromHex(s: string): Option<Hash> {
    var b := DecodeHex(s);
    if b.None? || |b.value| != 32 then None else Some(Hash(b.value))
  }

  function PublicKeyFromHex(s: string): Option<PublicKey> {
    var b := DecodeHex(s);
    if b.None? || |b.value| != 32 then None else Some(PublicKey(b.value))
  }

  function SignatureFromHex(s: string): Option<Signature> {
    var b := DecodeHex(s);
    if b.None? || |b.value| != 64 then None else Some(Signature(b.value))
  }

  // ---------- Reading ----------

  /** The outcome of reading something from the front of a text.  After an error, nothing more is read. */
  datatype Parse<+T> = Got(value: T, rest: string) | EndOfFile | EmptyLine(rest: string) | Bad {
    predicate IsFailure() { !Got? }
    function PropagateFailure<U>(): Parse<U>
      requires !Got?
    {
      match this
      case EndOfFile => EndOfFile
      case EmptyLine(rest) => EmptyLine(rest)
      case Bad => Bad
    }
    function Extract(): (T, string)
      requires Got?
    {
      (value, rest)
    }
  }

  /** The index of the first c, or the length of s. */
  function IndexOf(s: string, c: char): (i: nat)
    ensures i <= |s| && c !in s[..i] && (i < |s| ==> s[i] == c)
  {
    if s == "" || s[0] == c then 0
    else
      assert s[..1 + IndexOf(s[1..], c)] == [s[0]] + s[1..][..IndexOf(s[1..], c)];
      1 + IndexOf(s[1..], c)
  }

  /** `GetLine`: an unterminated last line is an error. */
  function LineAt(s: string): (p: Parse<string>)
    ensures !p.EmptyLine? && (p.EndOfFile? <==> s == "")
    ensures p.Got? ==> s == p.value + "\n" + p.rest && '\n' !in p.value && |p.rest| < |s|
    ensures p.Bad? ==> '\n' !in s
  {
    var i := IndexOf(s, '\n');
    if s == "" then EndOfFile else if i == |s| then Bad else Got(s[..i], s[i + 1..])
  }

  function EmptyLineAt(s: string): Parse<()> {
    var (line, rest) :- LineAt(s);
    if line != "" then Bad else Got((), rest)
  }

  /** `Parser.next`: the value on a line with the given key. */
  function ValueAt(name: string, s: string): (p: Parse<string>)
    ensures p.Got? ==> |p.rest| < |s|
  {
    var (line, rest) :- LineAt(s);
    var i := IndexOf(line, '=');
    if line == "" then EmptyLine(rest)
    else if i == |line| || line[..i] != name then Bad
    else Got(line[i + 1..], rest)
  }

  function Converted<T>(x: Option<T>, rest: string): Parse<T> {
    if x.None? then Bad else Got(x.value, rest)
  }

  function IntAt(name: string, s: string): Parse<nat> {
    var (v, rest) :- ValueAt(name, s);
    Converted(IntFromDecimal(v), rest)
  }

  function HashAt(name: string, s: string): (p: Parse<Hash>)
    ensures p.Got? ==> |p.rest| < |s|
  {
    var (v, rest) :- ValueAt(name, s);
    Converted(HashFromHex(v), rest)
  }

  function SignatureAt(name: string, s: string): Parse<Signature> {
    var (v, rest) :- ValueAt(name, s);
    Converted(SignatureFromHex(v), rest)
  }

  /** `strings.Split(s, " ")` */
  function SplitSpaces(s: string): (vs: seq<string>)
    ensures |vs| > 0
    decreases |s|
  {
    var i := IndexOf(s, ' ');
    if i == |s| then [s] else [s[..i]] + SplitSpaces(s[i + 1..])
  }

  function ValuesAt(name: string, count: nat, s: string): (p: Parse<seq<string>>)
    ensures p.Got? ==> |p.value| == count && |p.rest| < |s|
  {
    var (v, rest) :- ValueAt(name, s);
    var values := SplitSpaces(v);
    if |values| != count then Bad else Got(values, rest)
  }

  // ---------- Writing ----------

  datatype Item = Bytes(bytes: seq<byte>) | Int(n: nat)

  function WriteItem(item: Item): Option<string> {
    match item
    case Bytes(b) => Some(EncodeHex(b))
    case Int(n) => if n >= Pow2(63) then None else Some(Decimal(n))
  }

  /** The items after the first one, each with a space before it. */
  function WriteRest(items: seq<Item>): Option<string> {
    if items == [] then Some("") else Then(Some(" "), Then(WriteItem(items[0]), WriteRest(items[1..])))
  }

  lemma {:induction false} RestUnfold(items: seq<Item>)
    ensures items == [] ==> WriteRest(items) == Some("")
    ensures items != [] ==>
      WriteRest(items) == Then(Some(" "), Then(WriteItem(items[0]), WriteRest(items[1..])))
  {
  }

  /** The items of a line, separated by spaces. */
  function WriteItems(items: seq<Item>): Option<string>
    requires |items| > 0
  {
    Then(WriteItem(items[0]), WriteRest(items[1..]))
  }

  /** `WriteLine` */
  function WriteLine(key: string, items: seq<Item>): Option<string>
    requires |items| > 0
  {
    var value := WriteItems(items);
    if value.None? then None else Some(key + "=" + value.value + "\n")
  }

  /** Two texts, one after the other. */
  function Then(a: Option<string>, b: Option<string>): Option<string> {
    if a.None? || b.None? then None else Some(a.value + b.value)
  }

  // ---------- The programs ----------

  /** `LineReader` and `Parser`: the text that is still to be read. */
  class Parser {
    var rest: string

    constructor (input: string)
      ensures rest == input
    {
      rest := input;
    }

    method GetLine() returns (p: Parse<string>)
      modifies this
      ensures p == LineAt(old(rest))
      ensures p.Got? ==> rest == p.rest
    {
      p := LineAt(rest);
      if p.Got? {
        rest := p.rest;
      }
    }

    /** Whether there is nothing more to read. */
    method GetEOF() returns (ok: bool)
      ensures ok <==> rest == ""
    {
      return rest == "";
    }

    method GetEmptyLine() returns (p: Parse<()>)
      modifies this
      ensures p == EmptyLineAt(old(rest))
      ensures p.Got? ==> rest == p.rest
    {
      var line := GetLine();
      if !line.Got? {
        return line.PropagateFailure();
      }
      if line.value != "" {
        return Bad;
      }
      return Got((), rest);
    }

    method GetValue(name: string) returns (p: Parse<string>)
      modifies this
      ensures p == ValueAt(name, old(rest))
      ensures p.Got? || p.EmptyLine? ==> rest == p.rest
    {
      var line := GetLine();
      if !line.Got? {
        return line;
      }
      if line.value == "" {
        return EmptyLine(rest);
      }
      var i := IndexOf(line.value, '=');
      if i == |line.value| || line.value[..i] != name {
        return Bad;
      }
      return Got(line.value[i + 1..], rest);
    }

    method GetInt(name: string) returns (p: Parse<nat>)
      modifies this
      ensures p == IntAt(name, old(rest))
      ensures p.Got? || p.EmptyLine? ==> rest == p.rest
    {
      var v := GetValue(name);
      return if v.Got? then Converted(IntFromDecimal(v.value), rest) else v.PropagateFailure();
    }

    method GetHash(name: string) returns (p: Parse<Hash>)
      modifies this
      ensures p == HashAt(name, old(rest))
      ensures p.Got? || p.EmptyLine? ==> rest == p.rest
    {
      var v := GetValue(name);
      return if v.Got? then Converted(HashFromHex(v.value), rest) else v.PropagateFailure();
    }

    method GetSignature(name: string) returns (p: Parse<Signature>)
      modifies this
      ensures p == SignatureAt(name, old(rest))
      ensures p.Got? || p.EmptyLine? ==> rest == p.rest
    {
      var v := GetValue(name);
      return if v.Got? then Converted(SignatureFromHex(v.value), rest) else v.PropagateFailure();
    }

    method GetValues(name: string, count: nat) returns (p: Parse<seq<string>>)
      modifies this
      ensures p == ValuesAt(name, count, old(rest))
      ensures p.Got? || p.EmptyLine? ==> rest == p.rest
    {
      var v := GetValue(name);
      if !v.Got? {
        return v.PropagateFailure();
      }
      var values := SplitSpaces(v.value);
      return if |values| != count then Bad else Got(values, rest);
    }
  }

  /** The text that has been written. */
  class Writer {
    var out: string

    constructor ()
      ensures out == ""
    {
      out := "";
    }

    /** `WriteLine`; what has been written when it fails is of no use. */
    method Line(key: string, items: seq<Item>) returns (ok: bool)
      requires |items| > 0
      modifies this
      ensures ok <==> WriteLine(key, items).Some?
      ensures ok ==> out == old(out) + WriteLine(key, items).value
    {
      hide Pow2, WriteItem, WriteRest;
      out := out + key + "=";
      ghost var start := out;
      var first := WriteItem(items[0]);
      if first == None {
        return false;
      }
      out := out + first.value;
      for i := 1 to |items|
        invariant WriteItems(items).Some? <==> WriteRest(items[i..]).Some?
        invariant WriteItems(items).Some? ==> out + WriteRest(items[i..]).value == start + WriteItems(items).value
      {
        assert items[i..][1..] == items[i + 1..];
        RestUnfold(items[i..]);
        var text := WriteItem(items[i]);
        if text == None {
          return false;
        }
        ghost var left := WriteRest(items[i + 1..]);
        assert left.Some? ==> out + (" " + (text.value + left.value)) == out + " " + text.value + left.value;
        out := out + " " + text.value;
      }
      RestUnfold([]);
      assert items[|items|..] == [];
      ghost var value := WriteItems(items).value;
      assert out == start + value;
      out := out + "\n";
      assert old(out) + key + "=" + value + "\n" == old(out) + (key + "=" + value + "\n");
      return true;
    }
  }

  // ---------- Reading what was written ----------

  predicate Plain(s: string) {
    '\n' !in s && ' ' !in s && '=' !in s
  }

  lemma {:induction false} HexIsPlain(b: seq<byte>)
    ensures Plain(EncodeHex(b))
  {
    if b != [] { HexIsPlain(b[1..]); }
  }

  lemma {:induction false} ItemIsPlain(item: Item)
    requires WriteItem(item).Some?
    ensures Plain(WriteItem(item).value)
  {
    match item
    case Bytes(b) => HexIsPlain(b);
    case Int(n) => DecimalDigits(n);
  }

  lemma {:induction false} IndexOfFirst(a: string, c: char, b: string)
    requires c !in a
    ensures IndexOf(a + [c] + b, c) == |a|
  {
    var s := a + [c] + b;
    assert s[..|a|] == a && s[|a|] == c;
  }

  lemma {:induction false} NoIndex(a: string, c: char)
    requires c !in a
    ensures IndexOf(a, c) == |a|
  {
  }

  lemma {:induction false} ReadLine(name: string, value: string, rest: string)
    requires Plain(name) && '\n' !in value
    ensures ValueAt(name, name + "=" + value + "\n" + rest) == Got(value, rest)
  {
    var line := name + "=" + value;
    assert '\n' !in line;
    var s := line + "\n" + rest;
    IndexOfFirst(line, '\n', rest);
    assert s[..|line|] == line && s[|line| + 1..] == rest;
    IndexOfFirst(name, '=', value);
    assert line[..|name|] == name && line[|name| + 1..] == value;
  }

  lemma {:induction false} ItemsWritten(items: seq<Item>, i: nat)
    requires i < |items| && WriteRest(items).Some?
    ensures WriteItem(items[i]).Some?
  {
    if i > 0 { ItemsWritten(items[1..], i - 1); }
  }

  function ItemText(item: Item): string {
    match item
    case Bytes(b) => EncodeHex(b)
    case Int(n) => Decimal(n)
  }

  /** The texts of the items. */
  function Texts(items: seq<Item>): (ts: seq<string>)
    ensures |ts| == |items|
  {
    if items == [] then [] else [ItemText(items[0])] + Texts(items[1..])
  }

  lemma {:induction false} SplitItems(items: seq<Item>)
    requires |items| > 0 && WriteItems(items).Some?
    ensures '\n' !in WriteItems(items).value
    ensures SplitSpaces(WriteItems(items).value) == Texts(items)
  {
    var s, first := WriteItems(items).value, ItemText(items[0]);
    ItemIsPlain(items[0]);
    if |items| == 1 {
      NoIndex(first, ' ');
      assert s == first;
      assert Texts(items[1..]) == [];
    } else {
      var rest := WriteItems(items[1..]).value;
      SplitItems(items[1..]);
      assert s == first + [' '] + rest;
      IndexOfFirst(first, ' ', rest);
      assert s[..|first|] == first && s[|first| + 1..] == rest;
    }
  }

  /** A written line is read back as the texts of its items. */
  lemma {:induction false} ReadValues(key: string, items: seq<Item>, rest: string)
    requires Plain(key) && |items| > 0 && WriteLine(key, items).Some?
    ensures ValuesAt(key, |items|, WriteLine(key, items).value + rest) == Got(Texts(items), rest)
  {
    SplitItems(items);
    var v := WriteItems(items).value;
    assert WriteLine(key, items).value + rest == key + "=" + v + "\n" + rest;
    ReadLine(key, v, rest);
  }

  lemma {:induction false} ReadInt(key: string, n: nat, rest: string)
    requires Plain(key) && WriteLine(key, [Int(n)]).Some?
    ensures IntAt(key, WriteLine(key, [Int(n)]).value + rest) == Got(n, rest)
  {
    ItemIsPlain(Int(n));
    assert WriteLine(key, [Int(n)]).value + rest == key + "=" + Decimal(n) + "\n" + rest;
    ReadLine(key, Decimal(n), rest);
    IntFromDecimalInverts(n, Decimal(n));
  }

  lemma {:induction false} BytesAreWritten(key: string, b: seq<byte>)
    ensures WriteLine(key, [Bytes(b)]).Some?
  {
    assert [Bytes(b)][1..] == [];
  }

  lemma {:induction false} EndOfText(name: string)
    ensures ValueAt(name, "") == EndOfFile
  {
  }

  lemma {:induction false} ReadHash(key: string, h: Hash, rest: string)
    requires Plain(key)
    ensures HashAt(key, WriteLine(key, [Bytes(h.bytes)]).value + rest) == Got(h, rest)
  {
    ItemIsPlain(Bytes(h.bytes));
    assert WriteLine(key, [Bytes(h.bytes)]).value + rest == key + "=" + EncodeHex(h.bytes) + "\n" + rest;
    ReadLine(key, EncodeHex(h.bytes), rest);
    DecodeHexInverts(h.bytes);
  }

  lemma {:induction false} ReadSignature(key: string, sig: Signature, rest: string)
    requires Plain(key)
    ensures SignatureAt(key, WriteLine(key, [Bytes(sig.bytes)]).value + rest) == Got(sig, rest)
  {
    ItemIsPlain(Bytes(sig.bytes));
    assert WriteLine(key, [Bytes(sig.bytes)]).value + rest == key + "=" + EncodeHex(sig.bytes) + "\n" + rest;
    ReadLine(key, EncodeHex(sig.bytes), rest);
    DecodeHexInverts(sig.bytes);
  }
}
