/** `ParseConfig` of `pkg/policy/config.go`.  A policy file is given as the fields of its lines, after
    comments have been cut off. */
module PolicyConfig {
  import opened Crypto
  import opened Bits
  import opened Ascii
  import opened Policies

  const CONFIG_NONE := "none"

  datatype Parsed = Parsed(
    logs: map<Hash, Entity>, witnesses: map<Hash, Entity>, quorum: Option<Quorum>, names: map<string, Quorum>)

  const NOTHING_PARSED := Parsed(map[], map[], None, map[CONFIG_NONE := KofN([], 0)])

  /** `strconv.Atoi`: decimal digits after an optional sign, for a 64-bit number. */
  function Atoi(s: string): Option<int> {
    var signed := s != "" && (s[0] == '+' || s[0] == '-');
    var digits := if signed then s[1..] else s;
    if digits == "" || exists i :: 0 <= i < |digits| && !IsDigit(digits[i]) then None
    else
      var value: int, limit: int := DigitsValue(digits), Pow2(63);
      var n := if signed && s[0] == '-' then -value else value;
      if -limit <= n < limit then Some(n) else None
  }

  function AddLog(c: Parsed, args: seq<string>): Option<Parsed> {
    if !(1 <= |args| <= 2) then None
    else
      var key := PublicKeyFromHex(args[0]);
      if key.None? || KeyHash(key.value) in c.logs then None
      else Some(c.(logs := c.logs[KeyHash(key.value) := Entity(key.value, if |args| > 1 then args[1] else "")]))
  }

  function AddWitness(c: Parsed, args: seq<string>): Option<Parsed> {
    if !(2 <= |args| <= 3) then None
    else
      var key := PublicKeyFromHex(args[1]);
      if key.None? || args[0] in c.names || KeyHash(key.value) in c.witnesses then None
      else
        var h := KeyHash(key.value);
        Some(c.(witnesses := c.witnesses[h := Entity(key.value, if |args| > 2 then args[2] else "")],
                names := c.names[args[0] := Single(h)]))
  }

  function Threshold(s: string, n: nat): Option<int> {
    if s == "any" then Some(1) else if s == "all" then Some(n) else Atoi(s)
  }

  function LookUp(names: map<string, Quorum>, members: seq<string>): Option<seq<Quorum>> {
    if members == [] then Some([])
    else
      var n := |members| - 1;
      var init := LookUp(names, members[..n]);
      if init.None? || members[n] !in names then None else Some(init.value + [names[members[n]]])
  }

  function AddGroup(c: Parsed, args: seq<string>): Option<Parsed> {
    if |args| < 3 || args[0] in c.names then None
    else
      var n := |args| - 2;
      var threshold, members := Threshold(args[1], n), LookUp(c.names, args[2..]);
      if threshold.None? || !(1 <= threshold.value <= n) || members.None? then None
      else Some(c.(names := c.names[args[0] := KofN(members.value, threshold.value)]))
  }

  function SetQuorum(c: Parsed, args: seq<string>): Option<Parsed> {
    if |args| != 1 || c.quorum.Some? || args[0] !in c.names then None
    else Some(c.(quorum := Some(c.names[args[0]])))
  }

  /** One line; a line without fields is skipped. */
  function Line(c: Parsed, fields: seq<string>): Option<Parsed> {
    if fields == [] then Some(c)
    else if fields[0] == "log" then AddLog(c, fields[1..])
    else if fields[0] == "witness" then AddWitness(c, fields[1..])
    else if fields[0] == "group" then AddGroup(c, fields[1..])
    else if fields[0] == "quorum" then SetQuorum(c, fields[1..])
    else None
  }

  function Lines(c: Parsed, lines: seq<seq<string>>): Option<Parsed>
    decreases |lines|
  {
    if lines == [] then Some(c)
    else
      var c' := Line(c, lines[0]);
      if c'.None? then None else Lines(c'.value, lines[1..])
  }

  /** The policy that a file defines, if it is valid. */
  function ParsedPolicy(lines: seq<seq<string>>): Option<Policy> {
    var c := Lines(NOTHING_PARSED, lines);
    if c.None? || c.value.quorum.None? then None
    else Some(Policy(c.value.logs, c.value.witnesses, c.value.quorum.value))
  }

  // ---------- The program ----------

  class Config {
    var logs: map<Hash, Entity>
    var witnesses: map<Hash, Entity>
    var quorum: Option<Quorum>
    var names: map<string, Quorum>

    function Abs(): Parsed
      reads this
    {
      Parsed(logs, witnesses, quorum, names)
    }

    constructor ()
      ensures Abs() == NOTHING_PARSED
    {
      logs, witnesses, quorum, names := map[], map[], None, map[CONFIG_NONE := KofN([], 0)];
    }

    method ParseLog(args: seq<string>) returns (ok: bool)
      modifies this
      ensures ok <==> AddLog(old(Abs()), args).Some?
      ensures Abs() == if ok then AddLog(old(Abs()), args).value else old(Abs())
    {
      if |args| < 1 || |args| > 2 {
        return false;
      }
      var key := PublicKeyFromHex(args[0]);
      if key == None || KeyHash(key.value) in logs {
        return false;
      }
      logs := logs[KeyHash(key.value) := Entity(key.value, if |args| > 1 then args[1] else "")];
      return true;
    }

    method ParseWitness(args: seq<string>) returns (ok: bool)
      modifies this
      ensures ok <==> AddWitness(old(Abs()), args).Some?
      ensures Abs() == if ok then AddWitness(old(Abs()), args).value else old(Abs())
    {
      if |args| < 2 || |args| > 3 {
        return false;
      }
      var key := PublicKeyFromHex(args[1]);
      if key == None || args[0] in names {
        return false;
      }
      var h := KeyHash(key.value);
      if h in witnesses {
        return false;
      }
      witnesses := witnesses[h := Entity(key.value, if |args| > 2 then args[2] else "")];
      names := names[args[0] := Single(h)];
      return true;
    }

    method ParseGroup(args: seq<string>) returns (ok: bool)
      modifies this
      ensures ok <==> AddGroup(old(Abs()), args).Some?
      ensures Abs() == if ok then AddGroup(old(Abs()), args).value else old(Abs())
      ensures ok ==>
        && |args| >= 3 && args[0] in names && names[args[0]].KofN?
        && var qs, k := names[args[0]].subQuorums, names[args[0]].k;
        && |qs| == |args| - 2
        && (forall i :: 0 <= i < |qs| ==> args[i + 2] in old(names) && qs[i] == old(names)[args[i + 2]])
        && (args[1] == "any" ==> k == 1) && (args[1] == "all" ==> k == |qs|)
        && (args[1] != "any" && args[1] != "all" ==> Atoi(args[1]) == Some(k) && 1 <= k <= |qs|)
    {
      if |args| < 3 {
        return false;
      }
      var n := |args| - 2;
      if args[0] in names {
        return false;
      }
      var threshold := Threshold(args[1], n);
      if threshold == None || threshold.value < 1 || threshold.value > n {
        return false;
      }
      hide LookUp, Atoi;
      var subQuorums: seq<Quorum> := [];
      var members := args[2..];
      LookUpNothing(names);
      assert members[..0] == [];
      for i := 0 to |members|
        invariant Abs() == old(Abs()) && |subQuorums| == i
        invariant LookUp(names, members[..i]) == Some(subQuorums)
        invariant forall j :: 0 <= j < i ==> members[j] in names && subQuorums[j] == names[members[j]]
      {
        if members[i] !in names {
          UndefinedName(names, members, i);
          return false;
        }
        LookUpNext(names, members, i);
        subQuorums := subQuorums + [names[members[i]]];
      }
      assert members[..|members|] == members;
      assert forall j :: 0 <= j < |members| ==> args[j + 2] == members[j];
      names := names[args[0] := KofN(subQuorums, threshold.value)];
      return true;
    }

    method ParseQuorum(args: seq<string>) returns (ok: bool)
      modifies this
      ensures ok <==> SetQuorum(old(Abs()), args).Some?
      ensures Abs() == if ok then SetQuorum(old(Abs()), args).value else old(Abs())
    {
      if |args| != 1 || quorum != None || args[0] !in names {
        return false;
      }
      quorum := Some(names[args[0]]);
      return true;
    }

    method ParseLine(fields: seq<string>) returns (ok: bool)
      requires fields != []
      modifies this
      ensures ok <==> Line(old(Abs()), fields).Some?
      ensures Abs() == if ok then Line(old(Abs()), fields).value else old(Abs())
    {
      hide AddLog, AddWitness, AddGroup, SetQuorum;
      match fields[0]
      case "log" => ok := ParseLog(fields[1..]);
      case "witness" => ok := ParseWitness(fields[1..]);
      case "group" => ok := ParseGroup(fields[1..]);
      case "quorum" => ok := ParseQuorum(fields[1..]);
      case _ => ok := false;
    }
  }

  method ParseConfig(lines: seq<seq<string>>) returns (p: Option<Policy>)
    ensures p == ParsedPolicy(lines)
  {
    hide Line;
    var config := new Config();
    assert lines[0..] == lines;
    for i := 0 to |lines|
      invariant Lines(NOTHING_PARSED, lines) == Lines(config.Abs(), lines[i..])
    {
      assert lines[i..][1..] == lines[i + 1..];
      SkippedLine(config.Abs());
      if lines[i] == [] {
        continue;
      }
      var ok := config.ParseLine(lines[i]);
      if !ok {
        return None;
      }
    }
    if config.quorum == None {
      return None;
    }
    return Some(Policy(config.logs, config.witnesses, config.quorum.value));
  }

  lemma {:induction false} SkippedLine(c: Parsed)
    ensures Line(c, []) == Some(c)
  {
  }

  lemma {:induction false} LookUpNothing(names: map<string, Quorum>)
    ensures LookUp(names, []) == Some([])
  {
  }

  lemma {:induction false} LookUpNext(names: map<string, Quorum>, members: seq<string>, i: nat)
    requires i < |members| && members[i] in names && LookUp(names, members[..i]).Some?
    ensures LookUp(names, members[..i + 1]) == Some(LookUp(names, members[..i]).value + [names[members[i]]])
  {
    assert members[..i + 1][..i] == members[..i];
  }

  lemma {:induction false} UndefinedName(names: map<string, Quorum>, members: seq<string>, i: nat)
    requires i < |members| && members[i] !in names
    ensures LookUp(names, members) == None
    decreases |members|
  {
    var n := |members| - 1;
    if i < n { UndefinedName(names, members[..n], i); }
  }

  // ---------- What every valid file defines ----------

  /** What is known of a quorum that a name stands for. */
  predicate Usable(q: Quorum, witnesses: map<Hash, Entity>) {
    Members(q) <= witnesses.Keys && Attainable(q)
  }

  predicate Consistent(c: Parsed) {
    && (forall h :: h in c.logs ==> KeyHash(c.logs[h].publicKey) == h)
    && (forall h :: h in c.witnesses ==> KeyHash(c.witnesses[h].publicKey) == h)
    && (forall name :: name in c.names ==> Usable(c.names[name], c.witnesses))
    && (c.quorum.Some? ==> Usable(c.quorum.value, c.witnesses))
  }

  lemma {:induction false} LookUpUsable(names: map<string, Quorum>, members: seq<string>, witnesses: map<Hash, Entity>)
    requires LookUp(names, members).Some?
    requires forall name :: name in names ==> Usable(names[name], witnesses)
    ensures var qs := LookUp(names, members).value;
      |qs| == |members| && AllMembers(qs) <= witnesses.Keys && forall q :: q in qs ==> Attainable(q)
    decreases |members|
  {
    if members != [] {
      var n := |members| - 1;
      LookUpUsable(names, members[..n], witnesses);
      var init, q := LookUp(names, members[..n]).value, names[members[n]];
      assert (init + [q])[..n] == init;
    }
  }

  /** Every line keeps the file consistent, and no later line changes what a name stands for. */
  lemma {:induction false} LineKeeps(c: Parsed, fields: seq<string>)
    requires Consistent(c) && Line(c, fields).Some?
    ensures var c' := Line(c, fields).value;
      && Consistent(c')
      && (forall name :: name in c.names ==> name in c'.names && c'.names[name] == c.names[name])
      && (c.quorum.Some? ==> c'.quorum == c.quorum)
  {
    hide Members, Attainable, KeyHash, PublicKeyFromHex, Threshold, LookUp, AllMembers;
    var c' := Line(c, fields).value;
    if fields != [] && fields[0] == "group" {
      var args := fields[1..];
      LookUpUsable(c.names, args[2..], c.witnesses);
      GroupUsable(LookUp(c.names, args[2..]).value, Threshold(args[1], |args| - 2).value, c.witnesses);
    } else if fields != [] && fields[0] == "witness" {
      SingleUsable(KeyHash(PublicKeyFromHex(fields[2]).value), c'.witnesses);
    }
  }

  lemma {:induction false} GroupUsable(qs: seq<Quorum>, k: int, witnesses: map<Hash, Entity>)
    requires AllMembers(qs) <= witnesses.Keys && k <= |qs| && forall q :: q in qs ==> Attainable(q)
    ensures Usable(KofN(qs, k), witnesses)
  {
  }

  lemma {:induction false} SingleUsable(h: Hash, witnesses: map<Hash, Entity>)
    requires h in witnesses
    ensures Usable(Single(h), witnesses)
  {
  }

  lemma {:induction false} LinesKeep(c: Parsed, lines: seq<seq<string>>)
    requires Consistent(c) && Lines(c, lines).Some?
    ensures var c' := Lines(c, lines).value;
      && Consistent(c')
      && (forall name :: name in c.names ==> name in c'.names && c'.names[name] == c.names[name])
      && (c.quorum.Some? ==> c'.quorum == c.quorum)
    decreases |lines|
  {
    hide Consistent, Line;
    if lines != [] {
      LineKeeps(c, lines[0]);
      LinesKeep(Line(c, lines[0]).value, lines[1..]);
    }
  }

  lemma {:induction false} NothingIsConsistent()
    ensures Consistent(NOTHING_PARSED)
  {
    assert AllMembers([]) == {};
  }

  /** The policy of every valid file refers to its own witnesses only, and its quorum can be attained:
      by all of its witnesses together. */
  lemma {:induction false} ParsedPolicyIsWellFormed(lines: seq<seq<string>>)
    requires ParsedPolicy(lines).Some?
    ensures var p := ParsedPolicy(lines).value;
      WellFormed(p) && IsQuorum(p.quorum, p.witnesses.Keys)
  {
    hide Lines, IsQuorum;
    NothingIsConsistent();
    LinesKeep(NOTHING_PARSED, lines);
    var p := ParsedPolicy(lines).value;
    AllMembersAreQuorum(p.quorum, p.witnesses.Keys);
  }

  function QuorumLines(lines: seq<seq<string>>): nat {
    if lines == [] then 0
    else (if lines[0] != [] && lines[0][0] == "quorum" then 1 else 0) + QuorumLines(lines[1..])
  }

  lemma {:induction false} QuorumLinesCount(c: Parsed, lines: seq<seq<string>>)
    requires Lines(c, lines).Some?
    ensures QuorumLines(lines) + (if c.quorum.Some? then 1 else 0) ==
            if Lines(c, lines).value.quorum.Some? then 1 else 0
    decreases |lines|
  {
    if lines != [] { QuorumLinesCount(Line(c, lines[0]).value, lines[1..]); }
  }

  /** A file of valid lines defines a policy exactly if it has one quorum line. */
  lemma {:induction false} ExactlyOneQuorumLine(lines: seq<seq<string>>)
    requires Lines(NOTHING_PARSED, lines).Some?
    ensures ParsedPolicy(lines).Some? <==> QuorumLines(lines) == 1
  {
    QuorumLinesCount(NOTHING_PARSED, lines);
  }
}
