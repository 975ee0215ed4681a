/** The firewall's rule tables on values: what a rule matches, what each command does
    to the sequence of rules of a chain, and what every command keeps. */
module Sipfw {
  import opened Common
  import opened Machine

  const CHAINS: nat := 3
  const CHAIN_INPUT: int := 0
  const CHAIN_OUTPUT: int := 1
  const CHAIN_FORWARD: int := 2
  const CHAIN_ALL: int := 3
  const ACTIONS: nat := 6

  const ENOENT: int := 2
  const ENOMEM: int := 12
  const EINVAL: int := 22

  /** Four bytes that are read as one word, as ICMP type and code, or as TCP flags. */
  type Extra = e: seq<Byte> | |e| == 4 witness [0, 0, 0, 0]
  type Name = n: seq<Byte> | |n| == 8 witness seq(8, _ => 0)

  datatype Rule = Rule(chain: int, source: nat, dest: nat, sport: nat, dport: nat, protocol: nat, action: int,
                       ifname: Name, extra: Extra)

  // ------------------------------------------------------------------ matching

  const TCP: nat := 6
  const UDP: nat := 17
  const ICMP: nat := 1
  const IGMP: nat := 2

  /** A packet whose headers are complete, and the devices it came and goes by. */
  datatype Packet = Packet(source: nat, dest: nat, protocol: nat, sport: nat, dport: nat,
                           fin: bool, syn: bool, rst: bool, ack: bool, icmpType: nat, icmpCode: nat,
                           inDev: Option<seq<Byte>>, outDev: Option<seq<Byte>>)

  function Bit(b: Byte, k: nat): bool
    requires k < 8
  {
    (b / [1, 2, 4, 8, 16, 32, 64, 128][k]) % 2 == 1
  }

  /** A name as C reads it: up to the first zero, and no more than `n` bytes. */
  function CString(s: seq<Byte>, n: nat): seq<Byte> {
    if n == 0 || s == [] || s[0] == 0 then [] else [s[0]] + CString(s[1..], n - 1)
  }

  predicate IsDevice(r: Rule, dev: Option<seq<Byte>>) {
    dev.Some? && CString(r.ifname, 8) == CString(dev.value, 8)
  }

  predicate NameMatches(r: Rule, p: Packet) {
    if CString(r.ifname, 8) == [] then true
    else if r.chain == CHAIN_INPUT then IsDevice(r, p.inDev)
    else if r.chain == CHAIN_OUTPUT then IsDevice(r, p.outDev)
    else if r.chain == CHAIN_FORWARD then IsDevice(r, p.inDev) || IsDevice(r, p.outDev)
    else false
  }

  predicate AddressMatches(r: Rule, p: Packet) {
    && (p.dest == r.dest || r.dest == 0) && (p.source == r.source || r.source == 0)
    && (p.protocol == r.protocol || r.protocol == 0)
  }

  predicate HasExtra(r: Rule) {
    r.extra[0] != 0 || r.extra[1] != 0 || r.extra[2] != 0 || r.extra[3] != 0
  }

  predicate ExtraMatches(r: Rule, p: Packet) {
    var ports := (p.sport == r.sport || r.sport == 0) && (p.dport == r.dport || r.dport == 0);
    if p.protocol == TCP then
      ports && (!HasExtra(r) || (Bit(r.extra[1], 4) == p.ack && Bit(r.extra[1], 0) == p.fin
                                 && Bit(r.extra[1], 1) == p.syn && Bit(r.extra[1], 2) == p.rst))
    else if p.protocol == UDP then ports
    else if p.protocol == ICMP || p.protocol == IGMP then
      !HasExtra(r) || (r.extra[1] == p.icmpType && r.extra[2] == p.icmpCode)
    else false
  }

  predicate Matches(r: Rule, p: Packet) {
    NameMatches(r, p) && AddressMatches(r, p) && ExtraMatches(r, p)
  }

  ghost predicate IsFirst(rules: seq<Rule>, p: Packet, i: int) {
    0 <= i < |rules| && Matches(rules[i], p) && forall j :: 0 <= j < i ==> !Matches(rules[j], p)
  }

  /** The packet path: the first rule of one snapshot that matches. */
  method IsMatch(snapshot: Option<seq<Rule>>, p: Packet) returns (matched: Option<Rule>)
    ensures matched.None? <==> snapshot.None? || forall r :: r in snapshot.value ==> !Matches(r, p)
    ensures matched.Some? ==> snapshot.Some? && exists i :: IsFirst(snapshot.value, p, i) && matched.value == snapshot.value[i]
  {
    matched := None;
    if snapshot.None? { return; }
    var rules := snapshot.value;
    var i := 0;
    while i < |rules|
      invariant i <= |rules| && matched.None? && forall j :: 0 <= j < i ==> !Matches(rules[j], p)
    {
      if Matches(rules[i], p) {
        assert IsFirst(rules, p, i);
        return Some(rules[i]);
      }
      i := i + 1;
    }
  }

  // ------------------------------------------------------------- commands

  datatype Command = Append(rule: Rule) | Insert(rule: Rule, number: int) | Replace(rule: Rule, number: int)
                   | Delete(rule: Rule, number: int) | Flush(rule: Rule)

  type Tables = t: seq<seq<Rule>> | |t| == 3 witness [[], [], []]

  /** The rules of a chain after a command, and the error code. `memory` is whether
      a snapshot could be allocated. */
  datatype Outcome = Outcome(rules: seq<Rule>, err: int)

  function InsertAt(s: seq<Rule>, k: nat, r: Rule): seq<Rule>
    requires k <= |s|
  {
    s[..k] + [r] + s[k..]
  }

  function RemoveAt(s: seq<Rule>, k: nat): seq<Rule>
    requires k < |s|
  {
    s[..k] + s[k + 1..]
  }

  /** The first rule equal in every field, or the length. */
  function FirstSame(s: seq<Rule>, r: Rule): (k: nat)
    ensures k <= |s| && (k < |s| ==> s[k] == r) && forall j :: 0 <= j < k ==> s[j] != r
  {
    if s == [] then 0 else if s[0] == r then 0 else 1 + FirstSame(s[1..], r)
  }

  function DoAppend(s: seq<Rule>, r: Rule, memory: bool): Outcome {
    if memory then Outcome(s + [r], 0) else Outcome(s, -ENOMEM)
  }

  function DoInsert(s: seq<Rule>, r: Rule, number: int, memory: bool): Outcome {
    if number <= 0 then Outcome(s, -EINVAL)
    else if !memory then Outcome(s, -ENOMEM)
    else Outcome(InsertAt(s, Min(number - 1, |s|), r), 0)
  }

  function DoReplace(s: seq<Rule>, r: Rule, number: int, memory: bool): Outcome {
    if number <= 0 then Outcome(s, -EINVAL)
    else if number > |s| then Outcome(s, -ENOENT)
    else if !memory then Outcome(s, -ENOMEM)
    else Outcome(s[number - 1 := r], 0)
  }

  /** An emptied chain needs no snapshot, so removing its last rule never fails. */
  function DoRemove(s: seq<Rule>, k: nat, memory: bool): Outcome
    requires k < |s|
  {
    if |s| > 1 && !memory then Outcome(s, -ENOMEM) else Outcome(RemoveAt(s, k), 0)
  }

  function DoDelete(s: seq<Rule>, r: Rule, number: int, memory: bool): Outcome {
    if number == -1 then
      var k := FirstSame(s, r);
      if k < |s| then DoRemove(s, k, memory) else Outcome(s, -ENOENT)
    else if number <= 0 || number > |s| then Outcome(s, -ENOENT)
    else DoRemove(s, number - 1, memory)
  }

  /** Deleting the position a rule was inserted at undoes the insertion, and what was
      inserted is found there. */
  lemma {:induction false} DeleteUndoesInsert(s: seq<Rule>, r: Rule, any: Rule, number: int)
    requires number > 0
    ensures var at := Min(number, |s| + 1);
      var longer := DoInsert(s, r, number, true).rules;
      && |longer| == |s| + 1 && longer[at - 1] == r
      && DoDelete(longer, any, at, true) == Outcome(s, 0)
  {
    var k := Min(number - 1, |s|);
    var longer := InsertAt(s, k, r);
    assert longer[..k] == s[..k] && longer[k + 1..] == s[k..];
    assert s[..k] + s[k..] == s;
  }

  /** Replacing twice leaves the last rule, and putting the old rule back undoes it. */
  lemma {:induction false} ReplaceUndoesReplace(s: seq<Rule>, r: Rule, number: int)
    requires 0 < number <= |s|
    ensures DoReplace(DoReplace(s, r, number, true).rules, s[number - 1], number, true) == Outcome(s, 0)
  {
    assert s[number - 1 := r][number - 1 := s[number - 1]] == s;
  }

  lemma {:induction false} FirstIs(s: seq<Rule>, r: Rule, k: nat)
    requires k <= |s| && (k < |s| ==> s[k] == r) && forall j :: 0 <= j < k ==> s[j] != r
    ensures FirstSame(s, r) == k
  {
  }

  /** Taking out position `k` and appending `r` gives the list back exactly when it holds
      nothing but `r` from there on. */
  lemma {:induction false} MovedToEnd(s: seq<Rule>, r: Rule, k: nat)
    requires k < |s|
    ensures RemoveAt(s, k) + [r] == s <==> forall j :: k <= j < |s| ==> s[j] == r
    decreases |s| - k
  {
    var moved := RemoveAt(s, k) + [r];
    assert moved[k] == if k + 1 < |s| then s[k + 1] else r;
    if k + 1 < |s| {
      MovedToEnd(s, r, k + 1);
      var next := RemoveAt(s, k + 1) + [r];
      assert forall j :: 0 <= j < |s| && j != k ==> moved[j] == next[j];
      assert next[k] == s[k];
    }
  }

  /** Appending is inserting past the end. Deleting by content takes the first copy, so
      it undoes the append exactly when nothing but copies followed that first one; a
      rule that was new is the case where nothing followed. */
  lemma {:induction false} DeleteByContentAfterAppend(s: seq<Rule>, r: Rule)
    ensures DoAppend(s, r, true) == DoInsert(s, r, |s| + 1, true)
    ensures DoDelete(s + [r], r, -1, true) == Outcome(RemoveAt(s + [r], FirstSame(s, r)), 0)
    ensures DoDelete(s + [r], r, -1, true) == Outcome(s, 0) <==> forall j :: FirstSame(s, r) <= j < |s| ==> s[j] == r
  {
    assert InsertAt(s, |s|, r) == s + [r];
    var k := FirstSame(s, r);
    FirstIs(s + [r], r, k);
    if k < |s| {
      assert RemoveAt(s + [r], k) == RemoveAt(s, k) + [r];
      MovedToEnd(s, r, k);
    } else {
      assert RemoveAt(s + [r], k) == s;
    }
  }

  /** A rule that says nothing matches every packet of the four protocols the firewall
      knows, and no other. */
  lemma {:induction false} BlankRuleMatches(chain: int, action: int, p: Packet)
    ensures Matches(Rule(chain, 0, 0, 0, 0, 0, action, seq(8, _ => 0), [0, 0, 0, 0]), p)
      <==> p.protocol == TCP || p.protocol == UDP || p.protocol == ICMP || p.protocol == IGMP
  {
    var name: Name := seq(8, _ => 0);
    assert name[0] == 0 && CString(name, 8) == [];
  }

  // ------------------------------------------------------------- the tables

  datatype Answer = Answer(tables: Tables, err: int)

  predicate LegalAction(action: int) {
    0 <= action < ACTIONS
  }

  predicate LegalChain(chain: int) {
    0 <= chain < CHAINS
  }

  function OnChain(t: Tables, chain: int, o: Outcome): Answer
    requires LegalChain(chain)
  {
    Answer(t[chain := o.rules], o.err)
  }

  /** A command as it is received: an illegal action is refused where it would enter
      a table, an illegal chain everywhere. */
  function Do(t: Tables, cmd: Command, memory: bool): Answer {
    if (cmd.Append? || cmd.Insert? || cmd.Replace?) && !LegalAction(cmd.rule.action) then Answer(t, -EINVAL)
    else if cmd.Flush? && cmd.rule.chain == CHAIN_ALL then Answer([[], [], []], 0)
    else if !LegalChain(cmd.rule.chain) then Answer(t, -EINVAL)
    else
      var c, r := cmd.rule.chain, cmd.rule;
      match cmd
      case Append(_) => OnChain(t, c, DoAppend(t[c], r, memory))
      case Insert(_, number) => OnChain(t, c, DoInsert(t[c], r, number, memory))
      case Replace(_, number) => OnChain(t, c, DoReplace(t[c], r, number, memory))
      case Delete(_, number) => OnChain(t, c, DoDelete(t[c], r, number, memory))
      case Flush(_) => OnChain(t, c, Outcome([], 0))
  }

  /** A command that fails changes nothing. */
  lemma {:induction false} FailureChangesNothing(t: Tables, cmd: Command, memory: bool)
    requires Do(t, cmd, memory).err != 0
    ensures Do(t, cmd, memory).tables == t
  {
    if LegalChain(cmd.rule.chain) {
      var c := cmd.rule.chain;
      assert t[c := t[c]] == t;
    }
  }

  /** Every rule of table `i` is meant for chain `i` and has a legal action. */
  ghost predicate Proper(t: Tables) {
    forall i, r :: 0 <= i < CHAINS && r in t[i] ==> r.chain == i && LegalAction(r.action)
  }

  lemma {:induction false} DoKeeps(t: Tables, cmd: Command, memory: bool)
    requires Proper(t)
    ensures Proper(Do(t, cmd, memory).tables)
  {
    if LegalChain(cmd.rule.chain) {
      var c := cmd.rule.chain;
      var rules := Do(t, cmd, memory).tables[c];
      forall r | r in rules ensures r in t[c] || (r == cmd.rule && LegalAction(r.action)) {
      }
    }
  }
}
