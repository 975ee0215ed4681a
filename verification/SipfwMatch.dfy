/** What a rule selects, field by field, and what a command does, position by position. */
module SipfwMatch {
  import opened Common
  import opened Machine
  import opened Sipfw

  // ------------------------------------------------------------ device names

  /** Byte `i` of a name as C sees it. */
  function CharAt(s: seq<Byte>, i: nat): Byte {
    if i < |s| then s[i] else 0
  }

  /** Two names agree up to and including the first zero, or in eight bytes. */
  ghost predicate SameName(a: seq<Byte>, b: seq<Byte>, n: nat) {
    forall i: nat :: i < n && (forall j: nat :: j < i ==> CharAt(a, j) != 0) ==> CharAt(a, i) == CharAt(b, i)
  }

  lemma {:induction false} SameNameTail(a: seq<Byte>, b: seq<Byte>, n: nat)
    requires n > 0 && CharAt(a, 0) == CharAt(b, 0) != 0
    ensures SameName(a, b, n) <==> SameName(a[1..], b[1..], n - 1)
  {
    assert forall i: nat :: CharAt(a[1..], i) == CharAt(a, i + 1) && CharAt(b[1..], i) == CharAt(b, i + 1);
    if SameName(a, b, n) {
      forall i: nat | i < n - 1 && (forall j: nat :: j < i ==> CharAt(a[1..], j) != 0)
        ensures CharAt(a[1..], i) == CharAt(b[1..], i)
      {
        forall j: nat | j < i + 1 ensures CharAt(a, j) != 0 {
          if j > 0 { assert CharAt(a[1..], j - 1) == CharAt(a, j); }
        }
      }
    }
    if SameName(a[1..], b[1..], n - 1) {
      forall i: nat | i < n && (forall j: nat :: j < i ==> CharAt(a, j) != 0) ensures CharAt(a, i) == CharAt(b, i) {
        if i > 0 {
          forall j: nat | j < i - 1 ensures CharAt(a[1..], j) != 0 {
            assert CharAt(a, j + 1) != 0;
          }
          assert CharAt(a[1..], i - 1) == CharAt(b[1..], i - 1);
        }
      }
    }
  }

  /** Comparing names as strings is comparing them byte by byte. */
  lemma {:induction false} NamesAgree(a: seq<Byte>, b: seq<Byte>, n: nat)
    ensures CString(a, n) == CString(b, n) <==> SameName(a, b, n)
  {
    if n > 0 {
      if CharAt(a, 0) == CharAt(b, 0) != 0 {
        SameNameTail(a, b, n);
        NamesAgree(a[1..], b[1..], n - 1);
        assert CString(a, n)[1..] == CString(a[1..], n - 1) && CString(b, n)[1..] == CString(b[1..], n - 1);
      } else if CharAt(a, 0) != CharAt(b, 0) {
        assert !SameName(a, b, n);
      } else {
        forall i: nat | i < n && (forall j: nat :: j < i ==> CharAt(a, j) != 0) ensures CharAt(a, i) == CharAt(b, i) {
          assert i == 0;
        }
      }
    }
  }

  ghost predicate Named(r: Rule, dev: Option<seq<Byte>>) {
    dev.Some? && SameName(r.ifname, dev.value, 8)
  }

  // --------------------------------------------------------- what a rule selects

  ghost predicate Flagged(flags: Byte, p: Packet) {
    && p.fin == (flags % 2 == 1) && p.syn == (flags / 2 % 2 == 1)
    && p.rst == (flags / 4 % 2 == 1) && p.ack == (flags / 16 % 2 == 1)
  }

  /** Every field that is set selects by its own part of the packet; a field that is zero
      selects nothing. Only TCP, UDP, ICMP and IGMP are ever matched. */
  lemma {:induction false} FieldsSelect(r: Rule, p: Packet)
    requires Matches(r, p)
    ensures r.source != 0 ==> p.source == r.source
    ensures r.dest != 0 ==> p.dest == r.dest
    ensures r.protocol != 0 ==> p.protocol == r.protocol
    ensures p.protocol == 6 || p.protocol == 17 || p.protocol == 1 || p.protocol == 2
    ensures (p.protocol == 6 || p.protocol == 17) && r.sport != 0 ==> p.sport == r.sport
    ensures (p.protocol == 6 || p.protocol == 17) && r.dport != 0 ==> p.dport == r.dport
    ensures p.protocol == 6 && r.extra != [0, 0, 0, 0] ==> Flagged(r.extra[1], p)
    ensures (p.protocol == 1 || p.protocol == 2) && r.extra != [0, 0, 0, 0] ==>
      p.icmpType == r.extra[1] && p.icmpCode == r.extra[2]
    ensures r.ifname[0] != 0 && r.chain == 0 ==> Named(r, p.inDev)
    ensures r.ifname[0] != 0 && r.chain == 1 ==> Named(r, p.outDev)
    ensures r.ifname[0] != 0 && r.chain == 2 ==> Named(r, p.inDev) || Named(r, p.outDev)
    ensures r.ifname[0] != 0 ==> 0 <= r.chain <= 2
  {
    ExtraIsSet(r);
    if p.inDev.Some? { NamesAgree(r.ifname, p.inDev.value, 8); }
    if p.outDev.Some? { NamesAgree(r.ifname, p.outDev.value, 8); }
    hide SameName;
    assert CString(r.ifname, 8) == [] <==> r.ifname[0] == 0;
  }

  lemma {:induction false} ExtraIsSet(r: Rule)
    ensures HasExtra(r) <==> r.extra != [0, 0, 0, 0]
  {
    if !HasExtra(r) { assert r.extra == [0, 0, 0, 0]; }
  }

  function FlagsOf(p: Packet): Byte {
    (if p.fin then 1 else 0) + (if p.syn then 2 else 0) + (if p.rst then 4 else 0) + (if p.ack then 16 else 0)
  }

  /** Rule `r` says of packet `p` what is so, or nothing. */
  ghost predicate ReadOff(r: Rule, p: Packet) {
    && (r.source == 0 || r.source == p.source) && (r.dest == 0 || r.dest == p.dest)
    && (r.protocol == 0 || r.protocol == p.protocol)
    && (r.sport == 0 || r.sport == p.sport) && (r.dport == 0 || r.dport == p.dport)
    && (r.extra == [0, 0, 0, 0]
        || (p.protocol == 6 && r.extra[1] == FlagsOf(p))
        || p.protocol == 17
        || ((p.protocol == 1 || p.protocol == 2) && r.extra[1] == p.icmpType && r.extra[2] == p.icmpCode))
    && (r.ifname[0] == 0
        || (r.chain == 0 && Named(r, p.inDev)) || (r.chain == 1 && Named(r, p.outDev))
        || (r.chain == 2 && (Named(r, p.inDev) || Named(r, p.outDev))))
  }

  lemma {:induction false} FlagsBack(p: Packet)
    ensures var b := FlagsOf(p);
      Bit(b, 0) == p.fin && Bit(b, 1) == p.syn && Bit(b, 2) == p.rst && Bit(b, 4) == p.ack
  {
  }

  /** Conversely, a rule whose fields are read off a packet of a known protocol, each of
      them or none, matches it. */
  lemma {:induction false} ReadOffMatches(r: Rule, p: Packet)
    requires ReadOff(r, p) && (p.protocol == 6 || p.protocol == 17 || p.protocol == 1 || p.protocol == 2)
    ensures Matches(r, p)
  {
    FlagsBack(p);
    ExtraIsSet(r);
    if p.inDev.Some? { NamesAgree(r.ifname, p.inDev.value, 8); }
    if p.outDev.Some? { NamesAgree(r.ifname, p.outDev.value, 8); }
    hide SameName, FlagsOf;
    assert CString(r.ifname, 8) == [] <==> r.ifname[0] == 0;
  }

  const NO_NAME: Name := seq(8, _ => 0)

  /** Clearing a field of a rule only widens what it matches. */
  lemma {:induction false} ClearingWidens(r: Rule, p: Packet)
    requires Matches(r, p)
    ensures Matches(r.(source := 0), p) && Matches(r.(dest := 0), p) && Matches(r.(protocol := 0), p)
    ensures Matches(r.(sport := 0), p) && Matches(r.(dport := 0), p)
    ensures Matches(r.(extra := [0, 0, 0, 0]), p) && Matches(r.(ifname := NO_NAME), p)
  {
    assert CString(NO_NAME, 8) == [];
    hide CString;
  }

  // -------------------------------------------------- what a command does

  /** Insertion and removal move what comes after by one place, and nothing else. */
  lemma {:induction false} Positions(s: seq<Rule>, k: nat, r: Rule, j: nat)
    requires k <= |s| && j < |s|
    ensures |InsertAt(s, k, r)| == |s| + 1 && InsertAt(s, k, r)[k] == r
    ensures InsertAt(s, k, r)[if j < k then j else j + 1] == s[j]
    ensures k < |s| ==> |RemoveAt(s, k)| == |s| - 1
    ensures k < |s| && j != k ==> RemoveAt(s, k)[if j < k then j else j - 1] == s[j]
  {
  }

  /** When each command succeeds, and with which error it fails otherwise. An emptied
      chain needs no memory. */
  lemma {:induction false} SucceedsExactly(t: Tables, cmd: Command, memory: bool)
    ensures var c, a, err := cmd.rule.chain, cmd.rule.action, Do(t, cmd, memory).err;
      match cmd
      case Append(_) => err == if !(0 <= a <= 5 && 0 <= c <= 2) then -22 else if memory then 0 else -12
      case Insert(_, n) =>
        err == if !(0 <= a <= 5 && 0 <= c <= 2) || n <= 0 then -22 else if memory then 0 else -12
      case Replace(_, n) =>
        err == if !(0 <= a <= 5 && 0 <= c <= 2) || n <= 0 then -22
               else if n > |t[c]| then -2 else if memory then 0 else -12
      case Delete(r, n) =>
        err == if !(0 <= c <= 2) then -22
               else if n == -1 && r !in t[c] then -2
               else if n != -1 && !(1 <= n <= |t[c]|) then -2
               else if memory || |t[c]| == 1 then 0 else -12
      case Flush(_) => err == if 0 <= c <= 3 then 0 else -22
  {
    if LegalChain(cmd.rule.chain) {
      var k := FirstSame(t[cmd.rule.chain], cmd.rule);
      assert k < |t[cmd.rule.chain]| <==> cmd.rule in t[cmd.rule.chain];
    }
  }

  /** A command that succeeds changes its own chain only: by the rule at the end, at its
      place, in place of another, without one, or to nothing. */
  lemma {:induction false} ChangesOneChain(t: Tables, cmd: Command, memory: bool)
    requires Do(t, cmd, memory).err == 0
    ensures var t' := Do(t, cmd, memory).tables; var c := cmd.rule.chain;
      && (forall i :: 0 <= i < 3 && i != c && !(cmd.Flush? && c == 3) ==> t'[i] == t[i])
      && match cmd
         case Append(r) => t'[c] == t[c] + [r]
         case Insert(r, n) => t'[c] == InsertAt(t[c], Min(n - 1, |t[c]|), r)
         case Replace(r, n) => t'[c] == t[c][n - 1 := r]
         case Delete(r, n) => t'[c] == RemoveAt(t[c], if n == -1 then FirstSame(t[c], r) else n - 1)
         case Flush(_) => forall i :: 0 <= i < 3 && (i == c || c == 3) ==> t'[i] == []
  {
    SucceedsExactly(t, cmd, memory);
  }
}
