/** The rule file: the snapshots of the three chains written one record per rule, and
    read back by appending each record to the chain it names. */
module SipfwFile {
  import opened Common
  import opened Sipfw

  /** A rule as it is written, without its link. */
  datatype Record = Record(chain: int, source: nat, dest: nat, sport: nat, dport: nat, protocol: nat, action: int,
                           ifname: Name, extra: Extra)

  /** Whole records, and whether part of another one follows. */
  datatype File = File(records: seq<Record>, torn: bool)

  function RecordOf(r: Rule): Record {
    Record(r.chain, r.source, r.dest, r.sport, r.dport, r.protocol, r.action, r.ifname, r.extra)
  }

  function RuleOf(r: Record): Rule {
    Rule(r.chain, r.source, r.dest, r.sport, r.dport, r.protocol, r.action, r.ifname, r.extra)
  }

  /** The chains and what packets see of them. */
  datatype State = State(tables: Tables, snapshots: seq<Option<seq<Rule>>>)

  function SnapshotOf(s: seq<Rule>): Option<seq<Rule>> {
    if s == [] then None else Some(s)
  }

  ghost predicate Agree(st: State) {
    |st.snapshots| == CHAINS && forall i :: 0 <= i < CHAINS ==> st.snapshots[i] == SnapshotOf(st.tables[i])
  }

  const NOTHING: State := State([[], [], []], [None, None, None])

  // ----------------------------------------------------------------- writing

  function Records(s: seq<Rule>): (r: seq<Record>)
    ensures |r| == |s| && forall i :: 0 <= i < |s| ==> r[i] == RecordOf(s[i])
  {
    if s == [] then [] else Records(s[..|s| - 1]) + [RecordOf(s[|s| - 1])]
  }

  /** The records of the first `n` chains. */
  function Saved(t: Tables, n: nat): seq<Record>
    requires n <= CHAINS
  {
    if n == 0 then [] else Saved(t, n - 1) + Records(t[n - 1])
  }

  /** Both loops, with every write succeeding. */
  method SaveRuleFile(st: State) returns (f: File)
    requires Agree(st)
    ensures f == File(Saved(st.tables, CHAINS), false)
  {
    var out: seq<Record> := [];
    for i := 0 to CHAINS
      invariant out == Saved(st.tables, i)
    {
      if st.snapshots[i].Some? {
        var copy := st.snapshots[i].value;
        ghost var before := out;
        for j := 0 to |copy|
          invariant out == before + Records(copy)[..j]
        {
          out := out + [RecordOf(copy[j])];
        }
      }
    }
    f := File(out, false);
  }

  // ----------------------------------------------------------------- reading

  predicate LegalRecord(r: Record) {
    LegalChain(r.chain) && LegalAction(r.action)
  }

  function Appended(t: Tables, r: Record): Tables
    requires LegalRecord(r)
  {
    t[r.chain := t[r.chain] + [RuleOf(r)]]
  }

  /** The tables after all records of a legal file. */
  function Loaded(t: Tables, records: seq<Record>): Tables
    requires forall i :: 0 <= i < |records| ==> LegalRecord(records[i])
  {
    if records == [] then t else Appended(Loaded(t, records[..|records| - 1]), records[|records| - 1])
  }

  ghost predicate LegalFile(f: File) {
    !f.torn && forall i :: 0 <= i < |f.records| ==> LegalRecord(f.records[i])
  }

  /** The read loop and the publishing loop. An illegal or torn file leaves the
      firewall with no rules at all. */
  method LoadRuleFile(st: State, f: File) returns (st': State, err: int)
    requires Agree(st)
    ensures Agree(st')
    ensures LegalFile(f) ==> err == 0 && st'.tables == Loaded(st.tables, f.records)
    ensures !LegalFile(f) ==> err == -EINVAL && st' == NOTHING
  {
    var t := st.tables;
    var i := 0;
    while i < |f.records|
      invariant i <= |f.records| && forall j :: 0 <= j < i ==> LegalRecord(f.records[j])
      invariant t == Loaded(st.tables, f.records[..i])
    {
      var r := f.records[i];
      if !LegalRecord(r) {
        return NOTHING, -EINVAL;
      }
      assert f.records[..i + 1][..i] == f.records[..i];
      t := Appended(t, r);
      i := i + 1;
    }
    assert f.records[..i] == f.records;
    if f.torn {
      return NOTHING, -EINVAL;
    }
    var snapshots := st.snapshots;
    LoadedGrows(st.tables, f.records);
    for c := 0 to CHAINS
      invariant |snapshots| == CHAINS
      invariant forall d :: 0 <= d < c ==> snapshots[d] == SnapshotOf(t[d])
      invariant forall d :: c <= d < CHAINS ==> snapshots[d] == st.snapshots[d]
    {
      if |t[c]| != 0 {
        snapshots := snapshots[c := Some(t[c])];
      }
    }
    return State(t, snapshots), 0;
  }

  lemma {:induction false} LoadedGrows(t: Tables, records: seq<Record>)
    requires forall i :: 0 <= i < |records| ==> LegalRecord(records[i])
    ensures forall c :: 0 <= c < CHAINS ==> t[c] <= Loaded(t, records)[c]
  {
    if records != [] { LoadedGrows(t, records[..|records| - 1]); }
  }

  // --------------------------------------------------------------- round trip

  lemma {:induction false} LoadedConcat(t: Tables, a: seq<Record>, b: seq<Record>)
    requires forall i :: 0 <= i < |a| ==> LegalRecord(a[i])
    requires forall i :: 0 <= i < |b| ==> LegalRecord(b[i])
    ensures forall i :: 0 <= i < |a + b| ==> LegalRecord((a + b)[i])
    ensures Loaded(t, a + b) == Loaded(Loaded(t, a), b)
    decreases |b|
  {
    if b == [] {
      assert a + b == a;
    } else {
      assert (a + b)[..|a + b| - 1] == a + b[..|b| - 1];
      LoadedConcat(t, a, b[..|b| - 1]);
    }
  }

  lemma {:induction false} OneRecord(t: Tables, front: seq<Rule>, last: Rule, c: nat)
    requires c < CHAINS && last.chain == c && LegalAction(last.action)
    ensures LegalRecord(RecordOf(last))
    ensures Appended(t[c := t[c] + front], RecordOf(last)) == t[c := t[c] + (front + [last])]
  {
    assert t[c] + front + [last] == t[c] + (front + [last]);
  }

  lemma {:induction false} LoadedSnoc(t: Tables, records: seq<Record>, r: Record)
    requires (forall i :: 0 <= i < |records| ==> LegalRecord(records[i])) && LegalRecord(r)
    ensures forall i :: 0 <= i < |records + [r]| ==> LegalRecord((records + [r])[i])
    ensures Loaded(t, records + [r]) == Appended(Loaded(t, records), r)
  {
    assert (records + [r])[..|records|] == records;
  }

  /** The records of one chain, read back, extend that chain by its rules. */
  lemma {:induction false} ChainRoundTrip(t: Tables, s: seq<Rule>, c: nat)
    requires c < CHAINS && forall r :: r in s ==> r.chain == c && LegalAction(r.action)
    ensures forall i :: 0 <= i < |s| ==> LegalRecord(Records(s)[i])
    ensures Loaded(t, Records(s)) == t[c := t[c] + s]
  {
    if s == [] {
      assert t[c] + s == t[c];
    } else {
      var front, last := s[..|s| - 1], s[|s| - 1];
      assert s == front + [last] && last in s;
      ChainRoundTrip(t, front, c);
      hide Loaded, Appended;
      OneRecord(t, front, last, c);
      LoadedSnoc(t, Records(front), RecordOf(last));
    }
  }

  /** The first `n` chains, the others empty. */
  function FirstChains(t: Tables, n: nat): Tables {
    [if n > 0 then t[0] else [], if n > 1 then t[1] else [], if n > 2 then t[2] else []]
  }

  lemma {:induction false} ChainsRoundTrip(t: Tables, n: nat)
    requires Proper(t) && n <= CHAINS
    ensures forall i :: 0 <= i < |Saved(t, n)| ==> LegalRecord(Saved(t, n)[i])
    ensures Loaded([[], [], []], Saved(t, n)) == FirstChains(t, n)
  {
    if n > 0 {
      ChainsRoundTrip(t, n - 1);
      ChainRoundTrip(FirstChains(t, n - 1), t[n - 1], n - 1);
      hide Loaded, Proper;
      LoadedConcat([[], [], []], Saved(t, n - 1), Records(t[n - 1]));
      OneMoreChain(t, n);
    }
  }

  lemma {:induction false} OneMoreChain(t: Tables, n: nat)
    requires 0 < n <= CHAINS
    ensures FirstChains(t, n - 1)[n - 1 := FirstChains(t, n - 1)[n - 1] + t[n - 1]] == FirstChains(t, n)
  {
    assert [] + t[n - 1] == t[n - 1];
  }

  /** The file written from any tables the commands can produce is never refused, and
      loading it into an empty firewall gives the same three chains back in order. */
  lemma {:induction false} RuleFileRoundTrip(t: Tables)
    requires Proper(t)
    ensures LegalFile(File(Saved(t, CHAINS), false))
    ensures Loaded([[], [], []], Saved(t, CHAINS)) == t
  {
    ChainsRoundTrip(t, CHAINS);
    assert FirstChains(t, CHAINS) == t;
  }

  // ---------------------------------------------------------------- every run

  lemma {:induction false} LoadedKeeps(t: Tables, records: seq<Record>)
    requires Proper(t) && forall i :: 0 <= i < |records| ==> LegalRecord(records[i])
    ensures Proper(Loaded(t, records))
  {
    if records != [] {
      LoadedKeeps(t, records[..|records| - 1]);
      var before, r := Loaded(t, records[..|records| - 1]), records[|records| - 1];
      forall i, x | 0 <= i < CHAINS && x in Appended(before, r)[i] ensures x.chain == i && LegalAction(x.action) {
        assert x in before[i] || (i == r.chain && x == RuleOf(r));
      }
    }
  }

  /** What changes the tables: a command, with whether memory for a snapshot was there,
      or a rule file. */
  datatype Event = Received(cmd: Command, memory: bool) | LoadedFile(f: File)

  ghost function AfterEvent(t: Tables, e: Event): Tables {
    match e
    case Received(cmd, memory) => Do(t, cmd, memory).tables
    case LoadedFile(f) => if LegalFile(f) then Loaded(t, f.records) else [[], [], []]
  }

  ghost predicate Run(trace: seq<Tables>, events: seq<Event>) {
    && |trace| == |events| + 1 && trace[0] == [[], [], []]
    && forall i :: 0 <= i < |events| ==> trace[i + 1] == AfterEvent(trace[i], events[i])
  }

  lemma {:induction false} EventKeeps(t: Tables, e: Event)
    requires Proper(t)
    ensures Proper(AfterEvent(t, e))
  {
    hide Do, Loaded;
    match e
    case Received(cmd, memory) => DoKeeps(t, cmd, memory);
    case LoadedFile(f) => if LegalFile(f) { LoadedKeeps(t, f.records); }
  }

  /** In every run of commands and file loads each rule is in the table of its own chain
      and has a legal action, so the tables can always be saved and loaded back. */
  lemma {:induction false} EveryTableIsProper(trace: seq<Tables>, events: seq<Event>, i: nat)
    requires Run(trace, events) && i < |trace|
    ensures Proper(trace[i])
    ensures LegalFile(File(Saved(trace[i], CHAINS), false))
    ensures Loaded([[], [], []], Saved(trace[i], CHAINS)) == trace[i]
  {
    hide AfterEvent, LegalFile, Loaded, Saved, Proper;
    if i > 0 {
      EveryTableIsProper(trace, events, i - 1);
      assert trace[i - 1 + 1] == AfterEvent(trace[i - 1], events[i - 1]);
      EventKeeps(trace[i - 1], events[i - 1]);
    } else {
      NothingIsProper();
    }
    RuleFileRoundTrip(trace[i]);
  }

  lemma {:induction false} NothingIsProper()
    ensures Proper([[], [], []])
  {
  }

  /** A record says in each field what the rule says. */
  lemma {:induction false} FieldsAreKept(r: Rule)
    ensures var f := RecordOf(r);
      && f.chain == r.chain && f.source == r.source && f.dest == r.dest && f.sport == r.sport && f.dport == r.dport
      && f.protocol == r.protocol && f.action == r.action && f.ifname == r.ifname && f.extra == r.extra
      && RuleOf(f) == r
  {
  }
}
