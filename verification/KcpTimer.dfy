/** The timer scheduler that drives every KCP session: a min-heap of due times whose
    outdated nodes are skipped when they come up, and one armed tick. */
module KcpTimer {
  import opened Machine
  import opened KcpProtocol
  import Clock = KcpClock
  import Session = KcpSession
  import Wire = KcpWire

  type Key = nat

  datatype Node = Node(due: nat, sched: nat, key: Key)

  datatype Entry = Entry(k: Kcb, lastActive: nat, nextDue: nat, sched: nat)

  /** The nodes in some order: the front of the heap is any node that is due first.
      `armedDue` is 0 when no tick is armed. */
  datatype Manager = Manager(sessions: map<Key, Entry>, heap: seq<Node>, armedDue: nat, armedSeq: nat)

  // ------------------------------------------------------------- clock readings

  function KcpNow(mono: nat): U32 {
    Wrap(mono)
  }

  predicate Reached(now: U32, due: U32) {
    TimeDiff(now, due) >= 0
  }

  function Delay(now: U32, due: U32): nat {
    if Reached(now, due) then 1 else Wrap(due - now)
  }

  /** A session is never scheduled later than its interval, nor for the present. */
  lemma {:induction false} DelayIsBounded(k: Kcb, now: U32)
    ensures 1 <= Delay(now, Check(k, now)) <= Max(1, k.cfg.interval)
  {
    Clock.CheckBounds(k, now);
    var due := Check(k, now);
    if !Reached(now, due) {
      assert due != now by { SameTimeIsReached(now); }
      DifferentTimes(now, due);
    }
  }

  lemma {:induction false} SameTimeIsReached(now: U32)
    ensures Reached(now, now)
  {
    WrapUnique(0, 0);
  }

  lemma {:induction false} DifferentTimes(now: U32, due: U32)
    requires now != due
    ensures Wrap(due - now) != 0
  {
    if due > now { WrapUnique(due - now, 0); } else { WrapUnique(due - now, -1); }
  }

  // ------------------------------------------------------------- scheduling

  /** Arms a tick, unless one is armed that comes no later. */
  function Arm(m: Manager, due: nat): Manager {
    if m.armedDue != 0 && due >= m.armedDue then m
    else m.(armedDue := due, armedSeq := m.armedSeq + 1)
  }

  function Rescheduled(e: Entry, mono: nat): Entry {
    e.(nextDue := mono + Delay(KcpNow(mono), Check(e.k, KcpNow(mono))), sched := e.sched + 1)
  }

  function Schedule(m: Manager, key: Key, mono: nat): Manager
    requires key in m.sessions
  {
    var e := Rescheduled(m.sessions[key], mono);
    Arm(m.(sessions := m.sessions[key := e], heap := m.heap + [Node(e.nextDue, e.sched, key)]), e.nextDue)
  }

  /** A session whose node has come up: updated if it asks for it, and rescheduled. */
  function Served(e: Entry, mono: nat, cwnd: nat): Entry {
    Rescheduled(Updated(e, mono, cwnd), mono)
  }

  /** A session whose flush time has come is flushed when it is served, and one whose
      time has not come keeps everything but its clock. */
  lemma {:induction false} ServingFlushesOnTime(e: Entry, mono: nat, cwnd: nat)
    ensures var now := KcpNow(mono);
      && (TickFlushes(e.k.tm, now) ==> Served(e, mono, cwnd).k == Flush(Ticked(e.k, now), cwnd))
      && (!Reached(now, Check(e.k, now)) ==> Served(e, mono, cwnd).k == e.k && !TickFlushes(e.k.tm, now))
  {
    SameTimeIsReached(KcpNow(mono));
    hide Flush, NextPacket;
  }

  // ------------------------------------------------------------ the invariant

  ghost predicate HasNode(m: Manager, key: Key)
    requires key in m.sessions
  {
    Node(m.sessions[key].nextDue, m.sessions[key].sched, key) in m.heap
  }

  /** Every session that was ever scheduled has a live node. */
  ghost predicate Live(m: Manager) {
    && (forall key :: key in m.sessions && m.sessions[key].sched > 0 ==> HasNode(m, key))
    && (forall n :: n in m.heap ==> n.sched > 0)
  }

  /** A tick is armed, no later than anything in the heap. */
  ghost predicate Armed(m: Manager) {
    m.armedDue != 0 && forall n :: n in m.heap ==> m.armedDue <= n.due
  }

  lemma {:induction false} ArmKeeps(m: Manager, due: nat)
    requires due > 0
    ensures Live(m) ==> Live(Arm(m, due))
    ensures Arm(m, due).armedDue != 0 && Arm(m, due).armedDue <= due
    ensures m.armedDue != 0 ==> Arm(m, due).armedDue <= m.armedDue
    ensures m.armedDue == 0 ==> Arm(m, due).armedDue == due
    ensures Arm(m, due) != m ==> Arm(m, due).armedSeq > m.armedSeq
  {
  }

  lemma {:induction false} ScheduleKeeps(m: Manager, key: Key, mono: nat)
    requires key in m.sessions
    ensures Live(m) ==> Live(Schedule(m, key, mono))
    ensures Armed(m) ==> Armed(Schedule(m, key, mono))
    ensures mono < Schedule(m, key, mono).sessions[key].nextDue <= mono + Max(1, m.sessions[key].k.cfg.interval)
  {
    DelayIsBounded(m.sessions[key].k, KcpNow(mono));
    hide Delay, Check;
    var m', e := Schedule(m, key, mono), Rescheduled(m.sessions[key], mono);
    if Live(m) {
      forall x | x in m'.sessions && m'.sessions[x].sched > 0 ensures HasNode(m', x) {
        if x != key { assert HasNode(m, x); }
      }
    }
  }

  // -------------------------------------------------------------- the tick loop

  /** Nodes that are due. */
  function DueCount(heap: seq<Node>, mono: nat): nat {
    if heap == [] then 0
    else DueCount(heap[..|heap| - 1], mono) + if heap[|heap| - 1].due <= mono then 1 else 0
  }

  lemma {:induction false} DueCountConcat(a: seq<Node>, b: seq<Node>, mono: nat)
    ensures DueCount(a + b, mono) == DueCount(a, mono) + DueCount(b, mono)
    decreases |b|
  {
    if b == [] {
      assert a + b == a;
    } else {
      assert (a + b)[..|a + b| - 1] == a + b[..|b| - 1];
      DueCountConcat(a, b[..|b| - 1], mono);
    }
  }

  /** Taking a due node out lowers the count by one. */
  lemma {:induction false} DueCountWithout(heap: seq<Node>, i: nat, mono: nat)
    requires i < |heap| && heap[i].due <= mono
    ensures DueCount(heap[..i] + heap[i + 1..], mono) == DueCount(heap, mono) - 1
  {
    assert heap == heap[..i] + ([heap[i]] + heap[i + 1..]);
    DueCountConcat(heap[..i], [heap[i]] + heap[i + 1..], mono);
    DueCountConcat([heap[i]], heap[i + 1..], mono);
    DueCountConcat(heap[..i], heap[i + 1..], mono);
  }

  lemma {:induction false} DueCountLater(heap: seq<Node>, n: Node, mono: nat)
    requires n.due > mono
    ensures DueCount(heap + [n], mono) == DueCount(heap, mono)
  {
    DueCountConcat(heap, [n], mono);
  }

  ghost predicate IsDue(e: Entry, mono: nat) {
    e.sched > 0 && e.nextDue <= mono
  }

  /** A session is as it was, or was due, has been served once, and is due later. */
  ghost predicate ServedOnce(before: Entry, after: Entry, mono: nat, cwnd: nat) {
    after == before || (IsDue(before, mono) && after == Served(before, mono, cwnd) && after.nextDue > mono)
  }

  ghost predicate AllServedOnce(before: map<Key, Entry>, after: map<Key, Entry>, mono: nat, cwnd: Key -> nat) {
    && after.Keys == before.Keys
    && forall key :: key in before ==> ServedOnce(before[key], after[key], mono, cwnd(key))
  }

  /** The index of a node that is due first. */
  method Front(heap: seq<Node>) returns (i: nat)
    requires heap != []
    ensures i < |heap| && forall n :: n in heap ==> heap[i].due <= n.due
  {
    i := 0;
    var j := 1;
    while j < |heap|
      invariant i < |heap| && 1 <= j <= |heap|
      invariant forall x :: 0 <= x < j ==> heap[i].due <= heap[x].due
    {
      if heap[j].due < heap[i].due { i := j; }
      j := j + 1;
    }
  }

  function Popped(m: Manager, i: nat): Manager
    requires i < |m.heap|
  {
    m.(heap := m.heap[..i] + m.heap[i + 1..])
  }

  lemma {:induction false} PoppedElements(m: Manager, i: nat)
    requires i < |m.heap|
    ensures forall n :: n in Popped(m, i).heap ==> n in m.heap
    ensures forall n :: n in m.heap && n != m.heap[i] ==> n in Popped(m, i).heap
  {
    assert m.heap == m.heap[..i] + [m.heap[i]] + m.heap[i + 1..];
  }

  ghost predicate IsLive(m: Manager, n: Node) {
    n.key in m.sessions && m.sessions[n.key].sched == n.sched && m.sessions[n.key].nextDue == n.due
  }

  /** What a turn of the loop makes of a due node. */
  function Turn(m: Manager, i: nat, mono: nat, cwnd: Key -> nat): Manager
    requires i < |m.heap|
  {
    var n, p := m.heap[i], Popped(m, i);
    if n.key in m.sessions && m.sessions[n.key].sched == n.sched && m.sessions[n.key].nextDue == n.due
    then Schedule(p.(sessions := p.sessions[n.key := Updated(p.sessions[n.key], mono, cwnd(n.key))]), n.key, mono)
    else p
  }

  /** The entry a live node's session has once it has been served, before it is
      scheduled again. */
  function Updated(e: Entry, mono: nat, cwnd: nat): Entry {
    var now := KcpNow(mono);
    e.(k := if Reached(now, Check(e.k, now)) then Update(e.k, now, cwnd) else e.k)
  }

  lemma {:induction false} PoppedStaysLive(m: Manager, i: nat, x: Key)
    requires Live(m) && i < |m.heap| && x in m.sessions && m.sessions[x].sched > 0 && x != m.heap[i].key
    ensures HasNode(Popped(m, i), x)
  {
    assert HasNode(m, x);
    PoppedElements(m, i);
  }

  /** A live node is replaced by the session's next one. */
  lemma {:induction false} LiveTurnKeeps(m: Manager, i: nat, mono: nat, e: Entry)
    requires Live(m) && i < |m.heap| && m.heap[i].due <= mono && m.heap[i].key in m.sessions
    ensures var m1 := Popped(m, i).(sessions := m.sessions[m.heap[i].key := e]);
      var m' := Schedule(m1, m.heap[i].key, mono);
      Live(m') && DueCount(m'.heap, mono) == DueCount(m.heap, mono) - 1
  {
    hide DueCount, Check, Delay;
    var key, p := m.heap[i].key, Popped(m, i);
    var m1 := p.(sessions := m.sessions[key := e]);
    var m', e' := Schedule(m1, key, mono), Rescheduled(e, mono);
    DueCountWithout(m.heap, i, mono);
    DelayIsBounded(e.k, KcpNow(mono));
    DueCountLater(p.heap, Node(e'.nextDue, e'.sched, key), mono);
    PoppedElements(m, i);
    forall x | x in m'.sessions && m'.sessions[x].sched > 0 ensures HasNode(m', x) {
      if x != key { PoppedStaysLive(m, i, x); }
    }
  }

  /** A turn leaves every session with its node, and one node fewer due. */
  lemma {:induction false} TurnKeeps(m: Manager, i: nat, mono: nat, cwnd: Key -> nat)
    requires Live(m) && i < |m.heap| && m.heap[i].due <= mono
    ensures Live(Turn(m, i, mono, cwnd)) && DueCount(Turn(m, i, mono, cwnd).heap, mono) == DueCount(m.heap, mono) - 1
  {
    hide DueCount, Update, Check, Schedule;
    var n := m.heap[i];
    if IsLive(m, n) {
      LiveTurnKeeps(m, i, mono, Updated(m.sessions[n.key], mono, cwnd(n.key)));
    } else {
      DueCountWithout(m.heap, i, mono);
      PoppedElements(m, i);
      forall x | x in m.sessions && m.sessions[x].sched > 0 ensures HasNode(Popped(m, i), x) {
        assert HasNode(m, x);
      }
    }
  }

  /** No session is served twice in one tick, and none before it is due. */
  lemma {:induction false} TurnServes(m: Manager, i: nat, before: map<Key, Entry>, mono: nat, cwnd: Key -> nat)
    requires Live(m) && i < |m.heap| && m.heap[i].due <= mono && AllServedOnce(before, m.sessions, mono, cwnd)
    ensures AllServedOnce(before, Turn(m, i, mono, cwnd).sessions, mono, cwnd)
  {
    var n := m.heap[i];
    hide Update, Check, Popped, Delay;
    if IsLive(m, n) {
      assert m.heap[i] in m.heap;
      assert ServedOnce(before[n.key], m.sessions[n.key], mono, cwnd(n.key));
      DelayIsBounded(Updated(before[n.key], mono, cwnd(n.key)).k, KcpNow(mono));
    }
  }

  ghost predicate NothingDue(m: Manager, mono: nat) {
    forall n :: n in m.heap ==> n.due > mono
  }

  /** The loop: due nodes come up one by one until the front is not due. */
  method ServeDue(m: Manager, mono: nat, cwnd: Key -> nat) returns (m': Manager)
    requires Live(m)
    ensures Live(m') && AllServedOnce(m.sessions, m'.sessions, mono, cwnd) && NothingDue(m', mono)
    ensures m'.heap != [] ==> m'.armedDue != 0 && Armed(m')
    ensures m.armedDue == 0 ==> ArmedForNode(m', mono)
  {
    hide Turn, DueCount, Live, ArmedForNode;
    m' := m;
    if m.armedDue == 0 { NotArmed(m, mono); }
    while m'.heap != []
      invariant Live(m') && AllServedOnce(m.sessions, m'.sessions, mono, cwnd)
      invariant m.armedDue == 0 ==> ArmedForNode(m', mono)
      decreases DueCount(m'.heap, mono)
    {
      var i := Front(m'.heap);
      if m'.heap[i].due > mono {
        ArmFirst(m', i);
        if m.armedDue == 0 { ArmForNode(m', i, mono); }
        m' := Arm(m', m'.heap[i].due);
        return;
      }
      TurnKeeps(m', i, mono, cwnd);
      TurnServes(m', i, m.sessions, mono, cwnd);
      if m.armedDue == 0 { TurnArms(m', i, mono, cwnd); }
      m' := Turn(m', i, mono, cwnd);
    }
  }

  lemma {:induction false} NotArmed(m: Manager, mono: nat)
    requires m.armedDue == 0
    ensures ArmedForNode(m, mono)
  {
  }

  lemma {:induction false} ArmForNode(m: Manager, i: nat, mono: nat)
    requires i < |m.heap| && m.heap[i].due > mono && ArmedForNode(m, mono)
    ensures ArmedForNode(Arm(m, m.heap[i].due), mono)
  {
    assert m.heap[i] in m.heap;
  }

  lemma {:induction false} ArmFirst(m: Manager, i: nat)
    requires i < |m.heap| && m.heap[i].due > 0 && forall n :: n in m.heap ==> m.heap[i].due <= n.due
    ensures Armed(Arm(m, m.heap[i].due)) && (Live(m) ==> Live(Arm(m, m.heap[i].due)))
  {
    ArmKeeps(m, m.heap[i].due);
  }

  /** One tick: afterwards a tick is armed again, every due session has been served
      exactly once, and no session is overdue. */
  method HandleTick(m: Manager, mono: nat, fallback: nat, cwnd: Key -> nat) returns (m': Manager)
    requires Live(m) && mono > 0
    ensures Live(m') && Armed(m') && NothingDue(m', mono) && m'.sessions.Keys == m.sessions.Keys
    ensures forall key :: key in m.sessions ==>
      m'.sessions[key] == if IsDue(m.sessions[key], mono) then Served(m.sessions[key], mono, cwnd(key)) else m.sessions[key]
    ensures forall key :: key in m'.sessions ==> !IsDue(m'.sessions[key], mono)
    ensures m.armedDue == 0 && m'.heap != [] ==> exists n :: n in m'.heap && n.due == m'.armedDue
    ensures m.armedDue == 0 && m'.heap == [] ==> m'.armedDue == mono + fallback
  {
    m' := ServeDue(m, mono, cwnd);
    if m'.heap == [] {
      ArmKeeps(m', mono + fallback);
      m' := Arm(m', mono + fallback);
    }
    hide Served;
    forall key | key in m'.sessions ensures !IsDue(m'.sessions[key], mono) {
      assert m'.sessions[key].sched > 0 ==> HasNode(m', key);
    }
    assert forall key :: key in m.sessions ==> ServedOnce(m.sessions[key], m'.sessions[key], mono, cwnd(key));
  }

  // ----------------------------------------------------------- idle sessions

  const WORD64: nat := 0x1_0000_0000_0000_0000

  /** The 64-bit difference of two clock readings. */
  function Age(mono: nat, last: nat): nat {
    (mono - last) % WORD64
  }

  method CollectIdle(sessions: map<Key, Entry>, mono: nat, idleTimeout: nat) returns (left: map<Key, Entry>)
    ensures forall key :: key in left <==> key in sessions && Age(mono, sessions[key].lastActive) < idleTimeout
    ensures forall key :: key in left ==> left[key] == sessions[key]
    ensures forall key :: key in sessions && sessions[key].lastActive <= mono < WORD64 ==>
      (key in left <==> mono < sessions[key].lastActive + idleTimeout)
  {
    left := sessions;
    var todo := sessions.Keys;
    while todo != {}
      invariant todo <= sessions.Keys
      invariant forall key :: key in left <==> key in sessions && (key in todo || Age(mono, sessions[key].lastActive) < idleTimeout)
      invariant forall key :: key in left ==> left[key] == sessions[key]
      decreases |todo|
    {
      var key :| key in todo;
      todo := todo - {key};
      if Age(mono, sessions[key].lastActive) >= idleTimeout {
        left := left - {key};
      }
    }
  }

  class KcpManager {
    const idleTimeout: nat
    const fallback: nat
    var running: bool
    var m: Manager
    var nextGc: nat

    ghost predicate Valid()
      reads this
    {
      Live(m) && (running ==> Armed(m))
    }

    /** Started: the first tick is armed. */
    constructor (idleTimeout: nat, fallback: nat, mono: nat)
      requires mono > 0
      ensures Valid() && running && m.sessions == map[] && m.armedDue == mono + fallback && nextGc == mono + 1000
      ensures this.idleTimeout == idleTimeout && this.fallback == fallback
    {
      this.idleTimeout, this.fallback, running := idleTimeout, fallback, true;
      nextGc := mono + 1000;
      m := Arm(Manager(map[], [], 0, 0), mono + fallback);
    }

    method Stop()
      modifies this
      ensures Valid() && !running && m.sessions == map[] && m.heap == []
    {
      running, m, nextGc := false, Manager(map[], [], 0, 0), 0;
    }

    /** A session as it is found, or created with its configuration. */
    function Found(key: Key, cfg: Config, mono: nat): Entry
      reads this`m
    {
      if key in m.sessions then m.sessions[key] else Entry(Create(cfg), mono, 0, 0)
    }

    /** The session of `key` becomes `e`, and is scheduled if asked. */
    method Touch(key: Key, e: Entry, schedule: bool, mono: nat)
      requires Valid() && running
      requires if key in m.sessions then e.sched == m.sessions[key].sched && e.nextDue == m.sessions[key].nextDue
               else e.sched == 0
      modifies this`m
      ensures Valid() && key in m.sessions && m.armedDue <= old(m).armedDue
      ensures m.sessions[key].k == e.k && m.sessions[key].lastActive == e.lastActive
      ensures schedule ==> m.sessions[key].sched > 0 && mono < m.sessions[key].nextDue <= mono + Max(1, e.k.cfg.interval)
      ensures !schedule ==> m == old(m).(sessions := old(m).sessions[key := e])
      ensures forall x :: x in old(m).sessions && x != key ==> x in m.sessions && m.sessions[x] == old(m).sessions[x]
    {
      var m1 := m.(sessions := m.sessions[key := e]);
      TouchKeeps(m, key, e);
      if schedule {
        ScheduleKeeps(m1, key, mono);
        hide Delay, Check;
        m := Schedule(m1, key, mono);
      } else {
        m := m1;
      }
    }

    /** A datagram. One too short for an identifier is dropped; a refused one is not
        followed by a schedule; after an accepted one the complete messages are handed
        on and the session is scheduled. */
    method HandlePacket(key: Key, cfg: Config, conv: Conv, b: seq<Byte>, mono: nat, rto: U32, cwnd: nat, next: nat)
      returns (msgs: seq<Message>)
      requires Valid() && running
      modifies this`m
      ensures Valid() && m.armedDue <= old(m).armedDue
      ensures |b| < Wire.CONV_BYTES ==> m == old(m) && msgs == []
      ensures |b| >= Wire.CONV_BYTES ==>
        var e := old(Found(key, cfg, mono));
        var r := Session.InputPacket(e.k, conv, b, KcpNow(mono), rto, cwnd, next);
        && key in m.sessions && m.sessions[key].lastActive == mono
        && if r.code < 0 then
             msgs == [] && m == old(m).(sessions := old(m).sessions[key := e.(k := r.k, lastActive := mono)])
           else
             && Session.Drained(r.k) == Session.Drain(m.sessions[key].k, msgs) && m.sessions[key].sched > 0
             && mono < m.sessions[key].nextDue <= mono + Max(1, e.k.cfg.interval)
      ensures forall x :: x in old(m).sessions && x != key ==> x in m.sessions && m.sessions[x] == old(m).sessions[x]
    {
      msgs := [];
      if |b| < Wire.CONV_BYTES { return; }
      var e := Found(key, cfg, mono);
      hide Session.InputPacket, Session.Drained;
      Session.ConfigStays(e.k, conv, b, KcpNow(mono), rto, cwnd, next);
      var r := Session.InputPacket(e.k, conv, b, KcpNow(mono), rto, cwnd, next);
      if r.code < 0 {
        Touch(key, e.(k := r.k, lastActive := mono), false, mono);
        return;
      }
      var k;
      k, msgs := Session.DrainMessages(r.k);
      Touch(key, e.(k := k, lastActive := mono), true, mono);
    }

    /** A message of the application. An empty one touches nothing; a refused one is not
        followed by a schedule. */
    method SendInLoop(key: Key, cfg: Config, data: Message, mono: nat, cwnd: nat) returns (ok: bool)
      requires Valid() && running && Found(key, cfg, mono).k.cfg.Mss() > 0
      modifies this`m
      ensures Valid() && m.armedDue <= old(m).armedDue
      ensures data == [] ==> !ok && m == old(m)
      ensures data != [] ==>
        var e := old(Found(key, cfg, mono));
        var r := Session.SendAppData(e.k, data, KcpNow(mono), cwnd);
        && ok == (r.code >= 0) && key in m.sessions
        && m.sessions[key].k == r.k && m.sessions[key].lastActive == mono
        && (ok ==> m.sessions[key].sched > 0 && mono < m.sessions[key].nextDue <= mono + Max(1, e.k.cfg.interval))
        && (!ok ==> m == old(m).(sessions := old(m).sessions[key := e.(lastActive := mono)]))
      ensures forall x :: x in old(m).sessions && x != key ==> x in m.sessions && m.sessions[x] == old(m).sessions[x]
    {
      if |data| == 0 { return false; }
      var e := Found(key, cfg, mono);
      hide Session.SendAppData;
      Session.SendRefusesExactly(e.k, data, KcpNow(mono), cwnd);
      var r := Session.SendAppData(e.k, data, KcpNow(mono), cwnd);
      ok := r.code >= 0;
      Touch(key, e.(k := r.k, lastActive := mono), ok, mono);
    }

    /** A timer fires. Only the tick armed last counts. */
    method Fire(tickSeq: nat, mono: nat, cwnd: Key -> nat)
      requires Valid() && mono > 0
      modifies this
      ensures Valid()
      ensures !old(running) || tickSeq != old(m).armedSeq ==> m == old(m)
      ensures old(running) && tickSeq == old(m).armedSeq ==>
        && (forall n :: n in m.heap ==> n.due > mono) && m.sessions.Keys <= old(m).sessions.Keys
        && (forall key :: key in m.sessions ==> !IsDue(m.sessions[key], mono))
        && (forall key :: key in m.sessions && IsDue(old(m).sessions[key], mono) ==>
              m.sessions[key] == Served(old(m).sessions[key], mono, cwnd(key)))
        && (m.heap != [] ==> exists n :: n in m.heap && n.due == m.armedDue)
      ensures old(running) && tickSeq == old(m).armedSeq ==>
        if idleTimeout != 0 && (old(nextGc) == 0 || mono >= old(nextGc)) then
          && nextGc == mono + 1000
          && forall key :: key in m.sessions <==>
               key in old(m).sessions && Age(mono, old(m).sessions[key].lastActive) < idleTimeout
        else nextGc == old(nextGc) && m.sessions.Keys == old(m).sessions.Keys
    {
      if !running || tickSeq != m.armedSeq { return; }
      hide Served, Live, Armed, NothingDue, IsDue;
      var m1 := HandleTick(m.(armedDue := 0), mono, fallback, cwnd);
      ServedActive(m.sessions, m1.sessions, mono, cwnd);
      NothingIsDue(m1, mono);
      m := m1;
      MaybeCollectIdle(mono);
    }

    /** Once a second, sessions that have been idle too long are dropped. */
    method MaybeCollectIdle(mono: nat)
      requires Valid()
      modifies this
      ensures Valid() && running == old(running) && m == old(m).(sessions := m.sessions)
      ensures forall key :: key in m.sessions ==> key in old(m).sessions && m.sessions[key] == old(m).sessions[key]
      ensures if idleTimeout != 0 && (old(nextGc) == 0 || mono >= old(nextGc)) then
          && nextGc == mono + 1000
          && forall key :: key in m.sessions <==>
               key in old(m).sessions && Age(mono, old(m).sessions[key].lastActive) < idleTimeout
        else nextGc == old(nextGc) && m == old(m)
    {
      if idleTimeout != 0 && !(nextGc != 0 && mono < nextGc) {
        nextGc := mono + 1000;
        var left := CollectIdle(m.sessions, mono, idleTimeout);
        LessIsLive(m, left);
        m := m.(sessions := left);
      }
    }
  }

  lemma {:induction false} LessIsLive(m: Manager, left: map<Key, Entry>)
    requires Live(m) && forall key :: key in left ==> key in m.sessions && left[key] == m.sessions[key]
    ensures Live(m.(sessions := left))
  {
    forall key | key in left && left[key].sched > 0 ensures HasNode(m.(sessions := left), key) {
      assert HasNode(m, key);
    }
  }

  lemma {:induction false} NothingIsDue(m: Manager, mono: nat)
    requires NothingDue(m, mono)
    ensures forall n :: n in m.heap ==> n.due > mono
  {
  }

  /** Serving does not count as activity. */
  lemma {:induction false} ServedActive(before: map<Key, Entry>, after: map<Key, Entry>, mono: nat, cwnd: Key -> nat)
    requires after.Keys == before.Keys
    requires forall key :: key in before ==>
      after[key] == if IsDue(before[key], mono) then Served(before[key], mono, cwnd(key)) else before[key]
    ensures forall key :: key in before ==> after[key].lastActive == before[key].lastActive
  {
    hide Check, Update, Delay;
  }

  lemma {:induction false} TouchKeeps(m: Manager, key: Key, e: Entry)
    requires Live(m)
    requires if key in m.sessions then e.sched == m.sessions[key].sched && e.nextDue == m.sessions[key].nextDue else e.sched == 0
    ensures Live(m.(sessions := m.sessions[key := e]))
  {
    var m' := m.(sessions := m.sessions[key := e]);
    forall x | x in m'.sessions && m'.sessions[x].sched > 0 ensures HasNode(m', x) {
      assert HasNode(m, x);
    }
  }

  /** A session is scheduled for the very time `ikcp_check` names: not reached before, and
      reached then. When that time is now it is tried again in a millisecond. */
  lemma {:induction false} DelayIsExact(k: Kcb, mono: nat, d: nat)
    requires k.cfg.interval < HALF_WORD - 1
    ensures var due := Check(k, KcpNow(mono));
      var delay := Delay(KcpNow(mono), due);
      Reached(KcpNow(mono + delay), due) && (1 <= d < delay ==> !Reached(KcpNow(mono + d), due))
  {
    var now := KcpNow(mono);
    var due := Check(k, now);
    var delay := Delay(now, due);
    Clock.CheckBounds(k, now);
    DelayIsBounded(k, now);
    var m := Clock.Ahead(due, now);
    AheadIsDiff(now, due);
    hide Check;
    LaterReading(mono, delay);
    LaterReading(mono, d);
    Clock.DiffAfter(now, due, delay);
    if d < delay { Clock.DiffAfter(now, due, d); }
    SameTimeIsReached(now);
    ReachedOnlyNow(now, due);
  }

  lemma {:induction false} AheadIsDiff(now: U32, due: U32)
    requires Clock.Ahead(due, now) < HALF_WORD
    ensures TimeDiff(due, now) == Clock.Ahead(due, now)
  {
  }

  lemma {:induction false} LaterReading(mono: nat, d: nat)
    ensures KcpNow(mono + d) == Wrap(KcpNow(mono) + d)
  {
    var q := mono / WORD;
    assert mono == q * WORD + mono % WORD;
    WrapCancels(mono % WORD + d, q);
  }

  lemma {:induction false} ReachedOnlyNow(now: U32, due: U32)
    requires Clock.Ahead(due, now) < HALF_WORD - 1
    ensures Reached(now, due) <==> Clock.Ahead(due, now) == 0
    ensures !Reached(now, due) ==> Delay(now, due) == Clock.Ahead(due, now)
  {
    var m := Clock.Ahead(due, now);
    AheadIsDiff(now, due);
    Clock.DiffAfter(now, due, 0);
    WrapUnique(now, 0);
  }

  /** A tick that is armed is armed for something: a node that is still to come. */
  ghost predicate ArmedForNode(m: Manager, mono: nat) {
    m.armedDue == 0 || (m.armedDue > mono && exists n :: n in m.heap && n.due == m.armedDue)
  }

  lemma {:induction false} ScheduleArms(m: Manager, key: Key, mono: nat)
    requires key in m.sessions && ArmedForNode(m, mono)
    ensures ArmedForNode(Schedule(m, key, mono), mono)
  {
    ScheduleKeeps(m, key, mono);
    hide Delay, Check;
    var e := Rescheduled(m.sessions[key], mono);
    var n := Node(e.nextDue, e.sched, key);
    assert n in Schedule(m, key, mono).heap;
    assert forall x :: x in m.heap ==> x in Schedule(m, key, mono).heap;
  }

  lemma {:induction false} TurnArms(m: Manager, i: nat, mono: nat, cwnd: Key -> nat)
    requires i < |m.heap| && m.heap[i].due <= mono && ArmedForNode(m, mono)
    ensures ArmedForNode(Turn(m, i, mono, cwnd), mono)
  {
    hide Schedule, Updated;
    PoppedElements(m, i);
    var n, p := m.heap[i], Popped(m, i);
    assert ArmedForNode(p, mono);
    if IsLive(m, n) {
      var p1 := p.(sessions := p.sessions[n.key := Updated(p.sessions[n.key], mono, cwnd(n.key))]);
      ScheduleArms(p1, n.key, mono);
    }
  }
}
