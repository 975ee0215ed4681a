/** What is sent again and when: which segments an acknowledgement clears, which ones it
    counts as skipped, how long a segment waits, and when the link counts as dead. */
module KcpRetransmit {
  import opened Common
  import opened Machine
  import opened KcpProtocol
  import opened KcpReliability
  import opened KcpProgress

  // ---------------------------------------------------- what is acknowledged

  lemma {:induction false} TailAscends(buf: seq<Flight>)
    requires AscendingFlights(buf) && buf != []
    ensures AscendingFlights(buf[1..]) && forall f :: f in buf[1..] ==> buf[0].sn < f.sn
    ensures forall f :: f in buf <==> f == buf[0] || f in buf[1..]
  {
    assert buf == [buf[0]] + buf[1..];
  }

  lemma {:induction false} DropBelowExactly(buf: seq<Flight>, una: nat)
    requires AscendingFlights(buf)
    ensures AscendingFlights(DropBelow(buf, una))
    ensures forall f :: f in DropBelow(buf, una) <==> f in buf && f.sn >= una
  {
    if buf != [] {
      TailAscends(buf);
      hide AscendingFlights;
      if una > buf[0].sn { DropBelowExactly(buf[1..], una); }
    }
  }

  lemma {:induction false} RemoveSnExactly(buf: seq<Flight>, sn: nat)
    requires AscendingFlights(buf)
    ensures forall f :: f in RemoveSn(buf, sn) <==> f in buf && f.sn != sn
  {
    if buf != [] {
      TailAscends(buf);
      hide AscendingFlights;
      if sn > buf[0].sn { RemoveSnExactly(buf[1..], sn); }
    }
  }

  /** A segment of the peer takes off `snd_buf` exactly what lies below its `una` and, if
      it is an acknowledgement, the segment it names. */
  lemma {:induction false} InputClearsExactly(s: Sending, seg: Segment, f: Flight)
    requires Tight(s)
    ensures f in SendingInput(s, seg).buf <==> f in s.buf && f.sn >= seg.una && !(seg.cmd == CMD_ACK && f.sn == seg.sn)
  {
    DropBelowExactly(s.buf, seg.una);
    var s1 := ShrinkBuf(ParseUna(s, seg.una));
    RemoveSnExactly(s1.buf, seg.sn);
    if s1.buf != [] {
      assert forall g :: g in s1.buf ==> s1.buf[0].sn <= g.sn < s.nxt by { FirstIsLeast(s1.buf); }
    }
  }

  lemma {:induction false} FirstIsLeast(buf: seq<Flight>)
    requires AscendingFlights(buf) && buf != []
    ensures forall f :: f in buf ==> buf[0].sn <= f.sn
  {
    TailAscends(buf);
  }

  // -------------------------------------------------------- what is skipped

  /** Flight `f` was overtaken by acknowledgement `a`: it is older and was not sent again
      after the segment acknowledged. */
  ghost predicate Overtaken(f: Flight, a: Ack) {
    f.sn < a.sn && TimeDiff(a.ts, f.ts) >= 0
  }

  lemma {:induction false} BumpExactly(buf: seq<Flight>, a: Ack, i: nat)
    requires AscendingFlights(buf) && i < |buf|
    ensures |BumpFastack(buf, a.sn, a.ts)| == |buf|
    ensures BumpFastack(buf, a.sn, a.ts)[i]
      == if Overtaken(buf[i], a) then buf[i].(fastack := buf[i].fastack + 1) else buf[i]
  {
    TailAscends(buf);
    if a.sn >= buf[0].sn {
      if i > 0 {
        assert AscendingFlights(buf[1..]);
        BumpExactly(buf[1..], a, i - 1);
      } else {
        BumpFastackSame(buf[1..], a.sn, a.ts);
      }
    } else {
      assert buf[0].sn <= buf[i].sn;
    }
  }

  /** One datagram counts at most one skip per segment, against its best acknowledgement,
      and only if that lies within what is in flight. */
  lemma {:induction false} SkipsAreCounted(k: Kcb, segs: seq<Segment>, rto: U32, cwnd: nat, i: nat)
    requires AscendingFlights(InputSegments(k, segs).snd.buf) && i < |InputSegments(k, segs).snd.buf|
    ensures var s, s', best := InputSegments(k, segs).snd, Input(k, segs, true, rto, cwnd).snd, BestAck(segs);
      && |s'.buf| == |s.buf|
      && s'.buf[i] == if best.Some? && s.una <= best.value.sn < s.nxt && Overtaken(s.buf[i], best.value)
                      then s.buf[i].(fastack := s.buf[i].fastack + 1) else s.buf[i]
  {
    var s, best := InputSegments(k, segs).snd, BestAck(segs);
    hide InputSegments, BestAck;
    if best.Some? { BumpExactly(s.buf, best.value, i); }
  }

  ghost predicate IsAck(segs: seq<Segment>, i: nat) {
    i < |segs| && segs[i].cmd == CMD_ACK
  }

  /** Acknowledgement `j` is newer than `i` in number and in time. */
  ghost predicate Newer(segs: seq<Segment>, j: nat, i: nat)
    requires i < |segs| && j < |segs|
  {
    segs[j].sn > segs[i].sn && TimeDiff(segs[j].ts, segs[i].ts) > 0
  }

  /** The acknowledgement at `i` is the best one: it is the first, or newer in number and
      in time than the best of those before it; and none after it is newer. */
  ghost predicate IsBest(segs: seq<Segment>, i: nat)
    decreases i
  {
    && IsAck(segs, i)
    && (forall j: nat :: IsAck(segs, j) && i < j ==> !Newer(segs, j, i))
    && ((forall j: nat :: IsAck(segs, j) ==> i <= j)
        || exists j: nat :: j < i && IsBest(segs[..i], j) && Newer(segs, i, j))
  }

  lemma {:induction false} AcksOfFront(front: seq<Segment>, last: Segment)
    ensures forall j: nat :: IsAck(front + [last], j) <==> IsAck(front, j) || (j == |front| && last.cmd == CMD_ACK)
  {
  }

  /** A later segment that is not newer leaves the best alone. */
  lemma {:induction false} BestStays(front: seq<Segment>, last: Segment, i: nat)
    requires IsBest(front, i) && !(last.cmd == CMD_ACK && Newer(front + [last], |front|, i))
    ensures IsBest(front + [last], i)
  {
    var segs := front + [last];
    AcksOfFront(front, last);
    assert segs[..i] == front[..i];
    forall j: nat | IsAck(segs, j) && i < j ensures !Newer(segs, j, i) {
      assert j < |front| ==> !Newer(front, j, i);
    }
    if j: nat :| j < i && IsBest(front[..i], j) && Newer(front, i, j) {
      assert IsBest(segs[..i], j) && Newer(segs, i, j);
    }
  }

  lemma {:induction false} BestFollows(front: seq<Segment>, last: Segment, i: nat)
    requires IsBest(front, i) && last.cmd == CMD_ACK && Newer(front + [last], |front|, i)
    ensures IsBest(front + [last], |front|)
  {
    AcksOfFront(front, last);
    assert (front + [last])[..|front|] == front;
  }

  /** The best is unique, so it is found exactly. */
  lemma {:induction false} OneBest(segs: seq<Segment>, i: nat, j: nat)
    requires IsBest(segs, i) && IsBest(segs, j)
    ensures i == j
    decreases |segs|
  {
    if i < j {
      EarlierIsBest(segs, i, j);
      var x: nat :| x < j && IsBest(segs[..j], x) && Newer(segs, j, x);
      OneBest(segs[..j], i, x);
    } else if j < i {
      EarlierIsBest(segs, j, i);
      var x: nat :| x < i && IsBest(segs[..i], x) && Newer(segs, i, x);
      OneBest(segs[..i], j, x);
    }
  }

  lemma {:induction false} EarlierIsBest(segs: seq<Segment>, i: nat, j: nat)
    requires IsBest(segs, i) && i < j <= |segs|
    ensures IsBest(segs[..j], i)
  {
    var front := segs[..j];
    assert front[..i] == segs[..i];
    assert forall x: nat :: IsAck(front, x) ==> IsAck(segs, x);
    forall x: nat | IsAck(front, x) && i < x ensures !Newer(front, x, i) {
      assert !Newer(segs, x, i);
    }
    if x: nat :| x < i && IsBest(segs[..i], x) && Newer(segs, i, x) {
      assert IsBest(front[..i], x) && Newer(front, i, x);
    }
  }

  /** There is a best acknowledgement exactly when there is any, and it is the one found. */
  lemma {:induction false} BestAckExactly(segs: seq<Segment>)
    ensures BestAck(segs).None? <==> forall i: nat :: !IsAck(segs, i)
    ensures BestAck(segs).Some? ==> exists i: nat :: IsBest(segs, i) && BestAck(segs).value == Ack(segs[i].sn, segs[i].ts)
  {
    if segs != [] {
      var front, last := segs[..|segs| - 1], segs[|segs| - 1];
      assert segs == front + [last];
      BestAckExactly(front);
      AcksOfFront(front, last);
      if BestAck(front).Some? {
        var i: nat :| IsBest(front, i) && BestAck(front).value == Ack(front[i].sn, front[i].ts);
        assert IsAck(segs, i);
        if last.cmd == CMD_ACK && Newer(segs, |front|, i) {
          BestFollows(front, last, i);
        } else {
          BestStays(front, last, i);
        }
      } else if last.cmd == CMD_ACK {
        assert IsBest(segs, |front|);
      }
    }
  }

  // ------------------------------------------------------------- how long

  /** The timeout a segment goes on with when it is written at `now`. */
  function NextRto(cfg: Config, st: Stamp, f: Flight): nat {
    if f.xmit == 0 then st.rto
    else if TimeDiff(st.now, f.resendts) < 0 then f.rto
    else if cfg.nodelay == 0 then f.rto + Max(f.rto, st.rto)
    else if cfg.nodelay == 1 then f.rto + f.rto / 2
    else f.rto + st.rto / 2
  }

  /** How long it then waits: an eighth more the first time, unless there is no delay. */
  function Wait(cfg: Config, st: Stamp, f: Flight): nat {
    NextRto(cfg, st, f) + if f.xmit == 0 && cfg.nodelay == 0 then st.rto / 8 else 0
  }

  /** A segment that is not written is left alone. One that is written waits its time and
      no longer: `d` milliseconds later it has timed out exactly when `d` has reached the
      wait. Its skips are counted anew only if they were the reason. */
  lemma {:induction false} WaitsExactly(cfg: Config, st: Stamp, f: Flight, d: nat)
    requires st.rto < 0x2000_0000 && f.rto < 0x2000_0000 && d < 0x4000_0000
    ensures var g := Decide(cfg, st, f).flight;
      && g.sn == f.sn && g.frag == f.frag
      && (!IsDue(cfg, st.now, f) ==> g == f)
      && (IsDue(cfg, st.now, f) ==>
            && g.xmit == f.xmit + 1 && g.ts == st.now && g.rto == NextRto(cfg, st, f)
            && g.fastack == (if f.xmit == 0 || TimeDiff(st.now, f.resendts) >= 0 then f.fastack else 0)
            && (TimeDiff(Wrap(st.now + d), g.resendts) >= 0 <==> d >= Wait(cfg, st, f)))
  {
    DecideExactly(cfg, st, f);
    var w := Wait(cfg, st, f);
    WrapUnique(NextRto(cfg, st, f), 0);
    CircularDifference(st.now + d, st.now + w);
  }

  /** In the normal mode a timeout at least doubles; in the first fast mode it grows by
      half. */
  lemma {:induction false} TimeoutDoubles(cfg: Config, st: Stamp, f: Flight)
    requires f.xmit > 0 && TimeDiff(st.now, f.resendts) >= 0 && st.rto < 0x2000_0000 && f.rto < 0x2000_0000
    ensures Decide(cfg, st, f).timeout
    ensures cfg.nodelay == 0 ==> Decide(cfg, st, f).flight.rto >= 2 * f.rto
    ensures cfg.nodelay == 1 ==> 3 * f.rto - 1 <= 2 * Decide(cfg, st, f).flight.rto <= 3 * f.rto
  {
    WaitsExactly(cfg, st, f, 0);
  }

  // ------------------------------------------------------------- a dead link

  /** Flights that have been sent and have timed out. */
  function TimedOut(buf: seq<Flight>, now: U32): nat {
    if buf == [] then 0 else
      var f := buf[|buf| - 1];
      TimedOut(buf[..|buf| - 1], now) + if f.xmit > 0 && TimeDiff(now, f.resendts) >= 0 then 1 else 0
  }

  ghost predicate WornOut(cfg: Config, now: U32, f: Flight) {
    IsDue(cfg, now, f) && f.xmit + 1 >= cfg.deadLink
  }

  lemma {:induction false} SweepCounts(cfg: Config, st: Stamp, buf: seq<Flight>)
    ensures SweepAll(cfg, st, buf).timeouts == TimedOut(buf, st.now)
    ensures SweepAll(cfg, st, buf).dead <==> exists f :: f in buf && WornOut(cfg, st.now, f)
  {
    if buf != [] {
      var front, last := buf[..|buf| - 1], buf[|buf| - 1];
      assert buf == front + [last];
      SweepCounts(cfg, st, front);
      DecideExactly(cfg, st, last);
      assert Decide(cfg, st, last).send ==> Decide(cfg, st, last).flight.xmit == last.xmit + 1;
      assert forall f :: f in buf <==> f in front || f == last;
      if f :| f in front && WornOut(cfg, st.now, f) { assert f in buf; }
      assert WornOut(cfg, st.now, last) ==> last in buf;
      hide IsDue;
    }
  }

  /** A flush declares the link dead exactly when it writes a segment for the
      `dead_link`-th time, and counts the timeouts. */
  lemma {:induction false} DeadExactly(k: Kcb, cwnd: nat)
    requires k.tm.updated
    ensures Flush(k, cwnd).tm.dead <==> k.tm.dead || exists f :: f in Loaded(k).buf && WornOut(k.cfg, k.tm.current, f)
    ensures Flush(k, cwnd).tm.xmit == k.tm.xmit + TimedOut(Loaded(k).buf, k.tm.current)
  {
    hide Loaded, WornOut, SweepAll;
    SweepCounts(k.cfg, StampOf(k), Loaded(k).buf);
  }
}
