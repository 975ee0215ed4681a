/** The clock side of the protocol: `ikcp_check` against `ikcp_update`, across the
    wrap-around of the 32-bit millisecond clock. */
module KcpClock {
  import opened Machine
  import opened KcpProtocol

  /** How far ahead of `now` a deadline lies on the circle. */
  function Ahead(due: U32, now: U32): U32 {
    Wrap(due - now)
  }

  lemma {:induction false} AheadOf(now: U32, m: int)
    requires 0 <= m < WORD
    ensures Ahead(Wrap(now + m), now) == m
  {
    if now + m < WORD {
      WrapUnique(now + m, 0);
      WrapUnique(m, 0);
    } else {
      WrapUnique(now + m, 1);
      WrapUnique(m - WORD, -1);
    }
  }

  /** `now`, `now + d` and a deadline `now + m` on the circle. */
  lemma {:induction false} DiffAfter(now: U32, due: U32, d: nat)
    requires 0 <= TimeDiff(due, now) && d < HALF_WORD
    ensures TimeDiff(Wrap(now + d), due) == d - TimeDiff(due, now)
  {
    var m := TimeDiff(due, now);
    if due >= now {
      WrapUnique(due - now, 0);
      CircularDifference(now + d, due);
      WrapUnique(due, 0);
    } else {
      WrapUnique(due - now, -1);
      CircularDifference(now + d, due + WORD);
      WrapUnique(due + WORD, 1);
    }
  }

  lemma {:induction false} DiffSymmetric(a: U32, b: U32)
    requires -HALF_WORD < TimeDiff(a, b)
    ensures TimeDiff(b, a) == -TimeDiff(a, b)
  {
    if a >= b {
      WrapUnique(a - b, 0);
      if a > b { WrapUnique(b - a, -1); }
    } else {
      WrapUnique(a - b, -1);
      WrapUnique(b - a, 0);
    }
  }

  /** A deadline is at most `interval` ahead, and never after the next flush. */
  lemma {:induction false} CheckBounds(k: Kcb, now: U32)
    ensures Ahead(Check(k, now), now) <= k.cfg.interval
    ensures Check(k, now) != now ==>
              k.tm.updated && Ahead(Check(k, now), now) <= TimeDiff(k.tm.tsFlush, now) <= 10000
  {
    NextPacketExact(k.snd.buf, now, 0x7fff_ffff);
    WrapUnique(0, 0);
    if Check(k, now) != now {
      DiffSymmetric(now, k.tm.tsFlush);
      var m := Min(Min(NextPacket(k.snd.buf, now, 0x7fff_ffff), TimeDiff(k.tm.tsFlush, now)), k.cfg.interval);
      AheadOf(now, m);
    }
  }

  /** `ikcp_check` is a sound shortcut: with no input or send in between, an
      `ikcp_update` at any time before the deadline only records the time. */
  lemma {:induction false} CheckIsSound(k: Kcb, now: U32, later: nat, cwnd: nat)
    requires later < Ahead(Check(k, now), now)
    ensures var t := Wrap(now + later);
            && Update(k, t, cwnd) == k.(tm := k.tm.(current := t))
            && UpdateOutput(k, t) == []
  {
    CheckBounds(k, now);
    WrapUnique(0, 0);
    assert Check(k, now) != now;
    DiffAfter(now, k.tm.tsFlush, later);
  }

  /** Following the deadlines misses no flush: an update at `ts_flush`, which no
      deadline exceeds, does flush. */
  lemma {:induction false} FlushHappensOnTime(k: Kcb, cwnd: nat)
    requires k.tm.updated
    ensures var t := k.tm.tsFlush;
            && Update(k, t, cwnd) == Flush(Ticked(k, t), cwnd)
            && UpdateOutput(k, t) == FlushOutput(Ticked(k, t))
            && TimeDiff(Ticked(k, t).tm.tsFlush, t) == Signed(k.cfg.interval)
  {
    hide Flush, FlushOutput;
    WrapUnique(0, 0);
    AheadOf(k.tm.tsFlush, k.cfg.interval);
  }

  /** The defaults with the congestion window switched off. */
  const PLAIN: Config := Config(1400, 32, 128, 0, 100, 0, 5, true, 20)

  /** One byte queued on a new block, then updates at 0, 100 and 200. */
  function Waiting(): Kcb {
    Update(Update(Update(Send(Create(PLAIN), [7]).k, 0, 1), 100, 1), 200, 1)
  }

  function WaitingFlight(): Flight {
    Flight(0, Fragment(0, [7]), 0, 128, 0, 225, 200, 0, 1)
  }

  lemma {:induction false} QueuedByte()
    ensures Send(Create(PLAIN), [7]).k == Create(PLAIN).(snd := Sending(0, 0, [Fragment(0, [7])], []))
  {
    assert [] + [Fragment(0, [7])] == [Fragment(0, [7])] && [7][..1] == [7];
    assert Fragments([7], 1348, 1) == [Fragment(0, [7])] + [];
  }

  lemma {:induction false} TimersAfterFlush(k: Kcb, cwnd: nat)
    ensures Flush(k, cwnd).tm.tsFlush == k.tm.tsFlush && Flush(k, cwnd).tm.updated == k.tm.updated
  {
    hide SweepOf, Loaded;
  }

  /** The sending half with the byte in flight is left alone until 225. */
  lemma {:induction false} NotYet(k: Kcb, cwnd: nat)
    requires k.cfg == PLAIN && k.snd == Sending(0, 1, [], [WaitingFlight()]) && k.tm.updated && k.tm.current < 225
    ensures Flush(k, cwnd).cfg == PLAIN && Flush(k, cwnd).snd == k.snd
    ensures Flush(k, cwnd).tm.tsFlush == k.tm.tsFlush && Flush(k, cwnd).tm.updated
  {
    TimersAfterFlush(k, cwnd);
    hide FlushedTimers;
    WrapUnique(k.tm.current - 225, -1);
    var f := WaitingFlight();
    assert [f][..0] == [] && Decide(PLAIN, StampOf(k), f) == Decision(f, false, false);
    assert SweepAll(PLAIN, StampOf(k), []) == Sweep([], [], 0, false) && [] + [f] == [f];
  }

  lemma {:induction false} FirstFlush(k: Kcb, cwnd: nat)
    requires k.cfg == PLAIN && k.snd == Sending(0, 0, [Fragment(0, [7])], []) && k.rcv == Receiving(0, [], [])
    requires k.tm.updated && k.tm.current == 0 && k.tm.rmtWnd == 128 && k.tm.rxRto == 200
    ensures Flush(k, cwnd).cfg == PLAIN && Flush(k, cwnd).snd == Sending(0, 1, [], [WaitingFlight()])
    ensures Flush(k, cwnd).tm.tsFlush == k.tm.tsFlush && Flush(k, cwnd).tm.updated
  {
    TimersAfterFlush(k, cwnd);
    hide FlushedTimers;
    var f := Flight(0, Fragment(0, [7]), 0, 128, 0, 0, 200, 0, 0);
    assert [] + [f] == [f] && [Fragment(0, [7])][1..] == [];
    assert Loaded(k) == Sending(0, 1, [], [f]);
    WrapUnique(225, 0);
    assert [f][..0] == [] && Decide(PLAIN, StampOf(k), f).flight == WaitingFlight();
    assert SweepAll(PLAIN, StampOf(k), []) == Sweep([], [], 0, false) && [] + [WaitingFlight()] == [WaitingFlight()];
  }

  lemma {:induction false} TickAt(t: Timers, now: U32)
    requires now == 0 || now == 100 || now == 200
    requires if now == 0 then !t.updated else t.updated && t.tsFlush == now
    ensures TickFlushes(t, now)
    ensures Tick(t, 100, now) == t.(current := now, updated := true, tsFlush := now + 100)
  {
    WrapUnique(0, 0);
    WrapUnique(now + 100, 0);
    WrapUnique(-100, -1);
  }

  lemma {:induction false} WaitingIs()
    ensures Waiting().snd.buf == [WaitingFlight()] && Waiting().tm.tsFlush == 300 && Waiting().tm.updated
  {
    QueuedByte();
    hide Flush, Tick, TickFlushes;
    var k0 := Send(Create(PLAIN), [7]).k;
    TickAt(k0.tm, 0);
    FirstFlush(Ticked(k0, 0), 1);
    var k1 := Update(k0, 0, 1);
    TickAt(k1.tm, 100);
    NotYet(Ticked(k1, 100), 1);
    var k2 := Update(k1, 100, 1);
    TickAt(k2.tm, 200);
    NotYet(Ticked(k2, 200), 1);
  }

  /** The converse fails: at 250 the retransmission that was due at 225 is overdue but
      the next flush is at 300, so `ikcp_check` answers "now" and an update at once does
      nothing. */
  lemma {:induction false} DueNowMayDoNothing()
    ensures Check(Waiting(), 250) == 250 && !TickFlushes(Waiting().tm, 250)
  {
    WaitingIs();
    hide Waiting;
    WrapUnique(-50, -1);
    WrapUnique(-25, -1);
  }

  ghost predicate Overdue(buf: seq<Flight>, now: U32) {
    exists f :: f in buf && TimeDiff(f.resendts, now) <= 0
  }

  lemma {:induction false} NextPacketExact(buf: seq<Flight>, now: U32, best: int)
    requires best > 0
    ensures if Overdue(buf, now) then NextPacket(buf, now, best) == -1 else 0 < NextPacket(buf, now, best) <= best
    decreases |buf|
  {
    if buf != [] {
      assert buf[0] in buf;
      if TimeDiff(buf[0].resendts, now) > 0 {
        NextPacketExact(buf[1..], now, Min(best, TimeDiff(buf[0].resendts, now)));
        assert Overdue(buf, now) ==> Overdue(buf[1..], now);
        assert forall f :: f in buf[1..] ==> f in buf;
      }
    }
  }

  /** Exactly when "now" does nothing: a retransmission is overdue while `ts_flush`
      is still ahead, by at most ten seconds. */
  lemma {:induction false} DueNowExactly(k: Kcb, now: U32)
    requires 0 < k.cfg.interval
    ensures Check(k, now) == now && !TickFlushes(k.tm, now)
            <==> k.tm.updated && -10000 <= TimeDiff(now, k.tm.tsFlush) < 0 && Overdue(k.snd.buf, now)
  {
    NextPacketExact(k.snd.buf, now, 0x7fff_ffff);
    WrapUnique(0, 0);
    if k.tm.updated && -10000 <= TimeDiff(now, k.tm.tsFlush) < 0 && !Overdue(k.snd.buf, now) {
      DiffSymmetric(now, k.tm.tsFlush);
      AheadOf(now, Min(Min(NextPacket(k.snd.buf, now, 0x7fff_ffff), TimeDiff(k.tm.tsFlush, now)), k.cfg.interval));
    }
  }

  /** The rhythm of flushes: on time or late by less than an interval, the next flush is
      one interval after the last; later than that, or after a jump of the clock, it is
      one interval from now; before its time nothing happens. The first update flushes. */
  lemma {:induction false} FlushesKeepRhythm(k: Kcb, now: U32)
    requires 0 < k.cfg.interval < 10000
    ensures var late, next := TimeDiff(now, k.tm.tsFlush), Tick(k.tm, k.cfg.interval, now).tsFlush;
      if !k.tm.updated then TickFlushes(k.tm, now) && TimeDiff(next, now) == k.cfg.interval
      else if 0 <= late < k.cfg.interval then
        TickFlushes(k.tm, now) && TimeDiff(next, k.tm.tsFlush) == k.cfg.interval
      else if late >= 0 || late < -10000 then TickFlushes(k.tm, now) && TimeDiff(next, now) == k.cfg.interval
      else !TickFlushes(k.tm, now) && next == k.tm.tsFlush
  {
    var i: int, due: int := k.cfg.interval, k.tm.tsFlush;
    WrapUnique(0, 0);
    WrapUnique(now, 0);
    WrapUnique(due, 0);
    CircularDifference(now + i, now);
    CircularDifference(due + i, due);
    LateBy(now, due, i);
    LateBy(now, now, i);
  }

  /** Against a time `i` later one is `i` less late. */
  lemma {:induction false} LateBy(now: U32, due: U32, i: nat)
    requires i < 10000
    ensures TimeDiff(now, due) >= -10000 ==> TimeDiff(now, Wrap(due + i)) == TimeDiff(now, due) - i
  {
    var late := TimeDiff(now, due);
    if late >= -10000 {
      if now - due == late {
        CircularDifference(now, due + i);
      } else if now - due == late + WORD {
        CircularDifference(now, due + i + WORD);
        WrapCancels(due + i, 1);
      } else {
        WrapUnique(now - due, -1);
        CircularDifference(now + WORD, due + i);
        WrapCancels(now, 1);
      }
      WrapUnique(now, 0);
      if now >= due { WrapUnique(now - due, 0); } else { WrapUnique(now - due, -1); }
    }
  }

  lemma {:induction false} NextPacketIsSome(buf: seq<Flight>, now: U32, best: int)
    requires best > 0
    ensures var m := NextPacket(buf, now, best);
      m < 0 || m == best || exists f :: f in buf && TimeDiff(f.resendts, now) == m
    decreases |buf|
  {
    if buf != [] && TimeDiff(buf[0].resendts, now) > 0 {
      NextPacketIsSome(buf[1..], now, Min(best, TimeDiff(buf[0].resendts, now)));
      assert buf[0] in buf && forall f :: f in buf[1..] ==> f in buf;
    }
  }

  lemma {:induction false} DueAt(now: U32, due: U32, m: nat)
    requires TimeDiff(due, now) == m < HALF_WORD
    ensures TimeDiff(Wrap(now + m), due) == 0 && TimeDiff(due, Wrap(now + m)) == 0
  {
    DiffAfter(now, due, m);
    DiffSymmetric(Wrap(now + m), due);
  }

  /** `ikcp_check` is no earlier than it must be: when it answers later than now, then at
      that time a whole interval has passed, a flush is due or a retransmission is. */
  lemma {:induction false} CheckIsLatest(k: Kcb, now: U32)
    requires Check(k, now) != now
    ensures var m := Ahead(Check(k, now), now);
      m == k.cfg.interval || TickFlushes(k.tm, Check(k, now)) || Overdue(k.snd.buf, Check(k, now))
  {
    NextPacketExact(k.snd.buf, now, 0x7fff_ffff);
    NextPacketIsSome(k.snd.buf, now, 0x7fff_ffff);
    DiffSymmetric(now, k.tm.tsFlush);
    var packet, flush := NextPacket(k.snd.buf, now, 0x7fff_ffff), TimeDiff(k.tm.tsFlush, now);
    var m := Min(Min(packet, flush), k.cfg.interval);
    AheadOf(now, m);
    hide NextPacket;
    if m == flush {
      DueAt(now, k.tm.tsFlush, m);
    } else if m == packet {
      var f :| f in k.snd.buf && TimeDiff(f.resendts, now) == m;
      DueAt(now, f.resendts, m);
      assert Overdue(k.snd.buf, Wrap(now + m));
    }
  }
}
