/** What the windows do: how much a flush sends, what it reports to the peer, and how
    two endpoints find out that a closed window has opened. */
module KcpWindow {
  import opened Machine
  import opened KcpProtocol
  import opened KcpReliability
  import opened KcpSystem

  // ------------------------------------------------------- how much is sent

  /** The fragment at place `i` of the queue is in flight, not sent yet. */
  ghost predicate IsNew(s: Sending, s': Sending, i: nat) {
    && i < |s.queue| && |s.buf| + i < |s'.buf|
    && var f := s'.buf[|s.buf| + i]; f.sn == s.nxt + i && f.frag == s.queue[i] && f.xmit == 0
  }

  /** `n` fragments of the queue have been numbered and put in flight, in order. */
  ghost predicate Moved(s: Sending, s': Sending, n: nat) {
    && n <= |s.queue| && s'.una == s.una && s'.nxt == s.nxt + n && s'.queue == s.queue[n..]
    && |s'.buf| == |s.buf| + n && s'.buf[..|s.buf|] == s.buf
    && forall i: nat :: i < n ==> IsNew(s, s', i)
  }

  lemma {:induction false} MovedOneMore(s: Sending, f: Flight, s': Sending, n: nat)
    requires s.queue != [] && f.sn == s.nxt && f.frag == s.queue[0] && f.xmit == 0
    requires Moved(Sending(s.una, s.nxt + 1, s.queue[1..], s.buf + [f]), s', n)
    ensures Moved(s, s', n + 1)
  {
    var s1 := Sending(s.una, s.nxt + 1, s.queue[1..], s.buf + [f]);
    assert s'.buf[|s.buf|] == s'.buf[..|s1.buf|][|s.buf|] == f;
    assert s'.buf[..|s.buf|] == s'.buf[..|s1.buf|][..|s.buf|] == s.buf;
    forall i: nat | i < n + 1 ensures IsNew(s, s', i) {
      if i > 0 { assert IsNew(s1, s', i - 1); }
    }
  }

  lemma {:induction false} AdmitExactly(s: Sending, limit: nat, st: Stamp)
    ensures Moved(s, Admit(s, limit, st), Max(0, Min(|s.queue|, s.una + limit - s.nxt)))
    decreases |s.queue|
  {
    if s.nxt < s.una + limit && s.queue != [] {
      var f := Flight(s.nxt, s.queue[0], st.now, st.wnd, st.una, st.now, st.rto, 0, 0);
      var s1 := Sending(s.una, s.nxt + 1, s.queue[1..], s.buf + [f]);
      AdmitExactly(s1, limit, st);
      MovedOneMore(s, f, Admit(s, limit, st), Max(0, Min(|s1.queue|, s1.una + limit - s1.nxt)));
    }
  }

  /** `w` is the least of the own window, the peer's, and the congestion window where
      that counts. */
  ghost predicate IsWindow(k: Kcb, w: nat) {
    && w <= k.cfg.sndWnd && w <= k.tm.rmtWnd && (k.cfg.nocwnd || w <= k.tm.cwnd)
    && (w == k.cfg.sndWnd || w == k.tm.rmtWnd || (!k.cfg.nocwnd && w == k.tm.cwnd))
  }

  /** A flush puts in flight exactly as much of the queue as the window has room for. */
  lemma {:induction false} FlushAdmitsExactly(k: Kcb, w: nat)
    requires IsWindow(k, w)
    ensures Moved(k.snd, Loaded(k), Max(0, Min(|k.snd.queue|, k.snd.una + w - k.snd.nxt)))
  {
    AdmitExactly(k.snd, SendLimit(k.cfg, k.tm), StampOf(k));
  }

  lemma {:induction false} OneTakesWindow(k: Kcb, seg: Segment)
    ensures InputSegment(k, seg).tm.rmtWnd == seg.wnd
    ensures InputSegment(k, seg).tm.askTell <==> k.tm.askTell || seg.cmd == CMD_WASK
    ensures ProbeOk(k.tm) ==> ProbeOk(InputSegment(k, seg).tm)
  {
    hide SendingInput, ReceivingInput, AckInput;
  }

  /** The last window of a datagram is taken, and any request for the own one noted. */
  lemma {:induction false} InputTakesWindow(k: Kcb, segs: seq<Segment>)
    ensures InputSegments(k, segs).tm.rmtWnd == (if segs == [] then k.tm.rmtWnd else segs[|segs| - 1].wnd)
    ensures InputSegments(k, segs).tm.askTell <==> k.tm.askTell || Writes(segs, CMD_WASK)
    ensures ProbeOk(k.tm) ==> ProbeOk(InputSegments(k, segs).tm)
  {
    hide InputSegment, ProbeOk;
    if segs != [] {
      var front, last := segs[..|segs| - 1], segs[|segs| - 1];
      InputTakesWindow(k, front);
      OneTakesWindow(InputSegments(k, front), last);
      assert segs == front + [last];
      assert forall seg :: seg in segs <==> seg in front || seg == last;
    }
  }

  /** The window the peer advertised last is the one that holds from then on: the next
      flush goes no further past `snd_una`, whatever the congestion controller says. */
  lemma {:induction false} AdvertisedWindowHolds(k: Kcb, segs: seq<Segment>, ok: bool, rto: U32, cwnd: nat)
    requires segs != []
    ensures var k' := Input(k, segs, ok, rto, cwnd);
      && k'.tm.rmtWnd == segs[|segs| - 1].wnd
      && Loaded(k').nxt <= Max(k'.snd.nxt, k'.snd.una + segs[|segs| - 1].wnd)
  {
    InputTakesWindow(k, segs);
    var k' := Input(k, segs, ok, rto, cwnd);
    hide InputSegments, ParseFastack, BestAck, Input;
    assert k'.tm.rmtWnd == segs[|segs| - 1].wnd by { InputWindow(k, segs, ok, rto, cwnd); }
    AdmitExactly(k'.snd, SendLimit(k'.cfg, k'.tm), StampOf(k'));
  }

  lemma {:induction false} InputWindow(k: Kcb, segs: seq<Segment>, ok: bool, rto: U32, cwnd: nat)
    ensures var k1, k' := InputSegments(k, segs), Input(k, segs, ok, rto, cwnd);
      k'.tm.rmtWnd == k1.tm.rmtWnd && k'.tm.askTell == k1.tm.askTell && k'.cfg == k1.cfg && k'.rcv == k1.rcv
    ensures !ok || BestAck(segs).None? ==> Input(k, segs, ok, rto, cwnd).snd == InputSegments(k, segs).snd
    ensures Input(k, segs, ok, rto, cwnd).tm.rxRto == rto
    ensures var k1, k' := InputSegments(k, segs), Input(k, segs, ok, rto, cwnd);
      k'.tm.cwnd == if ok && k'.snd.una > k.snd.una then cwnd else k1.tm.cwnd
  {
    hide InputSegments, ParseFastack, BestAck;
  }

  // -------------------------------------------------------- what is reported

  /** Pending acknowledgements go out first, each once and in order; every segment of a
      flush reports the room left for the peer and the next number awaited; data carries
      the time of the flush. */
  lemma {:induction false} FlushReports(k: Kcb, cwnd: nat)
    requires k.tm.updated
    ensures var segs := FlushSegments(k);
      && |segs| >= |k.ackList| && Flush(k, cwnd).ackList == []
      && (forall i :: 0 <= i < |k.ackList| ==>
            segs[i].cmd == CMD_ACK && segs[i].sn == k.ackList[i].sn && segs[i].ts == k.ackList[i].ts)
      && (forall i :: |k.ackList| <= i < |segs| ==> segs[i].cmd != CMD_ACK)
      && (forall seg :: seg in segs ==>
            seg.wnd == Max(0, k.cfg.rcvWnd - |k.rcv.queue|) && seg.una == k.rcv.nxt)
      && (forall seg :: seg in segs && seg.cmd == CMD_PUSH ==> seg.ts == k.tm.current)
  {
    SweepKeeps(k.cfg, StampOf(k), Loaded(k).buf);
    SweepStamps(k.cfg, StampOf(k), Loaded(k).buf);
    hide Loaded, SweepAll, ArmProbe;
    var acks := AckSegments(StampOf(k), k.ackList);
    var probes := ProbeSegments(ArmProbe(k.tm), StampOf(k), LastAck(k.ackList));
    assert FlushSegments(k) == acks + probes + SweepOf(k).segs;
    assert forall seg :: seg in probes ==> seg.cmd != CMD_ACK && seg.cmd != CMD_PUSH;
  }

  lemma {:induction false} SweepStamps(cfg: Config, st: Stamp, buf: seq<Flight>)
    ensures forall seg :: seg in SweepAll(cfg, st, buf).segs ==> seg.ts == st.now
  {
    if buf != [] {
      SweepStamps(cfg, st, buf[..|buf| - 1]);
      DecideSame(cfg, st, buf[|buf| - 1]);
      hide Decide;
    }
  }

  // --------------------------------------------------------- closed windows

  ghost predicate Writes(segs: seq<Segment>, cmd: nat) {
    exists seg :: seg in segs && seg.cmd == cmd
  }

  /** A flush asks for the peer's window exactly when the last one was zero and the probe
      timer has run out, and tells its own exactly when it was asked to. Either is done
      once. */
  lemma {:induction false} ProbesExactly(k: Kcb, cwnd: nat)
    requires k.tm.updated
    ensures Writes(FlushSegments(k), CMD_WASK) <==>
      k.tm.askSend || (k.tm.rmtWnd == 0 && k.tm.probeWait != 0 && TimeDiff(k.tm.current, k.tm.tsProbe) >= 0)
    ensures Writes(FlushSegments(k), CMD_WINS) <==> k.tm.askTell
    ensures !Flush(k, cwnd).tm.askSend && !Flush(k, cwnd).tm.askTell
  {
    SweepKeeps(k.cfg, StampOf(k), Loaded(k).buf);
    hide Loaded, SweepAll;
    var st, last := StampOf(k), LastAck(k.ackList);
    var acks, probes := AckSegments(st, k.ackList), ProbeSegments(ArmProbe(k.tm), st, last);
    var segs := FlushSegments(k);
    assert segs == acks + probes + SweepOf(k).segs;
    assert forall seg :: seg in segs && (seg.cmd == CMD_WASK || seg.cmd == CMD_WINS) ==> seg in probes;
    if ArmProbe(k.tm).askSend { assert Control(st, CMD_WASK, last) in probes && Control(st, CMD_WASK, last) in segs; }
    if k.tm.askTell { assert Control(st, CMD_WINS, last) in probes && Control(st, CMD_WINS, last) in segs; }
  }

  /** The wait between probes is off, or between 7 and 120 seconds; nothing is left to
      ask between calls. */
  ghost predicate ProbeOk(t: Timers) {
    !t.askSend && (t.probeWait == 0 || 7000 <= t.probeWait <= 120000)
  }

  /** The probe timer after a flush: off while the window is open, first 7 seconds, then
      half as long again after each probe, up to two minutes. */
  lemma {:induction false} ProbeTimer(k: Kcb, cwnd: nat)
    requires k.tm.updated && ProbeOk(k.tm)
    ensures var t, t' := k.tm, Flush(k, cwnd).tm;
      && ProbeOk(t')
      && (t.rmtWnd != 0 ==> t'.probeWait == 0)
      && (t.rmtWnd == 0 && t.probeWait == 0 ==> t'.probeWait == 7000 && TimeDiff(t'.tsProbe, t.current) == 7000)
      && (Writes(FlushSegments(k), CMD_WASK) ==>
            && TimeDiff(t'.tsProbe, t.current) == t'.probeWait
            && if t.probeWait <= 80000 then 3 * t.probeWait - 1 <= 2 * t'.probeWait <= 3 * t.probeWait
               else t'.probeWait == 120000)
      && (t.rmtWnd == 0 && t.probeWait != 0 && !Writes(FlushSegments(k), CMD_WASK) ==>
            t'.probeWait == t.probeWait && t'.tsProbe == t.tsProbe)
  {
    ProbesExactly(k, cwnd);
    hide FlushSegments, SweepOf, Writes, Loaded;
    var t, t' := k.tm, Flush(k, cwnd).tm;
    var wait := t'.probeWait;
    WrapUnique(t.probeWait + t.probeWait / 2, 0);
    CircularDifference(t.current + wait, t.current);
    WrapUnique(t.current, 0);
  }

  /** Reading that makes room in a full queue is followed by telling the peer. */
  lemma {:induction false} ReadingTells(k: Kcb, len: int)
    ensures var r := Recv(k, len);
      var room := r.code >= 0 && |k.rcv.queue| >= k.cfg.rcvWnd && |r.k.rcv.queue| < k.cfg.rcvWnd;
      r.k.tm.askTell == (k.tm.askTell || room)
  {
  }

  lemma {:induction false} FlushProbes(k: Kcb, cwnd: nat)
    requires ProbeOk(k.tm)
    ensures ProbeOk(Flush(k, cwnd).tm)
  {
    if k.tm.updated { ProbeTimer(k, cwnd); }
  }

  lemma {:induction false} ActProbes(x: Peer, step: Step)
    requires x.k.cfg.Mss() > 0 && ProbeOk(x.k.tm)
    ensures ProbeOk(Act(x, step).k.tm)
  {
    match step
    case DoSend(_) =>
    case DoRecv(_) =>
    case DoUpdate(now, cwnd) =>
      FlushProbes(Ticked(x.k, now), cwnd);
    case DoFlush(cwnd) => FlushProbes(x.k, cwnd);
    case DoInput(d, rto, cwnd) =>
      InputTakesWindow(x.k, d);
      hide InputSegments, ParseFastack, BestAck;
  }

  /** In every state of every run both probe timers are within their bounds. */
  lemma {:induction false} RunProbes(run: seq<Sys>, i: nat)
    requires Run(run) && i < |run|
    ensures ProbeOk(run[i].a.k.tm) && ProbeOk(run[i].b.k.tm)
  {
    hide Act;
    if i > 0 {
      RunProbes(run, i - 1);
      assert Next(run[i - 1], run[i - 1 + 1]);
      var s, s' := run[i - 1], run[i];
      var step :| || (Enabled(s.a, s.b, step) && s' == Sys(Act(s.a, step), s.b))
                  || (Enabled(s.b, s.a, step) && s' == Sys(s.a, Act(s.b, step)));
      if Enabled(s.a, s.b, step) { ActProbes(s.a, step); }
      if Enabled(s.b, s.a, step) { ActProbes(s.b, step); }
    }
  }

  /** A new block without congestion control sends at its first flush what its own window
      and the peer's initial 128 allow; with congestion control nothing yet. */
  lemma {:induction false} FirstFlight(cfg: Config, msg: Message, now: U32)
    requires cfg.Mss() > 0 && Accepts(msg, cfg.Mss())
    ensures var k := Ticked(Send(Create(cfg), msg).k, now);
      && TickFlushes(Create(cfg).tm, now) && k.tm.updated && k.snd.queue == Cut(msg, cfg.Mss())
      && Loaded(k).nxt == if cfg.nocwnd then Min(|Cut(msg, cfg.Mss())|, Min(cfg.sndWnd, 128)) else 0
  {
    var k := Ticked(Send(Create(cfg), msg).k, now);
    WrapUnique(0, 0);
    assert [] + Cut(msg, cfg.Mss()) == Cut(msg, cfg.Mss());
    var w := if cfg.nocwnd then Min(cfg.sndWnd, 128) else 0;
    hide Cut, Loaded, TickFlushes;
    assert k.snd.queue == Cut(msg, cfg.Mss());
    FlushAdmitsExactly(k, w);
    assert TickFlushes(Create(cfg).tm, now) by { FirstTick(Create(cfg).tm, now); }
  }

  lemma {:induction false} FirstTick(t: Timers, now: U32)
    requires !t.updated
    ensures TickFlushes(t, now)
  {
    WrapUnique(0, 0);
  }

  /** Nothing goes out before the first update, and nothing is numbered. */
  ghost predicate SilentUntilUpdated(x: Peer) {
    x.k.tm.updated || (x.out == {} && x.k.snd.nxt == 0 && x.k.snd.buf == [])
  }

  lemma {:induction false} SegmentsKeepSilent(k: Kcb, segs: seq<Segment>)
    requires k.snd.buf == []
    ensures var k' := InputSegments(k, segs);
      k'.snd.buf == [] && k'.snd.nxt == k.snd.nxt && k'.tm.updated == k.tm.updated
  {
    if segs != [] { SegmentsKeepSilent(k, segs[..|segs| - 1]); }
  }

  lemma {:induction false} SegmentsKeepUpdated(k: Kcb, segs: seq<Segment>)
    ensures InputSegments(k, segs).tm.updated == k.tm.updated
  {
    if segs != [] { SegmentsKeepUpdated(k, segs[..|segs| - 1]); }
  }

  lemma {:induction false} ActSilent(x: Peer, step: Step)
    requires x.k.cfg.Mss() > 0 && SilentUntilUpdated(x)
    ensures SilentUntilUpdated(Act(x, step))
  {
    hide SweepOf, Loaded, FlushSegments, Pack;
    match step
    case DoSend(_) =>
    case DoRecv(_) =>
    case DoUpdate(now, cwnd) =>
    case DoFlush(cwnd) =>
    case DoInput(d, rto, cwnd) =>
      SegmentsKeepUpdated(x.k, d);
      if x.k.snd.buf == [] { SegmentsKeepSilent(x.k, d); }
      hide InputSegments, BestAck;
  }

  /** In every state of every run an endpoint that was never updated has sent nothing. */
  lemma {:induction false} RunSilent(run: seq<Sys>, i: nat)
    requires Run(run) && i < |run|
    ensures SilentUntilUpdated(run[i].a) && SilentUntilUpdated(run[i].b)
  {
    hide Act;
    if i > 0 {
      RunSilent(run, i - 1);
      assert Next(run[i - 1], run[i - 1 + 1]);
      var s, s' := run[i - 1], run[i];
      var step :| || (Enabled(s.a, s.b, step) && s' == Sys(Act(s.a, step), s.b))
                  || (Enabled(s.b, s.a, step) && s' == Sys(s.a, Act(s.b, step)));
      if Enabled(s.a, s.b, step) { ActSilent(s.a, step); }
      if Enabled(s.b, s.a, step) { ActSilent(s.b, step); }
    }
  }
}
