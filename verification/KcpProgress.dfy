/** What makes KCP go on: a flush writes exactly the segments that are new, timed out
    or skipped often enough, and one exchange that gets through acknowledges the
    oldest of them. */
module KcpProgress {
  import opened Machine
  import opened KcpProtocol
  import opened KcpReliability
  import opened KcpDatagrams
  import opened KcpSystem

  // --------------------------------------------------------- what a flush writes

  /** New, timed out, or skipped by enough later acknowledgements. */
  ghost predicate IsDue(cfg: Config, now: U32, f: Flight) {
    || f.xmit == 0
    || TimeDiff(now, f.resendts) >= 0
    || (f.fastack >= (if cfg.fastresend > 0 then cfg.fastresend else 0xffff_ffff) && (f.xmit <= cfg.fastlimit || cfg.fastlimit <= 0))
  }

  /** The data of a flight is among the segments. */
  ghost predicate Carries(segs: seq<Segment>, f: Flight) {
    exists seg :: seg in segs && seg.cmd == CMD_PUSH && seg.sn == f.sn && seg.frag == f.frag
  }

  lemma {:induction false} DecideExactly(cfg: Config, st: Stamp, f: Flight)
    ensures Decide(cfg, st, f).send <==> IsDue(cfg, st.now, f)
    ensures Decide(cfg, st, f).flight.sn == f.sn && Decide(cfg, st, f).flight.frag == f.frag
  {
  }

  lemma {:induction false} CarriesConcat(a: seq<Segment>, b: seq<Segment>, f: Flight)
    ensures Carries(a + b, f) <==> Carries(a, f) || Carries(b, f)
  {
    if Carries(a, f) {
      var seg :| seg in a && seg.cmd == CMD_PUSH && seg.sn == f.sn && seg.frag == f.frag;
      assert seg in a + b;
    }
    if Carries(b, f) {
      var seg :| seg in b && seg.cmd == CMD_PUSH && seg.sn == f.sn && seg.frag == f.frag;
      assert seg in a + b;
    }
  }

  lemma {:induction false} CarriesOne(g: Flight, f: Flight)
    ensures Carries([Data(g)], f) <==> g.sn == f.sn && g.frag == f.frag
  {
    assert Data(g) in [Data(g)];
  }

  lemma {:induction false} LastIsApart(buf: seq<Flight>, f: Flight)
    requires AscendingFlights(buf) && buf != [] && f in buf[..|buf| - 1]
    ensures f.sn != buf[|buf| - 1].sn
  {
    var i :| 0 <= i < |buf| - 1 && buf[i] == f;
  }

  lemma {:induction false} SweepWrites(cfg: Config, st: Stamp, buf: seq<Flight>, f: Flight)
    requires AscendingFlights(buf) && f in buf
    ensures Carries(SweepAll(cfg, st, buf).segs, f) <==> IsDue(cfg, st.now, f)
  {
    hide IsDue, Decide, Carries;
    var front, last := buf[..|buf| - 1], buf[|buf| - 1];
    assert buf == front + [last];
    var s, d := SweepAll(cfg, st, front), Decide(cfg, st, last);
    DecideExactly(cfg, st, last);
    CarriesConcat(s.segs, [Data(d.flight)], f);
    CarriesOne(d.flight, f);
    if f in front {
      SweepWrites(cfg, st, front, f);
      LastIsApart(buf, f);
    } else {
      NotCarried(cfg, st, buf);
    }
  }

  lemma {:induction false} NotCarried(cfg: Config, st: Stamp, buf: seq<Flight>)
    requires AscendingFlights(buf) && buf != []
    ensures !Carries(SweepAll(cfg, st, buf[..|buf| - 1]).segs, buf[|buf| - 1])
  {
    var front := buf[..|buf| - 1];
    SweepKeeps(cfg, st, front);
    hide SweepAll;
    forall seg | seg in SweepAll(cfg, st, front).segs ensures seg.sn != buf[|buf| - 1].sn {
      var g :| g in front && g.sn == seg.sn;
      LastIsApart(buf, g);
    }
  }

  /** A flush writes the data of a segment in flight exactly when it is due. */
  lemma {:induction false} FlushWritesExactlyTheDue(k: Kcb, f: Flight)
    requires AscendingFlights(Loaded(k).buf) && f in Loaded(k).buf
    ensures Carries(FlushSegments(k), f) <==> IsDue(k.cfg, k.tm.current, f)
  {
    SweepWrites(k.cfg, StampOf(k), Loaded(k).buf, f);
    hide Decide;
    var acks := AckSegments(StampOf(k), k.ackList);
    var probes := ProbeSegments(ArmProbe(k.tm), StampOf(k), LastAck(k.ackList));
    hide Loaded, SweepAll, IsDue;
    assert forall seg :: seg in acks ==> seg.cmd != CMD_PUSH;
    assert forall seg :: seg in probes ==> seg.cmd != CMD_PUSH;
    assert FlushSegments(k) == acks + probes + SweepOf(k).segs;
    if Carries(SweepOf(k).segs, f) {
      var seg :| seg in SweepOf(k).segs && seg.cmd == CMD_PUSH && seg.sn == f.sn && seg.frag == f.frag;
      assert seg in FlushSegments(k);
    }
  }

  // ------------------------------------------------------- one exchange

  lemma {:induction false} MoveReadyForward(r: Receiving, wnd: nat)
    ensures MoveReady(r, wnd).nxt >= r.nxt
    decreases |r.buf|
  {
    if r.buf != [] && r.buf[0].sn == r.nxt && |r.queue| < wnd {
      MoveReadyForward(Receiving(r.nxt + 1, r.buf[1..], r.queue + [r.buf[0]]), wnd);
    }
  }

  lemma {:induction false} InputForward(k: Kcb, segs: seq<Segment>)
    ensures InputSegments(k, segs).rcv.nxt >= k.rcv.nxt && InputSegments(k, segs).cfg == k.cfg
    ensures InputSegments(k, segs).tm.updated == k.tm.updated
  {
    if segs != [] {
      var k1, seg := InputSegments(k, segs[..|segs| - 1]), segs[|segs| - 1];
      InputForward(k, segs[..|segs| - 1]);
      MoveReadyForward(k1.rcv.(buf := Insert(k1.rcv.buf, Numbered(seg.sn, seg.frag))), k1.cfg.rcvWnd);
    }
  }

  /** Data within the window, old or new, is acknowledged. */
  lemma {:induction false} DataIsAcknowledged(k: Kcb, segs: seq<Segment>, seg: Segment)
    requires seg in segs && seg.cmd == CMD_PUSH && seg.sn < k.rcv.nxt + k.cfg.rcvWnd
    ensures Ack(seg.sn, seg.ts) in InputSegments(k, segs).ackList
  {
    var front := segs[..|segs| - 1];
    assert segs == front + [segs[|segs| - 1]];
    InputForward(k, front);
    hide SendingInput, ReceivingInput;
    if seg in front { DataIsAcknowledged(k, front, seg); }
  }

  /** `snd_una` is the first number in flight. */
  ghost predicate Tight(s: Sending) {
    && AscendingFlights(s.buf) && (forall f :: f in s.buf ==> f.sn < s.nxt)
    && s.una == (if s.buf != [] then s.buf[0].sn else s.nxt)
  }

  lemma {:induction false} TrimmedTight(s: Sending, buf: seq<Flight>)
    requires Tight(s) && Trimmed(s.buf, buf)
    ensures Tight(ShrinkBuf(s.(buf := buf))) && ShrinkBuf(s.(buf := buf)).una >= s.una
  {
    if buf != [] {
      assert buf[0] in buf && buf[0] in s.buf;
      var i :| 0 <= i < |s.buf| && s.buf[i] == buf[0];
    } else if s.buf != [] {
      assert s.buf[0] in s.buf;
    }
  }

  lemma {:induction false} RemovedIsGone(buf: seq<Flight>, sn: nat)
    requires AscendingFlights(buf)
    ensures forall f :: f in RemoveSn(buf, sn) ==> f.sn != sn
  {
    if buf != [] {
      if sn > buf[0].sn {
        RemovedIsGone(buf[1..], sn);
      } else {
        forall f | f in RemoveSn(buf, sn) ensures f.sn != sn {
          var i :| 0 <= i < |buf| && buf[i] == f;
        }
      }
    }
  }

  lemma {:induction false} SegmentKeepsTight(s: Sending, seg: Segment)
    requires Tight(s)
    ensures var s' := SendingInput(s, seg);
      && Tight(s') && s'.una >= s.una && s'.nxt == s.nxt
      && (seg.cmd == CMD_ACK && s.una <= seg.sn < s.nxt ==> s'.una != seg.sn)
  {
    DropBelowTrims(s.buf, seg.una);
    TrimmedTight(s, DropBelow(s.buf, seg.una));
    var s1 := ShrinkBuf(ParseUna(s, seg.una));
    if seg.cmd == CMD_ACK {
      RemoveSnTrims(s1.buf, seg.sn);
      TrimmedTight(s1, RemoveSn(s1.buf, seg.sn));
      RemovedIsGone(s1.buf, seg.sn);
      hide DropBelow, RemoveSn;
      var s2 := ShrinkBuf(ParseAck(s1, seg.sn));
      if s2.buf != [] { assert s2.buf[0] in s2.buf; }
    }
  }

  /** An acknowledgement of the oldest segment moves `snd_una` past it. */
  lemma {:induction false} AckMovesUna(k: Kcb, segs: seq<Segment>, sn: nat)
    requires Tight(k.snd) && k.snd.una == sn < k.snd.nxt
    ensures var s := InputSegments(k, segs).snd;
      && Tight(s) && s.una >= sn && s.nxt == k.snd.nxt
      && ((exists seg :: seg in segs && seg.cmd == CMD_ACK && seg.sn == sn) ==> s.una > sn)
  {
    if segs != [] {
      var front, last := segs[..|segs| - 1], segs[|segs| - 1];
      assert segs == front + [last];
      AckMovesUna(k, front, sn);
      SegmentKeepsTight(InputSegments(k, front).snd, last);
      hide SendingInput, ReceivingInput, Tight;
    }
  }

  lemma {:induction false} InputMovesUna(k: Kcb, segs: seq<Segment>, sn: nat, rto: U32, cwnd: nat)
    requires Tight(k.snd) && k.snd.una == sn < k.snd.nxt
    requires exists seg :: seg in segs && seg.cmd == CMD_ACK && seg.sn == sn
    ensures Input(k, segs, true, rto, cwnd).snd.una > sn
  {
    AckMovesUna(k, segs, sn);
    hide InputSegments, BestAck;
  }

  lemma {:induction false} InDatagram(segs: seq<Segment>, mtu: nat, seg: Segment) returns (d: Datagram)
    requires seg in segs
    ensures d in Pack(segs, mtu) && seg in d
  {
    PackFlattens(segs, mtu);
    FlattenContains(Pack(segs, mtu));
    d :| d in Pack(segs, mtu) && seg in d;
  }

  lemma {:induction false} FlushedTight(k: Kcb, cwnd: nat)
    requires k.tm.updated && Tight(Loaded(k))
    ensures Tight(Flush(k, cwnd).snd) && Flush(k, cwnd).snd.una == Loaded(k).una &&
            Flush(k, cwnd).snd.nxt == Loaded(k).nxt
  {
    SweepKeeps(k.cfg, StampOf(k), Loaded(k).buf);
    hide Loaded;
    var s, b := Loaded(k), SweepOf(k).buf;
    forall f | f in b ensures f.sn < s.nxt {
      var i :| 0 <= i < |b| && b[i] == f;
      assert s.buf[i] in s.buf;
    }
  }

  /** Progress: if the oldest segment in flight is due at a flush and within the peer's
      window, then some datagram of that flush, delivered, makes some datagram of the
      peer's next flush one whose delivery moves `snd_una` past the segment. */
  lemma {:induction false} ExchangeAcknowledges(a: Kcb, b: Kcb, rto: U32, cwnd: nat) returns (d: Datagram, e: Datagram)
    requires a.tm.updated && b.tm.updated && Tight(Loaded(a)) && Loaded(a).buf != []
    requires IsDue(a.cfg, a.tm.current, Loaded(a).buf[0]) && Loaded(a).buf[0].sn < b.rcv.nxt + b.cfg.rcvWnd
    ensures d in FlushOutput(a)
    ensures e in FlushOutput(Input(b, d, true, rto, cwnd))
    ensures Input(Flush(a, cwnd), e, true, rto, cwnd).snd.una > Loaded(a).una
  {
    var f := Loaded(a).buf[0];
    assert f in Loaded(a).buf;
    FlushWritesExactlyTheDue(a, f);
    FlushedTight(a, cwnd);
    hide Loaded, FlushSegments, IsDue, Tight, Flush, Input;
    var seg :| seg in FlushSegments(a) && seg.cmd == CMD_PUSH && seg.sn == f.sn && seg.frag == f.frag;
    d := InDatagram(FlushSegments(a), a.cfg.mtu, seg);
    e := AcksFlushed(b, d, seg, rto, cwnd);
    OldestHolds(Loaded(a));
    InputMovesUna(Flush(a, cwnd), e, f.sn, rto, cwnd);
  }

  lemma {:induction false} OldestHolds(s: Sending)
    requires Tight(s) && s.buf != []
    ensures s.una == s.buf[0].sn < s.nxt
  {
    assert s.buf[0] in s.buf;
  }

  /** The acknowledgement of delivered data is in the next flush. */
  lemma {:induction false} AcksFlushed(b: Kcb, d: Datagram, seg: Segment, rto: U32, cwnd: nat) returns (e: Datagram)
    requires b.tm.updated && seg in d && seg.cmd == CMD_PUSH && seg.sn < b.rcv.nxt + b.cfg.rcvWnd
    ensures e in FlushOutput(Input(b, d, true, rto, cwnd))
    ensures exists x :: x in e && x.cmd == CMD_ACK && x.sn == seg.sn
  {
    DataIsAcknowledged(b, d, seg);
    InputForward(b, d);
    var k := Input(b, d, true, rto, cwnd);
    hide InputSegments, BestAck, Loaded;
    var i :| 0 <= i < |k.ackList| && k.ackList[i] == Ack(seg.sn, seg.ts);
    var acks := AckSegments(StampOf(k), k.ackList);
    assert acks[i].cmd == CMD_ACK && acks[i].sn == seg.sn && acks[i] in acks;
    assert acks[i] in FlushSegments(k);
    e := InDatagram(FlushSegments(k), k.cfg.mtu, acks[i]);
  }

  // -------------------------------------------------------- in every run

  lemma {:induction false} SenderIsTight(s: Sending, wnd: nat, stream: seq<Fragment>)
    requires Sender(s, wnd, stream)
    ensures Tight(s)
  {
  }

  /** While the peer's queue has room, the oldest segment in flight is the next one it
      waits for, or an earlier one. */
  lemma {:induction false} OldestIsAwaited(f: Flow)
    requires KcpReliability.Inv(f) && |f.rcv.queue| < f.rcvWnd
    ensures f.snd.una <= f.rcv.nxt
  {
    NextIsMissing(f);
    if f.rcv.nxt < f.snd.una { NotHeldBelow(f.snd.buf, f.rcv.nxt); }
  }

  /** With room in the queue the next number is not waiting out of order. */
  lemma {:induction false} NextIsMissing(f: Flow)
    requires KcpReliability.Inv(f) && |f.rcv.queue| < f.rcvWnd
    ensures !Received(f.rcv, f.rcv.nxt)
  {
    var buf := f.rcv.buf;
    forall x | x in buf ensures x.sn != f.rcv.nxt {
      var j :| 0 <= j < |buf| && buf[j] == x;
      assert buf[0] in buf;
    }
  }

  lemma {:induction false} NotHeldBelow(buf: seq<Flight>, sn: nat)
    requires AscendingFlights(buf) && (buf != [] ==> sn < buf[0].sn)
    ensures !Held(buf, sn)
  {
    forall f | f in buf ensures f.sn != sn {
      var j :| 0 <= j < |buf| && buf[j] == f;
    }
  }

  lemma {:induction false} LoadedIsTight(f: Flow, k: Kcb)
    requires KcpReliability.Inv(f) && f.snd == k.snd && f.sndWnd == k.cfg.sndWnd
    ensures Tight(Loaded(k)) && Loaded(k).una == k.snd.una
  {
    LoadKeeps(f, SendLimit(k.cfg, k.tm), StampOf(k));
    hide Admit;
    SenderIsTight(Loaded(k), f.sndWnd, Stream(f.sent, f.mss));
  }

  /** In every reachable state: when the peer has room in its queue and the oldest
      segment is due, one exchange that gets through moves `snd_una` on. */
  lemma {:induction false} OneExchangeSuffices(run: seq<Sys>, i: nat, rto: U32, cwnd: nat)
    returns (d: Datagram, e: Datagram)
    requires Run(run) && i < |run| && run[i].a.k.tm.updated && run[i].b.k.tm.updated
    requires var k := run[i].a.k; Loaded(k).buf != [] && IsDue(k.cfg, k.tm.current, Loaded(k).buf[0])
    requires |run[i].b.k.rcv.queue| < run[i].b.k.cfg.rcvWnd
    ensures d in FlushOutput(run[i].a.k)
    ensures e in FlushOutput(Input(run[i].b.k, d, true, rto, cwnd))
    ensures Input(Flush(run[i].a.k, cwnd), e, true, rto, cwnd).snd.una > run[i].a.k.snd.una
  {
    RunKeeps(run, i);
    var f := FlowOf(run[i].a, run[i].b);
    OldestIsAwaited(f);
    LoadedIsTight(f, run[i].a.k);
    hide Loaded, KcpReliability.Inv, Tight, IsDue, Run;
    OldestHolds(Loaded(run[i].a.k));
    d, e := ExchangeAcknowledges(run[i].a.k, run[i].b.k, rto, cwnd);
  }
}
