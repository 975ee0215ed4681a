/** Two KCP endpoints over a network that may lose, duplicate and reorder: any
    datagram ever output may be delivered at any later time, any number of times,
    or never. */
module KcpSystem {
  import opened Common
  import opened Machine
  import opened KcpProtocol
  import opened KcpReliability
  import opened KcpDatagrams

  /** An endpoint, everything it ever output, the messages its `ikcp_send` accepted
      and those its `ikcp_recv` returned. */
  datatype Peer = Peer(k: Kcb, out: set<Datagram>, sent: seq<Message>, got: seq<Message>)

  datatype Sys = Sys(a: Peer, b: Peer)

  datatype Step =
    | DoSend(msg: Message)
    | DoRecv(len: int)
    | DoUpdate(now: U32, cwnd: nat)
    | DoFlush(cwnd: nat)
    | DoInput(d: Datagram, rto: U32, cwnd: nat)

  ghost predicate Ready(cfg: Config) {
    cfg.Mss() > 0 && cfg.rcvWnd >= WND_RCV
  }

  ghost predicate Enabled(x: Peer, y: Peer, step: Step) {
    x.k.cfg.Mss() > 0 && (step.DoInput? ==> step.d in y.out)
  }

  ghost function Act(x: Peer, step: Step): Peer
    requires x.k.cfg.Mss() > 0
  {
    match step
    case DoSend(msg) =>
      var r := Send(x.k, msg);
      x.(k := r.k, sent := if r.code >= 0 then x.sent + [msg] else x.sent)
    case DoRecv(len) =>
      var r := Recv(x.k, len);
      x.(k := r.k, got := if r.code >= 0 && len >= 0 then x.got + [r.data] else x.got)
    case DoUpdate(now, cwnd) =>
      x.(k := Update(x.k, now, cwnd), out := x.out + set d | d in UpdateOutput(x.k, now))
    case DoFlush(cwnd) =>
      Flushed(x, cwnd)
    case DoInput(d, rto, cwnd) =>
      x.(k := Input(x.k, d, true, rto, cwnd))
  }

  ghost predicate Init(s: Sys) {
    && Ready(s.a.k.cfg) && s.a == Peer(Create(s.a.k.cfg), {}, [], [])
    && Ready(s.b.k.cfg) && s.b == Peer(Create(s.b.k.cfg), {}, [], [])
  }

  ghost predicate Next(s: Sys, s': Sys) {
    exists step ::
      || (Enabled(s.a, s.b, step) && s' == Sys(Act(s.a, step), s.b))
      || (Enabled(s.b, s.a, step) && s' == Sys(s.a, Act(s.b, step)))
  }

  ghost predicate Run(run: seq<Sys>) {
    |run| > 0 && Init(run[0]) && forall i :: 0 <= i < |run| - 1 ==> Next(run[i], run[i + 1])
  }

  // ------------------------------------------------------------ the invariant

  ghost function Segs(out: set<Datagram>): set<Segment> {
    set d, seg | d in out && seg in d :: seg
  }

  /** The direction from `x` to `y`. */
  ghost function FlowOf(x: Peer, y: Peer): Flow {
    Flow(x.k.cfg.Mss(), x.k.cfg.sndWnd, y.k.cfg.rcvWnd, x.k.snd, y.k.rcv, y.k.ackList,
         Segs(x.out), Segs(y.out), x.sent, y.got)
  }

  ghost predicate Linked(x: Peer, y: Peer) {
    Inv(FlowOf(x, y)) && Inv(FlowOf(y, x))
  }

  /** What never goes back. */
  ghost predicate Forward(x: Peer, x': Peer) {
    && x.k.snd.una <= x'.k.snd.una
    && x.sent <= x'.sent && x.got <= x'.got && x.out <= x'.out
    && x.k.cfg == x'.k.cfg
  }

  lemma {:induction false} OutputSegs(out: set<Datagram>, k: Kcb)
    ensures Segs(out + set d | d in FlushOutput(k)) == Segs(out) + Written(k)
  {
    if k.tm.updated {
      PackFlattens(FlushSegments(k), k.cfg.mtu);
      FlattenContains(FlushOutput(k));
    }
  }

  lemma {:induction false} InputSegmentsKeepReceiver(f: Flow, k: Kcb, segs: seq<Segment>)
    requires Inv(f) && k.rcv == f.rcv && k.ackList == f.acks && k.cfg.rcvWnd == f.rcvWnd
    requires forall seg :: seg in segs ==> seg in f.fwd
    ensures var k' := InputSegments(k, segs);
            k'.cfg == k.cfg && Inv(f.(rcv := k'.rcv, acks := k'.ackList))
  {
    if segs != [] {
      var front := segs[..|segs| - 1];
      InputSegmentsKeepReceiver(f, k, front);
      var k1 := InputSegments(k, front);
      SegmentReachesReceiver(f.(rcv := k1.rcv, acks := k1.ackList), segs[|segs| - 1]);
    } else {
      assert f.(rcv := k.rcv, acks := k.ackList) == f;
    }
  }

  lemma {:induction false} InputSegmentsKeepSender(f: Flow, k: Kcb, segs: seq<Segment>)
    requires Inv(f) && k.snd == f.snd
    requires forall seg :: seg in segs ==> seg in f.back
    ensures var k' := InputSegments(k, segs);
            k'.snd.una >= k.snd.una && Inv(f.(snd := k'.snd))
  {
    if segs != [] {
      var front := segs[..|segs| - 1];
      InputSegmentsKeepSender(f, k, front);
      SegmentReachesSender(f.(snd := InputSegments(k, front).snd), segs[|segs| - 1]);
    } else {
      assert f.(snd := k.snd) == f;
    }
  }

  lemma {:induction false} InputKeeps(x: Peer, y: Peer, d: Datagram, rto: U32, cwnd: nat)
    requires Linked(x, y) && d in y.out
    ensures var x' := x.(k := Input(x.k, d, true, rto, cwnd)); Linked(x', y) && Forward(x, x')
  {
    assert forall seg :: seg in d ==> seg in Segs(y.out);
    var f, g := FlowOf(x, y), FlowOf(y, x);
    var k1 := InputSegments(x.k, d);
    var x' := x.(k := Input(x.k, d, true, rto, cwnd));
    InputSegmentsKeepReceiver(g, x.k, d);
    InputSegmentsKeepSender(f, x.k, d);
    var best := BestAck(d);
    if best.Some? {
      BumpFastackSame(k1.snd.buf, best.value.sn, best.value.ts);
    }
    BookkeepingKeeps(f.(snd := k1.snd), x'.k.snd.buf);
    assert FlowOf(x', y) == f.(snd := k1.snd.(buf := x'.k.snd.buf));
    assert FlowOf(y, x') == g.(rcv := k1.rcv, acks := k1.ackList);
  }

  ghost function Flushed(x: Peer, cwnd: nat): Peer {
    x.(k := Flush(x.k, cwnd), out := x.out + set d | d in FlushOutput(x.k))
  }

  lemma {:induction false} FlushFlows(x: Peer, y: Peer, cwnd: nat)
    ensures Flush(x.k, cwnd).cfg == x.k.cfg
    ensures FlowOf(Flushed(x, cwnd), y) == FlowOf(x, y).(snd := Flush(x.k, cwnd).snd, fwd := Segs(x.out) + Written(x.k))
    ensures FlowOf(y, Flushed(x, cwnd)) == FlowOf(y, x).(acks := Flush(x.k, cwnd).ackList, back := Segs(x.out) + Written(x.k))
  {
    OutputSegs(x.out, x.k);
  }

  lemma {:induction false} FlushKeeps(x: Peer, y: Peer, cwnd: nat)
    requires Linked(x, y)
    ensures Linked(Flushed(x, cwnd), y) && Forward(x, Flushed(x, cwnd))
  {
    FlushFlows(x, y, cwnd);
    FlushKeepsSender(FlowOf(x, y), x.k, cwnd);
    FlushKeepsReceiver(FlowOf(y, x), x.k, cwnd);
  }

  lemma {:induction false} UpdateKeeps(x: Peer, y: Peer, now: U32, cwnd: nat)
    requires Linked(x, y)
    ensures var x' := x.(k := Update(x.k, now, cwnd), out := x.out + set d | d in UpdateOutput(x.k, now));
            Linked(x', y) && Forward(x, x')
  {
    var x1 := x.(k := Ticked(x.k, now));
    assert FlowOf(x1, y) == FlowOf(x, y) && FlowOf(y, x1) == FlowOf(y, x);
    if TickFlushes(x.k.tm, now) {
      FlushKeeps(x1, y, cwnd);
    } else {
      assert x1.(out := x.out + {}) == x1;
    }
  }

  lemma {:induction false} SendRecvKeep(x: Peer, y: Peer, step: Step)
    requires Linked(x, y) && (step.DoSend? || step.DoRecv?)
    ensures Linked(Act(x, step), y) && Forward(x, Act(x, step))
  {
    var f, g, x' := FlowOf(x, y), FlowOf(y, x), Act(x, step);
    if step.DoSend? {
      if Accepts(step.msg, f.mss) {
        SendKeeps(f, step.msg);
        assert FlowOf(x', y) == f.(snd := f.snd.(queue := f.snd.queue + Cut(step.msg, f.mss)), sent := f.sent + [step.msg]);
      }
      assert FlowOf(y, x') == g;
    } else {
      RecvKeeps(g, x.k, step.len);
      assert FlowOf(y, x') == g.(rcv := x'.k.rcv, got := x'.got);
      assert FlowOf(x', y) == f;
    }
  }

  lemma {:induction false} ActKeeps(x: Peer, y: Peer, step: Step)
    requires Linked(x, y) && Enabled(x, y, step)
    ensures Linked(Act(x, step), y) && Forward(x, Act(x, step))
  {
    match step
    case DoSend(_) => SendRecvKeep(x, y, step);
    case DoRecv(_) => SendRecvKeep(x, y, step);
    case DoUpdate(now, cwnd) => UpdateKeeps(x, y, now, cwnd);
    case DoFlush(cwnd) => FlushKeeps(x, y, cwnd);
    case DoInput(d, rto, cwnd) => InputKeeps(x, y, d, rto, cwnd);
  }

  lemma {:induction false} InitKeeps(s: Sys)
    requires Init(s)
    ensures Linked(s.a, s.b)
  {
    assert Segs({}) == {};
  }

  lemma {:induction false} NextKeeps(s: Sys, s': Sys)
    requires Linked(s.a, s.b) && Next(s, s')
    ensures Linked(s'.a, s'.b) && Forward(s.a, s'.a) && Forward(s.b, s'.b)
  {
    var step :| || (Enabled(s.a, s.b, step) && s' == Sys(Act(s.a, step), s.b))
                || (Enabled(s.b, s.a, step) && s' == Sys(s.a, Act(s.b, step)));
    if Enabled(s.a, s.b, step) && s' == Sys(Act(s.a, step), s.b) {
      ActKeeps(s.a, s.b, step);
    } else {
      ActKeeps(s.b, s.a, step);
    }
  }

  lemma {:induction false} RunKeeps(run: seq<Sys>, i: nat)
    requires Run(run) && i < |run|
    ensures Linked(run[i].a, run[i].b)
  {
    hide Linked, Init, Next;
    if i == 0 {
      InitKeeps(run[0]);
    } else {
      RunKeeps(run, i - 1);
      NextKeeps(run[i - 1], run[i]);
    }
  }

  // ---------------------------------------------------------------- theorems

  /** End-to-end reliability: in every state of every run, what each side has
      received is, message by message, a prefix of what the other side sent. */
  lemma {:induction false} EndToEnd(run: seq<Sys>, i: nat)
    requires Run(run) && i < |run|
    ensures run[i].b.got <= run[i].a.sent && run[i].a.got <= run[i].b.sent
  {
    RunKeeps(run, i);
  }

  /** Acknowledged implies received: each segment ever numbered is still held by
      its sender or has reached the peer. */
  lemma {:induction false} AcknowledgedImpliesReceived(run: seq<Sys>, i: nat, sn: nat)
    requires Run(run) && i < |run|
    ensures sn < run[i].a.k.snd.nxt ==> Held(run[i].a.k.snd.buf, sn) || Received(run[i].b.k.rcv, sn)
    ensures sn < run[i].b.k.snd.nxt ==> Held(run[i].b.k.snd.buf, sn) || Received(run[i].a.k.rcv, sn)
  {
    RunKeeps(run, i);
    assert NothingForgotten(run[i].a.k.snd, run[i].b.k.rcv);
    assert NothingForgotten(run[i].b.k.snd, run[i].a.k.rcv);
  }

  /** What the queues of one endpoint look like. */
  ghost predicate Windowed(k: Kcb) {
    && k.snd.una <= k.snd.nxt <= k.snd.una + k.cfg.sndWnd
    && AscendingFlights(k.snd.buf)
    && (forall f :: f in k.snd.buf ==> k.snd.una <= f.sn < k.snd.nxt)
    && AscendingNumbers(k.rcv.buf)
    && (forall x :: x in k.rcv.buf ==> k.rcv.nxt <= x.sn < k.rcv.nxt + k.cfg.rcvWnd)
    && |k.rcv.queue| <= Min(k.rcv.nxt, k.cfg.rcvWnd)
    && (forall j :: 0 <= j < |k.rcv.queue| ==> k.rcv.queue[j].sn == k.rcv.nxt - |k.rcv.queue| + j)
  }

  lemma {:induction false} LinkedWindowed(x: Peer, y: Peer)
    requires Linked(x, y)
    ensures Windowed(x.k)
  {
    forall f | f in x.k.snd.buf ensures x.k.snd.una <= f.sn {
      var j :| 0 <= j < |x.k.snd.buf| && x.k.snd.buf[j] == f;
    }
    if x.k.snd.buf != [] {
      assert x.k.snd.buf[0] in x.k.snd.buf;
    }
  }

  lemma {:induction false} WindowStructure(run: seq<Sys>, i: nat)
    requires Run(run) && i < |run|
    ensures Windowed(run[i].a.k) && Windowed(run[i].b.k)
  {
    RunKeeps(run, i);
    LinkedWindowed(run[i].a, run[i].b);
    LinkedWindowed(run[i].b, run[i].a);
  }

  lemma {:induction false} ForwardTransitive(x: Peer, y: Peer, z: Peer)
    requires Forward(x, y) && Forward(y, z)
    ensures Forward(x, z)
  {
  }

  lemma {:induction false} ForwardReflexive(x: Peer)
    ensures Forward(x, x)
  {
  }

  lemma {:induction false} StepForward(run: seq<Sys>, i: nat)
    requires Run(run) && i + 1 < |run|
    ensures Forward(run[i].a, run[i + 1].a) && Forward(run[i].b, run[i + 1].b)
  {
    RunKeeps(run, i);
    NextKeeps(run[i], run[i + 1]);
  }

  /** `snd_una` never decreases, and neither log ever loses or changes an entry. */
  lemma {:induction false} NeverGoesBack(run: seq<Sys>, i: nat, j: nat)
    requires Run(run) && i <= j < |run|
    ensures Forward(run[i].a, run[j].a) && Forward(run[i].b, run[j].b)
    decreases j
  {
    hide Forward, Init, Next;
    if i == j {
      ForwardReflexive(run[i].a);
      ForwardReflexive(run[i].b);
    } else {
      NeverGoesBack(run, i, j - 1);
      StepForward(run, j - 1);
      ForwardTransitive(run[i].a, run[j - 1].a, run[j].a);
      ForwardTransitive(run[i].b, run[j - 1].b, run[j].b);
    }
  }

  /** No reassembly deadlock: with a full `rcv_queue`, a large enough buffer always
      gets the next message of the peer. */
  lemma {:induction false} NoReassemblyDeadlock(run: seq<Sys>, i: nat, len: nat)
    requires Run(run) && i < |run|
    requires var k := run[i].b.k; |k.rcv.queue| >= k.cfg.rcvWnd && len >= PeekSize(k.rcv.queue)
    ensures |run[i].b.got| < |run[i].a.sent|
    ensures var r := Recv(run[i].b.k, len);
            r.code == |r.data| && r.data == run[i].a.sent[|run[i].b.got|]
  {
    RunKeeps(run, i);
    var f := FlowOf(run[i].a, run[i].b);
    HeadIsNextMessage(f);
    FullQueueIsReadable(f);
  }

  /** Nothing is lost in the end: once `ikcp_waitsnd` is zero at one side and the
      other has drained its queue, everything sent has been delivered. */
  lemma {:induction false} QuietMeansDelivered(run: seq<Sys>, i: nat)
    requires Run(run) && i < |run|
    requires var k := run[i].a.k; |k.snd.buf| + |k.snd.queue| == 0
    requires run[i].b.k.rcv.queue == []
    ensures run[i].b.got == run[i].a.sent
  {
    RunKeeps(run, i);
    DrainedMeansDelivered(FlowOf(run[i].a, run[i].b));
  }
}
