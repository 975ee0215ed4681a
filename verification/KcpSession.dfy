/** One session around a KCP block: a datagram in, a message out to the peer, and the
    messages that are complete. */
module KcpSession {
  import opened Machine
  import opened KcpProtocol
  import S = KcpSystem
  import W = KcpWire

  /** A block and the messages taken out of it. */
  datatype Drain = Drain(k: Kcb, msgs: seq<Message>)

  function Stock(r: Receiving): nat {
    |r.queue| + |r.buf|
  }

  lemma {:induction false} MoveReadyKeepsStock(r: Receiving, wnd: nat)
    ensures Stock(MoveReady(r, wnd)) == Stock(r)
    decreases |r.buf|
  {
    if r.buf != [] && r.buf[0].sn == r.nxt && |r.queue| < wnd {
      MoveReadyKeepsStock(Receiving(r.nxt + 1, r.buf[1..], r.queue + [r.buf[0]]), wnd);
    }
  }

  /** Reading a message that is there takes segments away. */
  lemma {:induction false} RecvTakes(k: Kcb)
    requires PeekSize(k.rcv.queue) > 0
    ensures var r := Recv(k, PeekSize(k.rcv.queue));
      && r.code == PeekSize(k.rcv.queue) == |r.data| && Stock(r.k.rcv) < Stock(k.rcv)
      && r.k.snd == k.snd && r.k.cfg == k.cfg
  {
    var q := k.rcv.queue;
    var n := HeadCount(q);
    if q[0].frag.frg == 0 {
      assert q[..1] == [q[0]] && [q[0]][1..] == [];
      assert Join([q[0]]) == q[0].frag.data + [] == q[0].frag.data;
    }
    MoveReadyKeepsStock(k.rcv.(queue := q[n..]), k.cfg.rcvWnd);
  }

  /** A read succeeds exactly when a message is complete and the buffer large enough. It
      then returns all of it and its length; with a negative length the message stays. A
      failed read changes nothing. */
  lemma {:induction false} RecvExactly(k: Kcb, len: int)
    ensures var r, size := Recv(k, len), PeekSize(k.rcv.queue);
      && (r.code >= 0 <==> 0 <= size <= (if len < 0 then -len else len))
      && (r.code >= 0 ==> r.code == size == |r.data|)
      && (r.code < 0 ==> r.k == k && r.data == [])
      && (r.code >= 0 && len < 0 ==> k.rcv.queue <= r.k.rcv.queue && Stock(r.k.rcv) == Stock(k.rcv))
      && (r.code >= 0 && len >= 0 ==> Stock(r.k.rcv) < Stock(k.rcv))
  {
    var q := k.rcv.queue;
    var n := HeadCount(q);
    if q != [] && q[0].frag.frg == 0 {
      assert q[..1] == [q[0]] && [q[0]][1..] == [];
      assert Join([q[0]]) == q[0].frag.data + [] == q[0].frag.data;
    }
    MoveReadyKeepsStock(k.rcv.(queue := q[n..]), k.cfg.rcvWnd);
    MoveReadyKeepsStock(k.rcv, k.cfg.rcvWnd);
    MoveReadyKeepsHead(k.rcv, k.cfg.rcvWnd);
  }

  lemma {:induction false} MoveReadyKeepsHead(r: Receiving, wnd: nat)
    ensures r.queue <= MoveReady(r, wnd).queue
    decreases |r.buf|
  {
    if r.buf != [] && r.buf[0].sn == r.nxt && |r.queue| < wnd {
      MoveReadyKeepsHead(Receiving(r.nxt + 1, r.buf[1..], r.queue + [r.buf[0]]), wnd);
    }
  }

  /** Reading until no message, or an empty one, is at the head. */
  function Drained(k: Kcb): (d: Drain)
    ensures PeekSize(d.k.rcv.queue) <= 0 && d.k.snd == k.snd && d.k.cfg == k.cfg
    ensures forall m :: m in d.msgs ==> m != []
    decreases Stock(k.rcv)
  {
    var size := PeekSize(k.rcv.queue);
    if size <= 0 then Drain(k, []) else
      RecvTakes(k);
      var r := Recv(k, size);
      var d := Drained(r.k);
      Drain(d.k, [r.data] + d.msgs)
  }

  /** The loop. It ends, because every turn takes segments out of the block. */
  method DrainMessages(k: Kcb) returns (k': Kcb, msgs: seq<Message>)
    ensures Drained(k) == Drain(k', msgs)
  {
    hide Recv, PeekSize;
    k', msgs := k, [];
    while true
      invariant Drained(k) == Drain(Drained(k').k, msgs + Drained(k').msgs)
      decreases Stock(k'.rcv)
    {
      var peek := PeekSize(k'.rcv.queue);
      if peek <= 0 {
        assert msgs + [] == msgs;
        return;
      }
      RecvTakes(k');
      var r := Recv(k', peek);
      assert msgs + ([r.data] + Drained(r.k).msgs) == msgs + [r.data] + Drained(r.k).msgs;
      k', msgs := r.k, msgs + [r.data];
    }
  }

  /** The block after a datagram, and the return code. The clock moves on only when the
      datagram is accepted. */
  function InputPacket(k: Kcb, conv: Conv, b: seq<Byte>, now: U32, rto: U32, cwnd: nat, next: nat): Outcome {
    if b == [] then Outcome(k, -1, []) else
      var r := W.InputBytes(k, conv, b, rto, cwnd);
      if r.code < 0 then r else Outcome(Update(r.k, now, next), r.code, [])
  }

  /** The block after a message of the application, and the return code. */
  function SendAppData(k: Kcb, data: Message, now: U32, cwnd: nat): Outcome
    requires k.cfg.Mss() > 0
  {
    if data == [] || |data| >= HALF_WORD then Outcome(k, -1, []) else
      var r := Send(k, data);
      if r.code < 0 then r else Outcome(Update(r.k, now, cwnd), r.code, [])
  }

  lemma {:induction false} UpdateSetsClock(k: Kcb, now: U32, cwnd: nat)
    ensures Update(k, now, cwnd).tm.current == now && Update(k, now, cwnd).tm.updated
  {
    hide SweepOf, Loaded;
  }

  /** A datagram that is accepted moves the clock on, and at flush time it is acknowledged
      at once; one that is refused does neither. */
  lemma {:induction false} InputMovesClock(k: Kcb, conv: Conv, b: seq<Byte>, now: U32, rto: U32, cwnd: nat, next: nat)
    ensures var r := InputPacket(k, conv, b, now, rto, cwnd, next);
      && (|b| < 52 ==> r.code == -1 && r.k == k)
      && (r.code >= 0 ==> r.k.tm.current == now && r.k.tm.updated)
      && (r.code >= 0 && TickFlushes(k.tm, now) ==> r.k.ackList == [])
      && (r.code < 0 ==> r.k.tm.current == k.tm.current)
  {
    var p := W.Parse(conv, b);
    var k1 := W.InputBytes(k, conv, b, rto, cwnd).k;
    UpdateClears(k1, now, next);
    SameFlushTime(k.tm, k1.tm, now);
    hide Update, W.Parse, Flush, InputSegments, Tick, TickFlushes, BestAck, ParseFastack;
    if |b| < 52 { WrapUnique(|b|, 0); }
    UpdateSetsClock(k1, now, next);
    SegmentsClock(k, p.segs);
  }

  lemma {:induction false} UpdateClears(k: Kcb, now: U32, cwnd: nat)
    ensures TickFlushes(k.tm, now) ==> Update(k, now, cwnd).ackList == []
  {
    hide SweepOf, Loaded;
  }

  lemma {:induction false} SameFlushTime(t: Timers, t': Timers, now: U32)
    ensures t'.updated == t.updated && t'.tsFlush == t.tsFlush ==> (TickFlushes(t', now) <==> TickFlushes(t, now))
  {
  }

  lemma {:induction false} SegmentsClock(k: Kcb, segs: seq<Segment>)
    ensures var t := InputSegments(k, segs).tm;
      t.current == k.tm.current && t.updated == k.tm.updated && t.tsFlush == k.tm.tsFlush
  {
    if segs != [] { SegmentsClock(k, segs[..|segs| - 1]); }
  }

  lemma {:induction false} ConfigStays(k: Kcb, conv: Conv, b: seq<Byte>, now: U32, rto: U32, cwnd: nat, next: nat)
    ensures InputPacket(k, conv, b, now, rto, cwnd, next).k.cfg == k.cfg
  {
    var segs := W.Parse(conv, b).segs;
    hide W.Parse, Flush, InputSegments, Tick;
    SegmentsConfig(k, segs);
    FlushConfig(Ticked(W.InputBytes(k, conv, b, rto, cwnd).k, now), next);
  }

  lemma {:induction false} FlushConfig(k: Kcb, cwnd: nat)
    ensures Flush(k, cwnd).cfg == k.cfg
  {
  }

  lemma {:induction false} SegmentsConfig(k: Kcb, segs: seq<Segment>)
    ensures InputSegments(k, segs).cfg == k.cfg
  {
    if segs != [] { SegmentsConfig(k, segs[..|segs| - 1]); }
  }

  /** A message is refused exactly when it is empty, longer than an int or takes as many
      fragments as the smallest receive window. */
  lemma {:induction false} SendRefusesExactly(k: Kcb, data: Message, now: U32, cwnd: nat)
    requires k.cfg.Mss() > 0
    ensures SendAppData(k, data, now, cwnd).code < 0
      <==> data == [] || |data| >= HALF_WORD || FragmentCount(|data|, k.cfg.Mss()) >= WND_RCV
    ensures SendAppData(k, data, now, cwnd).code < 0 ==> SendAppData(k, data, now, cwnd).k == k
    ensures SendAppData(k, data, now, cwnd).k.cfg == k.cfg
    ensures SendAppData(k, data, now, cwnd).code >= 0 ==>
      SendAppData(k, data, now, cwnd).code == |data| && SendAppData(k, data, now, cwnd).k.tm.current == now
  {
    UpdateSetsClock(Send(k, data).k, now, cwnd);
    hide Flush, Tick, FragmentCount, Fragments;
    FlushConfig(Ticked(Send(k, data).k, now), cwnd);
  }

  /** An endpoint that has handed its complete messages on. */
  ghost function AfterDrain(y: S.Peer): S.Peer {
    y.(k := Drained(y.k).k, got := y.got + Drained(y.k).msgs)
  }

  /** Draining is reading, message by message, so it keeps what reading keeps. */
  lemma {:induction false} DrainKeeps(y: S.Peer, x: S.Peer)
    requires S.Linked(y, x)
    ensures S.Linked(AfterDrain(y), x)
    decreases Stock(y.k.rcv)
  {
    hide S.Linked, Recv, PeekSize;
    var size := PeekSize(y.k.rcv.queue);
    if size <= 0 {
      assert y.got + [] == y.got;
    } else {
      RecvTakes(y.k);
      Configured(y, x);
      S.ActKeeps(y, x, S.DoRecv(size));
      var y1 := S.Act(y, S.DoRecv(size));
      DrainKeeps(y1, x);
      assert y.got + [Recv(y.k, size).data] + Drained(y1.k).msgs
          == y.got + ([Recv(y.k, size).data] + Drained(y1.k).msgs);
    }
  }

  lemma {:induction false} Configured(y: S.Peer, x: S.Peer)
    requires S.Linked(y, x)
    ensures y.k.cfg.Mss() > 0
  {
  }

  lemma {:induction false} LinkedPrefix(y: S.Peer, x: S.Peer)
    requires S.Linked(y, x)
    ensures y.got <= x.sent && x.got <= y.sent
  {
  }

  /** In every state of every run, what draining hands on continues what the other
      endpoint was given to send, message by message and in order. */
  lemma {:induction false} DrainedInOrder(run: seq<S.Sys>, i: nat)
    requires S.Run(run) && i < |run|
    ensures run[i].b.got + Drained(run[i].b.k).msgs <= run[i].a.sent
    ensures run[i].a.got + Drained(run[i].a.k).msgs <= run[i].b.sent
  {
    hide S.Linked, S.Run, Drained;
    S.RunKeeps(run, i);
    W.LinkedSymmetric(run[i].a, run[i].b);
    DrainKeeps(run[i].b, run[i].a);
    DrainKeeps(run[i].a, run[i].b);
    LinkedPrefix(AfterDrain(run[i].b), run[i].a);
    LinkedPrefix(AfterDrain(run[i].a), run[i].b);
  }
}
