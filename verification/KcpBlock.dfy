/** `ikcpcb` as the C code keeps it: one object whose queues and clocks are updated
    in place by loops, datagrams read and written byte by byte. Every method is
    proved to compute the protocol function of the same name on the block's value. */
module KcpBlock {
  import opened Common
  import opened Machine
  import opened KcpProtocol
  import opened KcpWire

  class ControlBlock {
    const conv: Conv
    var cfg: Config
    var snd: Sending
    var rcv: Receiving
    var ackList: seq<Ack>
    var tm: Timers

    function View(): Kcb
      reads this
    {
      Kcb(cfg, snd, rcv, ackList, tm)
    }

    constructor (conv: Conv)
      ensures this.conv == conv
      ensures View() == Create(Config(1400, 32, 128, 0, 100, 0, 5, false, 20))
    {
      this.conv := conv;
      cfg := Config(1400, 32, 128, 0, 100, 0, 5, false, 20);
      snd, rcv, ackList := Sending(0, 0, [], []), Receiving(0, [], []), [];
      tm := Timers(128, 0, 200, false, false, 0, 0, 0, 100, false, 0, false);
    }

    // ---------------------------------------------------------------- settings

    /** An accepted MTU leaves room for payload exactly when it is not 52: the size
        check lets a bare header through. */
    method SetMtu(mtu: int) returns (code: int)
      modifies this`cfg
      ensures code == if mtu < 52 then -1 else 0
      ensures cfg == if code == 0 then old(cfg).(mtu := mtu) else old(cfg)
      ensures code == 0 ==> (cfg.Mss() > 0 <==> mtu != 52)
    {
      if mtu < 50 || mtu < 52 {
        return -1;
      }
      cfg := cfg.(mtu := mtu);
      code := 0;
    }

    /** The receive window never drops below the largest fragment count. */
    method WndSize(sndwnd: int, rcvwnd: int)
      modifies this`cfg
      ensures cfg == old(cfg).(sndWnd := if sndwnd > 0 then sndwnd else old(cfg.sndWnd),
                               rcvWnd := if rcvwnd > 0 then Max(rcvwnd, WND_RCV) else old(cfg.rcvWnd))
      ensures old(cfg.rcvWnd) >= WND_RCV ==> cfg.rcvWnd >= WND_RCV
    {
      if sndwnd > 0 {
        cfg := cfg.(sndWnd := sndwnd);
      }
      if rcvwnd > 0 {
        cfg := cfg.(rcvWnd := Max(rcvwnd, WND_RCV));
      }
    }

    method WaitSnd() returns (n: nat)
      ensures n == 0 <==> snd.buf == [] && snd.queue == []
    {
      n := |snd.buf| + |snd.queue|;
    }

    // ---------------------------------------------------------------- ikcp_send

    /** Cuts a message into `count` pieces, numbered down to zero. */
    static method FragmentAll(buffer: Message, mss: int, count: nat) returns (queue: seq<Fragment>)
      requires mss > 0
      ensures queue == Fragments(buffer, mss, count)
    {
      queue := [];
      var rest, i := buffer, 0;
      while i < count
        invariant 0 <= i <= count
        invariant Fragments(buffer, mss, count) == queue + Fragments(rest, mss, count - i)
      {
        var size := if |rest| > mss then mss else |rest|;
        var seg := Fragment(count - i - 1, rest[..size]);
        assert queue + ([seg] + Fragments(rest[size..], mss, count - i - 1))
            == queue + [seg] + Fragments(rest[size..], mss, count - i - 1);
        queue := queue + [seg];
        rest := rest[size..];
        i := i + 1;
      }
    }

    method Send(buffer: Message) returns (code: int)
      requires cfg.Mss() > 0
      modifies this`snd
      ensures var r := KcpProtocol.Send(old(View()), buffer); View() == r.k && code == r.code
    {
      var mss := cfg.Mss();
      var count: int := 1;
      if |buffer| > mss {
        count := (|buffer| + mss - 1) / mss;
      }
      if count >= WND_RCV {
        return -2;
      }
      var pieces := FragmentAll(buffer, mss, count);
      snd := snd.(queue := snd.queue + pieces);
      code := |buffer|;
    }

    // ---------------------------------------------------------------- ikcp_recv

    /** Reads the head message: the first `n` segments and their payload. */
    static method MergeHead(q: seq<Numbered>) returns (n: nat, data: Message)
      ensures n == HeadCount(q) && data == Join(q[..n])
    {
      n, data := 0, [];
      while n < |q|
        invariant 0 <= n <= |q| && data == Join(q[..n])
        invariant HeadCount(q) == n + HeadCount(q[n..])
      {
        var seg := q[n];
        JoinSnoc(q[..n], seg);
        assert q[..n + 1] == q[..n] + [seg] && q[n..][1..] == q[n + 1..];
        data := data + seg.frag.data;
        n := n + 1;
        if seg.frag.frg == 0 {
          break;
        }
      }
    }

    method PeekSize() returns (size: int)
      ensures size == KcpProtocol.PeekSize(rcv.queue)
    {
      if rcv.queue == [] {
        return -1;
      }
      var seg := rcv.queue[0];
      if seg.frag.frg == 0 {
        return |seg.frag.data|;
      }
      if |rcv.queue| < seg.frag.frg + 1 {
        return -1;
      }
      var n, data := MergeHead(rcv.queue);
      size := |data|;
    }

    method MoveReady()
      modifies this`rcv
      ensures rcv == KcpProtocol.MoveReady(old(rcv), cfg.rcvWnd)
    {
      while rcv.buf != []
        invariant KcpProtocol.MoveReady(rcv, cfg.rcvWnd) == KcpProtocol.MoveReady(old(rcv), cfg.rcvWnd)
        decreases |rcv.buf|
      {
        if rcv.buf[0].sn == rcv.nxt && |rcv.queue| < cfg.rcvWnd {
          rcv := Receiving(rcv.nxt + 1, rcv.buf[1..], rcv.queue + [rcv.buf[0]]);
        } else {
          break;
        }
      }
    }

    method Recv(len: int) returns (code: int, data: Message)
      modifies this`rcv, this`tm
      ensures var r := KcpProtocol.Recv(old(View()), len); View() == r.k && code == r.code && data == r.data
    {
      data := [];
      if rcv.queue == [] {
        return -1, data;
      }
      var size := PeekSize();
      if size < 0 {
        return -2, data;
      }
      if size > (if len < 0 then -len else len) {
        return -3, data;
      }
      var recover := |rcv.queue| >= cfg.rcvWnd;
      var n;
      n, data := MergeHead(rcv.queue);
      if len >= 0 {
        rcv := rcv.(queue := rcv.queue[n..]);
      }
      MoveReady();
      if |rcv.queue| < cfg.rcvWnd && recover {
        tm := tm.(askTell := true);
      }
      code := size;
    }

    // --------------------------------------------------------------- ikcp_input

    method ParseUna(una: nat)
      modifies this`snd
      ensures snd == KcpProtocol.ParseUna(old(snd), una)
    {
      var buf := snd.buf;
      while buf != []
        invariant DropBelow(buf, una) == DropBelow(old(snd).buf, una)
        decreases |buf|
      {
        if una > buf[0].sn {
          buf := buf[1..];
        } else {
          break;
        }
      }
      snd := snd.(buf := buf);
    }

    method ShrinkBuf()
      modifies this`snd
      ensures snd == KcpProtocol.ShrinkBuf(old(snd))
    {
      if snd.buf != [] {
        snd := snd.(una := snd.buf[0].sn);
      } else {
        snd := snd.(una := snd.nxt);
      }
    }

    static method RemoveOne(buf: seq<Flight>, sn: nat) returns (buf': seq<Flight>)
      ensures buf' == RemoveSn(buf, sn)
    {
      var p := 0;
      while p < |buf| && sn > buf[p].sn
        invariant 0 <= p <= |buf|
        invariant RemoveSn(buf, sn) == buf[..p] + RemoveSn(buf[p..], sn)
      {
        assert buf[p..][1..] == buf[p + 1..] && buf[..p] + [buf[p]] == buf[..p + 1];
        SnocCons(buf[..p], buf[p], RemoveSn(buf[p + 1..], sn));
        p := p + 1;
      }
      if p < |buf| && sn == buf[p].sn {
        assert buf[p..][1..] == buf[p + 1..];
        buf' := buf[..p] + buf[p + 1..];
      } else {
        assert buf[..p] + buf[p..] == buf;
        buf' := buf;
      }
    }

    method ParseAck(sn: nat)
      modifies this`snd
      ensures snd == KcpProtocol.ParseAck(old(snd), sn)
    {
      if sn < snd.una || sn >= snd.nxt {
        return;
      }
      var buf := RemoveOne(snd.buf, sn);
      snd := snd.(buf := buf);
    }

    /** Counts, for each segment before `a.sn`, an acknowledgement that skipped it. */
    static method BumpAll(buf: seq<Flight>, a: Ack) returns (bumped: seq<Flight>)
      ensures bumped == BumpFastack(buf, a.sn, a.ts)
    {
      bumped := [];
      var p := 0;
      while p < |buf| && a.sn >= buf[p].sn
        invariant 0 <= p <= |buf|
        invariant BumpFastack(buf, a.sn, a.ts) == bumped + BumpFastack(buf[p..], a.sn, a.ts)
      {
        var seg := buf[p];
        assert buf[p..][1..] == buf[p + 1..];
        if a.sn != seg.sn && TimeDiff(a.ts, seg.ts) >= 0 {
          seg := seg.(fastack := seg.fastack + 1);
        }
        assert bumped + ([seg] + BumpFastack(buf[p + 1..], a.sn, a.ts))
            == bumped + [seg] + BumpFastack(buf[p + 1..], a.sn, a.ts);
        bumped := bumped + [seg];
        p := p + 1;
      }
      bumped := bumped + buf[p..];
    }

    method ParseFastack(a: Ack)
      modifies this`snd
      ensures snd == KcpProtocol.ParseFastack(old(snd), a)
    {
      if a.sn < snd.una || a.sn >= snd.nxt {
        return;
      }
      var buf := BumpAll(snd.buf, a);
      snd := snd.(buf := buf);
    }

    /** The place of a new segment, scanning `rcv_buf` from its tail. */
    static method InsertAt(buf: seq<Numbered>, seg: Numbered) returns (buf': seq<Numbered>)
      ensures buf' == Insert(buf, seg)
    {
      var p, repeat := |buf|, false;
      assert buf[..p] == buf;
      while p > 0
        invariant 0 <= p <= |buf| && !repeat
        invariant Insert(buf, seg) == Insert(buf[..p], seg) + buf[p..]
      {
        var x := buf[p - 1];
        assert buf[..p][..p - 1] == buf[..p - 1] && [x] + buf[p..] == buf[p - 1..];
        if x.sn == seg.sn {
          repeat := true;
          break;
        }
        if seg.sn > x.sn {
          break;
        }
        p := p - 1;
      }
      assert buf[..p] + buf[p..] == buf;
      buf' := if repeat then buf else buf[..p] + [seg] + buf[p..];
    }

    method ParseData(seg: Numbered)
      modifies this`rcv
      ensures rcv == KcpProtocol.ParseData(old(rcv), cfg.rcvWnd, seg)
    {
      if seg.sn >= rcv.nxt + cfg.rcvWnd || seg.sn < rcv.nxt {
        return;
      }
      var buf := InsertAt(rcv.buf, seg);
      rcv := rcv.(buf := buf);
      MoveReady();
    }

    /** One segment of a datagram. */
    method InputSegment(seg: Segment)
      modifies this`snd, this`rcv, this`ackList, this`tm
      ensures View() == KcpProtocol.InputSegment(old(View()), seg)
    {
      tm := tm.(rmtWnd := seg.wnd);
      ParseUna(seg.una);
      ShrinkBuf();
      if seg.cmd == CMD_ACK {
        ParseAck(seg.sn);
        ShrinkBuf();
      } else if seg.cmd == CMD_PUSH {
        if seg.sn < rcv.nxt + cfg.rcvWnd {
          ackList := ackList + [Ack(seg.sn, seg.ts)];
          if seg.sn >= rcv.nxt {
            ParseData(Numbered(seg.sn, seg.frag));
          }
        }
      } else if seg.cmd == CMD_WASK {
        tm := tm.(askTell := true);
      }
    }

    /** Reads one header and its payload. */
    method ParseOne(b: seq<Byte>) returns (code: int, seg: Segment, rest: seq<Byte>)
      requires |b| >= OVERHEAD
      ensures code != 0 ==> Parse(conv, b) == Parsed([], code)
      ensures code == 0 ==> |rest| < |b|
      ensures code == 0 ==> Parse(conv, b) == Parsed([seg] + Parse(conv, rest).segs, Parse(conv, rest).code)
    {
      var len := Decode32(b[48..]);
      code, seg, rest := 0, Header(b, []), [];
      if b[..CONV_BYTES] != conv {
        code := -1;
      } else if |b| - OVERHEAD < len || Signed(len) < 0 {
        code := -2;
      } else if !Known(b[32]) {
        code := -3;
      } else {
        seg := Header(b, b[OVERHEAD..OVERHEAD + len]);
        rest := b[OVERHEAD + len..];
      }
    }

    /** The parse loop of `ikcp_input`: segments take effect one by one, so those
        before an error stay in effect. */
    method ParseLoop(data: seq<Byte>) returns (code: int, best: Option<Ack>)
      modifies this`snd, this`rcv, this`ackList, this`tm
      ensures var p := Parse(conv, data);
              View() == InputSegments(old(View()), p.segs) && code == p.code && best == BestAck(p.segs)
    {
      var rest := data;
      best, code := None, 0;
      ghost var segs: seq<Segment> := [];
      while |rest| >= OVERHEAD
        invariant best == BestAck(segs) && View() == InputSegments(old(View()), segs)
        invariant Parse(conv, data).segs == segs + Parse(conv, rest).segs
        invariant Parse(conv, data).code == Parse(conv, rest).code
        decreases |rest|
      {
        var seg, tail;
        code, seg, tail := ParseOne(rest);
        if code != 0 {
          assert segs + [] == segs;
          return;
        }
        InputSegment(seg);
        if seg.cmd == CMD_ACK {
          if best.None? || (seg.sn > best.value.sn && TimeDiff(seg.ts, best.value.ts) > 0) {
            best := Some(Ack(seg.sn, seg.ts));
          }
        }
        InputSnoc(old(View()), segs, seg);
        SnocCons(segs, seg, Parse(conv, tail).segs);
        segs, rest := segs + [seg], tail;
      }
      assert segs + [] == segs;
    }

    method Input(data: seq<Byte>, rto: U32, cwnd: nat) returns (code: int)
      modifies this`snd, this`rcv, this`ackList, this`tm
      ensures var r := InputBytes(old(View()), conv, data, rto, cwnd); View() == r.k && code == r.code
    {
      var prevUna := snd.una;
      if Signed(Wrap(|data|)) < OVERHEAD {
        return -1;
      }
      var best;
      code, best := ParseLoop(data);
      tm := tm.(rxRto := rto);
      if code != 0 {
        return;
      }
      if best.Some? {
        ParseFastack(best.value);
      }
      if snd.una > prevUna {
        tm := tm.(cwnd := cwnd);
      }
    }

    // --------------------------------------------------------------- ikcp_flush

    /** `buffer` is being filled and `out` has been handed out, as the packer says. */
    ghost predicate Holds(buffer: seq<Byte>, out: seq<seq<Byte>>, p: Packer) {
      buffer == Encode(conv, p.cur) && out == EncodeAll(conv, p.out)
    }

    /** Writes a segment, handing out the buffer first if it would overflow. */
    method Emit(buffer: seq<Byte>, out: seq<seq<Byte>>, seg: Segment, ghost p: Packer)
      returns (buffer': seq<Byte>, out': seq<seq<Byte>>, ghost q: Packer)
      requires Holds(buffer, out, p)
      ensures q == Put(p, seg, cfg.mtu) && Holds(buffer', out', q)
    {
      buffer', out', q := buffer, out, Put(p, seg, cfg.mtu);
      EncodeEmpty(conv, p.cur);
      if |buffer| + OVERHEAD + |seg.frag.data| > cfg.mtu {
        if |buffer| > 0 {
          out' := out + [buffer];
          EncodeAllSnoc(conv, p.out, p.cur);
        }
        buffer' := [];
      }
      EncodeSnoc(conv, if buffer' == [] then [] else p.cur, seg);
      buffer' := buffer' + EncodeSegment(conv, seg);
    }

    /** Hands out what is left in the buffer. */
    method EmitRest(buffer: seq<Byte>, out: seq<seq<Byte>>, ghost p: Packer) returns (out': seq<seq<Byte>>)
      requires Holds(buffer, out, p)
      ensures out' == EncodeAll(conv, Finish(p))
    {
      out' := out;
      EncodeEmpty(conv, p.cur);
      if |buffer| > 0 {
        out' := out + [buffer];
        EncodeAllSnoc(conv, p.out, p.cur);
      }
    }

    method WriteAcks(st: Stamp) returns (buffer: seq<Byte>, out: seq<seq<Byte>>, ghost p: Packer)
      ensures p == PutAll(Packer([], []), AckSegments(st, ackList), cfg.mtu) && Holds(buffer, out, p)
    {
      buffer, out, p := [], [], Packer([], []);
      var i := 0;
      while i < |ackList|
        invariant 0 <= i <= |ackList| && Holds(buffer, out, p)
        invariant p == PutAll(Packer([], []), AckSegments(st, ackList[..i]), cfg.mtu)
      {
        var seg := Control(st, CMD_ACK, ackList[i]);
        buffer, out, p := Emit(buffer, out, seg, p);
        assert ackList[..i + 1][..i] == ackList[..i];
        PutAllSnoc(Packer([], []), AckSegments(st, ackList[..i]), seg, cfg.mtu);
        i := i + 1;
      }
      assert ackList[..i] == ackList;
    }

    static method ArmProbe(t: Timers) returns (t': Timers)
      ensures t' == KcpProtocol.ArmProbe(t)
    {
      t' := t;
      if t.rmtWnd != 0 {
        t' := t'.(tsProbe := 0, probeWait := 0);
      } else if t.probeWait == 0 {
        t' := t'.(probeWait := PROBE_INIT, tsProbe := Wrap(t.current + PROBE_INIT));
      } else if TimeDiff(t.current, t.tsProbe) >= 0 {
        var wait := t.probeWait;
        if wait < PROBE_INIT {
          wait := PROBE_INIT;
        }
        wait := Wrap(wait + wait / 2);
        if wait > PROBE_LIMIT {
          wait := PROBE_LIMIT;
        }
        t' := t'.(probeWait := wait, tsProbe := Wrap(t.current + wait), askSend := true);
      }
    }

    method WriteProbes(t: Timers, st: Stamp, last: Ack, buffer: seq<Byte>, out: seq<seq<Byte>>, ghost p: Packer)
      returns (buffer': seq<Byte>, out': seq<seq<Byte>>, ghost q: Packer)
      requires Holds(buffer, out, p)
      ensures q == PutAll(p, ProbeSegments(t, st, last), cfg.mtu) && Holds(buffer', out', q)
    {
      buffer', out', q := buffer, out, p;
      ghost var segs: seq<Segment> := [];
      if t.askSend {
        var seg := Control(st, CMD_WASK, last);
        buffer', out', q := Emit(buffer', out', seg, q);
        PutAllSnoc(p, segs, seg, cfg.mtu);
        segs := segs + [seg];
      }
      if t.askTell {
        var seg := Control(st, CMD_WINS, last);
        buffer', out', q := Emit(buffer', out', seg, q);
        PutAllSnoc(p, segs, seg, cfg.mtu);
        segs := segs + [seg];
      }
      assert segs == ProbeSegments(t, st, last);
    }

    /** Moves fragments from `snd_queue` to `snd_buf` while the window allows. */
    static method Admit(s: Sending, limit: nat, st: Stamp) returns (s': Sending)
      ensures s' == KcpProtocol.Admit(s, limit, st)
    {
      s' := s;
      while s'.nxt < s'.una + limit
        invariant KcpProtocol.Admit(s', limit, st) == KcpProtocol.Admit(s, limit, st)
        decreases |s'.queue|
      {
        if s'.queue == [] {
          break;
        }
        var f := Flight(s'.nxt, s'.queue[0], st.now, st.wnd, st.una, st.now, st.rto, 0, 0);
        s' := Sending(s'.una, s'.nxt + 1, s'.queue[1..], s'.buf + [f]);
      }
    }

    /** Decides whether a segment is written now: never sent, timed out, or skipped
        by enough later acknowledgements. */
    method Consider(f: Flight, st: Stamp) returns (f': Flight, needSend: bool, timeout: bool)
      ensures Decision(f', needSend, timeout) == Decide(cfg, st, f)
    {
      f', needSend, timeout := f, false, false;
      var resent: nat := if cfg.fastresend > 0 then cfg.fastresend else 0xffff_ffff;
      if f.xmit == 0 {
        needSend := true;
        f' := f'.(xmit := f.xmit + 1, rto := st.rto);
        f' := f'.(resendts := Wrap(st.now + f'.rto + if cfg.nodelay == 0 then st.rto / 8 else 0));
      } else if TimeDiff(st.now, f.resendts) >= 0 {
        needSend, timeout := true, true;
        f' := f'.(xmit := f.xmit + 1);
        if cfg.nodelay == 0 {
          f' := f'.(rto := Wrap(f.rto + Max(f.rto, st.rto)));
        } else {
          var step := if cfg.nodelay < 2 then f.rto else st.rto;
          f' := f'.(rto := Wrap(f.rto + HalfStep(step)));
        }
        f' := f'.(resendts := Wrap(st.now + f'.rto));
      } else if f.fastack >= resent {
        if f.xmit <= cfg.fastlimit || cfg.fastlimit <= 0 {
          needSend := true;
          f' := f'.(xmit := f.xmit + 1, fastack := 0, resendts := Wrap(st.now + f.rto));
        }
      }
      if needSend {
        f' := f'.(ts := st.now, wnd := st.wnd, una := st.una);
      }
    }

    /** The pass over `snd_buf`: rewrites each segment, writes those due. */
    method WriteData(st: Stamp, flights: seq<Flight>, buffer: seq<Byte>, out: seq<seq<Byte>>, ghost p: Packer)
      returns (buf: seq<Flight>, timeouts: nat, died: bool,
               buffer': seq<Byte>, out': seq<seq<Byte>>, ghost q: Packer)
      requires Holds(buffer, out, p)
      ensures var s := SweepAll(cfg, st, flights);
              buf == s.buf && timeouts == s.timeouts && died == s.dead && q == PutAll(p, s.segs, cfg.mtu)
      ensures Holds(buffer', out', q)
    {
      hide Holds, Decide;
      buf, timeouts, died := [], 0, false;
      buffer', out', q := buffer, out, p;
      var i := 0;
      ghost var sweep := Sweep([], [], 0, false);
      while i < |flights|
        invariant 0 <= i <= |flights| && sweep == SweepAll(cfg, st, flights[..i])
        invariant buf == sweep.buf && timeouts == sweep.timeouts && died == sweep.dead
        invariant q == PutAll(p, sweep.segs, cfg.mtu) && Holds(buffer', out', q)
      {
        var f, needSend, timeout := Consider(flights[i], st);
        SweepSnoc(cfg, st, flights, i);
        buf := buf + [f];
        if timeout {
          timeouts := timeouts + 1;
        }
        if needSend {
          buffer', out', q := Emit(buffer', out', Data(f), q);
          PutAllSnoc(p, sweep.segs, Data(f), cfg.mtu);
          if f.xmit >= cfg.deadLink {
            died := true;
          }
        }
        sweep := SweepOne(sweep, Decision(f, needSend, timeout), cfg.deadLink);
        i := i + 1;
      }
      assert flights[..i] == flights;
    }

    /** The acknowledgements, then the window probes. */
    method WriteControl(st: Stamp) returns (t: Timers, buffer: seq<Byte>, out: seq<seq<Byte>>, ghost p: Packer)
      ensures t == KcpProtocol.ArmProbe(tm)
      ensures p == PutAll(Packer([], []), ControlSegments(tm, st, ackList), cfg.mtu) && Holds(buffer, out, p)
    {
      buffer, out, p := WriteAcks(st);
      t := ArmProbe(tm);
      var last := LastAck(ackList);
      PutAllConcat(Packer([], []), AckSegments(st, ackList), ProbeSegments(t, st, last), cfg.mtu);
      buffer, out, p := WriteProbes(t, st, last, buffer, out, p);
    }

    /** Everything a flush writes, and the halves it leaves. */
    method WriteAll(st: Stamp) returns (s: Sending, t: Timers, out: seq<seq<Byte>>)
      requires tm.updated && st == StampOf(View())
      ensures s == Loaded(View()).(buf := SweepOf(View()).buf)
      ensures t == FlushedTimers(View())
      ensures out == EncodeAll(conv, FlushOutput(View()))
    {
      hide Holds, PutAll, SweepAll, FlushOutput, KcpProtocol.Admit;
      var buffer, buf, timeouts, died;
      ghost var p, q;
      t, buffer, out, p := WriteControl(st);
      s := Admit(snd, SendLimit(cfg, tm), st);
      buf, timeouts, died, buffer, out, q := WriteData(st, s.buf, buffer, out, p);
      FlushPacks(View(), p, q);
      out := EmitRest(buffer, out, q);
      s := s.(buf := buf);
      t := t.(askSend := false, askTell := false, xmit := t.xmit + timeouts, dead := t.dead || died);
    }

    method Flush(cwnd: nat) returns (out: seq<seq<Byte>>)
      modifies this`snd, this`ackList, this`tm
      ensures View() == KcpProtocol.Flush(old(View()), cwnd)
      ensures out == EncodeAll(conv, FlushOutput(old(View())))
    {
      if !tm.updated {
        return [];
      }
      var s, t;
      s, t, out := WriteAll(StampOf(View()));
      snd, ackList, tm := s, [], t.(cwnd := cwnd);
    }

    // --------------------------------------------------- ikcp_update, ikcp_check

    /** Advances the clock; `due` says whether it is time to flush. */
    static method AdvanceClock(t: Timers, interval: U32, now: U32) returns (t': Timers, due: bool)
      ensures t' == Tick(t, interval, now) && due == TickFlushes(t, now)
    {
      t' := t.(current := now);
      if !t'.updated {
        t' := t'.(updated := true, tsFlush := now);
      }
      var slap := TimeDiff(now, t'.tsFlush);
      if slap >= 10000 || slap < -10000 {
        t' := t'.(tsFlush := now);
        slap := 0;
      }
      due := slap >= 0;
      if due {
        t' := t'.(tsFlush := Wrap(t'.tsFlush + interval));
        if TimeDiff(now, t'.tsFlush) >= 0 {
          t' := t'.(tsFlush := Wrap(now + interval));
        }
      }
    }

    method Update(now: U32, cwnd: nat) returns (out: seq<seq<Byte>>)
      modifies this`snd, this`ackList, this`tm
      ensures View() == KcpProtocol.Update(old(View()), now, cwnd)
      ensures out == EncodeAll(conv, UpdateOutput(old(View()), now))
    {
      hide KcpProtocol.Flush, FlushOutput, Tick, TickFlushes;
      var t, due := AdvanceClock(tm, cfg.interval, now);
      tm, out := t, [];
      if due {
        out := Flush(cwnd);
      }
    }

    method Check(now: U32) returns (due: U32)
      ensures due == KcpProtocol.Check(View(), now)
    {
      if !tm.updated {
        return now;
      }
      var flushAt := tm.tsFlush;
      if TimeDiff(now, flushAt) >= 10000 || TimeDiff(now, flushAt) < -10000 {
        flushAt := now;
      }
      if TimeDiff(now, flushAt) >= 0 {
        return now;
      }
      var tmFlush, tmPacket := TimeDiff(flushAt, now), 0x7fff_ffff;
      var i := 0;
      while i < |snd.buf|
        invariant 0 <= i <= |snd.buf|
        invariant NextPacket(snd.buf, now, 0x7fff_ffff) == NextPacket(snd.buf[i..], now, tmPacket)
      {
        var diff := TimeDiff(snd.buf[i].resendts, now);
        assert snd.buf[i..][1..] == snd.buf[i + 1..];
        if diff <= 0 {
          return now;
        }
        if diff < tmPacket {
          tmPacket := diff;
        }
        i := i + 1;
      }
      var minimal := if tmPacket < tmFlush then tmPacket else tmFlush;
      if minimal >= cfg.interval {
        minimal := cfg.interval;
      }
      due := Wrap(now + minimal);
    }
  }

  lemma {:induction false} JoinSnoc(q: seq<Numbered>, x: Numbered)
    ensures Join(q + [x]) == Join(q) + x.frag.data
  {
    if q == [] {
      assert [] + [x] == [x] && Join([x]) == x.frag.data + Join([]);
    } else {
      JoinSnoc(q[1..], x);
      assert (q + [x])[1..] == q[1..] + [x];
    }
  }

  lemma {:induction false} EncodeEmpty(conv: Conv, d: Datagram)
    ensures Encode(conv, d) == [] <==> d == []
  {
  }

  lemma {:induction false} EncodeSnoc(conv: Conv, d: Datagram, seg: Segment)
    ensures Encode(conv, d + [seg]) == Encode(conv, d) + EncodeSegment(conv, seg)
  {
    assert (d + [seg])[..|d|] == d;
  }

  lemma {:induction false} EncodeAllSnoc(conv: Conv, ds: seq<Datagram>, d: Datagram)
    ensures EncodeAll(conv, ds + [d]) == EncodeAll(conv, ds) + [Encode(conv, d)]
  {
    assert (ds + [d])[..|ds|] == ds;
  }

  lemma {:induction false} PutAllSnoc(p: Packer, segs: seq<Segment>, seg: Segment, mtu: nat)
    ensures PutAll(p, segs + [seg], mtu) == Put(PutAll(p, segs, mtu), seg, mtu)
  {
    assert (segs + [seg])[..|segs|] == segs;
  }

  lemma {:induction false} InputSnoc(k: Kcb, segs: seq<Segment>, seg: Segment)
    ensures InputSegments(k, segs + [seg]) == KcpProtocol.InputSegment(InputSegments(k, segs), seg)
    ensures var best := BestAck(segs);
            BestAck(segs + [seg])
            == if seg.cmd == CMD_ACK && (best.None? || (seg.sn > best.value.sn && TimeDiff(seg.ts, best.value.ts) > 0))
               then Some(Ack(seg.sn, seg.ts)) else best
  {
    assert (segs + [seg])[..|segs|] == segs;
  }

  lemma {:induction false} PutAllConcat(p: Packer, a: seq<Segment>, b: seq<Segment>, mtu: nat)
    ensures PutAll(p, a + b, mtu) == PutAll(PutAll(p, a, mtu), b, mtu)
  {
    if b == [] {
      assert a + b == a;
    } else {
      PutAllConcat(p, a, b[..|b| - 1], mtu);
      assert (a + b)[..|a + b| - 1] == a + b[..|b| - 1];
    }
  }

  lemma {:induction false} SweepSnoc(cfg: Config, st: Stamp, buf: seq<Flight>, i: nat)
    requires i < |buf|
    ensures SweepAll(cfg, st, buf[..i + 1])
         == SweepOne(SweepAll(cfg, st, buf[..i]), Decide(cfg, st, buf[i]), cfg.deadLink)
  {
    assert buf[..i + 1][..i] == buf[..i];
  }

  lemma {:induction false} SnocCons<T>(a: seq<T>, x: T, b: seq<T>)
    ensures a + ([x] + b) == a + [x] + b
  {
  }

  ghost function ControlSegments(t: Timers, st: Stamp, acks: seq<Ack>): seq<Segment> {
    AckSegments(st, acks) + ProbeSegments(KcpProtocol.ArmProbe(t), st, LastAck(acks))
  }

  /** Control and data segments of a flush are packed as one run. */
  lemma {:induction false} FlushPacks(k: Kcb, p: Packer, q: Packer)
    requires k.tm.updated
    requires p == PutAll(Packer([], []), ControlSegments(k.tm, StampOf(k), k.ackList), k.cfg.mtu)
    requires q == PutAll(p, SweepOf(k).segs, k.cfg.mtu)
    ensures FlushOutput(k) == Finish(q)
  {
    PutAllConcat(Packer([], []), ControlSegments(k.tm, StampOf(k), k.ackList), SweepOf(k).segs, k.cfg.mtu);
  }
}
