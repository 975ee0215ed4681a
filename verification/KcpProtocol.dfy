/** The KCP control block as a value, and every protocol operation as a function
    on it. Serial numbers are ideal integers; clocks are 32-bit words that wrap.
    The congestion controller's outputs (`cwnd`, `rx_rto`) are parameters, so
    whatever is proved holds for every value it may compute. */
module KcpProtocol {
  import opened Common
  import opened Machine

  const CMD_PUSH: nat := 81
  const CMD_ACK: nat := 82
  const CMD_WASK: nat := 83
  const CMD_WINS: nat := 84
  const OVERHEAD: nat := 52
  const WND_RCV: nat := 128
  const PROBE_INIT: U32 := 7000
  const PROBE_LIMIT: U32 := 120000

  /** One piece of a message; `frg` counts the pieces that follow it. */
  datatype Fragment = Fragment(frg: nat, data: seq<Byte>)

  datatype Numbered = Numbered(sn: nat, frag: Fragment)

  /** A segment of `snd_buf`: numbered, and waiting for its acknowledgement. */
  datatype Flight = Flight(sn: nat, frag: Fragment, ts: U32, wnd: nat, una: nat,
                           resendts: U32, rto: U32, fastack: nat, xmit: nat)

  datatype Ack = Ack(sn: nat, ts: U32)

  /** A segment as it travels; `conv` is a constant of the connection. */
  datatype Segment = Segment(cmd: nat, frag: Fragment, wnd: nat, ts: U32, sn: nat, una: nat)

  type Datagram = seq<Segment>
  type Message = seq<Byte>

  datatype Config = Config(mtu: nat, sndWnd: nat, rcvWnd: nat, nodelay: nat, interval: U32,
                           fastresend: int, fastlimit: int, nocwnd: bool, deadLink: nat)
  {
    function Mss(): int { mtu - OVERHEAD }
  }

  /** The sending half: `snd_una`, `snd_nxt`, `snd_queue`, `snd_buf`. */
  datatype Sending = Sending(una: nat, nxt: nat, queue: seq<Fragment>, buf: seq<Flight>)

  /** The receiving half: `rcv_nxt`, `rcv_buf`, `rcv_queue`. */
  datatype Receiving = Receiving(nxt: nat, buf: seq<Numbered>, queue: seq<Numbered>)

  /** Windows, probe flags, clocks and counters; `dead` is `state == -1`. */
  datatype Timers = Timers(
    rmtWnd: nat, cwnd: nat, rxRto: U32,
    askSend: bool, askTell: bool, tsProbe: U32, probeWait: U32,
    current: U32, tsFlush: U32, updated: bool, xmit: nat, dead: bool)

  datatype Kcb = Kcb(cfg: Config, snd: Sending, rcv: Receiving, ackList: seq<Ack>, tm: Timers)

  function Create(cfg: Config): Kcb {
    Kcb(cfg, Sending(0, 0, [], []), Receiving(0, [], []), [],
        Timers(WND_RCV, 0, 200, false, false, 0, 0, 0, 100, false, 0, false))
  }

  // ------------------------------------------------------------------ sending

  function FragmentCount(len: nat, mss: int): nat
    requires mss > 0
  {
    if len <= mss then 1 else (len + mss - 1) / mss
  }

  function Fragments(msg: Message, mss: int, count: nat): (r: seq<Fragment>)
    requires mss > 0
    ensures |r| == count
  {
    if count == 0 then [] else
      var size := Min(|msg|, mss);
      [Fragment(count - 1, msg[..size])] + Fragments(msg[size..], mss, count - 1)
  }

  /** What `ikcp_send` queues for a message. */
  function Cut(msg: Message, mss: int): seq<Fragment>
    requires mss > 0
  {
    Fragments(msg, mss, FragmentCount(|msg|, mss))
  }

  predicate Accepts(msg: Message, mss: int)
    requires mss > 0
  {
    FragmentCount(|msg|, mss) < WND_RCV
  }

  /** The block after a call, the C return code, and the bytes handed out. */
  datatype Outcome = Outcome(k: Kcb, code: int, data: Message)

  function Send(k: Kcb, msg: Message): Outcome
    requires k.cfg.Mss() > 0
  {
    if !Accepts(msg, k.cfg.Mss()) then Outcome(k, -2, []) else
      Outcome(k.(snd := k.snd.(queue := k.snd.queue + Cut(msg, k.cfg.Mss()))), |msg|, [])
  }

  // ---------------------------------------------------------------- receiving

  /** How many queued segments `ikcp_recv` merges: up to the first `frg == 0`. */
  function HeadCount(q: seq<Numbered>): (n: nat)
    ensures n <= |q|
  {
    if q == [] then 0 else if q[0].frag.frg == 0 then 1 else 1 + HeadCount(q[1..])
  }

  function Join(q: seq<Numbered>): Message {
    if q == [] then [] else q[0].frag.data + Join(q[1..])
  }

  function PeekSize(q: seq<Numbered>): int {
    if q == [] then -1
    else if q[0].frag.frg == 0 then |q[0].frag.data|
    else if |q| < q[0].frag.frg + 1 then -1
    else |Join(q[..HeadCount(q)])|
  }

  /** Moves segments that have become contiguous from `rcv_buf` to `rcv_queue`. */
  function MoveReady(r: Receiving, wnd: nat): Receiving
    decreases |r.buf|
  {
    if r.buf != [] && r.buf[0].sn == r.nxt && |r.queue| < wnd then
      MoveReady(Receiving(r.nxt + 1, r.buf[1..], r.queue + [r.buf[0]]), wnd)
    else r
  }

  function Recv(k: Kcb, len: int): Outcome {
    var q := k.rcv.queue;
    var size := PeekSize(q);
    if q == [] then Outcome(k, -1, [])
    else if size < 0 then Outcome(k, -2, [])
    else if size > (if len < 0 then -len else len) then Outcome(k, -3, [])
    else
      var n := HeadCount(q);
      var rcv := MoveReady(if len < 0 then k.rcv else k.rcv.(queue := q[n..]), k.cfg.rcvWnd);
      var recovered := |q| >= k.cfg.rcvWnd && |rcv.queue| < k.cfg.rcvWnd;
      Outcome(k.(rcv := rcv, tm := if recovered then k.tm.(askTell := true) else k.tm), size, Join(q[..n]))
  }

  // -------------------------------------------------------------------- input

  function DropBelow(buf: seq<Flight>, una: nat): seq<Flight> {
    if buf != [] && una > buf[0].sn then DropBelow(buf[1..], una) else buf
  }

  function RemoveSn(buf: seq<Flight>, sn: nat): seq<Flight> {
    if buf == [] then []
    else if sn == buf[0].sn then buf[1..]
    else if sn < buf[0].sn then buf
    else [buf[0]] + RemoveSn(buf[1..], sn)
  }

  function BumpFastack(buf: seq<Flight>, sn: nat, ts: U32): seq<Flight> {
    if buf == [] || sn < buf[0].sn then buf
    else
      [if sn != buf[0].sn && TimeDiff(ts, buf[0].ts) >= 0 then buf[0].(fastack := buf[0].fastack + 1) else buf[0]]
      + BumpFastack(buf[1..], sn, ts)
  }

  function ShrinkBuf(s: Sending): Sending {
    s.(una := if s.buf != [] then s.buf[0].sn else s.nxt)
  }

  function ParseUna(s: Sending, una: nat): Sending {
    s.(buf := DropBelow(s.buf, una))
  }

  function ParseAck(s: Sending, sn: nat): Sending {
    if sn < s.una || sn >= s.nxt then s else s.(buf := RemoveSn(s.buf, sn))
  }

  function ParseFastack(s: Sending, a: Ack): Sending {
    if a.sn < s.una || a.sn >= s.nxt then s else s.(buf := BumpFastack(s.buf, a.sn, a.ts))
  }

  /** Insertion by scanning from the tail; a repeated number is dropped. */
  function Insert(buf: seq<Numbered>, seg: Numbered): seq<Numbered> {
    if buf == [] then [seg] else
      var last := buf[|buf| - 1];
      if last.sn == seg.sn then buf
      else if seg.sn > last.sn then buf + [seg]
      else Insert(buf[..|buf| - 1], seg) + [last]
  }

  function ParseData(r: Receiving, wnd: nat, seg: Numbered): Receiving {
    if seg.sn >= r.nxt + wnd || seg.sn < r.nxt then r
    else MoveReady(r.(buf := Insert(r.buf, seg)), wnd)
  }

  function SendingInput(s: Sending, seg: Segment): Sending {
    var s1 := ShrinkBuf(ParseUna(s, seg.una));
    if seg.cmd == CMD_ACK then ShrinkBuf(ParseAck(s1, seg.sn)) else s1
  }

  function ReceivingInput(r: Receiving, wnd: nat, seg: Segment): Receiving {
    if seg.cmd == CMD_PUSH && r.nxt <= seg.sn < r.nxt + wnd then ParseData(r, wnd, Numbered(seg.sn, seg.frag)) else r
  }

  /** Even a number below `rcv_nxt` is acknowledged again. */
  function AckInput(acks: seq<Ack>, r: Receiving, wnd: nat, seg: Segment): seq<Ack> {
    if seg.cmd == CMD_PUSH && seg.sn < r.nxt + wnd then acks + [Ack(seg.sn, seg.ts)] else acks
  }

  /** One turn of the loop of `ikcp_input`. */
  function InputSegment(k: Kcb, seg: Segment): Kcb {
    Kcb(k.cfg, SendingInput(k.snd, seg), ReceivingInput(k.rcv, k.cfg.rcvWnd, seg),
        AckInput(k.ackList, k.rcv, k.cfg.rcvWnd, seg),
        k.tm.(rmtWnd := seg.wnd, askTell := k.tm.askTell || seg.cmd == CMD_WASK))
  }

  function InputSegments(k: Kcb, segs: seq<Segment>): Kcb {
    if segs == [] then k else InputSegment(InputSegments(k, segs[..|segs| - 1]), segs[|segs| - 1])
  }

  /** The acknowledgement that drives the fast-retransmit counters. */
  function BestAck(segs: seq<Segment>): Option<Ack> {
    if segs == [] then None else
      var best, seg := BestAck(segs[..|segs| - 1]), segs[|segs| - 1];
      if seg.cmd == CMD_ACK
         && (best.None? || (seg.sn > best.value.sn && TimeDiff(seg.ts, best.value.ts) > 0))
      then Some(Ack(seg.sn, seg.ts)) else best
  }

  /** `ikcp_input` on the segments its parser recovered; `ok` is false when the
      parser stopped at an error after them. */
  function Input(k: Kcb, segs: seq<Segment>, ok: bool, rto: U32, cwnd: nat): Kcb {
    var k1 := InputSegments(k, segs);
    if !ok then k1.(tm := k1.tm.(rxRto := rto)) else
      var best := BestAck(segs);
      var snd := if best.Some? then ParseFastack(k1.snd, best.value) else k1.snd;
      k1.(snd := snd, tm := k1.tm.(rxRto := rto, cwnd := if snd.una > k.snd.una then cwnd else k1.tm.cwnd))
  }

  // -------------------------------------------------------------------- flush

  function WndUnused(k: Kcb): nat {
    if |k.rcv.queue| < k.cfg.rcvWnd then k.cfg.rcvWnd - |k.rcv.queue| else 0
  }

  /** What a flush stamps on every segment it writes. */
  datatype Stamp = Stamp(now: U32, wnd: nat, una: nat, rto: U32)

  function StampOf(k: Kcb): Stamp {
    Stamp(k.tm.current, WndUnused(k), k.rcv.nxt, k.tm.rxRto)
  }

  function Control(st: Stamp, cmd: nat, a: Ack): Segment {
    Segment(cmd, Fragment(0, []), st.wnd, a.ts, a.sn, st.una)
  }

  function AckSegments(st: Stamp, acks: seq<Ack>): (r: seq<Segment>)
    ensures |r| == |acks| && forall i :: 0 <= i < |acks| ==> r[i] == Control(st, CMD_ACK, acks[i])
  {
    if acks == [] then [] else
      AckSegments(st, acks[..|acks| - 1]) + [Control(st, CMD_ACK, acks[|acks| - 1])]
  }

  /** The probe timer: asks for the peer's window while it reports zero. */
  function ArmProbe(t: Timers): Timers {
    if t.rmtWnd != 0 then t.(tsProbe := 0, probeWait := 0)
    else if t.probeWait == 0 then t.(probeWait := PROBE_INIT, tsProbe := Wrap(t.current + PROBE_INIT))
    else if TimeDiff(t.current, t.tsProbe) < 0 then t
    else
      var wait := Max(t.probeWait, PROBE_INIT);
      var next := Min(Wrap(wait + wait / 2), PROBE_LIMIT);
      t.(probeWait := next, tsProbe := Wrap(t.current + next), askSend := true)
  }

  function LastAck(acks: seq<Ack>): Ack {
    if acks == [] then Ack(0, 0) else acks[|acks| - 1]
  }

  /** The probes keep the serial number and clock of the last acknowledgement. */
  function ProbeSegments(t: Timers, st: Stamp, last: Ack): seq<Segment> {
    (if t.askSend then [Control(st, CMD_WASK, last)] else [])
    + (if t.askTell then [Control(st, CMD_WINS, last)] else [])
  }

  function SendLimit(cfg: Config, t: Timers): nat {
    var limit := Min(cfg.sndWnd, t.rmtWnd);
    if cfg.nocwnd then limit else Min(t.cwnd, limit)
  }

  /** Numbers queued fragments while the send window has room. */
  function Admit(s: Sending, limit: nat, st: Stamp): Sending
    decreases |s.queue|
  {
    if s.nxt < s.una + limit && s.queue != [] then
      var f := Flight(s.nxt, s.queue[0], st.now, st.wnd, st.una, st.now, st.rto, 0, 0);
      Admit(Sending(s.una, s.nxt + 1, s.queue[1..], s.buf + [f]), limit, st)
    else s
  }

  /** What one pass over `snd_buf` does to a segment. */
  datatype Decision = Decision(flight: Flight, send: bool, timeout: bool)

  /** Half of a signed 32-bit step, rounded toward zero. */
  function HalfStep(step: U32): int {
    var s := Signed(step);
    if s >= 0 then s / 2 else -((-s) / 2)
  }

  function Decide(cfg: Config, st: Stamp, f: Flight): Decision {
    var resent: nat := if cfg.fastresend > 0 then cfg.fastresend else 0xffff_ffff;
    var stamped := f.(ts := st.now, wnd := st.wnd, una := st.una, xmit := f.xmit + 1);
    if f.xmit == 0 then
      var rtomin := if cfg.nodelay == 0 then st.rto / 8 else 0;
      Decision(stamped.(rto := st.rto, resendts := Wrap(st.now + st.rto + rtomin)), true, false)
    else if TimeDiff(st.now, f.resendts) >= 0 then
      var rto := if cfg.nodelay == 0 then Wrap(f.rto + Max(f.rto, st.rto))
                 else Wrap(f.rto + HalfStep(if cfg.nodelay < 2 then f.rto else st.rto));
      Decision(stamped.(rto := rto, resendts := Wrap(st.now + rto)), true, true)
    else if f.fastack >= resent && (f.xmit <= cfg.fastlimit || cfg.fastlimit <= 0) then
      Decision(stamped.(fastack := 0, resendts := Wrap(st.now + f.rto)), true, false)
    else Decision(f, false, false)
  }

  function Data(f: Flight): Segment {
    Segment(CMD_PUSH, f.frag, f.wnd, f.ts, f.sn, f.una)
  }

  /** One pass over `snd_buf`: the segments afterwards, the ones written, how many
      timed out, and whether one was written `dead_link` times. */
  datatype Sweep = Sweep(buf: seq<Flight>, segs: seq<Segment>, timeouts: nat, dead: bool)

  function SweepOne(s: Sweep, d: Decision, deadLink: nat): Sweep {
    Sweep(s.buf + [d.flight],
          if d.send then s.segs + [Data(d.flight)] else s.segs,
          if d.timeout then s.timeouts + 1 else s.timeouts,
          s.dead || (d.send && d.flight.xmit >= deadLink))
  }

  function SweepAll(cfg: Config, st: Stamp, buf: seq<Flight>): Sweep {
    if buf == [] then Sweep([], [], 0, false) else
      SweepOne(SweepAll(cfg, st, buf[..|buf| - 1]), Decide(cfg, st, buf[|buf| - 1]), cfg.deadLink)
  }

  // Packing segments into datagrams of at most `mtu` bytes.

  function SegmentSize(seg: Segment): nat { OVERHEAD + |seg.frag.data| }

  function Size(d: Datagram): nat {
    if d == [] then 0 else Size(d[..|d| - 1]) + SegmentSize(d[|d| - 1])
  }

  /** Datagrams already output, and the one being filled. */
  datatype Packer = Packer(out: seq<Datagram>, cur: Datagram)

  function Put(p: Packer, seg: Segment, mtu: nat): Packer {
    if Size(p.cur) + SegmentSize(seg) > mtu then
      Packer(if p.cur == [] then p.out else p.out + [p.cur], [seg])
    else Packer(p.out, p.cur + [seg])
  }

  function PutAll(p: Packer, segs: seq<Segment>, mtu: nat): Packer {
    if segs == [] then p else Put(PutAll(p, segs[..|segs| - 1], mtu), segs[|segs| - 1], mtu)
  }

  function Finish(p: Packer): seq<Datagram> {
    if p.cur == [] then p.out else p.out + [p.cur]
  }

  function Pack(segs: seq<Segment>, mtu: nat): seq<Datagram> {
    Finish(PutAll(Packer([], []), segs, mtu))
  }

  /** The sending half as the data loop of `ikcp_flush` finds it. */
  function Loaded(k: Kcb): Sending {
    Admit(k.snd, SendLimit(k.cfg, k.tm), StampOf(k))
  }

  function SweepOf(k: Kcb): Sweep {
    SweepAll(k.cfg, StampOf(k), Loaded(k).buf)
  }

  /** Every segment a flush writes, in order. */
  function FlushSegments(k: Kcb): seq<Segment> {
    AckSegments(StampOf(k), k.ackList) + ProbeSegments(ArmProbe(k.tm), StampOf(k), LastAck(k.ackList)) + SweepOf(k).segs
  }

  function FlushedTimers(k: Kcb): Timers {
    var sweep := SweepOf(k);
    ArmProbe(k.tm).(askSend := false, askTell := false,
                    xmit := k.tm.xmit + sweep.timeouts, dead := k.tm.dead || sweep.dead)
  }

  function Flush(k: Kcb, cwnd: nat): Kcb {
    if !k.tm.updated then k else
      Kcb(k.cfg, Loaded(k).(buf := SweepOf(k).buf), k.rcv, [], FlushedTimers(k).(cwnd := cwnd))
  }

  function FlushOutput(k: Kcb): seq<Datagram> {
    if !k.tm.updated then [] else Pack(FlushSegments(k), k.cfg.mtu)
  }

  // -------------------------------------------------------------------- clock

  /** `ikcp_update` up to its call of `ikcp_flush`. */
  function Tick(t: Timers, interval: U32, now: U32): Timers {
    var t1 := if t.updated then t.(current := now) else t.(current := now, updated := true, tsFlush := now);
    var slap := TimeDiff(now, t1.tsFlush);
    var base := if slap >= 10000 || slap < -10000 then now else t1.tsFlush;
    if TimeDiff(now, base) < 0 then t1 else
      var next := Wrap(base + interval);
      t1.(tsFlush := if TimeDiff(now, next) >= 0 then Wrap(now + interval) else next)
  }

  predicate TickFlushes(t: Timers, now: U32) {
    var slap := TimeDiff(now, if t.updated then t.tsFlush else now);
    slap >= 0 || slap < -10000
  }

  function Ticked(k: Kcb, now: U32): Kcb {
    k.(tm := Tick(k.tm, k.cfg.interval, now))
  }

  function Update(k: Kcb, now: U32, cwnd: nat): Kcb {
    if TickFlushes(k.tm, now) then Flush(Ticked(k, now), cwnd) else Ticked(k, now)
  }

  function UpdateOutput(k: Kcb, now: U32): seq<Datagram> {
    if TickFlushes(k.tm, now) then FlushOutput(Ticked(k, now)) else []
  }

  /** The earliest retransmission, or -1 when one is already due. */
  function NextPacket(buf: seq<Flight>, now: U32, best: int): int
    decreases |buf|
  {
    if buf == [] then best else
      var diff := TimeDiff(buf[0].resendts, now);
      if diff <= 0 then -1 else NextPacket(buf[1..], now, Min(best, diff))
  }

  function Check(k: Kcb, now: U32): U32 {
    var slap := TimeDiff(now, k.tm.tsFlush);
    if !k.tm.updated || slap >= 10000 || slap < -10000 || slap >= 0 then now else
      var packet := NextPacket(k.snd.buf, now, 0x7fff_ffff);
      if packet < 0 then now else
        Wrap(now + Min(Min(packet, TimeDiff(k.tm.tsFlush, now)), k.cfg.interval))
  }
}
