/** The byte format of a KCP datagram: a 52-byte header per segment, of which the
    first 32 bytes are the connection identifier, then the payload. */
module KcpWire {
  import opened Machine
  import opened KcpProtocol
  import opened KcpReliability
  import opened KcpDatagrams
  import opened KcpSystem

  const CONV_BYTES: nat := 32

  function Encode16(n: nat): (r: seq<Byte>)
    ensures |r| == 2
  {
    [n % 256, n / 256 % 256]
  }

  function Encode32(n: nat): (r: seq<Byte>)
    ensures |r| == 4
  {
    [n % 256, n / 256 % 256, n / 0x1_0000 % 256, n / 0x100_0000 % 256]
  }

  function Decode16(b: seq<Byte>): nat
    requires |b| >= 2
  {
    (b[0] as int) + 256 * (b[1] as int)
  }

  function Decode32(b: seq<Byte>): U32
    requires |b| >= 4
  {
    (b[0] as int) + 256 * (b[1] as int) + 0x1_0000 * (b[2] as int) + 0x100_0000 * (b[3] as int)
  }

  /** `ikcp_encode_seg`: each field is truncated to its width. */
  function EncodeHeader(conv: Conv, seg: Segment): (r: seq<Byte>)
    ensures |r| == OVERHEAD
  {
    conv + [seg.cmd % 256, seg.frag.frg % 256] + Encode16(seg.wnd) + Encode32(seg.ts)
    + Encode32(seg.sn) + Encode32(seg.una) + Encode32(|seg.frag.data|)
  }

  function EncodeSegment(conv: Conv, seg: Segment): (r: seq<Byte>)
    ensures |r| == SegmentSize(seg)
  {
    EncodeHeader(conv, seg) + seg.frag.data
  }

  function Encode(conv: Conv, d: Datagram): (r: seq<Byte>)
    ensures |r| == Size(d)
  {
    if d == [] then [] else Encode(conv, d[..|d| - 1]) + EncodeSegment(conv, d[|d| - 1])
  }

  function EncodeAll(conv: Conv, ds: seq<Datagram>): (r: seq<seq<Byte>>)
    ensures |r| == |ds| && forall i :: 0 <= i < |ds| ==> r[i] == Encode(conv, ds[i])
  {
    if ds == [] then [] else EncodeAll(conv, ds[..|ds| - 1]) + [Encode(conv, ds[|ds| - 1])]
  }

  /** The segments the parser of `ikcp_input` accepts, and its return code. */
  datatype Parsed = Parsed(segs: seq<Segment>, code: int)

  function Header(b: seq<Byte>, data: Message): Segment
    requires |b| >= OVERHEAD
  {
    Segment(b[32], Fragment(b[33], data), Decode16(b[34..]), Decode32(b[36..]), Decode32(b[40..]), Decode32(b[44..]))
  }

  predicate Known(cmd: nat) {
    cmd == CMD_PUSH || cmd == CMD_ACK || cmd == CMD_WASK || cmd == CMD_WINS
  }

  /** The parse loop: a wrong `conv` is -1, a bad length -2, an unknown command -3;
      fewer bytes than a header end it. */
  function Parse(conv: Conv, b: seq<Byte>): Parsed {
    if |b| < OVERHEAD then Parsed([], 0)
    else if b[..CONV_BYTES] != conv then Parsed([], -1)
    else
      var len := Decode32(b[48..]);
      if |b| - OVERHEAD < len || Signed(len) < 0 then Parsed([], -2)
      else if !Known(b[32]) then Parsed([], -3)
      else
        var rest := Parse(conv, b[OVERHEAD + len..]);
        Parsed([Header(b, b[OVERHEAD..OVERHEAD + len])] + rest.segs, rest.code)
  }

  /** `ikcp_input` on the bytes of a datagram. */
  function InputBytes(k: Kcb, conv: Conv, b: seq<Byte>, rto: U32, cwnd: nat): Outcome {
    if Signed(Wrap(|b|)) < OVERHEAD then Outcome(k, -1, []) else
      var p := Parse(conv, b);
      Outcome(Input(k, p.segs, p.code == 0, rto, cwnd), p.code, [])
  }

  // --------------------------------------------------------------- round trip

  /** Every field fits its place in the header. */
  ghost predicate InRange(seg: Segment) {
    && Known(seg.cmd) && seg.frag.frg < 256 && seg.wnd < 0x1_0000
    && seg.sn < WORD && seg.una < WORD && |seg.frag.data| < HALF_WORD
  }

  lemma {:induction false} RoundTrip16(n: nat)
    requires n < 0x1_0000
    ensures Decode16(Encode16(n)) == n
  {
  }

  lemma {:induction false} RoundTrip32(n: nat)
    requires n < WORD
    ensures Decode32(Encode32(n)) == n
  {
    var q1, q2, q3 := n / 256, n / 0x1_0000, n / 0x100_0000;
    assert q2 == q1 / 256 && q3 == q2 / 256;
  }

  lemma {:induction false} HeaderLayout(conv: Conv, seg: Segment, tail: seq<Byte>)
    ensures var b := EncodeHeader(conv, seg) + tail;
            && b[..CONV_BYTES] == conv
            && b[32] == seg.cmd % 256 && b[33] == seg.frag.frg % 256
            && b[34..36] == Encode16(seg.wnd) && b[36..40] == Encode32(seg.ts)
            && b[40..44] == Encode32(seg.sn) && b[44..48] == Encode32(seg.una)
            && b[48..52] == Encode32(|seg.frag.data|)
  {
  }

  lemma {:induction false} HeaderRoundTrip(conv: Conv, seg: Segment, tail: seq<Byte>)
    requires InRange(seg)
    ensures var b := EncodeHeader(conv, seg) + tail;
            Header(b, seg.frag.data) == seg && Decode32(b[48..]) == |seg.frag.data|
  {
    var b := EncodeHeader(conv, seg) + tail;
    HeaderLayout(conv, seg, tail);
    RoundTrip16(seg.wnd);
    RoundTrip32(seg.ts);
    RoundTrip32(seg.sn);
    RoundTrip32(seg.una);
    RoundTrip32(|seg.frag.data|);
    assert Decode16(b[34..]) == Decode16(b[34..36]);
    assert Decode32(b[36..]) == Decode32(b[36..40]);
    assert Decode32(b[40..]) == Decode32(b[40..44]);
    assert Decode32(b[44..]) == Decode32(b[44..48]);
    assert Decode32(b[48..]) == Decode32(b[48..52]);
  }

  lemma {:induction false} ParseFirst(conv: Conv, seg: Segment, tail: seq<Byte>)
    requires InRange(seg)
    ensures var p := Parse(conv, tail);
            Parse(conv, EncodeSegment(conv, seg) + tail) == Parsed([seg] + p.segs, p.code)
  {
    var data := seg.frag.data;
    var b := EncodeHeader(conv, seg) + (data + tail);
    assert EncodeSegment(conv, seg) + tail == b;
    HeaderLayout(conv, seg, data + tail);
    HeaderRoundTrip(conv, seg, data + tail);
    assert b[OVERHEAD..OVERHEAD + |data|] == data;
    assert b[OVERHEAD + |data|..] == tail;
  }

  lemma {:induction false} Associate(a: seq<Byte>, b: seq<Byte>, c: seq<Byte>)
    ensures (a + b) + c == a + (b + c)
  {
  }

  lemma {:induction false} EncodeCons(conv: Conv, d: Datagram)
    requires d != []
    ensures Encode(conv, d) == EncodeSegment(conv, d[0]) + Encode(conv, d[1..])
  {
    var front, last := d[..|d| - 1], d[|d| - 1];
    if front == [] {
      assert d[1..] == [] && Encode(conv, d) == [] + EncodeSegment(conv, last);
    } else {
      EncodeCons(conv, front);
      assert d[1..][..|d| - 2] == front[1..];
      Associate(EncodeSegment(conv, d[0]), Encode(conv, front[1..]), EncodeSegment(conv, last));
    }
  }

  lemma {:induction false} InRangeRoundTrip(conv: Conv, d: Datagram)
    requires forall seg :: seg in d ==> InRange(seg)
    ensures Parse(conv, Encode(conv, d)) == Parsed(d, 0)
  {
    if d != [] {
      InRangeRoundTrip(conv, d[1..]);
      EncodeCons(conv, d);
      ParseFirst(conv, d[0], Encode(conv, d[1..]));
    }
  }

  lemma {:induction false} HeaderInRange(b: seq<Byte>, data: Message)
    requires |b| >= OVERHEAD && Known(b[32]) && |data| < HALF_WORD
    ensures InRange(Header(b, data))
  {
  }

  /** Whatever bytes arrive, the parser yields only segments that fit the header. */
  lemma {:induction false} ParsedInRange(conv: Conv, b: seq<Byte>)
    ensures forall seg :: seg in Parse(conv, b).segs ==> InRange(seg)
    decreases |b|
  {
    if |b| >= OVERHEAD && b[..CONV_BYTES] == conv && Known(b[32]) {
      var len := Decode32(b[48..]);
      if |b| - OVERHEAD >= len && Signed(len) >= 0 {
        ParsedInRange(conv, b[OVERHEAD + len..]);
        HeaderInRange(b, b[OVERHEAD..OVERHEAD + len]);
        hide InRange, Header;
      }
    }
  }

  /** Datagram round trip: the parser recovers exactly the segments written if and only
      if every field of every segment fits its place in the header. */
  lemma {:induction false} DatagramRoundTrip(conv: Conv, d: Datagram)
    ensures Parse(conv, Encode(conv, d)) == Parsed(d, 0) <==> forall seg :: seg in d ==> InRange(seg)
  {
    ParsedInRange(conv, Encode(conv, d));
    hide Parse, InRange;
    if forall seg :: seg in d ==> InRange(seg) { InRangeRoundTrip(conv, d); }
  }

  lemma {:induction false} Encode16Truncates(n: nat)
    ensures Encode16(n) == Encode16(n % 0x1_0000)
  {
    var q := n / 0x1_0000;
    assert n == q * 0x1_0000 + n % 0x1_0000;
    assert n / 256 == q * 256 + n % 0x1_0000 / 256;
  }

  /** An advertised window arrives as its remainder by 65536, so 65536 arrives as zero. */
  lemma {:induction false} WindowArrivesTruncated(conv: Conv, seg: Segment)
    requires InRange(seg.(wnd := 0))
    ensures Parse(conv, Encode(conv, [seg])) == Parsed([seg.(wnd := seg.wnd % 0x1_0000)], 0)
  {
    var short := seg.(wnd := seg.wnd % 0x1_0000);
    Encode16Truncates(seg.wnd);
    assert EncodeHeader(conv, seg) == EncodeHeader(conv, short);
    assert [seg][..0] == [] && [short][..0] == [];
    assert Encode(conv, [seg]) == [] + EncodeSegment(conv, seg);
    assert Encode(conv, [short]) == [] + EncodeSegment(conv, short);
    InRangeRoundTrip(conv, [short]);
  }

  /** The bytes of a segment, field by field and least significant byte first. */
  lemma {:induction false} SegmentLayout(conv: Conv, seg: Segment)
    requires InRange(seg)
    ensures var b := EncodeSegment(conv, seg);
      && |b| == 52 + |seg.frag.data| && b[..32] == conv && b[52..] == seg.frag.data
      && b[32] == seg.cmd && b[33] == seg.frag.frg && seg.wnd == (b[34] as int) + 256 * (b[35] as int)
      && seg.ts == Little(b[36..40]) && seg.sn == Little(b[40..44]) && seg.una == Little(b[44..48])
      && |seg.frag.data| == Little(b[48..52])
    ensures seg.cmd == CMD_PUSH || seg.cmd == CMD_ACK || seg.cmd == CMD_WASK || seg.cmd == CMD_WINS
    ensures CMD_PUSH == 81 && CMD_ACK == 82 && CMD_WASK == 83 && CMD_WINS == 84
  {
    HeaderLayout(conv, seg, seg.frag.data);
    RoundTrip16(seg.wnd);
    RoundTrip32(seg.ts);
    RoundTrip32(seg.sn);
    RoundTrip32(seg.una);
    RoundTrip32(|seg.frag.data|);
    var b := EncodeSegment(conv, seg);
    assert b[34] == b[34..36][0] && b[35] == b[34..36][1];
    LittleIsDecode(b[36..40]);
    LittleIsDecode(b[40..44]);
    LittleIsDecode(b[44..48]);
    LittleIsDecode(b[48..52]);
    hide EncodeHeader, Encode16, Encode32;
  }

  /** Four bytes as a number, the least significant first. */
  function Little(b: seq<Byte>): nat {
    if b == [] then 0 else (b[0] as int) + 256 * Little(b[1..])
  }

  lemma {:induction false} LittleIsDecode(b: seq<Byte>)
    requires |b| == 4
    ensures Little(b) == Decode32(b)
  {
    assert b[1..][1..] == b[2..] && b[2..][1..] == b[3..] && b[3..][1..] == [];
    assert Little(b[3..]) == (b[3] as int) + 256 * Little([]);
    assert Little(b[2..]) == (b[2] as int) + 256 * Little(b[3..]);
    assert Little(b[1..]) == (b[1] as int) + 256 * Little(b[2..]);
  }

  lemma {:induction false} ParseOneFails(conv: Conv, b: seq<Byte>)
    requires |b| >= 52
    ensures b[..32] != conv ==> Parse(conv, b) == Parsed([], -1)
    ensures b[..32] == conv && Little(b[48..52]) > |b| - 52 ==> Parse(conv, b) == Parsed([], -2)
    ensures b[..32] == conv && Little(b[48..52]) <= |b| - 52 < HALF_WORD && !(81 <= b[32] <= 84) ==>
      Parse(conv, b) == Parsed([], -3)
  {
    LittleIsDecode(b[48..52]);
    assert Decode32(b[48..]) == Decode32(b[48..52]);
  }

  /** Whole segments take effect up to the first that is refused: the parse of a datagram
      with anything behind it is its segments and then the parse of the rest. */
  lemma {:induction false} ParseGoesOn(conv: Conv, d: Datagram, tail: seq<Byte>)
    requires forall seg :: seg in d ==> InRange(seg)
    ensures Parse(conv, Encode(conv, d) + tail) == Parsed(d + Parse(conv, tail).segs, Parse(conv, tail).code)
  {
    hide Parse, EncodeSegment, InRange;
    if d == [] {
      assert [] + tail == tail && [] + Parse(conv, tail).segs == Parse(conv, tail).segs;
    } else {
      hide Encode;
      ParseGoesOn(conv, d[1..], tail);
      EncodeCons(conv, d);
      Associate(EncodeSegment(conv, d[0]), Encode(conv, d[1..]), tail);
      ParseFirst(conv, d[0], Encode(conv, d[1..]) + tail);
      assert [d[0]] + (d[1..] + Parse(conv, tail).segs) == d + Parse(conv, tail).segs;
    }
  }

  // -------------------------------------------------- the wire is transparent

  ghost predicate TidySegment(seg: Segment, cfg: Config) {
    Known(seg.cmd) && seg.wnd <= cfg.rcvWnd && (seg.cmd != CMD_PUSH ==> seg.frag == Fragment(0, []))
  }

  /** Every datagram ever output respects the MTU and is made of sound segments. */
  ghost predicate Tidy(x: Peer) {
    && (forall d :: d in x.out ==> Fits(d, x.k.cfg.mtu))
    && (forall seg :: seg in Segs(x.out) ==> TidySegment(seg, x.k.cfg))
  }

  lemma {:induction false} FlushSegmentsTidy(x: Peer, y: Peer, cwnd: nat, seg: Segment)
    requires Linked(x, y) && x.k.tm.updated && seg in FlushSegments(x.k)
    ensures TidySegment(seg, x.k.cfg) && SegmentSize(seg) <= x.k.cfg.mtu
  {
    FlushSegmentsGood(x.k, seg);
    if seg.cmd == CMD_PUSH {
      var f := FlowOf(x, y);
      FlushKeepsSender(f, x.k, cwnd);
      assert seg in f.fwd + Written(x.k);
      assert GoodData(seg, Flush(x.k, cwnd).snd.nxt, Stream(f.sent, f.mss));
      StreamFits(f.sent, f.mss);
    }
  }

  lemma {:induction false} FlushTidy(x: Peer, y: Peer, cwnd: nat)
    requires Linked(x, y) && Tidy(x)
    ensures Tidy(Flushed(x, cwnd))
  {
    FlushFlows(x, y, cwnd);
    OutputSegs(x.out, x.k);
    if x.k.tm.updated {
      forall seg | seg in FlushSegments(x.k) ensures TidySegment(seg, x.k.cfg) && SegmentSize(seg) <= x.k.cfg.mtu {
        FlushSegmentsTidy(x, y, cwnd, seg);
      }
      PackFits(FlushSegments(x.k), x.k.cfg.mtu);
    }
  }

  lemma {:induction false} ActTidy(x: Peer, y: Peer, step: Step)
    requires Linked(x, y) && Tidy(x) && Enabled(x, y, step)
    ensures Tidy(Act(x, step))
  {
    ActKeeps(x, y, step);
    match step
    case DoUpdate(now, cwnd) =>
      var x1 := x.(k := Ticked(x.k, now));
      assert FlowOf(x1, y) == FlowOf(x, y) && FlowOf(y, x1) == FlowOf(y, x);
      FlushTidy(x1, y, cwnd);
    case DoFlush(cwnd) => FlushTidy(x, y, cwnd);
    case DoInput(d, rto, cwnd) =>
    case DoSend(msg) =>
    case DoRecv(len) =>
  }

  lemma {:induction false} NextTidy(s: Sys, s': Sys)
    requires Linked(s.a, s.b) && Tidy(s.a) && Tidy(s.b) && Next(s, s')
    ensures Tidy(s'.a) && Tidy(s'.b)
  {
    hide Linked, Tidy, Act;
    var step :| || (Enabled(s.a, s.b, step) && s' == Sys(Act(s.a, step), s.b))
                || (Enabled(s.b, s.a, step) && s' == Sys(s.a, Act(s.b, step)));
    if Enabled(s.a, s.b, step) && s' == Sys(Act(s.a, step), s.b) {
      ActTidy(s.a, s.b, step);
    } else {
      assert Linked(s.b, s.a) by { LinkedSymmetric(s.a, s.b); }
      ActTidy(s.b, s.a, step);
    }
  }

  lemma {:induction false} LinkedSymmetric(x: Peer, y: Peer)
    requires Linked(x, y)
    ensures Linked(y, x)
  {
    hide Inv;
  }

  lemma {:induction false} InitTidy(s: Sys)
    requires Init(s)
    ensures Tidy(s.a) && Tidy(s.b)
  {
  }

  lemma {:induction false} RunTidy(run: seq<Sys>, i: nat)
    requires Run(run) && i < |run|
    ensures Tidy(run[i].a) && Tidy(run[i].b)
  {
    hide Linked, Tidy, Init, Next;
    if i == 0 {
      InitTidy(run[0]);
    } else {
      RunTidy(run, i - 1);
      RunKeeps(run, i - 1);
      NextTidy(run[i - 1], run[i]);
    }
  }

  /** Every buffer ever handed to the output callback is a nonempty whole number of
      segments and at most `mtu` bytes. */
  lemma {:induction false} OutputFitsMtu(run: seq<Sys>, i: nat, conv: Conv, d: Datagram)
    requires Run(run) && i < |run| && d in run[i].a.out
    ensures OVERHEAD <= |Encode(conv, d)| <= run[i].a.k.cfg.mtu
  {
    RunTidy(run, i);
    SizeSnoc(d[..|d| - 1], d[|d| - 1]);
    assert d == d[..|d| - 1] + [d[|d| - 1]];
  }

  ghost predicate Representable(k: Kcb) {
    k.snd.nxt < WORD && k.cfg.rcvWnd < 0x1_0000 && k.cfg.mtu < HALF_WORD
  }

  lemma {:induction false} OutputInRange(x: Peer, y: Peer, seg: Segment)
    requires Linked(x, y) && Tidy(x) && Representable(x.k) && Representable(y.k)
    requires seg in Segs(x.out)
    ensures InRange(seg)
  {
    var f, g := FlowOf(x, y), FlowOf(y, x);
    assert TidySegment(seg, x.k.cfg);
    assert GoodData(seg, f.snd.nxt, Stream(f.sent, f.mss)) && GoodAck(seg, g.rcv);
    assert g.rcv.nxt <= g.snd.nxt;
    if seg.cmd == CMD_PUSH {
      StreamFits(f.sent, f.mss);
      assert seg.frag in Stream(f.sent, f.mss);
    } else if seg.sn != 0 {
      assert Received(g.rcv, seg.sn);
      assert seg.sn < g.snd.nxt;
    }
  }

  /** The wire is transparent: as long as serial numbers fit 32 bits and windows 16,
      delivering the bytes of any datagram ever output is delivering its segments. */
  lemma {:induction false} WireIsTransparent(run: seq<Sys>, i: nat, conv: Conv, d: Datagram, k: Kcb, rto: U32,
                                             cwnd: nat)
    requires Run(run) && i < |run| && d in run[i].a.out
    requires Representable(run[i].a.k) && Representable(run[i].b.k)
    ensures InputBytes(k, conv, Encode(conv, d), rto, cwnd) == Outcome(Input(k, d, true, rto, cwnd), 0, [])
  {
    hide Linked, Tidy, Init, Next, Parse, Encode, Input;
    RunTidy(run, i);
    RunKeeps(run, i);
    forall seg | seg in d ensures InRange(seg) {
      assert seg in Segs(run[i].a.out);
      OutputInRange(run[i].a, run[i].b, seg);
    }
    InRangeRoundTrip(conv, d);
    OutputFitsMtu(run, i, conv, d);
    WrapUnique(Size(d), 0);
  }
}
