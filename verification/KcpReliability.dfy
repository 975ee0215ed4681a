/** One direction of a KCP connection: what the sending half of one endpoint, the
    receiving half of the other and the datagrams between them keep in common. */
module KcpReliability {
  import opened Machine
  import opened KcpProtocol

  // ---------------------------------------------------- messages and fragments

  /** All fragments of a list of accepted messages, in the order they are numbered. */
  ghost function Stream(msgs: seq<Message>, mss: int): seq<Fragment>
    requires mss > 0
  {
    if msgs == [] then [] else Stream(msgs[..|msgs| - 1], mss) + Cut(msgs[|msgs| - 1], mss)
  }

  ghost function JoinFragments(fs: seq<Fragment>): Message {
    if fs == [] then [] else fs[0].data + JoinFragments(fs[1..])
  }

  lemma {:induction false} OneMore(i: nat, mss: int)
    requires mss > 0
    ensures (i + 1) * mss == i * mss + mss && i * mss >= 0
  {
  }

  lemma {:induction false} FragmentsShape(msg: Message, mss: int, count: nat, i: nat)
    requires mss > 0 && i < count
    ensures Fragments(msg, mss, count)[i].frg == count - 1 - i
    ensures |Fragments(msg, mss, count)[i].data| <= mss
    ensures |msg| >= (i + 1) * mss ==> |Fragments(msg, mss, count)[i].data| == mss
  {
    OneMore(i, mss);
    if i > 0 {
      FragmentsShape(msg[Min(|msg|, mss)..], mss, count - 1, i - 1);
    }
  }

  lemma {:induction false} JoinCons(f: Fragment, fs: seq<Fragment>)
    ensures JoinFragments([f] + fs) == f.data + JoinFragments(fs)
  {
    assert ([f] + fs)[1..] == fs;
  }

  lemma {:induction false} OneLess(count: nat, mss: int, len: int)
    requires count > 0 && len <= count * mss
    ensures len - mss <= (count - 1) * mss
  {
  }

  lemma {:induction false} FragmentsJoin(msg: Message, mss: int, count: nat)
    requires mss > 0 && |msg| <= count * mss
    ensures JoinFragments(Fragments(msg, mss, count)) == msg
  {
    if count > 0 {
      var size := Min(|msg|, mss);
      var rest := Fragments(msg[size..], mss, count - 1);
      OneLess(count, mss, |msg|);
      if |msg| <= mss {
        assert 0 <= (count - 1) * mss;
      }
      FragmentsJoin(msg[size..], mss, count - 1);
      JoinCons(Fragment(count - 1, msg[..size]), rest);
    }
  }

  lemma {:induction false} CountCovers(len: nat, mss: int)
    requires mss > 0
    ensures len <= FragmentCount(len, mss) * mss
    ensures FragmentCount(len, mss) > 0
    ensures FragmentCount(len, mss) > 1 ==> len > (FragmentCount(len, mss) - 1) * mss
  {
    var q := (len + mss - 1) / mss;
    assert len + mss - 1 == q * mss + (len + mss - 1) % mss;
    assert (q - 1) * mss == q * mss - mss;
    if q <= 0 { assert q * mss <= 0; }
  }

  lemma {:induction false} CountAtMost(len: nat, mss: int, count: nat)
    requires mss > 0 && count > 0
    ensures FragmentCount(len, mss) <= count <==> len <= count * mss
  {
    CountCovers(len, mss);
    var n := FragmentCount(len, mss);
    if n <= count { assert n * mss <= count * mss; }
    if n > count { assert (n - 1) * mss >= count * mss; }
  }

  /** A message is accepted exactly when 127 full fragments can hold it. */
  lemma {:induction false} AcceptsExactly(msg: Message, mss: int)
    requires mss > 0
    ensures Accepts(msg, mss) <==> |msg| <= 127 * mss
  {
    CountAtMost(|msg|, mss, 127);
  }

  /** Fragmentation loses nothing and wastes nothing: the pieces are numbered down to
      zero, all but the last fill a segment, and their payloads concatenate to the
      message. */
  lemma {:induction false} CutRoundTrip(msg: Message, mss: int)
    requires mss > 0
    ensures JoinFragments(Cut(msg, mss)) == msg
    ensures |Cut(msg, mss)| > 0
    ensures forall i :: 0 <= i < |Cut(msg, mss)| ==>
                          Cut(msg, mss)[i].frg == |Cut(msg, mss)| - 1 - i && |Cut(msg, mss)[i].data| <= mss
    ensures forall i :: 0 <= i < |Cut(msg, mss)| - 1 ==> |Cut(msg, mss)[i].data| == mss
  {
    var n := FragmentCount(|msg|, mss);
    CountCovers(|msg|, mss);
    FragmentsJoin(msg, mss, n);
    hide Fragments, FragmentCount;
    forall i: nat | i < n
      ensures Cut(msg, mss)[i].frg == n - 1 - i && |Cut(msg, mss)[i].data| <= mss
      ensures i < n - 1 ==> |Cut(msg, mss)[i].data| == mss
    {
      FragmentsShape(msg, mss, n, i);
      if i < n - 1 { FullBelow(i + 1, n - 1, mss); }
    }
  }

  lemma {:induction false} FullBelow(i: nat, n: nat, mss: int)
    requires mss > 0 && i <= n
    ensures i * mss <= n * mss
  {
  }

  lemma {:induction false} StreamPrefix(msgs: seq<Message>, n: nat, mss: int)
    requires mss > 0 && n <= |msgs|
    ensures Stream(msgs[..n], mss) <= Stream(msgs, mss)
  {
    if n < |msgs| {
      var front := msgs[..|msgs| - 1];
      StreamPrefix(front, n, mss);
      assert front[..n] == msgs[..n];
    } else {
      assert msgs[..n] == msgs;
    }
  }

  lemma {:induction false} StreamNext(msgs: seq<Message>, n: nat, mss: int)
    requires mss > 0 && n < |msgs|
    ensures Stream(msgs[..n + 1], mss) == Stream(msgs[..n], mss) + Cut(msgs[n], mss)
    ensures Stream(msgs[..n + 1], mss) <= Stream(msgs, mss)
  {
    StreamPrefix(msgs, n + 1, mss);
    assert msgs[..n + 1][..n] == msgs[..n];
  }

  lemma {:induction false} StreamFits(msgs: seq<Message>, mss: int)
    requires mss > 0 && forall m :: m in msgs ==> Accepts(m, mss)
    ensures forall f :: f in Stream(msgs, mss) ==> |f.data| <= mss && f.frg < WND_RCV
  {
    if msgs != [] {
      StreamFits(msgs[..|msgs| - 1], mss);
      assert msgs[|msgs| - 1] in msgs;
      CutRoundTrip(msgs[|msgs| - 1], mss);
    }
  }

  // ------------------------------------------------------------ the two halves

  ghost predicate Held(buf: seq<Flight>, sn: nat) {
    exists f :: f in buf && f.sn == sn
  }

  ghost predicate Stored(buf: seq<Numbered>, sn: nat) {
    exists x :: x in buf && x.sn == sn
  }

  /** The receiver has segment `sn`: in order, or waiting out of order. */
  ghost predicate Received(r: Receiving, sn: nat) {
    sn < r.nxt || Stored(r.buf, sn)
  }

  ghost predicate AscendingFlights(buf: seq<Flight>) {
    forall i, j :: 0 <= i < j < |buf| ==> buf[i].sn < buf[j].sn
  }

  ghost predicate AscendingNumbers(buf: seq<Numbered>) {
    forall i, j :: 0 <= i < j < |buf| ==> buf[i].sn < buf[j].sn
  }

  ghost predicate FlightsMatch(buf: seq<Flight>, n: nat, stream: seq<Fragment>) {
    n <= |stream| && forall f :: f in buf ==> f.sn < n && f.frag == stream[f.sn]
  }

  /** The sending half: `snd_queue` holds what is not numbered yet, `snd_buf` an
      ascending part of what is, `snd_una` is its first number, and the window is
      respected. */
  ghost predicate Sender(s: Sending, wnd: nat, stream: seq<Fragment>) {
    && FlightsMatch(s.buf, s.nxt, stream)
    && s.queue == stream[s.nxt..]
    && AscendingFlights(s.buf)
    && s.una == (if s.buf != [] then s.buf[0].sn else s.nxt)
    && s.nxt <= s.una + wnd
  }

  ghost predicate QueueMatches(q: seq<Numbered>, done: nat, stream: seq<Fragment>) {
    done + |q| <= |stream| && forall i :: 0 <= i < |q| ==> q[i] == Numbered(done + i, stream[done + i])
  }

  ghost predicate BufMatches(buf: seq<Numbered>, lo: nat, hi: nat, stream: seq<Fragment>) {
    forall x :: x in buf ==> lo <= x.sn < hi && x.sn < |stream| && x.frag == stream[x.sn]
  }

  /** The receiving half: `rcv_queue` is the contiguous run that ends at `rcv_nxt`,
      `rcv_buf` an ascending part of the window after it, both with the contents
      the sender gave those numbers. */
  ghost predicate Receiver(r: Receiving, wnd: nat, n: nat, stream: seq<Fragment>, done: nat) {
    && r.nxt <= n
    && done + |r.queue| == r.nxt
    && |r.queue| <= wnd
    && QueueMatches(r.queue, done, stream)
    && AscendingNumbers(r.buf)
    && BufMatches(r.buf, r.nxt, Min(n, r.nxt + wnd), stream)
  }

  /** Nothing that could move from `rcv_buf` to `rcv_queue` is left behind. */
  ghost predicate Settled(r: Receiving, wnd: nat) {
    r.buf != [] && r.buf[0].sn == r.nxt ==> |r.queue| >= wnd
  }

  ghost predicate GoodData(seg: Segment, n: nat, stream: seq<Fragment>) {
    seg.cmd == CMD_PUSH ==> seg.sn < n <= |stream| && seg.frag == stream[seg.sn]
  }

  /** Probes repeat the last acknowledged number, or zero. */
  ghost predicate GoodAck(seg: Segment, r: Receiving) {
    && seg.una <= r.nxt
    && (seg.cmd == CMD_ACK ==> Received(r, seg.sn))
    && (seg.cmd == CMD_WASK || seg.cmd == CMD_WINS ==> seg.sn == 0 || Received(r, seg.sn))
  }

  /** No segment is forgotten by both sides. */
  ghost predicate NothingForgotten(s: Sending, r: Receiving) {
    forall sn: nat :: sn < s.nxt ==> Held(s.buf, sn) || Received(r, sn)
  }

  /** `r'` has received whatever `r` had. */
  ghost predicate Advances(r: Receiving, r': Receiving) {
    r.nxt <= r'.nxt && forall sn: nat :: Received(r, sn) ==> Received(r', sn)
  }

  // ------------------------------------------------------------- one direction

  /** The sending half of one endpoint, the receiving half and pending
      acknowledgements of the other, every segment ever written each way, and the
      messages accepted by `ikcp_send` and returned by `ikcp_recv`. */
  datatype Flow = Flow(mss: int, sndWnd: nat, rcvWnd: nat,
                       snd: Sending, rcv: Receiving, acks: seq<Ack>,
                       fwd: set<Segment>, back: set<Segment>,
                       sent: seq<Message>, got: seq<Message>)

  ghost predicate Configured(f: Flow) {
    f.mss > 0 && f.rcvWnd >= WND_RCV
  }

  ghost predicate Log(f: Flow)
    requires Configured(f)
  {
    f.got <= f.sent && forall m :: m in f.sent ==> Accepts(m, f.mss)
  }

  ghost predicate Halves(f: Flow)
    requires Configured(f)
  {
    && Sender(f.snd, f.sndWnd, Stream(f.sent, f.mss))
    && Receiver(f.rcv, f.rcvWnd, f.snd.nxt, Stream(f.sent, f.mss), |Stream(f.got, f.mss)|)
    && Settled(f.rcv, f.rcvWnd)
    && NothingForgotten(f.snd, f.rcv)
  }

  ghost predicate Wires(f: Flow)
    requires Configured(f)
  {
    && (forall seg :: seg in f.fwd ==> GoodData(seg, f.snd.nxt, Stream(f.sent, f.mss)))
    && (forall seg :: seg in f.back ==> GoodAck(seg, f.rcv))
    && (forall a :: a in f.acks ==> Received(f.rcv, a.sn))
  }

  ghost predicate Inv(f: Flow) {
    Configured(f) && Log(f) && Halves(f) && Wires(f)
  }

  // -------------------------------------------------------------- ikcp_send

  lemma {:induction false} SendKeeps(f: Flow, msg: Message)
    requires Inv(f) && Accepts(msg, f.mss)
    ensures Inv(f.(snd := f.snd.(queue := f.snd.queue + Cut(msg, f.mss)), sent := f.sent + [msg]))
  {
    var sent' := f.sent + [msg];
    assert sent'[..|f.sent|] == f.sent;
    var stream, stream' := Stream(f.sent, f.mss), Stream(sent', f.mss);
    assert stream' == stream + Cut(msg, f.mss);
    assert stream'[f.snd.nxt..] == stream[f.snd.nxt..] + Cut(msg, f.mss);
  }

  // -------------------------------------------------------------- ikcp_recv

  lemma {:induction false} HeadCountOf(q: seq<Numbered>, c: nat)
    requires 0 < c <= |q|
    requires forall i :: 0 <= i < c ==> q[i].frag.frg == c - 1 - i
    ensures HeadCount(q) == c
  {
    if c > 1 {
      assert forall i :: 0 <= i < c - 1 ==> q[1..][i] == q[i + 1];
      HeadCountOf(q[1..], c - 1);
    }
  }

  lemma {:induction false} JoinOf(q: seq<Numbered>, fs: seq<Fragment>)
    requires |q| == |fs| && forall i :: 0 <= i < |q| ==> q[i].frag == fs[i]
    ensures Join(q) == JoinFragments(fs)
  {
    if q != [] {
      JoinOf(q[1..], fs[1..]);
    }
  }

  /** What `ikcp_peeksize` and the merge loop see when the queue starts with the
      pieces of `m`. */
  lemma {:induction false} QueueHead(q: seq<Numbered>, m: Message, mss: int)
    requires mss > 0 && q != []
    requires var cut := Cut(m, mss); forall i :: 0 <= i < Min(|q|, |cut|) ==> q[i].frag == cut[i]
    ensures var c := |Cut(m, mss)|;
            && (PeekSize(q) >= 0 <==> |q| >= c)
            && (|q| >= c ==> HeadCount(q) == c && Join(q[..c]) == m && PeekSize(q) == |m|)
  {
    var cut := Cut(m, mss);
    CutRoundTrip(m, mss);
    assert q[0].frag == cut[0];
    if |q| >= |cut| {
      HeadCountOf(q, |cut|);
      JoinOf(q[..|cut|], cut);
      if |cut| == 1 {
        assert Join(q[..1]) == q[0].frag.data + Join([]);
      }
    }
  }

  /** A nonempty `rcv_queue` starts at the first undelivered message. */
  lemma {:induction false} NextMessage(f: Flow)
    requires Inv(f) && f.rcv.queue != []
    ensures |f.got| < |f.sent| && Accepts(f.sent[|f.got|], f.mss)
    ensures f.sent[..|f.got| + 1] == f.got + [f.sent[|f.got|]]
    ensures Stream(f.got + [f.sent[|f.got|]], f.mss) == Stream(f.got, f.mss) + Cut(f.sent[|f.got|], f.mss)
    ensures var cut := Cut(f.sent[|f.got|], f.mss);
            forall i :: 0 <= i < Min(|f.rcv.queue|, |cut|) ==> f.rcv.queue[i].frag == cut[i]
  {
    hide Wires, NothingForgotten, Sender, BufMatches;
    var n := |f.got|;
    assert f.got == f.sent[..n];
    assert n == |f.sent| ==> f.got == f.sent;
    if n < |f.sent| {
      StreamNext(f.sent, n, f.mss);
      assert f.sent[n] in f.sent;
      assert f.sent[..n + 1] == f.got + [f.sent[n]];
    }
  }

  /** Reassembly: the message at the head is readable exactly when all its
      fragments are queued, and merging the head yields the message itself. */
  lemma {:induction false} HeadIsNextMessage(f: Flow)
    requires Inv(f) && f.rcv.queue != []
    ensures |f.got| < |f.sent|
    ensures var q, m := f.rcv.queue, f.sent[|f.got|];
            var c := |Cut(m, f.mss)|;
            && c < WND_RCV
            && (PeekSize(q) >= 0 <==> |q| >= c)
            && (|q| >= c ==> HeadCount(q) == c && Join(q[..c]) == m && PeekSize(q) == |m|)
  {
    NextMessage(f);
    QueueHead(f.rcv.queue, f.sent[|f.got|], f.mss);
  }

  lemma {:induction false} MoveStepKeeps(r: Receiving, wnd: nat, n: nat, stream: seq<Fragment>, done: nat)
    requires Receiver(r, wnd, n, stream, done)
    requires r.buf != [] && r.buf[0].sn == r.nxt && |r.queue| < wnd
    ensures var r1 := Receiving(r.nxt + 1, r.buf[1..], r.queue + [r.buf[0]]);
            Receiver(r1, wnd, n, stream, done) && Advances(r, r1)
  {
    var r1 := Receiving(r.nxt + 1, r.buf[1..], r.queue + [r.buf[0]]);
    assert r.buf[0] in r.buf;
    forall sn: nat | Received(r, sn) ensures Received(r1, sn) {
      if sn > r.nxt {
        var x :| x in r.buf && x.sn == sn;
        assert x in r1.buf;
      }
    }
    forall x | x in r1.buf ensures x in r.buf && x.sn > r.nxt {
      var i :| 0 <= i < |r1.buf| && r1.buf[i] == x;
      assert r.buf[i + 1] == x;
    }
  }

  lemma {:induction false} MoveReadyKeeps(r: Receiving, wnd: nat, n: nat, stream: seq<Fragment>, done: nat)
    requires Receiver(r, wnd, n, stream, done)
    ensures Receiver(MoveReady(r, wnd), wnd, n, stream, done)
    ensures Settled(MoveReady(r, wnd), wnd) && Advances(r, MoveReady(r, wnd))
    decreases |r.buf|
  {
    if r.buf != [] && r.buf[0].sn == r.nxt && |r.queue| < wnd {
      MoveStepKeeps(r, wnd, n, stream, done);
      MoveReadyKeeps(Receiving(r.nxt + 1, r.buf[1..], r.queue + [r.buf[0]]), wnd, n, stream, done);
    }
  }

  /** Replacing the receiving half by one that has received no less keeps the flow. */
  lemma {:induction false} ReceiverAdvances(f: Flow, rcv: Receiving, acks: seq<Ack>, got: seq<Message>)
    requires Inv(f) && Advances(f.rcv, rcv) && got <= f.sent
    requires Receiver(rcv, f.rcvWnd, f.snd.nxt, Stream(f.sent, f.mss), |Stream(got, f.mss)|)
    requires Settled(rcv, f.rcvWnd)
    requires forall a :: a in acks ==> a in f.acks || Received(rcv, a.sn)
    ensures Inv(f.(rcv := rcv, acks := acks, got := got))
  {
    assert NothingForgotten(f.snd, f.rcv);
    forall seg | seg in f.back ensures GoodAck(seg, rcv) {
      assert GoodAck(seg, f.rcv);
    }
  }

  lemma {:induction false} DropQueue(r: Receiving, c: nat, wnd: nat, n: nat, stream: seq<Fragment>, done: nat)
    requires Receiver(r, wnd, n, stream, done) && c <= |r.queue|
    ensures Receiver(r.(queue := r.queue[c..]), wnd, n, stream, done + c)
    ensures Advances(r, r.(queue := r.queue[c..]))
  {
  }

  /** Taking the head message off `rcv_queue` and refilling it from `rcv_buf`. */
  lemma {:induction false} TakeHeadKeeps(f: Flow)
    requires Inv(f) && PeekSize(f.rcv.queue) >= 0
    ensures |f.got| < |f.sent|
    ensures var q := f.rcv.queue;
            var rcv := MoveReady(f.rcv.(queue := q[HeadCount(q)..]), f.rcvWnd);
            Inv(f.(rcv := rcv, got := f.got + [f.sent[|f.got|]]))
  {
    hide Wires, NothingForgotten, Sender, Receiver, Settled, Fragments;
    NextMessage(f);
    HeadIsNextMessage(f);
    var q, got, stream := f.rcv.queue, f.got + [f.sent[|f.got|]], Stream(f.sent, f.mss);
    var r0, done := f.rcv.(queue := q[HeadCount(q)..]), |Stream(got, f.mss)|;
    DropQueue(f.rcv, HeadCount(q), f.rcvWnd, f.snd.nxt, stream, |Stream(f.got, f.mss)|);
    MoveReadyKeeps(r0, f.rcvWnd, f.snd.nxt, stream, done);
    assert f.sent[..|f.got| + 1] <= f.sent;
    ReceiverAdvances(f, MoveReady(r0, f.rcvWnd), f.acks, got);
  }

  lemma {:induction false} PeekKeeps(f: Flow)
    requires Inv(f)
    ensures MoveReady(f.rcv, f.rcvWnd) == f.rcv
  {
  }

  lemma {:induction false} RecvKeeps(f: Flow, k: Kcb, len: int)
    requires Inv(f) && k.rcv == f.rcv && k.cfg.rcvWnd == f.rcvWnd
    ensures var r := Recv(k, len);
            Inv(f.(rcv := r.k.rcv, got := if r.code >= 0 && len >= 0 then f.got + [r.data] else f.got))
  {
    var r := Recv(k, len);
    if r.code >= 0 && len >= 0 {
      HeadIsNextMessage(f);
      TakeHeadKeeps(f);
    } else {
      PeekKeeps(f);
      assert f.(rcv := r.k.rcv) == f;
    }
  }

  // ------------------------------------------------- ikcp_input, receiving half

  lemma {:induction false} InsertElements(buf: seq<Numbered>, seg: Numbered)
    ensures forall x :: x in Insert(buf, seg) ==> x in buf || x == seg
    ensures forall x :: x in buf ==> x in Insert(buf, seg)
  {
    if buf != [] {
      InsertElements(buf[..|buf| - 1], seg);
      assert buf == buf[..|buf| - 1] + [buf[|buf| - 1]];
    }
  }

  lemma {:induction false} LastIsGreatest(buf: seq<Numbered>)
    requires AscendingNumbers(buf) && buf != []
    ensures forall x :: x in buf[..|buf| - 1] ==> x.sn < buf[|buf| - 1].sn
  {
    var front := buf[..|buf| - 1];
    forall x | x in front ensures x.sn < buf[|buf| - 1].sn {
      var j :| 0 <= j < |front| && front[j] == x;
      assert buf[j] == x;
    }
  }

  lemma {:induction false} InsertAscends(buf: seq<Numbered>, seg: Numbered)
    requires AscendingNumbers(buf)
    ensures AscendingNumbers(Insert(buf, seg)) && Stored(Insert(buf, seg), seg.sn)
  {
    if buf == [] || seg.sn > buf[|buf| - 1].sn {
      assert seg in Insert(buf, seg);
    } else if seg.sn == buf[|buf| - 1].sn {
      assert buf[|buf| - 1] in buf;
    } else {
      var front, last := buf[..|buf| - 1], buf[|buf| - 1];
      InsertAscends(front, seg);
      InsertElements(front, seg);
      var r := Insert(front, seg);
      assert forall x :: x in front ==> x.sn < last.sn by { LastIsGreatest(buf); }
      hide Insert;
      assert forall i :: 0 <= i < |r| ==> r[i] in r;
      var x :| x in r && x.sn == seg.sn;
      assert x in r + [last];
    }
  }

  lemma {:induction false} ParseDataKeeps(r: Receiving, wnd: nat, seg: Numbered, n: nat, stream: seq<Fragment>,
                                          done: nat)
    requires Receiver(r, wnd, n, stream, done)
    requires seg.sn < n <= |stream| && seg.frag == stream[seg.sn]
    requires r.nxt <= seg.sn < r.nxt + wnd
    ensures var r' := ParseData(r, wnd, seg);
            && Receiver(r', wnd, n, stream, done) && Settled(r', wnd)
            && Advances(r, r') && Received(r', seg.sn)
  {
    var r1 := r.(buf := Insert(r.buf, seg));
    InsertElements(r.buf, seg);
    InsertAscends(r.buf, seg);
    forall sn: nat | Received(r, sn) ensures Received(r1, sn) {
      if sn >= r.nxt {
        var x :| x in r.buf && x.sn == sn;
        assert x in r1.buf;
      }
    }
    assert Received(r1, seg.sn);
    MoveReadyKeeps(r1, wnd, n, stream, done);
  }

  /** What a segment does to the receiving half of the endpoint it reaches. */
  lemma {:induction false} SegmentReachesReceiver(f: Flow, seg: Segment)
    requires Inv(f) && seg in f.fwd
    ensures Inv(f.(rcv := ReceivingInput(f.rcv, f.rcvWnd, seg), acks := AckInput(f.acks, f.rcv, f.rcvWnd, seg)))
  {
    var rcv := ReceivingInput(f.rcv, f.rcvWnd, seg);
    if seg.cmd == CMD_PUSH && f.rcv.nxt <= seg.sn < f.rcv.nxt + f.rcvWnd {
      ParseDataKeeps(f.rcv, f.rcvWnd, Numbered(seg.sn, seg.frag), f.snd.nxt, Stream(f.sent, f.mss), |Stream(f.got, f.mss)|);
    }
    ReceiverAdvances(f, rcv, AckInput(f.acks, f.rcv, f.rcvWnd, seg), f.got);
  }

  // --------------------------------------------------- ikcp_input, sending half

  /** `b` is a part of `a` in the same order that starts no earlier. */
  ghost predicate Trimmed(a: seq<Flight>, b: seq<Flight>) {
    && AscendingFlights(b)
    && (forall f :: f in b ==> f in a)
    && (b != [] ==> a != [] && a[0].sn <= b[0].sn)
  }

  lemma {:induction false} DropBelowTrims(buf: seq<Flight>, una: nat)
    requires AscendingFlights(buf)
    ensures Trimmed(buf, DropBelow(buf, una))
    ensures forall f :: f in buf && f.sn >= una ==> f in DropBelow(buf, una)
  {
    if buf != [] && una > buf[0].sn {
      DropBelowTrims(buf[1..], una);
    }
  }

  lemma {:induction false} TrimmedCons(buf: seq<Flight>, r: seq<Flight>)
    requires buf != [] && AscendingFlights(buf) && Trimmed(buf[1..], r)
    ensures Trimmed(buf, [buf[0]] + r)
  {
    forall i | 0 <= i < |r| ensures buf[0].sn < r[i].sn {
      assert r[i] in buf[1..];
    }
  }

  lemma {:induction false} RemoveSnTrims(buf: seq<Flight>, sn: nat)
    requires AscendingFlights(buf)
    ensures Trimmed(buf, RemoveSn(buf, sn))
    ensures forall f :: f in buf && f.sn != sn ==> f in RemoveSn(buf, sn)
  {
    if buf != [] && sn > buf[0].sn {
      RemoveSnTrims(buf[1..], sn);
      TrimmedCons(buf, RemoveSn(buf[1..], sn));
    }
  }

  /** Shrinking `snd_buf` by received segments keeps the flow, and `snd_una` only
      moves forward. */
  lemma {:induction false} SenderShrinks(f: Flow, buf: seq<Flight>)
    requires Inv(f) && Trimmed(f.snd.buf, buf)
    requires forall x :: x in f.snd.buf ==> x in buf || Received(f.rcv, x.sn)
    ensures var snd := ShrinkBuf(f.snd.(buf := buf)); Inv(f.(snd := snd)) && f.snd.una <= snd.una
  {
    if f.snd.buf != [] {
      assert f.snd.buf[0] in f.snd.buf;
    }
    forall sn: nat | sn < f.snd.nxt ensures Held(buf, sn) || Received(f.rcv, sn) {
      if Held(f.snd.buf, sn) {
        var x :| x in f.snd.buf && x.sn == sn;
      }
    }
  }

  /** What a segment does to the sending half of the endpoint it reaches. */
  lemma {:induction false} SegmentReachesSender(f: Flow, seg: Segment)
    requires Inv(f) && seg in f.back
    ensures Inv(f.(snd := SendingInput(f.snd, seg)))
    ensures SendingInput(f.snd, seg).una >= f.snd.una
  {
    var s1 := ShrinkBuf(ParseUna(f.snd, seg.una));
    DropBelowTrims(f.snd.buf, seg.una);
    SenderShrinks(f, DropBelow(f.snd.buf, seg.una));
    if seg.cmd == CMD_ACK {
      if s1.una <= seg.sn < s1.nxt {
        RemoveSnTrims(s1.buf, seg.sn);
        SenderShrinks(f.(snd := s1), RemoveSn(s1.buf, seg.sn));
      } else {
        assert ShrinkBuf(ParseAck(s1, seg.sn)) == s1;
      }
    }
  }

  /** `b` has the same segments as `a`, up to retransmission bookkeeping. */
  ghost predicate SameFlights(a: seq<Flight>, b: seq<Flight>) {
    |a| == |b| && forall i :: 0 <= i < |a| ==> a[i].sn == b[i].sn && a[i].frag == b[i].frag
  }

  lemma {:induction false} BumpFastackSame(buf: seq<Flight>, sn: nat, ts: U32)
    ensures SameFlights(buf, BumpFastack(buf, sn, ts))
  {
    if buf != [] && sn >= buf[0].sn {
      BumpFastackSame(buf[1..], sn, ts);
    }
  }

  /** Retransmission bookkeeping is invisible to the flow. */
  lemma {:induction false} BookkeepingKeeps(f: Flow, buf: seq<Flight>)
    requires Inv(f) && SameFlights(f.snd.buf, buf)
    ensures Inv(f.(snd := f.snd.(buf := buf)))
  {
    forall x | x in buf ensures exists y :: y in f.snd.buf && y.sn == x.sn && y.frag == x.frag {
      var i :| 0 <= i < |buf| && buf[i] == x;
      assert f.snd.buf[i] in f.snd.buf;
    }
    forall sn: nat | Held(f.snd.buf, sn) ensures Held(buf, sn) {
      var i :| 0 <= i < |f.snd.buf| && f.snd.buf[i].sn == sn;
      assert buf[i] in buf;
    }
  }

  // ------------------------------------------------------------- ikcp_flush

  lemma {:induction false} AdmitStepKeeps(s: Sending, x: Flight, wnd: nat, stream: seq<Fragment>, r: Receiving)
    requires Sender(s, wnd, stream) && NothingForgotten(s, r)
    requires s.nxt < s.una + wnd && s.queue != []
    requires x.sn == s.nxt && x.frag == s.queue[0]
    ensures var s1 := Sending(s.una, s.nxt + 1, s.queue[1..], s.buf + [x]);
            Sender(s1, wnd, stream) && NothingForgotten(s1, r)
  {
    var s1 := Sending(s.una, s.nxt + 1, s.queue[1..], s.buf + [x]);
    assert x in s1.buf;
    assert forall i :: 0 <= i < |s.buf| ==> s.buf[i] in s.buf;
    forall sn: nat | sn < s1.nxt ensures Held(s1.buf, sn) || Received(r, sn) {
      if sn < s.nxt && Held(s.buf, sn) {
        var y :| y in s.buf && y.sn == sn;
        assert y in s1.buf;
      }
    }
  }

  lemma {:induction false} AdmitKeeps(s: Sending, limit: nat, st: Stamp, wnd: nat, stream: seq<Fragment>, r: Receiving)
    requires Sender(s, wnd, stream) && NothingForgotten(s, r) && limit <= wnd
    ensures var s' := Admit(s, limit, st);
            Sender(s', wnd, stream) && NothingForgotten(s', r) && s'.una == s.una && s.nxt <= s'.nxt
    decreases |s.queue|
  {
    if s.nxt < s.una + limit && s.queue != [] {
      var x := Flight(s.nxt, s.queue[0], st.now, st.wnd, st.una, st.now, st.rto, 0, 0);
      AdmitStepKeeps(s, x, wnd, stream, r);
      AdmitKeeps(Sending(s.una, s.nxt + 1, s.queue[1..], s.buf + [x]), limit, st, wnd, stream, r);
    }
  }

  lemma {:induction false} LoadKeeps(f: Flow, limit: nat, st: Stamp)
    requires Inv(f) && limit <= f.sndWnd
    ensures Inv(f.(snd := Admit(f.snd, limit, st)))
    ensures Admit(f.snd, limit, st).una == f.snd.una
  {
    AdmitKeeps(f.snd, limit, st, f.sndWnd, Stream(f.sent, f.mss), f.rcv);
  }

  lemma {:induction false} SweepKeeps(cfg: Config, st: Stamp, buf: seq<Flight>)
    ensures SameFlights(buf, SweepAll(cfg, st, buf).buf)
    ensures forall seg :: seg in SweepAll(cfg, st, buf).segs ==>
                            && seg.cmd == CMD_PUSH && seg.una == st.una && seg.wnd == st.wnd
                            && exists x :: x in buf && x.sn == seg.sn && x.frag == seg.frag
  {
    if buf != [] {
      var front, last := buf[..|buf| - 1], buf[|buf| - 1];
      SweepKeeps(cfg, st, front);
      DecideSame(cfg, st, last);
      hide Decide;
      assert last in buf;
      assert forall x :: x in front ==> x in buf;
    }
  }

  lemma {:induction false} DecideSame(cfg: Config, st: Stamp, f: Flight)
    ensures var d := Decide(cfg, st, f);
      && d.flight.sn == f.sn && d.flight.frag == f.frag
      && (d.send ==> d.flight.una == st.una && d.flight.wnd == st.wnd && d.flight.ts == st.now)
  {
  }

  /** Everything a flush writes is either data the sender still holds, or reports
      only what the receiving half has. */
  lemma {:induction false} FlushSegmentsGood(k: Kcb, seg: Segment)
    requires seg in FlushSegments(k)
    ensures seg.una == k.rcv.nxt && seg.wnd == WndUnused(k)
    ensures seg.cmd in {CMD_PUSH, CMD_ACK, CMD_WASK, CMD_WINS}
    ensures seg.cmd == CMD_ACK ==> exists a :: a in k.ackList && a.sn == seg.sn
    ensures seg.cmd == CMD_WASK || seg.cmd == CMD_WINS ==> seg.sn == 0 || exists a :: a in k.ackList && a.sn == seg.sn
    ensures seg.cmd != CMD_PUSH ==> seg.frag == Fragment(0, [])
    ensures seg.cmd == CMD_PUSH ==> exists x :: x in Loaded(k).buf && x.sn == seg.sn && x.frag == seg.frag
  {
    if seg in AckSegments(StampOf(k), k.ackList) {
      var i :| 0 <= i < |k.ackList| && AckSegments(StampOf(k), k.ackList)[i] == seg;
      assert k.ackList[i] in k.ackList;
    } else if seg in SweepOf(k).segs {
      SweepKeeps(k.cfg, StampOf(k), Loaded(k).buf);
    } else if k.ackList != [] {
      assert k.ackList[|k.ackList| - 1] in k.ackList;
    }
  }

  ghost function Written(k: Kcb): set<Segment> {
    if k.tm.updated then set seg | seg in FlushSegments(k) else {}
  }

  lemma {:induction false} FlushKeepsSender(f: Flow, k: Kcb, cwnd: nat)
    requires Inv(f) && k.snd == f.snd && k.cfg.sndWnd == f.sndWnd
    ensures Inv(f.(snd := Flush(k, cwnd).snd, fwd := f.fwd + Written(k)))
    ensures Flush(k, cwnd).snd.una == k.snd.una
  {
    if k.tm.updated {
      LoadKeeps(f, SendLimit(k.cfg, k.tm), StampOf(k));
      var f1 := f.(snd := Loaded(k));
      SweepKeeps(k.cfg, StampOf(k), Loaded(k).buf);
      BookkeepingKeeps(f1, SweepOf(k).buf);
      forall seg | seg in Written(k) ensures GoodData(seg, Loaded(k).nxt, Stream(f.sent, f.mss)) {
        FlushSegmentsGood(k, seg);
      }
    } else {
      assert f.(snd := k.snd, fwd := f.fwd + {}) == f;
    }
  }

  lemma {:induction false} FlushKeepsReceiver(f: Flow, k: Kcb, cwnd: nat)
    requires Inv(f) && k.rcv == f.rcv && k.ackList == f.acks
    ensures Flush(k, cwnd).rcv == f.rcv
    ensures Inv(f.(acks := Flush(k, cwnd).ackList, back := f.back + Written(k)))
  {
    forall seg | seg in Written(k) ensures GoodAck(seg, f.rcv) {
      FlushSegmentsGood(k, seg);
    }
  }

  // ----------------------------------------------------- what the flow implies

  /** A full `rcv_queue` always starts with a complete message, so `ikcp_recv` can
      make room: reassembly never deadlocks on the window. */
  lemma {:induction false} FullQueueIsReadable(f: Flow)
    requires Inv(f) && |f.rcv.queue| >= f.rcvWnd
    ensures PeekSize(f.rcv.queue) >= 0 && HeadCount(f.rcv.queue) > 0
  {
    HeadIsNextMessage(f);
    CutRoundTrip(f.sent[|f.got|], f.mss);
  }

  /** When the sender has nothing left to send or to have acknowledged and the
      receiver's queue is drained, every accepted message has been delivered. */
  lemma {:induction false} DrainedMeansDelivered(f: Flow)
    requires Inv(f)
    requires f.snd.queue == [] && f.snd.buf == [] && f.rcv.queue == []
    ensures f.got == f.sent && f.rcv.buf == []
  {
    assert f.snd.nxt == |Stream(f.sent, f.mss)|;
    if f.rcv.buf != [] {
      assert f.rcv.buf[0] in f.rcv.buf;
    }
    assert Received(f.rcv, f.rcv.nxt) ==> Stored(f.rcv.buf, f.rcv.nxt);
    assert f.rcv.nxt == f.snd.nxt;
    assert f.sent[..|f.got|] == f.got;
    if |f.got| < |f.sent| {
      StreamNext(f.sent, |f.got|, f.mss);
      CutRoundTrip(f.sent[|f.got|], f.mss);
    }
  }
}
