/** Serial numbers on the wire and in the block are 32-bit words compared on a circle.
    The model's are ideal integers; here is when the two agree over a whole run. */
module KcpSerial {
  import opened Machine
  import opened KcpProtocol
  import opened KcpReliability
  import opened KcpSystem

  /** A number that a test of one direction looks at: a field of either half, an end of
      either window, or a number in a segment, a pending acknowledgement or a report. */
  ghost predicate IsSerial(f: Flow, n: nat) {
    || n == f.snd.una || n == f.snd.nxt || n == f.rcv.nxt || n == f.rcv.nxt + f.rcvWnd
    || f.snd.una <= n <= f.snd.una + f.sndWnd
    || Held(f.snd.buf, n) || Stored(f.rcv.buf, n) || Stored(f.rcv.queue, n)
    || (exists seg :: seg in f.fwd && seg.cmd == CMD_PUSH && n == seg.sn)
    || (exists seg :: seg in f.back && (n == seg.una || (seg.cmd == CMD_ACK && n == seg.sn)))
    || (exists a :: a in f.acks && n == a.sn)
  }

  lemma {:induction false} ReceivedIsNumbered(f: Flow, n: nat)
    requires Inv(f) && Received(f.rcv, n)
    ensures n < f.snd.nxt
  {
  }

  lemma {:induction false} QueuedIsNumbered(f: Flow, n: nat)
    requires Inv(f) && Stored(f.rcv.queue, n)
    ensures n < f.snd.nxt
  {
    var x :| x in f.rcv.queue && x.sn == n;
    var i :| 0 <= i < |f.rcv.queue| && f.rcv.queue[i] == x;
  }

  lemma {:induction false} UnaIsNumbered(f: Flow)
    requires Inv(f)
    ensures f.snd.una <= f.snd.nxt
  {
    if f.snd.buf != [] { assert f.snd.buf[0] in f.snd.buf; }
  }

  /** No number is more than a window past the next one to be sent. */
  lemma {:induction false} SerialIsBounded(f: Flow, n: nat)
    requires Inv(f) && IsSerial(f, n)
    ensures n <= f.snd.nxt + Max(f.sndWnd, f.rcvWnd)
  {
    UnaIsNumbered(f);
    if Received(f.rcv, n) { ReceivedIsNumbered(f, n); }
    if Stored(f.rcv.queue, n) { QueuedIsNumbered(f, n); }
    if a :| a in f.acks && n == a.sn { ReceivedIsNumbered(f, n); }
    if seg :| seg in f.back && seg.cmd == CMD_ACK && n == seg.sn { ReceivedIsNumbered(f, n); }
    if seg :| seg in f.back && n == seg.una { assert GoodAck(seg, f.rcv); }
    if seg :| seg in f.fwd && seg.cmd == CMD_PUSH && n == seg.sn {
      assert GoodData(seg, f.snd.nxt, Stream(f.sent, f.mss));
    }
  }

  ghost predicate IsFlow(s: Sys, f: Flow) {
    f == FlowOf(s.a, s.b) || f == FlowOf(s.b, s.a)
  }

  /** In every state of every run, while the next number and the wider window together
      stay below 2^31, the circular difference of any two numbers a test looks at is the
      true one, so every test decides as the model's does. */
  lemma {:induction false} SerialTestsAgree(run: seq<Sys>, i: nat, f: Flow, m: nat, n: nat)
    requires Run(run) && i < |run| && IsFlow(run[i], f) && IsSerial(f, m) && IsSerial(f, n)
    requires f.snd.nxt + Max(f.sndWnd, f.rcvWnd) < HALF_WORD
    ensures TimeDiff(Wrap(m), Wrap(n)) == m - n
  {
    RunKeeps(run, i);
    hide Run, Inv, IsSerial;
    SerialIsBounded(f, m);
    SerialIsBounded(f, n);
    CircularDifference(m, n);
  }

  /** The window counts: an old number and the end of the receive window are the first
      pair to fail. Number zero counts as inside the window exactly while that end has
      not passed 2^31, up to the next turn of the circle. */
  lemma {:induction false} FirstToFail(end: nat)
    requires 0 < end <= WORD
    ensures TimeDiff(Wrap(0), Wrap(end)) < 0 <==> end <= HALF_WORD
  {
    if end <= HALF_WORD {
      CircularDifference(0, end);
    } else {
      CircularDifference(WORD, end);
      WrapUnique(WORD, 1);
      WrapUnique(0, 0);
    }
  }
}
