/** Reassembly of edge frames from a TCP byte stream: an 18-byte header with the
    payload length in its last four bytes, then the payload. */
module TcpFrames {
  import opened Common
  import opened Machine
  import opened BigEndian

  const HEADER: nat := 18
  const MAC: nat := 6
  const LENGTH_AT: nat := 14

  type Bytes = seq<Byte>

  function PayloadSize(b: Bytes): U32
    requires |b| >= HEADER
  {
    Load32(b[LENGTH_AT..])
  }

  // ------------------------------------------------------------ the whole stream

  /** The frames at the front of a stream, what is left, and whether what is left
      starts with a header that announces too much. */
  datatype Parsed = Parsed(frames: seq<Bytes>, rest: Bytes, bad: bool)

  predicate HasFrame(b: Bytes, max: nat) {
    |b| >= HEADER && PayloadSize(b) <= max && |b| >= HEADER + PayloadSize(b)
  }

  function Parse(b: Bytes, max: nat): Parsed {
    if HasFrame(b, max) then
      var n := HEADER + PayloadSize(b);
      var p := Parse(b[n..], max);
      Parsed([b[..n]] + p.frames, p.rest, p.bad)
    else Parsed([], b, |b| >= HEADER && PayloadSize(b) > max)
  }

  function Flatten(frames: seq<Bytes>): Bytes {
    if frames == [] then [] else frames[0] + Flatten(frames[1..])
  }

  lemma {:induction false} SamePayloadSize(a: Bytes, b: Bytes)
    requires |a| >= HEADER
    ensures PayloadSize(a + b) == PayloadSize(a)
  {
  }

  lemma {:induction false} ParseFirst(b: Bytes, max: nat)
    requires HasFrame(b, max)
    ensures var n := HEADER + PayloadSize(b);
      var p := Parse(b[n..], max);
      Parse(b, max) == Parsed([b[..n]] + p.frames, p.rest, p.bad)
  {
  }

  lemma {:induction false} ParseNone(b: Bytes, max: nat)
    requires !HasFrame(b, max)
    ensures Parse(b, max).frames == [] && Parse(b, max).rest == b
  {
  }

  lemma {:induction false} SameFirst(a: Bytes, b: Bytes, max: nat)
    requires HasFrame(a, max)
    ensures |a| >= HEADER && HasFrame(a + b, max) && PayloadSize(a + b) == PayloadSize(a)
    ensures var n := HEADER + PayloadSize(a);
      n <= |a| && (a + b)[..n] == a[..n] && (a + b)[n..] == a[n..] + b
  {
    SamePayloadSize(a, b);
  }

  /** Parsing goes on where it stopped: more bytes do not change the frames found. */
  lemma {:induction false} ParseMore(a: Bytes, b: Bytes, max: nat)
    ensures var p := Parse(a, max);
      var q := Parse(p.rest + b, max);
      Parse(a + b, max) == Parsed(p.frames + q.frames, q.rest, q.bad)
    decreases |a|
  {
    hide Parse, PayloadSize, HasFrame;
    if HasFrame(a, max) {
      SameFirst(a, b, max);
      ParseFirst(a, max);
      ParseFirst(a + b, max);
      var n := HEADER + PayloadSize(a);
      ParseMore(a[n..], b, max);
      var p := Parse(a[n..], max);
      var q := Parse(p.rest + b, max);
      assert [a[..n]] + p.frames + q.frames == [a[..n]] + (p.frames + q.frames);
    } else {
      ParseNone(a, max);
      assert [] + Parse(a + b, max).frames == Parse(a + b, max).frames;
    }
  }

  /** A bad header stays bad. */
  lemma {:induction false} BadStaysBad(a: Bytes, b: Bytes, max: nat)
    requires Parse(a, max).bad
    ensures Parse(a + b, max).bad
    decreases |a|
  {
    if HasFrame(a, max) {
      SamePayloadSize(a, b);
      var n := HEADER + PayloadSize(a);
      assert (a + b)[n..] == a[n..] + b;
      BadStaysBad(a[n..], b, max);
    } else {
      SamePayloadSize(a, b);
    }
  }

  lemma {:induction false} FlattenCons(first: Bytes, frames: seq<Bytes>, rest: Bytes)
    ensures Flatten([first] + frames) + rest == first + (Flatten(frames) + rest)
  {
    assert ([first] + frames)[1..] == frames;
    assert first + Flatten(frames) + rest == first + (Flatten(frames) + rest);
  }

  /** Nothing is lost: the frames and the rest are the stream. */
  lemma {:induction false} ParseKeepsBytes(b: Bytes, max: nat)
    ensures Flatten(Parse(b, max).frames) + Parse(b, max).rest == b
    decreases |b|
  {
    if HasFrame(b, max) {
      ParseFirst(b, max);
      var n := HEADER + PayloadSize(b);
      hide Parse, PayloadSize, Flatten, HasFrame;
      ParseKeepsBytes(b[n..], max);
      FlattenCons(b[..n], Parse(b[n..], max).frames, Parse(b[n..], max).rest);
      assert b == b[..n] + b[n..];
    } else {
      ParseNone(b, max);
      assert [] + b == b;
    }
  }

  // ------------------------------------------------------------------ decoding

  datatype View = View(mac: Bytes, timestamp: nat, payload: Bytes)

  function Load64(b: Bytes): nat {
    if b == [] then 0 else Load64(b[..|b| - 1]) * 256 + b[|b| - 1]
  }

  method LoadTimestamp(b: Bytes) returns (value: nat)
    ensures value == Load64(b)
  {
    value := 0;
    for i := 0 to |b|
      invariant value == Load64(b[..i])
    {
      assert b[..i + 1][..i] == b[..i];
      value := value * 256 + b[i];
    }
    assert b[..|b|] == b;
  }

  function Decode(frame: Bytes): Option<View> {
    if |frame| < HEADER || |frame| - HEADER != PayloadSize(frame) then None
    else Some(View(frame[..MAC], Load64(frame[MAC..LENGTH_AT]), frame[HEADER..]))
  }

  lemma {:induction false} FirstDecodes(b: Bytes, max: nat)
    requires HasFrame(b, max)
    ensures var f := b[..HEADER + PayloadSize(b)];
      Decode(f).Some? && |f| <= HEADER + max && Decode(f).value.payload == f[HEADER..]
  {
    var n := HEADER + PayloadSize(b);
    assert b == b[..n] + b[n..];
    SamePayloadSize(b[..n], b[n..]);
  }

  /** Every frame found is accepted by the decoder, and no longer than allowed. */
  lemma {:induction false} FramesDecode(b: Bytes, max: nat, i: nat)
    requires i < |Parse(b, max).frames|
    ensures var f := Parse(b, max).frames[i];
      Decode(f).Some? && |f| <= HEADER + max && Decode(f).value.payload == f[HEADER..]
    decreases |b|
  {
    ParseFirst(b, max);
    var n := HEADER + PayloadSize(b);
    hide Parse;
    if i == 0 {
      FirstDecodes(b, max);
    } else {
      hide Decode, PayloadSize;
      FramesDecode(b[n..], max, i - 1);
    }
  }

  /** What is left is less than one frame of the largest size. */
  lemma {:induction false} RestIsShort(b: Bytes, max: nat)
    requires !Parse(b, max).bad
    ensures |Parse(b, max).rest| < HEADER + max
    decreases |b|
  {
    if HasFrame(b, max) { RestIsShort(b[HEADER + PayloadSize(b)..], max); }
  }

  // --------------------------------------------------------- frames as written

  /** A frame as the edge writes it: a hardware address, a timestamp, the length of the
      payload, the payload. */
  function Frame(mac: Bytes, ts: Bytes, payload: Bytes): Bytes
    requires |mac| == 6 && |ts| == 8 && |payload| < WORD
  {
    mac + ts + Store32(|payload|) + payload
  }

  datatype Written = Written(mac: Bytes, ts: Bytes, payload: Bytes)

  ghost predicate Writable(w: Written, max: nat) {
    |w.mac| == 6 && |w.ts| == 8 && |w.payload| <= max && |w.payload| < WORD
  }

  ghost predicate AllWritable(ws: seq<Written>, max: nat) {
    forall i :: 0 <= i < |ws| ==> Writable(ws[i], max)
  }

  /** The stream of some frames, and the frames themselves. */
  ghost function StreamOf(ws: seq<Written>, max: nat): Bytes
    requires AllWritable(ws, max)
  {
    if ws == [] then [] else Frame(ws[0].mac, ws[0].ts, ws[0].payload) + StreamOf(ws[1..], max)
  }

  ghost function FramesOf(ws: seq<Written>, max: nat): seq<Bytes>
    requires AllWritable(ws, max)
  {
    if ws == [] then [] else [Frame(ws[0].mac, ws[0].ts, ws[0].payload)] + FramesOf(ws[1..], max)
  }

  lemma {:induction false} FrameHeader(mac: Bytes, ts: Bytes, payload: Bytes, later: Bytes)
    requires |mac| == 6 && |ts| == 8 && |payload| < WORD
    ensures var f := Frame(mac, ts, payload);
      && |f| == 18 + |payload| && PayloadSize(f + later) == |payload|
      && f[..6] == mac && f[6..14] == ts && f[18..] == payload
  {
    var f := Frame(mac, ts, payload);
    LoadStore32(|payload|);
    assert (f + later)[14..18] == Store32(|payload|);
    assert Load32((f + later)[14..]) == Load32((f + later)[14..18]);
  }

  /** The decoder gives back what was written. */
  lemma {:induction false} DecodeFrame(mac: Bytes, ts: Bytes, payload: Bytes)
    requires |mac| == 6 && |ts| == 8 && |payload| < WORD
    ensures Decode(Frame(mac, ts, payload)) == Some(View(mac, Load64(ts), payload))
  {
    FrameHeader(mac, ts, payload, []);
    var f := Frame(mac, ts, payload);
    assert f + [] == f;
    hide PayloadSize, Load64, Frame;
  }

  /** A stream of frames as they are written, cut off inside the header of the next one,
      is parsed into exactly those frames, and the piece is kept. */
  lemma {:induction false} ParseFrames(ws: seq<Written>, piece: Bytes, max: nat)
    requires AllWritable(ws, max) && |piece| < 18
    ensures Parse(StreamOf(ws, max) + piece, max) == Parsed(FramesOf(ws, max), piece, false)
  {
    if ws == [] {
      assert [] + piece == piece;
    } else {
      var w, later := ws[0], StreamOf(ws[1..], max) + piece;
      var f := Frame(w.mac, w.ts, w.payload);
      ParseFrames(ws[1..], piece, max);
      FrameHeader(w.mac, w.ts, w.payload, later);
      assert StreamOf(ws, max) + piece == f + later;
      assert (f + later)[..|f|] == f && (f + later)[|f|..] == later;
      hide PayloadSize, Frame;
    }
  }

  /** A header that announces more than is allowed stops the parser there. */
  lemma {:induction false} ParseStops(ws: seq<Written>, mac: Bytes, ts: Bytes, n: U32, later: Bytes, max: nat)
    requires AllWritable(ws, max) && |mac| == 6 && |ts| == 8 && n > max
    ensures var rest := mac + ts + Store32(n) + later;
      Parse(StreamOf(ws, max) + rest, max) == Parsed(FramesOf(ws, max), rest, true)
  {
    var rest := mac + ts + Store32(n) + later;
    if ws == [] {
      LoadStore32(n);
      assert rest[14..18] == Store32(n) && [] + rest == rest;
      assert Load32(rest[14..]) == Load32(rest[14..18]);
    } else {
      var w, more := ws[0], StreamOf(ws[1..], max) + rest;
      var f := Frame(w.mac, w.ts, w.payload);
      ParseStops(ws[1..], mac, ts, n, later, max);
      FrameHeader(w.mac, w.ts, w.payload, more);
      assert StreamOf(ws, max) + rest == f + more;
      assert (f + more)[..|f|] == f && (f + more)[|f|..] == more;
      hide PayloadSize, Frame, Store32;
    }
  }

  /** A timestamp is read most significant byte first. */
  lemma {:induction false} TimestampValue(hi: U32, lo: U32)
    ensures Load64(Store32(hi) + Store32(lo)) == hi * WORD + lo
  {
    var b := Store32(hi) + Store32(lo);
    assert b[..7][..6] == b[..6] && b[..6][..5] == b[..5] && b[..5][..4] == b[..4] == Store32(hi);
    assert b[..4][..3] == b[..3] && b[..3][..2] == b[..2] && b[..2][..1] == b[..1] && b[..1][..0] == [];
    BigEndianValue(hi);
    BigEndianValue(lo);
    hide Store32;
    assert Load64([]) == 0;
    assert Load64(b[..1]) == b[0];
    assert Load64(b[..2]) == Load64(b[..1]) * 256 + b[1];
    assert Load64(b[..3]) == Load64(b[..2]) * 256 + b[2];
    assert Load64(b[..4]) == Load64(b[..3]) * 256 + b[3] == hi;
    assert Load64(b[..5]) == hi * 256 + b[4];
    assert Load64(b[..6]) == Load64(b[..5]) * 256 + b[5];
    assert Load64(b[..7]) == Load64(b[..6]) * 256 + b[6];
    assert Load64(b) == Load64(b[..7]) * 256 + b[7];
  }

  // ------------------------------------------------------------- a connection

  /** A chunk that does not fit into a buffer of one largest frame closes the
      connection, and so does a header that announces too much. */
  predicate Closes(buffer: Bytes, data: Bytes, max: nat) {
    |buffer| + |data| > HEADER + max || Parse(buffer + data, max).bad
  }

  class Connection {
    const max: nat
    var buffer: Bytes
    var closed: bool
    ghost var received: Bytes
    ghost var emitted: seq<Bytes>

    /** What has been emitted is the parse of all that was received. */
    ghost predicate Valid()
      reads this
    {
      !closed ==> Parse(received, max) == Parsed(emitted, buffer, false) && |buffer| < HEADER + max
    }

    constructor (max: nat)
      ensures Valid() && !closed && received == [] && emitted == [] && buffer == [] && this.max == max
    {
      this.max, buffer, closed := max, [], false;
      received, emitted := [], [];
    }

    /** The extraction loop: frames are cut off the front of the buffer. */
    method Extract(b: Bytes) returns (frames: seq<Bytes>, rest: Bytes, bad: bool)
      ensures Parse(b, max) == Parsed(frames, rest, bad)
    {
      frames, rest, bad := [], b, false;
      while |rest| >= HEADER
        invariant !bad && Parse(b, max) == Parsed(frames + Parse(rest, max).frames, Parse(rest, max).rest, Parse(rest, max).bad)
        decreases |rest|
      {
        var size := PayloadSize(rest);
        if size > max {
          assert frames + [] == frames;
          return frames, rest, true;
        }
        var n := HEADER + size;
        if |rest| < n { break; }
        assert frames + [rest[..n]] + Parse(rest[n..], max).frames == frames + ([rest[..n]] + Parse(rest[n..], max).frames);
        frames := frames + [rest[..n]];
        rest := rest[n..];
      }
      assert frames + [] == frames;
    }

    /** One chunk. It closes the connection exactly when `Closes` says so, and then
        nothing of it is delivered; otherwise its frames follow those before. */
    method HandleData(data: Bytes) returns (frames: seq<Bytes>)
      requires Valid() && !closed
      modifies this
      ensures Valid() && closed == Closes(old(buffer), data, max)
      ensures closed ==> frames == [] && emitted == old(emitted)
      ensures !closed ==> emitted == old(emitted) + frames && received == old(received) + data
      ensures !closed ==> Parse(received, max) == Parsed(emitted, buffer, false)
    {
      if |data| == 0 {
        assert buffer + data == buffer && received + data == received && emitted + [] == emitted;
        RestHasNoFrame(received, max);
        return [];
      }
      if |buffer| > HEADER + max || |data| > HEADER + max || |buffer| > HEADER + max - |data| {
        closed := true;
        return [];
      }
      var rest, bad;
      frames, rest, bad := Extract(buffer + data);
      ParseMore(received, data, max);
      if bad {
        closed := true;
        return [];
      }
      RestIsShort(buffer + data, max);
      hide Parse;
      buffer := rest;
      received, emitted := received + data, emitted + frames;
    }
  }

  /** What is left holds no frame. */
  lemma {:induction false} RestHasNoFrame(b: Bytes, max: nat)
    requires !Parse(b, max).bad
    ensures Parse(Parse(b, max).rest, max) == Parsed([], Parse(b, max).rest, false)
    decreases |b|
  {
    if HasFrame(b, max) { RestHasNoFrame(b[HEADER + PayloadSize(b)..], max); }
  }

  // ----------------------------------------------------------------- chunking

  /** What a connection makes of a run of chunks, the newest last. */
  datatype Fed = Fed(frames: seq<Bytes>, buffer: Bytes, closed: bool)

  function Feed(chunks: seq<Bytes>, max: nat): Fed {
    if chunks == [] then Fed([], [], false)
    else
      var f, data := Feed(chunks[..|chunks| - 1], max), chunks[|chunks| - 1];
      if f.closed then f
      else if Closes(f.buffer, data, max) then f.(closed := true)
      else var p := Parse(f.buffer + data, max); Fed(f.frames + p.frames, p.rest, false)
  }

  function Join(chunks: seq<Bytes>): Bytes {
    if chunks == [] then [] else Join(chunks[..|chunks| - 1]) + chunks[|chunks| - 1]
  }

  lemma {:induction false} FeedIsParse(chunks: seq<Bytes>, max: nat)
    requires !Feed(chunks, max).closed
    ensures Parse(Join(chunks), max) == Parsed(Feed(chunks, max).frames, Feed(chunks, max).buffer, false)
  {
    if chunks != [] {
      var front, data := chunks[..|chunks| - 1], chunks[|chunks| - 1];
      FeedIsParse(front, max);
      ParseMore(Join(front), data, max);
      hide Parse;
    }
  }

  /** However a stream is cut into chunks, a connection that stays open delivers the
      same frames and keeps the same rest. */
  lemma {:induction false} ChunkingDoesNotMatter(a: seq<Bytes>, b: seq<Bytes>, max: nat)
    requires Join(a) == Join(b) && !Feed(a, max).closed && !Feed(b, max).closed
    ensures Feed(a, max) == Feed(b, max)
  {
    FeedIsParse(a, max);
    FeedIsParse(b, max);
  }

  // ---------------------------------------------------------- staying open

  /** Every chunk fits behind what the chunks before it left in the buffer. */
  ghost predicate Fits(chunks: seq<Bytes>, max: nat) {
    forall i :: 0 <= i < |chunks| ==> |Parse(Join(chunks[..i]), max).rest| + |chunks[i]| <= HEADER + max
  }

  lemma {:induction false} FitsFront(chunks: seq<Bytes>, max: nat)
    requires chunks != []
    ensures var front, data := chunks[..|chunks| - 1], chunks[|chunks| - 1];
      Fits(chunks, max) <==> Fits(front, max) && |Parse(Join(front), max).rest| + |data| <= HEADER + max
  {
    var front := chunks[..|chunks| - 1];
    hide Parse, Join;
    assert forall i :: 0 <= i < |front| ==> front[..i] == chunks[..i] && front[i] == chunks[i];
  }

  /** A connection stays open exactly when every chunk fits and no header of the whole
      stream announces too much. */
  lemma {:induction false} StaysOpenExactly(chunks: seq<Bytes>, max: nat)
    ensures !Feed(chunks, max).closed <==> !Parse(Join(chunks), max).bad && Fits(chunks, max)
  {
    if chunks != [] {
      var front, data := chunks[..|chunks| - 1], chunks[|chunks| - 1];
      StaysOpenExactly(front, max);
      FitsFront(chunks, max);
      ParseMore(Join(front), data, max);
      if Feed(front, max).closed {
        if Parse(Join(front), max).bad { BadStaysBad(Join(front), data, max); }
      } else {
        FeedIsParse(front, max);
      }
      hide Parse, Fits;
    }
  }

  lemma {:induction false} JoinSplits(chunks: seq<Bytes>, i: nat) returns (later: Bytes)
    requires i <= |chunks|
    ensures Join(chunks) == Join(chunks[..i]) + later
  {
    if i == |chunks| {
      assert chunks[..i] == chunks;
      later := [];
    } else {
      var front := chunks[..|chunks| - 1];
      later := JoinSplits(front, i);
      assert front[..i] == chunks[..i];
      assert Join(chunks[..i]) + later + chunks[|chunks| - 1] == Join(chunks[..i]) + (later + chunks[|chunks| - 1]);
      later := later + chunks[|chunks| - 1];
    }
  }

  lemma {:induction false} RestIsPart(b: Bytes, max: nat)
    ensures |Parse(b, max).rest| <= |b|
  {
    ParseKeepsBytes(b, max);
  }

  /** Delivered byte by byte, a stream closes the connection exactly on a bad header. */
  lemma {:induction false} ByteAtATime(chunks: seq<Bytes>, max: nat)
    requires forall i :: 0 <= i < |chunks| ==> |chunks[i]| <= 1
    ensures Feed(chunks, max).closed <==> Parse(Join(chunks), max).bad
  {
    StaysOpenExactly(chunks, max);
    if !Parse(Join(chunks), max).bad {
      forall i | 0 <= i < |chunks| ensures |Parse(Join(chunks[..i]), max).rest| + |chunks[i]| <= HEADER + max {
        var later := JoinSplits(chunks, i);
        if Parse(Join(chunks[..i]), max).bad { BadStaysBad(Join(chunks[..i]), later, max); }
        RestIsShort(Join(chunks[..i]), max);
      }
    }
  }

  /** A stream no longer than one largest frame may be cut in any way. */
  lemma {:induction false} ShortStreamsFit(chunks: seq<Bytes>, max: nat)
    requires |Join(chunks)| <= HEADER + max
    ensures Feed(chunks, max).closed <==> Parse(Join(chunks), max).bad
  {
    StaysOpenExactly(chunks, max);
    hide Parse, Feed;
    forall i | 0 <= i < |chunks| ensures |Parse(Join(chunks[..i]), max).rest| + |chunks[i]| <= HEADER + max {
      var later := JoinSplits(chunks, i + 1);
      assert chunks[..i + 1][..i] == chunks[..i];
      RestIsPart(Join(chunks[..i]), max);
    }
  }

  function Singles(b: Bytes): (r: seq<Bytes>)
    ensures |r| == |b| && (forall i :: 0 <= i < |r| ==> |r[i]| == 1) && Join(r) == b
  {
    if b == [] then [] else
      var r := Singles(b[..|b| - 1]) + [[b[|b| - 1]]];
      assert r[..|r| - 1] == Singles(b[..|b| - 1]);
      r
  }

  ghost predicate OpenInOneCutOnly(stream: Bytes, a: seq<Bytes>, b: seq<Bytes>, max: nat) {
    Join(a) == stream && Join(b) == stream && Feed(a, max).closed && !Feed(b, max).closed
  }

  lemma {:induction false} AllAtOnce(stream: Bytes, max: nat)
    requires |stream| > HEADER + max
    ensures Join([stream]) == stream && Feed([stream], max).closed
  {
    assert [stream][..0] == [] && [] + stream == stream;
    hide Parse;
  }

  /** Whether a stream closes the connection depends on how it is cut exactly when it
      has no bad header and is longer than one largest frame. */
  lemma {:induction false} ClosingDependsOnChunking(stream: Bytes, max: nat)
    ensures (exists a, b :: OpenInOneCutOnly(stream, a, b, max))
      <==> !Parse(stream, max).bad && |stream| > HEADER + max
  {
    hide Parse, Feed, Fits, Join;
    if a, b :| OpenInOneCutOnly(stream, a, b, max) {
      StaysOpenExactly(b, max);
      if |stream| <= HEADER + max { ShortStreamsFit(a, max); }
    }
    if !Parse(stream, max).bad && |stream| > HEADER + max {
      AllAtOnce(stream, max);
      ByteAtATime(Singles(stream), max);
      assert OpenInOneCutOnly(stream, [stream], Singles(stream), max);
    }
  }

  const EMPTY_FRAME: Bytes := [0, 0, 0, 0, 0, 0, 0, 0, 0, 0, 0, 0, 0, 0, 0, 0, 0, 0]

  function EmptyFrames(n: nat): (b: Bytes)
    ensures |b| == HEADER * n
  {
    if n == 0 then [] else EMPTY_FRAME + EmptyFrames(n - 1)
  }

  lemma {:induction false} EmptyFramesAreGood(n: nat, max: nat)
    ensures !Parse(EmptyFrames(n), max).bad
  {
    if n > 0 {
      EmptyFramesAreGood(n - 1, max);
      SamePayloadSize(EMPTY_FRAME, EmptyFrames(n - 1));
      assert PayloadSize(EMPTY_FRAME) == 0;
      assert EmptyFrames(n)[HEADER..] == EmptyFrames(n - 1);
      hide PayloadSize;
    }
  }

  /** There are such streams for every limit: enough empty frames. */
  lemma {:induction false} EveryLimitDependsOnChunking(max: nat) returns (a: seq<Bytes>, b: seq<Bytes>)
    ensures Join(a) == Join(b) && Feed(a, max).closed && !Feed(b, max).closed
  {
    var stream := EmptyFrames(max + 2);
    EmptyFramesAreGood(max + 2, max);
    ClosingDependsOnChunking(stream, max);
    hide Feed, Parse;
    a, b :| OpenInOneCutOnly(stream, a, b, max);
  }
}
