/** What the callers of the lock-free queue are told: over any interleaving a call
    reports success exactly when it took effect, and alone on a quiet queue it succeeds
    exactly when it can. */
module MpmcCalls {
  import opened Common
  import opened MpmcQueue

  // --------------------------------------------------------------- push

  ghost predicate CallsPush<T>(s: State<T>, m: Move<T>, t: nat, v: T) {
    m == Move(t, CallPush(v)) && t in s.pcs && s.pcs[t] == Idle
  }

  /** Thread `t` is between a call and its return. */
  ghost predicate Busy<T>(s: State<T>, t: nat) {
    t in s.pcs && s.pcs[t] != Idle && !s.pcs[t].PushReturned? && !s.pcs[t].PopReturned?
  }

  /** Move `m` is one of thread `t` and appends `v` to the tickets. */
  ghost predicate Appends<T>(s: State<T>, m: Move<T>, s': State<T>, t: nat, v: T) {
    m.t == t && s'.pushed == s.pushed + [v]
  }

  /** How many moves of `t` after move `i` and before state `x` append `v`. */
  ghost function Appended<T>(run: seq<State<T>>, moves: seq<Move<T>>, t: nat, v: T, i: nat, x: nat): nat
    requires x < |run| == |moves| + 1
    decreases x
  {
    if x <= i + 1 then 0
    else Appended(run, moves, t, v, i, x - 1) + if Appends(run[x - 1], moves[x - 1], run[x], t, v) then 1 else 0
  }

  /** Where a push of `v` can be, with what it has appended so far. */
  ghost predicate PushAt<T>(pc: Pc<T>, v: T, n: nat) {
    match pc
    case PushLoad(u) => u == v && n == 0
    case PushRead(u, _) => u == v && n == 0
    case PushCas(u, _) => u == v && n == 0
    case PushStore(u, _) => u == v && n == 1
    case PushPublish(_) => n == 1
    case PushReturned(ok) => n == if ok then 1 else 0
    case _ => false
  }

  lemma {:induction false} PushStep<T>(s: State<T>, m: Move<T>, s': State<T>, t: nat, v: T, n: nat)
    requires Moves(s, m, s') && Busy(s, t) && PushAt(s.pcs[t], v, n)
    ensures t in s'.pcs && PushAt(s'.pcs[t], v, n + if Appends(s, m, s', t, v) then 1 else 0)
  {
    hide Slot;
  }

  lemma {:induction false} PushSoFar<T>(run: seq<State<T>>, moves: seq<Move<T>>, capacity: nat, t: nat, v: T, i: nat,
                                        x: nat)
    requires Run(run, moves, capacity) && |run| == |moves| + 1 && i < x < |run| && CallsPush(run[i], moves[i], t, v)
    requires forall y :: i < y < x ==> Busy(run[y], t)
    ensures t in run[x].pcs && PushAt(run[x].pcs[t], v, Appended(run, moves, t, v, i, x))
    decreases x
  {
    hide Run, Moves, PushAt, Appends, Busy, CallsPush;
    RunMoves(run, moves, capacity, x - 1);
    if x > i + 1 {
      PushSoFar(run, moves, capacity, t, v, i, x - 1);
      PushStep(run[x - 1], moves[x - 1], run[x], t, v, Appended(run, moves, t, v, i, x - 1));
    } else {
      PushStarts(run[i], moves[i], run[x], t, v);
    }
  }

  lemma {:induction false} PushStarts<T>(s: State<T>, m: Move<T>, s': State<T>, t: nat, v: T)
    requires Moves(s, m, s') && CallsPush(s, m, t, v)
    ensures t in s'.pcs && PushAt(s'.pcs[t], v, 0)
  {
  }

  /** A push that returns reports success exactly when one move of its thread, and no
      more than one, has appended the value since the call. */
  lemma {:induction false} PushTellsTheTruth<T>(run: seq<State<T>>, moves: seq<Move<T>>, capacity: nat, t: nat, v: T,
                                                i: nat, j: nat)
    requires Run(run, moves, capacity) && i < j < |run| && CallsPush(run[i], moves[i], t, v)
    requires t in run[j].pcs && !Busy(run[j], t) && forall y :: i < y < j ==> Busy(run[y], t)
    ensures run[j].pcs[t].PushReturned?
    ensures Appended(run, moves, t, v, i, j) == if run[j].pcs[t].ok then 1 else 0
  {
    PushSoFar(run, moves, capacity, t, v, i, j);
    hide Run;
  }

  // ---------------------------------------------------------------- pop

  ghost predicate CallsPop<T>(s: State<T>, m: Move<T>, t: nat) {
    m.t == t && m.c.CallPop? && t in s.pcs && s.pcs[t] == Idle
  }

  /** Move `m` is one of thread `t` and takes the oldest value off the queue. */
  ghost predicate Dequeues<T>(s: State<T>, m: Move<T>, s': State<T>, t: nat) {
    m.t == t && s'.dequeuePos == s.dequeuePos + 1
  }

  ghost function Dequeued<T>(run: seq<State<T>>, moves: seq<Move<T>>, t: nat, i: nat, x: nat): nat
    requires x < |run| == |moves| + 1
    decreases x
  {
    if x <= i + 1 then 0
    else Dequeued(run, moves, t, i, x - 1) + if Dequeues(run[x - 1], moves[x - 1], run[x], t) then 1 else 0
  }

  /** State `y` is one whose oldest value thread `t` took with ticket `p`. */
  ghost predicate TookAt<T>(run: seq<State<T>>, moves: seq<Move<T>>, t: nat, i: nat, x: nat, y: nat, p: nat) {
    && i < y < x < |run| == |moves| + 1 && Dequeues(run[y], moves[y], run[y + 1], t)
    && p == run[y].dequeuePos < |run[y].pushed|
  }

  /** Where a pop can be, with what it has taken so far: nothing, or ticket `p`. */
  ghost predicate PopAt<T>(pc: Pc<T>, n: nat, p: nat, oldest: Option<T>) {
    match pc
    case PopLoad => n == 0
    case PopRead(_) => n == 0
    case PopCas(_) => n == 0
    case PopTake(q) => n == 1 && q == p && oldest.Some?
    case PopRelease(q, v) => n == 1 && q == p && oldest == Some(v)
    case PopReturned(got) => if n == 0 then got == None else n == 1 && oldest.Some? && got == oldest
    case _ => false
  }

  lemma {:induction false} OtherMoves<T>(s: State<T>, m: Move<T>, s': State<T>, t: nat)
    requires Moves(s, m, s') && t in s.pcs && m.t != t
    ensures t in s'.pcs && s'.pcs[t] == s.pcs[t]
  {
    hide Slot;
  }

  /** The move that takes the object out finds the value of the ticket. */
  lemma {:induction false} TakeMoves<T>(s: State<T>, m: Move<T>, s': State<T>, p: nat)
    requires Inv(s) && Moves(s, m, s') && s.pcs[m.t] == PopTake(p)
    ensures p < |s.pushed| && s'.pcs[m.t] == PopRelease(p, s.pushed[p]) && s'.dequeuePos == s.dequeuePos
  {
    hide Slot, Lap, Exclusive, Delivered;
    assert PcOk(s, s.pcs[m.t]);
  }

  /** The compare-exchange that wins takes the oldest ticket. */
  lemma {:induction false} ClaimMoves<T>(s: State<T>, m: Move<T>, s': State<T>)
    requires Inv(s) && Moves(s, m, s') && s'.dequeuePos == s.dequeuePos + 1
    ensures s.pcs[m.t].PopCas? && s.dequeuePos < |s.pushed| && s'.pcs[m.t] == PopTake(s.dequeuePos)
  {
    assert PcOk(s, s.pcs[m.t]);
    if s.pcs[m.t].PopCas? && s.pcs[m.t].pos == s.dequeuePos { HeadTicket(s); }
    hide Slot, Lap, Exclusive, Delivered;
  }

  lemma {:induction false} PopMoves<T>(s: State<T>, m: Move<T>, s': State<T>, n: nat, p: nat, oldest: Option<T>)
    requires Moves(s, m, s') && Busy(s, m.t) && PopAt(s.pcs[m.t], n, p, oldest) && !s.pcs[m.t].PopTake?
    requires s'.dequeuePos == s.dequeuePos
    ensures PopAt(s'.pcs[m.t], n, p, oldest)
  {
    hide Slot;
  }

  lemma {:induction false} PopStep<T>(s: State<T>, m: Move<T>, s': State<T>, t: nat, n: nat, p: nat, oldest: Option<T>)
    requires Inv(s) && Moves(s, m, s') && Busy(s, t) && PopAt(s.pcs[t], n, p, oldest)
    requires n == 1 ==> oldest.Some? && p < |s.pushed| && oldest.value == s.pushed[p]
    ensures t in s'.pcs
    ensures !Dequeues(s, m, s', t) ==> PopAt(s'.pcs[t], n, p, oldest)
    ensures Dequeues(s, m, s', t) ==> n == 0 && s.dequeuePos < |s.pushed|
    ensures Dequeues(s, m, s', t) ==> PopAt(s'.pcs[t], 1, s.dequeuePos, Some(s.pushed[s.dequeuePos]))
  {
    DequeueMoves(s, m, s');
    hide Inv, Moves;
    if m.t != t {
      OtherMoves(s, m, s', t);
    } else if s'.dequeuePos == s.dequeuePos + 1 {
      ClaimMoves(s, m, s');
    } else if s.pcs[t].PopTake? {
      TakeMoves(s, m, s', s.pcs[t].pos);
    } else {
      PopMoves(s, m, s', n, p, oldest);
    }
  }

  lemma {:induction false} DequeueMoves<T>(s: State<T>, m: Move<T>, s': State<T>)
    requires Moves(s, m, s')
    ensures m.t in s.pcs && m.t in s'.pcs
    ensures s'.dequeuePos == s.dequeuePos || s'.dequeuePos == s.dequeuePos + 1
  {
    hide Slot;
  }

  /** What thread `t` took at state `y`. */
  ghost predicate Oldest<T>(run: seq<State<T>>, moves: seq<Move<T>>, t: nat, i: nat, x: nat, n: nat, p: nat,
                            oldest: Option<T>) {
    n == 1 ==> oldest.Some? && exists y: nat ::
      TookAt(run, moves, t, i, x, y, p) && oldest.value == run[y].pushed[run[y].dequeuePos]
  }

  lemma {:induction false} OldestStays<T>(run: seq<State<T>>, moves: seq<Move<T>>, capacity: nat, t: nat, i: nat,
                                          x: nat,
                                          n: nat, p: nat, oldest: Option<T>)
    requires Run(run, moves, capacity) && x + 1 < |run| && Oldest(run, moves, t, i, x, n, p, oldest)
    ensures Oldest(run, moves, t, i, x + 1, n, p, oldest)
    ensures n == 1 ==> oldest.Some? && p < |run[x].pushed| && oldest.value == run[x].pushed[p]
  {
    if n == 1 {
      var y: nat :| TookAt(run, moves, t, i, x, y, p) && oldest.value == run[y].pushed[run[y].dequeuePos];
      HistoryGrows(run, moves, capacity, y, x);
      hide Run;
      assert TookAt(run, moves, t, i, x + 1, y, p);
    }
  }

  lemma {:induction false} OldestNow<T>(run: seq<State<T>>, moves: seq<Move<T>>, t: nat, i: nat, x: nat)
    requires i < x && x + 1 < |run| == |moves| + 1 && Dequeues(run[x], moves[x], run[x + 1], t)
    requires run[x].dequeuePos < |run[x].pushed|
    ensures Oldest(run, moves, t, i, x + 1, 1, run[x].dequeuePos, Some(run[x].pushed[run[x].dequeuePos]))
  {
    assert TookAt(run, moves, t, i, x + 1, x, run[x].dequeuePos);
  }

  lemma {:induction false} PopStarts<T>(s: State<T>, m: Move<T>, s': State<T>, t: nat)
    requires Moves(s, m, s') && CallsPop(s, m, t)
    ensures t in s'.pcs && PopAt(s'.pcs[t], 0, 0, None)
  {
  }

  lemma {:induction false} PopSoFar<T>(run: seq<State<T>>, moves: seq<Move<T>>, capacity: nat, t: nat, i: nat, x: nat)
    returns (p: nat, oldest: Option<T>)
    requires Run(run, moves, capacity) && |run| == |moves| + 1 && i < x < |run| && CallsPop(run[i], moves[i], t)
    requires forall y :: i < y < x ==> Busy(run[y], t)
    ensures var n := Dequeued(run, moves, t, i, x);
      t in run[x].pcs && PopAt(run[x].pcs[t], n, p, oldest) && Oldest(run, moves, t, i, x, n, p, oldest)
    decreases x
  {
    hide Run, Inv, Moves, PopAt, Dequeues, Busy, CallsPop;
    RunMoves(run, moves, capacity, x - 1);
    if x > i + 1 {
      p, oldest := PopSoFar(run, moves, capacity, t, i, x - 1);
      RunKeeps(run, moves, capacity, x - 1);
      var n := Dequeued(run, moves, t, i, x - 1);
      OldestStays(run, moves, capacity, t, i, x - 1, n, p, oldest);
      hide Oldest;
      PopStep(run[x - 1], moves[x - 1], run[x], t, n, p, oldest);
      if Dequeues(run[x - 1], moves[x - 1], run[x], t) {
        OldestNow(run, moves, t, i, x - 1);
        p, oldest := run[x - 1].dequeuePos, Some(run[x - 1].pushed[run[x - 1].dequeuePos]);
      }
    } else {
      p, oldest := 0, None;
      PopStarts(run[i], moves[i], run[x], t);
    }
  }

  /** A pop that returns reports nothing exactly when its thread took nothing since the
      call; otherwise it took once, and returns the value that was the oldest then. */
  lemma {:induction false} PopTellsTheTruth<T>(run: seq<State<T>>, moves: seq<Move<T>>, capacity: nat, t: nat, i: nat,
                                               j: nat)
    requires Run(run, moves, capacity) && i < j < |run| && CallsPop(run[i], moves[i], t)
    requires t in run[j].pcs && !Busy(run[j], t) && forall y :: i < y < j ==> Busy(run[y], t)
    ensures run[j].pcs[t].PopReturned?
    ensures Dequeued(run, moves, t, i, j) == if run[j].pcs[t].got.Some? then 1 else 0
    ensures run[j].pcs[t].got.Some? ==> exists y: nat, p: nat ::
      TookAt(run, moves, t, i, j, y, p) && run[j].pcs[t].got.value == run[y].pushed[run[y].dequeuePos]
  {
    RunMoves(run, moves, capacity, j - 1);
    assert |run| == |moves| + 1;
    var p, oldest := PopSoFar(run, moves, capacity, t, i, j);
    hide Run;
  }

  // ------------------------------------------------------------ undisturbed

  ghost predicate Quiet<T>(s: State<T>) {
    forall u :: u in s.pcs ==> s.pcs[u] == Idle
  }

  /** A run of thread `t` with nobody else moving; the first move is a call. */
  ghost predicate Alone<T>(trace: seq<State<T>>, t: nat, call: Choice<T>) {
    && |trace| > 0
    && forall i, j :: 0 <= i < j < |trace| && j == i + 1 ==>
         Moves(trace[i], Move(t, if i == 0 then call else Advance), trace[j])
  }

  lemma {:induction false} AloneOn<T>(trace: seq<State<T>>, t: nat, call: Choice<T>, s': State<T>)
    requires Alone(trace, t, call)
    requires Moves(trace[|trace| - 1], Move(t, if |trace| == 1 then call else Advance), s')
    ensures Alone(trace + [s'], t, call)
  {
    hide Moves;
  }

  lemma {:induction false} QuietTail<T>(s: State<T>)
    requires Inv(s) && Quiet(s)
    ensures |Contents(s)| < |s.cells| ==> At(s, s.enqueuePos) == Cell(s.enqueuePos, None)
    ensures |Contents(s)| >= |s.cells| ==> At(s, s.enqueuePos).sequence < s.enqueuePos
  {
    hide Slot, Exclusive, Delivered;
    if |Contents(s)| < |s.cells| {
      assert Free(s, s.enqueuePos);
    } else {
      AtNextLap(s, s.dequeuePos);
      assert Queued(s, s.dequeuePos);
    }
  }

  lemma {:induction false} QuietHead<T>(s: State<T>)
    requires Inv(s) && Quiet(s)
    ensures Contents(s) != [] ==> At(s, s.dequeuePos) == Cell(s.dequeuePos + 1, Some(Contents(s)[0]))
    ensures Contents(s) == [] ==> At(s, s.dequeuePos).sequence < s.dequeuePos + 1
  {
    hide Slot, Exclusive, Delivered;
    if Contents(s) != [] {
      assert Queued(s, s.dequeuePos);
    } else {
      assert Free(s, s.dequeuePos);
    }
  }

  /** The first three moves of a push: the call, the position, the sequence. */
  lemma {:induction false} PushLooks<T>(s: State<T>, t: nat, v: T) returns (trace: seq<State<T>>)
    requires t in s.pcs && s.pcs[t] == Idle && |s.cells| > 0
    requires At(s, s.enqueuePos).sequence <= s.enqueuePos
    ensures |trace| == 4 && trace[0] == s && Alone(trace, t, CallPush(v))
    ensures trace[3] == Go(s, t, if At(s, s.enqueuePos).sequence == s.enqueuePos
                                 then PushCas(v, s.enqueuePos) else PushReturned(false))
  {
    hide Slot;
    var s1, s2 := Go(s, t, PushLoad(v)), Go(s, t, PushRead(v, s.enqueuePos));
    assert s1.pcs[t := PushRead(v, s.enqueuePos)] == s2.pcs;
    var s3 := Step(s2, t, Advance);
    assert s3.pcs == s.pcs[t := s3.pcs[t]];
    trace := [s];
    AloneOn(trace, t, CallPush(v), s1);
    AloneOn([s, s1], t, CallPush(v), s2);
    AloneOn([s, s1, s2], t, CallPush(v), s3);
    assert [s] + [s1] == [s, s1] && [s, s1] + [s2] == [s, s1, s2] && [s, s1, s2] + [s3] == [s, s1, s2, s3];
    trace := [s, s1, s2, s3];
  }

  /** Three more moves. */
  lemma {:induction false} ThreeMore<T>(trace: seq<State<T>>, t: nat, call: Choice<T>, s4: State<T>, s5: State<T>,
                                        s6: State<T>)
    requires |trace| == 4 && Alone(trace, t, call) && Moves(trace[3], Move(t, Advance), s4)
    requires Moves(s4, Move(t, Advance), s5) && Moves(s5, Move(t, Advance), s6)
    ensures Alone(trace + [s4] + [s5] + [s6], t, call)
  {
    hide Alone, Moves;
    AloneOn(trace, t, call, s4);
    AloneOn(trace + [s4], t, call, s5);
    AloneOn(trace + [s4] + [s5], t, call, s6);
  }

  /** Alone on a quiet queue a push returns whether there was room, within six moves; if
      there was, the value is now the newest. */
  lemma {:induction false} PushAlone<T>(s: State<T>, t: nat, v: T) returns (trace: seq<State<T>>)
    requires Inv(s) && Quiet(s) && t in s.pcs
    ensures 0 < |trace| <= 7 && trace[0] == s && Alone(trace, t, CallPush(v)) && Inv(trace[|trace| - 1])
    ensures var s' := trace[|trace| - 1];
      && s'.pcs == s.pcs[t := PushReturned(|Contents(s)| < |s.cells|)]
      && Contents(s') == if |Contents(s)| < |s.cells| then Contents(s) + [v] else Contents(s)
  {
    QuietTail(s);
    trace := PushLooks(s, t, v);
    hide Slot, Lap, Exclusive, Delivered, Alone;
    if |Contents(s)| < |s.cells| {
      var s4, s5, s6 := PushWins(s, t, v);
      ThreeMore(trace, t, CallPush(v), s4, s5, s6);
      trace := trace + [s4] + [s5] + [s6];
    }
    AloneKeeps(trace, t, CallPush(v));
  }

  lemma {:induction false} PushWins<T>(s: State<T>, t: nat, v: T) returns (s4: State<T>, s5: State<T>, s6: State<T>)
    requires t in s.pcs && |s.cells| > 0 && At(s, s.enqueuePos) == Cell(s.enqueuePos, None)
    ensures Moves(Go(s, t, PushCas(v, s.enqueuePos)), Move(t, Advance), s4)
    ensures Moves(s4, Move(t, Advance), s5) && Moves(s5, Move(t, Advance), s6)
    ensures s6.pcs == s.pcs[t := PushReturned(true)] && s6.pushed == s.pushed + [v] && s6.dequeuePos == s.dequeuePos
  {
    hide Slot;
    s4 := Step(Go(s, t, PushCas(v, s.enqueuePos)), t, Advance);
    assert s4.pcs == s.pcs[t := PushStore(v, s.enqueuePos)];
    s5 := Step(s4, t, Advance);
    assert s5.pcs == s.pcs[t := PushPublish(s.enqueuePos)];
    s6 := Step(s5, t, Advance);
    assert s6.pcs == s.pcs[t := PushReturned(true)];
  }

  lemma {:induction false} AloneKeeps<T>(trace: seq<State<T>>, t: nat, call: Choice<T>)
    requires Alone(trace, t, call) && Inv(trace[0])
    ensures Inv(trace[|trace| - 1])
  {
    hide Inv, Moves;
    if |trace| > 1 {
      var front := trace[..|trace| - 1];
      AloneKeeps(front, t, call);
      var i, j := |trace| - 2, |trace| - 1;
      MoveKeeps(trace[i], Move(t, if i == 0 then call else Advance), trace[j]);
    }
  }

  lemma {:induction false} MoveKeeps<T>(s: State<T>, m: Move<T>, s': State<T>)
    requires Inv(s) && Moves(s, m, s')
    ensures Inv(s')
  {
    hide Inv, Slot;
    StepKeeps(s, m.t, m.c);
  }

  lemma {:induction false} PopLooks<T>(s: State<T>, t: nat) returns (trace: seq<State<T>>)
    requires t in s.pcs && s.pcs[t] == Idle && |s.cells| > 0
    requires At(s, s.dequeuePos).sequence <= s.dequeuePos + 1
    ensures |trace| == 4 && trace[0] == s && Alone(trace, t, CallPop)
    ensures trace[3] == Go(s, t, if At(s, s.dequeuePos).sequence == s.dequeuePos + 1
                                 then PopCas(s.dequeuePos) else PopReturned(None))
  {
    hide Slot;
    var s1, s2 := Go(s, t, PopLoad), Go(s, t, PopRead(s.dequeuePos));
    assert s1.pcs[t := PopRead(s.dequeuePos)] == s2.pcs;
    var s3 := Step(s2, t, Advance);
    assert s3.pcs == s.pcs[t := s3.pcs[t]];
    trace := [s];
    AloneOn(trace, t, CallPop, s1);
    AloneOn([s, s1], t, CallPop, s2);
    AloneOn([s, s1, s2], t, CallPop, s3);
    assert [s] + [s1] == [s, s1] && [s, s1] + [s2] == [s, s1, s2] && [s, s1, s2] + [s3] == [s, s1, s2, s3];
    trace := [s, s1, s2, s3];
  }

  lemma {:induction false} PopWins<T>(s: State<T>, t: nat, v: T) returns (s4: State<T>, s5: State<T>, s6: State<T>)
    requires t in s.pcs && |s.cells| > 0 && At(s, s.dequeuePos) == Cell(s.dequeuePos + 1, Some(v))
    ensures Moves(Go(s, t, PopCas(s.dequeuePos)), Move(t, Advance), s4)
    ensures Moves(s4, Move(t, Advance), s5) && Moves(s5, Move(t, Advance), s6)
    ensures s6.pcs == s.pcs[t := PopReturned(Some(v))] && s6.pushed == s.pushed && s6.dequeuePos == s.dequeuePos + 1
  {
    hide Slot;
    s4 := Step(Go(s, t, PopCas(s.dequeuePos)), t, Advance);
    assert s4.pcs == s.pcs[t := PopTake(s.dequeuePos)] && At(s4, s.dequeuePos) == At(s, s.dequeuePos);
    s5 := Step(s4, t, Advance);
    assert s5.pcs == s.pcs[t := PopRelease(s.dequeuePos, v)];
    s6 := Step(s5, t, Advance);
    assert s6.pcs == s.pcs[t := PopReturned(Some(v))];
  }

  /** Alone on a quiet queue a pop returns the oldest value and takes it off, or nothing
      if the queue is empty, within six moves. */
  lemma {:induction false} PopAlone<T>(s: State<T>, t: nat) returns (trace: seq<State<T>>)
    requires Inv(s) && Quiet(s) && t in s.pcs
    ensures 0 < |trace| <= 7 && trace[0] == s && Alone(trace, t, CallPop) && Inv(trace[|trace| - 1])
    ensures var s' := trace[|trace| - 1];
      && s'.pcs == s.pcs[t := PopReturned(if Contents(s) == [] then None else Some(Contents(s)[0]))]
      && Contents(s') == if Contents(s) == [] then [] else Contents(s)[1..]
  {
    QuietHead(s);
    trace := PopLooks(s, t);
    hide Slot, Lap, Exclusive, Delivered, Alone;
    if Contents(s) != [] {
      var s4, s5, s6 := PopWins(s, t, Contents(s)[0]);
      ThreeMore(trace, t, CallPop, s4, s5, s6);
      trace := trace + [s4] + [s5] + [s6];
    }
    AloneKeeps(trace, t, CallPop);
  }
}
