/** The lock-free bounded queue as an interleaving of its atomic accesses: every
    load, compare-exchange, construction and store of every thread is one step,
    under sequentially consistent memory. Tickets are ideal integers. */
module MpmcQueue {
  import opened Common
  import opened Arithmetic

  /** `storage` is `None` while no object is constructed in it. */
  datatype Cell<+T> = Cell(sequence: nat, storage: Option<T>)

  /** What a thread does next. */
  datatype Pc<+T> =
    | Idle
    | PushLoad(v: T)                  // load enqueue_pos_
    | PushRead(v: T, pos: nat)        // load the cell's sequence and compare
    | PushCas(v: T, pos: nat)         // compare_exchange enqueue_pos_
    | PushStore(v: T, pos: nat)       // construct the object
    | PushPublish(pos: nat)           // store sequence pos + 1
    | PopLoad                         // load dequeue_pos_
    | PopRead(pos: nat)               // load the cell's sequence and compare
    | PopCas(pos: nat)                // compare_exchange dequeue_pos_
    | PopTake(pos: nat)               // move the object out and destroy it
    | PopRelease(pos: nat, v: T)      // store sequence pos + Capacity
    | PushReturned(ok: bool)
    | PopReturned(got: Option<T>)

  /** `pushed` and `taken` are history: the value claimed with each ticket, and the
      value its consumer moved out. */
  datatype State<T> = State(
    enqueuePos: nat, dequeuePos: nat, cells: seq<Cell<T>>, pcs: map<nat, Pc<T>>,
    pushed: seq<T>, taken: map<nat, T>)

  /** A choice the environment makes: what to call, and whether a weak
      compare-exchange fails spuriously. */
  datatype Choice<T> = CallPush(v: T) | CallPop | Advance | Spurious

  ghost predicate Init<T>(s: State<T>, capacity: nat) {
    && capacity > 1
    && s.enqueuePos == 0 && s.dequeuePos == 0 && s.pushed == [] && s.taken == map[]
    && |s.cells| == capacity
    && (forall i :: 0 <= i < capacity ==> s.cells[i] == Cell(i, None))
    && (forall t :: t in s.pcs ==> s.pcs[t] == Idle)
  }

  /** `index_of`, for any capacity. */
  function Slot(p: nat, capacity: nat): (i: nat)
    requires capacity > 0
    ensures i < capacity
  {
    p % capacity
  }

  ghost function At<T>(s: State<T>, p: nat): Cell<T>
    requires |s.cells| > 0
  {
    s.cells[Slot(p, |s.cells|)]
  }

  ghost function Set<T>(s: State<T>, p: nat, c: Cell<T>): State<T>
    requires |s.cells| > 0
  {
    s.(cells := s.cells[Slot(p, |s.cells|) := c])
  }

  ghost function Go<T>(s: State<T>, t: nat, pc: Pc<T>): State<T> {
    s.(pcs := s.pcs[t := pc])
  }

  ghost predicate Enabled<T>(s: State<T>, t: nat, c: Choice<T>) {
    && t in s.pcs && |s.cells| > 0
    && match s.pcs[t]
       case Idle => c.CallPush? || c.CallPop?
       case PushCas(_, _) => c.Advance? || c.Spurious?
       case PopCas(_) => c.Advance? || c.Spurious?
       case PopTake(pos) => c.Advance? && At(s, pos).storage.Some?
       case _ => c.Advance?
  }

  /** One atomic access of thread `t`. */
  ghost function Step<T>(s: State<T>, t: nat, c: Choice<T>): State<T>
    requires Enabled(s, t, c)
  {
    match s.pcs[t]
    case Idle => Go(s, t, if c.CallPush? then PushLoad(c.v) else PopLoad)
    case PushLoad(v) => Go(s, t, PushRead(v, s.enqueuePos))
    case PushRead(v, pos) =>
      var seq0 := At(s, pos).sequence;
      Go(s, t, if seq0 == pos then PushCas(v, pos) else if seq0 < pos then PushReturned(false) else PushLoad(v))
    case PushCas(v, pos) =>
      if c.Advance? && s.enqueuePos == pos then
        Go(s, t, PushStore(v, pos)).(enqueuePos := pos + 1, pushed := s.pushed + [v])
      else Go(s, t, PushRead(v, s.enqueuePos))
    case PushStore(v, pos) => Go(Set(s, pos, At(s, pos).(storage := Some(v))), t, PushPublish(pos))
    case PushPublish(pos) => Go(Set(s, pos, At(s, pos).(sequence := pos + 1)), t, PushReturned(true))
    case PopLoad => Go(s, t, PopRead(s.dequeuePos))
    case PopRead(pos) =>
      var seq0 := At(s, pos).sequence;
      Go(s, t, if seq0 == pos + 1 then PopCas(pos) else if seq0 < pos + 1 then PopReturned(None) else PopLoad)
    case PopCas(pos) =>
      if c.Advance? && s.dequeuePos == pos then Go(s, t, PopTake(pos)).(dequeuePos := pos + 1)
      else Go(s, t, PopRead(s.dequeuePos))
    case PopTake(pos) =>
      var v := At(s, pos).storage.value;
      Go(Set(s, pos, At(s, pos).(storage := None)), t, PopRelease(pos, v)).(taken := s.taken[pos := v])
    case PopRelease(pos, v) =>
      Go(Set(s, pos, At(s, pos).(sequence := pos + |s.cells|)), t, PopReturned(Some(v)))
    case PushReturned(_) => Go(s, t, Idle)
    case PopReturned(_) => Go(s, t, Idle)
  }

  /** Thread `t` makes a step. */
  datatype Move<T> = Move(t: nat, c: Choice<T>)

  ghost predicate Moves<T>(s: State<T>, m: Move<T>, s': State<T>) {
    Enabled(s, m.t, m.c) && s' == Step(s, m.t, m.c)
  }

  /** The states of an interleaving, and the moves between them. */
  ghost predicate Run<T>(run: seq<State<T>>, moves: seq<Move<T>>, capacity: nat) {
    && |run| == |moves| + 1 && Init(run[0], capacity)
    && forall i :: 0 <= i < |moves| ==> Moves(run[i], moves[i], run[i + 1])
  }

  // ------------------------------------------------------------ the invariant

  /** Thread `pc` has claimed ticket `p` to write it. */
  predicate Writes<T>(pc: Pc<T>, p: nat) {
    match pc
    case PushStore(_, pos) => pos == p
    case PushPublish(pos) => pos == p
    case _ => false
  }

  /** Thread `pc` has claimed ticket `p` to read it. */
  predicate Reads<T>(pc: Pc<T>, p: nat) {
    match pc
    case PopTake(pos) => pos == p
    case PopRelease(pos, _) => pos == p
    case _ => false
  }

  ghost predicate Writing<T>(s: State<T>, p: nat) {
    exists t :: t in s.pcs && Writes(s.pcs[t], p)
  }

  ghost predicate Reading<T>(s: State<T>, p: nat) {
    exists t :: t in s.pcs && Reads(s.pcs[t], p)
  }

  /** A ticket that producers may still claim: its cell is free, or the consumer of
      the previous lap has not released it yet. */
  ghost predicate Free<T>(s: State<T>, p: nat)
    requires |s.cells| > 0
  {
    || At(s, p) == Cell(p, None)
    || (p >= |s.cells| && Reading(s, p - |s.cells|) && At(s, p).sequence == p - |s.cells| + 1)
  }

  /** A claimed ticket not yet claimed by a consumer: published, or being written. */
  ghost predicate Queued<T>(s: State<T>, p: nat)
    requires |s.cells| > 0 && p < |s.pushed|
  {
    || At(s, p) == Cell(p + 1, Some(s.pushed[p]))
    || (Writing(s, p) && At(s, p).sequence == p)
  }

  /** What each program counter knows. */
  ghost predicate PcOk<T>(s: State<T>, pc: Pc<T>)
    requires |s.cells| > 0 && |s.pushed| == s.enqueuePos
  {
    match pc
    case PushRead(v, pos) => pos <= s.enqueuePos
    case PushCas(v, pos) => pos <= s.enqueuePos && (pos == s.enqueuePos ==> At(s, pos).sequence == pos)
    case PushStore(v, pos) => s.dequeuePos <= pos < s.enqueuePos && v == s.pushed[pos] && At(s, pos) == Cell(pos, None)
    case PushPublish(pos) => s.dequeuePos <= pos < s.enqueuePos && At(s, pos) == Cell(pos, Some(s.pushed[pos]))
    case PopRead(pos) => pos <= s.dequeuePos
    case PopCas(pos) => pos <= s.dequeuePos && (pos == s.dequeuePos ==> At(s, pos).sequence == pos + 1)
    case PopTake(pos) =>
      && s.enqueuePos <= pos + |s.cells| && pos < s.dequeuePos <= s.enqueuePos
      && At(s, pos) == Cell(pos + 1, Some(s.pushed[pos])) && pos !in s.taken
    case PopRelease(pos, v) =>
      && s.enqueuePos <= pos + |s.cells| && pos < s.dequeuePos <= s.enqueuePos
      && At(s, pos) == Cell(pos + 1, None) && v == s.pushed[pos] && pos in s.taken
    case _ => true
  }

  ghost predicate Positions<T>(s: State<T>) {
    && |s.cells| > 1
    && s.dequeuePos <= s.enqueuePos <= s.dequeuePos + |s.cells|
    && |s.pushed| == s.enqueuePos
  }

  /** No ticket is claimed twice. */
  ghost predicate Exclusive<T>(s: State<T>) {
    && (forall t, u, p: nat :: t in s.pcs && u in s.pcs && Writes(s.pcs[t], p) && Writes(s.pcs[u], p) ==> t == u)
    && (forall t, u, p: nat :: t in s.pcs && u in s.pcs && Reads(s.pcs[t], p) && Reads(s.pcs[u], p) ==> t == u)
  }

  /** Every value moved out is the one pushed with that ticket, and only values
      whose consumer is still at work are missing. */
  ghost predicate Delivered<T>(s: State<T>)
    requires Positions(s)
  {
    && (forall p :: p in s.taken ==> p < s.dequeuePos && s.taken[p] == s.pushed[p])
    && (forall p: nat :: p < s.dequeuePos ==> p in s.taken || Reading(s, p))
  }

  ghost predicate Lap<T>(s: State<T>)
    requires Positions(s)
  {
    && (forall p: nat {:trigger At(s, p)} :: s.enqueuePos <= p < s.dequeuePos + |s.cells| ==> Free(s, p))
    && (forall p: nat {:trigger At(s, p)} :: s.dequeuePos <= p < s.enqueuePos ==> Queued(s, p))
  }

  ghost predicate Inv<T>(s: State<T>) {
    && Positions(s) && Lap(s) && Exclusive(s) && Delivered(s)
    && (forall t :: t in s.pcs ==> PcOk(s, s.pcs[t]))
  }

  // --------------------------------------------------------- cells and tickets

  /** Two tickets less than a lap apart never share a cell. */
  lemma {:induction false} SameCell(p: nat, q: nat, n: nat)
    requires n > 0 && Slot(p, n) == Slot(q, n) && q - n < p < q + n
    ensures p == q
  {
    Distribute(p / n, q / n, n);
    SmallMultiple(p / n - q / n, n);
  }

  lemma {:induction false} NextLap(p: nat, n: nat)
    requires n > 0
    ensures Slot(p + n, n) == Slot(p, n)
  {
    var a := p / n;
    assert p == a * n + p % n;
    assert (a + 1) * n == a * n + n;
    QuotientUnique(p + n, n, a + 1, p % n);
  }

  ghost predicate InLap<T>(s: State<T>, p: nat) {
    s.dequeuePos <= p < s.dequeuePos + |s.cells|
  }

  lemma {:induction false} SetAt<T>(s: State<T>, w: nat, c: Cell<T>)
    requires |s.cells| > 0 && InLap(s, w)
    ensures At(Set(s, w, c), w) == c
    ensures forall p: nat {:trigger At(Set(s, w, c), p)} :: InLap(s, p) && p != w ==> At(Set(s, w, c), p) == At(s, p)
  {
    hide Slot;
    forall p: nat | InLap(s, p) && p != w ensures At(Set(s, w, c), p) == At(s, p) {
      if Slot(p, |s.cells|) == Slot(w, |s.cells|) {
        SameCell(p, w, |s.cells|);
      }
    }
  }

  lemma {:induction false} AtNextLap<T>(s: State<T>, p: nat)
    requires |s.cells| > 0
    ensures At(s, p + |s.cells|) == At(s, p)
    ensures forall c: Cell<T> :: Set(s, p + |s.cells|, c) == Set(s, p, c)
  {
    hide Slot;
    NextLap(p, |s.cells|);
  }

  /** Where the ticket at `enqueue_pos_` stands. */
  lemma {:induction false} TailTicket<T>(s: State<T>)
    requires Inv(s) && At(s, s.enqueuePos).sequence == s.enqueuePos
    ensures s.enqueuePos < s.dequeuePos + |s.cells| && At(s, s.enqueuePos) == Cell(s.enqueuePos, None)
  {
    hide Slot, Exclusive, Delivered;
    if s.enqueuePos == s.dequeuePos + |s.cells| {
      AtNextLap(s, s.dequeuePos);
    } else {
      assert Free(s, s.enqueuePos);
    }
  }

  /** Where the ticket at `dequeue_pos_` stands. */
  lemma {:induction false} HeadTicket<T>(s: State<T>)
    requires Inv(s) && At(s, s.dequeuePos).sequence == s.dequeuePos + 1
    ensures s.dequeuePos < s.enqueuePos && At(s, s.dequeuePos) == Cell(s.dequeuePos + 1, Some(s.pushed[s.dequeuePos]))
  {
    hide Slot, Exclusive, Delivered;
    assert s.dequeuePos == s.enqueuePos ==> Free(s, s.dequeuePos);
    assert s.dequeuePos < s.enqueuePos ==> Queued(s, s.dequeuePos);
  }

  // ------------------------------------------------------------ steps keep it

  predicate Claims<T>(pc: Pc<T>) {
    pc.PushStore? || pc.PushPublish? || pc.PopTake? || pc.PopRelease?
  }

  /** Claims of the other threads, and those of thread `t`. */
  lemma {:induction false} ClaimsAfter<T>(s: State<T>, s': State<T>, t: nat, pc: Pc<T>)
    requires t in s.pcs && s'.pcs == s.pcs[t := pc]
    ensures forall p: nat :: Writing(s', p) <==> Writes(pc, p) || (exists u :: u in s.pcs && u != t && Writes(s.pcs[u], p))
    ensures forall p: nat :: Reading(s', p) <==> Reads(pc, p) || (exists u :: u in s.pcs && u != t && Reads(s.pcs[u], p))
  {
    forall p: nat | Writes(pc, p) ensures Writing(s', p) {
      assert t in s'.pcs && Writes(s'.pcs[t], p);
    }
    forall p: nat | Reads(pc, p) ensures Reading(s', p) {
      assert t in s'.pcs && Reads(s'.pcs[t], p);
    }
    forall p: nat, u | u in s.pcs && u != t && Writes(s.pcs[u], p) ensures Writing(s', p) {
      assert u in s'.pcs && Writes(s'.pcs[u], p);
    }
    forall p: nat, u | u in s.pcs && u != t && Reads(s.pcs[u], p) ensures Reading(s', p) {
      assert u in s'.pcs && Reads(s'.pcs[u], p);
    }
  }

  /** Thread `t` owns the cell of lap ticket `w`: it writes `w`, or still reads the
      ticket one lap earlier. */
  ghost predicate Owns<T>(s: State<T>, t: nat, w: nat) {
    t in s.pcs && InLap(s, w)
    && (Writes(s.pcs[t], w) || (w >= |s.cells| && Reads(s.pcs[t], w - |s.cells|)))
  }

  /** Claims that concern lap tickets other than `w` are the same in both states. */
  ghost predicate SameClaims<T>(s: State<T>, s': State<T>, w: nat) {
    && (forall p: nat :: p != w ==> (Writing(s, p) <==> Writing(s', p)))
    && (forall p: nat :: p + |s.cells| != w ==> (Reading(s, p) <==> Reading(s', p)))
  }

  lemma {:induction false} SameClaimsAfter<T>(s: State<T>, s': State<T>, t: nat, w: nat, pc: Pc<T>)
    requires t in s.pcs && s'.pcs == s.pcs[t := pc]
    requires forall p: nat :: Writes(pc, p) == Writes(s.pcs[t], p) && Reads(pc, p) == Reads(s.pcs[t], p)
    ensures forall p: nat :: (Writing(s, p) <==> Writing(s', p)) && (Reading(s, p) <==> Reading(s', p))
    ensures SameClaims(s, s', w)
    ensures Exclusive(s) ==> Exclusive(s')
  {
    ClaimsAfter(s, s', t, pc);
    ClaimsAfter(s, s, t, s.pcs[t]);
    assert s.pcs[t := s.pcs[t]] == s.pcs;
  }

  lemma {:induction false} DropClaim<T>(s: State<T>, s': State<T>, t: nat, w: nat, pc: Pc<T>)
    requires Exclusive(s) && Owns(s, t, w) && s'.pcs == s.pcs[t := pc] && !Claims(pc)
    ensures SameClaims(s, s', w) && Exclusive(s')
  {
    ClaimsAfter(s, s', t, pc);
    ClaimsAfter(s, s, t, s.pcs[t]);
    assert s.pcs[t := s.pcs[t]] == s.pcs;
  }

  lemma {:induction false} LocalStep<T>(s: State<T>, t: nat, pc: Pc<T>)
    requires Inv(s) && t in s.pcs && !Claims(s.pcs[t]) && !Claims(pc) && PcOk(s, pc)
    ensures Inv(Go(s, t, pc))
  {
    hide Slot;
    var s' := Go(s, t, pc);
    SameClaimsAfter(s, s', t, 0, pc);
    forall p: nat | s.enqueuePos <= p < s.dequeuePos + |s.cells| ensures Free(s', p) {
      assert At(s', p) == At(s, p) && Free(s, p);
    }
    forall p: nat | s.dequeuePos <= p < s.enqueuePos ensures Queued(s', p) {
      assert At(s', p) == At(s, p) && Queued(s, p);
    }
  }

  /** Claiming the tail ticket. */
  lemma {:induction false} ClaimTail<T>(s: State<T>, t: nat, v: T)
    requires Inv(s) && t in s.pcs && s.pcs[t] == PushCas(v, s.enqueuePos)
    ensures Inv(Go(s, t, PushStore(v, s.enqueuePos)).(enqueuePos := s.enqueuePos + 1, pushed := s.pushed + [v]))
  {
    hide Slot;
    var pos := s.enqueuePos;
    var s' := Go(s, t, PushStore(v, pos)).(enqueuePos := pos + 1, pushed := s.pushed + [v]);
    TailTicket(s);
    ClaimsAfter(s, s', t, PushStore(v, pos));
    forall p: nat | pos + 1 <= p < s.dequeuePos + |s.cells| ensures Free(s', p) {
      assert At(s', p) == At(s, p) && Free(s, p);
    }
    forall p: nat | s.dequeuePos <= p < pos + 1 ensures Queued(s', p) {
      assert At(s', p) == At(s, p) && (p < pos ==> Queued(s, p));
    }
    forall u | u in s'.pcs && u != t ensures PcOk(s', s'.pcs[u]) {
      assert PcOk(s, s.pcs[u]);
      if s.pcs[u].PopTake? || s.pcs[u].PopRelease? {
        AtNextLap(s, s.pcs[u].pos);
      }
    }
  }

  /** A change of the cell of lap ticket `w` that leaves the claims alone. */
  lemma {:induction false} CellStep<T>(s: State<T>, t: nat, w: nat, c: Cell<T>, pc: Pc<T>, s': State<T>)
    requires Inv(s) && t in s.pcs && InLap(s, w)
    requires s' == Go(Set(s, w, c), t, pc).(taken := s'.taken) && SameClaims(s, s', w)
    requires if w < s.enqueuePos then Queued(s', w) else Free(s', w)
    ensures Lap(s')
  {
    hide Slot;
    SetAt(s, w, c);
    forall p: nat | s.enqueuePos <= p < s.dequeuePos + |s.cells| ensures Free(s', p) {
      assert p != w ==> At(Set(s, w, c), p) == At(s, p) && Free(s, p);
    }
    forall p: nat | s.dequeuePos <= p < s.enqueuePos ensures Queued(s', p) {
      assert p != w ==> At(Set(s, w, c), p) == At(s, p) && Queued(s, p);
    }
  }

  /** The owner of a cell is never at the ticket a compare-exchange is about to win. */
  lemma {:induction false} OwnerAwayFromTail<T>(s: State<T>, t: nat, w: nat)
    requires Inv(s) && Owns(s, t, w) && At(s, s.enqueuePos).sequence == s.enqueuePos
    ensures InLap(s, s.enqueuePos) && s.enqueuePos != w
  {
    hide Slot, Delivered, Lap, Exclusive;
    assert PcOk(s, s.pcs[t]);
    TailTicket(s);
    if w >= |s.cells| {
      AtNextLap(s, w - |s.cells|);
    }
  }

  lemma {:induction false} OwnerAwayFromHead<T>(s: State<T>, t: nat, w: nat)
    requires Inv(s) && Owns(s, t, w) && At(s, s.dequeuePos).sequence == s.dequeuePos + 1
    ensures InLap(s, s.dequeuePos) && s.dequeuePos != w
  {
    hide Slot, Delivered, Lap, Exclusive;
    assert PcOk(s, s.pcs[t]);
    HeadTicket(s);
  }

  /** Two threads never own the same cell. */
  lemma {:induction false} OwnersApart<T>(s: State<T>, t: nat, w: nat, u: nat, x: nat)
    requires Inv(s) && Owns(s, t, w) && Owns(s, u, x) && t != u
    ensures w != x
  {
    hide Slot, Delivered, Lap;
    assert PcOk(s, s.pcs[t]) && PcOk(s, s.pcs[u]);
  }

  lemma {:induction false} OwnedTicket<T>(s: State<T>, u: nat)
    requires Inv(s) && u in s.pcs && Claims(s.pcs[u])
    ensures Owns(s, u, if s.pcs[u].PushStore? || s.pcs[u].PushPublish? then s.pcs[u].pos else s.pcs[u].pos + |s.cells|)
  {
    hide Slot, Delivered, Lap, Exclusive;
    assert PcOk(s, s.pcs[u]);
  }

  /** What thread `u` knows is not disturbed by the owner of another cell. */
  lemma {:induction false} OtherThread<T>(s: State<T>, t: nat, w: nat, c: Cell<T>, s': State<T>, u: nat)
    requires Inv(s) && Owns(s, t, w) && u in s.pcs && u != t
    requires s' == Set(s, w, c).(pcs := s'.pcs, taken := s'.taken)
    requires forall p :: p in s.taken ==> p in s'.taken
    requires forall p :: p in s'.taken ==> p in s.taken || Reads(s.pcs[t], p)
    ensures PcOk(s', s.pcs[u])
  {
    hide Slot, Delivered, Lap;
    assert PcOk(s, s.pcs[u]);
    SetAt(s, w, c);
    var s1 := Set(s, w, c);
    match s.pcs[u]
    case PushCas(v, pos) =>
      if pos == s.enqueuePos {
        OwnerAwayFromTail(s, t, w);
        assert At(s1, pos) == At(s, pos);
      }
    case PopCas(pos) =>
      if pos == s.dequeuePos {
        OwnerAwayFromHead(s, t, w);
        assert At(s1, pos) == At(s, pos);
      }
    case PushStore(v, pos) =>
      OwnedTicket(s, u);
      OwnersApart(s, t, w, u, pos);
      assert At(s1, pos) == At(s, pos);
    case PushPublish(pos) =>
      OwnedTicket(s, u);
      OwnersApart(s, t, w, u, pos);
      assert At(s1, pos) == At(s, pos);
    case PopTake(pos) =>
      OwnedTicket(s, u);
      OwnersApart(s, t, w, u, pos + |s.cells|);
      OtherLapCell(s, w, c, pos);
    case PopRelease(pos, v) =>
      OwnedTicket(s, u);
      OwnersApart(s, t, w, u, pos + |s.cells|);
      OtherLapCell(s, w, c, pos);
    case _ =>
  }

  lemma {:induction false} OtherLapCell<T>(s: State<T>, w: nat, c: Cell<T>, p: nat)
    requires |s.cells| > 0 && InLap(s, w) && InLap(s, p + |s.cells|) && p + |s.cells| != w
    ensures At(Set(s, w, c), p) == At(s, p)
  {
    hide Slot;
    SetAt(s, w, c);
    AtNextLap(s, p);
    AtNextLap(Set(s, w, c), p);
  }

  lemma {:induction false} StoreStep<T>(s: State<T>, t: nat)
    requires Inv(s) && Enabled(s, t, Advance) && s.pcs[t].PushStore?
    ensures Inv(Step(s, t, Advance))
  {
    hide Slot;
    var s', w := Step(s, t, Advance), s.pcs[t].pos;
    assert PcOk(s, s.pcs[t]);
    var c := At(s, w).(storage := Some(s.pcs[t].v));
    SetAt(s, w, c);
    SameClaimsAfter(s, s', t, w, PushPublish(w));
    assert Writing(s, w);
    CellStep(s, t, w, c, PushPublish(w), s');
    forall u | u in s.pcs && u != t ensures PcOk(s', s.pcs[u]) {
      OtherThread(s, t, w, c, s', u);
    }
  }

  lemma {:induction false} PublishStep<T>(s: State<T>, t: nat)
    requires Inv(s) && Enabled(s, t, Advance) && s.pcs[t].PushPublish?
    ensures Inv(Step(s, t, Advance))
  {
    hide Slot;
    var s', w := Step(s, t, Advance), s.pcs[t].pos;
    assert PcOk(s, s.pcs[t]);
    var c := At(s, w).(sequence := w + 1);
    SetAt(s, w, c);
    DropClaim(s, s', t, w, PushReturned(true));
    CellStep(s, t, w, c, PushReturned(true), s');
    forall u | u in s.pcs && u != t ensures PcOk(s', s.pcs[u]) {
      OtherThread(s, t, w, c, s', u);
    }
  }

  /** Once the head ticket is claimed its cell is the last of the next lap. */
  lemma {:induction false} HeadLap<T>(s: State<T>, t: nat)
    requires Inv(s) && t in s.pcs && s.pcs[t] == PopCas(s.dequeuePos)
    ensures Lap(Go(s, t, PopTake(s.dequeuePos)).(dequeuePos := s.dequeuePos + 1))
  {
    hide Slot, Exclusive, Delivered;
    var pos, n := s.dequeuePos, |s.cells|;
    var s' := Go(s, t, PopTake(pos)).(dequeuePos := pos + 1);
    HeadTicket(s);
    ClaimsAfter(s, s', t, PopTake(pos));
    ClaimsAfter(s, s, t, s.pcs[t]);
    assert s.pcs[t := s.pcs[t]] == s.pcs;
    AtNextLap(s, pos);
    forall p: nat | s.enqueuePos <= p < pos + 1 + n ensures Free(s', p) {
      assert At(s', p) == At(s, p) && (p < pos + n ==> Free(s, p));
    }
    forall p: nat | pos + 1 <= p < s.enqueuePos ensures Queued(s', p) {
      assert At(s', p) == At(s, p) && Queued(s, p);
    }
  }

  lemma {:induction false} HeadClaimed<T>(s: State<T>, t: nat)
    requires Inv(s) && t in s.pcs && s.pcs[t] == PopCas(s.dequeuePos)
    ensures var s' := Go(s, t, PopTake(s.dequeuePos)).(dequeuePos := s.dequeuePos + 1);
      Positions(s') && Exclusive(s') && Delivered(s') && PcOk(s', s'.pcs[t])
  {
    HeadTicket(s);
    assert PcOk(s, s.pcs[t]);
    hide Slot, Lap;
    var s' := Go(s, t, PopTake(s.dequeuePos)).(dequeuePos := s.dequeuePos + 1);
    ClaimsAfter(s, s', t, PopTake(s.dequeuePos));
    ClaimsAfter(s, s, t, s.pcs[t]);
    assert s.pcs[t := s.pcs[t]] == s.pcs;
  }

  /** Claiming the head ticket. */
  lemma {:induction false} ClaimHead<T>(s: State<T>, t: nat)
    requires Inv(s) && t in s.pcs && s.pcs[t] == PopCas(s.dequeuePos)
    ensures Inv(Go(s, t, PopTake(s.dequeuePos)).(dequeuePos := s.dequeuePos + 1))
  {
    HeadLap(s, t);
    HeadClaimed(s, t);
    HeadTicket(s);
    hide Slot, Lap, Exclusive, Delivered;
    var s' := Go(s, t, PopTake(s.dequeuePos)).(dequeuePos := s.dequeuePos + 1);
    forall u | u in s.pcs && u != t ensures PcOk(s', s.pcs[u]) {
      assert PcOk(s, s.pcs[u]);
    }
  }

  lemma {:induction false} TakeStep<T>(s: State<T>, t: nat)
    requires Inv(s) && Enabled(s, t, Advance) && s.pcs[t].PopTake?
    ensures Inv(Step(s, t, Advance))
  {
    hide Slot;
    var s', pos := Step(s, t, Advance), s.pcs[t].pos;
    assert PcOk(s, s.pcs[t]);
    var w, c, pc := pos + |s.cells|, At(s, pos).(storage := None), PopRelease(pos, s.pushed[pos]);
    AtNextLap(s, pos);
    SetAt(s, w, c);
    AtNextLap(Set(s, w, c), pos);
    SameClaimsAfter(s, s', t, w, pc);
    assert Reading(s, pos);
    CellStep(s, t, w, c, pc, s');
    forall u | u in s.pcs && u != t ensures PcOk(s', s.pcs[u]) {
      OtherThread(s, t, w, c, s', u);
    }
  }

  lemma {:induction false} ReleaseStep<T>(s: State<T>, t: nat)
    requires Inv(s) && Enabled(s, t, Advance) && s.pcs[t].PopRelease?
    ensures Inv(Step(s, t, Advance))
  {
    hide Slot;
    var s', pos := Step(s, t, Advance), s.pcs[t].pos;
    assert PcOk(s, s.pcs[t]);
    var w, c := pos + |s.cells|, At(s, pos).(sequence := pos + |s.cells|);
    AtNextLap(s, pos);
    SetAt(s, w, c);
    DropClaim(s, s', t, w, PopReturned(Some(s.pcs[t].v)));
    CellStep(s, t, w, c, PopReturned(Some(s.pcs[t].v)), s');
    forall u | u in s.pcs && u != t ensures PcOk(s', s.pcs[u]) {
      OtherThread(s, t, w, c, s', u);
    }
  }

  lemma {:induction false} StepKeeps<T>(s: State<T>, t: nat, c: Choice<T>)
    requires Inv(s) && Enabled(s, t, c)
    ensures Inv(Step(s, t, c))
  {
    hide Slot, Lap, Exclusive, Delivered;
    assert PcOk(s, s.pcs[t]);
    match s.pcs[t]
    case PushStore(_, _) => StoreStep(s, t);
    case PushPublish(_) => PublishStep(s, t);
    case PopTake(_) => TakeStep(s, t);
    case PopRelease(_, _) => ReleaseStep(s, t);
    case PushCas(v, pos) =>
      if c.Advance? && pos == s.enqueuePos {
        ClaimTail(s, t, v);
      } else {
        LocalStep(s, t, PushRead(v, s.enqueuePos));
      }
    case PopCas(pos) =>
      if c.Advance? && pos == s.dequeuePos {
        ClaimHead(s, t);
      } else {
        LocalStep(s, t, PopRead(s.dequeuePos));
      }
    case _ => LocalStep(s, t, Step(s, t, c).pcs[t]);
  }

  lemma {:induction false} InitKeeps<T>(s: State<T>, capacity: nat)
    requires Init(s, capacity)
    ensures Inv(s)
  {
    forall p: nat | p < capacity ensures Free(s, p) {
      SlotSmall(p, capacity);
    }
  }

  lemma {:induction false} SlotSmall(p: nat, n: nat)
    requires p < n
    ensures Slot(p, n) == p
  {
  }

  lemma {:induction false} RunKeeps<T>(run: seq<State<T>>, moves: seq<Move<T>>, capacity: nat, i: nat)
    requires Run(run, moves, capacity) && i < |run|
    ensures Inv(run[i]) && |run[i].cells| == capacity
  {
    hide Inv, Init;
    if i == 0 {
      InitKeeps(run[0], capacity);
      InitCapacity(run[0], capacity);
    } else {
      RunKeeps(run, moves, capacity, i - 1);
      assert Moves(run[i - 1], moves[i - 1], run[i - 1 + 1]);
      StepKeeps(run[i - 1], moves[i - 1].t, moves[i - 1].c);
    }
  }

  lemma {:induction false} InitCapacity<T>(s: State<T>, capacity: nat)
    requires Init(s, capacity)
    ensures |s.cells| == capacity
  {
  }

  // ---------------------------------------------------------------- theorems

  /** In every state of every interleaving the positions stay within one capacity of
      each other, whatever a consumer moved out is what the producer of the same ticket
      put in, and a ticket behind `dequeue_pos_` has been taken or has a consumer at work. */
  lemma {:induction false} EveryInterleaving<T>(run: seq<State<T>>, moves: seq<Move<T>>, capacity: nat, i: nat)
    requires Run(run, moves, capacity) && i < |run|
    ensures var s := run[i];
            && s.dequeuePos <= s.enqueuePos <= s.dequeuePos + capacity
            && |s.pushed| == s.enqueuePos
            && (forall p :: p in s.taken ==> p < s.dequeuePos && s.taken[p] == s.pushed[p])
            && (forall p: nat :: p < s.dequeuePos ==> p in s.taken || Reading(s, p))
            && Exclusive(s)
  {
    RunKeeps(run, moves, capacity, i);
  }

  /** Every ticket claimed in `s` has the same value in `s'`, and so has every one taken. */
  ghost predicate Grown<T>(s: State<T>, s': State<T>) {
    && s.pushed <= s'.pushed
    && forall p :: p in s.taken ==> p in s'.taken && s'.taken[p] == s.taken[p]
  }

  lemma {:induction false} StepGrows<T>(s: State<T>, m: Move<T>, s': State<T>)
    requires Inv(s) && Moves(s, m, s')
    ensures Grown(s, s')
  {
    hide Slot, Lap, Exclusive;
    assert PcOk(s, s.pcs[m.t]);
  }

  lemma {:induction false} GrownSelf<T>(s: State<T>)
    ensures Grown(s, s)
  {
  }

  lemma {:induction false} GrownOn<T>(s: State<T>, s': State<T>, s'': State<T>)
    requires Grown(s, s') && Grown(s', s'')
    ensures Grown(s, s'')
  {
  }

  lemma {:induction false} RunMoves<T>(run: seq<State<T>>, moves: seq<Move<T>>, capacity: nat, i: nat)
    requires Run(run, moves, capacity) && i + 1 < |run|
    ensures i < |moves| && Moves(run[i], moves[i], run[i + 1])
  {
    hide Init, Moves;
  }

  /** A ticket once claimed keeps its value, and so does one once taken. */
  lemma {:induction false} HistoryGrows<T>(run: seq<State<T>>, moves: seq<Move<T>>, capacity: nat, i: nat, j: nat)
    requires Run(run, moves, capacity) && i <= j < |run|
    ensures Grown(run[i], run[j])
    decreases j
  {
    hide Run, Inv, Moves, Grown;
    if i == j {
      GrownSelf(run[i]);
    } else {
      HistoryGrows(run, moves, capacity, i, j - 1);
      RunKeeps(run, moves, capacity, j - 1);
      RunMoves(run, moves, capacity, j - 1);
      StepGrows(run[j - 1], moves[j - 1], run[j]);
      GrownOn(run[i], run[j - 1], run[j]);
    }
  }

  ghost predicate Takes<T>(s: State<T>, m: Move<T>, p: nat) {
    m.t in s.pcs && s.pcs[m.t] == PopTake(p)
  }

  ghost predicate Stores<T>(s: State<T>, m: Move<T>, p: nat) {
    m.t in s.pcs && s.pcs[m.t].PushStore? && s.pcs[m.t].pos == p
  }

  lemma {:induction false} TakeIsRecorded<T>(s: State<T>, m: Move<T>, s': State<T>, p: nat)
    requires Inv(s) && Moves(s, m, s') && Takes(s, m, p)
    ensures p !in s.taken && p in s'.taken
  {
    hide Slot, Lap, Exclusive, Delivered;
    assert PcOk(s, s.pcs[m.t]);
  }

  lemma {:induction false} TakenBefore<T>(run: seq<State<T>>, moves: seq<Move<T>>, capacity: nat, i: nat, j: nat,
                                          p: nat)
    requires Run(run, moves, capacity) && i < j < |moves| && Takes(run[i], moves[i], p)
    ensures !Takes(run[j], moves[j], p)
  {
    RunKeeps(run, moves, capacity, i);
    RunKeeps(run, moves, capacity, j);
    HistoryGrows(run, moves, capacity, i + 1, j);
    assert Moves(run[i], moves[i], run[i + 1]) && Moves(run[j], moves[j], run[j + 1]);
    hide Run, Inv, Moves;
    TakeIsRecorded(run[i], moves[i], run[i + 1], p);
    if Takes(run[j], moves[j], p) { TakeIsRecorded(run[j], moves[j], run[j + 1], p); }
  }

  /** Over a whole interleaving a ticket is taken by at most one move of one consumer. */
  lemma {:induction false} TakenOnce<T>(run: seq<State<T>>, moves: seq<Move<T>>, capacity: nat, i: nat, j: nat, p: nat)
    requires Run(run, moves, capacity) && i < |moves| && j < |moves|
    requires Takes(run[i], moves[i], p) && Takes(run[j], moves[j], p)
    ensures i == j
  {
    hide Run, Takes;
    if i < j { TakenBefore(run, moves, capacity, i, j, p); }
    if j < i { TakenBefore(run, moves, capacity, j, i, p); }
  }

  /** Nobody is about to store ticket `p`, and nobody will claim it again. */
  ghost predicate StoreDone<T>(s: State<T>, p: nat) {
    p < s.enqueuePos && forall u :: u in s.pcs ==> !(s.pcs[u].PushStore? && s.pcs[u].pos == p)
  }

  lemma {:induction false} StoreFinishes<T>(s: State<T>, m: Move<T>, s': State<T>, p: nat)
    requires Inv(s) && Moves(s, m, s') && Stores(s, m, p)
    ensures StoreDone(s', p)
  {
    hide Slot, Lap, Delivered;
    assert PcOk(s, s.pcs[m.t]) && Writes(s.pcs[m.t], p);
    forall u | u in s'.pcs ensures !(s'.pcs[u].PushStore? && s'.pcs[u].pos == p) {
      assert u == m.t || (u in s.pcs && s'.pcs[u] == s.pcs[u] && !Writes(s.pcs[u], p));
    }
  }

  lemma {:induction false} StoreStaysDone<T>(s: State<T>, m: Move<T>, s': State<T>, p: nat)
    requires Moves(s, m, s') && StoreDone(s, p)
    ensures StoreDone(s', p)
  {
  }

  lemma {:induction false} StoredBefore<T>(run: seq<State<T>>, moves: seq<Move<T>>, capacity: nat, i: nat, j: nat,
                                           p: nat)
    requires Run(run, moves, capacity) && i < j <= |moves| && Stores(run[i], moves[i], p)
    ensures StoreDone(run[j], p)
    decreases j
  {
    assert Moves(run[j - 1], moves[j - 1], run[j - 1 + 1]);
    if i + 1 < j {
      StoredBefore(run, moves, capacity, i, j - 1, p);
      StoreStaysDone(run[j - 1], moves[j - 1], run[j], p);
    } else {
      RunKeeps(run, moves, capacity, i);
      hide Run, Inv, Moves;
      StoreFinishes(run[i], moves[i], run[j], p);
    }
  }

  /** Over a whole interleaving a ticket is stored by at most one move of one producer. */
  lemma {:induction false} StoredOnce<T>(run: seq<State<T>>, moves: seq<Move<T>>, capacity: nat, i: nat, j: nat, p: nat)
    requires Run(run, moves, capacity) && i < |moves| && j < |moves|
    requires Stores(run[i], moves[i], p) && Stores(run[j], moves[j], p)
    ensures i == j
  {
    hide Run;
    if i < j { StoredBefore(run, moves, capacity, i, j, p); }
    if j < i { StoredBefore(run, moves, capacity, j, i, p); }
  }

  /** In every state of every interleaving a producer finds the cell it constructs in
      empty and a consumer finds the value pushed with its ticket. So the guard of a take
      never blocks, and every thread can make a step. */
  lemma {:induction false} CellsAreReady<T>(run: seq<State<T>>, moves: seq<Move<T>>, capacity: nat, i: nat, t: nat)
    requires Run(run, moves, capacity) && i < |run| && t in run[i].pcs
    ensures |run[i].cells| == capacity > 0
    ensures var s := run[i];
      match s.pcs[t]
      case PushStore(v, p) => p < |s.pushed| && v == s.pushed[p] && At(s, p) == Cell(p, None)
      case PopTake(p) => p < |s.pushed| && At(s, p) == Cell(p + 1, Some(s.pushed[p]))
      case _ => true
    ensures exists c :: Enabled(run[i], t, c)
  {
    RunKeeps(run, moves, capacity, i);
    hide Run, Slot, Lap, Exclusive, Delivered;
    assert PcOk(run[i], run[i].pcs[t]);
    if run[i].pcs[t].Idle? {
      assert Enabled(run[i], t, CallPop);
    } else {
      assert Enabled(run[i], t, Advance);
    }
  }

  /** The queue as its users see it: pushes and pops take effect at their successful
      compare-exchange. */
  ghost function Contents<T>(s: State<T>): seq<T>
    requires Positions(s)
  {
    s.pushed[s.dequeuePos..]
  }

  /** Linearization: each step of a thread enqueues the value it was called with,
      dequeues the oldest value, or leaves the contents alone; a capacity of values
      is never exceeded. */
  lemma {:induction false} StepIsQueueStep<T>(s: State<T>, t: nat, c: Choice<T>)
    requires Inv(s) && Enabled(s, t, c)
    ensures var s' := Step(s, t, c);
            && Inv(s') && |Contents(s')| <= |s.cells|
            && if s.pcs[t].PushCas? && s'.pcs[t].PushStore? then
                 |Contents(s)| < |s.cells| && Contents(s') == Contents(s) + [s.pcs[t].v]
               else if s.pcs[t].PopCas? && s'.pcs[t].PopTake? then
                 Contents(s) != [] && Contents(s') == Contents(s)[1..] && s.pushed[s'.pcs[t].pos] == Contents(s)[0]
               else Contents(s') == Contents(s)
  {
    hide Slot, Lap, Exclusive, Delivered;
    StepKeeps(s, t, c);
    assert PcOk(s, s.pcs[t]);
    if s.pcs[t].PushCas? && s.pcs[t].pos == s.enqueuePos {
      TailTicket(s);
    }
    if s.pcs[t].PopCas? && s.pcs[t].pos == s.dequeuePos {
      HeadTicket(s);
    }
  }

  /** A pop that succeeds returns the value dequeued at its compare-exchange. */
  lemma {:induction false} PopReturnsItsTicket<T>(s: State<T>, t: nat)
    requires Inv(s) && t in s.pcs && s.pcs[t].PopRelease?
    ensures s.pcs[t].pos < s.dequeuePos && s.pcs[t].v == s.pushed[s.pcs[t].pos]
    ensures Step(s, t, Advance).pcs[t] == PopReturned(Some(s.pushed[s.pcs[t].pos]))
  {
    assert PcOk(s, s.pcs[t]);
  }

  /** Sequences only run ahead: a stale position never sees a smaller one. */
  lemma {:induction false} CellAhead<T>(s: State<T>, p: nat)
    requires Inv(s) && p < s.enqueuePos
    ensures At(s, p).sequence >= if p < s.dequeuePos then p + 1 else p
    decreases s.enqueuePos - p
  {
    hide Slot, Exclusive, Delivered;
    var q := p + |s.cells|;
    AtNextLap(s, p);
    if p >= s.dequeuePos {
      assert Queued(s, p);
    } else if q < s.enqueuePos {
      CellAhead(s, q);
    } else {
      assert Free(s, q);
    }
  }

  /** A push that fails saw its ticket's cell not yet released: the queue was full,
      or the consumer of the ticket one lap earlier was still at work. */
  lemma {:induction false} PushFailsOnlyWhenFull<T>(s: State<T>, t: nat)
    requires Inv(s) && t in s.pcs && s.pcs[t].PushRead? && Step(s, t, Advance).pcs[t] == PushReturned(false)
    ensures s.pcs[t].pos == s.enqueuePos >= |s.cells|
    ensures |Contents(s)| == |s.cells| || Reading(s, s.enqueuePos - |s.cells|)
  {
    hide Slot, Exclusive, Delivered;
    var pos := s.pcs[t].pos;
    assert PcOk(s, s.pcs[t]);
    assert At(s, pos).sequence < pos;
    if pos < s.enqueuePos {
      CellAhead(s, pos);
    } else if s.enqueuePos < s.dequeuePos + |s.cells| {
      assert Free(s, pos);
    }
  }

  /** A pop that fails saw its ticket's cell not yet published: the queue was empty,
      or the producer of that ticket was still at work. */
  lemma {:induction false} PopFailsOnlyWhenEmpty<T>(s: State<T>, t: nat)
    requires Inv(s) && t in s.pcs && s.pcs[t].PopRead? && Step(s, t, Advance).pcs[t] == PopReturned(None)
    ensures s.pcs[t].pos == s.dequeuePos
    ensures Contents(s) == [] || Writing(s, s.dequeuePos)
  {
    hide Slot, Exclusive, Delivered;
    var pos := s.pcs[t].pos;
    assert PcOk(s, s.pcs[t]);
    assert At(s, pos).sequence < pos + 1;
    if pos < s.dequeuePos {
      CellAhead(s, pos);
    } else if s.dequeuePos < s.enqueuePos {
      assert Queued(s, pos);
    }
  }

  /** At rest the cells between the positions hold exactly the values pushed and not
      popped, so the destructor, which visits those cells, destroys every live object
      once and nothing else. */
  lemma {:induction false} AtRest<T>(s: State<T>, p: nat)
    requires Inv(s) && (forall t :: t in s.pcs ==> s.pcs[t].Idle?)
    ensures s.dequeuePos <= p < s.enqueuePos ==> At(s, p) == Cell(p + 1, Some(s.pushed[p]))
    ensures s.enqueuePos <= p < s.dequeuePos + |s.cells| ==> At(s, p) == Cell(p, None)
    ensures p < s.dequeuePos ==> p in s.taken && s.taken[p] == s.pushed[p]
  {
    hide Slot;
    assert forall q: nat :: !Writing(s, q) && !Reading(s, q);
    if s.dequeuePos <= p < s.enqueuePos {
      assert Queued(s, p);
    } else if s.enqueuePos <= p < s.dequeuePos + |s.cells| {
      assert Free(s, p);
    }
  }

  // --------------------------------------------------------- machine counters

  const COUNTER: int := 0x1_0000_0000_0000_0000

  /** `before`: the circular test on 64-bit counters. */
  predicate Before(a: nat, b: nat) {
    (a % COUNTER - b % COUNTER) % COUNTER >= COUNTER / 2
  }

  /** On truncated counters less than 2^63 apart, `before` is `<`. */
  lemma {:induction false} BeforeIsLess(a: nat, b: nat)
    requires -(COUNTER / 2) <= a - b < COUNTER / 2
    ensures Before(a, b) <==> a < b
  {
    var x := a % COUNTER - b % COUNTER;
    var k := b / COUNTER - a / COUNTER;
    assert x == a - b + k * COUNTER;
    if a >= b {
      QuotientUnique(x, COUNTER, k, a - b);
    } else {
      Distribute(k, 1, COUNTER);
      QuotientUnique(x, COUNTER, k - 1, a - b + COUNTER);
    }
  }

  function Pow2(k: nat): nat {
    if k == 0 then 1 else 2 * Pow2(k - 1)
  }

  function BitAnd(a: nat, b: nat): nat {
    if a == 0 || b == 0 then 0
    else 2 * BitAnd(a / 2, b / 2) + if a % 2 == 1 && b % 2 == 1 then 1 else 0
  }

  lemma {:induction false} Double(q: int, n: int)
    ensures q * (2 * n) == 2 * (q * n)
  {
  }

  lemma {:induction false} SlotHalves(p: nat, n: nat)
    requires n > 0
    ensures Slot(p, 2 * n) == 2 * Slot(p / 2, n) + p % 2
  {
    var h := p / 2;
    Double(h / n, n);
    QuotientUnique(p, 2 * n, h / n, 2 * (h % n) + p % 2);
  }

  lemma {:induction false} BitAndOdd(p: nat, n: nat)
    requires n > 0
    ensures BitAnd(p, 2 * n - 1) == 2 * BitAnd(p / 2, n - 1) + p % 2
  {
    assert (2 * n - 1) / 2 == n - 1 && (2 * n - 1) % 2 == 1;
  }

  lemma {:induction false} MaskOne(p: nat)
    ensures BitAnd(p, 0) == 0 && Slot(p, 1) == 0
  {
  }

  /** `index_of` masks with `Capacity - 1`: for a power of two that is the slot. */
  lemma {:induction false} MaskIsSlot(p: nat, k: nat)
    ensures Pow2(k) > 0 && BitAnd(p, Pow2(k) - 1) == Slot(p, Pow2(k))
  {
    hide Slot, BitAnd;
    if k == 0 {
      MaskOne(p);
    } else {
      MaskIsSlot(p / 2, k - 1);
      SlotHalves(p, Pow2(k - 1));
      BitAndOdd(p, Pow2(k - 1));
    }
  }
}
