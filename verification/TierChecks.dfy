/** The assertions of the central cache: in every interleaving the counts never run
    over or under while a range is fetched or returned, and what is counted on the list
    and taken off it is always what the span says. */
module TierChecks {
  import opened Common
  import opened PageHeap
  import opened TierModel
  import opened TierInvariant
  import opened TierCounts
  import opened TierSpans
  import opened TierPopulate
  import opened TierTheorems
  import P = PageHeapInvariant
  import SizeClass
  import FreeList

  // ------------------------------------------------- the loop over a range

  /** The loop is about to count object `a` and finds its span with a count satisfying
      the assertion. */
  ghost predicate CountsUp(h: Heap, a: nat) {
    MapObject(h, a).Some? && var q := MapObject(h, a).value;
    q in h.info && h.info[q].centralFree < h.info[q].objectCount
  }

  ghost predicate CountsDown(h: Heap, a: nat) {
    MapObject(h, a).Some? && var q := MapObject(h, a).value;
    q in h.info && h.info[q].centralFree > 0
  }

  lemma {:induction false} FoundFront(h: Heap, w: Map, range: seq<nat>, k: nat)
    requires Found(h, w, range) && k <= |range|
    ensures Found(h, w, range[..k])
  {
  }

  lemma {:induction false} FoundBoth(h: Heap, w: Map, a: seq<nat>, b: seq<nat>)
    requires Found(h, w, a) && Found(h, w, b)
    ensures Found(h, w, a + b)
  {
  }

  /** One object of a span more on a list. */
  lemma {:induction false} OneMore(range: seq<nat>, k: nat, pred: nat -> bool)
    requires k < |range|
    ensures FreeList.Count(range[..k + 1], pred) == FreeList.Count(range[..k], pred) + if pred(range[k]) then 1 else 0
  {
    assert range[..k + 1][..k] == range[..k];
  }

  /** Objects on the list, objects of the range already counted and the next one are
      all different, so they are no more than the span has. */
  lemma {:induction false} RoomForOneMore(h: Heap, w: Map, range: seq<nat>, list: seq<nat>, k: nat, c: nat)
    requires Found(h, w, range) && Found(h, w, list) && ObjectsOk(h, w) && Distinct(range + list)
    requires k < |range| && range[k] in w && IsBound(h, w[range[k]].q, c)
    ensures var q := w[range[k]].q;
      FreeList.Count(range[..k], InSpan(h.store[q])) + FreeList.Count(list, InSpan(h.store[q])) < h.info[q].objectCount
  {
    var q := w[range[k]].q;
    assert range[k] in range && Contains(h.store[q], range[k]);
    FoundFront(h, w, range, k + 1);
    FoundBoth(h, w, range[..k + 1], list);
    hide Found, ObjectsOk, IsBound, FreeList.Count, Distinct;
    OneMore(range, k, InSpan(h.store[q]));
    CountConcat(range[..k + 1], list, InSpan(h.store[q]));
    FrontDistinct(range, list, k + 1);
    CountAtMostAll(h, w, range[..k + 1] + list, q, c);
  }

  lemma {:induction false} FrontDistinct(range: seq<nat>, list: seq<nat>, k: nat)
    requires Distinct(range + list) && k <= |range|
    ensures Distinct(range[..k] + list)
  {
    var all, some := range + list, range[..k] + list;
    assert forall i :: 0 <= i < |some| ==> some[i] == all[if i < k then i else i + |range| - k];
  }

  lemma {:induction false} MapSame(h: Heap, h': Heap, a: nat)
    requires SameBut(h, h')
    ensures MapObject(h', a) == MapObject(h, a)
  {
  }

  lemma {:induction false} HeldApart(s: State, w: Map, l: P.Layout, t: nat, c: nat, slot: nat)
    requires Exact(s, w, l)
    ensures Distinct(At(s.lists, Held(t, c, slot)) + At(s.lists, Central(c)))
  {
    hide P.Inv, SpansOk, ObjectsOk, CountsOk;
    assert ListOk(At(s.lists, Held(t, c, slot)), w, Held(t, c, slot));
    assert ListOk(At(s.lists, Central(c)), w, Central(c));
    JoinDistinct(At(s.lists, Held(t, c, slot)), At(s.lists, Central(c)));
  }

  lemma {:induction false} BoundWithCount(s: State, w: Map, l: P.Layout, loc: Loc, a: nat)
    requires Exact(s, w, l) && loc != User && a in w && w[a].loc == loc
    ensures var h, q := s.heap, w[a].q;
      IsBound(h, q, loc.c) && h.info[q].centralFree == FreeIn(h, s.lists, q, loc.c)
  {
    hide P.Inv, SpansOk, ListsOk, FreeIn;
    assert SpotOk(s.heap, a, w[a]);
  }

  /** The next object of a list, and what its span has counted. */
  lemma {:induction false} NextObject(s: State, w: Map, l: P.Layout, loc: Loc, k: nat)
    requires Exact(s, w, l) && loc != User && k < |At(s.lists, loc)|
    ensures var h, a := s.heap, At(s.lists, loc)[k];
      && a in w && w[a].loc == loc && IsBound(h, w[a].q, loc.c) && MapObject(h, a) == Some(w[a].q)
      && h.info[w[a].q].centralFree == FreeIn(h, s.lists, w[a].q, loc.c)
    ensures Found(s.heap, w, At(s.lists, loc)) && Found(s.heap, w, At(s.lists, loc)[..k])
    ensures forall a :: a in At(s.lists, loc)[..k] ==> w[a].q in s.heap.store
  {
    WholeRange(s, w, l, loc);
    var a := At(s.lists, loc)[k];
    assert a in At(s.lists, loc) && MapObject(s.heap, a) == Some(w[a].q);
    FoundFront(s.heap, w, At(s.lists, loc), k);
    hide Exact, Found, IsBound, FreeIn, MapObject, At;
    BoundWithCount(s, w, l, loc, a);
  }

  lemma {:induction false} ExactObjects(s: State, w: Map, l: P.Layout)
    requires Exact(s, w, l)
    ensures ObjectsOk(s.heap, w) && CountsOk(s.heap, s.lists)
  {
  }

  /** A returned range, before its object `k` is counted. */
  lemma {:induction false} GiveCountsUp(s: State, w: Map, l: P.Layout, t: nat, c: nat, slot: nat, k: nat)
    requires Exact(s, w, l) && k < |At(s.lists, Held(t, c, slot))|
    ensures CountsUp(OnRelease(s.heap, At(s.lists, Held(t, c, slot))[..k]), At(s.lists, Held(t, c, slot))[k])
  {
    hide Exact, Found, ObjectsOk, CountsOk, OnRelease, MapObject, Distinct, FreeList.Count, At, InSpan;
    var h, range := s.heap, At(s.lists, Held(t, c, slot));
    ExactObjects(s, w, l);
    NextObject(s, w, l, Held(t, c, slot), k);
    WholeRange(s, w, l, Central(c));
    HeldApart(s, w, l, t, c, slot);
    RoomForOneMore(h, w, range, At(s.lists, Central(c)), k, c);
    OnReleaseCounts(h, w, range[..k]);
    MapSame(h, OnRelease(h, range[..k]), range[k]);
  }

  lemma {:induction false} OneMoreCounted(h: Heap, w: Map, list: seq<nat>, k: nat)
    requires Found(h, w, list) && k < |list| && list[k] in w && w[list[k]].q in h.store
    ensures var q := w[list[k]].q;
      FreeList.Count(list[..k], InSpan(h.store[q])) < FreeList.Count(list, InSpan(h.store[q]))
  {
    var q := w[list[k]].q;
    assert list[k] in list && Contains(h.store[q], list[k]);
    CountCut(list, k + 1, InSpan(h.store[q]));
    OneMore(list, k, InSpan(h.store[q]));
  }

  /** A fetched range, before its object `k` is counted. */
  lemma {:induction false} FetchCountsDown(s: State, w: Map, l: P.Layout, c: nat, k: nat)
    requires Exact(s, w, l) && k < |At(s.lists, Central(c))|
    ensures CountsDown(OnFetch(s.heap, At(s.lists, Central(c))[..k]), At(s.lists, Central(c))[k])
  {
    hide Exact, Found, ObjectsOk, CountsOk, OnFetch, MapObject, FreeList.Count, At, InSpan;
    var h, list := s.heap, At(s.lists, Central(c));
    ExactObjects(s, w, l);
    NextObject(s, w, l, Central(c), k);
    RangeOf(s, w, l, Central(c), k);
    EnoughFree(h, s.lists, w, c, k);
    OneMoreCounted(h, w, list, k);
    OnFetchCounts(h, w, list[..k]);
    MapSame(h, OnFetch(h, list[..k]), list[k]);
  }

  // ------------------------------------------------ the loop over the spans

  /** The loop in the order it runs: after one more span comes one more look. */
  lemma {:induction false} OneMoreTurn(s: State, c: nat, todo: seq<Id>, q: Id)
    requires c < |s.spans|
    ensures ReleaseEmpty(s, c, todo + [q]) == LookAt(ReleaseEmpty(s, c, todo), c, q)
    decreases |todo|
  {
    hide LookAt;
    if todo == [] {
      assert todo + [q] == [q];
    } else {
      assert (todo + [q])[0] == todo[0] && (todo + [q])[1..] == todo[1..] + [q];
      OneMoreTurn(LookAt(s, c, todo[0]), c, todo[1..], q);
    }
  }

  /** What the loop finds when it looks at span `q`: the span is retired exactly when its
      own count says it is wholly free, what is counted on the list is that count, and
      unlinking its objects takes just as many off the list. */
  ghost predicate CheckHolds(s: State, c: nat, q: Id) {
    && IsBound(s.heap, q, c)
    && var list, span, info := At(s.lists, Central(c)), s.heap.store[q], s.heap.info[q];
    && (Idle(s, c, q) <==> info.centralFree == info.objectCount)
    && FreeList.Count(list, InSpan(span)) == info.centralFree
    && |list| - |FreeList.Keep(list, InSpan(span))| == info.centralFree
  }

  lemma {:induction false} ExactChecks(s: State, w: Map, l: P.Layout, c: nat, q: Id)
    requires Exact(s, w, l) && IsBound(s.heap, q, c)
    ensures CheckHolds(s, c, q)
  {
    IdleExactly(s, w, l, q, c);
    var list := At(s.lists, Central(c));
    assert ListOk(list, w, Central(c));
    FreeList.KeepElements(list, InSpan(s.heap.store[q]));
    hide P.Inv, SpansOk, ObjectsOk, ListsOk, Idle;
  }

  lemma {:induction false} LaterOne(todo: seq<Id>, k: nat)
    requires Distinct(todo) && k < |todo|
    ensures todo[..k + 1] == todo[..k] + [todo[k]] && todo[k] in todo && todo[k] !in todo[..k]
    ensures Distinct(todo[..k]) && forall q :: q in todo[..k] ==> q in todo
  {
  }

  lemma {:induction false} TurnChecks(s: State, w: Map, l: P.Layout, c: nat, todo: seq<Id>, k: nat)
    requires Exact(s, w, l) && c < |s.spans| && Distinct(todo) && k < |todo|
    requires forall q :: q in todo ==> IsBound(s.heap, q, c)
    ensures CheckHolds(ReleaseEmpty(s, c, todo[..k]), c, todo[k])
    ensures ReleaseEmpty(s, c, todo[..k + 1]) == LookAt(ReleaseEmpty(s, c, todo[..k]), c, todo[k])
  {
    hide Exact, ReleaseEmpty, LookAt, IsBound, CheckHolds, Distinct, Framed, Busy;
    LaterOne(todo, k);
    OneMoreTurn(s, c, todo[..k], todo[k]);
    var w1, l1 := ReleaseEmptyKeeps(s, w, l, c, todo[..k]);
    ExactChecks(ReleaseEmpty(s, c, todo[..k]), w1, l1, c, todo[k]);
  }

  // ---------------------------------------------------------------- every run

  lemma {:induction false} RunActs(trace: seq<State>, steps: seq<Step>, i: nat) returns (w: Map, l: P.Layout)
    requires Run(trace, steps) && i < |steps|
    ensures |trace| == |steps| + 1 && Act(trace[i], steps[i], trace[i + 1])
    ensures Good(trace[i], w, l) && Exact(trace[i], w, l)
  {
    hide Act;
    w, l := RunKeeps(trace, steps, i);
  }

  /** In every run, before each increment of a return the count is below the number of
      objects. */
  lemma {:induction false} ReturnsNeverOverflow(trace: seq<State>, steps: seq<Step>, i: nat, k: nat)
    requires Run(trace, steps) && i < |steps| && i < |trace| && steps[i].GiveCentral?
    requires k < |At(trace[i].lists, Held(steps[i].t, steps[i].c, steps[i].slot))|
    ensures var range := At(trace[i].lists, Held(steps[i].t, steps[i].c, steps[i].slot));
      CountsUp(OnRelease(trace[i].heap, range[..k]), range[k])
  {
    hide Run, Act, Good, Exact, At, CountsUp;
    var w, l := RunActs(trace, steps, i);
    GiveCountsUp(trace[i], w, l, steps[i].t, steps[i].c, steps[i].slot, k);
  }

  /** `s0` is the state a fetch takes its range from: `s`, or `s` with a span just cut. */
  ghost predicate FetchesFrom(s: State, step: Step, s0: State) {
    || (step.Fetch? && s0 == s)
    || (step.FetchNew? && step.c < |s.spans| && step.c < SizeClass.CLASSES && step.q in step.h.store
        && s0 == Populate(s, step.h, step.q, step.c))
  }

  lemma {:induction false} FilledExact(s: State, w: Map, l: P.Layout, step: Step, s0: State, s': State)
    returns (w0: Map, l0: P.Layout)
    requires Good(s, w, l) && Act(s, step, s') && FetchesFrom(s, step, s0)
    ensures Exact(s0, w0, l0) && step.c < SizeClass.CLASSES
    ensures s' == FetchCentral(s0, step.t, step.c, SizeClass.BatchCount(step.c))
  {
    hide P.Inv, SpansOk, ObjectsOk, ListsOk, CountsOk, SizesOk, Populate, FetchCentral, Resting, Allocates, At;
    w0, l0 := w, l;
    if step.FetchNew? { w0, l0 := PopulateKeeps(s, w, l, step.h, step.q, step.c); }
  }

  /** In every run, before each decrement of a fetch the count is positive. */
  lemma {:induction false} FetchesNeverUnderflow(trace: seq<State>, steps: seq<Step>, i: nat, s0: State, k: nat)
    requires Run(trace, steps) && i < |steps| && i < |trace| && FetchesFrom(trace[i], steps[i], s0)
    requires steps[i].c < SizeClass.CLASSES && k < SizeClass.BatchCount(steps[i].c)
    requires k < |At(s0.lists, Central(steps[i].c))|
    ensures var list := At(s0.lists, Central(steps[i].c));
      CountsDown(OnFetch(s0.heap, list[..k]), list[k])
    ensures i + 1 < |trace|
    ensures trace[i + 1] == FetchCentral(s0, steps[i].t, steps[i].c, SizeClass.BatchCount(steps[i].c))
  {
    assert steps[i].Fetch? || steps[i].FetchNew?;
    hide Run, Act, Good, Exact, At, CountsDown, FetchCentral, FetchesFrom, SizeClass.BatchCount;
    var w, l := RunActs(trace, steps, i);
    var w0, l0 := FilledExact(trace[i], w, l, steps[i], s0, trace[i + 1]);
    FetchCountsDown(s0, w0, l0, steps[i].c, k);
  }

  /** In every run, at each turn of the loop that ends a return both assertions hold, and
      a span is given back exactly when its count says it is wholly free. The turns are
      looks at the spans one after the other, and after the last one the return is done. */
  lemma {:induction false} ReturnChecksHold(trace: seq<State>, steps: seq<Step>, i: nat, k: nat)
    requires Run(trace, steps) && i < |steps| && i + 1 < |trace| && steps[i].GiveCentral?
    requires steps[i].c < |trace[i].spans| && k < |trace[i].spans[steps[i].c]|
    ensures var c, todo := steps[i].c, trace[i].spans[steps[i].c];
      var s1 := Rejoined(trace[i], steps[i].t, c, steps[i].slot);
      && CheckHolds(ReleaseEmpty(s1, c, todo[..k]), c, todo[k])
      && ReleaseEmpty(s1, c, todo[..k + 1]) == LookAt(ReleaseEmpty(s1, c, todo[..k]), c, todo[k])
      && ReleaseEmpty(s1, c, todo) == trace[i + 1]
  {
    var c, todo, s := steps[i].c, trace[i].spans[steps[i].c], trace[i];
    var w, l := RunActs(trace, steps, i);
    hide Run, P.Inv, SpansOk, Core, Resting, SizesOk, ReleaseEmpty, LookAt, CheckHolds, OnRelease, Shift, Moved, At;
    hide IsBound, SameBut, Good, Exact;
    var w1 := Moved(w, At(s.lists, Held(steps[i].t, c, steps[i].slot)), Central(c));
    JoinKeeps(s, w, l, steps[i].t, c, steps[i].slot);
    JoinedBound(s, w1, l, steps[i].t, c, steps[i].slot);
    TurnChecks(Rejoined(s, steps[i].t, c, steps[i].slot), w1, l, c, todo, k);
  }

  lemma {:induction false} JoinedBound(s: State, w1: Map, l: P.Layout, t: nat, c: nat, slot: nat)
    requires Exact(Rejoined(s, t, c, slot), w1, l) && c < SizeClass.CLASSES
    ensures c < |s.spans| && Distinct(s.spans[c])
    ensures forall q :: q in s.spans[c] ==> IsBound(Rejoined(s, t, c, slot).heap, q, c)
  {
    hide P.Inv, Core, OnRelease, Shift, IsBound;
    SpansBound(Rejoined(s, t, c, slot).heap, s.spans, c);
  }
}
