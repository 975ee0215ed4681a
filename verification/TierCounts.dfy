/** Sections that touch the central cache: the free count of every span is the
    number of its objects on the central list, so a span is given back to the page
    heap exactly when all its objects are there. */
module TierCounts {
  import opened Common
  import Machine
  import opened PageHeap
  import opened TierModel
  import opened TierInvariant
  import P = PageHeapInvariant
  import T = PageHeapTheorems
  import FreeList

  // ---------------------------------------------------------------- counting

  lemma {:induction false} CountConcat(a: seq<nat>, b: seq<nat>, pred: nat -> bool)
    ensures FreeList.Count(a + b, pred) == FreeList.Count(a, pred) + FreeList.Count(b, pred)
    decreases |b|
  {
    if b == [] {
      assert a + b == a;
    } else {
      assert (a + b)[..|a + b| - 1] == a + b[..|b| - 1];
      CountConcat(a, b[..|b| - 1], pred);
    }
  }

  lemma {:induction false} CountNone(list: seq<nat>, pred: nat -> bool)
    requires forall a :: a in list ==> !pred(a)
    ensures FreeList.Count(list, pred) == 0
  {
    if list != [] {
      CountNone(list[..|list| - 1], pred);
    }
  }

  lemma {:induction false} CountCut(list: seq<nat>, k: nat, pred: nat -> bool)
    requires k <= |list|
    ensures FreeList.Count(list, pred) == FreeList.Count(list[..k], pred) + FreeList.Count(list[k..], pred)
  {
    assert list == list[..k] + list[k..];
    CountConcat(list[..k], list[k..], pred);
  }

  // --------------------------------------------------- changing the free counts

  /** Only free counts differ. */
  ghost predicate SameBut(h: Heap, h': Heap) {
    && h' == h.(info := h'.info) && h'.info.Keys == h.info.Keys
    && forall q :: q in h.info ==> h'.info[q] == h.info[q].(centralFree := h'.info[q].centralFree)
  }

  lemma {:induction false} BoundStays(h: Heap, h': Heap)
    requires SameBut(h, h')
    ensures forall q, c: nat :: IsBound(h', q, c) <==> IsBound(h, q, c)
    ensures forall q :: q in h.info ==> h'.info[q].objectCount == h.info[q].objectCount
  {
  }

  lemma {:induction false} SpansStayOk(h: Heap, h': Heap, spans: seq<seq<Id>>)
    requires SameBut(h, h') && SpansOk(h, spans)
    ensures SpansOk(h', spans)
  {
    BoundStays(h, h');
    hide IsBound;
    forall q, c: nat | IsBound(h', q, c) ensures InfoOk(h'.store[q], h'.info[q], c) {
      assert InfoOk(h.store[q], h.info[q], c);
    }
  }

  lemma {:induction false} ObjectsStayOk(h: Heap, h': Heap, w: Map)
    requires SameBut(h, h') && ObjectsOk(h, w)
    ensures ObjectsOk(h', w)
  {
    BoundStays(h, h');
    hide IsBound;
    forall a | a in w ensures SpotOk(h', a, w[a]) {
      assert SpotOk(h, a, w[a]);
    }
    forall q, c, i: nat | IsBound(h', q, c) && i < h'.info[q].objectCount ensures Holds(w, Address(h', q, c, i), q) {
      assert Holds(w, Address(h, q, c, i), q);
    }
  }

  /** What the loops over a range rely on: each object is found in its own span. */
  ghost predicate Found(h: Heap, w: Map, range: seq<nat>) {
    && (forall a :: a in range ==> a in w && MapObject(h, a) == Some(w[a].q) && w[a].q in h.info)
    && (forall a, q :: a in range && q in h.store ==> (Contains(h.store[q], a) <==> q == w[a].q))
  }

  lemma {:induction false} RangeIsFound(h: Heap, spans: seq<seq<Id>>, w: Map, l: P.Layout, range: seq<nat>)
    requires P.Inv(h, l, {}) && SpansOk(h, spans) && ObjectsOk(h, w) && forall a :: a in range ==> a in w
    ensures Found(h, w, range)
  {
    forall a | a in range ensures MapObject(h, a) == Some(w[a].q) && w[a].q in h.info {
      FindsSpan(h, spans, w, l, a);
    }
    forall a, q | a in range && q in h.store ensures Contains(h.store[q], a) <==> q == w[a].q {
      InOneSpan(h, spans, w, l, a, q);
    }
  }

  lemma {:induction false} FetchOne(h: Heap, h1: Heap, w: Map, a: nat)
    requires SameBut(h, h1) && Found(h, w, [a]) && h1.info[w[a].q].centralFree > 0
    ensures SameBut(h, Taken(h1, a))
    ensures Taken(h1, a).info[w[a].q].centralFree == h1.info[w[a].q].centralFree - 1
    ensures forall q :: q in h.info && q != w[a].q ==> Taken(h1, a).info[q] == h1.info[q]
  {
    assert a in [a];
    assert MapObject(h1, a) == MapObject(h, a);
  }

  lemma {:induction false} GiveOne(h: Heap, h1: Heap, w: Map, a: nat)
    requires SameBut(h, h1) && Found(h, w, [a])
    ensures SameBut(h, Given(h1, a))
    ensures Given(h1, a).info[w[a].q].centralFree == h1.info[w[a].q].centralFree + 1
    ensures forall q :: q in h.info && q != w[a].q ==> Given(h1, a).info[q] == h1.info[q]
  {
    assert a in [a];
    assert MapObject(h1, a) == MapObject(h, a);
  }

  ghost predicate Enough(h: Heap, range: seq<nat>) {
    forall q :: q in h.info && q in h.store ==> FreeList.Count(range, InSpan(h.store[q])) <= h.info[q].centralFree
  }

  lemma {:induction false} FrontOfRange(h: Heap, w: Map, range: seq<nat>)
    requires Found(h, w, range) && range != []
    ensures Found(h, w, range[..|range| - 1]) && Found(h, w, [range[|range| - 1]])
    ensures Enough(h, range) ==> Enough(h, range[..|range| - 1])
    ensures forall q :: q in h.store ==>
      FreeList.Count(range, InSpan(h.store[q])) ==
      FreeList.Count(range[..|range| - 1], InSpan(h.store[q])) + if q == w[range[|range| - 1]].q then 1 else 0
  {
  }

  /** The loop over a fetched range takes its objects off their spans' counts. */
  lemma {:induction false} OnFetchCounts(h: Heap, w: Map, range: seq<nat>)
    requires Found(h, w, range) && Enough(h, range) && forall a :: a in range ==> w[a].q in h.store
    ensures SameBut(h, OnFetch(h, range))
    ensures forall q :: q in h.info && q in h.store ==>
      OnFetch(h, range).info[q].centralFree == h.info[q].centralFree - FreeList.Count(range, InSpan(h.store[q]))
  {
    if range != [] {
      var front, a := range[..|range| - 1], range[|range| - 1];
      FrontOfRange(h, w, range);
      OnFetchCounts(h, w, front);
      hide Found, Taken, InSpan, FreeList.Count;
      assert a in range;
      FetchOne(h, OnFetch(h, front), w, a);
    }
  }

  /** The loop over a returned range adds its objects to their spans' counts. */
  lemma {:induction false} OnReleaseCounts(h: Heap, w: Map, range: seq<nat>)
    requires Found(h, w, range) && forall a :: a in range ==> w[a].q in h.store
    ensures SameBut(h, OnRelease(h, range))
    ensures forall q :: q in h.info && q in h.store ==>
      OnRelease(h, range).info[q].centralFree == h.info[q].centralFree + FreeList.Count(range, InSpan(h.store[q]))
  {
    if range != [] {
      var front, a := range[..|range| - 1], range[|range| - 1];
      FrontOfRange(h, w, range);
      OnReleaseCounts(h, w, front);
      hide Found, Given, InSpan, FreeList.Count;
      assert a in range;
      GiveOne(h, OnRelease(h, front), w, a);
    }
  }

  // ----------------------------------------------------- between the tiers

  /** All parts of the invariant but the sizes. */
  ghost predicate Exact(s: State, w: Map, l: P.Layout) {
    P.Inv(s.heap, l, {}) && SpansOk(s.heap, s.spans) && Core(s.heap, s.lists, s.user, w)
  }

  ghost predicate AllIn(w: Map, range: seq<nat>, loc: Loc) {
    forall a :: a in range ==> a in w && w[a].loc == loc
  }

  /** A range of one class has no object in a span that is not bound to that class. */
  lemma {:induction false} OfOneClass(h: Heap, w: Map, range: seq<nat>, loc: Loc, q: Id)
    requires Found(h, w, range) && ObjectsOk(h, w) && AllIn(w, range, loc) && loc != User
    requires q in h.store && !IsBound(h, q, loc.c)
    ensures FreeList.Count(range, InSpan(h.store[q])) == 0
  {
    forall a | a in range ensures !InSpan(h.store[q])(a) {
      assert SpotOk(h, a, w[a]);
    }
    CountNone(range, InSpan(h.store[q]));
  }

  lemma {:induction false} SpansAreStored(h: Heap, w: Map, range: seq<nat>)
    requires ObjectsOk(h, w) && forall a :: a in range ==> a in w
    ensures forall a :: a in range ==> w[a].q in h.store
  {
    forall a | a in range ensures w[a].q in h.store {
      assert SpotOk(h, a, w[a]);
    }
  }

  lemma {:induction false} EnoughFree(h: Heap, lists: Lists, w: Map, c: nat, k: nat)
    requires k <= |At(lists, Central(c))| && Found(h, w, At(lists, Central(c))[..k]) && ObjectsOk(h, w)
    requires AllIn(w, At(lists, Central(c))[..k], Central(c)) && CountsOk(h, lists)
    ensures Enough(h, At(lists, Central(c))[..k])
  {
    hide Found, ObjectsOk;
    var list := At(lists, Central(c));
    forall q | q in h.info && q in h.store
      ensures FreeList.Count(list[..k], InSpan(h.store[q])) <= h.info[q].centralFree
    {
      if IsBound(h, q, c) {
        CountCut(list, k, InSpan(h.store[q]));
      } else {
        OfOneClass(h, w, list[..k], Central(c), q);
      }
    }
  }

  lemma {:induction false} FetchCounts(h: Heap, h': Heap, lists: Lists, lists': Lists, w: Map, c: nat, k: nat)
    requires k <= |At(lists, Central(c))| && Found(h, w, At(lists, Central(c))[..k]) && ObjectsOk(h, w)
    requires AllIn(w, At(lists, Central(c))[..k], Central(c)) && CountsOk(h, lists) && SameBut(h, h')
    requires At(lists', Central(c)) == At(lists, Central(c))[k..]
    requires forall d: nat :: d != c ==> At(lists', Central(d)) == At(lists, Central(d))
    requires forall q :: q in h.info && q in h.store ==>
      h'.info[q].centralFree == h.info[q].centralFree - FreeList.Count(At(lists, Central(c))[..k], InSpan(h.store[q]))
    ensures CountsOk(h', lists')
  {
    BoundStays(h, h');
    hide Found, ObjectsOk;
    var list := At(lists, Central(c));
    forall q, d: nat | IsBound(h', q, d) ensures h'.info[q].centralFree == FreeIn(h', lists', q, d) {
      if d == c {
        CountCut(list, k, InSpan(h.store[q]));
      } else {
        OfOneClass(h, w, list[..k], Central(c), q);
      }
    }
  }

  lemma {:induction false} FrontIsIn(lists: Lists, user: set<nat>, w: Map, loc: Loc, k: nat)
    requires ListsOk(lists, user, w) && loc != User && k <= |At(lists, loc)|
    ensures AllIn(w, At(lists, loc)[..k], loc)
  {
    assert ListOk(At(lists, loc), w, loc);
  }

  /** A range taken from one list is found, span by span. */
  lemma {:induction false} RangeOf(s: State, w: Map, l: P.Layout, loc: Loc, k: nat)
    requires Exact(s, w, l) && loc != User && k <= |At(s.lists, loc)|
    ensures var range := At(s.lists, loc)[..k];
      AllIn(w, range, loc) && Found(s.heap, w, range) && forall a :: a in range ==> w[a].q in s.heap.store
  {
    hide ListsOk, CountsOk, P.Inv, Found, SpansOk, ObjectsOk;
    var range := At(s.lists, loc)[..k];
    FrontIsIn(s.lists, s.user, w, loc, k);
    RangeIsFound(s.heap, s.spans, w, l, range);
    SpansAreStored(s.heap, w, range);
  }

  /** A whole list, likewise. */
  lemma {:induction false} WholeRange(s: State, w: Map, l: P.Layout, loc: Loc)
    requires Exact(s, w, l) && loc != User
    ensures Found(s.heap, w, At(s.lists, loc)) && Distinct(At(s.lists, loc))
    ensures forall a :: a in At(s.lists, loc) <==> a in w && w[a].loc == loc
    ensures forall a :: a in At(s.lists, loc) ==> w[a].q in s.heap.store
  {
    hide Found, P.Inv, SpansOk, ObjectsOk, CountsOk;
    var list := At(s.lists, loc);
    assert ListOk(list, w, loc) && list[..|list|] == list;
    hide ListsOk;
    RangeOf(s, w, l, loc, |list|);
  }

  lemma {:induction false} ShiftAt(lists: Lists, from: Loc, to: Loc, n: nat)
    requires n <= |At(lists, from)| && from != to
    ensures At(Shift(lists, from, to, n), from) == At(lists, from)[n..]
    ensures At(Shift(lists, from, to, n), to) == At(lists, from)[..n] + At(lists, to)
    ensures forall loc :: loc != from && loc != to ==> At(Shift(lists, from, to, n), loc) == At(lists, loc)
  {
  }

  /** A range whose objects' spans change only in their free counts, moved. */
  lemma {:induction false} MoveWithHeap(h: Heap, h': Heap, spans: seq<seq<Id>>, w: Map, l: P.Layout, range: seq<nat>,
                                        from: Loc, to: Loc)
    requires P.Inv(h, l, {}) && SpansOk(h, spans) && ObjectsOk(h, w) && SameBut(h, h')
    requires AllIn(w, range, from) && from != User && to != User && from.c == to.c
    ensures P.Inv(h', l, {}) && SpansOk(h', spans) && ObjectsOk(h', Moved(w, range, to))
  {
    SameClass(h, w, range, from, to);
    MovedObjects(h, w, range, to);
    hide P.Inv, SpansOk, ObjectsOk, Moved;
    ObjectsStayOk(h, h', Moved(w, range, to));
    SpansStayOk(h, h', spans);
    T.InfoIsFree(h, l, {}, h'.info);
  }

  lemma {:induction false} FetchKeeps(s: State, w: Map, l: P.Layout, t: nat, c: nat, n: nat)
    requires Exact(s, w, l)
    ensures var k := Machine.Min(n, |At(s.lists, Central(c))|);
      Exact(FetchCentral(s, t, c, n), Moved(w, At(s.lists, Central(c))[..k], Local(t, c)), l)
    ensures SameBut(s.heap, FetchCentral(s, t, c, n).heap)
  {
    hide Found, ObjectsOk, SpansOk, ListsOk, CountsOk, P.Inv, OnFetch, Moved, Shift, At, SameBut;
    var list := At(s.lists, Central(c));
    var k := Machine.Min(n, |list|);
    var range, h := list[..k], s.heap;
    RangeOf(s, w, l, Central(c), k);
    EnoughFree(h, s.lists, w, c, k);
    OnFetchCounts(h, w, range);
    ShiftLists(s.lists, s.user, w, Central(c), Local(t, c), k);
    ShiftAt(s.lists, Central(c), Local(t, c), k);
    FetchCounts(h, OnFetch(h, range), s.lists, Shift(s.lists, Central(c), Local(t, c), k), w, c, k);
    MoveWithHeap(h, OnFetch(h, range), s.spans, w, l, range, Central(c), Local(t, c));
  }
}
