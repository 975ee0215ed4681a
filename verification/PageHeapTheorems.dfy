/** Whole operations of the page heap, runs of them, and what a caller can rely on. */
module PageHeapTheorems {
  import opened Common
  import opened PageHeap
  import opened PageHeapInvariant

  // ------------------------------------------------------------ coalescing

  /** What a merge leaves alone: everything but the cache and the span in question. */
  ghost predicate Untouched(h: Heap, h': Heap, cached: set<Id>, q: Id) {
    && h'.active == h.active && h'.pageToSpan == h.pageToSpan && h'.nextId == h.nextId
    && (forall x :: x in h.store && x !in cached && x != q ==> x in h'.store && h'.store[x] == h.store[x])
    && (forall x :: x in h.info && x !in cached && x != q ==> x in h'.info && h'.info[x] == h.info[x])
  }

  /** Erasing a cached span and merging it with the one in hand. */
  lemma {:induction false} AbsorbKeeps(h: Heap, l: Layout, hand: set<Id>, q: Id, c: Id, a: Id, b: Id)
    returns (l': Layout)
    requires Inv(h, l, hand) && q in hand && c in l.cached && c != q
    requires (a == q && b == c) || (a == c && b == q)
    requires q in h.store && c in h.store && CanMerge(h.store[a], h.store[b])
    ensures var h' := Merge(EraseCached(h, c), a, b);
      Inv(h', l', hand - {q} + {a}) && Untouched(h, h', l.cached, q)
    ensures l'.cached == l.cached - {c}
  {
    hide Inv, Erase, Joined, CanMerge;
    InHand(h, l, hand);
    EraseKeeps(h, l, hand, c);
    var l1 := l.(cached := l.cached - {c});
    MergeKeeps(EraseCached(h, c), l1, hand + {c}, a, b);
    l' := l1.(owner := Handed(l1.owner, a, b));
    assert hand + {c} - {b} == hand - {q} + {a};
    JoinedOthers(h.store, a, b);
  }

  lemma {:induction false} NeighboursAreCached(h: Heap, l: Layout, hand: set<Id>, q: Id)
    requires Inv(h, l, hand) && q in h.store
    ensures MergesLeft(h, q) ==> h.cache.byEnd[h.store[q].start] in l.cached
    ensures MergesRight(h, q) ==> h.cache.byStart[h.store[q].End()] in l.cached
  {
    hide Tiled, Mapped, Counted, Merged, ByPages, Sorted;
  }

  lemma {:induction false} CoalesceOneKeeps(h: Heap, l: Layout, hand: set<Id>, q: Id) returns (l': Layout)
    requires Inv(h, l, hand) && q in hand && q in h.store && (MergesLeft(h, q) || MergesRight(h, q))
    ensures var r := CoalesceOne(h, q);
      && Inv(r.h, l', hand - {q} + {r.q}) && Untouched(h, r.h, l.cached, q)
      && l'.cached <= l.cached && (r.q == q || r.q in l.cached)
  {
    hide Inv, Untouched, Merge, EraseCached;
    NeighboursAreCached(h, l, hand, q);
    if MergesLeft(h, q) {
      var left := h.cache.byEnd[h.store[q].start];
      l' := AbsorbKeeps(h, l, hand, q, left, left, q);
    } else {
      var right := h.cache.byStart[h.store[q].End()];
      l' := AbsorbKeeps(h, l, hand, q, right, q, right);
    }
  }

  lemma {:induction false} JoinedOthers(store: map<Id, Span>, a: Id, b: Id)
    requires a in store && b in store
    ensures forall x :: x in store && x != a && x != b ==> x in Joined(store, a, b) && Joined(store, a, b)[x] == store[x]
  {
  }

  lemma {:induction false} StoppedAlone(h: Heap, l: Layout, hand: set<Id>, q: Id)
    requires Inv(h, l, hand) && q in hand && !MergesLeft(h, q) && !MergesRight(h, q)
    ensures Alone(h.store, l.cached, q)
  {
    hide Tiled, Mapped, Counted, Merged;
  }

  /** The loop ends with a span no cached span can be merged with. */
  lemma {:induction false} CoalesceKeeps(h: Heap, l: Layout, hand: set<Id>, q: Id) returns (l': Layout)
    requires Inv(h, l, hand) && q in hand && q in h.store
    ensures var r := Coalesce(h, q);
      && Inv(r.h, l', hand - {q} + {r.q}) && Untouched(h, r.h, l.cached, q)
      && (r.q == q || r.q in l.cached) && l'.cached <= l.cached && l'.cached <= r.h.store.Keys
      && Alone(r.h.store, l'.cached, r.q)
    decreases |h.store|
  {
    hide Inv, Alone, MergesLeft, MergesRight, CoalesceOne;
    InHand(h, l, hand);
    if MergesLeft(h, q) || MergesRight(h, q) {
      var r := CoalesceOne(h, q);
      var l1 := CoalesceOneKeeps(h, l, hand, q);
      l' := CoalesceKeeps(r.h, l1, hand - {q} + {r.q}, r.q);
      assert hand - {q} + {r.q} - {r.q} == hand - {q};
    } else {
      StoppedAlone(h, l, hand, q);
      assert hand - {q} + {q} == hand;
      l' := l;
    }
  }

  lemma {:induction false} InHand(h: Heap, l: Layout, hand: set<Id>)
    requires Inv(h, l, hand)
    ensures hand <= h.store.Keys && l.cached <= h.store.Keys && l.cached !! hand && Numbered(h.store, h.nextId)
    ensures forall x :: x in h.active ==> x in h.store && x !in l.cached && x !in hand
  {
  }

  lemma {:induction false} InfoIsFree(h: Heap, l: Layout, hand: set<Id>, info: map<Id, Info>)
    requires Inv(h, l, hand)
    ensures Inv(h.(info := info), l, hand)
  {
  }

  lemma {:induction false} CacheKeeps(h: Heap, l: Layout, hand: set<Id>, q: Id) returns (l': Layout)
    requires Inv(h, l, hand) && q in hand && q in h.store
    ensures Inv(CacheSpan(h, q), l', hand - {q}) && Untouched(h, CacheSpan(h, q), l.cached, q)
  {
    hide Inv, Coalesce, Insert, Alone;
    var h0 := h.(info := h.info[q := NO_INFO]);
    InfoIsFree(h, l, hand, h0.info);
    var r := Coalesce(h0, q);
    var l1 := CoalesceKeeps(h0, l, hand, q);
    InsertKeeps(r.h, l1, hand - {q} + {r.q}, r.q);
    l' := l1.(cached := l1.cached + {r.q});
    InHand(h, l, hand);
    assert hand - {q} + {r.q} - {r.q} == hand - {q};
  }

  // ------------------------------------------------------------- operations

  /** `q` is handed out with exactly `n` pages; what was active is as before. */
  ghost predicate Serves(h: Heap, h': Heap, q: Id, n: nat) {
    && q !in h.active && h'.active == h.active + [q]
    && q in h'.store && h'.store[q].pages == n && q in h'.info && h'.info[q] == NO_INFO
    && SpansStay(h, h', h.active)
  }

  /** The listed spans and what the small-object tiers keep in them are unchanged. */
  ghost predicate SpansStay(h: Heap, h': Heap, list: seq<Id>) {
    && (forall x :: x in list ==> x in h.store && x in h'.store && h'.store[x] == h.store[x])
    && (forall x :: x in list && x in h.info ==> x in h'.info && h'.info[x] == h.info[x])
  }

  lemma {:induction false} NewExactKeeps(h: Heap, l: Layout, q: Id)
    requires Inv(h, l, {}) && q in l.cached && q in h.store
    ensures Inv(NewExact(h, q), l.(cached := l.cached - {q}), {})
    ensures Serves(h, NewExact(h, q), q, h.store[q].pages) && NewExact(h, q).store == h.store
  {
    hide Inv, Erase, Register;
    InHand(h, l, {});
    EraseKeeps(h, l, {}, q);
    ActivateKeeps(EraseCached(h, q), l.(cached := l.cached - {q}), {} + {q}, q);
    assert {} + {q} - {q} == {};
  }

  lemma {:induction false} TrimmedKeeps(h: Heap, l: Layout, q: Id, n: nat) returns (l': Layout)
    requires Inv(h, l, {}) && q in l.cached && q in h.store && 0 < n < h.store[q].pages
    ensures var h' := Trimmed(h, q, n);
      && Inv(h', l', {q}) && q in h'.store && h'.store[q] == h.store[q].(pages := n) && h'.active == h.active
      && SpansStay(h, h', h.active)
  {
    hide Inv, Erase, CacheSpan;
    InHand(h, l, {});
    EraseKeeps(h, l, {}, q);
    var l1 := l.(cached := l.cached - {q});
    var h1 := EraseCached(h, q);
    assert {} + {q} == {q};
    SplitKeeps(h1, l1, {q}, q, n);
    var l2 := l1.(owner := Cut(l1.owner, q, h1.store[q].start + n, h1.nextId));
    l' := CacheKeeps(Split(h1, q, n).h, l2, {q} + {h1.nextId}, h1.nextId);
    assert {q} + {h1.nextId} - {h1.nextId} == {q};
  }

  lemma {:induction false} NewSplitKeeps(h: Heap, l: Layout, q: Id, n: nat) returns (l': Layout)
    requires Inv(h, l, {}) && q in l.cached && q in h.store && 0 < n < h.store[q].pages
    ensures q in Trimmed(h, q, n).store
    ensures Inv(NewSplit(h, q, n), l', {}) && Serves(h, NewSplit(h, q, n), q, n)
    ensures NewSplit(h, q, n).store[q] == h.store[q].(pages := n)
  {
    hide Inv, Register, Trimmed;
    InHand(h, l, {});
    l' := TrimmedKeeps(h, l, q, n);
    ActivateKeeps(Trimmed(h, q, n), l', {q}, q);
    assert {q} - {q} == {};
  }

  /** No span has a page in the range. */
  ghost predicate Unused(store: map<Id, Span>, lo: nat, n: nat) {
    forall q, p :: q in store && lo <= p < lo + n ==> !store[q].Covers(p)
  }

  lemma {:induction false} NewSystemKeeps(h: Heap, l: Layout, n: nat, memory: nat) returns (l': Layout)
    requires Inv(h, l, {}) && n > 0 && Unused(h.store, memory, n)
    ensures Inv(NewSystem(h, n, memory), l', {}) && Serves(h, NewSystem(h, n, memory), h.nextId, n)
    ensures NewSystem(h, n, memory).store[h.nextId] == Span(memory, n, memory, n)
  {
    hide Inv, Register, Unused, IsFresh, PagesOf;
    UnusedIsFresh(h, l, n, memory);
    InHand(h, l, {});
    GrowKeeps(h, l, {}, n, memory);
    l' := Grant(l, memory, n, h.nextId);
    ActivateKeeps(Grown(h, n, memory), l', {} + {h.nextId}, h.nextId);
    assert {} + {h.nextId} - {h.nextId} == {};
  }

  lemma {:induction false} UnusedIsFresh(h: Heap, l: Layout, n: nat, memory: nat)
    requires Inv(h, l, {}) && Unused(h.store, memory, n)
    ensures IsFresh(l.owner, memory, n)
  {
  }

  lemma {:induction false} StillActive(h: Heap, l: Layout, q: Id)
    requires Inv(h, l, {})
    ensures forall x :: x in Without(h.active, q) <==> x in h.active && x != q
  {
    WithoutElements(h.active, q);
  }

  lemma {:induction false} ReleaseKeeps(h: Heap, l: Layout, q: Id) returns (l': Layout)
    requires Inv(h, l, {}) && q in h.active && q in h.store
    ensures Inv(Release(h, q), l', {})
    ensures Release(h, q).active == Without(h.active, q)
    ensures SpansStay(h, Release(h, q), Without(h.active, q))
  {
    hide Inv, CacheSpan, Unregister, Without;
    InHand(h, l, {});
    StillActive(h, l, q);
    DeactivateKeeps(h, l, {}, q);
    l' := CacheKeeps(Deactivate(h, q), l, {} + {q}, q);
    assert {} + {q} - {q} == {};
  }

  /** Frees the listed spans one after the other. */
  function FreeAll(h: Heap, order: seq<Id>): Heap
    decreases |order|
  {
    if order == [] || order[0] !in h.store then h else FreeAll(Free(h, order[0]), order[1..])
  }

  ghost function Elements(list: seq<Id>): set<Id> {
    set x | x in list
  }

  lemma {:induction false} FreeAllKeeps(h: Heap, l: Layout, order: seq<Id>) returns (l': Layout)
    requires Inv(h, l, {}) && Distinct(order) && Elements(order) <= l.cached && l.cached <= h.store.Keys
    requires forall q :: q in order ==> h.store[q].IsWhole()
    ensures Inv(FreeAll(h, order), l', {}) && l'.cached == l.cached - Elements(order)
    ensures FreeAll(h, order).store == h.store - Elements(order) && FreeAll(h, order).active == h.active
    decreases |order|
  {
    hide Inv, Erase;
    if order == [] {
      l' := l;
    } else {
      var q, rest := order[0], order[1..];
      assert order == [q] + rest && q in Elements(order);
      assert Elements(order) == Elements(rest) + {q};
      FreeKeeps(h, l, {}, q);
      InHand(h, l, {});
      l' := FreeAllKeeps(Free(h, q), Returned(l, h.store[q], q), rest);
    }
  }

  // ------------------------------------------------------------------- runs

  /** One critical section: serve from the list of `m`-page spans, commit a new
      system allocation, take a span back, or return whole allocations. */
  datatype Step = Take(n: nat, m: nat) | Grow(n: nat, memory: nat) | GiveBack(q: Id) | Purge(order: seq<Id>)

  /** An exact fit, or failing that the smallest larger size. */
  ghost predicate Fits(byPages: map<nat, seq<Id>>, n: nat, m: nat) {
    m in byPages && (m == n || (n !in byPages && m > n && forall k :: k in byPages && k > n ==> m <= k))
  }

  ghost predicate InCache(h: Heap, q: Id) {
    exists n :: n in h.cache.byPages && q in h.cache.byPages[n]
  }

  ghost predicate Takes(h: Heap, n: nat, m: nat, h': Heap) {
    && Fits(h.cache.byPages, n, m) && h.cache.byPages[m] != []
    && var q := h.cache.byPages[m][|h.cache.byPages[m]| - 1];
    && q in h.store
    && if m == n then h' == NewExact(h, q)
      else 0 < n < h.store[q].pages && q in Trimmed(h, q, n).store && h' == NewSplit(h, q, n)
  }

  ghost predicate Act(h: Heap, step: Step, h': Heap) {
    match step
    case Take(n, m) => n > 0 && Takes(h, n, m, h')
    case Grow(n, memory) => n > 0 && Unused(h.store, memory, n) && h' == NewSystem(h, n, memory)
    case GiveBack(q) => q in h.active && q in h.store && h' == Release(h, q)
    case Purge(order) =>
      && Distinct(order) && (forall q :: q in order <==> InCache(h, q) && q in h.store && h.store[q].IsWhole())
      && h' == FreeAll(h, order)
  }

  lemma {:induction false} CachedIsListed(h: Heap, l: Layout, hand: set<Id>)
    requires Inv(h, l, hand)
    ensures l.cached <= h.store.Keys && forall q :: InCache(h, q) <==> q in l.cached
  {
  }

  lemma {:induction false} ListedByLength(h: Heap, l: Layout, n: nat, q: Id)
    requires Inv(h, l, {})
    ensures n in h.cache.byPages && q in h.cache.byPages[n] <==> q in l.cached && q in h.store && h.store[q].pages == n
  {
  }

  lemma {:induction false} ListHolds(h: Heap, l: Layout, hand: set<Id>, m: nat)
    requires Inv(h, l, hand) && m in h.cache.byPages
    ensures h.cache.byPages[m] != []
    ensures forall q :: q in h.cache.byPages[m] ==> q in l.cached && q in h.store && h.store[q].pages == m
  {
  }

  /** The span taken for `n` pages has exactly `n` pages, and nothing cached fits
      better. */
  lemma {:induction false} TakeKeeps(h: Heap, l: Layout, n: nat, m: nat, h': Heap) returns (l': Layout, q: Id)
    requires Inv(h, l, {}) && n > 0 && Takes(h, n, m, h')
    ensures Inv(h', l', {}) && Serves(h, h', q, n)
    ensures q in l.cached && q in h.store && h.store[q].pages == m >= n
    ensures h'.store[q] == h.store[q].(pages := n)
    ensures forall x :: x in l.cached && x in h.store && h.store[x].pages >= n ==> m <= h.store[x].pages
  {
    ListHolds(h, l, {}, m);
    NoneBetter(h, l, n, m);
    hide Inv, Serves, NewExact, NewSplit, Trimmed, Fits;
    q := h.cache.byPages[m][|h.cache.byPages[m]| - 1];
    assert n <= m by { assert Fits(h.cache.byPages, n, m); FitIsEnough(h.cache.byPages, n, m); }
    if m == n {
      NewExactKeeps(h, l, q);
      l' := l.(cached := l.cached - {q});
    } else {
      l' := NewSplitKeeps(h, l, q, n);
    }
  }

  lemma {:induction false} FitIsEnough(byPages: map<nat, seq<Id>>, n: nat, m: nat)
    requires Fits(byPages, n, m)
    ensures n <= m
  {
  }

  lemma {:induction false} NoneBetter(h: Heap, l: Layout, n: nat, m: nat)
    requires Inv(h, l, {}) && Fits(h.cache.byPages, n, m)
    ensures forall x :: x in l.cached && x in h.store && h.store[x].pages >= n ==> m <= h.store[x].pages
  {
    hide Tiled, Mapped, Counted, Merged, ByStart, ByEnd, Sorted;
    forall x | x in l.cached && x in h.store && h.store[x].pages >= n ensures m <= h.store[x].pages {
      assert h.store[x].pages in h.cache.byPages;
    }
  }

  lemma {:induction false} PurgeKeeps(h: Heap, l: Layout, order: seq<Id>) returns (l': Layout)
    requires Inv(h, l, {}) && Act(h, Purge(order), FreeAll(h, order))
    ensures Inv(FreeAll(h, order), l', {}) && FreeAll(h, order).active == h.active
    ensures FreeAll(h, order).store == h.store - Elements(order)
  {
    CachedIsListed(h, l, {});
    l' := FreeAllKeeps(h, l, order);
  }

  lemma {:induction false} StepKeeps(h: Heap, l: Layout, step: Step, h': Heap) returns (l': Layout)
    requires Inv(h, l, {}) && Act(h, step, h')
    ensures Inv(h', l', {})
  {
    hide Inv, Takes, Unused, Serves, Release, NewSystem, FreeAll, InCache;
    match step
    case Take(n, m) => var q; l', q := TakeKeeps(h, l, n, m, h');
    case Grow(n, memory) => l' := NewSystemKeeps(h, l, n, memory);
    case GiveBack(q) => l' := ReleaseKeeps(h, l, q);
    case Purge(order) => l' := PurgeKeeps(h, l, order);
  }

  /** States of a run from the empty heap; each follows from the one before. */
  ghost predicate Run(trace: seq<Heap>, steps: seq<Step>) {
    && |trace| == |steps| + 1 && trace[0] == Empty()
    && forall i :: 0 <= i < |steps| ==> Act(trace[i], steps[i], trace[i + 1])
  }

  lemma {:induction false} RunKeeps(trace: seq<Heap>, steps: seq<Step>, i: nat) returns (l: Layout)
    requires Run(trace, steps) && i < |trace|
    ensures Inv(trace[i], l, {})
  {
    hide Inv, Act, Empty;
    if i == 0 {
      EmptyKeeps();
      l := Layout(map[], map[], {});
    } else {
      var before := RunKeeps(trace, steps, i - 1);
      assert Act(trace[i - 1], steps[i - 1], trace[i - 1 + 1]);
      l := StepKeeps(trace[i - 1], before, steps[i - 1], trace[i]);
    }
  }

  // --------------------------------------------------------------- theorems

  lemma {:induction false} PagesAddUp(store: map<Id, Span>, owner: map<nat, Id>, pages: map<nat, Id>,
                                      active: seq<Id>, cached: set<Id>)
    requires Owns(store, owner) && Mapped(pages, owner, active) && Sorted(store.Keys, active, cached, {})
    ensures |pages.Keys| + |CachedPages(owner, cached)| == |owner.Keys|
  {
    assert pages.Keys + CachedPages(owner, cached) == owner.Keys;
    SetPlus(pages.Keys, CachedPages(owner, cached));
  }

  lemma {:induction false} BytesAddUp(h: Heap, l: Layout)
    requires Inv(h, l, {})
    ensures h.activeBytes + h.cache.bytes == h.systemBytes
  {
    hide Mapped, Sorted, Owns, Indexed, Merged, CachedPages, Covered, Placed;
    PagesAddUp(h.store, l.owner, h.pageToSpan, h.active, l.cached);
  }

  /** Two spans never share a page, whatever they are used for. */
  lemma {:induction false} SpansAreDisjoint(h: Heap, l: Layout, a: Id, b: Id, p: nat)
    requires Inv(h, l, {}) && a in h.store && b in h.store && h.store[a].Covers(p) && h.store[b].Covers(p)
    ensures a == b
  {
    assert l.owner[p] == a;
  }

  lemma {:induction false} SortedOut(h: Heap, l: Layout)
    requires Inv(h, l, {})
    ensures forall q :: q in h.store ==> (q in h.active) != InCache(h, q)
    ensures forall a, b :: InCache(h, a) && InCache(h, b) ==>
      a in h.store && b in h.store && !CanMerge(h.store[a], h.store[b])
  {
    hide InCache, Tiled, Indexed, Mapped, Counted;
    CachedIsListed(h, l, {});
  }

  ghost predicate NoOverlap(store: map<Id, Span>) {
    forall a, b, p :: a in store && b in store && store[a].Covers(p) && store[b].Covers(p) ==> a == b
  }

  lemma {:induction false} NeverOverlap(h: Heap, l: Layout)
    requires Inv(h, l, {})
    ensures NoOverlap(h.store)
  {
    hide Inv;
    forall a, b, p | a in h.store && b in h.store && h.store[a].Covers(p) && h.store[b].Covers(p) ensures a == b {
      SpansAreDisjoint(h, l, a, b, p);
    }
  }

  /** In every reachable state the spans are disjoint, each is either active or
      cached, cached neighbours of one allocation do not exist, and the bytes of
      active and cached spans add up to the bytes obtained from the system. */
  lemma {:induction false} EveryRun(trace: seq<Heap>, steps: seq<Step>, i: nat)
    requires Run(trace, steps) && i < |trace|
    ensures trace[i].activeBytes + trace[i].cache.bytes == trace[i].systemBytes
    ensures NoOverlap(trace[i].store)
    ensures forall q :: q in trace[i].store ==> (q in trace[i].active) != InCache(trace[i], q)
    ensures forall a, b :: InCache(trace[i], a) && InCache(trace[i], b) ==>
      a in trace[i].store && b in trace[i].store && !CanMerge(trace[i].store[a], trace[i].store[b])
  {
    hide Inv, InCache, NoOverlap, CanMerge;
    var l := RunKeeps(trace, steps, i);
    BytesAddUp(trace[i], l);
    NeverOverlap(trace[i], l);
    SortedOut(trace[i], l);
  }

  /** In every reachable state each page of an allocation that any span is part of lies
      in exactly one span, and that span is part of the same allocation. */
  lemma {:induction false} AllocationsAreTiled(trace: seq<Heap>, steps: seq<Step>, i: nat, q: Id, p: nat)
    returns (x: Id)
    requires Run(trace, steps) && i < |trace| && q in trace[i].store
    requires trace[i].store[q].base <= p < trace[i].store[q].base + trace[i].store[q].allocPages
    ensures x in trace[i].store && trace[i].store[x].Covers(p) && trace[i].store[x].base == trace[i].store[q].base
    ensures forall y :: y in trace[i].store && trace[i].store[y].Covers(p) ==> y == x
  {
    var l := RunKeeps(trace, steps, i);
    hide Run, Merged, Counted, Indexed, Mapped, Sorted;
    var h := trace[i];
    assert Placed(h.store[q], l.allocs);
    assert Covered(h.store, l.owner, h.store[q].base, h.store[q].allocPages);
    x := l.owner[p];
  }

  /** In every reachable state the page map holds exactly the pages of active spans,
      and the indexes by length, by first page and by end exactly the cached spans. */
  lemma {:induction false} IndexesAreExact(trace: seq<Heap>, steps: seq<Step>, i: nat, k: nat, q: Id)
    requires Run(trace, steps) && i < |trace|
    ensures var h := trace[i];
      k in h.pageToSpan && h.pageToSpan[k] == q <==> q in h.active && q in h.store && h.store[q].Covers(k)
    ensures var h := trace[i];
      k in h.cache.byStart && h.cache.byStart[k] == q <==> InCache(h, q) && q in h.store && h.store[q].start == k
    ensures var h := trace[i];
      k in h.cache.byEnd && h.cache.byEnd[k] == q <==> InCache(h, q) && q in h.store && h.store[q].End() == k
    ensures var h := trace[i];
      k in h.cache.byPages && q in h.cache.byPages[k] <==> InCache(h, q) && q in h.store && h.store[q].pages == k
  {
    var l := RunKeeps(trace, steps, i);
    CachedIsListed(trace[i], l, {});
    ListedByLength(trace[i], l, k, q);
    hide Run, InCache, Merged, Counted, Covered, Placed, ByPages;
    var h := trace[i];
    if q in h.active && q in h.store && h.store[q].Covers(k) { assert l.owner[k] == q; }
  }

  /** An address is mapped to a span exactly when that span is active and holds it. */
  lemma {:induction false} MapObjectIsExact(h: Heap, l: Layout, address: nat, q: Id)
    requires Inv(h, l, {})
    ensures MapObject(h, address) == Some(q) <==> q in h.active && q in h.store && h.store[q].Covers(address / PAGE)
  {
    var p := address / PAGE;
    hide Merged, Counted, Indexed, Covered, Placed;
    if q in h.active && q in h.store && h.store[q].Covers(p) {
      assert l.owner[p] == q;
    }
  }

  /** The subtractions that guard against underflow never cut anything off. */
  lemma {:induction false} CountersNeverSaturate(h: Heap, l: Layout, q: Id)
    requires Inv(h, l, {}) && q in h.store
    ensures q in l.cached ==> h.cache.bytes >= h.store[q].pages * PAGE && h.systemBytes >= h.store[q].pages * PAGE
    ensures q in h.active ==> h.activeBytes >= h.store[q].pages * PAGE
  {
    hide Merged, Indexed, Covered, Placed, CachedPages;
    if q in l.cached {
      UncachedPages(h.store, l.owner, l.cached, q);
      BytesAddUp(h, l);
    } else {
      DeactivateMapped(h.store, l.owner, h.pageToSpan, h.active, q);
    }
  }

  /** With nothing active, each cached span is a whole allocation: merging has
      undone every split. */
  lemma {:induction false} IdleSpansAreWhole(h: Heap, l: Layout, q: Id)
    requires Inv(h, l, {}) && h.active == [] && q in h.store
    ensures q in l.cached && h.store[q].IsWhole()
  {
    hide Mapped, Counted, Indexed, CoversOwned;
    var s := h.store[q];
    assert Placed(s, l.allocs);
    assert Covered(h.store, l.owner, s.base, s.allocPages);
    if s.start > s.base {
      var x := l.owner[s.start - 1];
      assert Placed(h.store[x], l.allocs);
      Adjacent(h.store, l.owner, x, q);
    }
    if s.End() < s.base + s.allocPages {
      var x := l.owner[s.End()];
      assert Placed(h.store[x], l.allocs);
      Adjacent(h.store, l.owner, q, x);
    }
  }

  lemma {:induction false} Adjacent(store: map<Id, Span>, owner: map<nat, Id>, a: Id, b: Id)
    requires Owns(store, owner) && a in store && b in store && store[a].pages > 0 && store[b].pages > 0
    requires (store[b].start > 0 && store[a].Covers(store[b].start - 1)) || store[b].Covers(store[a].End())
    ensures store[a].End() == store[b].start
  {
    var s, t := store[a], store[b];
    assert s.Covers(s.End() - 1) && t.Covers(t.start) && s.Covers(s.start) && t.Covers(t.End() - 1);
    assert owner[s.End() - 1] == a && owner[t.start] == b;
    assert a == b || (!s.Covers(t.start) && !t.Covers(s.End() - 1));
  }

  /** A purge of an idle heap gives every byte back to the system. */
  lemma {:induction false} IdlePurgeReturnsEverything(h: Heap, l: Layout, order: seq<Id>)
    requires Inv(h, l, {}) && h.active == [] && Act(h, Purge(order), FreeAll(h, order))
    ensures var h' := FreeAll(h, order);
      h'.store == map[] && h'.systemBytes == 0 && h'.cache.bytes == 0 && h'.activeBytes == 0
  {
    var l' := PurgeKeeps(h, l, order);
    CachedIsListed(h, l, {});
    forall q | q in h.store ensures q in order {
      IdleSpansAreWhole(h, l, q);
    }
    assert h.store - Elements(order) == map[];
    EmptyCounters(FreeAll(h, order), l');
  }

  lemma {:induction false} EmptyCounters(h: Heap, l: Layout)
    requires Inv(h, l, {}) && h.store == map[]
    ensures h.systemBytes == 0 && h.cache.bytes == 0 && h.activeBytes == 0
  {
    assert l.owner.Keys == {};
    assert h.pageToSpan.Keys == {} && CachedPages(l.owner, l.cached) == {};
  }

  lemma {:induction false} CacheAlone(h: Heap, q: Id)
    requires q in h.store && !MergesLeft(h, q) && !MergesRight(h, q)
    ensures CacheSpan(h, q) == InsertCached(h.(info := h.info[q := NO_INFO]), q)
  {
    var h0 := h.(info := h.info[q := NO_INFO]);
    assert !MergesLeft(h0, q) && !MergesRight(h0, q);
  }

  /** The span cached last is the first to be used again: a span that is given back and
      has no free neighbour serves the next request for as many pages. */
  lemma {:induction false} NewestIsReused(h: Heap, q: Id, h': Heap)
    requires q in h.active && q in h.store && h.store[q].pages > 0
    requires !MergesLeft(Deactivate(h, q), q) && !MergesRight(Deactivate(h, q), q)
    requires Takes(Release(h, q), h.store[q].pages, h.store[q].pages, h')
    ensures h'.active == Without(h.active, q) + [q] && h'.store == h.store
  {
    CacheAlone(Deactivate(h, q), q);
    hide MergesLeft, MergesRight, Register, Unregister, Without, Fits, CacheSpan;
  }
}
