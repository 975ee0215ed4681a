/** What every operation of the page heap keeps: the spans tile the live
    allocations, every index agrees with the spans, the byte counters are exact,
    and cached neighbours are always merged. */
module PageHeapInvariant {
  import opened Common
  import opened PageHeap

  /** Who owns each page; the live allocations by first page, with their lengths;
      and which spans are cached. */
  datatype Layout = Layout(owner: map<nat, Id>, allocs: map<nat, nat>, cached: set<Id>)

  // ------------------------------------------------------------ the invariant

  /** A span lies within a live allocation. */
  ghost predicate Placed(s: Span, allocs: map<nat, nat>) {
    && s.pages > 0 && s.base in allocs && s.allocPages == allocs[s.base]
    && s.base <= s.start && s.End() <= s.base + s.allocPages
  }

  ghost predicate OwnersCover(store: map<Id, Span>, owner: map<nat, Id>) {
    forall p :: p in owner ==> owner[p] in store && store[owner[p]].Covers(p)
  }

  ghost predicate CoversOwned(store: map<Id, Span>, owner: map<nat, Id>) {
    forall q, p :: q in store && store[q].Covers(p) ==> p in owner && owner[p] == q
  }

  /** Each owned page lies in its owner's span and in no other. */
  ghost predicate Owns(store: map<Id, Span>, owner: map<nat, Id>) {
    OwnersCover(store, owner) && CoversOwned(store, owner)
  }

  /** Each page of an allocation is owned, by a span of that allocation. */
  ghost predicate Covered(store: map<Id, Span>, owner: map<nat, Id>, b: nat, n: nat) {
    n > 0 && forall p :: b <= p < b + n ==> p in owner && owner[p] in store && store[owner[p]].base == b
  }

  ghost predicate Tiled(store: map<Id, Span>, owner: map<nat, Id>, allocs: map<nat, nat>) {
    && (forall q :: q in store ==> Placed(store[q], allocs))
    && Owns(store, owner)
    && (forall b :: b in allocs ==> Covered(store, owner, b, allocs[b]))
  }

  /** Each span is active, cached, or in hand, and only one of these. */
  ghost predicate Sorted(ids: set<Id>, active: seq<Id>, cached: set<Id>, hand: set<Id>) {
    && Distinct(active)
    && cached <= ids && hand <= ids && cached !! hand
    && (forall q :: q in active ==> q in ids && q !in cached && q !in hand)
    && (forall q :: q in ids ==> q in active || q in cached || q in hand)
  }

  ghost predicate ByPages(store: map<Id, Span>, byPages: map<nat, seq<Id>>, cached: set<Id>) {
    && (forall n :: n in byPages ==> byPages[n] != [] && Distinct(byPages[n]))
    && (forall n, q :: n in byPages && q in byPages[n] ==> q in store && store[q].pages == n && q in cached)
    && (forall q :: q in cached ==> q in store && store[q].pages in byPages && q in byPages[store[q].pages])
  }

  ghost predicate ByStart(store: map<Id, Span>, byStart: map<nat, Id>, cached: set<Id>) {
    && (forall q :: q in cached ==> q in store && store[q].start in byStart && byStart[store[q].start] == q)
    && (forall k :: k in byStart ==> byStart[k] in cached && byStart[k] in store && store[byStart[k]].start == k)
  }

  ghost predicate ByEnd(store: map<Id, Span>, byEnd: map<nat, Id>, cached: set<Id>) {
    && (forall q :: q in cached ==> q in store && store[q].End() in byEnd && byEnd[store[q].End()] == q)
    && (forall k :: k in byEnd ==> byEnd[k] in cached && byEnd[k] in store && store[byEnd[k]].End() == k)
  }

  /** The three indexes hold exactly the cached spans. */
  ghost predicate Indexed(store: map<Id, Span>, c: Cache, cached: set<Id>) {
    ByPages(store, c.byPages, cached) && ByStart(store, c.byStart, cached) && ByEnd(store, c.byEnd, cached)
  }

  /** The page map holds exactly the pages of the active spans. */
  ghost predicate Mapped(pages: map<nat, Id>, owner: map<nat, Id>, active: seq<Id>) {
    && (forall p :: p in pages ==> p in owner && owner[p] in active && pages[p] == owner[p])
    && (forall p :: p in owner && owner[p] in active ==> p in pages)
  }

  ghost function CachedPages(owner: map<nat, Id>, cached: set<Id>): set<nat> {
    set p | p in owner && owner[p] in cached
  }

  ghost predicate Counted(h: Heap, l: Layout) {
    && h.activeBytes == PAGE * |h.pageToSpan.Keys|
    && h.cache.bytes == PAGE * |CachedPages(l.owner, l.cached)|
    && h.systemBytes == PAGE * |l.owner.Keys|
  }

  /** No two cached spans of one allocation are adjacent. */
  ghost predicate Merged(store: map<Id, Span>, cached: set<Id>)
    requires cached <= store.Keys
  {
    forall a, b :: a in cached && b in cached ==> !CanMerge(store[a], store[b])
  }

  ghost predicate Numbered(store: map<Id, Span>, nextId: Id) {
    forall q :: q in store ==> q < nextId
  }

  ghost predicate Inv(h: Heap, l: Layout, hand: set<Id>) {
    && Tiled(h.store, l.owner, l.allocs) && Numbered(h.store, h.nextId)
    && Sorted(h.store.Keys, h.active, l.cached, hand)
    && Indexed(h.store, h.cache, l.cached)
    && Mapped(h.pageToSpan, l.owner, h.active)
    && Counted(h, l) && Merged(h.store, l.cached)
  }

  lemma {:induction false} EmptyKeeps()
    ensures Inv(Empty(), Layout(map[], map[], {}), {})
  {
  }

  // -------------------------------------------------------- lists, sets, pages

  lemma {:induction false} WithoutElements(list: seq<Id>, q: Id)
    requires Distinct(list)
    ensures Distinct(Without(list, q))
    ensures forall x :: x in Without(list, q) <==> x in list && x != q
  {
    if list != [] {
      var tail := list[1..];
      WithoutElements(tail, q);
      assert list == [list[0]] + tail;
      assert list[0] !in tail;
    }
  }

  /** `n` consecutive pages from `lo`. */
  ghost function Range(lo: nat, n: nat): (r: set<nat>)
    ensures |r| == n && forall p :: p in r <==> lo <= p < lo + n
  {
    if n == 0 then {} else Range(lo, n - 1) + {lo + n - 1}
  }

  ghost function PagesOf(s: Span): set<nat> {
    Range(s.start, s.pages)
  }

  lemma {:induction false} RegisterAt(pages: map<nat, Id>, lo: nat, n: nat, q: Id, p: nat)
    ensures p in Register(pages, lo, n, q) <==> p in pages || lo <= p < lo + n
    ensures p in pages && !(lo <= p < lo + n) ==> Register(pages, lo, n, q)[p] == pages[p]
    ensures lo <= p < lo + n ==> Register(pages, lo, n, q)[p] == q
  {
    if n > 0 {
      RegisterAt(pages, lo, n - 1, q, p);
    }
  }

  lemma {:induction false} RegisterPages(pages: map<nat, Id>, lo: nat, n: nat, q: Id)
    ensures forall p: nat :: p in Register(pages, lo, n, q) <==> p in pages || lo <= p < lo + n
    ensures forall p :: p in Register(pages, lo, n, q) ==>
      Register(pages, lo, n, q)[p] == if lo <= p < lo + n then q else pages[p]
  {
    forall p: nat ensures p in Register(pages, lo, n, q) <==> p in pages || lo <= p < lo + n {
      RegisterAt(pages, lo, n, q, p);
    }
    forall p | p in Register(pages, lo, n, q)
      ensures Register(pages, lo, n, q)[p] == if lo <= p < lo + n then q else pages[p]
    {
      RegisterAt(pages, lo, n, q, p);
    }
  }

  lemma {:induction false} UnregisterPages(pages: map<nat, Id>, lo: nat, n: nat)
    ensures Unregister(pages, lo, n) == pages - Range(lo, n)
  {
    if n > 0 {
      UnregisterPages(pages, lo, n - 1);
    }
  }

  lemma {:induction false} SetMinus(a: set<nat>, b: set<nat>)
    requires b <= a
    ensures |a - b| == |a| - |b|
  {
    assert a == (a - b) + b;
  }

  lemma {:induction false} SetPlus(a: set<nat>, b: set<nat>)
    requires a !! b
    ensures |a + b| == |a| + |b|
  {
  }

  lemma {:induction false} OwnedPages(store: map<Id, Span>, owner: map<nat, Id>, q: Id)
    requires Owns(store, owner) && q in store
    ensures forall p :: p in PagesOf(store[q]) <==> p in owner && owner[p] == q
  {
  }

  // -------------------------------------------------- in and out of the cache

  lemma {:induction false} ErasePages(store: map<Id, Span>, byPages: map<nat, seq<Id>>, cached: set<Id>, q: Id)
    requires ByPages(store, byPages, cached) && q in cached
    ensures ByPages(store, Unlisted(byPages, store[q].pages, q), cached - {q})
  {
    WithoutElements(byPages[store[q].pages], q);
  }

  lemma {:induction false} EraseEnds(store: map<Id, Span>, c: Cache, cached: set<Id>, q: Id)
    requires ByStart(store, c.byStart, cached) && ByEnd(store, c.byEnd, cached) && q in cached
    ensures ByStart(store, c.byStart - {store[q].start}, cached - {q})
    ensures ByEnd(store, c.byEnd - {store[q].End()}, cached - {q})
  {
  }

  lemma {:induction false} UncachedPages(store: map<Id, Span>, owner: map<nat, Id>, cached: set<Id>, q: Id)
    requires Owns(store, owner) && q in cached && q in store
    ensures |CachedPages(owner, cached - {q})| == |CachedPages(owner, cached)| - store[q].pages
  {
    OwnedPages(store, owner, q);
    var pages := PagesOf(store[q]);
    assert CachedPages(owner, cached - {q}) == CachedPages(owner, cached) - pages;
    SetMinus(CachedPages(owner, cached), pages);
  }

  lemma {:induction false} EraseSorted(h: Heap, l: Layout, hand: set<Id>, q: Id)
    requires Sorted(h.store.Keys, h.active, l.cached, hand) && Merged(h.store, l.cached) && q in l.cached
    ensures Sorted(h.store.Keys, h.active, l.cached - {q}, hand + {q}) && Merged(h.store, l.cached - {q})
  {
  }

  lemma {:induction false} EraseKeeps(h: Heap, l: Layout, hand: set<Id>, q: Id)
    requires Inv(h, l, hand) && q in l.cached
    ensures Inv(EraseCached(h, q), l.(cached := l.cached - {q}), hand + {q})
  {
    hide Placed, Covered, ByPages, ByStart, ByEnd, Mapped, CachedPages, Merged, Numbered, Distinct, Unlisted;
    EraseSorted(h, l, hand, q);
    ErasePages(h.store, h.cache.byPages, l.cached, q);
    EraseEnds(h.store, h.cache, l.cached, q);
    UncachedPages(h.store, l.owner, l.cached, q);
  }

  /** Nothing cached can be merged with `q`. */
  ghost predicate Alone(store: map<Id, Span>, cached: set<Id>, q: Id)
    requires q in store && cached <= store.Keys
  {
    forall x :: x in cached ==> !CanMerge(store[x], store[q]) && !CanMerge(store[q], store[x])
  }

  lemma {:induction false} InsertPages(store: map<Id, Span>, byPages: map<nat, seq<Id>>, cached: set<Id>, q: Id)
    requires ByPages(store, byPages, cached) && q in store && q !in cached
    ensures ByPages(store, Listed(byPages, store[q].pages, q), cached + {q})
  {
  }

  lemma {:induction false} InsertEnds(store: map<Id, Span>, owner: map<nat, Id>, c: Cache, cached: set<Id>, q: Id)
    requires Owns(store, owner) && ByStart(store, c.byStart, cached) && ByEnd(store, c.byEnd, cached)
    requires q in store && q !in cached && forall x :: x in store ==> store[x].pages > 0
    ensures ByStart(store, c.byStart[store[q].start := q], cached + {q})
    ensures ByEnd(store, c.byEnd[store[q].End() := q], cached + {q})
  {
    var s := store[q];
    forall x | x in cached ensures store[x].start != s.start && store[x].End() != s.End() {
      var t := store[x];
      assert t.Covers(t.start) && s.Covers(s.start);
      assert owner[t.start] == x && owner[s.start] == q;
      assert t.Covers(t.End() - 1) && s.Covers(s.End() - 1);
      assert owner[t.End() - 1] == x && owner[s.End() - 1] == q;
    }
  }

  lemma {:induction false} RecachedPages(store: map<Id, Span>, owner: map<nat, Id>, cached: set<Id>, q: Id)
    requires Owns(store, owner) && q !in cached && q in store
    ensures |CachedPages(owner, cached + {q})| == |CachedPages(owner, cached)| + store[q].pages
  {
    UncachedPages(store, owner, cached + {q}, q);
    assert cached + {q} - {q} == cached;
  }

  lemma {:induction false} InsertSorted(h: Heap, l: Layout, hand: set<Id>, q: Id)
    requires Sorted(h.store.Keys, h.active, l.cached, hand) && Merged(h.store, l.cached)
    requires q in hand && h.store[q].pages > 0 && Alone(h.store, l.cached, q)
    ensures Sorted(h.store.Keys, h.active, l.cached + {q}, hand - {q}) && Merged(h.store, l.cached + {q})
  {
  }

  lemma {:induction false} InsertKeeps(h: Heap, l: Layout, hand: set<Id>, q: Id)
    requires Inv(h, l, hand) && q in hand && Alone(h.store, l.cached, q)
    ensures Inv(InsertCached(h, q), l.(cached := l.cached + {q}), hand - {q})
  {
    hide Covered, ByPages, ByStart, ByEnd, Mapped, CachedPages, Merged, Numbered, Distinct, Listed, Alone;
    InsertSorted(h, l, hand, q);
    InsertPages(h.store, h.cache.byPages, l.cached, q);
    InsertEnds(h.store, l.owner, h.cache, l.cached, q);
    RecachedPages(h.store, l.owner, l.cached, q);
  }

  // ------------------------------------------------------ merging and splitting

  /** The pages of `b` pass to `a`. */
  ghost function Handed(owner: map<nat, Id>, a: Id, b: Id): map<nat, Id> {
    map p | p in owner :: if owner[p] == b then a else owner[p]
  }

  lemma {:induction false} JoinedOwns(store: map<Id, Span>, owner: map<nat, Id>, a: Id, b: Id)
    requires Owns(store, owner) && a in store && b in store && a != b && store[a].End() == store[b].start
    ensures Owns(Joined(store, a, b), Handed(owner, a, b))
  {
    var store', owner' := Joined(store, a, b), Handed(owner, a, b);
    assert OwnersCover(store', owner') by { hide CoversOwned; }
    forall q, p | q in store' && store'[q].Covers(p) ensures p in owner' && owner'[p] == q {
      hide OwnersCover;
      assert q != a ==> store[q].Covers(p);
      assert q == a ==> store[a].Covers(p) || store[b].Covers(p);
    }
  }

  lemma {:induction false} JoinedTiled(store: map<Id, Span>, owner: map<nat, Id>, allocs: map<nat, nat>, a: Id, b: Id)
    requires Tiled(store, owner, allocs) && a in store && b in store && a != b && CanMerge(store[a], store[b])
    ensures Tiled(Joined(store, a, b), Handed(owner, a, b), allocs)
  {
    JoinedOwns(store, owner, a, b);
    forall k | k in allocs ensures Covered(Joined(store, a, b), Handed(owner, a, b), k, allocs[k]) {
      assert Covered(store, owner, k, allocs[k]);
    }
  }

  /** A change to spans that are not cached leaves the indexes right. */
  lemma {:induction false} IndexedSame(store: map<Id, Span>, store': map<Id, Span>, c: Cache, cached: set<Id>)
    requires Indexed(store, c, cached) && cached <= store.Keys && Merged(store, cached)
    requires forall q :: q in cached ==> q in store' && store'[q] == store[q]
    ensures Indexed(store', c, cached) && Merged(store', cached)
  {
  }

  lemma {:induction false} HandedSame(owner: map<nat, Id>, pages: map<nat, Id>, active: seq<Id>, cached: set<Id>,
                                      a: Id, b: Id)
    requires Mapped(pages, owner, active) && a !in active && b !in active && a !in cached && b !in cached
    ensures Mapped(pages, Handed(owner, a, b), active)
    ensures CachedPages(Handed(owner, a, b), cached) == CachedPages(owner, cached)
    ensures Handed(owner, a, b).Keys == owner.Keys
  {
  }

  lemma {:induction false} JoinedSorted(
      store: map<Id, Span>, active: seq<Id>, cached: set<Id>, hand: set<Id>, nextId: Id, a: Id, b: Id)
    requires Sorted(store.Keys, active, cached, hand) && Numbered(store, nextId) && a in hand && b in hand && a != b
    ensures Sorted(Joined(store, a, b).Keys, active, cached, hand - {b}) && Numbered(Joined(store, a, b), nextId)
    ensures a in store && b in store && a !in active && b !in active && a !in cached && b !in cached &&
            cached <= store.Keys
    ensures forall q :: q in cached ==> q in Joined(store, a, b) && Joined(store, a, b)[q] == store[q]
  {
  }

  lemma {:induction false} MergeKeeps(h: Heap, l: Layout, hand: set<Id>, a: Id, b: Id)
    requires Inv(h, l, hand) && a in hand && b in hand && a != b && CanMerge(h.store[a], h.store[b])
    ensures Inv(Merge(h, a, b), l.(owner := Handed(l.owner, a, b)), hand - {b})
  {
    hide Tiled, Indexed, Mapped, CachedPages, Merged, Handed, Sorted, Joined;
    JoinedSorted(h.store, h.active, l.cached, hand, h.nextId, a, b);
    JoinedTiled(h.store, l.owner, l.allocs, a, b);
    IndexedSame(h.store, Joined(h.store, a, b), h.cache, l.cached);
    HandedSame(l.owner, h.pageToSpan, h.active, l.cached, a, b);
  }

  /** Pages from `k` on of span `q` pass to `r`. */
  ghost function Cut(owner: map<nat, Id>, q: Id, k: nat, r: Id): map<nat, Id> {
    map p | p in owner :: if owner[p] == q && p >= k then r else owner[p]
  }

  lemma {:induction false} HalvesCover(store: map<Id, Span>, owner: map<nat, Id>, q: Id, n: nat, r: Id)
    requires OwnersCover(store, owner) && q in store && 0 < n < store[q].pages && r !in store
    ensures OwnersCover(Halves(store, q, n, r), Cut(owner, q, store[q].start + n, r))
  {
  }

  lemma {:induction false} HalvesOwn(store: map<Id, Span>, owner: map<nat, Id>, q: Id, n: nat, r: Id)
    requires Owns(store, owner) && q in store && 0 < n < store[q].pages && r !in store
    ensures Owns(Halves(store, q, n, r), Cut(owner, q, store[q].start + n, r))
  {
    var store', owner' := Halves(store, q, n, r), Cut(owner, q, store[q].start + n, r);
    HalvesCover(store, owner, q, n, r);
    assert forall p :: p in owner ==> owner[p] != r;
    hide OwnersCover;
    forall x, p | x in store' && store'[x].Covers(p) ensures p in owner' && owner'[p] == x {
      assert store[if x == r then q else x].Covers(p);
    }
  }

  lemma {:induction false} HalvesTiled(
      store: map<Id, Span>, owner: map<nat, Id>, allocs: map<nat, nat>, q: Id, n: nat, r: Id)
    requires Tiled(store, owner, allocs) && q in store && 0 < n < store[q].pages && r !in store
    ensures Tiled(Halves(store, q, n, r), Cut(owner, q, store[q].start + n, r), allocs)
  {
    HalvesOwn(store, owner, q, n, r);
    hide Owns;
    forall k | k in allocs
      ensures Covered(Halves(store, q, n, r), Cut(owner, q, store[q].start + n, r), k, allocs[k])
    {
      assert Covered(store, owner, k, allocs[k]);
    }
  }

  lemma {:induction false} CutSame(owner: map<nat, Id>, pages: map<nat, Id>, active: seq<Id>, cached: set<Id>, q: Id,
                                   k: nat, r: Id)
    requires Mapped(pages, owner, active) && q !in active && r !in active && q !in cached && r !in cached
    ensures Mapped(pages, Cut(owner, q, k, r), active)
    ensures CachedPages(Cut(owner, q, k, r), cached) == CachedPages(owner, cached)
    ensures Cut(owner, q, k, r).Keys == owner.Keys
  {
  }

  lemma {:induction false} HalvesSorted(
      store: map<Id, Span>, active: seq<Id>, cached: set<Id>, hand: set<Id>, q: Id, n: nat, r: Id)
    requires Sorted(store.Keys, active, cached, hand) && Numbered(store, r) && q in hand && n < store[q].pages
    ensures Sorted(Halves(store, q, n, r).Keys, active, cached, hand + {r}) && Numbered(Halves(store, q, n, r), r + 1)
    ensures q in store && r !in store && q !in active && r !in active && q !in cached && r !in cached &&
            cached <= store.Keys
    ensures forall x :: x in cached ==> x in Halves(store, q, n, r) && Halves(store, q, n, r)[x] == store[x]
  {
  }

  lemma {:induction false} SplitKeeps(h: Heap, l: Layout, hand: set<Id>, q: Id, n: nat)
    requires Inv(h, l, hand) && q in hand && 0 < n < h.store[q].pages
    ensures Inv(Split(h, q, n).h, l.(owner := Cut(l.owner, q, h.store[q].start + n, h.nextId)), hand + {h.nextId})
  {
    hide Tiled, Indexed, Mapped, CachedPages, Merged, Cut, Sorted, Halves;
    HalvesSorted(h.store, h.active, l.cached, hand, q, n, h.nextId);
    HalvesTiled(h.store, l.owner, l.allocs, q, n, h.nextId);
    IndexedSame(h.store, Halves(h.store, q, n, h.nextId), h.cache, l.cached);
    CutSame(l.owner, h.pageToSpan, h.active, l.cached, q, h.store[q].start + n, h.nextId);
  }

  // ------------------------------------------------- handing out, taking back

  lemma {:induction false} ActivateMapped(
      store: map<Id, Span>, owner: map<nat, Id>, pages: map<nat, Id>, active: seq<Id>, q: Id)
    requires Owns(store, owner) && Mapped(pages, owner, active) && q in store && q !in active
    ensures Mapped(Register(pages, store[q].start, store[q].pages, q), owner, active + [q])
  {
    RegisterPages(pages, store[q].start, store[q].pages, q);
    OwnedPages(store, owner, q);
    hide Owns;
  }

  lemma {:induction false} ActivateCount(
      store: map<Id, Span>, owner: map<nat, Id>, pages: map<nat, Id>, active: seq<Id>, q: Id)
    requires Owns(store, owner) && Mapped(pages, owner, active) && q in store && q !in active
    ensures |Register(pages, store[q].start, store[q].pages, q).Keys| == |pages.Keys| + store[q].pages
  {
    RegisterPages(pages, store[q].start, store[q].pages, q);
    OwnedPages(store, owner, q);
    hide Owns;
    assert Register(pages, store[q].start, store[q].pages, q).Keys == pages.Keys + PagesOf(store[q]);
    SetPlus(pages.Keys, PagesOf(store[q]));
  }

  lemma {:induction false} ActivateSorted(ids: set<Id>, active: seq<Id>, cached: set<Id>, hand: set<Id>, q: Id)
    requires Sorted(ids, active, cached, hand) && q in hand
    ensures Sorted(ids, active + [q], cached, hand - {q})
  {
  }

  lemma {:induction false} ActivateKeeps(h: Heap, l: Layout, hand: set<Id>, q: Id)
    requires Inv(h, l, hand) && q in hand
    ensures Inv(Activate(h, q), l, hand - {q})
  {
    hide Placed, Covered, Indexed, Mapped, CachedPages, Merged, Distinct, Register, Owns;
    ActivateMapped(h.store, l.owner, h.pageToSpan, h.active, q);
    ActivateCount(h.store, l.owner, h.pageToSpan, h.active, q);
    ActivateSorted(h.store.Keys, h.active, l.cached, hand, q);
  }

  lemma {:induction false} DeactivateMapped(
      store: map<Id, Span>, owner: map<nat, Id>, pages: map<nat, Id>, active: seq<Id>, q: Id)
    requires Owns(store, owner) && Mapped(pages, owner, active) && q in store && q in active && Distinct(active)
    ensures var pages' := Unregister(pages, store[q].start, store[q].pages);
      Mapped(pages', owner, Without(active, q)) && |pages'.Keys| == |pages.Keys| - store[q].pages
  {
    UnregisterPages(pages, store[q].start, store[q].pages);
    OwnedPages(store, owner, q);
    WithoutElements(active, q);
    SetMinus(pages.Keys, PagesOf(store[q]));
    assert (pages - PagesOf(store[q])).Keys == pages.Keys - PagesOf(store[q]);
  }

  lemma {:induction false} DeactivateSorted(ids: set<Id>, active: seq<Id>, cached: set<Id>, hand: set<Id>, q: Id)
    requires Sorted(ids, active, cached, hand) && q in active
    ensures Sorted(ids, Without(active, q), cached, hand + {q})
  {
    WithoutElements(active, q);
  }

  lemma {:induction false} DeactivateKeeps(h: Heap, l: Layout, hand: set<Id>, q: Id)
    requires Inv(h, l, hand) && q in h.active
    ensures Inv(Deactivate(h, q), l, hand + {q})
  {
    hide Placed, Covered, Indexed, Mapped, CachedPages, Merged, Distinct, Unregister, Owns, Without;
    DeactivateMapped(h.store, l.owner, h.pageToSpan, h.active, q);
    DeactivateSorted(h.store.Keys, h.active, l.cached, hand, q);
  }

  // ------------------------------------------------------- system allocations

  /** The system hands out memory that overlaps nothing live. */
  ghost predicate IsFresh(owner: map<nat, Id>, lo: nat, n: nat) {
    forall p :: lo <= p < lo + n ==> p !in owner
  }

  ghost function Grant(l: Layout, lo: nat, n: nat, q: Id): Layout {
    l.(owner := Register(l.owner, lo, n, q), allocs := l.allocs[lo := n])
  }

  lemma {:induction false} GrownOwns(store: map<Id, Span>, owner: map<nat, Id>, lo: nat, n: nat, q: Id)
    requires Owns(store, owner) && q !in store && IsFresh(owner, lo, n)
    ensures Owns(store[q := Span(lo, n, lo, n)], Register(owner, lo, n, q))
  {
    RegisterPages(owner, lo, n, q);
  }

  lemma {:induction false} StaysCovered(store: map<Id, Span>, owner: map<nat, Id>, k: nat, m: nat, lo: nat, n: nat,
                                        q: Id)
    requires Covered(store, owner, k, m) && q !in store && IsFresh(owner, lo, n)
    ensures Covered(store[q := Span(lo, n, lo, n)], Register(owner, lo, n, q), k, m)
  {
    RegisterPages(owner, lo, n, q);
    assert forall p :: k <= p < k + m ==> p in owner;
    assert forall p :: p in owner ==> !(lo <= p < lo + n);
  }

  lemma {:induction false} CoveredBase(store: map<Id, Span>, owner: map<nat, Id>, b: nat, n: nat)
    requires Covered(store, owner, b, n)
    ensures b in owner
  {
  }

  lemma {:induction false} GrownTiled(
      store: map<Id, Span>, owner: map<nat, Id>, allocs: map<nat, nat>, lo: nat, n: nat, q: Id)
    requires Tiled(store, owner, allocs) && q !in store && n > 0 && IsFresh(owner, lo, n)
    ensures Tiled(store[q := Span(lo, n, lo, n)], Register(owner, lo, n, q), allocs[lo := n])
  {
    GrownOwns(store, owner, lo, n, q);
    RegisterPages(owner, lo, n, q);
    if lo in allocs { CoveredBase(store, owner, lo, allocs[lo]); }
    forall k | k in allocs
      ensures Covered(store[q := Span(lo, n, lo, n)], Register(owner, lo, n, q), k, allocs[k])
    {
      StaysCovered(store, owner, k, allocs[k], lo, n, q);
    }
  }

  lemma {:induction false} GrownSame(owner: map<nat, Id>, pages: map<nat, Id>, active: seq<Id>, cached: set<Id>,
                                     lo: nat, n: nat, q: Id)
    requires Mapped(pages, owner, active) && q !in active && q !in cached && IsFresh(owner, lo, n)
    ensures Mapped(pages, Register(owner, lo, n, q), active)
    ensures CachedPages(Register(owner, lo, n, q), cached) == CachedPages(owner, cached)
    ensures |Register(owner, lo, n, q).Keys| == |owner.Keys| + n
  {
    RegisterPages(owner, lo, n, q);
    assert Register(owner, lo, n, q).Keys == owner.Keys + Range(lo, n);
    SetPlus(owner.Keys, Range(lo, n));
  }

  lemma {:induction false} GrowKeeps(h: Heap, l: Layout, hand: set<Id>, n: nat, memory: nat)
    requires Inv(h, l, hand) && n > 0 && IsFresh(l.owner, memory, n)
    ensures Inv(Grown(h, n, memory), Grant(l, memory, n, h.nextId), hand + {h.nextId})
  {
    hide Tiled, Indexed, Mapped, CachedPages, Merged, Distinct, Register, IsFresh;
    assert h.nextId !in h.store;
    GrownTiled(h.store, l.owner, l.allocs, memory, n, h.nextId);
    IndexedSame(h.store, Grown(h, n, memory).store, h.cache, l.cached);
    GrownSame(l.owner, h.pageToSpan, h.active, l.cached, memory, n, h.nextId);
  }

  ghost function Returned(l: Layout, s: Span, q: Id): Layout {
    Layout(l.owner - PagesOf(s), l.allocs - {s.base}, l.cached - {q})
  }

  lemma {:induction false} FreedOwns(store: map<Id, Span>, owner: map<nat, Id>, q: Id)
    requires Owns(store, owner) && q in store
    ensures Owns(store - {q}, owner - PagesOf(store[q]))
  {
    OwnedPages(store, owner, q);
  }

  /** A span that is a whole allocation is that allocation's only span. */
  lemma {:induction false} WholeIsOnly(store: map<Id, Span>, owner: map<nat, Id>, allocs: map<nat, nat>, q: Id, x: Id)
    requires Tiled(store, owner, allocs) && q in store && store[q].IsWhole() && x in store && x != q
    ensures store[x].base != store[q].base
  {
    hide Covered, OwnersCover;
    var s, t := store[q], store[x];
    assert Placed(t, allocs) && Placed(s, allocs);
    assert t.Covers(t.start) && owner[t.start] == x;
    assert !s.Covers(t.start);
  }

  lemma {:induction false} FreedCovered(store: map<Id, Span>, owner: map<nat, Id>, k: nat, n: nat, q: Id)
    requires Covered(store, owner, k, n) && q in store && store[q].base != k
    requires forall p :: p in PagesOf(store[q]) ==> p in owner && owner[p] == q
    ensures Covered(store - {q}, owner - PagesOf(store[q]), k, n)
  {
    hide PagesOf;
  }

  lemma {:induction false} FreedTiled(store: map<Id, Span>, owner: map<nat, Id>, allocs: map<nat, nat>, q: Id)
    requires Tiled(store, owner, allocs) && q in store && store[q].IsWhole()
    ensures Tiled(store - {q}, owner - PagesOf(store[q]), allocs - {store[q].base})
  {
    var s := store[q];
    FreedOwns(store, owner, q);
    OwnedPages(store, owner, q);
    forall x | x in store && x != q ensures store[x].base != s.base {
      WholeIsOnly(store, owner, allocs, q, x);
    }
    hide Owns, Covered;
    forall k | k in allocs && k != s.base
      ensures Covered(store - {q}, owner - PagesOf(s), k, allocs[k])
    {
      FreedCovered(store, owner, k, allocs[k], q);
    }
  }

  lemma {:induction false} FreedSame(
      store: map<Id, Span>, owner: map<nat, Id>, pages: map<nat, Id>, active: seq<Id>, cached: set<Id>, q: Id)
    requires Owns(store, owner) && Mapped(pages, owner, active) && q in store && q !in active && q !in cached
    ensures var owner' := owner - PagesOf(store[q]);
      && Mapped(pages, owner', active) && CachedPages(owner', cached) == CachedPages(owner, cached)
      && |owner'.Keys| == |owner.Keys| - store[q].pages
  {
    OwnedPages(store, owner, q);
    SetMinus(owner.Keys, PagesOf(store[q]));
    assert (owner - PagesOf(store[q])).Keys == owner.Keys - PagesOf(store[q]);
  }

  lemma {:induction false} FreedSorted(ids: set<Id>, active: seq<Id>, cached: set<Id>, hand: set<Id>, q: Id)
    requires Sorted(ids, active, cached, hand) && q in cached
    ensures Sorted(ids - {q}, active, cached - {q}, hand) && q in ids && q !in active
  {
  }

  lemma {:induction false} FreeKeeps(h: Heap, l: Layout, hand: set<Id>, q: Id)
    requires Inv(h, l, hand) && q in l.cached && h.store[q].IsWhole()
    ensures Inv(Free(h, q), Returned(l, h.store[q], q), hand)
  {
    hide Placed, Covered, Indexed, Mapped, CachedPages, Merged, Distinct, Erase, Owns, PagesOf, Sorted;
    EraseKeeps(h, l, hand, q);
    FreedSorted(h.store.Keys, h.active, l.cached, hand, q);
    FreedTiled(h.store, l.owner, l.allocs, q);
    FreedSame(h.store, l.owner, h.pageToSpan, h.active, l.cached - {q}, q);
    assert (h.store - {q}).Keys == h.store.Keys - {q};
    IndexedSame(h.store, h.store - {q}, EraseCached(h, q).cache, l.cached - {q});
  }
}
