/** The page heap as an object whose methods update its indexes in place, proved
    against the operations on values. */
module PageHeapBlock {
  import opened Common
  import opened PageHeap
  import opened PageHeapInvariant
  import opened PageHeapTheorems
  import opened PageHeapPurge

  const SIZE_MAX: nat := 0xFFFF_FFFF_FFFF_FFFF

  lemma {:induction false} WithoutAt(list: seq<Id>, i: nat, q: Id)
    requires i <= |list| && q !in list[..i] && (i < |list| ==> list[i] == q)
    ensures Without(list, q) == if i < |list| then list[..i] + list[i + 1..] else list
  {
    if i > 0 {
      assert list[1..][..i - 1] == list[..i][1..];
      WithoutAt(list[1..], i - 1, q);
      assert list[0] in list[..i];
      if i < |list| {
        assert list[1..][..i - 1] + list[1..][i..] == (list[..i] + list[i + 1..])[1..];
      }
    }
  }

  function Last(list: seq<Id>): Id
    requires list != []
  {
    list[|list| - 1]
  }

  lemma {:induction false} ListsAreFull(h: Heap, l: Layout)
    requires Inv(h, l, {})
    ensures forall n :: n in h.cache.byPages ==> h.cache.byPages[n] != []
  {
  }

  method EraseFirst(list: seq<Id>, q: Id) returns (r: seq<Id>)
    ensures r == Without(list, q)
  {
    var i := 0;
    while i < |list| && list[i] != q
      invariant i <= |list| && q !in list[..i]
    {
      i := i + 1;
    }
    WithoutAt(list, i, q);
    if i < |list| { r := list[..i] + list[i + 1..]; } else { r := list; }
  }

  method RegisterEach(pages: map<nat, Id>, lo: nat, n: nat, q: Id) returns (r: map<nat, Id>)
    ensures r == Register(pages, lo, n, q)
  {
    r := pages;
    for i := 0 to n
      invariant r == Register(pages, lo, i, q)
    {
      r := r[lo + i := q];
    }
  }

  method UnregisterEach(pages: map<nat, Id>, lo: nat, n: nat) returns (r: map<nat, Id>)
    ensures r == Unregister(pages, lo, n)
  {
    r := pages;
    for i := 0 to n
      invariant r == Unregister(pages, lo, i)
    {
      r := r - {lo + i};
    }
  }

  /** The smallest key above `n` whose list is not empty, over the keys in any order. */
  method SmallestLarger(byPages: map<nat, seq<Id>>, n: nat) returns (best: Option<nat>)
    ensures best.Some? ==> best.value in byPages && byPages[best.value] != [] && best.value > n
    ensures best.Some? ==> forall k :: k in byPages && byPages[k] != [] && k > n ==> best.value <= k
    ensures best.None? ==> forall k :: k in byPages && byPages[k] != [] ==> k <= n
  {
    var left := byPages.Keys;
    best := None;
    while left != {}
      invariant left <= byPages.Keys
      invariant best.Some? ==> best.value in byPages && byPages[best.value] != [] && best.value > n
      invariant best.Some? ==> forall k :: k in byPages && k !in left && byPages[k] != [] && k > n ==> best.value <= k
      invariant best.None? ==> forall k :: k in byPages && k !in left && byPages[k] != [] ==> k <= n
      decreases |left|
    {
      var m :| m in left;
      left := left - {m};
      if byPages[m] != [] && m > n && (best.None? || m < best.value) {
        best := Some(m);
      }
    }
  }

  method Unlist(byPages: map<nat, seq<Id>>, n: nat, q: Id) returns (r: map<nat, seq<Id>>)
    ensures r == Unlisted(byPages, n, q)
  {
    r := byPages;
    if n in byPages {
      var list := EraseFirst(byPages[n], q);
      if list == [] { r := byPages - {n}; } else { r := byPages[n := list]; }
    }
  }

  method EraseSpan(c: Cache, s: Span, q: Id) returns (c': Cache)
    ensures c' == Erase(c, s, q)
  {
    var byPages := Unlist(c.byPages, s.pages, q);
    var bytes := if c.bytes >= s.pages * PAGE then c.bytes - s.pages * PAGE else 0;
    c' := Cache(byPages, c.byStart - {s.start}, c.byEnd - {s.End()}, bytes);
  }

  /** Some cached span has at least `n` pages. */
  ghost predicate Available(byPages: map<nat, seq<Id>>, n: nat) {
    exists k :: k in byPages && k >= n
  }

  /** The request was served from the best-fitting list. */
  ghost predicate Reuses(h: Heap, n: nat, h': Heap) {
    exists m: nat :: Takes(h, n, m, h')
  }

  lemma {:induction false} ExactIsReuse(h: Heap, l: Layout, n: nat)
    requires Inv(h, l, {}) && n in h.cache.byPages
    ensures h.cache.byPages[n] != [] && Last(h.cache.byPages[n]) in h.store && Available(h.cache.byPages, n)
    ensures forall x :: x in h.cache.byPages[n] ==> x in h.store
    ensures var q := Last(h.cache.byPages[n]);
      && Reuses(h, n, NewExact(h, q)) && Serves(h, NewExact(h, q), q, n)
      && Inv(NewExact(h, q), l.(cached := l.cached - {q}), {})
  {
    hide Inv, NewExact, Serves;
    ListHolds(h, l, {}, n);
    var q := Last(h.cache.byPages[n]);
    NewExactKeeps(h, l, q);
    assert Takes(h, n, n, NewExact(h, q));
  }

  class Allocator {
    var store: map<Id, Span>
    var info: map<Id, Info>
    var nextId: Id
    var cache: Cache
    var active: seq<Id>
    var pageToSpan: map<nat, Id>
    var activeBytes: nat
    var systemBytes: nat

    ghost function Value(): Heap
      reads this
    {
      Heap(store, info, nextId, cache, active, pageToSpan, activeBytes, systemBytes)
    }

    ghost predicate Valid()
      reads this
    {
      exists l :: Inv(Value(), l, {})
    }

    constructor ()
      ensures Value() == Empty() && Valid()
    {
      store, info, nextId, cache := map[], map[], 0, Cache(map[], map[], map[], 0);
      active, pageToSpan, activeBytes, systemBytes := [], map[], 0, 0;
      new;
      EmptyKeeps();
    }

    /** The left span absorbs the right one, whose structure is deleted. */
    method Absorb(a: Id, b: Id, c: Id)
      requires a in store && b in store && c in store && a != b
      modifies this`store, this`info, this`cache
      ensures Value() == Merge(EraseCached(old(Value()), c), a, b)
    {
      hide Erase, Inv;
      cache := EraseSpan(cache, store[c], c);
      store := (store - {b})[a := store[a].(pages := store[a].pages + store[b].pages)];
      info := (info - {b})[a := NO_INFO];
    }

    /** One turn: the left neighbour first, then the right one. */
    method CoalesceTurn(q: Id) returns (merged: bool, r: Id)
      requires q in store
      modifies this`store, this`info, this`cache
      ensures merged == (MergesLeft(old(Value()), q) || MergesRight(old(Value()), q))
      ensures merged ==> Value() == CoalesceOne(old(Value()), q).h && r == CoalesceOne(old(Value()), q).q
      ensures !merged ==> Value() == old(Value()) && r == q
    {
      hide Merge, EraseCached, CanMerge, Inv;
      var s := store[q];
      merged, r := false, q;
      if s.start in cache.byEnd {
        var left := cache.byEnd[s.start];
        if left in store && left != q && CanMerge(store[left], s) {
          Absorb(left, q, left);
          return true, left;
        }
      }
      if s.End() in cache.byStart {
        var right := cache.byStart[s.End()];
        if right in store && right != q && CanMerge(s, store[right]) {
          Absorb(q, right, right);
          return true, q;
        }
      }
    }

    /** Merges until neither neighbour can be merged. */
    method CoalesceLoop(q: Id) returns (r: Id)
      requires q in store
      modifies this`store, this`info, this`cache
      ensures Value() == Coalesce(old(Value()), q).h && r == Coalesce(old(Value()), q).q
    {
      hide MergesLeft, MergesRight, CoalesceOne, Inv;
      r := q;
      var merged := true;
      while merged
        invariant r in store
        invariant Coalesce(Value(), r) == Coalesce(old(Value()), q)
        invariant !merged ==> !MergesLeft(Value(), r) && !MergesRight(Value(), r)
        decreases |store|, merged
      {
        merged, r := CoalesceTurn(r);
      }
    }

    method CacheSpan(q: Id)
      requires q in store
      modifies this`store, this`info, this`cache
      ensures Value() == PageHeap.CacheSpan(old(Value()), q)
    {
      hide Coalesce, Inv;
      info := info[q := NO_INFO];
      var r := CoalesceLoop(q);
      var s := store[r];
      info := info[r := NO_INFO];
      var list := if s.pages in cache.byPages then cache.byPages[s.pages] else [];
      cache := Cache(cache.byPages[s.pages := list + [r]], cache.byStart[s.start := r],
                     cache.byEnd[s.End() := r], cache.bytes + s.pages * PAGE);
    }

    method Activate(q: Id)
      requires q in store
      modifies this`info, this`active, this`pageToSpan, this`activeBytes
      ensures Value() == PageHeap.Activate(old(Value()), q)
    {
      hide Register, Inv;
      info := info[q := NO_INFO];
      active := active + [q];
      pageToSpan := RegisterEach(pageToSpan, store[q].start, store[q].pages, q);
      activeBytes := activeBytes + store[q].pages * PAGE;
    }

    /** The last span of the list for `n` pages; an empty list is dropped. */
    method TakeCached(n: nat) returns (q: Option<Id>)
      requires n in cache.byPages ==> forall x :: x in cache.byPages[n] ==> x in store
      modifies this`cache
      ensures q.Some? <==> n in old(cache).byPages && old(cache).byPages[n] != []
      ensures q.Some? ==> q.value == Last(old(cache).byPages[n]) && q.value in store
      ensures q.Some? ==> Value() == EraseCached(old(Value()), q.value)
      ensures n !in old(cache).byPages ==> Value() == old(Value())
    {
      hide Erase, Inv;
      q := None;
      if n in cache.byPages {
        var list := cache.byPages[n];
        if list == [] {
          cache := cache.(byPages := cache.byPages - {n});
        } else {
          var x := list[|list| - 1];
          cache := EraseSpan(cache, store[x], x);
          q := Some(x);
        }
      }
    }

    /** Splits a span that is out of the cache; the rest goes back into it. */
    method SplitOff(q: Id, n: nat)
      requires q in store && 0 < n < store[q].pages
      modifies this`store, this`info, this`nextId, this`cache
      ensures Value() == PageHeap.CacheSpan(Split(old(Value()), q, n).h, old(nextId))
    {
      hide PageHeap.CacheSpan, Inv;
      var s := store[q];
      var rest := Span(s.start + n, s.pages - n, s.base, s.allocPages);
      store := store[q := s.(pages := n)];
      store := store[nextId := rest];
      info := info[q := NO_INFO];
      info := info[nextId := NO_INFO];
      nextId := nextId + 1;
      CacheSpan(nextId - 1);
    }

    method TakeExact(n: nat) returns (q: Option<Id>)
      requires Valid() && n > 0
      modifies this
      ensures Valid() && (q.Some? <==> n in old(cache).byPages)
      ensures q.Some? ==> Available(old(cache).byPages, n) && Reuses(old(Value()), n, Value())
      ensures q.Some? ==> Serves(old(Value()), Value(), q.value, n)
      ensures q.None? ==> Value() == old(Value())
    {
      hide Inv, PageHeap.Activate, EraseCached, Serves, Reuses, Available;
      ghost var h := Value();
      ghost var l := Any();
      if n in cache.byPages { ExactIsReuse(h, l, n); }
      q := TakeCached(n);
      if q.Some? {
        Activate(q.value);
        assert Inv(Value(), l.(cached := l.cached - {q.value}), {});
      }
    }

    lemma {:induction false} Any() returns (l: Layout)
      requires Valid()
      ensures Inv(Value(), l, {})
    {
      l :| Inv(Value(), l, {});
    }

    /** A span from the list of `m`-page spans, cut to `n` pages. */
    method TakeFrom(m: nat, n: nat) returns (q: Option<Id>)
      requires Valid() && 0 < n < m && Fits(cache.byPages, n, m)
      modifies this
      ensures Valid() && q.Some? && Takes(old(Value()), n, m, Value()) && Serves(old(Value()), Value(), q.value, n)
    {
      ghost var h := Value();
      ghost var l := Any();
      ListHolds(h, l, {}, m);
      hide Inv, PageHeap.Activate, EraseCached, Serves, PageHeap.CacheSpan, Split, Fits;
      q := TakeCached(m);
      SplitOff(q.value, n);
      ghost var l' := NewSplitKeeps(h, l, q.value, n);
      Activate(q.value);
      assert Inv(Value(), l', {});
    }

    /** The smallest larger span, split. */
    method TakeLarger(n: nat) returns (q: Option<Id>)
      requires Valid() && n > 0 && n !in cache.byPages
      modifies this
      ensures Valid() && (q.Some? <==> Available(old(cache).byPages, n))
      ensures q.Some? ==> Reuses(old(Value()), n, Value()) && Serves(old(Value()), Value(), q.value, n)
      ensures q.None? ==> Value() == old(Value())
    {
      ghost var l := Any();
      ListsAreFull(Value(), l);
      hide Inv, Takes, Serves;
      q := None;
      var best := SmallestLarger(cache.byPages, n);
      if best.Some? {
        q := TakeFrom(best.value, n);
      }
    }

    method Enlarge(n: nat, memory: nat)
      modifies this`store, this`info, this`nextId, this`systemBytes
      ensures Value() == Grown(old(Value()), n, memory)
    {
      hide Inv;
      store := store[nextId := Span(memory, n, memory, n)];
      info := info[nextId := NO_INFO];
      nextId := nextId + 1;
      systemBytes := systemBytes + n * PAGE;
    }

    /** A new system allocation, handed out at once. */
    method Grow(n: nat, memory: nat) returns (q: Id)
      requires Valid() && n > 0 && Unused(store, memory, n)
      modifies this
      ensures Valid() && Value() == NewSystem(old(Value()), n, memory) && Serves(old(Value()), Value(), q, n)
    {
      ghost var h := Value();
      ghost var l := Any();
      hide Inv, Serves, PageHeap.Activate, Unused;
      ghost var l' := NewSystemKeeps(h, l, n, memory);
      q := nextId;
      Enlarge(n, memory);
      Activate(q);
      assert Inv(Value(), l', {});
    }

    /** An exact fit, else the smallest larger span, else new memory from the
        system (`None` when it has none). */
    method NewSpan(n: nat, memory: Option<nat>) returns (q: Option<Id>)
      requires Valid() && (memory.Some? ==> Unused(store, memory.value, n))
      modifies this
      ensures Valid()
      ensures q.None? ==> Value() == old(Value())
      ensures q.Some? ==> Serves(old(Value()), Value(), q.value, n)
      ensures q.Some? <==> 0 < n <= SIZE_MAX / PAGE && (memory.Some? || Available(old(cache).byPages, n))
      ensures q.Some? && Available(old(cache).byPages, n) ==> Reuses(old(Value()), n, Value())
    {
      if n == 0 || n > SIZE_MAX / PAGE { return None; }
      hide Reuses, Available, Serves, Valid, Unused, NewSystem;
      q := TakeExact(n);
      if q.Some? { return; }
      q := TakeLarger(n);
      if q.Some? { return; }
      if memory.Some? {
        var x := Grow(n, memory.value);
        q := Some(x);
      }
    }

    method Deactivate(q: Id)
      requires q in store
      modifies this`active, this`pageToSpan, this`activeBytes
      ensures Value() == PageHeap.Deactivate(old(Value()), q)
    {
      hide Without, Unregister, Inv;
      active := EraseFirst(active, q);
      pageToSpan := UnregisterEach(pageToSpan, store[q].start, store[q].pages);
      activeBytes := if activeBytes >= store[q].pages * PAGE then activeBytes - store[q].pages * PAGE else 0;
    }

    /** Only an active span is taken back; anything else is refused. */
    method ReleaseSpan(q: Id) returns (ok: bool)
      requires Valid()
      modifies this
      ensures Valid() && ok == (q in old(active))
      ensures ok ==> q in old(store) && Value() == Release(old(Value()), q)
      ensures !ok ==> Value() == old(Value())
    {
      ghost var h := Value();
      ghost var l := Any();
      hide Inv, PageHeap.CacheSpan, PageHeap.Deactivate;
      ok := q in active;
      if ok {
        InHand(h, l, {});
        ghost var l' := ReleaseKeeps(h, l, q);
        Deactivate(q);
        CacheSpan(q);
        assert Inv(Value(), l', {});
      }
    }

    /** The active span that holds an address. */
    method MapObjectToSpan(address: nat) returns (q: Option<Id>)
      requires Valid()
      ensures q.Some? <==> exists x :: x in active && x in store && store[x].Covers(address / PAGE)
      ensures q.Some? ==> q.value in active && q.value in store && store[q.value].Covers(address / PAGE)
    {
      ghost var h := Value();
      ghost var l := Any();
      hide Inv;
      var p := address / PAGE;
      q := None;
      if p in pageToSpan && pageToSpan[p] in store && store[pageToSpan[p]].Covers(p) {
        q := Some(pageToSpan[p]);
        MapObjectIsExact(h, l, address, q.value);
      } else {
        forall x ensures !(x in active && x in store && store[x].Covers(p)) {
          MapObjectIsExact(h, l, address, x);
        }
      }
    }

    /** Whole cached allocations go back to the system, all of them and nothing else. */
    method Purge() returns (released: nat, ghost order: seq<Id>)
      requires Valid()
      modifies this
      ensures Valid() && Act(old(Value()), PageHeapTheorems.Purge(order), Value()) && released == |order|
    {
      ghost var l := Any();
      InvLists(Value(), l);
      hide Inv, Act, Lists, Progress;
      ghost var h0 := Value();
      var h;
      h, released, order := PurgeAll(Heap(store, info, nextId, cache, active, pageToSpan, activeBytes, systemBytes));
      PurgeIsStep(h0, l, order, h);
      ghost var l' := StepKeeps(h0, l, PageHeapTheorems.Purge(order), h);
      store, info, nextId, cache := h.store, h.info, h.nextId, h.cache;
      active, pageToSpan, activeBytes, systemBytes := h.active, h.pageToSpan, h.activeBytes, h.systemBytes;
      assert Value() == h;
    }
  }
}
