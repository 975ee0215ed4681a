/** The page heap: spans cut from system allocations, cached when released, merged
    with cached neighbours and indexed three ways. Span structures live in a store
    under their identity, so sharing and in-place update are explicit. Starts and
    lengths are in pages. */
module PageHeap {
  import opened Common

  type Id = nat

  datatype Span = Span(start: nat, pages: nat, base: nat, allocPages: nat)
  {
    function End(): nat { start + pages }
    predicate Covers(p: nat) { start <= p < start + pages }
    predicate IsWhole() { start == base && pages == allocPages }
  }

  /** The part of a span that the small-object tiers use. */
  datatype Info = Info(classIndex: Option<nat>, objectSize: nat, objectCount: nat, centralFree: nat)

  const NO_INFO := Info(None, 0, 0, 0)

  /** Cached spans by length, by first page and by the page after the last one. */
  datatype Cache = Cache(byPages: map<nat, seq<Id>>, byStart: map<nat, Id>, byEnd: map<nat, Id>, bytes: nat)

  datatype Heap = Heap(
    store: map<Id, Span>, info: map<Id, Info>, nextId: Id, cache: Cache,
    active: seq<Id>, pageToSpan: map<nat, Id>, activeBytes: nat, systemBytes: nat)

  function Empty(): Heap {
    Heap(map[], map[], 0, Cache(map[], map[], map[], 0), [], map[], 0, 0)
  }

  function Monus(a: nat, b: nat): nat {
    if a >= b then a - b else 0
  }

  /** Removal of the first occurrence. */
  function Without(list: seq<Id>, q: Id): seq<Id> {
    if list == [] then [] else if list[0] == q then list[1..] else [list[0]] + Without(list[1..], q)
  }

  function Unlisted(byPages: map<nat, seq<Id>>, n: nat, q: Id): map<nat, seq<Id>> {
    if n !in byPages then byPages
    else if Without(byPages[n], q) == [] then byPages - {n}
    else byPages[n := Without(byPages[n], q)]
  }

  function Listed(byPages: map<nat, seq<Id>>, n: nat, q: Id): map<nat, seq<Id>> {
    byPages[n := (if n in byPages then byPages[n] else []) + [q]]
  }

  function Erase(c: Cache, s: Span, q: Id): Cache {
    Cache(Unlisted(c.byPages, s.pages, q), c.byStart - {s.start}, c.byEnd - {s.End()}, Monus(c.bytes, s.pages * PAGE))
  }

  function Insert(c: Cache, s: Span, q: Id): Cache {
    Cache(Listed(c.byPages, s.pages, q), c.byStart[s.start := q], c.byEnd[s.End() := q], c.bytes + s.pages * PAGE)
  }

  function EraseCached(h: Heap, q: Id): Heap
    requires q in h.store
  {
    h.(cache := Erase(h.cache, h.store[q], q))
  }

  function InsertCached(h: Heap, q: Id): Heap
    requires q in h.store
  {
    h.(cache := Insert(h.cache, h.store[q], q), info := h.info[q := NO_INFO])
  }

  predicate CanMerge(left: Span, right: Span) {
    left.base == right.base && left.allocPages == right.allocPages && left.End() == right.start
  }

  function Joined(store: map<Id, Span>, a: Id, b: Id): map<Id, Span>
    requires a in store && b in store
  {
    (store - {b})[a := store[a].(pages := store[a].pages + store[b].pages)]
  }

  /** The left span absorbs its right neighbour, whose structure is deleted. */
  function Merge(h: Heap, a: Id, b: Id): Heap
    requires a in h.store && b in h.store
  {
    h.(store := Joined(h.store, a, b), info := (h.info - {b})[a := NO_INFO])
  }

  predicate MergesLeft(h: Heap, q: Id)
    requires q in h.store
  {
    var k := h.store[q].start;
    && k in h.cache.byEnd && h.cache.byEnd[k] in h.store && h.cache.byEnd[k] != q
    && CanMerge(h.store[h.cache.byEnd[k]], h.store[q])
  }

  predicate MergesRight(h: Heap, q: Id)
    requires q in h.store
  {
    var k := h.store[q].End();
    && k in h.cache.byStart && h.cache.byStart[k] in h.store && h.cache.byStart[k] != q
    && CanMerge(h.store[q], h.store[h.cache.byStart[k]])
  }

  /** The heap after a step, and the span it is about. */
  datatype Result = Result(h: Heap, q: Id)

  /** One turn of the loop: the left neighbour first, then the right one. */
  function CoalesceOne(h: Heap, q: Id): (r: Result)
    requires q in h.store && (MergesLeft(h, q) || MergesRight(h, q))
    ensures r.q in r.h.store && |r.h.store| < |h.store|
  {
    if MergesLeft(h, q) then
      var left := h.cache.byEnd[h.store[q].start];
      JoinedShrinks(h.store, left, q);
      Result(Merge(EraseCached(h, left), left, q), left)
    else
      var right := h.cache.byStart[h.store[q].End()];
      JoinedShrinks(h.store, q, right);
      Result(Merge(EraseCached(h, right), q, right), q)
  }

  lemma {:induction false} JoinedShrinks(store: map<Id, Span>, a: Id, b: Id)
    requires a in store && b in store && a != b
    ensures |Joined(store, a, b)| < |store| && a in Joined(store, a, b)
  {
    assert Joined(store, a, b).Keys == store.Keys - {b};
  }

  function Coalesce(h: Heap, q: Id): (r: Result)
    requires q in h.store
    ensures r.q in r.h.store
    decreases |h.store|
  {
    if MergesLeft(h, q) || MergesRight(h, q) then
      var r := CoalesceOne(h, q);
      Coalesce(r.h, r.q)
    else Result(h, q)
  }

  function CacheSpan(h: Heap, q: Id): Heap
    requires q in h.store
  {
    var r := Coalesce(h.(info := h.info[q := NO_INFO]), q);
    InsertCached(r.h, r.q)
  }

  /** `q` keeps its first `n` pages; the rest becomes span `r` of the same allocation. */
  function Halves(store: map<Id, Span>, q: Id, n: nat, r: Id): map<Id, Span>
    requires q in store && n < store[q].pages
  {
    var s := store[q];
    store[q := s.(pages := n)][r := Span(s.start + n, s.pages - n, s.base, s.allocPages)]
  }

  function Split(h: Heap, q: Id, n: nat): Result
    requires q in h.store && 0 < n < h.store[q].pages
  {
    Result(h.(store := Halves(h.store, q, n, h.nextId), info := h.info[q := NO_INFO][h.nextId := NO_INFO],
              nextId := h.nextId + 1), h.nextId)
  }

  /** The page map after `n` pages from `lo` have been pointed at `q`. */
  function Register(pages: map<nat, Id>, lo: nat, n: nat, q: Id): map<nat, Id> {
    if n == 0 then pages else Register(pages, lo, n - 1, q)[lo + n - 1 := q]
  }

  /** The page map after `n` pages from `lo` have been taken out. */
  function Unregister(pages: map<nat, Id>, lo: nat, n: nat): map<nat, Id> {
    if n == 0 then pages else Unregister(pages, lo, n - 1) - {lo + n - 1}
  }

  function Activate(h: Heap, q: Id): Heap
    requires q in h.store
  {
    var s := h.store[q];
    h.(active := h.active + [q], pageToSpan := Register(h.pageToSpan, s.start, s.pages, q),
       activeBytes := h.activeBytes + s.pages * PAGE, info := h.info[q := NO_INFO])
  }

  function Deactivate(h: Heap, q: Id): Heap
    requires q in h.store
  {
    var s := h.store[q];
    h.(active := Without(h.active, q), pageToSpan := Unregister(h.pageToSpan, s.start, s.pages),
       activeBytes := Monus(h.activeBytes, s.pages * PAGE))
  }

  /** An exact fit is handed out as it is. */
  function NewExact(h: Heap, q: Id): Heap
    requires q in h.store
  {
    Activate(EraseCached(h, q), q)
  }

  /** The rest of a larger span, split off and put back in the cache. */
  function Trimmed(h: Heap, q: Id, n: nat): Heap
    requires q in h.store && 0 < n < h.store[q].pages
  {
    var r := Split(EraseCached(h, q), q, n);
    CacheSpan(r.h, r.q)
  }

  /** A larger span is split, and its first part is handed out. */
  function NewSplit(h: Heap, q: Id, n: nat): Heap
    requires q in h.store && 0 < n < h.store[q].pages && q in Trimmed(h, q, n).store
  {
    Activate(Trimmed(h, q, n), q)
  }

  /** The heap with a fresh system allocation at page `memory`, not yet active. */
  function Grown(h: Heap, n: nat, memory: nat): Heap {
    h.(store := h.store[h.nextId := Span(memory, n, memory, n)], info := h.info[h.nextId := NO_INFO],
       nextId := h.nextId + 1, systemBytes := h.systemBytes + n * PAGE)
  }

  /** Nothing cached fits: the new allocation is handed out. */
  function NewSystem(h: Heap, n: nat, memory: nat): Heap {
    Activate(Grown(h, n, memory), h.nextId)
  }

  function Release(h: Heap, q: Id): Heap
    requires q in h.store
  {
    CacheSpan(Deactivate(h, q), q)
  }

  /** Drops one whole allocation from the cache and returns its memory. */
  function Free(h: Heap, q: Id): Heap
    requires q in h.store
  {
    EraseCached(h, q).(store := h.store - {q}, info := h.info - {q},
                       systemBytes := Monus(h.systemBytes, h.store[q].pages * PAGE))
  }

  /** The span that holds an address, if it is active. */
  function MapObject(h: Heap, address: nat): Option<Id> {
    var p := address / PAGE;
    if p in h.pageToSpan && h.pageToSpan[p] in h.store && h.store[h.pageToSpan[p]].Covers(p)
    then Some(h.pageToSpan[p])
    else None
  }
}
