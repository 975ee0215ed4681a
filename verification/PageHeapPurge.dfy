/** Returning whole allocations to the system: two nested loops that filter the
    cached lists, proved equal to freeing the whole spans one after the other. */
module PageHeapPurge {
  import opened Common
  import opened PageHeap
  import opened PageHeapInvariant
  import opened PageHeapTheorems

  function Wholes(store: map<Id, Span>, list: seq<Id>): seq<Id> {
    if list == [] then []
    else
      var last := list[|list| - 1];
      Wholes(store, list[..|list| - 1]) + (if last in store && store[last].IsWhole() then [last] else [])
  }

  lemma {:induction false} WholesElements(store: map<Id, Span>, list: seq<Id>)
    requires Distinct(list)
    ensures Distinct(Wholes(store, list))
    ensures forall x :: x in Wholes(store, list) <==> x in list && x in store && store[x].IsWhole()
  {
    if list != [] {
      var front := list[..|list| - 1];
      WholesElements(store, front);
      assert list == front + [list[|list| - 1]];
    }
  }

  function Relisted(byPages: map<nat, seq<Id>>, n: nat, list: seq<Id>): map<nat, seq<Id>> {
    if list == [] then byPages - {n} else byPages[n := list]
  }

  lemma {:induction false} WithoutMiddle(a: seq<Id>, x: Id, b: seq<Id>)
    requires x !in a
    ensures Without(a + [x] + b, x) == a + b
  {
    if a == [] {
      assert a + [x] + b == [x] + b && a + b == b;
    } else {
      var list := a + [x] + b;
      assert list[0] == a[0] && list[1..] == a[1..] + [x] + b;
      WithoutMiddle(a[1..], x, b);
      assert a + b == [a[0]] + (a[1..] + b);
    }
  }

  /** Taking a span out of a list that is being filtered. */
  lemma {:induction false} UnlistMiddle(byPages: map<nat, seq<Id>>, n: nat, a: seq<Id>, x: Id, b: seq<Id>)
    requires n in byPages && x !in a
    ensures Unlisted(Relisted(byPages, n, a + [x] + b), n, x) == Relisted(byPages, n, a + b)
  {
    WithoutMiddle(a, x, b);
  }

  lemma {:induction false} FreeAllSnoc(h: Heap, a: seq<Id>, x: Id)
    requires Distinct(a + [x]) && forall y :: y in a + [x] ==> y in h.store
    ensures x in FreeAll(h, a).store && FreeAll(h, a + [x]) == Free(FreeAll(h, a), x)
    decreases |a|
  {
    if a == [] {
      assert a + [x] == [x] && [x][1..] == [];
    } else {
      var list := a + [x];
      assert list[0] == a[0] && list[1..] == a[1..] + [x];
      assert a[0] in list;
      assert forall y :: y in a[1..] + [x] ==> y in list && y != a[0];
      FreeAllSnoc(Free(h, a[0]), a[1..], x);
    }
  }

  lemma {:induction false} FreeAllConcat(h: Heap, a: seq<Id>, b: seq<Id>)
    requires Distinct(a + b) && forall y :: y in a + b ==> y in h.store
    ensures FreeAll(h, a + b) == FreeAll(FreeAll(h, a), b)
    decreases |a|
  {
    if a == [] {
      assert a + b == b;
    } else {
      var list := a + b;
      assert list[0] == a[0] && list[1..] == a[1..] + b;
      assert a[0] in list;
      assert forall y :: y in a[1..] + b ==> y in list && y != a[0];
      FreeAllConcat(Free(h, a[0]), a[1..], b);
    }
  }

  /** What is left of the indexes while one list is filtered. */
  datatype Rest = Rest(store: map<Id, Span>, info: map<Id, Info>, byStart: map<nat, Id>, byEnd: map<nat, Id>,
                       bytes: nat, systemBytes: nat)

  function RestOf(h: Heap): Rest {
    Rest(h.store, h.info, h.cache.byStart, h.cache.byEnd, h.cache.bytes, h.systemBytes)
  }

  function Assembled(h: Heap, r: Rest, byPages: map<nat, seq<Id>>): Heap {
    h.(store := r.store, info := r.info, cache := Cache(byPages, r.byStart, r.byEnd, r.bytes), systemBytes := r.systemBytes)
  }

  /** One span is dropped from every index but its list. */
  function Dropped(r: Rest, x: Id): Rest
    requires x in r.store
  {
    var s := r.store[x];
    Rest(r.store - {x}, r.info - {x}, r.byStart - {s.start}, r.byEnd - {s.End()},
         Monus(r.bytes, s.pages * PAGE), Monus(r.systemBytes, s.pages * PAGE))
  }

  lemma {:induction false} DropIsFree(h: Heap, r: Rest, byPages: map<nat, seq<Id>>, a: seq<Id>, x: Id, b: seq<Id>)
    requires x in r.store && r.store[x].pages in byPages && x !in a
    ensures Free(Assembled(h, r, Relisted(byPages, r.store[x].pages, a + [x] + b)), x)
         == Assembled(h, Dropped(r, x), Relisted(byPages, r.store[x].pages, a + b))
  {
    hide Relisted, Unlisted;
    UnlistMiddle(byPages, r.store[x].pages, a, x, b);
  }

  ghost predicate ListOf(h: Heap, n: nat, list: seq<Id>) {
    Distinct(list) && forall x :: x in list ==> x in h.store && h.store[x].pages == n
  }

  /** The first `i` spans of the list have been dropped or kept: the whole ones have
      been freed, if the list is read as what is kept and what is still to come. */
  ghost predicate Filtered(h: Heap, n: nat, list: seq<Id>, i: nat, r: Rest, remain: seq<Id>)
    requires i <= |list|
  {
    && FreeAll(h, Wholes(h.store, list[..i])) == Assembled(h, r, Relisted(h.cache.byPages, n, remain + list[i..]))
    && (forall x :: x in remain ==> x in list[..i])
    && (forall x :: x in list[i..] ==> x in h.store && x in r.store && r.store[x] == h.store[x])
  }

  lemma {:induction false} KeepTurn(h: Heap, n: nat, list: seq<Id>, i: nat, r: Rest, remain: seq<Id>)
    requires i < |list| && Filtered(h, n, list, i, r, remain) && list[i] in h.store && !h.store[list[i]].IsWhole()
    ensures Filtered(h, n, list, i + 1, r, remain + [list[i]])
    ensures Wholes(h.store, list[..i + 1]) == Wholes(h.store, list[..i])
  {
    hide Relisted, Assembled, FreeAll;
    assert list[..i + 1][..i] == list[..i] && list[..i + 1][i] == list[i];
    assert remain + list[i..] == remain + [list[i]] + list[i + 1..];
    assert Wholes(h.store, list[..i + 1]) == Wholes(h.store, list[..i]) + [] == Wholes(h.store, list[..i]);
    assert forall x :: x in list[i + 1..] ==> x in list[i..];
    assert forall x :: x in remain + [list[i]] ==> x in list[..i + 1];
  }

  lemma {:induction false} DropTurn(h: Heap, n: nat, list: seq<Id>, i: nat, r: Rest, remain: seq<Id>)
    requires n in h.cache.byPages && ListOf(h, n, list)
    requires i < |list| && Filtered(h, n, list, i, r, remain) && h.store[list[i]].IsWhole()
    ensures list[i] in r.store && Filtered(h, n, list, i + 1, Dropped(r, list[i]), remain)
    ensures Wholes(h.store, list[..i + 1]) == Wholes(h.store, list[..i]) + [list[i]]
  {
    hide Relisted, Assembled, Free, FreeAll;
    var x := list[i];
    assert list[..i + 1][..i] == list[..i] && list[..i + 1][i] == x;
    assert x in list[i..];
    assert remain + list[i..] == remain + [x] + list[i + 1..];
    assert x !in remain;
    WholesElements(h.store, list[..i]);
    assert Distinct(Wholes(h.store, list[..i]) + [x]);
    FreeAllSnoc(h, Wholes(h.store, list[..i]), x);
    DropIsFree(h, r, h.cache.byPages, remain, x, list[i + 1..]);
  }

  lemma {:induction false} StartFilter(h: Heap, n: nat, list: seq<Id>)
    requires n in h.cache.byPages && list == h.cache.byPages[n] != [] && ListOf(h, n, list)
    ensures Wholes(h.store, list[..0]) == [] && Filtered(h, n, list, 0, RestOf(h), [])
  {
    assert list[..0] == [] && [] + list[0..] == list;
  }

  lemma {:induction false} EndFilter(h: Heap, n: nat, list: seq<Id>, r: Rest, remain: seq<Id>)
    requires Filtered(h, n, list, |list|, r, remain)
    ensures FreeAll(h, Wholes(h.store, list)) == Assembled(h, r, Relisted(h.cache.byPages, n, remain))
    ensures list[..|list|] == list
  {
    assert list[..|list|] == list && remain + list[|list|..] == remain;
  }

  lemma {:induction false} StillThere(h: Heap, n: nat, list: seq<Id>, i: nat, r: Rest, remain: seq<Id>)
    requires i < |list| && Filtered(h, n, list, i, r, remain)
    ensures list[i] in r.store && list[i] in h.store && r.store[list[i]] == h.store[list[i]]
  {
    assert list[i] in list[i..];
  }

  /** The inner loop: one list is filtered. */
  method PurgeList(h: Heap, n: nat) returns (h': Heap, released: nat)
    requires n in h.cache.byPages && ListOf(h, n, h.cache.byPages[n]) && h.cache.byPages[n] != []
    ensures h' == FreeAll(h, Wholes(h.store, h.cache.byPages[n]))
    ensures released == |Wholes(h.store, h.cache.byPages[n])|
  {
    hide FreeAll, Wholes, Filtered, ListOf, Dropped, Relisted, Assembled;
    var list := h.cache.byPages[n];
    var r, remain := RestOf(h), [];
    released := 0;
    StartFilter(h, n, list);
    var i := 0;
    while i < |list|
      invariant i <= |list| && Filtered(h, n, list, i, r, remain) && released == |Wholes(h.store, list[..i])|
    {
      StillThere(h, n, list, i, r, remain);
      var x := list[i];
      if r.store[x].IsWhole() {
        DropTurn(h, n, list, i, r, remain);
        r := Dropped(r, x);
        released := released + 1;
      } else {
        KeepTurn(h, n, list, i, r, remain);
        remain := remain + [x];
      }
      i := i + 1;
    }
    EndFilter(h, n, list, r, remain);
    h' := Assembled(h, r, Relisted(h.cache.byPages, n, remain));
  }

  // ----------------------------------------------------------- the outer loop

  /** Freeing spans of other lengths leaves the list of `k`-page spans as it is. */
  lemma {:induction false} FreeAllOthers(h: Heap, order: seq<Id>, k: nat)
    requires Distinct(order) && forall q :: q in order ==> q in h.store && h.store[q].pages != k
    ensures FreeAll(h, order).store == h.store - Elements(order)
    ensures k in h.cache.byPages ==> k in FreeAll(h, order).cache.byPages
    ensures k in h.cache.byPages ==> FreeAll(h, order).cache.byPages[k] == h.cache.byPages[k]
    decreases |order|
  {
    if order != [] {
      var q, rest := order[0], order[1..];
      assert order == [q] + rest && q in order;
      assert Elements(order) == Elements(rest) + {q};
      FreeAllOthers(Free(h, q), rest, k);
    }
  }

  /** A span in the cached list of its length. */
  predicate InList(h: Heap, q: Id) {
    q in h.store && h.store[q].pages in h.cache.byPages && q in h.cache.byPages[h.store[q].pages]
  }

  ghost predicate Listing(h0: Heap, left: set<nat>, order: seq<Id>) {
    && Distinct(order)
    && (forall q :: q in order ==> InList(h0, q) && h0.store[q].IsWhole() && h0.store[q].pages !in left)
    && (forall q :: InList(h0, q) && h0.store[q].IsWhole() && h0.store[q].pages !in left ==> q in order)
  }

  ghost predicate Pending(h0: Heap, left: set<nat>, h: Heap) {
    forall k :: k in left ==> k in h0.cache.byPages && k in h.cache.byPages && h.cache.byPages[k] == h0.cache.byPages[k]
  }

  /** The lists outside `left` have been filtered, in the order of `order`. */
  ghost predicate Progress(h0: Heap, left: set<nat>, order: seq<Id>, h: Heap) {
    && Listing(h0, left, order) && Pending(h0, left, h)
    && h == FreeAll(h0, order) && h.store == h0.store - Elements(order)
  }

  ghost predicate Lists(h: Heap) {
    forall n :: n in h.cache.byPages ==> h.cache.byPages[n] != [] && ListOf(h, n, h.cache.byPages[n])
  }

  lemma {:induction false} NextList(h0: Heap, left: set<nat>, order: seq<Id>, h: Heap, m: nat)
    requires Lists(h0) && Progress(h0, left, order, h) && m in left
    ensures m in h.cache.byPages && h.cache.byPages[m] != [] && ListOf(h, m, h.cache.byPages[m])
    ensures Wholes(h.store, h.cache.byPages[m]) == Wholes(h0.store, h0.cache.byPages[m])
  {
    hide FreeAll, Wholes;
    SameWholes(h0.store, h.store, h0.cache.byPages[m]);
  }

  lemma {:induction false} SameWholes(s: map<Id, Span>, t: map<Id, Span>, list: seq<Id>)
    requires forall x :: x in list ==> x in s && x in t && s[x] == t[x]
    ensures Wholes(s, list) == Wholes(t, list)
  {
    if list != [] {
      SameWholes(s, t, list[..|list| - 1]);
    }
  }

  lemma {:induction false} ListingTurn(h0: Heap, left: set<nat>, order: seq<Id>, m: nat)
    requires Lists(h0) && Listing(h0, left, order) && m in left && m in h0.cache.byPages
    ensures Listing(h0, left - {m}, order + Wholes(h0.store, h0.cache.byPages[m]))
  {
    var ws := Wholes(h0.store, h0.cache.byPages[m]);
    assert ListOf(h0, m, h0.cache.byPages[m]);
    WholesElements(h0.store, h0.cache.byPages[m]);
    hide Wholes;
    assert forall x :: x in ws ==> h0.store[x].pages == m && x !in order;
    forall i, j | 0 <= i < j < |order + ws| ensures (order + ws)[i] != (order + ws)[j] {
      if i < |order| <= j { assert (order + ws)[i] in order && (order + ws)[j] in ws; }
    }
  }

  lemma {:induction false} PendingTurn(h0: Heap, left: set<nat>, h: Heap, m: nat, ws: seq<Id>)
    requires Pending(h0, left, h) && Distinct(ws) && forall q :: q in ws ==> q in h.store && h.store[q].pages == m
    ensures Pending(h0, left - {m}, FreeAll(h, ws)) && FreeAll(h, ws).store == h.store - Elements(ws)
  {
    hide FreeAll, Elements;
    forall k | k in left - {m}
      ensures k in FreeAll(h, ws).cache.byPages && FreeAll(h, ws).cache.byPages[k] == h0.cache.byPages[k]
    {
      FreeAllOthers(h, ws, k);
    }
    FreeAllOthers(h, ws, m + 1);
  }

  lemma {:induction false} WholesToCome(h0: Heap, left: set<nat>, order: seq<Id>, h: Heap, m: nat)
    requires Lists(h0) && Progress(h0, left, order, h) && m in left && m in h0.cache.byPages
    ensures var ws := Wholes(h0.store, h0.cache.byPages[m]);
      && Distinct(ws) && (forall q :: q in ws ==> q in h.store && h.store[q].pages == m)
      && (forall q :: q in order + ws ==> q in h0.store)
  {
    assert ListOf(h0, m, h0.cache.byPages[m]);
    WholesElements(h0.store, h0.cache.byPages[m]);
    hide Wholes, FreeAll, Lists, Pending;
    var ws := Wholes(h0.store, h0.cache.byPages[m]);
    assert forall q :: q in ws ==> h0.store[q].pages == m && q !in order;
  }

  lemma {:induction false} OuterTurn(h0: Heap, left: set<nat>, order: seq<Id>, h: Heap, m: nat)
    requires Lists(h0) && Progress(h0, left, order, h) && m in left && m in h0.cache.byPages
    ensures var ws := Wholes(h0.store, h0.cache.byPages[m]);
      Progress(h0, left - {m}, order + ws, FreeAll(h, ws))
  {
    var ws := Wholes(h0.store, h0.cache.byPages[m]);
    WholesToCome(h0, left, order, h, m);
    ListingTurn(h0, left, order, m);
    hide Wholes, FreeAll, Lists, Pending, InList;
    FreeAllConcat(h0, order, ws);
    PendingTurn(h0, left, h, m, ws);
    assert Elements(order + ws) == Elements(order) + Elements(ws);
  }

  /** Both loops, over the lists in any order. */
  method PurgeAll(h0: Heap) returns (h: Heap, released: nat, ghost order: seq<Id>)
    requires Lists(h0)
    ensures Progress(h0, {}, order, h) && released == |order|
  {
    hide Lists, Progress, FreeAll, Wholes, ListOf;
    var left := h0.cache.byPages.Keys;
    h, released, order := h0, 0, [];
    StartPurge(h0);
    while left != {}
      invariant left <= h0.cache.byPages.Keys && Progress(h0, left, order, h) && released == |order|
      decreases |left|
    {
      var m :| m in left;
      NextList(h0, left, order, h, m);
      OuterTurn(h0, left, order, h, m);
      order := order + Wholes(h0.store, h0.cache.byPages[m]);
      var n;
      h, n := PurgeList(h, m);
      released := released + n;
      left := left - {m};
    }
  }

  lemma {:induction false} StartPurge(h0: Heap)
    requires Lists(h0)
    ensures Progress(h0, h0.cache.byPages.Keys, [], h0)
  {
  }

  lemma {:induction false} InvLists(h: Heap, l: Layout)
    requires Inv(h, l, {})
    ensures Lists(h) && forall q :: InList(h, q) <==> InCache(h, q)
  {
    hide Tiled, ByStart, ByEnd, Mapped, Counted, Merged, Sorted;
  }

  /** The loops do what the step says. */
  lemma {:induction false} PurgeIsStep(h: Heap, l: Layout, order: seq<Id>, h': Heap)
    requires Inv(h, l, {}) && Progress(h, {}, order, h')
    ensures Act(h, Purge(order), h')
  {
    InvLists(h, l);
    hide Inv, FreeAll, InCache, InList;
  }
}
