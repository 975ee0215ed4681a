/** Cutting a new span into objects: the objects are new, they lie inside the span,
    and all of them start on the central list. */
module TierPopulate {
  import opened Common
  import opened PageHeap
  import opened TierModel
  import opened TierInvariant
  import opened TierCounts
  import P = PageHeapInvariant
  import T = PageHeapTheorems
  import SizeClass
  import FreeList

  // ---------------------------------------------------- a span the heap handed out

  /** Span `q` has become active; the spans active before are unchanged. */
  ghost predicate Gained(h: Heap, h': Heap, q: Id) {
    && q !in h.active && h'.active == h.active + [q]
    && q in h'.store && q in h'.info && h'.info[q].classIndex == None && T.SpansStay(h, h', h.active)
  }

  lemma {:induction false} AllocateGains(h: Heap, l: P.Layout, n: nat, h': Heap, q: Id) returns (l': P.Layout)
    requires P.Inv(h, l, {}) && Allocates(h, n, h', q)
    ensures P.Inv(h', l', {}) && Gained(h, h', q) && h'.store[q].pages == n
  {
    var step: T.Step :| (step.Take? || step.Grow?) && step.n == n && T.Act(h, step, h');
    hide P.Inv, T.Takes, T.Unused, NewSystem;
    var x: Id;
    match step {
      case Take(_, m) => l', x := T.TakeKeeps(h, l, n, m, h');
      case Grow(_, memory) => l' := T.NewSystemKeeps(h, l, n, memory); x := h.nextId;
    }
    assert h'.active == h.active + [x];
    assert h'.active[|h.active|] == x == q;
  }

  /** The same spans are bound, and they are unchanged. */
  ghost predicate Alike(h: Heap, h': Heap) {
    && (forall x :: x in h'.active ==> x in h'.store && x in h'.info)
    && (forall x :: x in h'.active && h'.info[x].classIndex.Some? ==> IsBound(h', x, h'.info[x].classIndex.value))
    && (forall x, d: nat :: IsBound(h', x, d) <==> IsBound(h, x, d))
    && (forall x, d: nat :: IsBound(h, x, d) ==> h'.store[x] == h.store[x] && h'.info[x] == h.info[x])
  }

  lemma {:induction false} GainedAlike(h: Heap, h': Heap, spans: seq<seq<Id>>, q: Id)
    requires Gained(h, h', q) && SpansOk(h, spans)
    ensures Alike(h, h')
  {
  }

  lemma {:induction false} AlikeObjects(h: Heap, h': Heap, w: Map)
    requires Alike(h, h') && ObjectsOk(h, w)
    ensures ObjectsOk(h', w)
  {
    forall a | a in w ensures SpotOk(h', a, w[a]) {
      assert SpotOk(h, a, w[a]);
    }
    forall x, c, i: nat | IsBound(h', x, c) && i < h'.info[x].objectCount ensures Holds(w, Address(h', x, c, i), x) {
      assert Holds(w, Address(h, x, c, i), x);
    }
  }

  lemma {:induction false} AlikeSpans(h: Heap, h': Heap, spans: seq<seq<Id>>, lists: Lists)
    requires Alike(h, h') && SpansOk(h, spans) && CountsOk(h, lists)
    ensures SpansOk(h', spans) && CountsOk(h', lists) && (Resting(h) ==> Resting(h'))
  {
    forall x, d: nat | IsBound(h', x, d)
      ensures InfoOk(h'.store[x], h'.info[x], d) && h'.info[x].centralFree == FreeIn(h', lists, x, d)
    {
      assert InfoOk(h.store[x], h.info[x], d) && h.info[x].centralFree == FreeIn(h, lists, x, d);
    }
    hide InfoOk, FreeIn;
  }

  // ------------------------------------------------------------- the new objects

  ghost function NewSpots(base: nat, size: nat, n: nat, q: Id, c: nat): Map {
    if n == 0 then map[]
    else NewSpots(base, size, n - 1, q, c)[Obj(base, size, n - 1) := Spot(q, c, n - 1, Central(c))]
  }

  lemma {:induction false} CarvedInOrder(base: nat, size: nat, n: nat)
    requires size > 0
    ensures |Carve(base, size, n)| == n && forall i: nat :: i < n ==> Carve(base, size, n)[i] == Obj(base, size, i)
    ensures Distinct(Carve(base, size, n))
  {
    if n > 0 {
      CarvedInOrder(base, size, n - 1);
      hide Obj;
      forall i: nat | i < n - 1 ensures Obj(base, size, i) < Obj(base, size, n - 1) {
        DifferentObjects(base, size, i, n - 1);
      }
    }
  }

  lemma {:induction false} CarvedObjects(base: nat, size: nat, n: nat, q: Id, c: nat)
    requires size > 0
    ensures forall a :: a in Carve(base, size, n) <==> a in NewSpots(base, size, n, q, c)
    ensures Distinct(Carve(base, size, n)) && |Carve(base, size, n)| == n
    ensures forall a :: a in NewSpots(base, size, n, q, c) ==>
      var p := NewSpots(base, size, n, q, c)[a]; p == Spot(q, c, p.i, Central(c)) && p.i < n && a == Obj(base, size, p.i)
    ensures forall i: nat :: i < n ==> Obj(base, size, i) in NewSpots(base, size, n, q, c)
  {
    CarvedInOrder(base, size, n);
    hide Obj;
    if n > 0 {
      CarvedObjects(base, size, n - 1, q, c);
    }
  }

  lemma {:induction false} BoundOneMore(h: Heap, q: Id, c: nat)
    requires q in h.active && q in h.store && q in h.info && h.info[q].classIndex == None && c < SizeClass.CLASSES
    ensures forall x, d: nat :: IsBound(Bind(h, q, c), x, d) <==> IsBound(h, x, d) || (x == q && d == c)
  {
  }

  /** No address of the new span is an object yet. */
  lemma {:induction false} NewAddress(h: Heap, spans: seq<seq<Id>>, w: Map, l: P.Layout, q: Id, a: nat)
    requires P.Inv(h, l, {}) && SpansOk(h, spans) && ObjectsOk(h, w) && q in h.store &&
             (forall c: nat :: !IsBound(h, q, c))
    requires Contains(h.store[q], a)
    ensures a !in w
  {
    if a in w {
      hide P.Inv, SpansOk, ObjectsOk;
      InOneSpan(h, spans, w, l, a, q);
      FindsSpan(h, spans, w, l, a);
    }
  }

  lemma {:induction false} BindObjects(h: Heap, w: Map, added: Map, q: Id, c: nat)
    requires ObjectsOk(h, w) && q in h.active && q in h.store && q in h.info && h.info[q].classIndex == None &&
             c < SizeClass.CLASSES
    requires var n := SizeClass.ObjectCount(h.store[q].pages, c);
      added == NewSpots(Base(h.store[q]), SizeClass.ClassSize(c), n, q, c)
    requires forall a :: a in added ==> a !in w
    ensures ObjectsOk(Bind(h, q, c), w + added)
  {
    var h', base, size, n := Bind(h, q, c), Base(h.store[q]), SizeClass.ClassSize(c), SizeClass.ObjectCount(h.store[q].pages, c);
    CarvedObjects(base, size, n, q, c);
    BoundOneMore(h, q, c);
    hide Obj, Base, NewSpots, Carve;
    forall a | a in w + added ensures SpotOk(h', a, (w + added)[a]) {
      if a !in added { assert SpotOk(h, a, w[a]); }
    }
    forall x, d, i: nat | IsBound(h', x, d) && i < h'.info[x].objectCount ensures Holds(w + added, Address(h', x, d, i), x) {
      if x == q {
        assert Obj(base, size, i) in added;
      } else {
        assert Holds(w, Address(h, x, d, i), x);
      }
    }
  }

  lemma {:induction false} BindLists(lists: Lists, user: set<nat>, w: Map, added: Map, objects: seq<nat>, c: nat)
    requires ListsOk(lists, user, w) && Distinct(objects) && (forall a :: a in added ==> a !in w)
    requires forall a :: a in objects <==> a in added
    requires forall a :: a in added ==> added[a].loc == Central(c)
    ensures ListsOk(lists[Central(c) := objects + At(lists, Central(c))], user, w + added)
  {
    var loc := Central(c);
    var lists' := lists[loc := objects + At(lists, loc)];
    assert ListOk(At(lists, loc), w, loc);
    JoinDistinct(objects, At(lists, loc));
    forall other: Loc | other != User ensures ListOk(At(lists', other), w + added, other) {
      assert ListOk(At(lists, other), w, other);
    }
  }

  lemma {:induction false} CountAll(list: seq<nat>, pred: nat -> bool)
    requires forall a :: a in list ==> pred(a)
    ensures FreeList.Count(list, pred) == |list|
  {
    if list != [] {
      CountAll(list[..|list| - 1], pred);
    }
  }

  /** What the new objects add to the count of each span. */
  lemma {:induction false} NewCount(h: Heap, l: P.Layout, objects: seq<nat>, list: seq<nat>, q: Id, x: Id)
    requires P.Inv(h, l, {}) && q in h.store && x in h.store && forall a :: a in objects ==> Contains(h.store[q], a)
    requires forall a :: a in list ==> !Contains(h.store[q], a)
    ensures FreeList.Count(objects + list, InSpan(h.store[x])) ==
      if x == q then |objects| else FreeList.Count(list, InSpan(h.store[x]))
  {
    hide P.Inv;
    CountConcat(objects, list, InSpan(h.store[x]));
    if x == q {
      CountAll(objects, InSpan(h.store[x]));
      CountNone(list, InSpan(h.store[x]));
    } else {
      forall a | a in objects ensures !InSpan(h.store[x])(a) {
        if Contains(h.store[x], a) { T.SpansAreDisjoint(h, l, x, q, a / PAGE); }
      }
      CountNone(objects, InSpan(h.store[x]));
    }
  }

  lemma {:induction false} BindCounts(h: Heap, lists: Lists, l: P.Layout, objects: seq<nat>, q: Id, c: nat)
    requires P.Inv(h, l, {}) && CountsOk(h, lists)
    requires q in h.active && q in h.store && q in h.info && h.info[q].classIndex == None && c < SizeClass.CLASSES
    requires |objects| == SizeClass.ObjectCount(h.store[q].pages, c) && forall a :: a in objects ==> Contains(h.store[q], a)
    requires forall a :: a in At(lists, Central(c)) ==> !Contains(h.store[q], a)
    ensures CountsOk(Bind(h, q, c), lists[Central(c) := objects + At(lists, Central(c))])
  {
    hide P.Inv, Contains, InSpan, FreeList.Count, SizeClass.ObjectCount, SizeClass.ClassSize, IsBound, CountsOk;
    var h', list := Bind(h, q, c), At(lists, Central(c));
    var lists' := lists[Central(c) := objects + list];
    BoundOneMore(h, q, c);
    UnboundYet(h, q);
    BoundParts(h);
    forall x, d: nat | IsBound(h', x, d) ensures x in h'.store && x in h'.info && h'.info[x].centralFree == FreeIn(h', lists', x, d) {
      if x == q { NewCount(h, l, objects, list, q, x); } else { BindCountOf(h, lists, lists', l, objects, q, c, x, d); }
    }
    BoundParts(h');
    CountsFrom(h', lists');
  }

  lemma {:induction false} BoundParts(h: Heap)
    ensures forall x, d: nat :: IsBound(h, x, d) ==> x in h.active && x in h.store && x in h.info && d < SizeClass.CLASSES
  {
  }

  lemma {:induction false} CountsFrom(h: Heap, lists: Lists)
    requires forall x, d: nat :: IsBound(h, x, d) ==> x in h.store && x in h.info && h.info[x].centralFree == FreeIn(h, lists, x, d)
    ensures CountsOk(h, lists)
  {
  }

  lemma {:induction false} BindCountOf(h: Heap, lists: Lists, lists': Lists, l: P.Layout, objects: seq<nat>, q: Id,
                                       c: nat, x: Id, d: nat)
    requires P.Inv(h, l, {}) && CountsOk(h, lists) && q in h.store && x != q && IsBound(h, x, d)
    requires forall a :: a in objects ==> Contains(h.store[q], a)
    requires forall a :: a in At(lists, Central(c)) ==> !Contains(h.store[q], a)
    requires d == c ==> At(lists', Central(c)) == objects + At(lists, Central(c))
    requires d != c ==> At(lists', Central(d)) == At(lists, Central(d))
    ensures h.info[x].centralFree == FreeIn(h, lists', x, d)
  {
    hide P.Inv, Contains, InSpan, FreeList.Count, At;
    assert h.info[x].centralFree == FreeIn(h, lists, x, d);
    if d == c { NewCount(h, l, objects, At(lists, Central(c)), q, x); }
  }

  lemma {:induction false} BindSpans(h: Heap, spans: seq<seq<Id>>, q: Id, c: nat)
    requires SpansOk(h, spans) && q in h.active && q in h.store && q in h.info && h.info[q].classIndex == None
    requires c < SizeClass.CLASSES && SizeClass.ObjectCount(h.store[q].pages, c) > 0
    ensures SpansOk(Bind(h, q, c), spans[c := spans[c] + [q]])
  {
    BoundOneMore(h, q, c);
    var h', spans' := Bind(h, q, c), spans[c := spans[c] + [q]];
    assert q !in spans[c];
    forall x, d: nat | IsBound(h', x, d) ensures InfoOk(h'.store[x], h'.info[x], d) {
      if x != q { assert InfoOk(h.store[x], h.info[x], d); }
    }
    hide InfoOk;
  }

  /** The new objects lie in the new span and are no objects yet. */
  lemma {:induction false} NewObjects(s: State, w: Map, l: P.Layout, h: Heap, q: Id, c: nat)
    requires P.Inv(h, l, {}) && SpansOk(h, s.spans) && ObjectsOk(h, w) && ListsOk(s.lists, s.user, w)
    requires q in h.store && c < SizeClass.CLASSES && (forall d: nat :: !IsBound(h, q, d))
    ensures var n := SizeClass.ObjectCount(h.store[q].pages, c);
      var size := SizeClass.ClassSize(c);
      && (forall a :: a in Carve(Base(h.store[q]), size, n) ==> Contains(h.store[q], a) && a !in w)
      && (forall a :: a in At(s.lists, Central(c)) ==> !Contains(h.store[q], a))
  {
    var base, size, n := Base(h.store[q]), SizeClass.ClassSize(c), SizeClass.ObjectCount(h.store[q].pages, c);
    CarvedObjects(base, size, n, q, c);
    assert ListOk(At(s.lists, Central(c)), w, Central(c));
    hide P.Inv, SpansOk, ObjectsOk, ListsOk, Obj, Base, Carve, Contains;
    forall a | a in Carve(base, size, n) ensures Contains(h.store[q], a) && a !in w {
      ObjectInside(h.store[q], c, NewSpots(base, size, n, q, c)[a].i);
      NewAddress(h, s.spans, w, l, q, a);
    }
    forall a | a in At(s.lists, Central(c)) ensures !Contains(h.store[q], a) {
      if Contains(h.store[q], a) { NewAddress(h, s.spans, w, l, q, a); }
    }
  }

  lemma {:induction false} UnboundYet(h: Heap, q: Id)
    requires q in h.info && h.info[q].classIndex == None
    ensures forall d: nat :: !IsBound(h, q, d)
  {
  }

  /** The span is bound, its objects are on the central list. */
  lemma {:induction false} BindKeeps(s: State, w: Map, l: P.Layout, h: Heap, q: Id, c: nat)
    requires P.Inv(h, l, {}) && SpansOk(h, s.spans) && Core(h, s.lists, s.user, w)
    requires q in h.active && q in h.store && q in h.info && h.info[q].classIndex == None && c < SizeClass.CLASSES
    requires SizeClass.ObjectCount(h.store[q].pages, c) > 0 && c < |s.spans|
    ensures var n := SizeClass.ObjectCount(h.store[q].pages, c);
      Exact(Populate(s, h, q, c), w + NewSpots(Base(h.store[q]), SizeClass.ClassSize(c), n, q, c), l)
  {
    hide P.Inv, SpansOk, ObjectsOk, ListsOk, CountsOk, Obj, Carve, NewSpots, Base, Contains;
    hide SizeClass.ObjectCount, SizeClass.ClassSize, IsBound, At;
    var base, size, n := Base(h.store[q]), SizeClass.ClassSize(c), SizeClass.ObjectCount(h.store[q].pages, c);
    UnboundYet(h, q);
    NewObjects(s, w, l, h, q, c);
    CarvedObjects(base, size, n, q, c);
    BindObjects(h, w, NewSpots(base, size, n, q, c), q, c);
    BindLists(s.lists, s.user, w, NewSpots(base, size, n, q, c), Carve(base, size, n), c);
    BindCounts(h, s.lists, l, Carve(base, size, n), q, c);
    BindSpans(h, s.spans, q, c);
    T.InfoIsFree(h, l, {}, Bind(h, q, c).info);
  }

  lemma {:induction false} PopulateKeeps(s: State, w: Map, l: P.Layout, h: Heap, q: Id, c: nat)
    returns (w': Map, l': P.Layout)
    requires Exact(s, w, l) && Resting(s.heap) && c < SizeClass.CLASSES && c < |s.spans|
    requires Allocates(s.heap, SizeClass.PagesForClass(c), h, q) && q in h.store
    ensures Exact(Populate(s, h, q, c), w', l')
    ensures forall x, d: nat :: IsBound(Populate(s, h, q, c).heap, x, d) && x != q ==>
      var info := Populate(s, h, q, c).heap.info[x]; info.centralFree < info.objectCount
    ensures h.store[q].pages == SizeClass.PagesForClass(c)
  {
    l' := AllocateGains(s.heap, l, SizeClass.PagesForClass(c), h, q);
    GainedAlike(s.heap, h, s.spans, q);
    hide Allocates, P.Inv, SpansOk, ObjectsOk, ListsOk, CountsOk, Alike, Carve;
    AlikeObjects(s.heap, h, w);
    AlikeSpans(s.heap, h, s.spans, s.lists);
    SizeClass.SpanHoldsBatch(c);
    BindKeeps(s, w, l', h, q, c);
    w' := w + NewSpots(Base(h.store[q]), SizeClass.ClassSize(c), SizeClass.ObjectCount(h.store[q].pages, c), q, c);
    BoundOneMore(h, q, c);
  }
}
