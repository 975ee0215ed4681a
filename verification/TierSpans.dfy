/** Spans come to the central cache whole and leave it whole: cutting a new span
    into objects, and giving a wholly free one back to the page heap. */
module TierSpans {
  import opened Common
  import opened PageHeap
  import opened TierModel
  import opened TierInvariant
  import opened TierCounts
  import P = PageHeapInvariant
  import T = PageHeapTheorems
  import SizeClass
  import FreeList

  // ------------------------------------------------------ objects of a span

  ghost function ObjSet(base: nat, size: nat, n: nat): set<nat> {
    if n == 0 then {} else ObjSet(base, size, n - 1) + {Obj(base, size, n - 1)}
  }

  lemma {:induction false} ObjSetMembers(base: nat, size: nat, n: nat)
    requires size > 0
    ensures |ObjSet(base, size, n)| == n
    ensures forall i: nat :: i < n ==> Obj(base, size, i) in ObjSet(base, size, n)
    ensures forall a :: a in ObjSet(base, size, n) ==> exists i: nat :: i < n && a == Obj(base, size, i)
  {
    if n > 0 {
      ObjSetMembers(base, size, n - 1);
      hide Obj;
      forall i: nat | i < n - 1 ensures Obj(base, size, i) != Obj(base, size, n - 1) {
        DifferentObjects(base, size, i, n - 1);
      }
      assert Obj(base, size, n - 1) !in ObjSet(base, size, n - 1);
    }
  }

  ghost function Members(list: seq<nat>, pred: nat -> bool): set<nat> {
    set a | a in list && pred(a)
  }

  lemma {:induction false} CountIsCardinality(list: seq<nat>, pred: nat -> bool)
    requires Distinct(list)
    ensures FreeList.Count(list, pred) == |Members(list, pred)|
  {
    if list == [] {
      assert Members(list, pred) == {};
    } else {
      var front, x := list[..|list| - 1], list[|list| - 1];
      CountIsCardinality(front, pred);
      assert list == front + [x] && x !in front;
      assert Members(list, pred) == Members(front, pred) + (if pred(x) then {x} else {});
    }
  }

  lemma {:induction false} SubsetOfSameSize(a: set<nat>, b: set<nat>)
    requires a <= b && |a| == |b|
    ensures a == b
  {
    assert b == a + (b - a);
    assert |b| == |a| + |b - a|;
  }

  lemma {:induction false} MembersAreObjects(h: Heap, w: Map, list: seq<nat>, q: Id, c: nat)
    requires Found(h, w, list) && ObjectsOk(h, w) && IsBound(h, q, c)
    ensures Members(list, InSpan(h.store[q])) <= ObjSet(Base(h.store[q]), SizeClass.ClassSize(c), h.info[q].objectCount)
  {
    var size, n := SizeClass.ClassSize(c), h.info[q].objectCount;
    ObjSetMembers(Base(h.store[q]), size, n);
    hide Obj;
    forall a | a in Members(list, InSpan(h.store[q])) ensures a in ObjSet(Base(h.store[q]), size, n) {
      assert SpotOk(h, a, w[a]) && w[a].q == q && w[a].c == c;
    }
  }

  /** When the central list holds as many objects of a span as the span has, it holds
      them all. */
  lemma {:induction false} AllOnList(h: Heap, w: Map, list: seq<nat>, q: Id, c: nat, i: nat)
    requires Found(h, w, list) && ObjectsOk(h, w) && IsBound(h, q, c) && Distinct(list)
    requires FreeList.Count(list, InSpan(h.store[q])) == h.info[q].objectCount && i < h.info[q].objectCount
    ensures Address(h, q, c, i) in list
  {
    var size, n := SizeClass.ClassSize(c), h.info[q].objectCount;
    var all := ObjSet(Base(h.store[q]), size, n);
    ObjSetMembers(Base(h.store[q]), size, n);
    MembersAreObjects(h, w, list, q, c);
    CountIsCardinality(list, InSpan(h.store[q]));
    hide Obj, Found, ObjectsOk;
    SubsetOfSameSize(Members(list, InSpan(h.store[q])), all);
  }

  // ------------------------------------------------------------ retiring a span

  /** A span is found wholly free exactly when its own count says so. */
  lemma {:induction false} IdleExactly(s: State, w: Map, l: P.Layout, q: Id, c: nat)
    requires Exact(s, w, l) && IsBound(s.heap, q, c)
    ensures s.heap.info[q].centralFree == s.heap.info[q].objectCount <==> Idle(s, c, q)
  {
    assert InfoOk(s.heap.store[q], s.heap.info[q], c);
    hide P.Inv, ObjectsOk, ListsOk;
  }

  lemma {:induction false} AllCentral(s: State, w: Map, l: P.Layout, q: Id, c: nat)
    requires Exact(s, w, l) && IsBound(s.heap, q, c) && Idle(s, c, q)
    ensures forall a :: a in w && w[a].q == q ==> w[a].loc == Central(c)
  {
    var h, list := s.heap, At(s.lists, Central(c));
    hide P.Inv, CountsOk, SpansOk, ListsOk, Found, FreeList.Count, At, Distinct;
    WholeRange(s, w, l, Central(c));
    forall a | a in w && w[a].q == q ensures w[a].loc == Central(c) {
      assert SpotOk(h, a, w[a]);
      AllOnList(h, w, list, q, c, w[a].i);
    }
  }

  ghost function Less(w: Map, q: Id): Map {
    map a | a in w && w[a].q != q :: w[a]
  }

  /** The heap without one active span. */
  ghost predicate Lost(h: Heap, h': Heap, q: Id) {
    && (forall x :: x in h'.active <==> x in h.active && x != q)
    && (forall x :: x in h'.active && x in h.store ==> x in h'.store && h'.store[x] == h.store[x])
    && (forall x :: x in h'.active && x in h.info ==> x in h'.info && h'.info[x] == h.info[x])
  }

  lemma {:induction false} ReleaseLoses(h: Heap, l: P.Layout, q: Id) returns (l': P.Layout)
    requires P.Inv(h, l, {}) && q in h.active && q in h.store
    ensures P.Inv(Release(h, q), l', {}) && Lost(h, Release(h, q), q)
  {
    hide P.Inv, Release;
    l' := T.ReleaseKeeps(h, l, q);
    T.StillActive(h, l, q);
  }

  lemma {:induction false} LostBound(h: Heap, h': Heap, spans: seq<seq<Id>>, q: Id)
    requires Lost(h, h', q) && SpansOk(h, spans)
    ensures forall x, d: nat :: IsBound(h', x, d) <==> IsBound(h, x, d) && x != q
    ensures forall x :: x in h'.active ==> x in h'.store && x in h'.info && x in h.store && x in h.info
    ensures forall x :: x in h'.active ==> h'.store[x] == h.store[x] && h'.info[x] == h.info[x]
  {
  }

  lemma {:induction false} LostObjects(h: Heap, h': Heap, spans: seq<seq<Id>>, w: Map, q: Id)
    requires Lost(h, h', q) && SpansOk(h, spans) && ObjectsOk(h, w) && forall a :: a in w ==> SpotOk(h, a, w[a])
    ensures ObjectsOk(h', Less(w, q))
  {
    LostBound(h, h', spans, q);
    hide SpansOk, Lost;
    forall a | a in Less(w, q) ensures SpotOk(h', a, w[a]) {
      assert SpotOk(h, a, w[a]);
    }
    forall x, c, i: nat | IsBound(h', x, c) && i < h'.info[x].objectCount ensures Holds(Less(w, q), Address(h', x, c, i), x) {
      assert Holds(w, Address(h, x, c, i), x);
    }
  }

  lemma {:induction false} LostSpans(h: Heap, h': Heap, spans: seq<seq<Id>>, q: Id, c: nat)
    requires Lost(h, h', q) && SpansOk(h, spans) && IsBound(h, q, c)
    ensures SpansOk(h', spans[c := Without(spans[c], q)])
  {
    LostBound(h, h', spans, q);
    P.WithoutElements(spans[c], q);
    hide Lost, Without;
    var spans' := spans[c := Without(spans[c], q)];
    forall x, d: nat | IsBound(h', x, d) ensures InfoOk(h'.store[x], h'.info[x], d) {
      assert InfoOk(h.store[x], h.info[x], d);
    }
    hide InfoOk;
    assert forall d: nat, x :: d < SizeClass.CLASSES && d != c && x in spans[d] ==> x != q;
  }

  lemma {:induction false} LostLists(h: Heap, lists: Lists, user: set<nat>, w: Map, q: Id, c: nat)
    requires ListsOk(lists, user, w) && q in h.store && Found(h, w, At(lists, Central(c)))
    requires forall a :: a in w && w[a].q == q ==> w[a].loc == Central(c)
    ensures ListsOk(lists[Central(c) := FreeList.Keep(At(lists, Central(c)), InSpan(h.store[q]))], user, Less(w, q))
  {
    var list, loc := At(lists, Central(c)), Central(c);
    assert ListOk(list, w, loc);
    FreeList.KeepElements(list, InSpan(h.store[q]));
    var lists', w' := lists[loc := FreeList.Keep(list, InSpan(h.store[q]))], Less(w, q);
    hide FreeList.Keep;
    assert ListOk(At(lists', loc), w', loc);
    forall other: Loc | other != User ensures ListOk(At(lists', other), w', other) {
      assert ListOk(At(lists, other), w, other);
    }
  }

  lemma {:induction false} CountKept(list: seq<nat>, drop: nat -> bool, pred: nat -> bool)
    requires forall a :: a in list && drop(a) ==> !pred(a)
    ensures FreeList.Count(FreeList.Keep(list, drop), pred) == FreeList.Count(list, pred)
  {
    if list != [] {
      var front, x := list[..|list| - 1], list[|list| - 1];
      assert list == front + [x] && x in list;
      CountKept(front, drop, pred);
      CountConcat(FreeList.Keep(front, drop), if drop(x) then [] else [x], pred);
      assert FreeList.Count([x], pred) == if pred(x) then 1 else 0;
    }
  }

  lemma {:induction false} LostCounts(h: Heap, h': Heap, lists: Lists, spans: seq<seq<Id>>, w: Map, q: Id, c: nat)
    requires Lost(h, h', q) && SpansOk(h, spans) && CountsOk(h, lists) && q in h.store
    requires Found(h, w, At(lists, Central(c)))
    ensures CountsOk(h', lists[Central(c) := FreeList.Keep(At(lists, Central(c)), InSpan(h.store[q]))])
  {
    LostBound(h, h', spans, q);
    hide Lost, SpansOk;
    var list, drop := At(lists, Central(c)), InSpan(h.store[q]);
    var lists' := lists[Central(c) := FreeList.Keep(list, drop)];
    forall x, d: nat | IsBound(h', x, d) ensures h'.info[x].centralFree == FreeIn(h', lists', x, d) {
      assert h.info[x].centralFree == FreeIn(h, lists, x, d);
      if d == c { CountKept(list, drop, InSpan(h.store[x])); }
    }
  }

  /** A wholly free span takes all its objects with it. */
  lemma {:induction false} RetireKeeps(s: State, w: Map, l: P.Layout, q: Id, c: nat) returns (l': P.Layout)
    requires Exact(s, w, l) && IsBound(s.heap, q, c) && Idle(s, c, q) && c < |s.spans|
    ensures Exact(Retire(s, c, q), Less(w, q), l') && Lost(s.heap, Retire(s, c, q).heap, q)
  {
    hide P.Inv, SpansOk, ObjectsOk, ListsOk, CountsOk, Found, Idle, Less, Lost, FreeList.Keep, Release, At, Distinct;
    AllCentral(s, w, l, q, c);
    WholeRange(s, w, l, Central(c));
    l' := ReleaseLoses(s.heap, l, q);
    var h' := Release(s.heap, q);
    LostSpans(s.heap, h', s.spans, q, c);
    AllSpots(s.heap, w);
    LostObjects(s.heap, h', s.spans, w, q);
    LostLists(s.heap, s.lists, s.user, w, q, c);
    LostCounts(s.heap, h', s.lists, s.spans, w, q, c);
  }

  lemma {:induction false} AllSpots(h: Heap, w: Map)
    requires ObjectsOk(h, w)
    ensures forall a :: a in w ==> SpotOk(h, a, w[a])
  {
  }

  // ------------------------------------------------ giving a range back

  /** No list without repetitions holds more objects of a span than the span has. */
  lemma {:induction false} CountAtMostAll(h: Heap, w: Map, list: seq<nat>, q: Id, c: nat)
    requires Found(h, w, list) && ObjectsOk(h, w) && IsBound(h, q, c) && Distinct(list)
    ensures FreeList.Count(list, InSpan(h.store[q])) <= h.info[q].objectCount
  {
    MembersAreObjects(h, w, list, q, c);
    hide ObjectsOk, Found;
    CountIsCardinality(list, InSpan(h.store[q]));
    var all := ObjSet(Base(h.store[q]), SizeClass.ClassSize(c), h.info[q].objectCount);
    ObjSetMembers(Base(h.store[q]), SizeClass.ClassSize(c), h.info[q].objectCount);
    SmallerSet(Members(list, InSpan(h.store[q])), all);
  }

  /** A span's count never exceeds its objects. */
  lemma {:induction false} FreeAtMostAll(s: State, w: Map, l: P.Layout, q: Id, c: nat)
    requires Exact(s, w, l) && IsBound(s.heap, q, c)
    ensures s.heap.info[q].centralFree <= s.heap.info[q].objectCount
  {
    hide P.Inv, SpansOk, ObjectsOk, ListsOk, Found, At, Distinct;
    WholeRange(s, w, l, Central(c));
    CountAtMostAll(s.heap, w, At(s.lists, Central(c)), q, c);
  }

  lemma {:induction false} SmallerSet(a: set<nat>, b: set<nat>)
    requires a <= b
    ensures |a| <= |b|
  {
    assert b == a + (b - a);
  }

  /** Spans still bound are as they were. */
  ghost predicate Shrunk(h: Heap, h': Heap) {
    forall q, d: nat :: IsBound(h', q, d) ==> IsBound(h, q, d) && q in h.info && q in h'.info && h'.info[q] == h.info[q]
  }

  lemma {:induction false} LostShrinks(h: Heap, h': Heap, spans: seq<seq<Id>>, q: Id)
    requires Lost(h, h', q) && SpansOk(h, spans)
    ensures Shrunk(h, h') && forall x, d: nat :: IsBound(h', x, d) <==> IsBound(h, x, d) && x != q
  {
    LostBound(h, h', spans, q);
  }

  ghost predicate Busy(h: Heap, q: Id) {
    q in h.info && h.info[q].centralFree < h.info[q].objectCount
  }

  /** What one turn, or many, leaves alone. */
  ghost predicate Framed(s: State, s': State, c: nat) {
    && Shrunk(s.heap, s'.heap) && s'.user == s.user && s'.slots == s.slots && |s'.spans| == |s.spans|
    && (forall loc :: loc != Central(c) ==> At(s'.lists, loc) == At(s.lists, loc))
  }

  lemma {:induction false} StayTurn(s: State, w: Map, l: P.Layout, c: nat, q: Id)
    requires Exact(s, w, l) && IsBound(s.heap, q, c) && !Idle(s, c, q)
    ensures Busy(s.heap, q) && Shrunk(s.heap, s.heap)
  {
    IdleExactly(s, w, l, q, c);
    FreeAtMostAll(s, w, l, q, c);
    hide Exact, Idle;
  }

  lemma {:induction false} RetireTurn(s: State, w: Map, l: P.Layout, c: nat, q: Id) returns (l': P.Layout)
    requires Exact(s, w, l) && c < |s.spans| && IsBound(s.heap, q, c) && Idle(s, c, q)
    ensures Exact(Retire(s, c, q), Less(w, q), l') && Shrunk(s.heap, Retire(s, c, q).heap)
    ensures forall x, d: nat :: IsBound(Retire(s, c, q).heap, x, d) <==> IsBound(s.heap, x, d) && x != q
  {
    l' := RetireKeeps(s, w, l, q, c);
    hide P.Inv, ObjectsOk, ListsOk, CountsOk, SpansOk, Idle, Lost, Retire, Less;
    LostShrinks(s.heap, Retire(s, c, q).heap, s.spans, q);
  }

  lemma {:induction false} LookAtKeeps(s: State, w: Map, l: P.Layout, c: nat, q: Id) returns (w': Map, l': P.Layout)
    requires Exact(s, w, l) && c < |s.spans| && IsBound(s.heap, q, c)
    ensures var s' := LookAt(s, c, q);
      && Exact(s', w', l') && Framed(s, s', c)
      && (forall d: nat :: IsBound(s'.heap, q, d) ==> Busy(s'.heap, q))
      && (forall x, d: nat :: IsBound(s.heap, x, d) && x != q ==> IsBound(s'.heap, x, d))
  {
    hide Exact, Idle, Release, FreeList.Keep, Less, IsBound, Busy, Shrunk;
    w', l' := w, l;
    if Idle(s, c, q) {
      l' := RetireTurn(s, w, l, c, q);
      w' := Less(w, q);
    } else {
      StayTurn(s, w, l, c, q);
    }
  }

  lemma {:induction false} FramedSelf(s: State, c: nat)
    ensures Framed(s, s, c)
  {
  }

  lemma {:induction false} FramedTwice(a: State, b: State, c: State, k: nat)
    requires Framed(a, b, k) && Framed(b, c, k)
    ensures Framed(a, c, k)
  {
    hide IsBound;
  }

  /** The loop gives back every span of `todo` that is wholly free, and only those. */
  lemma {:induction false} ReleaseEmptyKeeps(s: State, w: Map, l: P.Layout, c: nat, todo: seq<Id>)
    returns (w': Map, l': P.Layout)
    requires Exact(s, w, l) && c < |s.spans| && Distinct(todo) && forall q :: q in todo ==> IsBound(s.heap, q, c)
    ensures Exact(ReleaseEmpty(s, c, todo), w', l') && Framed(s, ReleaseEmpty(s, c, todo), c)
    ensures var s' := ReleaseEmpty(s, c, todo);
      && (forall q, d: nat :: IsBound(s'.heap, q, d) && q in todo ==> Busy(s'.heap, q))
      && (forall q, d: nat :: IsBound(s.heap, q, d) && q !in todo ==> IsBound(s'.heap, q, d))
    decreases |todo|
  {
    hide Exact, LookAt, Idle, IsBound;
    if todo == [] {
      w', l' := w, l;
      FramedSelf(s, c);
    } else {
      var q, rest := todo[0], todo[1..];
      assert todo == [q] + rest && q in todo && forall x :: x in todo <==> x == q || x in rest;
      var s1 := LookAt(s, c, q);
      var w1, l1 := LookAtKeeps(s, w, l, c, q);
      w', l' := ReleaseEmptyKeeps(s1, w1, l1, c, rest);
      FramedTwice(s, s1, ReleaseEmpty(s1, c, rest), c);
    }
  }

  lemma {:induction false} GiveCounts(h: Heap, h': Heap, lists: Lists, lists': Lists, w: Map, range: seq<nat>, loc: Loc)
    requires loc != User && Found(h, w, range) && ObjectsOk(h, w)
    requires AllIn(w, range, loc) && CountsOk(h, lists) && SameBut(h, h')
    requires At(lists', Central(loc.c)) == range + At(lists, Central(loc.c))
    requires forall d: nat :: d != loc.c ==> At(lists', Central(d)) == At(lists, Central(d))
    requires forall q :: q in h.info && q in h.store ==>
      h'.info[q].centralFree == h.info[q].centralFree + FreeList.Count(range, InSpan(h.store[q]))
    ensures CountsOk(h', lists')
  {
    BoundStays(h, h');
    hide Found, ObjectsOk;
    forall q, d: nat | IsBound(h', q, d) ensures h'.info[q].centralFree == FreeIn(h', lists', q, d) {
      if d == loc.c {
        CountConcat(range, At(lists, Central(d)), InSpan(h.store[q]));
      } else {
        OfOneClass(h, w, range, loc, q);
      }
    }
  }

  /** The first half of a return: the range joins the central list. */
  function Rejoined(s: State, t: nat, c: nat, slot: nat): State {
    var range := At(s.lists, Held(t, c, slot));
    s.(heap := OnRelease(s.heap, range), lists := Shift(s.lists, Held(t, c, slot), Central(c), |range|))
  }

  lemma {:induction false} JoinKeeps(s: State, w: Map, l: P.Layout, t: nat, c: nat, slot: nat)
    requires Exact(s, w, l)
    ensures Exact(Rejoined(s, t, c, slot), Moved(w, At(s.lists, Held(t, c, slot)), Central(c)), l)
    ensures SameBut(s.heap, Rejoined(s, t, c, slot).heap)
  {
    hide Found, ObjectsOk, SpansOk, ListsOk, CountsOk, P.Inv, OnRelease, Moved, Shift, At, SameBut;
    var from, range, h := Held(t, c, slot), At(s.lists, Held(t, c, slot)), s.heap;
    assert range[..|range|] == range;
    RangeOf(s, w, l, from, |range|);
    OnReleaseCounts(h, w, range);
    ShiftLists(s.lists, s.user, w, from, Central(c), |range|);
    ShiftAt(s.lists, from, Central(c), |range|);
    GiveCounts(h, OnRelease(h, range), s.lists, Shift(s.lists, from, Central(c), |range|), w, range, from);
    MoveWithHeap(h, OnRelease(h, range), s.spans, w, l, range, from, Central(c));
  }

  lemma {:induction false} SpansBound(h: Heap, spans: seq<seq<Id>>, c: nat)
    requires SpansOk(h, spans) && c < SizeClass.CLASSES
    ensures c < |spans| && Distinct(spans[c]) && forall q :: q in spans[c] <==> IsBound(h, q, c)
  {
  }

  /** Spans of other classes keep their counts when a range of class `c` comes back. */
  lemma {:induction false} OthersRest(s: State, w: Map, l: P.Layout, t: nat, c: nat, slot: nat)
    requires Exact(s, w, l) && Resting(s.heap)
    ensures forall q, d: nat :: IsBound(Rejoined(s, t, c, slot).heap, q, d) && d != c ==> Busy(Rejoined(s, t, c, slot).heap, q)
  {
    var from, range, h := Held(t, c, slot), At(s.lists, Held(t, c, slot)), s.heap;
    assert range[..|range|] == range;
    RangeOf(s, w, l, from, |range|);
    OnReleaseCounts(h, w, range);
    var h' := Rejoined(s, t, c, slot).heap;
    BoundStays(h, h');
    hide Found, SpansOk, ListsOk, CountsOk, P.Inv, OnRelease, ObjectsOk;
    forall q, d: nat | IsBound(h', q, d) && d != c ensures Busy(h', q) {
      OfOneClass(h, w, range, from, q);
    }
  }

  lemma {:induction false} RestAfter(h: Heap, h': Heap, c: nat, todo: seq<Id>)
    requires Shrunk(h, h') && (forall q :: q in todo <==> IsBound(h, q, c))
    requires forall q, d: nat :: IsBound(h, q, d) && d != c ==> Busy(h, q)
    requires forall q, d: nat :: IsBound(h', q, d) && q in todo ==> Busy(h', q)
    ensures Resting(h')
  {
  }

  /** A return keeps everything exact and leaves no wholly free span behind. */
  lemma {:induction false} ReturnKeeps(s: State, w: Map, l: P.Layout, t: nat, c: nat, slot: nat)
    returns (w': Map, l': P.Layout)
    requires Exact(s, w, l) && c < SizeClass.CLASSES && c < |s.spans| && Resting(s.heap)
    ensures var s' := ReturnCentral(s, t, c, slot);
      && Exact(s', w', l') && Resting(s'.heap) && s'.user == s.user && s'.slots == s.slots
      && At(s'.lists, Held(t, c, slot)) == []
      && (forall loc :: loc != Central(c) && loc != Held(t, c, slot) ==> At(s'.lists, loc) == At(s.lists, loc))
  {
    var s1 := Rejoined(s, t, c, slot);
    JoinKeeps(s, w, l, t, c, slot);
    OthersRest(s, w, l, t, c, slot);
    ShiftAt(s.lists, Held(t, c, slot), Central(c), |At(s.lists, Held(t, c, slot))|);
    SpansBound(s1.heap, s1.spans, c);
    hide P.Inv, SpansOk, Core, ReleaseEmpty, OnRelease, Shift, Moved, Busy, IsBound, Resting, SameBut;
    w', l' := ReleaseEmptyKeeps(s1, Moved(w, At(s.lists, Held(t, c, slot)), Central(c)), l, c, s1.spans[c]);
    RestAfter(s1.heap, ReleaseEmpty(s1, c, s1.spans[c]).heap, c, s1.spans[c]);
  }
}
