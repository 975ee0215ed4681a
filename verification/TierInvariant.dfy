/** What every critical section of the tiers keeps: each object of each span cut
    into objects is in exactly one place, and the free counts are exact. */
module TierInvariant {
  import opened Common
  import opened PageHeap
  import opened TierModel
  import P = PageHeapInvariant
  import T = PageHeapTheorems
  import Arithmetic
  import SizeClass
  import FreeList

  /** An object: its span, its class, its number in the span, and where it is. */
  datatype Spot = Spot(q: Id, c: nat, i: nat, loc: Loc)

  type Map = map<nat, Spot>

  // ------------------------------------------------------------ the invariant

  ghost predicate IsBound(h: Heap, q: Id, c: nat) {
    q in h.active && q in h.store && q in h.info && h.info[q].classIndex == Some(c) && c < SizeClass.CLASSES
  }

  ghost function Address(h: Heap, q: Id, c: nat, i: nat): nat
    requires q in h.store && c < SizeClass.CLASSES
  {
    Obj(Base(h.store[q]), SizeClass.ClassSize(c), i)
  }

  ghost predicate InClass(loc: Loc, c: nat) {
    match loc
    case User => true
    case Central(d) => d == c
    case Transfer(d, slot) => d == c
    case Local(t, d) => d == c
    case Held(t, d, slot) => d == c
  }

  ghost predicate SpotOk(h: Heap, a: nat, p: Spot) {
    && IsBound(h, p.q, p.c) && p.i < h.info[p.q].objectCount && a == Address(h, p.q, p.c, p.i)
    && InClass(p.loc, p.c)
  }

  ghost predicate Holds(w: Map, a: nat, q: Id) {
    a in w && w[a].q == q
  }

  /** The map holds exactly the objects of the spans that are cut into objects. */
  ghost predicate ObjectsOk(h: Heap, w: Map) {
    && (forall a :: a in w ==> SpotOk(h, a, w[a]))
    && (forall q, c, i: nat :: IsBound(h, q, c) && i < h.info[q].objectCount ==> Holds(w, Address(h, q, c, i), q))
  }

  /** A list holds exactly the objects whose place it is, each once. */
  ghost predicate ListOk(list: seq<nat>, w: Map, loc: Loc) {
    Distinct(list) && forall a :: a in list <==> a in w && w[a].loc == loc
  }

  ghost predicate ListsOk(lists: Lists, user: set<nat>, w: Map) {
    && (forall loc: Loc :: loc != User ==> ListOk(At(lists, loc), w, loc))
    && (forall a :: a in user <==> a in w && w[a].loc == User)
  }

  ghost predicate InfoOk(s: Span, info: Info, c: nat)
    requires c < SizeClass.CLASSES
  {
    info.objectSize == SizeClass.ClassSize(c) && info.objectCount == SizeClass.ObjectCount(s.pages, c) > 0
  }

  /** The spans of each class are exactly the active spans bound to it. */
  ghost predicate SpansOk(h: Heap, spans: seq<seq<Id>>) {
    && |spans| == SizeClass.CLASSES
    && (forall q :: q in h.active ==> q in h.store && q in h.info)
    && (forall q :: q in h.active && h.info[q].classIndex.Some? ==> IsBound(h, q, h.info[q].classIndex.value))
    && (forall q, c: nat :: IsBound(h, q, c) ==> InfoOk(h.store[q], h.info[q], c))
    && (forall c :: 0 <= c < SizeClass.CLASSES ==> Distinct(spans[c]))
    && (forall c, q {:trigger q in spans[c]} :: 0 <= c < SizeClass.CLASSES ==> (q in spans[c] <==> IsBound(h, q, c)))
  }

  /** The number of objects of a span on the central list. */
  ghost function FreeIn(h: Heap, lists: Lists, q: Id, c: nat): nat
    requires q in h.store
  {
    FreeList.Count(At(lists, Central(c)), InSpan(h.store[q]))
  }

  ghost predicate CountsOk(h: Heap, lists: Lists) {
    forall q, c: nat :: IsBound(h, q, c) ==> h.info[q].centralFree == FreeIn(h, lists, q, c)
  }

  /** Ranges and thread lists are shorter than two batches. */
  ghost predicate SizeOk(n: nat, loc: Loc) {
    (loc.Local? || loc.Held? || loc.Transfer?) && loc.c < SizeClass.CLASSES ==> n < 2 * SizeClass.BatchCount(loc.c)
  }

  /** A transfer vector is never longer than its maximum, and slots past its end are
      empty. */
  ghost predicate SlotsOk(lists: Lists, slots: seq<nat>) {
    && |slots| == SizeClass.CLASSES
    && (forall c :: 0 <= c < SizeClass.CLASSES ==> slots[c] <= SizeClass.MaxRanges(c))
    && (forall c: nat, k: nat :: c < SizeClass.CLASSES && k >= slots[c] ==> At(lists, Transfer(c, k)) == [])
  }

  ghost predicate SizesOk(lists: Lists, slots: seq<nat>) {
    SlotsOk(lists, slots) && forall loc: Loc :: SizeOk(|At(lists, loc)|, loc)
  }

  ghost predicate Inv(s: State, w: Map, l: P.Layout) {
    && P.Inv(s.heap, l, {}) && SpansOk(s.heap, s.spans) && ObjectsOk(s.heap, w)
    && ListsOk(s.lists, s.user, w) && CountsOk(s.heap, s.lists) && SizesOk(s.lists, s.slots)
  }

  /** At rest no span has all its objects on the central list. */
  ghost predicate Resting(h: Heap) {
    forall q, c: nat :: IsBound(h, q, c) ==> h.info[q].centralFree < h.info[q].objectCount
  }

  lemma {:induction false} StartKeeps()
    ensures Inv(Start(), map[], P.Layout(map[], map[], {})) && Resting(Start().heap)
  {
    P.EmptyKeeps();
    hide P.Inv;
  }

  // -------------------------------------------------------------- moving ranges

  ghost function Moved(w: Map, range: seq<nat>, loc: Loc): Map {
    map a | a in w :: if a in range then w[a].(loc := loc) else w[a]
  }

  lemma {:induction false} MovedObjects(h: Heap, w: Map, range: seq<nat>, loc: Loc)
    requires ObjectsOk(h, w) && forall a :: a in range && a in w ==> InClass(loc, w[a].c)
    ensures ObjectsOk(h, Moved(w, range, loc))
  {
    hide IsBound, Address;
  }

  lemma {:induction false} SplitDistinct(list: seq<nat>, n: nat)
    requires Distinct(list) && n <= |list|
    ensures Distinct(list[..n]) && Distinct(list[n..])
    ensures forall a :: a in list <==> a in list[..n] || a in list[n..]
    ensures forall a :: a in list[..n] ==> a !in list[n..]
  {
    assert list == list[..n] + list[n..];
  }

  lemma {:induction false} JoinDistinct(a: seq<nat>, b: seq<nat>)
    requires Distinct(a) && Distinct(b) && forall x :: x in a ==> x !in b
    ensures Distinct(a + b)
  {
    forall i, j | 0 <= i < j < |a + b| ensures (a + b)[i] != (a + b)[j] {
      if i < |a| <= j { assert (a + b)[i] in a && (a + b)[j] in b; }
    }
  }

  lemma {:induction false} FromOk(list: seq<nat>, n: nat, w: Map, from: Loc, to: Loc)
    requires ListOk(list, w, from) && n <= |list| && from != to
    ensures ListOk(list[n..], Moved(w, list[..n], to), from)
  {
    SplitDistinct(list, n);
  }

  lemma {:induction false} ToOk(range: seq<nat>, list: seq<nat>, w: Map, from: Loc, to: Loc)
    requires Distinct(range) && ListOk(list, w, to) && from != to
    requires forall a :: a in range ==> a in w && w[a].loc == from
    ensures ListOk(range + list, Moved(w, range, to), to)
  {
    JoinDistinct(range, list);
  }

  lemma {:induction false} OtherOk(list: seq<nat>, range: seq<nat>, w: Map, from: Loc, to: Loc, loc: Loc)
    requires ListOk(list, w, loc) && loc != from && loc != to
    requires forall a :: a in range ==> a in w && w[a].loc == from
    ensures ListOk(list, Moved(w, range, to), loc)
  {
  }

  /** Moving a range between two lists keeps every list exact. */
  lemma {:induction false} ShiftLists(lists: Lists, user: set<nat>, w: Map, from: Loc, to: Loc, n: nat)
    requires ListsOk(lists, user, w) && from != to && from != User && to != User && n <= |At(lists, from)|
    ensures ListsOk(Shift(lists, from, to, n), user, Moved(w, At(lists, from)[..n], to))
  {
    var list := At(lists, from);
    var range, w' := list[..n], Moved(w, list[..n], to);
    assert ListOk(list, w, from) && ListOk(At(lists, to), w, to);
    SplitDistinct(list, n);
    FromOk(list, n, w, from, to);
    ToOk(range, At(lists, to), w, from, to);
    forall loc: Loc | loc != User ensures ListOk(At(Shift(lists, from, to, n), loc), w', loc) {
      if loc != from && loc != to { OtherOk(At(lists, loc), range, w, from, to, loc); }
    }
  }

  // ------------------------------------------------------------- addresses

  lemma {:induction false} PageOf(start: nat, pages: nat, a: nat)
    requires start * PAGE <= a < start * PAGE + pages * PAGE
    ensures start <= a / PAGE < start + pages
  {
  }

  /** An object lies inside its span. */
  lemma {:induction false} ObjectInside(s: Span, c: nat, i: nat)
    requires c < SizeClass.CLASSES && i < SizeClass.ObjectCount(s.pages, c)
    ensures var a := Obj(Base(s), SizeClass.ClassSize(c), i);
      Contains(s, a) && Base(s) <= a && a + SizeClass.ClassSize(c) <= Base(s) + s.pages * PAGE
  {
    Arithmetic.QuotientTimes(s.pages * PAGE, SizeClass.ClassSize(c), i);
    PageOf(s.start, s.pages, Obj(Base(s), SizeClass.ClassSize(c), i));
  }

  lemma {:induction false} DifferentObjects(base: nat, size: nat, i: nat, j: nat)
    requires size > 0 && i < j
    ensures Obj(base, size, i) + size <= Obj(base, size, j)
  {
    Arithmetic.TimesMonotone(size, i, j);
  }

  lemma {:induction false} OffsetOf(base: nat, size: nat, i: nat)
    requires size > 0
    ensures Obj(base, size, i) >= base && (Obj(base, size, i) - base) % size == 0
  {
    Arithmetic.QuotientUnique(i * size, size, i, 0);
  }

  /** The page map finds the span of every object. */
  lemma {:induction false} FindsSpan(h: Heap, spans: seq<seq<Id>>, w: Map, l: P.Layout, a: nat)
    requires P.Inv(h, l, {}) && SpansOk(h, spans) && ObjectsOk(h, w) && a in w
    ensures MapObject(h, a) == Some(w[a].q) && IsBound(h, w[a].q, w[a].c) && Contains(h.store[w[a].q], a)
  {
    hide P.Inv;
    var p := w[a];
    assert SpotOk(h, a, p);
    assert InfoOk(h.store[p.q], h.info[p.q], p.c);
    ObjectInside(h.store[p.q], p.c, p.i);
    T.MapObjectIsExact(h, l, a, p.q);
  }

  /** An address of one object is in no other span. */
  lemma {:induction false} InOneSpan(h: Heap, spans: seq<seq<Id>>, w: Map, l: P.Layout, a: nat, q: Id)
    requires P.Inv(h, l, {}) && SpansOk(h, spans) && ObjectsOk(h, w) && a in w && q in h.store
    ensures Contains(h.store[q], a) <==> q == w[a].q
  {
    hide P.Inv, SpansOk, ObjectsOk;
    FindsSpan(h, spans, w, l, a);
    if Contains(h.store[q], a) { T.SpansAreDisjoint(h, l, q, w[a].q, a / PAGE); }
  }

  lemma {:induction false} SpotOf(h: Heap, spans: seq<seq<Id>>, w: Map, a: nat)
    requires SpansOk(h, spans) && ObjectsOk(h, w) && a in w
    ensures SpotOk(h, a, w[a]) && InfoOk(h.store[w[a].q], h.info[w[a].q], w[a].c)
  {
  }

  lemma {:induction false} ClassFound(h: Heap, a: nat, p: Spot)
    requires MapObject(h, a) == Some(p.q) && SpotOk(h, a, p) && InfoOk(h.store[p.q], h.info[p.q], p.c)
    ensures ClassOfBlock(h, a) == Some(p.c)
  {
    hide Obj, Base, MapObject;
    OffsetOf(Base(h.store[p.q]), SizeClass.ClassSize(p.c), p.i);
  }

  /** A block in use is recognised with its class. */
  lemma {:induction false} FindsClass(h: Heap, spans: seq<seq<Id>>, w: Map, l: P.Layout, a: nat)
    requires P.Inv(h, l, {}) && SpansOk(h, spans) && ObjectsOk(h, w) && a in w
    ensures ClassOfBlock(h, a) == Some(w[a].c)
  {
    hide P.Inv, SpansOk, ObjectsOk, SpotOk, InfoOk, MapObject, ClassOfBlock, Contains;
    FindsSpan(h, spans, w, l, a);
    SpotOf(h, spans, w, a);
    ClassFound(h, a, w[a]);
  }

  // -------------------------------------------------------- sections without the heap

  ghost predicate Core(h: Heap, lists: Lists, user: set<nat>, w: Map) {
    ObjectsOk(h, w) && ListsOk(lists, user, w) && CountsOk(h, lists)
  }

  lemma {:induction false} ShiftCore(h: Heap, lists: Lists, user: set<nat>, w: Map, from: Loc, to: Loc, n: nat, c: nat)
    requires Core(h, lists, user, w) && n <= |At(lists, from)| && from != to
    requires from != User && to != User && !from.Central? && !to.Central? && from.c == c && to.c == c
    ensures Core(h, Shift(lists, from, to, n), user, Moved(w, At(lists, from)[..n], to))
  {
    hide IsBound, Address, ObjectsOk, FreeList.Count;
    var range := At(lists, from)[..n];
    ShiftLists(lists, user, w, from, to, n);
    assert ListOk(At(lists, from), w, from);
    SameClass(h, w, range, from, to);
    MovedObjects(h, w, range, to);
    forall d: nat ensures At(Shift(lists, from, to, n), Central(d)) == At(lists, Central(d)) {
    }
  }

  lemma {:induction false} SameClass(h: Heap, w: Map, range: seq<nat>, from: Loc, to: Loc)
    requires ObjectsOk(h, w) && from != User && to != User && from.c == to.c
    requires forall a :: a in range ==> a in w && w[a].loc == from
    ensures forall a :: a in range && a in w ==> InClass(to, w[a].c)
  {
    forall a | a in range ensures InClass(to, w[a].c) {
      assert SpotOk(h, a, w[a]);
    }
  }

  lemma {:induction false} PopLists(lists: Lists, user: set<nat>, w: Map, loc: Loc)
    requires ListsOk(lists, user, w) && loc != User && At(lists, loc) != []
    ensures ListsOk(lists[loc := At(lists, loc)[1..]], user + {At(lists, loc)[0]}, Moved(w, At(lists, loc)[..1], User))
  {
    var list := At(lists, loc);
    var lists', w' := lists[loc := list[1..]], Moved(w, list[..1], User);
    assert ListOk(list, w, loc);
    assert list[0] in list && list[..1] == [list[0]];
    FromOk(list, 1, w, loc, User);
    forall other: Loc | other != User ensures ListOk(At(lists', other), w', other) {
      if other != loc { OtherOk(At(lists, other), list[..1], w, loc, User, other); }
    }
  }

  lemma {:induction false} PopCore(h: Heap, lists: Lists, user: set<nat>, w: Map, t: nat, c: nat)
    requires Core(h, lists, user, w) && At(lists, Local(t, c)) != []
    ensures var list := At(lists, Local(t, c));
      Core(h, lists[Local(t, c) := list[1..]], user + {list[0]}, Moved(w, list[..1], User))
  {
    hide IsBound, Address, ObjectsOk, FreeList.Count, ListsOk;
    var list := At(lists, Local(t, c));
    PopLists(lists, user, w, Local(t, c));
    MovedObjects(h, w, list[..1], User);
    forall d: nat ensures At(lists[Local(t, c) := list[1..]], Central(d)) == At(lists, Central(d)) {
    }
  }

  lemma {:induction false} PushLists(lists: Lists, user: set<nat>, w: Map, loc: Loc, a: nat)
    requires ListsOk(lists, user, w) && loc != User && a in user
    ensures ListsOk(lists[loc := [a] + At(lists, loc)], user - {a}, Moved(w, [a], loc))
  {
    var lists', w' := lists[loc := [a] + At(lists, loc)], Moved(w, [a], loc);
    assert ListOk(At(lists, loc), w, loc);
    ToOk([a], At(lists, loc), w, User, loc);
    forall other: Loc | other != User ensures ListOk(At(lists', other), w', other) {
      if other != loc { OtherOk(At(lists, other), [a], w, User, loc, other); }
    }
  }

  lemma {:induction false} PushCore(h: Heap, lists: Lists, user: set<nat>, w: Map, t: nat, c: nat, a: nat)
    requires Core(h, lists, user, w) && a in user && a in w && w[a].c == c
    ensures Core(h, lists[Local(t, c) := [a] + At(lists, Local(t, c))], user - {a}, Moved(w, [a], Local(t, c)))
  {
    hide IsBound, Address, ObjectsOk, FreeList.Count, ListsOk;
    PushLists(lists, user, w, Local(t, c), a);
    MovedObjects(h, w, [a], Local(t, c));
    forall d: nat ensures At(lists[Local(t, c) := [a] + At(lists, Local(t, c))], Central(d)) == At(lists, Central(d)) {
    }
  }
}
