/** Which addresses a free takes for small blocks, and what it does to the ones that
    were never handed out. */
module TierFree {
  import opened Common
  import opened PageHeap
  import opened TierModel
  import opened TierInvariant
  import opened TierCounts
  import opened TierTheorems
  import P = PageHeapInvariant
  import T = PageHeapTheorems
  import Arithmetic
  import SizeClass

  // ----------------------------------------------------------- what is accepted

  /** Address `a` is object `k` of span `q`, or the start of the part after the last
      object that is too short for another one. */
  ghost predicate AtBoundary(h: Heap, q: Id, c: nat, k: nat, a: nat) {
    && IsBound(h, q, c) && a == Address(h, q, c, k)
    && (k < h.info[q].objectCount
        || (k == h.info[q].objectCount && h.store[q].pages * PAGE % SizeClass.ClassSize(c) != 0))
  }

  /** Boundaries of blocks of `size` inside `bytes`. */
  lemma {:induction false} BoundaryInside(bytes: nat, size: nat, k: nat)
    requires size > 0
    ensures k * size < bytes <==> k < bytes / size || (k == bytes / size && bytes % size != 0)
  {
    var n := bytes / size;
    assert bytes == n * size + bytes % size;
    if k < n { Arithmetic.QuotientTimes(bytes, size, k); }
    if k > n {
      Arithmetic.TimesMonotone(size, n, k);
      assert size * n == n * size && size * k == k * size;
    }
  }

  lemma {:induction false} InPages(s: Span, a: nat)
    ensures Contains(s, a) <==> Base(s) <= a < Base(s) + s.pages * PAGE
  {
  }

  /** What the checks of a free look at. */
  ghost predicate OnGrid(h: Heap, q: Id, c: nat, a: nat) {
    && IsBound(h, q, c) && MapObject(h, a) == Some(q)
    && a >= Base(h.store[q]) && (a - Base(h.store[q])) % SizeClass.ClassSize(c) == 0
  }

  lemma {:induction false} GridExactly(h: Heap, spans: seq<seq<Id>>, l: P.Layout, a: nat, c: nat)
    requires P.Inv(h, l, {}) && SpansOk(h, spans)
    ensures ClassOfBlock(h, a) == Some(c) <==> exists q :: OnGrid(h, q, c, a)
  {
    hide P.Inv, Base, Obj;
    if MapObject(h, a).Some? {
      var q := MapObject(h, a).value;
      T.MapObjectIsExact(h, l, a, q);
      hide MapObject;
      assert h.info[q].classIndex.Some? ==> IsBound(h, q, h.info[q].classIndex.value);
      assert IsBound(h, q, c) ==> InfoOk(h.store[q], h.info[q], c);
      assert ClassOfBlock(h, a) == Some(c) ==> OnGrid(h, q, c, a);
    }
  }

  /** Inside a span, a boundary is an object or the start of the part left over. */
  lemma {:induction false} BoundaryNumber(s: Span, c: nat, a: nat) returns (k: nat)
    requires c < SizeClass.CLASSES && Contains(s, a) && a >= Base(s) && (a - Base(s)) % SizeClass.ClassSize(c) == 0
    ensures a == Obj(Base(s), SizeClass.ClassSize(c), k)
    ensures var n := SizeClass.ObjectCount(s.pages, c);
      k < n || (k == n && s.pages * PAGE % SizeClass.ClassSize(c) != 0)
  {
    var size := SizeClass.ClassSize(c);
    k := (a - Base(s)) / size;
    assert a - Base(s) == k * size + (a - Base(s)) % size;
    InPages(s, a);
    BoundaryInside(s.pages * PAGE, size, k);
  }

  lemma {:induction false} BoundaryContained(s: Span, c: nat, k: nat)
    requires c < SizeClass.CLASSES
    requires var n := SizeClass.ObjectCount(s.pages, c);
      k < n || (k == n && s.pages * PAGE % SizeClass.ClassSize(c) != 0)
    ensures Contains(s, Obj(Base(s), SizeClass.ClassSize(c), k))
  {
    BoundaryInside(s.pages * PAGE, SizeClass.ClassSize(c), k);
    InPages(s, Obj(Base(s), SizeClass.ClassSize(c), k));
  }

  lemma {:induction false} BoundInfo(h: Heap, spans: seq<seq<Id>>, l: P.Layout, q: Id, c: nat, a: nat)
    requires P.Inv(h, l, {}) && SpansOk(h, spans) && IsBound(h, q, c)
    ensures h.info[q].objectCount == SizeClass.ObjectCount(h.store[q].pages, c)
    ensures MapObject(h, a) == Some(q) <==> Contains(h.store[q], a)
  {
    assert InfoOk(h.store[q], h.info[q], c);
    hide P.Inv, MapObject;
    T.MapObjectIsExact(h, l, a, q);
  }

  lemma {:induction false} GridIsBoundary(h: Heap, spans: seq<seq<Id>>, l: P.Layout, q: Id, c: nat, a: nat)
    returns (k: nat)
    requires P.Inv(h, l, {}) && SpansOk(h, spans) && OnGrid(h, q, c, a)
    ensures AtBoundary(h, q, c, k, a)
  {
    hide P.Inv, SpansOk, MapObject, Obj, Base, Contains, SizeClass.ObjectCount;
    BoundInfo(h, spans, l, q, c, a);
    k := BoundaryNumber(h.store[q], c, a);
  }

  lemma {:induction false} BoundaryIsGrid(h: Heap, spans: seq<seq<Id>>, l: P.Layout, q: Id, c: nat, k: nat, a: nat)
    requires P.Inv(h, l, {}) && SpansOk(h, spans) && AtBoundary(h, q, c, k, a)
    ensures OnGrid(h, q, c, a)
  {
    hide P.Inv, SpansOk, MapObject, Obj, Base, Contains, SizeClass.ObjectCount;
    BoundInfo(h, spans, l, q, c, a);
    BoundaryContained(h.store[q], c, k);
    OffsetOf(Base(h.store[q]), SizeClass.ClassSize(c), k);
  }

  lemma {:induction false} AcceptedExactly(h: Heap, spans: seq<seq<Id>>, l: P.Layout, a: nat, c: nat)
    requires P.Inv(h, l, {}) && SpansOk(h, spans)
    ensures ClassOfBlock(h, a) == Some(c) <==> exists q, k: nat :: AtBoundary(h, q, c, k, a)
  {
    hide P.Inv, SpansOk, ClassOfBlock, OnGrid, AtBoundary;
    GridExactly(h, spans, l, a, c);
    if q :| OnGrid(h, q, c, a) {
      var k := GridIsBoundary(h, spans, l, q, c, a);
    }
    if q, k: nat :| AtBoundary(h, q, c, k, a) {
      BoundaryIsGrid(h, spans, l, q, c, k, a);
    }
  }

  /** In every reachable state a free takes an address for a small block of class `c`
      exactly when it is an object of a span of that class, or the start of the part left
      over behind the last object. */
  lemma {:induction false} FreesAccept(trace: seq<State>, steps: seq<Step>, i: nat, a: nat, c: nat)
    requires Run(trace, steps) && i < |trace|
    ensures ClassOfBlock(trace[i].heap, a) == Some(c) <==> exists q, k: nat :: AtBoundary(trace[i].heap, q, c, k, a)
  {
    var w, l := RunKeeps(trace, steps, i);
    hide Run, P.Inv, SpansOk, ObjectsOk, ListsOk, CountsOk, SizesOk, Resting, ClassOfBlock, AtBoundary;
    AcceptedExactly(trace[i].heap, trace[i].spans, l, a, c);
  }

  // --------------------------------------------------- what was not handed out

  /** Everything exact, at rest. */
  ghost predicate Sound(s: State) {
    exists w, l :: Good(s, w, l)
  }

  /** Where the freed address ends up, and what stays. */
  lemma {:induction false} FreedAt(s: State, t: nat, c: nat, a: nat) returns (to: Loc)
    requires c < SizeClass.CLASSES && c < |s.slots| && HoldsNothing(s, t)
    requires s.slots[c] < SizeClass.MaxRanges(c) ==> At(s.lists, Transfer(c, s.slots[c])) == []
    ensures to != User && (to == Local(t, c) || At(s.lists, to) == [])
    ensures var s' := FreeBlock(s, t, c, a);
      && a in At(s'.lists, to) && s'.heap == s.heap && s'.user == s.user - {a}
      && (forall loc :: loc != Local(t, c) && loc != to ==> At(s'.lists, loc) == At(s.lists, loc))
      && (to == Local(t, c) ==> At(s'.lists, to) == [a] + At(s.lists, to))
      && (to != Local(t, c) ==> At(s'.lists, to) + At(s'.lists, Local(t, c)) == [a] + At(s.lists, Local(t, c)))
  {
    hide SizeClass.BatchCount, SizeClass.MaxRanges;
    var loc, batch := Local(t, c), SizeClass.BatchCount(c);
    var list := [a] + At(s.lists, loc);
    PushAt(s.lists, loc, a);
    var lists1 := s.lists[loc := list];
    if |list| < 2 * batch {
      to := loc;
    } else {
      to := if s.slots[c] < SizeClass.MaxRanges(c) then Transfer(c, s.slots[c]) else Held(t, c, 0);
      assert At(s.lists, Held(t, c, 0)) == [];
      ShiftAt(lists1, loc, to, batch);
      assert list[..batch] + [] == list[..batch] && list[..batch][0] == a;
      assert list[..batch] + list[batch..] == list;
    }
  }

  lemma {:induction false} OnOneList(lists: Lists, user: set<nat>, w: Map, a: nat, x: Loc, y: Loc)
    requires ListsOk(lists, user, w) && x != User && y != User && a in At(lists, x) && a in At(lists, y)
    ensures x == y && Distinct(At(lists, x))
  {
    assert ListOk(At(lists, x), w, x) && ListOk(At(lists, y), w, y);
  }

  /** A second copy of an address is on the same list, or on another one. */
  lemma {:induction false} TwoCopies(list: seq<nat>, front: seq<nat>, back: seq<nat>, a: nat)
    requires front + back == [a] + list && a in list && a in front
    ensures a in back || !Distinct(front)
  {
    var all := front + back;
    var k :| 0 <= k < |list| && list[k] == a;
    assert all[k + 1] == a && all[0] == a;
    if k + 1 < |front| {
      assert front[0] == a && front[k + 1] == a;
    } else {
      assert back[k + 1 - |front|] == a;
    }
  }

  /** An address that was on a list and comes to one again is listed twice. */
  lemma {:induction false} ListedTwice(lists: Lists, lists': Lists, user: set<nat>, w: Map, a: nat, was: Loc, loc: Loc,
                                       to: Loc)
    requires was != User && loc != User && to != User && a in At(lists, was) && a in At(lists', to)
    requires to == loc || At(lists, to) == []
    requires forall x :: x != loc && x != to ==> At(lists', x) == At(lists, x)
    requires to == loc ==> At(lists', to) == [a] + At(lists, to)
    requires to != loc ==> At(lists', to) + At(lists', loc) == [a] + At(lists, loc)
    ensures !ListsOk(lists', user, w)
  {
    hide At, Distinct, ListsOk;
    if ListsOk(lists', user, w) {
      OnOneList(lists', user, w, a, to, to);
      if was != loc {
        OnOneList(lists', user, w, a, to, was);
      } else if to == loc {
        assert [a] + At(lists, loc) + [] == [a] + At(lists, loc);
        TwoCopies(At(lists, loc), At(lists', to), [], a);
      } else {
        TwoCopies(At(lists, loc), At(lists', to), At(lists', loc), a);
        OnOneList(lists', user, w, a, to, loc);
      }
    }
  }

  lemma {:induction false} FreeNeverTwice(s: State, w: Map, l: P.Layout, t: nat, c: nat, a: nat, w': Map, l': P.Layout)
    requires Inv(s, w, l) && HoldsNothing(s, t) && c < SizeClass.CLASSES && c < |s.slots| && a in w && w[a].loc != User
    ensures !Inv(FreeBlock(s, t, c, a), w', l')
  {
    assert ListOk(At(s.lists, w[a].loc), w, w[a].loc);
    hide P.Inv, SpansOk, ObjectsOk, ListsOk, CountsOk, SizesOk, FreeBlock, At, HoldsNothing;
    SlotIsEmpty(s, w, l, c);
    var to := FreedAt(s, t, c, a);
    var s' := FreeBlock(s, t, c, a);
    ListedTwice(s.lists, s'.lists, s'.user, w', a, w[a].loc, Local(t, c), to);
  }

  lemma {:induction false} SlotIsEmpty(s: State, w: Map, l: P.Layout, c: nat)
    requires Inv(s, w, l) && c < SizeClass.CLASSES && c < |s.slots|
    ensures At(s.lists, Transfer(c, s.slots[c])) == []
  {
    hide P.Inv, SpansOk, ObjectsOk, ListsOk, CountsOk, SizeClass.BatchCount, SizeClass.MaxRanges;
  }

  /** Only objects are ever on a list. */
  lemma {:induction false} ListedIsObject(s: State, w: Map, l: P.Layout, s': State, w': Map, l': P.Layout, a: nat,
                                          to: Loc)
    requires Inv(s, w, l) && Inv(s', w', l') && s'.heap == s.heap && to != User && a in At(s'.lists, to)
    ensures a in w
  {
    hide P.Inv, SpansOk, CountsOk, SizesOk;
    assert ListOk(At(s'.lists, to), w', to);
    assert SpotOk(s.heap, a, w'[a]);
    assert Holds(w, Address(s.heap, w'[a].q, w'[a].c, w'[a].i), w'[a].q);
  }

  lemma {:induction false} NotHandedOut(s: State, w: Map, l: P.Layout, t: nat, c: nat, a: nat, w': Map, l': P.Layout)
    requires Inv(s, w, l) && HoldsNothing(s, t) && c < SizeClass.CLASSES && c < |s.slots| && a !in s.user
    ensures !Inv(FreeBlock(s, t, c, a), w', l')
  {
    SlotIsEmpty(s, w, l, c);
    var to := FreedAt(s, t, c, a);
    hide P.Inv, SpansOk, ObjectsOk, CountsOk, SizesOk, FreeBlock, At, HoldsNothing;
    if Inv(FreeBlock(s, t, c, a), w', l') {
      ListedIsObject(s, w, l, FreeBlock(s, t, c, a), w', l', a, to);
      FreeNeverTwice(s, w, l, t, c, a, w', l');
    }
  }

  /** Any accepted address goes to its thread's list. The allocator stays sound exactly
      when the address had been handed out and not come back. */
  lemma {:induction false} FreeKeepsExactly(s: State, t: nat, c: nat, a: nat)
    requires Sound(s) && HoldsNothing(s, t) && c < SizeClass.CLASSES && c < |s.slots|
    requires ClassOfBlock(s.heap, a) == Some(c)
    ensures Sound(FreeBlock(s, t, c, a)) <==> a in s.user
  {
    hide Inv, HoldsNothing, ClassOfBlock, Resting, FreeBlock, SizeClass.MaxRanges;
    var w, l :| Good(s, w, l);
    if a in s.user {
      var w' := FreeBlockKeeps(s, w, l, t, a, c);
      FreeSameHeap(s, t, c, a);
      assert Good(FreeBlock(s, t, c, a), w', l);
    } else {
      forall w', l' ensures !Good(FreeBlock(s, t, c, a), w', l') {
        NotHandedOut(s, w, l, t, c, a, w', l');
      }
    }
  }

  lemma {:induction false} FreeSameHeap(s: State, t: nat, c: nat, a: nat)
    requires c < SizeClass.CLASSES && c < |s.slots|
    ensures FreeBlock(s, t, c, a).heap == s.heap
  {
    hide SizeClass.BatchCount, SizeClass.MaxRanges, Shift;
  }
}
