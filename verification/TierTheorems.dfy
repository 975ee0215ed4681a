/** Every interleaving of critical sections, by any number of threads: objects are
    conserved and never shared, and what the program holds never overlaps. */
module TierTheorems {
  import opened Common
  import Machine
  import opened PageHeap
  import opened TierModel
  import opened TierInvariant
  import opened TierCounts
  import opened TierSpans
  import opened TierPopulate
  import P = PageHeapInvariant
  import T = PageHeapTheorems
  import SizeClass
  import FreeList

  // -------------------------------------------------------- sections on lists

  lemma {:induction false} ShiftSizeOk(lists: Lists, from: Loc, to: Loc, n: nat)
    requires (forall loc: Loc :: SizeOk(|At(lists, loc)|, loc)) && n <= |At(lists, from)| && from != to
    requires SizeOk(n + |At(lists, to)|, to)
    ensures forall loc: Loc :: SizeOk(|At(Shift(lists, from, to, n), loc)|, loc)
  {
    ShiftAt(lists, from, to, n);
    hide Shift, At, SizeClass.BatchCount;
    var lists' := Shift(lists, from, to, n);
    forall loc: Loc ensures SizeOk(|At(lists', loc)|, loc) {
      assert SizeOk(|At(lists, loc)|, loc);
      assert loc != to ==> |At(lists', loc)| <= |At(lists, loc)|;
    }
  }

  lemma {:induction false} ShiftSizes(lists: Lists, slots: seq<nat>, from: Loc, to: Loc, n: nat)
    requires SizesOk(lists, slots) && n <= |At(lists, from)| && from != to && !from.Transfer? && !to.Transfer?
    requires SizeOk(n + |At(lists, to)|, to)
    ensures SizesOk(Shift(lists, from, to, n), slots)
  {
    ShiftAt(lists, from, to, n);
    ShiftSizeOk(lists, from, to, n);
    hide Shift, At, SizeOk;
  }

  lemma {:induction false} SpillSizes(lists: Lists, slots: seq<nat>, t: nat, c: nat, n: nat)
    requires SizesOk(lists, slots) && c < SizeClass.CLASSES && n <= |At(lists, Local(t, c))|
    requires slots[c] < SizeClass.MaxRanges(c)
    ensures SizesOk(Shift(lists, Local(t, c), Transfer(c, slots[c]), n), slots[c := slots[c] + 1])
  {
    var from, to := Local(t, c), Transfer(c, slots[c]);
    assert SizeOk(|At(lists, from)|, from) && At(lists, to) == [];
    hide SizeClass.BatchCount, At, Shift;
    ShiftAt(lists, from, to, n);
    ShiftSizeOk(lists, from, to, n);
    hide SizeOk;
  }

  lemma {:induction false} RefillSizes(lists: Lists, slots: seq<nat>, t: nat, c: nat)
    requires SizesOk(lists, slots) && c < SizeClass.CLASSES && slots[c] > 0 && At(lists, Local(t, c)) == []
    ensures var from := Transfer(c, slots[c] - 1);
      SizesOk(Shift(lists, from, Local(t, c), |At(lists, from)|), slots[c := slots[c] - 1])
  {
    var from, to := Transfer(c, slots[c] - 1), Local(t, c);
    assert SizeOk(|At(lists, from)|, from);
    hide SizeClass.BatchCount, At, Shift;
    var n := |At(lists, from)|;
    ShiftAt(lists, from, to, n);
    ShiftSizeOk(lists, from, to, n);
    hide SizeOk;
    assert At(Shift(lists, from, to, n), from) == [];
  }

  lemma {:induction false} LocalFits(lists: Lists, slots: seq<nat>, t: nat, c: nat, n: nat, to: Loc)
    requires SizesOk(lists, slots) && n <= |At(lists, Local(t, c))| && to != User && to.c == c && At(lists, to) == []
    ensures SizeOk(n + |At(lists, to)|, to)
  {
    assert SizeOk(|At(lists, Local(t, c))|, Local(t, c));
  }

  lemma {:induction false} SpillKeeps(s: State, w: Map, l: P.Layout, t: nat, c: nat, n: nat) returns (w': Map)
    requires Exact(s, w, l) && c < SizeClass.CLASSES && SizesOk(s.lists, s.slots) && c < |s.slots|
    requires n <= |At(s.lists, Local(t, c))| && HoldsNothing(s, t)
    ensures Inv(Spill(s, t, c, n), w', l)
  {
    hide P.Inv, SpansOk, ObjectsOk, ListsOk, CountsOk, SizesOk, Shift, Core, Moved, At;
    hide SizeClass.MaxRanges, SizeClass.BatchCount;
    var from := Local(t, c);
    if s.slots[c] < SizeClass.MaxRanges(c) {
      var to := Transfer(c, s.slots[c]);
      ShiftCore(s.heap, s.lists, s.user, w, from, to, n, c);
      SpillSizes(s.lists, s.slots, t, c, n);
      w' := Moved(w, At(s.lists, from)[..n], to);
    } else {
      var to := Held(t, c, 0);
      ShiftCore(s.heap, s.lists, s.user, w, from, to, n, c);
      assert At(s.lists, to) == [];
      LocalFits(s.lists, s.slots, t, c, n, to);
      ShiftSizes(s.lists, s.slots, from, to, n);
      w' := Moved(w, At(s.lists, from)[..n], to);
    }
    CoreParts(s.heap, Spill(s, t, c, n).lists, s.user, w');
  }

  lemma {:induction false} CoreParts(h: Heap, lists: Lists, user: set<nat>, w: Map)
    requires Core(h, lists, user, w)
    ensures ObjectsOk(h, w) && ListsOk(lists, user, w) && CountsOk(h, lists)
  {
  }

  lemma {:induction false} RefillKeeps(s: State, w: Map, l: P.Layout, t: nat, c: nat) returns (w': Map)
    requires Inv(s, w, l) && c < SizeClass.CLASSES && c < |s.slots| && s.slots[c] > 0 && At(s.lists, Local(t, c)) == []
    ensures Inv(Refill(s, t, c), w', l)
  {
    hide P.Inv, SpansOk, ObjectsOk, ListsOk, CountsOk, SizesOk, Shift, Moved, At;
    var from, to := Transfer(c, s.slots[c] - 1), Local(t, c);
    ShiftCore(s.heap, s.lists, s.user, w, from, to, |At(s.lists, from)|, c);
    RefillSizes(s.lists, s.slots, t, c);
    w' := Moved(w, At(s.lists, from)[..|At(s.lists, from)|], to);
  }

  lemma {:induction false} PopSizes(lists: Lists, slots: seq<nat>, t: nat, c: nat)
    requires SizesOk(lists, slots) && At(lists, Local(t, c)) != []
    ensures SizesOk(lists[Local(t, c) := At(lists, Local(t, c))[1..]], slots)
  {
    hide SizeClass.BatchCount;
    var lists' := lists[Local(t, c) := At(lists, Local(t, c))[1..]];
    forall loc: Loc ensures SizeOk(|At(lists', loc)|, loc) && (loc.Transfer? ==> At(lists', loc) == At(lists, loc)) {
      assert SizeOk(|At(lists, loc)|, loc);
    }
  }

  lemma {:induction false} PopKeeps(s: State, w: Map, l: P.Layout, t: nat, c: nat) returns (w': Map)
    requires Inv(s, w, l) && At(s.lists, Local(t, c)) != []
    ensures Inv(Pop(s, t, c), w', l)
  {
    hide P.Inv, SpansOk, ObjectsOk, ListsOk, CountsOk, SizesOk, Moved, At;
    PopCore(s.heap, s.lists, s.user, w, t, c);
    PopSizes(s.lists, s.slots, t, c);
    w' := Moved(w, At(s.lists, Local(t, c))[..1], User);
  }

  // ------------------------------------------------------------ freeing a block

  lemma {:induction false} PushSizes(lists: Lists, slots: seq<nat>, t: nat, c: nat, a: nat)
    requires SizesOk(lists, slots) && c < SizeClass.CLASSES
    requires |At(lists, Local(t, c))| + 1 < 2 * SizeClass.BatchCount(c)
    ensures SizesOk(lists[Local(t, c) := [a] + At(lists, Local(t, c))], slots)
  {
    hide SizeClass.BatchCount;
    var lists' := lists[Local(t, c) := [a] + At(lists, Local(t, c))];
    forall loc: Loc ensures SizeOk(|At(lists', loc)|, loc) && (loc.Transfer? ==> At(lists', loc) == At(lists, loc)) {
      assert SizeOk(|At(lists, loc)|, loc);
    }
  }

  /** A list that reaches two batches is back at one batch when it has given one away. */
  lemma {:induction false} PushSpillSizes(lists: Lists, slots: seq<nat>, t: nat, c: nat, a: nat, to: Loc)
    requires SizesOk(lists, slots) && c < SizeClass.CLASSES && At(lists, to) == []
    requires |At(lists, Local(t, c))| + 1 == 2 * SizeClass.BatchCount(c)
    requires to == Held(t, c, 0) || (to == Transfer(c, slots[c]) && slots[c] < SizeClass.MaxRanges(c))
    ensures var lists1 := lists[Local(t, c) := [a] + At(lists, Local(t, c))];
      SizesOk(Shift(lists1, Local(t, c), to, SizeClass.BatchCount(c)),
              if to.Transfer? then slots[c := slots[c] + 1] else slots)
  {
    hide SizeClass.BatchCount;
    var from, batch := Local(t, c), SizeClass.BatchCount(c);
    var lists1 := lists[from := [a] + At(lists, from)];
    var lists' := Shift(lists1, from, to, batch);
    ShiftAt(lists1, from, to, batch);
    hide Shift;
    assert forall loc: Loc :: loc != from && loc != to ==> At(lists', loc) == At(lists, loc);
    assert |At(lists', from)| == batch && |At(lists', to)| == batch;
    hide At;
    forall loc: Loc ensures SizeOk(|At(lists', loc)|, loc) {
      assert SizeOk(|At(lists, loc)|, loc);
    }
    hide SizeOk;
  }

  lemma {:induction false} UserIsMapped(lists: Lists, user: set<nat>, w: Map, a: nat)
    requires ListsOk(lists, user, w) && a in user
    ensures a in w
  {
  }

  lemma {:induction false} LocalIsShort(lists: Lists, slots: seq<nat>, t: nat, c: nat)
    requires SizesOk(lists, slots) && c < SizeClass.CLASSES
    ensures |At(lists, Local(t, c))| < 2 * SizeClass.BatchCount(c) && c < |slots|
    ensures At(lists, Transfer(c, slots[c])) == []
  {
    assert SizeOk(|At(lists, Local(t, c))|, Local(t, c));
  }

  lemma {:induction false} PushAt(lists: Lists, loc: Loc, a: nat)
    ensures At(lists[loc := [a] + At(lists, loc)], loc) == [a] + At(lists, loc)
  {
  }

  lemma {:induction false} FreeBlockKeeps(s: State, w: Map, l: P.Layout, t: nat, a: nat, c: nat) returns (w': Map)
    requires Inv(s, w, l) && a in s.user && HoldsNothing(s, t) && ClassOfBlock(s.heap, a) == Some(c)
    requires c < SizeClass.CLASSES && c < |s.slots|
    ensures Inv(FreeBlock(s, t, c, a), w', l)
  {
    hide P.Inv, SpansOk, ObjectsOk, ListsOk, CountsOk, SizesOk, Moved, At, Shift, ClassOfBlock;
    hide SizeClass.BatchCount, SizeClass.MaxRanges;
    UserIsMapped(s.lists, s.user, w, a);
    FindsClass(s.heap, s.spans, w, l, a);
    LocalIsShort(s.lists, s.slots, t, c);
    PushCore(s.heap, s.lists, s.user, w, t, c, a);
    var loc, batch := Local(t, c), SizeClass.BatchCount(c);
    PushAt(s.lists, loc, a);
    var lists1, w1 := s.lists[loc := [a] + At(s.lists, loc)], Moved(w, [a], loc);
    if |At(lists1, loc)| < 2 * batch {
      PushSizes(s.lists, s.slots, t, c, a);
      w' := w1;
    } else {
      var to := if s.slots[c] < SizeClass.MaxRanges(c) then Transfer(c, s.slots[c]) else Held(t, c, 0);
      assert At(s.lists, Held(t, c, 0)) == [];
      ShiftCore(s.heap, lists1, s.user - {a}, w1, loc, to, batch, c);
      PushSpillSizes(s.lists, s.slots, t, c, a, to);
      w' := Moved(w1, At(lists1, loc)[..batch], to);
    }
  }

  // --------------------------------------------------------------- draining

  lemma {:induction false} DrainedAt(lists: Lists, t: nat, c: nat, m: nat)
    requires forall k: nat :: At(lists, Held(t, c, k)) == []
    ensures forall k: nat :: At(Drained(lists, t, c, m), Held(t, c, k)) == if k < m then At(lists, Transfer(c, k)) else []
    ensures forall k: nat :: At(Drained(lists, t, c, m), Transfer(c, k)) == if k < m then [] else At(lists, Transfer(c, k))
    ensures forall loc: Loc :: !(loc.Transfer? && loc.c == c) && !(loc.Held? && loc.t == t && loc.c == c) ==>
      At(Drained(lists, t, c, m), loc) == At(lists, loc)
  {
    if m > 0 {
      DrainedAt(lists, t, c, m - 1);
      var before := Drained(lists, t, c, m - 1);
      ShiftAt(before, Transfer(c, m - 1), Held(t, c, m - 1), |At(before, Transfer(c, m - 1))|);
      hide At, Shift;
      assert At(before, Held(t, c, m - 1)) == [];
      assert At(before, Transfer(c, m - 1)) + [] == At(before, Transfer(c, m - 1));
    }
  }

  lemma {:induction false} DrainedCore(h: Heap, lists: Lists, user: set<nat>, w: Map, t: nat, c: nat, m: nat)
    returns (w': Map)
    requires Core(h, lists, user, w)
    ensures Core(h, Drained(lists, t, c, m), user, w')
  {
    hide Core, Shift, At, Moved;
    w' := w;
    if m > 0 {
      var before := Drained(lists, t, c, m - 1);
      var w1 := DrainedCore(h, lists, user, w, t, c, m - 1);
      var n := |At(before, Transfer(c, m - 1))|;
      ShiftCore(h, before, user, w1, Transfer(c, m - 1), Held(t, c, m - 1), n, c);
      w' := Moved(w1, At(before, Transfer(c, m - 1))[..n], Held(t, c, m - 1));
    }
  }

  lemma {:induction false} DrainedSizes(lists: Lists, slots: seq<nat>, t: nat, c: nat)
    requires SizesOk(lists, slots) && c < SizeClass.CLASSES && forall k: nat :: At(lists, Held(t, c, k)) == []
    ensures SizesOk(Drained(lists, t, c, slots[c]), slots[c := 0])
  {
    DrainedAt(lists, t, c, slots[c]);
    hide At, Drained, SizeClass.BatchCount;
    var lists', slots' := Drained(lists, t, c, slots[c]), slots[c := 0];
    forall loc: Loc ensures SizeOk(|At(lists', loc)|, loc) {
      assert SizeOk(|At(lists, loc)|, loc);
      if loc.Held? && loc.t == t && loc.c == c { assert SizeOk(|At(lists, Transfer(c, loc.slot))|, Transfer(c, loc.slot)); }
    }
    hide SizeOk;
    forall d: nat, k: nat | d < SizeClass.CLASSES && k >= slots'[d] ensures At(lists', Transfer(d, k)) == [] {
      assert d == c || At(lists', Transfer(d, k)) == At(lists, Transfer(d, k));
    }
  }

  lemma {:induction false} DrainKeeps(s: State, w: Map, l: P.Layout, t: nat, c: nat) returns (w': Map)
    requires Inv(s, w, l) && c < SizeClass.CLASSES && c < |s.slots| && HoldsNothing(s, t)
    ensures Inv(s.(lists := Drained(s.lists, t, c, s.slots[c]), slots := s.slots[c := 0]), w', l)
  {
    hide P.Inv, SpansOk, ObjectsOk, ListsOk, CountsOk, SizesOk, At, Drained;
    w' := DrainedCore(s.heap, s.lists, s.user, w, t, c, s.slots[c]);
    DrainedSizes(s.lists, s.slots, t, c);
  }

  // --------------------------------------------------------- central sections

  lemma {:induction false} CountAtMost(list: seq<nat>, pred: nat -> bool)
    ensures FreeList.Count(list, pred) <= |list|
  {
    if list != [] {
      CountAtMost(list[..|list| - 1], pred);
    }
  }

  /** After a fetch a span that was not wholly free is still not, and neither is a
      span whose objects were all there is on the list. */
  lemma {:induction false} FetchRests(h: Heap, h': Heap, lists: Lists, lists': Lists, c: nat, k: nat, q: Id)
    requires CountsOk(h, lists) && CountsOk(h', lists') && SameBut(h, h') && k <= |At(lists, Central(c))|
    requires At(lists', Central(c)) == At(lists, Central(c))[k..]
    requires forall d: nat :: d != c ==> At(lists', Central(d)) == At(lists, Central(d))
    requires forall x, d: nat :: IsBound(h, x, d) && x != q ==> h.info[x].centralFree < h.info[x].objectCount
    requires forall d: nat :: IsBound(h, q, d) ==>
      d == c && k > 0 && |At(lists, Central(c))| <= h.info[q].objectCount
    ensures Resting(h')
  {
    BoundStays(h, h');
    forall x, d: nat | IsBound(h', x, d) ensures h'.info[x].centralFree < h'.info[x].objectCount {
      assert h'.info[x].centralFree == FreeIn(h', lists', x, d) && h.info[x].centralFree == FreeIn(h, lists, x, d);
      CountAtMost(At(lists', Central(c)), InSpan(h.store[x]));
      CountCut(At(lists, Central(c)), k, InSpan(h.store[x]));
    }
  }

  lemma {:induction false} FetchSizes(lists: Lists, slots: seq<nat>, t: nat, c: nat, k: nat)
    requires SizesOk(lists, slots) && c < SizeClass.CLASSES && At(lists, Local(t, c)) == []
    requires k <= |At(lists, Central(c))| && k <= SizeClass.BatchCount(c)
    ensures SizesOk(Shift(lists, Central(c), Local(t, c), k), slots)
  {
    hide SizesOk, Shift, At;
    ShiftSizes(lists, slots, Central(c), Local(t, c), k);
  }

  /** A fetch, from a list that is not empty. */
  lemma {:induction false} FetchStep(s: State, w: Map, l: P.Layout, t: nat, c: nat, q: Id) returns (w': Map)
    requires Inv(s, w, l) && c < SizeClass.CLASSES && At(s.lists, Local(t, c)) == [] && At(s.lists, Central(c)) != []
    requires forall x, d: nat :: IsBound(s.heap, x, d) && x != q ==> s.heap.info[x].centralFree < s.heap.info[x].objectCount
    requires forall d: nat :: IsBound(s.heap, q, d) ==> d == c && |At(s.lists, Central(c))| <= s.heap.info[q].objectCount
    ensures Inv(FetchCentral(s, t, c, SizeClass.BatchCount(c)), w', l)
    ensures Resting(FetchCentral(s, t, c, SizeClass.BatchCount(c)).heap)
  {
    hide P.Inv, SpansOk, ObjectsOk, ListsOk, CountsOk, SizesOk, Shift, At, OnFetch, Moved, IsBound, SameBut, Resting;
    hide SizeClass.BatchCount;
    var n := SizeClass.BatchCount(c);
    var list := At(s.lists, Central(c));
    var k := Machine.Min(n, |list|);
    FetchKeeps(s, w, l, t, c, n);
    FetchSizes(s.lists, s.slots, t, c, k);
    ShiftAt(s.lists, Central(c), Local(t, c), k);
    var s' := FetchCentral(s, t, c, n);
    w' := Moved(w, list[..k], Local(t, c));
    FetchRests(s.heap, s'.heap, s.lists, s'.lists, c, k, q);
  }

  /** A fetch that first has to cut a new span. */
  lemma {:induction false} FetchNewStep(s: State, w: Map, l: P.Layout, t: nat, c: nat, h: Heap, q: Id)
    returns (w': Map, l': P.Layout)
    requires Inv(s, w, l) && Resting(s.heap) && c < SizeClass.CLASSES && c < |s.spans|
    requires At(s.lists, Local(t, c)) == [] && At(s.lists, Central(c)) == []
    requires Allocates(s.heap, SizeClass.PagesForClass(c), h, q) && q in h.store
    ensures var s' := FetchCentral(Populate(s, h, q, c), t, c, SizeClass.BatchCount(c));
      Inv(s', w', l') && Resting(s'.heap)
  {
    var w1, l1 := PopulateKeeps(s, w, l, h, q, c);
    var s1 := Populate(s, h, q, c);
    NewList(s, h, q, c);
    hide P.Inv, SpansOk, ObjectsOk, ListsOk, CountsOk, Allocates, Populate, FetchCentral, Resting;
    w' := FetchStep(s1, w1, l1, t, c, q);
    l' := l1;
  }

  lemma {:induction false} CentralIsFree(lists: Lists, slots: seq<nat>, c: nat, list: seq<nat>)
    requires SizesOk(lists, slots)
    ensures SizesOk(lists[Central(c) := list], slots)
    ensures forall loc: Loc :: loc != Central(c) ==> At(lists[Central(c) := list], loc) == At(lists, loc)
  {
    hide SizeClass.BatchCount;
    var lists' := lists[Central(c) := list];
    forall loc: Loc | loc != Central(c) ensures SizeOk(|At(lists', loc)|, loc) && At(lists', loc) == At(lists, loc) {
      assert SizeOk(|At(lists, loc)|, loc);
    }
  }

  lemma {:induction false} NewList(s: State, h: Heap, q: Id, c: nat)
    requires c < SizeClass.CLASSES && c < |s.spans| && q in h.store && h.store[q].pages == SizeClass.PagesForClass(c)
    requires At(s.lists, Central(c)) == [] && SizesOk(s.lists, s.slots)
    ensures var s1 := Populate(s, h, q, c);
      && SizesOk(s1.lists, s1.slots)
      && (forall loc: Loc :: loc != Central(c) ==> At(s1.lists, loc) == At(s.lists, loc))
      && At(s1.lists, Central(c)) != [] && |At(s1.lists, Central(c))| == s1.heap.info[q].objectCount
      && (forall d: nat :: IsBound(s1.heap, q, d) ==> d == c)
  {
    hide Carve, SizeClass.ObjectCount, SizeClass.BatchCount, SizeClass.ClassSize, SizeClass.PagesForClass, SizesOk;
    SizeClass.SpanHoldsBatch(c);
    var n := SizeClass.ObjectCount(h.store[q].pages, c);
    CarvedInOrder(Base(h.store[q]), SizeClass.ClassSize(c), n);
    CentralIsFree(s.lists, s.slots, c, Carve(Base(h.store[q]), SizeClass.ClassSize(c), n) + []);
  }

  lemma {:induction false} GiveSizes(lists: Lists, lists': Lists, slots: seq<nat>, c: nat, from: Loc)
    requires SizesOk(lists, slots) && from.Held? && At(lists', from) == []
    requires forall loc: Loc :: loc != Central(c) && loc != from ==> At(lists', loc) == At(lists, loc)
    ensures SizesOk(lists', slots)
  {
    hide At, SizeClass.BatchCount;
    forall loc: Loc ensures SizeOk(|At(lists', loc)|, loc) {
      assert SizeOk(|At(lists, loc)|, loc);
    }
  }

  lemma {:induction false} GiveStep(s: State, w: Map, l: P.Layout, t: nat, c: nat, slot: nat)
    returns (w': Map, l': P.Layout)
    requires Inv(s, w, l) && Resting(s.heap) && c < SizeClass.CLASSES && c < |s.spans|
    ensures Inv(ReturnCentral(s, t, c, slot), w', l') && Resting(ReturnCentral(s, t, c, slot).heap)
  {
    hide P.Inv, SpansOk, ObjectsOk, ListsOk, CountsOk, SizesOk, At, ReturnCentral, Resting;
    w', l' := ReturnKeeps(s, w, l, t, c, slot);
    GiveSizes(s.lists, ReturnCentral(s, t, c, slot).lists, s.slots, c, Held(t, c, slot));
  }

  // ------------------------------------------------------------ heap sections

  /** A change of the heap that leaves the spans cut into objects alone. */
  lemma {:induction false} NewHeapKeeps(s: State, w: Map, l: P.Layout, h: Heap, l': P.Layout)
    requires Inv(s, w, l) && Resting(s.heap) && P.Inv(h, l', {}) && Alike(s.heap, h)
    ensures Inv(s.(heap := h), w, l') && Resting(h)
  {
    hide P.Inv, SpansOk, ObjectsOk, ListsOk, CountsOk, SizesOk, Alike, Resting;
    AlikeObjects(s.heap, h, w);
    AlikeSpans(s.heap, h, s.spans, s.lists);
  }

  lemma {:induction false} GainedMarked(h: Heap, h': Heap, q: Id, info: Info)
    requires Gained(h, h', q) && info.classIndex == None
    ensures Gained(h, h'.(info := h'.info[q := info]), q)
  {
  }

  lemma {:induction false} NewLargeKeeps(s: State, w: Map, l: P.Layout, n: nat, size: nat, h: Heap, q: Id)
    returns (l': P.Layout)
    requires Inv(s, w, l) && Resting(s.heap) && Allocates(s.heap, n, h, q)
    ensures var h' := h.(info := h.info[q := Info(None, size, 1, 0)]);
      Inv(s.(heap := h'), w, l') && Resting(h')
  {
    hide P.Inv, SpansOk, ObjectsOk, ListsOk, CountsOk, SizesOk, Resting, Allocates, Gained, Alike;
    l' := AllocateGains(s.heap, l, n, h, q);
    var h' := h.(info := h.info[q := Info(None, size, 1, 0)]);
    T.InfoIsFree(h, l', {}, h'.info);
    GainedMarked(s.heap, h, q, Info(None, size, 1, 0));
    GainedAlike(s.heap, h', s.spans, q);
    NewHeapKeeps(s, w, l, h', l');
  }

  lemma {:induction false} LostAlike(h: Heap, h': Heap, spans: seq<seq<Id>>, q: Id)
    requires Lost(h, h', q) && SpansOk(h, spans) && q in h.info && h.info[q].classIndex == None
    ensures Alike(h, h')
  {
    LostBound(h, h', spans, q);
  }

  lemma {:induction false} FreeLargeKeeps(s: State, w: Map, l: P.Layout, q: Id) returns (l': P.Layout)
    requires Inv(s, w, l) && Resting(s.heap) && q in s.heap.active && q in s.heap.store && q in s.heap.info
    requires s.heap.info[q].classIndex == None
    ensures Inv(s.(heap := Release(s.heap, q)), w, l') && Resting(Release(s.heap, q))
  {
    hide P.Inv, SpansOk, ObjectsOk, ListsOk, CountsOk, SizesOk, Resting, Release, Lost, Alike;
    l' := ReleaseLoses(s.heap, l, q);
    LostAlike(s.heap, Release(s.heap, q), s.spans, q);
    NewHeapKeeps(s, w, l, Release(s.heap, q), l');
  }

  lemma {:induction false} ActiveStays(h: Heap, l: P.Layout, order: seq<Id>, h': Heap)
    requires P.Inv(h, l, {}) && T.Act(h, T.Purge(order), h')
    ensures h' == T.FreeAll(h, order) && forall x :: x in h.active ==> x in h.store && x !in order
  {
    T.CachedIsListed(h, l, {});
    T.InHand(h, l, {});
    hide P.Inv, T.InCache, T.FreeAll, Distinct;
  }

  lemma {:induction false} PurgeStays(h: Heap, l: P.Layout, order: seq<Id>, h': Heap) returns (l': P.Layout)
    requires P.Inv(h, l, {}) && T.Act(h, T.Purge(order), h')
    ensures P.Inv(h', l', {}) && h'.active == h.active && T.SpansStay(h, h', h.active)
  {
    hide P.Inv, T.Act, T.FreeAll;
    ActiveStays(h, l, order, h');
    l' := T.PurgeKeeps(h, l, order);
    FreeAllInfo(h, order);
  }

  lemma {:induction false} FreeAllInfo(h: Heap, order: seq<Id>)
    ensures forall x :: x in h.info && x !in order ==> x in T.FreeAll(h, order).info && T.FreeAll(h, order).info[x] == h.info[x]
    decreases |order|
  {
    if order != [] && order[0] in h.store {
      assert order == [order[0]] + order[1..];
      FreeAllInfo(PageHeap.Free(h, order[0]), order[1..]);
    }
  }

  lemma {:induction false} StayAlike(h: Heap, h': Heap, spans: seq<seq<Id>>)
    requires h'.active == h.active && T.SpansStay(h, h', h.active) && SpansOk(h, spans)
    ensures Alike(h, h')
  {
  }

  lemma {:induction false} PurgeStep(s: State, w: Map, l: P.Layout, order: seq<Id>, h: Heap) returns (l': P.Layout)
    requires Inv(s, w, l) && Resting(s.heap) && T.Act(s.heap, T.Purge(order), h)
    ensures Inv(s.(heap := h), w, l') && Resting(h)
  {
    hide P.Inv, SpansOk, ObjectsOk, ListsOk, CountsOk, SizesOk, Resting, T.Act, T.SpansStay, Alike;
    l' := PurgeStays(s.heap, l, order, h);
    StayAlike(s.heap, h, s.spans);
    NewHeapKeeps(s, w, l, h, l');
  }

  // ------------------------------------------------------------------- runs

  /** The state a run can be in: everything exact, and no span wholly free. */
  ghost predicate Good(s: State, w: Map, l: P.Layout) {
    Inv(s, w, l) && Resting(s.heap)
  }

  lemma {:induction false} LocalSteps(s: State, w: Map, l: P.Layout, step: Step, s': State) returns (w': Map)
    requires Good(s, w, l) && Act(s, step, s')
    requires step.PopLocal? || step.FreeSmall? || step.SpillLocal? || step.RefillLocal? || step.Drain?
    ensures Good(s', w', l)
  {
    hide P.Inv, SpansOk, ObjectsOk, ListsOk, CountsOk, SizesOk, Resting, At, HoldsNothing, Drained, Spill, Refill, Pop, FreeBlock;
    hide ClassOfBlock, SizeClass.BatchCount;
    match step
    case PopLocal(t, c) => w' := PopKeeps(s, w, l, t, c); assert s'.heap == s.heap by { SameHeap(s, step, s'); }
    case FreeSmall(t, a) => w' := FreeBlockKeeps(s, w, l, t, a, ClassOfBlock(s.heap, a).value); SameHeap(s, step, s');
    case SpillLocal(t, c, n) =>
      w' := SpillKeeps(s, w, l, t, c, n);
      SameHeap(s, step, s');
    case RefillLocal(t, c) => w' := RefillKeeps(s, w, l, t, c); SameHeap(s, step, s');
    case Drain(t, c) => w' := DrainKeeps(s, w, l, t, c);
  }

  lemma {:induction false} SameHeap(s: State, step: Step, s': State)
    requires Act(s, step, s')
    requires step.PopLocal? || step.FreeSmall? || step.SpillLocal? || step.RefillLocal? || step.Drain?
    ensures s'.heap == s.heap
  {
    hide At, HoldsNothing, ClassOfBlock, Shift, Drained, SizeClass.BatchCount, SizeClass.MaxRanges;
  }

  lemma {:induction false} LargeIsActive(h: Heap, l: P.Layout, a: nat)
    requires P.Inv(h, l, {}) && MapObject(h, a).Some?
    ensures MapObject(h, a).value in h.active
  {
    T.MapObjectIsExact(h, l, a, MapObject(h, a).value);
  }

  lemma {:induction false} StepKeeps(s: State, w: Map, l: P.Layout, step: Step, s': State)
    returns (w': Map, l': P.Layout)
    requires Good(s, w, l) && Act(s, step, s')
    ensures Good(s', w', l')
  {
    w', l' := w, l;
    if step.PopLocal? || step.FreeSmall? || step.SpillLocal? || step.RefillLocal? || step.Drain? {
      hide Good, Act;
      w' := LocalSteps(s, w, l, step, s');
    } else {
      hide P.Inv, SpansOk, ObjectsOk, ListsOk, CountsOk, SizesOk, At, HoldsNothing, Allocates, T.Act, Resting;
      hide FetchCentral, Populate, ReturnCentral, MapObject, Release, SizeClass.BatchCount, SizeClass.PagesForClass;
      match step
      case Fetch(t, c) => w' := RestingFetch(s, w, l, t, c);
      case FetchNew(t, c, h, q) => w', l' := FetchNewStep(s, w, l, t, c, h, q);
      case GiveCentral(t, c, slot) => w', l' := GiveStep(s, w, l, t, c, slot);
      case NewLarge(size, h, q) => l' := NewLargeKeeps(s, w, l, (size + PAGE - 1) / PAGE, size, h, q);
      case FreeLarge(a) =>
        LargeIsActive(s.heap, l, a);
        l' := FreeLargeKeeps(s, w, l, MapObject(s.heap, a).value);
      case PurgePages(h, order) => l' := PurgeStep(s, w, l, order, h);
    }
  }

  lemma {:induction false} RestingFetch(s: State, w: Map, l: P.Layout, t: nat, c: nat) returns (w': Map)
    requires Good(s, w, l) && c < SizeClass.CLASSES && At(s.lists, Local(t, c)) == [] && At(s.lists, Central(c)) != []
    ensures Good(FetchCentral(s, t, c, SizeClass.BatchCount(c)), w', l)
  {
    T.InHand(s.heap, l, {});
    hide P.Inv, SpansOk, ObjectsOk, ListsOk, CountsOk, SizesOk, At, FetchCentral, SizeClass.BatchCount;
    w' := FetchStep(s, w, l, t, c, s.heap.nextId);
  }

  ghost predicate Run(trace: seq<State>, steps: seq<Step>) {
    && |trace| == |steps| + 1 && trace[0] == Start()
    && forall i :: 0 <= i < |steps| ==> Act(trace[i], steps[i], trace[i + 1])
  }

  lemma {:induction false} RunKeeps(trace: seq<State>, steps: seq<Step>, i: nat) returns (w: Map, l: P.Layout)
    requires Run(trace, steps) && i < |trace|
    ensures Good(trace[i], w, l)
  {
    hide Inv, Act, Start, Resting;
    if i == 0 {
      StartKeeps();
      w, l := map[], P.Layout(map[], map[], {});
    } else {
      var w0, l0 := RunKeeps(trace, steps, i - 1);
      assert Act(trace[i - 1], steps[i - 1], trace[i - 1 + 1]);
      hide Good;
      w, l := StepKeeps(trace[i - 1], w0, l0, steps[i - 1], trace[i]);
    }
  }

  // --------------------------------------------------------------- theorems

  /** An object of a span that is cut into objects. */
  ghost predicate IsObject(h: Heap, a: nat) {
    exists q, c: nat, i: nat {:trigger Address(h, q, c, i)} ::
      IsBound(h, q, c) && i < h.info[q].objectCount && a == Address(h, q, c, i)
  }

  ghost predicate IsAt(s: State, a: nat, loc: Loc) {
    if loc == User then a in s.user else a in At(s.lists, loc)
  }

  lemma {:induction false} PlaceOf(s: State, w: Map, l: P.Layout, a: nat, loc: Loc)
    requires Inv(s, w, l)
    ensures IsAt(s, a, loc) <==> a in w && w[a].loc == loc
  {
    hide P.Inv, SpansOk, ObjectsOk, CountsOk, SizesOk;
    assert loc != User ==> ListOk(At(s.lists, loc), w, loc);
  }

  /** In every reachable state each object of each bound span is in exactly one place,
      and nothing else is in any. */
  lemma {:induction false} ObjectsAreConserved(trace: seq<State>, steps: seq<Step>, i: nat, a: nat)
    requires Run(trace, steps) && i < |trace|
    ensures IsObject(trace[i].heap, a) <==> exists loc :: IsAt(trace[i], a, loc)
    ensures forall loc, loc' :: IsAt(trace[i], a, loc) && IsAt(trace[i], a, loc') ==> loc == loc'
    ensures forall loc :: loc != User ==> Distinct(At(trace[i].lists, loc))
  {
    hide P.Inv, SpansOk, ObjectsOk, ListsOk, CountsOk, SizesOk, Resting, IsAt, IsObject, At, Distinct;
    var w, l := RunKeeps(trace, steps, i);
    forall loc ensures IsAt(trace[i], a, loc) <==> a in w && w[a].loc == loc {
      PlaceOf(trace[i], w, l, a, loc);
    }
    ObjectsMapped(trace[i], w, l, a);
    if a in w { assert IsAt(trace[i], a, w[a].loc); }
  }

  lemma {:induction false} ObjectsMapped(s: State, w: Map, l: P.Layout, a: nat)
    requires Good(s, w, l)
    ensures IsObject(s.heap, a) <==> a in w
    ensures forall loc :: loc != User ==> Distinct(At(s.lists, loc))
  {
    hide P.Inv, SpansOk, CountsOk, SizesOk;
    if a in w {
      assert SpotOk(s.heap, a, w[a]);
      assert a == Address(s.heap, w[a].q, w[a].c, w[a].i);
    }
    forall loc: Loc | loc != User ensures Distinct(At(s.lists, loc)) {
      assert ListOk(At(s.lists, loc), w, loc);
    }
  }

  /** In every reachable state a span's free count is the number of its objects on
      the central list, and it is never all of them. */
  lemma {:induction false} CountsAreExact(trace: seq<State>, steps: seq<Step>, i: nat, q: Id, c: nat)
    requires Run(trace, steps) && i < |trace| && IsBound(trace[i].heap, q, c)
    ensures trace[i].heap.info[q].centralFree
      == FreeList.Count(At(trace[i].lists, Central(c)), InSpan(trace[i].heap.store[q]))
      < trace[i].heap.info[q].objectCount
  {
    var w, l := RunKeeps(trace, steps, i);
    hide Run, P.Inv, SpansOk, ObjectsOk, ListsOk, SizesOk;
  }

  /** Thread lists and ranges are always shorter than two batches, and no transfer
      vector is longer than its maximum. */
  lemma {:induction false} RangesAreShort(trace: seq<State>, steps: seq<Step>, i: nat, loc: Loc)
    requires Run(trace, steps) && i < |trace| && (loc.Local? || loc.Transfer? || loc.Held?) && loc.c < SizeClass.CLASSES
    ensures |At(trace[i].lists, loc)| < 2 * SizeClass.BatchCount(loc.c)
    ensures loc.c < |trace[i].slots| && trace[i].slots[loc.c] <= SizeClass.MaxRanges(loc.c)
  {
    var w, l := RunKeeps(trace, steps, i);
    hide Run, P.Inv, SpansOk, ObjectsOk, ListsOk, CountsOk, At, SizeClass.BatchCount;
    assert SizeOk(|At(trace[i].lists, loc)|, loc);
  }

  /** A small block in use, with the size of its class. */
  ghost predicate IsSmallBlock(s: State, a: nat, n: nat) {
    && a in s.user && ClassOfBlock(s.heap, a).Some? && ClassOfBlock(s.heap, a).value < SizeClass.CLASSES
    && n == SizeClass.ClassSize(ClassOfBlock(s.heap, a).value)
  }

  /** A large block in use: all of an active span that is not cut into objects. */
  ghost predicate IsLargeBlock(s: State, q: Id, a: nat, n: nat) {
    && q in s.heap.active && q in s.heap.store && q in s.heap.info && s.heap.info[q].classIndex == None
    && a == Base(s.heap.store[q]) && n == s.heap.store[q].pages * PAGE
  }

  ghost predicate Apart(a: nat, n: nat, b: nat, m: nat) {
    a + n <= b || b + m <= a
  }

  /** Byte range of a span. */
  ghost predicate Within(a: nat, n: nat, s: Span) {
    Base(s) <= a && a + n <= Base(s) + s.pages * PAGE
  }

  lemma {:induction false} SpansApart(s: Span, t: Span, a: nat, n: nat, b: nat, m: nat)
    requires Within(a, n, s) && Within(b, m, t) && s.pages > 0 && t.pages > 0 &&
             forall p :: !(s.Covers(p) && t.Covers(p))
    ensures Apart(a, n, b, m)
  {
    assert !(s.Covers(t.start) && t.Covers(t.start)) && !(s.Covers(s.start) && t.Covers(s.start));
    assert s.End() <= t.start || t.End() <= s.start;
  }

  lemma {:induction false} DifferentSpans(h: Heap, l: P.Layout, x: Id, y: Id, a: nat, n: nat, b: nat, m: nat)
    requires P.Inv(h, l, {}) && x in h.store && y in h.store && x != y && Within(a, n, h.store[x]) &&
             Within(b, m, h.store[y])
    ensures Apart(a, n, b, m)
  {
    assert P.Placed(h.store[x], l.allocs) && P.Placed(h.store[y], l.allocs);
    hide P.Inv, Within;
    forall p ensures !(h.store[x].Covers(p) && h.store[y].Covers(p)) {
      if h.store[x].Covers(p) && h.store[y].Covers(p) { T.SpansAreDisjoint(h, l, x, y, p); }
    }
    SpansApart(h.store[x], h.store[y], a, n, b, m);
  }

  lemma {:induction false} SmallBlock(s: State, w: Map, l: P.Layout, a: nat, n: nat)
    requires Inv(s, w, l) && IsSmallBlock(s, a, n)
    ensures a in w && SpotOk(s.heap, a, w[a]) && w[a].c < SizeClass.CLASSES && n == SizeClass.ClassSize(w[a].c)
    ensures w[a].q in s.heap.store && Within(a, n, s.heap.store[w[a].q])
  {
    hide P.Inv, SpansOk, ObjectsOk, ListsOk, CountsOk, SizesOk, ClassOfBlock, Obj, Base, Contains;
    UserIsMapped(s.lists, s.user, w, a);
    FindsClass(s.heap, s.spans, w, l, a);
    SpotOf(s.heap, s.spans, w, a);
    ObjectInside(s.heap.store[w[a].q], w[a].c, w[a].i);
  }

  lemma {:induction false} SameSpan(h: Heap, p: Spot, r: Spot, a: nat, b: nat)
    requires SpotOk(h, a, p) && SpotOk(h, b, r) && p.q == r.q && a != b
    ensures p.c == r.c && Apart(a, SizeClass.ClassSize(p.c), b, SizeClass.ClassSize(r.c))
  {
    hide Obj, Base;
    var base, size := Base(h.store[p.q]), SizeClass.ClassSize(p.c);
    if p.i < r.i { DifferentObjects(base, size, p.i, r.i); } else { DifferentObjects(base, size, r.i, p.i); }
  }

  /** Blocks the program holds never overlap, in any reachable state. */
  lemma {:induction false} SmallBlocksApart(trace: seq<State>, steps: seq<Step>, i: nat, a: nat, n: nat, b: nat, m: nat)
    requires Run(trace, steps) && i < |trace| && IsSmallBlock(trace[i], a, n) && IsSmallBlock(trace[i], b, m) && a != b
    ensures Apart(a, n, b, m)
  {
    hide P.Inv, SpansOk, ObjectsOk, ListsOk, CountsOk, SizesOk, IsSmallBlock, SpotOk, Within, Apart, Resting;
    var w, l := RunKeeps(trace, steps, i);
    SmallBlock(trace[i], w, l, a, n);
    SmallBlock(trace[i], w, l, b, m);
    if w[a].q == w[b].q {
      SameSpan(trace[i].heap, w[a], w[b], a, b);
    } else {
      DifferentSpans(trace[i].heap, l, w[a].q, w[b].q, a, n, b, m);
    }
  }

  lemma {:induction false} LargeBlocksApart(trace: seq<State>, steps: seq<Step>, i: nat, q: Id, a: nat, n: nat,
                                            r: Id, b: nat, m: nat)
    requires Run(trace, steps) && i < |trace| && IsLargeBlock(trace[i], q, a, n)
    requires (IsLargeBlock(trace[i], r, b, m) && q != r) || IsSmallBlock(trace[i], b, m)
    ensures Apart(a, n, b, m)
  {
    hide P.Inv, SpansOk, ObjectsOk, ListsOk, CountsOk, SizesOk, IsSmallBlock, Apart, Resting, Base;
    var w, l := RunKeeps(trace, steps, i);
    if IsSmallBlock(trace[i], b, m) {
      SmallBlock(trace[i], w, l, b, m);
      DifferentSpans(trace[i].heap, l, q, w[b].q, a, n, b, m);
    } else {
      DifferentSpans(trace[i].heap, l, q, r, a, n, b, m);
    }
  }

  /** A block is as large as was asked for, and wastes less than a page. */
  lemma {:induction false} LargeBlockHolds(h: Heap, l: P.Layout, size: nat, h': Heap, q: Id)
    requires P.Inv(h, l, {}) && Allocates(h, (size + PAGE - 1) / PAGE, h', q)
    ensures q in h'.store && size <= h'.store[q].pages * PAGE < size + PAGE
  {
    hide P.Inv, Allocates;
    var l' := AllocateGains(h, l, (size + PAGE - 1) / PAGE, h', q);
    SizeClass.CeilingCovers(size);
  }
}
