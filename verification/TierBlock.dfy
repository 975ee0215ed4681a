/** The central cache and the entry points of the allocator as an object whose
    methods update its lists in place, with the source's loops, proved against the
    sections on values. */
module TierBlock {
  import opened Common
  import Machine
  import opened PageHeap
  import opened TierModel
  import opened TierInvariant
  import opened TierTheorems
  import opened TierFree
  import P = PageHeapInvariant
  import T = PageHeapTheorems
  import TP = TierPopulate
  import B = PageHeapBlock
  import SizeClass
  import FreeList

  // ------------------------------------------------------------- cutting a span

  /** The words written while a span is cut: each object points to the one after it. */
  ghost predicate Threaded(next: map<nat, nat>, base: nat, size: nat, n: nat, count: nat) {
    forall i: nat {:trigger Obj(base, size, i)} :: i < n ==>
      Obj(base, size, i) in next && next[Obj(base, size, i)] == if i + 1 < count then Obj(base, size, i + 1) else 0
  }

  lemma {:induction false} ThreadTurn(next: map<nat, nat>, base: nat, size: nat, n: nat, count: nat)
    requires Threaded(next, base, size, n, count) && size > 0 && n < count
    ensures Threaded(next[Obj(base, size, n) := if n + 1 < count then Obj(base, size, n + 1) else 0], base, size, n + 1, count)
  {
    hide Obj;
    var next' := next[Obj(base, size, n) := if n + 1 < count then Obj(base, size, n + 1) else 0];
    forall i: nat | i < n + 1
      ensures Obj(base, size, i) in next' &&
              next'[Obj(base, size, i)] == if i + 1 < count then Obj(base, size, i + 1) else 0
    {
      if i < n { DifferentObjects(base, size, i, n); }
    }
  }

  lemma {:induction false} ThreadedIsLinked(next: map<nat, nat>, base: nat, size: nat, count: nat)
    requires Threaded(next, base, size, count, count) && size > 0 && count > 0 && base > 0
    ensures FreeList.Linked(next, base, Carve(base, size, count))
  {
    hide Obj, Carve;
    TP.CarvedInOrder(base, size, count);
    var list := Carve(base, size, count);
    FirstObject(base, size, 0);
    forall i | 0 <= i < |list|
      ensures list[i] != 0 && list[i] in next && next[list[i]] == if i + 1 < |list| then list[i + 1] else 0
    {
      FirstObject(base, size, i);
      assert list[i] == Obj(base, size, i);
      assert i + 1 < count ==> list[i + 1] == Obj(base, size, i + 1);
    }
  }

  lemma {:induction false} FirstObject(base: nat, size: nat, i: nat)
    ensures Obj(base, size, i) >= base && Obj(base, size, 0) == base
  {
  }

  /** The loop that threads the objects of a new span into a list. */
  method CarveSpan(words: map<nat, nat>, base: nat, size: nat, count: nat)
    returns (next: map<nat, nat>, first: nat, last: nat)
    requires size > 0 && count > 0 && base > 0
    ensures FreeList.Linked(next, first, Carve(base, size, count))
    ensures last == Carve(base, size, count)[|Carve(base, size, count)| - 1]
    ensures FreeList.SameOutside(words, next, Carve(base, size, count))
  {
    TP.CarvedInOrder(base, size, count);
    ghost var list := Carve(base, size, count);
    next, first, last := words, base, 0;
    var i := 0;
    while i < count
      invariant i <= count && Threaded(next, base, size, i, count) && FreeList.SameOutside(words, next, list)
      invariant i == count ==> last == Obj(base, size, count - 1)
    {
      ThreadTurn(next, base, size, i, count);
      assert list[i] == Obj(base, size, i);
      var current := base + i * size;
      if i + 1 < count {
        next := next[current := base + (i + 1) * size];
      } else {
        next := next[current := 0];
        last := current;
      }
      i := i + 1;
    }
    ThreadedIsLinked(next, base, size, count);
  }

  // ----------------------------------------------------------- the count loops

  method OnFetchRange(h: Heap, range: seq<nat>) returns (r: Heap)
    ensures r == OnFetch(h, range)
  {
    r := h;
    for i := 0 to |range|
      invariant r == OnFetch(h, range[..i])
    {
      assert range[..i + 1][..i] == range[..i];
      var q := MapObject(r, range[i]);
      if q.Some? && q.value in r.info && r.info[q.value].centralFree > 0 {
        r := r.(info := r.info[q.value := r.info[q.value].(centralFree := r.info[q.value].centralFree - 1)]);
      }
    }
    assert range[..|range|] == range;
  }

  method OnReleaseRange(h: Heap, range: seq<nat>) returns (r: Heap)
    ensures r == OnRelease(h, range)
  {
    r := h;
    for i := 0 to |range|
      invariant r == OnRelease(h, range[..i])
    {
      assert range[..i + 1][..i] == range[..i];
      var q := MapObject(r, range[i]);
      if q.Some? && q.value in r.info {
        r := r.(info := r.info[q.value := r.info[q.value].(centralFree := r.info[q.value].centralFree + 1)]);
      }
    }
    assert range[..|range|] == range;
  }

  /** The loop over the spans of a class, erasing from the vector as it goes. */
  method ReleaseEmptySpans(s: State, c: nat) returns (r: State)
    requires c < |s.spans| && Distinct(s.spans[c])
    ensures r == ReleaseEmpty(s, c, s.spans[c])
  {
    hide Idle;
    r := s;
    var i := 0;
    assert s.spans[c][0..] == s.spans[c];
    while i < |r.spans[c]|
      invariant |r.spans| == |s.spans| && i <= |r.spans[c]| && Distinct(r.spans[c])
      invariant ReleaseEmpty(r, c, r.spans[c][i..]) == ReleaseEmpty(s, c, s.spans[c])
      decreases |r.spans[c]| - i
    {
      var q := r.spans[c][i];
      assert r.spans[c][i..] == [q] + r.spans[c][i + 1..];
      if Idle(r, c, q) {
        B.WithoutAt(r.spans[c], i, q);
        ErasedIsDistinct(r.spans[c], i);
        var list := FreeList.Keep(At(r.lists, Central(c)), InSpan(r.heap.store[q]));
        ghost var before := r;
        assert (r.spans[c][..i] + r.spans[c][i + 1..])[i..] == r.spans[c][i + 1..];
        r := r.(heap := Release(r.heap, q), lists := r.lists[Central(c) := list],
                spans := r.spans[c := r.spans[c][..i] + r.spans[c][i + 1..]]);
        assert r == Retire(before, c, q);
      } else {
        i := i + 1;
      }
    }
    assert r.spans[c][i..] == [];
  }

  lemma {:induction false} ErasedIsDistinct(list: seq<Id>, i: nat)
    requires i < |list| && Distinct(list)
    ensures Distinct(list[..i] + list[i + 1..]) && list[i] !in list[..i]
  {
  }

  // ------------------------------------------------ what the page heap answers

  /** What the page heap answers: its next state and the span it hands out. */
  datatype Grant = Grant(h: Heap, q: Id)

  /** The first byte of a large block. */
  predicate IsLargeStart(h: Heap, a: nat) {
    && MapObject(h, a).Some? && MapObject(h, a).value in h.info && MapObject(h, a).value in h.store
    && h.info[MapObject(h, a).value].classIndex.None? && a == Base(h.store[MapObject(h, a).value])
  }

  // --------------------------------------------------- sections as steps

  lemma {:induction false} StepIsSound(s: State, step: Step, s': State)
    requires Sound(s) && Act(s, step, s')
    ensures Sound(s')
  {
    hide Act, Good;
    var w, l :| Good(s, w, l);
    var w', l' := StepKeeps(s, w, l, step, s');
  }

  lemma {:induction false} Shape(s: State)
    requires Sound(s)
    ensures |s.slots| == |s.spans| == SizeClass.CLASSES && forall c :: 0 <= c < SizeClass.CLASSES ==> Distinct(s.spans[c])
  {
    var w, l :| Good(s, w, l);
    hide P.Inv, ObjectsOk, ListsOk, CountsOk;
  }

  /** A free of a block in use is a step of the machine; one of any other accepted
      address is the end of its soundness. */
  lemma {:induction false} FreeSmallIsStep(s: State, t: nat, c: nat, a: nat)
    requires Sound(s) && HoldsNothing(s, t) && c < SizeClass.CLASSES && ClassOfBlock(s.heap, a) == Some(c)
    ensures |s.slots| == SizeClass.CLASSES && (Sound(FreeBlock(s, t, c, a)) <==> a in s.user)
    ensures a in s.user ==> Act(s, FreeSmall(t, a), FreeBlock(s, t, c, a))
  {
    hide FreeBlock, ClassOfBlock, HoldsNothing, Sound, Distinct;
    Shape(s);
    FreeKeepsExactly(s, t, c, a);
  }

  lemma {:induction false} FreeLargeIsStep(s: State, a: nat)
    requires Sound(s) && IsLargeStart(s.heap, a)
    ensures var s' := s.(heap := Release(s.heap, MapObject(s.heap, a).value));
      Act(s, FreeLarge(a), s') && Sound(s')
  {
    hide Release, MapObject, Sound, Distinct;
    Shape(s);
    StepIsSound(s, FreeLarge(a), s.(heap := Release(s.heap, MapObject(s.heap, a).value)));
  }

  lemma {:induction false} ReturnIsStep(s: State, t: nat, c: nat, slot: nat)
    requires Sound(s) && c < SizeClass.CLASSES && At(s.lists, Held(t, c, slot)) != []
    ensures |s.spans| == SizeClass.CLASSES && Distinct(s.spans[c])
    ensures Act(s, GiveCentral(t, c, slot), ReturnCentral(s, t, c, slot)) && Sound(ReturnCentral(s, t, c, slot))
  {
    hide ReturnCentral, Sound, Distinct, At;
    Shape(s);
    StepIsSound(s, GiveCentral(t, c, slot), ReturnCentral(s, t, c, slot));
  }

  lemma {:induction false} FetchIsStep(s: State, t: nat, c: nat)
    requires Sound(s) && c < SizeClass.CLASSES && At(s.lists, Local(t, c)) == [] && At(s.lists, Central(c)) != []
    ensures var s' := FetchCentral(s, t, c, SizeClass.BatchCount(c));
      Act(s, Fetch(t, c), s') && Sound(s')
  {
    hide FetchCentral, Sound, Distinct, At, SizeClass.BatchCount;
    Shape(s);
    StepIsSound(s, Fetch(t, c), FetchCentral(s, t, c, SizeClass.BatchCount(c)));
  }

  lemma {:induction false} FetchNewIsStep(s: State, t: nat, c: nat, g: Grant)
    requires Sound(s) && c < SizeClass.CLASSES && At(s.lists, Local(t, c)) == [] && At(s.lists, Central(c)) == []
    requires Allocates(s.heap, SizeClass.PagesForClass(c), g.h, g.q) && g.q in g.h.store
    ensures |s.spans| == SizeClass.CLASSES
    ensures var s' := FetchCentral(Populate(s, g.h, g.q, c), t, c, SizeClass.BatchCount(c));
      Act(s, FetchNew(t, c, g.h, g.q), s') && Sound(s')
  {
    hide FetchCentral, Populate, Sound, Distinct, At, Allocates, SizeClass.BatchCount, SizeClass.PagesForClass;
    Shape(s);
    StepIsSound(s, FetchNew(t, c, g.h, g.q), FetchCentral(Populate(s, g.h, g.q, c), t, c, SizeClass.BatchCount(c)));
  }

  /** The size recorded for an accepted address is that of its class. */
  lemma {:induction false} RecordedClass(s: State, a: nat, q: Id)
    requires Sound(s) && MapObject(s.heap, a) == Some(q) && ClassOfBlock(s.heap, a).Some?
    ensures q in s.heap.info && ClassOfBlock(s.heap, a).value < SizeClass.CLASSES
    ensures s.heap.info[q].objectSize == SizeClass.ClassSize(ClassOfBlock(s.heap, a).value)
  {
    hide P.Inv, CountsOk, SizesOk, Resting, ObjectsOk, ListsOk, MapObject, Contains, Base, Obj;
    var w, l :| Good(s, w, l);
    T.MapObjectIsExact(s.heap, l, a, q);
    var c := s.heap.info[q].classIndex.value;
    assert IsBound(s.heap, q, c) && InfoOk(s.heap.store[q], s.heap.info[q], c);
  }

  // ------------------------------------------------------------ the allocator

  class Allocator {
    var s: State

    ghost predicate Valid()
      reads this
    {
      Sound(s)
    }

    constructor ()
      ensures s == Start() && Valid()
    {
      s := Start();
      StartKeeps();
      assert Good(Start(), map[], P.Layout(map[], map[], {}));
    }

    /** A range in hand goes back to the central list; wholly free spans leave. */
    method ReleaseRange(t: nat, c: nat, slot: nat)
      requires Valid() && c < SizeClass.CLASSES && At(s.lists, Held(t, c, slot)) != []
      modifies this
      ensures Valid() && Act(old(s), GiveCentral(t, c, slot), s)
    {
      hide Sound, Act, ReleaseEmpty, OnRelease, Shift, Distinct;
      ReturnIsStep(s, t, c, slot);
      var range := At(s.lists, Held(t, c, slot));
      var h := OnReleaseRange(s.heap, range);
      var s1 := s.(heap := h, lists := Shift(s.lists, Held(t, c, slot), Central(c), |range|));
      s := ReleaseEmptySpans(s1, c);
    }

    /** Up to `n` objects are popped off the central list. */
    method TakeRange(t: nat, c: nat, n: nat)
      modifies this
      ensures s == FetchCentral(old(s), t, c, n)
    {
      hide OnFetch, Shift;
      var list := At(s.lists, Central(c));
      var k := Machine.Min(n, |list|);
      var h := OnFetchRange(s.heap, list[..k]);
      s := s.(heap := h, lists := Shift(s.lists, Central(c), Local(t, c), k));
    }

    /** A range of a class for a thread, from the central list. When that is empty it
        is first filled from a new span, if the page heap has one to give. */
    method FetchRange(t: nat, c: nat, grant: Option<Grant>) returns (ok: bool)
      requires Valid() && c < SizeClass.CLASSES && At(s.lists, Local(t, c)) == []
      requires grant.Some? ==> Allocates(s.heap, SizeClass.PagesForClass(c), grant.value.h, grant.value.q)
      requires grant.Some? ==> grant.value.q in grant.value.h.store
      modifies this
      ensures Valid() && ok == (At(old(s).lists, Central(c)) != [] || grant.Some?)
      ensures At(old(s).lists, Central(c)) != [] ==> Act(old(s), Fetch(t, c), s)
      ensures At(old(s).lists, Central(c)) == [] && ok ==> Act(old(s), FetchNew(t, c, grant.value.h, grant.value.q), s)
      ensures !ok ==> s == old(s)
    {
      hide Sound, Act, Allocates, SizeClass.BatchCount, SizeClass.PagesForClass, Populate, FetchCentral, At;
      if At(s.lists, Central(c)) != [] {
        FetchIsStep(s, t, c);
        TakeRange(t, c, SizeClass.BatchCount(c));
        return true;
      }
      if grant.None? { return false; }
      FetchNewIsStep(s, t, c, grant.value);
      s := Populate(s, grant.value.h, grant.value.q, c);
      TakeRange(t, c, SizeClass.BatchCount(c));
      return true;
    }

    /** A block is given back. Null, an address that is in no active span, one that is
        not at an object boundary and one inside a large block are ignored. An accepted
        address that was not in use is taken too, and that is what ends validity. */
    method MiniFree(table: seq<nat>, t: nat, ptr: nat)
      requires Valid() && SizeClass.IsTable(table) && HoldsNothing(s, t)
      modifies this
      ensures var c := ClassOfBlock(old(s).heap, ptr);
        ptr != 0 && c.Some? ==>
          && c.value < SizeClass.CLASSES && c.value < |old(s).slots| && s == FreeBlock(old(s), t, c.value, ptr)
          && (Valid() <==> ptr in old(s).user) && (ptr in old(s).user ==> Act(old(s), FreeSmall(t, ptr), s))
      ensures ptr != 0 && IsLargeStart(old(s).heap, ptr) ==> Valid() && Act(old(s), FreeLarge(ptr), s)
      ensures ptr == 0 || (ClassOfBlock(old(s).heap, ptr).None? && !IsLargeStart(old(s).heap, ptr)) ==> s == old(s)
    {
      hide Act, Sound, MapObject, HoldsNothing, SizeClass.IsTable, FreeBlock, Release, Base;
      if ptr == 0 { return; }
      var q := MapObject(s.heap, ptr);
      if q.None? { return; }
      if q.value !in s.heap.info || q.value !in s.heap.store { return; }
      var span, info := s.heap.store[q.value], s.heap.info[q.value];
      if info.classIndex.Some? {
        if info.objectSize > 0 && ptr >= Base(span) && (ptr - Base(span)) % info.objectSize == 0 {
          RecordedClass(s, ptr, q.value);
          var c := SizeClass.Index(table, info.objectSize);
          SizeClass.SizeOfClassFindsClass(info.classIndex.value, c);
          FreeSmallIsStep(s, t, c, ptr);
          s := FreeBlock(s, t, c, ptr);
        }
      } else if ptr == Base(span) {
        FreeLargeIsStep(s, ptr);
        s := s.(heap := Release(s.heap, q.value));
      }
    }
  }
}
