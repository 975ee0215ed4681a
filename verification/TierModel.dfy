/** The small-object tiers above the page heap: lists of free objects held by the
    central cache, the transfer cache and each thread, and the critical sections
    that move ranges of objects between them. */
module TierModel {
  import opened Common
  import Machine
  import opened PageHeap
  import T = PageHeapTheorems
  import SizeClass
  import FreeList

  /** Where an object can be. Transfer ranges sit in numbered slots of a vector; a
      range between two critical sections is held by a thread. */
  datatype Loc =
    | User
    | Central(c: nat)
    | Transfer(c: nat, slot: nat)
    | Local(t: nat, c: nat)
    | Held(t: nat, c: nat, slot: nat)

  type Lists = map<Loc, seq<nat>>

  /** `slots[c]` is the length of the transfer vector of class `c`, `spans[c]` the
      spans cut into objects of class `c`, `user` the small blocks in use. */
  datatype State = State(heap: Heap, lists: Lists, slots: seq<nat>, spans: seq<seq<Id>>, user: set<nat>)

  function At(lists: Lists, loc: Loc): seq<nat> {
    if loc in lists then lists[loc] else []
  }

  // ------------------------------------------------------------- addresses

  function Base(s: Span): nat {
    s.start * PAGE
  }

  function Obj(base: nat, size: nat, i: nat): nat {
    base + i * size
  }

  /** The objects of a span, in address order. */
  function Carve(base: nat, size: nat, n: nat): seq<nat> {
    if n == 0 then [] else Carve(base, size, n - 1) + [Obj(base, size, n - 1)]
  }

  predicate Contains(s: Span, a: nat) {
    s.Covers(a / PAGE)
  }

  // ---------------------------------------------------------- moving ranges

  /** The first `n` objects of `from` become the front of `to`. */
  function Shift(lists: Lists, from: Loc, to: Loc, n: nat): Lists
    requires n <= |At(lists, from)|
  {
    lists[from := At(lists, from)[n..]][to := At(lists, from)[..n] + At(lists, to)]
  }

  // ----------------------------------------------------- central free counts

  /** One object leaves the central cache. */
  function Taken(h: Heap, a: nat): Heap {
    match MapObject(h, a)
    case None => h
    case Some(q) =>
      if q in h.info && h.info[q].centralFree > 0
      then h.(info := h.info[q := h.info[q].(centralFree := h.info[q].centralFree - 1)])
      else h
  }

  /** One object comes back to the central cache. */
  function Given(h: Heap, a: nat): Heap {
    match MapObject(h, a)
    case None => h
    case Some(q) =>
      if q in h.info then h.(info := h.info[q := h.info[q].(centralFree := h.info[q].centralFree + 1)]) else h
  }

  function OnFetch(h: Heap, range: seq<nat>): Heap {
    if range == [] then h else Taken(OnFetch(h, range[..|range| - 1]), range[|range| - 1])
  }

  function OnRelease(h: Heap, range: seq<nat>): Heap {
    if range == [] then h else Given(OnRelease(h, range[..|range| - 1]), range[|range| - 1])
  }

  // --------------------------------------------------------- central sections

  function Bind(h: Heap, q: Id, c: nat): Heap
    requires q in h.store && c < SizeClass.CLASSES
  {
    var count := SizeClass.ObjectCount(h.store[q].pages, c);
    h.(info := h.info[q := Info(Some(c), SizeClass.ClassSize(c), count, count)])
  }

  /** A new span `q` of heap `h` is cut into objects of class `c`. */
  function Populate(s: State, h: Heap, q: Id, c: nat): State
    requires q in h.store && c < SizeClass.CLASSES && c < |s.spans|
  {
    var objects := Carve(Base(h.store[q]), SizeClass.ClassSize(c), SizeClass.ObjectCount(h.store[q].pages, c));
    s.(heap := Bind(h, q, c), lists := s.lists[Central(c) := objects + At(s.lists, Central(c))],
       spans := s.spans[c := s.spans[c] + [q]])
  }

  /** Up to `n` objects go from the central cache to a thread. */
  function FetchCentral(s: State, t: nat, c: nat, n: nat): State {
    var k := Machine.Min(n, |At(s.lists, Central(c))|);
    s.(heap := OnFetch(s.heap, At(s.lists, Central(c))[..k]), lists := Shift(s.lists, Central(c), Local(t, c), k))
  }

  /** Counting and unlinking look at the addresses in the span. */
  function InSpan(s: Span): nat -> bool {
    (a: nat) => Contains(s, a)
  }

  predicate Idle(s: State, c: nat, q: Id) {
    && q in s.heap.store && q in s.heap.info
    && s.heap.info[q].objectCount != 0 && s.heap.info[q].centralFree == s.heap.info[q].objectCount
    && FreeList.Count(At(s.lists, Central(c)), InSpan(s.heap.store[q])) == s.heap.info[q].objectCount
  }

  /** A wholly free span leaves the central cache and goes back to the page heap. */
  function Retire(s: State, c: nat, q: Id): State
    requires q in s.heap.store && c < |s.spans|
  {
    var list := FreeList.Keep(At(s.lists, Central(c)), InSpan(s.heap.store[q]));
    s.(heap := Release(s.heap, q), lists := s.lists[Central(c) := list], spans := s.spans[c := Without(s.spans[c], q)])
  }

  /** One turn of the loop over the spans of a class. */
  function LookAt(s: State, c: nat, q: Id): (r: State)
    requires c < |s.spans|
    ensures |r.spans| == |s.spans|
  {
    if Idle(s, c, q) then Retire(s, c, q) else s
  }

  /** The spans of `todo` are looked at in order. */
  function ReleaseEmpty(s: State, c: nat, todo: seq<Id>): (r: State)
    requires c < |s.spans|
    ensures |r.spans| == |s.spans|
    decreases |todo|
  {
    if todo == [] then s else ReleaseEmpty(LookAt(s, c, todo[0]), c, todo[1..])
  }

  /** A held range goes back to the central cache. */
  function ReturnCentral(s: State, t: nat, c: nat, slot: nat): State
    requires c < |s.spans|
  {
    var range := At(s.lists, Held(t, c, slot));
    var s1 := s.(heap := OnRelease(s.heap, range), lists := Shift(s.lists, Held(t, c, slot), Central(c), |range|));
    ReleaseEmpty(s1, c, s1.spans[c])
  }

  // -------------------------------------------------------- transfer sections

  /** A range goes to the transfer vector, or stays in hand when that is full. */
  function Spill(s: State, t: nat, c: nat, n: nat): State
    requires c < SizeClass.CLASSES && c < |s.slots| && n <= |At(s.lists, Local(t, c))|
  {
    if s.slots[c] < SizeClass.MaxRanges(c)
    then s.(lists := Shift(s.lists, Local(t, c), Transfer(c, s.slots[c]), n), slots := s.slots[c := s.slots[c] + 1])
    else s.(lists := Shift(s.lists, Local(t, c), Held(t, c, 0), n))
  }

  function Refill(s: State, t: nat, c: nat): State
    requires c < |s.slots| && s.slots[c] > 0
  {
    var slot := s.slots[c] - 1;
    s.(lists := Shift(s.lists, Transfer(c, slot), Local(t, c), |At(s.lists, Transfer(c, slot))|), slots := s.slots[c := slot])
  }

  /** The ranges of a class, all taken into a thread's hands. */
  function Drained(lists: Lists, t: nat, c: nat, m: nat): Lists {
    if m == 0 then lists
    else
      var before := Drained(lists, t, c, m - 1);
      Shift(before, Transfer(c, m - 1), Held(t, c, m - 1), |At(before, Transfer(c, m - 1))|)
  }

  // ----------------------------------------------------------- local sections

  function Pop(s: State, t: nat, c: nat): State
    requires At(s.lists, Local(t, c)) != []
  {
    var list := At(s.lists, Local(t, c));
    s.(lists := s.lists[Local(t, c) := list[1..]], user := s.user + {list[0]})
  }

  /** A block comes back to the list of its class; a list that reaches twice the
      batch gives one batch away. */
  function FreeBlock(s: State, t: nat, c: nat, a: nat): State
    requires c < SizeClass.CLASSES && c < |s.slots|
  {
    var s1 := s.(lists := s.lists[Local(t, c) := [a] + At(s.lists, Local(t, c))], user := s.user - {a});
    var batch := SizeClass.BatchCount(c);
    if |At(s1.lists, Local(t, c))| >= 2 * batch then Spill(s1, t, c, batch) else s1
  }

  // ------------------------------------------------------------ the machine

  datatype Step =
    | PopLocal(t: nat, c: nat)
    | FreeSmall(t: nat, a: nat)
    | SpillLocal(t: nat, c: nat, n: nat)
    | RefillLocal(t: nat, c: nat)
    | Fetch(t: nat, c: nat)
    | FetchNew(t: nat, c: nat, h: Heap, q: Id)
    | GiveCentral(t: nat, c: nat, slot: nat)
    | Drain(t: nat, c: nat)
    | NewLarge(size: nat, h: Heap, q: Id)
    | FreeLarge(a: nat)
    | PurgePages(h: Heap, order: seq<Id>)

  /** The page heap serves `n` pages with span `q`, from its cache or the system. */
  ghost predicate Allocates(h: Heap, n: nat, h': Heap, q: Id) {
    && (exists step: T.Step :: (step.Take? || step.Grow?) && step.n == n && T.Act(h, step, h'))
    && h'.active == h.active + [q]
  }

  ghost predicate HoldsNothing(s: State, t: nat) {
    forall c: nat, slot: nat :: At(s.lists, Held(t, c, slot)) == []
  }

  /** The class recorded for the span of an address, if it is a small-object span
      and the address is at an object boundary. */
  function ClassOfBlock(h: Heap, a: nat): Option<nat> {
    match MapObject(h, a)
    case None => None
    case Some(q) =>
      if q in h.info && q in h.store && h.info[q].classIndex.Some? && h.info[q].objectSize > 0
         && a >= Base(h.store[q]) && (a - Base(h.store[q])) % h.info[q].objectSize == 0
      then h.info[q].classIndex
      else None
  }

  ghost predicate Act(s: State, step: Step, s': State) {
    |s.slots| == |s.spans| == SizeClass.CLASSES &&
    match step
    case PopLocal(t, c) => c < SizeClass.CLASSES && At(s.lists, Local(t, c)) != [] && s' == Pop(s, t, c)
    case FreeSmall(t, a) =>
      && a in s.user && HoldsNothing(s, t)
      && ClassOfBlock(s.heap, a).Some? && ClassOfBlock(s.heap, a).value < SizeClass.CLASSES
      && s' == FreeBlock(s, t, ClassOfBlock(s.heap, a).value, a)
    case SpillLocal(t, c, n) =>
      c < SizeClass.CLASSES && 0 < n <= |At(s.lists, Local(t, c))| && HoldsNothing(s, t) && s' == Spill(s, t, c, n)
    case RefillLocal(t, c) =>
      c < SizeClass.CLASSES && s.slots[c] > 0 && At(s.lists, Local(t, c)) == [] && s' == Refill(s, t, c)
    case Fetch(t, c) =>
      && c < SizeClass.CLASSES && At(s.lists, Local(t, c)) == [] && At(s.lists, Central(c)) != []
      && s' == FetchCentral(s, t, c, SizeClass.BatchCount(c))
    case FetchNew(t, c, h, q) =>
      && c < SizeClass.CLASSES && At(s.lists, Local(t, c)) == [] && At(s.lists, Central(c)) == []
      && Allocates(s.heap, SizeClass.PagesForClass(c), h, q) && q in h.store
      && s' == FetchCentral(Populate(s, h, q, c), t, c, SizeClass.BatchCount(c))
    case GiveCentral(t, c, slot) =>
      c < SizeClass.CLASSES && At(s.lists, Held(t, c, slot)) != [] && s' == ReturnCentral(s, t, c, slot)
    case Drain(t, c) =>
      && c < SizeClass.CLASSES && HoldsNothing(s, t)
      && s' == s.(lists := Drained(s.lists, t, c, s.slots[c]), slots := s.slots[c := 0])
    case NewLarge(size, h, q) =>
      && size > SizeClass.MAX_SMALL && Allocates(s.heap, (size + PAGE - 1) / PAGE, h, q)
      && s' == s.(heap := h.(info := h.info[q := Info(None, size, 1, 0)]))
    case FreeLarge(a) =>
      && MapObject(s.heap, a).Some? && var q := MapObject(s.heap, a).value;
      && q in s.heap.info && q in s.heap.store && s.heap.info[q].classIndex.None? && a == Base(s.heap.store[q])
      && s' == s.(heap := Release(s.heap, q))
    case PurgePages(h, order) => T.Act(s.heap, T.Purge(order), h) && s' == s.(heap := h)
  }

  function Start(): State {
    State(Empty(), map[], seq(SizeClass.CLASSES, _ => 0), seq(SizeClass.CLASSES, _ => []), {})
  }
}
