/** Size classes of the small-object allocator: a table of 36 sizes, a lookup table
    that finds the smallest class for a request, and the batch and span sizes. */
module SizeClass {
  import opened Common
  import Arithmetic

  const MAX_SMALL: nat := 8192
  const ALIGNMENT: nat := 8
  const TARGET: nat := 65536
  const CLASSES: nat := 36
  const SLOTS: nat := 1024

  const SIZES: seq<nat> := [
    8, 16, 24, 32, 40, 48, 56, 64,
    80, 96, 112, 128,
    160, 192, 224, 256,
    320, 384, 448, 512,
    640, 768, 896, 1024,
    1280, 1536, 1792, 2048,
    2560, 3072, 3584, 4096,
    5120, 6144, 7168, 8192]

  predicate IsSmall(size: nat) {
    0 < size <= MAX_SMALL
  }

  function ClassSize(c: nat): (r: nat)
    requires c < CLASSES
    ensures 8 <= r <= MAX_SMALL && r % ALIGNMENT == 0
  {
    SIZES[c]
  }

  lemma {:induction false} Ascending(c: nat, d: nat)
    requires c < d < CLASSES
    ensures ClassSize(c) < ClassSize(d)
    decreases d
  {
    assert ClassSize(d - 1) < ClassSize(d);
    if c < d - 1 { Ascending(c, d - 1); }
  }

  /** The smallest class that holds `size`, or `CLASSES` when none does. */
  ghost predicate IsClassOf(size: nat, c: nat) {
    && c <= CLASSES
    && (c < CLASSES ==> size <= ClassSize(c))
    && (forall d :: 0 <= d < c ==> ClassSize(d) < size)
  }

  function RoundUp(size: nat): nat {
    (size + ALIGNMENT - 1) / ALIGNMENT * ALIGNMENT
  }

  /** Rounding to the alignment never changes the class. */
  lemma {:induction false} RoundingKeepsClass(size: nat, c: nat)
    requires IsClassOf(RoundUp(size), c)
    ensures IsClassOf(size, c)
  {
    forall d | 0 <= d < c ensures ClassSize(d) < size {
      AlignedBelow(size, ClassSize(d));
    }
  }

  lemma {:induction false} AlignedBelow(size: nat, m: nat)
    requires m % ALIGNMENT == 0 && m < RoundUp(size)
    ensures m < size
  {
  }

  method FindClassIndexSlow(rounded: nat) returns (c: nat)
    ensures IsClassOf(rounded, c)
  {
    c := 0;
    while c < CLASSES
      invariant c <= CLASSES && forall d :: 0 <= d < c ==> ClassSize(d) < rounded
    {
      if rounded <= SIZES[c] { return; }
      c := c + 1;
    }
  }

  /** Slot `i` serves the rounded size `8 * (i + 1)`. */
  ghost predicate IsTable(table: seq<nat>) {
    |table| == SLOTS && forall i :: 0 <= i < SLOTS ==> IsClassOf((i + 1) * ALIGNMENT, table[i])
  }

  method BuildClassIndexBySize() returns (table: seq<nat>)
    ensures IsTable(table)
  {
    table := [];
    var slot := 0;
    while slot < SLOTS
      invariant slot <= SLOTS && |table| == slot
      invariant forall i :: 0 <= i < slot ==> IsClassOf((i + 1) * ALIGNMENT, table[i])
    {
      var c := FindClassIndexSlow((slot + 1) * ALIGNMENT);
      table := table + [c];
      slot := slot + 1;
    }
  }

  lemma {:induction false} SlotOf(size: nat)
    requires IsSmall(size)
    ensures 0 <= RoundUp(size) / ALIGNMENT - 1 < SLOTS
    ensures (RoundUp(size) / ALIGNMENT - 1 + 1) * ALIGNMENT == RoundUp(size)
  {
  }

  /** The table lookup finds the smallest class for every request. */
  method Index(table: seq<nat>, size: nat) returns (c: nat)
    requires IsTable(table)
    ensures IsSmall(size) ==> c < CLASSES && IsClassOf(size, c)
    ensures !IsSmall(size) ==> c == CLASSES
  {
    if !IsSmall(size) { return CLASSES; }
    SlotOf(size);
    var slot := RoundUp(size) / ALIGNMENT - 1;
    c := table[slot];
    assert IsClassOf((slot + 1) * ALIGNMENT, c);
    RoundingKeepsClass(size, c);
    LargestClass(size, c);
  }

  lemma {:induction false} LargestClass(size: nat, c: nat)
    requires IsClassOf(size, c) && size <= MAX_SMALL
    ensures c < CLASSES
  {
    assert ClassSize(CLASSES - 1) == MAX_SMALL;
  }

  /** A block of class `c` that is freed by its recorded size goes back to class `c`. */
  lemma {:induction false} SizeOfClassFindsClass(c: nat, d: nat)
    requires c < CLASSES && IsClassOf(ClassSize(c), d)
    ensures d == c
  {
    if d < c { Ascending(d, c); }
  }

  function BatchCount(c: nat): (r: nat)
    requires c < CLASSES
    ensures 2 <= r <= 64
  {
    var count := TARGET / ClassSize(c);
    if count < 2 then 2 else if count > 64 then 64 else count
  }

  /** The target is at least one page, so the count is never zero. */
  function PagesForClass(c: nat): (r: nat)
    requires c < CLASSES
    ensures r > 0
  {
    var bytes := ClassSize(c) * BatchCount(c);
    var need := if bytes < TARGET then TARGET else bytes;
    (need + PAGE - 1) / PAGE
  }

  function ObjectCount(pages: nat, c: nat): nat
    requires c < CLASSES
  {
    pages * PAGE / ClassSize(c)
  }

  lemma {:induction false} CeilingCovers(need: nat)
    ensures need <= (need + PAGE - 1) / PAGE * PAGE < need + PAGE
  {
  }

  /** The span fetched for a class holds at least one whole batch. */
  lemma {:induction false} SpanHoldsBatch(c: nat)
    requires c < CLASSES
    ensures PagesForClass(c) > 0 && ObjectCount(PagesForClass(c), c) >= BatchCount(c)
  {
    var bytes := ClassSize(c) * BatchCount(c);
    var need := if bytes < TARGET then TARGET else bytes;
    CeilingCovers(need);
    Arithmetic.QuotientAtLeast(PagesForClass(c) * PAGE, ClassSize(c), BatchCount(c));
  }

  /** How many ranges of a class the transfer cache keeps. */
  function MaxRanges(c: nat): nat
    requires c < CLASSES
  {
    var size := ClassSize(c);
    if size <= 64 then 64 else if size <= 256 then 32 else if size <= 1024 then 16 else 8
  }

  function Pow2(k: nat): nat {
    if k == 0 then 1 else 2 * Pow2(k - 1)
  }

  lemma {:induction false} Powers()
    ensures Pow2(4) == 16 && Pow2(5) == 32 && Pow2(6) == 64 && Pow2(7) == 128
    ensures Pow2(8) == 256 && Pow2(9) == 512 && Pow2(10) == 1024
  {
    assert Pow2(1) == 2 && Pow2(2) == 4 && Pow2(3) == 8 && Pow2(4) == 16 && Pow2(5) == 32;
    assert Pow2(6) == 64 && Pow2(7) == 128 && Pow2(8) == 256 && Pow2(9) == 512 && Pow2(10) == 1024;
  }

  /** The table is eight steps of 8 and from there four equal steps to each doubling. */
  lemma {:induction false} SizesInSteps(c: nat)
    requires c < CLASSES
    ensures ClassSize(c) == if c < 8 then 8 * (c + 1) else (c % 4 + 5) * Pow2(c / 4 + 2)
  {
    Powers();
    hide Pow2;
    var g := c / 4;
    assert c == 4 * g + c % 4 && g <= 8;
  }

  /** A request is small exactly when some class holds it, and then it wastes less than
      eight bytes or less than a quarter of itself. */
  lemma {:induction false} WasteIsBounded(size: nat, c: nat)
    requires IsClassOf(size, c)
    ensures size > 0 ==> (IsSmall(size) <==> c < CLASSES)
    ensures 0 < size && c < CLASSES ==> ClassSize(c) - size < 8 || 4 * (ClassSize(c) - size) < size
  {
    if c < CLASSES {
      if c > 0 {
        Steps(c);
        assert ClassSize(c - 1) < size;
      }
    } else {
      assert ClassSize(35) < size;
    }
  }

  lemma {:induction false} Steps(c: nat)
    requires 0 < c < CLASSES
    ensures ClassSize(c) - ClassSize(c - 1) == 8 || 4 * (ClassSize(c) - ClassSize(c - 1)) <= ClassSize(c - 1)
  {
  }

  /** A batch fills the target of 64 KB as far as whole objects do, but never holds more
      than 64; so a span is always eight pages, filled as far as whole objects do. */
  lemma {:induction false} BatchFillsTarget(c: nat)
    requires c < CLASSES
    ensures var n, size := BatchCount(c), ClassSize(c);
      n * size <= 65536 && (n == 64 || (n + 1) * size > 65536)
    ensures PagesForClass(c) == 8
    ensures var n, size := ObjectCount(8, c), ClassSize(c); n * size <= 65536 < (n + 1) * size
  {
    var size := ClassSize(c);
    var q := 65536 / size;
    hide ClassSize;
    assert 65536 == q * size + 65536 % size;
    assert (q + 1) * size == q * size + size;
    if q > 64 { assert 64 * size <= q * size; }
    assert q >= 2 by { Arithmetic.QuotientAtLeast(65536, size, 2); }
    assert BatchCount(c) * size <= 65536;
    assert size * BatchCount(c) == BatchCount(c) * size;
  }

  /** Smaller objects are kept in more ranges. */
  lemma {:induction false} RangesBySize(c: nat)
    requires c < CLASSES
    ensures MaxRanges(c) == if c < 8 then 64 else if c < 16 then 32 else if c < 24 then 16 else 8
  {
    if c < 7 { Ascending(c, 7); }
    if 7 < c { Ascending(7, c); }
    if c < 15 { Ascending(c, 15); }
    if 15 < c { Ascending(15, c); }
    if c < 23 { Ascending(c, 23); }
    if 23 < c { Ascending(23, c); }
  }
}
