/** One thread's cache: a free list per class and a byte counter, with a limit per
    list and a limit for all of them. Calls into the shared tiers appear as the
    range fetched and as the ranges released, in order. */
module ThreadCache {
  import Arithmetic
  import SizeClass

  const WORD: nat := 0x1_0000_0000_0000_0000
  const MIN_LIMIT: nat := 8192
  const DEFAULT_LIMIT: nat := 524288

  /** A range given to the transfer cache. */
  datatype Gift = Gift(c: nat, range: seq<nat>)

  // ---------------------------------------------------------------- byte counts

  function Bytes(n: nat, c: nat): nat
    requires c < SizeClass.CLASSES
  {
    n * SizeClass.ClassSize(c)
  }

  lemma {:induction false} BytesLess(n: nat, k: nat, c: nat)
    requires c < SizeClass.CLASSES && k <= n
    ensures Bytes(n, c) == Bytes(n - k, c) + Bytes(k, c)
    ensures k > 0 ==> Bytes(k, c) > 0
  {
    hide SizeClass.ClassSize;
  }

  /** The bytes of the first `n` lists. */
  function Total(lists: seq<seq<nat>>, n: nat): nat
    requires n <= SizeClass.CLASSES && n <= |lists|
  {
    if n == 0 then 0 else Total(lists, n - 1) + Bytes(|lists[n - 1]|, n - 1)
  }

  lemma {:induction false} TotalWith(lists: seq<seq<nat>>, c: nat, list: seq<nat>, n: nat)
    requires n <= SizeClass.CLASSES == |lists| && c < SizeClass.CLASSES
    ensures Total(lists[c := list], n) + (if c < n then Bytes(|lists[c]|, c) else 0)
         == Total(lists, n) + if c < n then Bytes(|list|, c) else 0
  {
    if n > 0 { TotalWith(lists, c, list, n - 1); }
  }

  lemma {:induction false} TotalOfEmpty(lists: seq<seq<nat>>, n: nat)
    requires n <= SizeClass.CLASSES == |lists| && forall c: nat :: c < n ==> lists[c] == []
    ensures Total(lists, n) == 0
  {
    if n > 0 { TotalOfEmpty(lists, n - 1); }
  }

  // ------------------------------------------------------- what is given away

  /** The objects of class `c` given away, in order. */
  function GivenOf(gifts: seq<Gift>, c: nat): seq<nat> {
    if gifts == [] then []
    else
      var last := gifts[|gifts| - 1];
      GivenOf(gifts[..|gifts| - 1], c) + (if last.c == c then last.range else [])
  }

  lemma {:induction false} GivenSnoc(gifts: seq<Gift>, g: Gift, c: nat)
    ensures GivenOf(gifts + [g], c) == GivenOf(gifts, c) + if g.c == c then g.range else []
  {
    assert (gifts + [g])[..|gifts|] == gifts;
  }

  /** Nothing is lost: each list is what was given away and what is still there. */
  ghost predicate Conserved(before: seq<seq<nat>>, gifts: seq<Gift>, after: seq<seq<nat>>) {
    |before| == |after| == SizeClass.CLASSES &&
    forall c :: 0 <= c < SizeClass.CLASSES ==> before[c] == GivenOf(gifts, c) + after[c]
  }

  /** Every range given away is a non-empty range shorter than two batches. */
  ghost predicate Proper(gifts: seq<Gift>) {
    forall i :: 0 <= i < |gifts| ==>
      gifts[i].c < SizeClass.CLASSES && 0 < |gifts[i].range| < 2 * SizeClass.BatchCount(gifts[i].c)
  }

  ghost predicate Short(lists: seq<seq<nat>>) {
    |lists| == SizeClass.CLASSES &&
    forall c :: 0 <= c < SizeClass.CLASSES ==> |lists[c]| < 2 * SizeClass.BatchCount(c)
  }

  /** Each list after one batch, at most, has been taken off. */
  function Lowered(n: nat, c: nat): nat
    requires c < SizeClass.CLASSES
  {
    if n < SizeClass.BatchCount(c) then 0 else n - SizeClass.BatchCount(c)
  }

  /** The scavenging target, with the product cut to 64 bits. */
  function Target(limit: nat): nat {
    var t := limit * 3 % WORD / 4;
    if t == 0 then 1 else t
  }

  lemma {:induction false} TargetWithinLimit(limit: nat)
    requires MIN_LIMIT <= limit < WORD
    ensures 0 < Target(limit) <= limit
  {
    if limit * 3 < WORD {
      assert limit * 3 % WORD == limit * 3;
    } else {
      assert limit * 3 % WORD < WORD;
    }
  }

  /** Short of wrap-around the target is three quarters of the limit, rounded down. Cut to
      64 bits, it is a quarter of what is left of the product, but at least one byte. */
  lemma {:induction false} TargetExactly(limit: nat, bytes: nat)
    requires MIN_LIMIT <= limit < WORD
    ensures 3 * limit < WORD ==> (bytes <= Target(limit) <==> 4 * bytes <= 3 * limit)
    ensures WORD <= 3 * limit < 2 * WORD ==> (bytes <= Target(limit) <==> 4 * bytes <= 3 * limit - WORD || bytes <= 1)
    ensures 2 * WORD <= 3 * limit ==> (bytes <= Target(limit) <==> 4 * bytes <= 3 * limit - 2 * WORD || bytes <= 1)
  {
    var w := if 3 * limit < WORD then 0 else if 3 * limit < 2 * WORD then 1 else 2;
    assert limit * 3 % WORD == 3 * limit - w * WORD;
  }

  /** The bytes counted for a cache change by the objects of the class that changed. */
  lemma {:induction false} TotalCountsBytes(lists: seq<seq<nat>>, c: nat, list: seq<nat>)
    requires |lists| == SizeClass.CLASSES && c < SizeClass.CLASSES
    ensures Total(lists[c := list], SizeClass.CLASSES) - Total(lists, SizeClass.CLASSES)
      == (|list| - |lists[c]|) * SizeClass.ClassSize(c)
    ensures (forall d :: 0 <= d < SizeClass.CLASSES ==> lists[d] == []) ==> Total(lists, SizeClass.CLASSES) == 0
  {
    hide SizeClass.ClassSize, Total;
    TotalWith(lists, c, list, SizeClass.CLASSES);
    Arithmetic.Distribute(|list|, |lists[c]|, SizeClass.ClassSize(c));
    if forall d :: 0 <= d < SizeClass.CLASSES ==> lists[d] == [] { TotalOfEmpty(lists, SizeClass.CLASSES); }
  }

  /** Before the last gift the cache held more than `target`. */
  ghost predicate LastWasNeeded(gifts: seq<Gift>, bytes: nat, target: nat) {
    && gifts != [] && var g := gifts[|gifts| - 1];
    && g.c < SizeClass.CLASSES && bytes + |g.range| * SizeClass.ClassSize(g.c) > target
  }

  lemma {:induction false} GaveLast(gifts: seq<Gift>, g: Gift, bytes: nat, before: nat)
    requires g.c < SizeClass.CLASSES && bytes + Bytes(|g.range|, g.c) == before
    ensures forall t: nat :: t < before ==> LastWasNeeded(gifts + [g], bytes, t)
  {
    hide SizeClass.ClassSize;
  }

  class Cache {
    var lists: seq<seq<nat>>
    var cachedBytes: nat
    var limit: nat

    ghost predicate Valid()
      reads this
    {
      && Short(lists) && cachedBytes == Total(lists, SizeClass.CLASSES)
      && MIN_LIMIT <= limit < WORD
    }

    constructor ()
      ensures Valid() && cachedBytes == 0 && limit == DEFAULT_LIMIT
      ensures forall c :: 0 <= c < SizeClass.CLASSES ==> lists[c] == []
    {
      lists := seq(SizeClass.CLASSES, _ => []);
      cachedBytes, limit := 0, DEFAULT_LIMIT;
      new;
      TotalOfEmpty(lists, SizeClass.CLASSES);
    }

    /** Up to `n` objects from the front of one list are given away. */
    method GiveAway(c: nat, n: nat, gifts: seq<Gift>, ghost orig: seq<seq<nat>>) returns (gifts': seq<Gift>)
      requires Valid() && c < SizeClass.CLASSES && lists[c] != [] && n > 0
      requires Conserved(orig, gifts, lists) && Proper(gifts)
      modifies this`lists, this`cachedBytes
      ensures Valid() && Conserved(orig, gifts', lists) && Proper(gifts')
      ensures |gifts'| == |gifts| + 1 && forall t: nat :: t < old(cachedBytes) ==> LastWasNeeded(gifts', cachedBytes, t)
      ensures |lists[c]| == (if n < |old(lists)[c]| then |old(lists)[c]| - n else 0) && cachedBytes < old(cachedBytes)
      ensures forall d :: 0 <= d < SizeClass.CLASSES && d != c ==> lists[d] == old(lists)[d]
    {
      hide SizeClass.BatchCount, Bytes, Total, LastWasNeeded;
      var list := lists[c];
      var k := if n < |list| then n else |list|;
      BytesLess(|list|, k, c);
      TotalWith(lists, c, list[k..], SizeClass.CLASSES);
      ConservedTurn(orig, gifts, lists, c, k);
      lists := lists[c := list[k..]];
      cachedBytes := cachedBytes - Bytes(k, c);
      gifts' := gifts + [Gift(c, list[..k])];
      GaveLast(gifts, Gift(c, list[..k]), cachedBytes, old(cachedBytes));
    }

    /** One pass over the classes, the largest first, until the target is reached: the
        classes from `stop` on have given a batch, the others nothing. */
    method Pass(target: nat, gifts: seq<Gift>, ghost orig: seq<seq<nat>>)
      returns (gifts': seq<Gift>, releasedAny: bool, stop: nat)
      requires Valid() && Conserved(orig, gifts, lists) && Proper(gifts) && cachedBytes > target
      modifies this`lists, this`cachedBytes
      ensures Valid() && Conserved(orig, gifts', lists) && Proper(gifts')
      ensures releasedAny && cachedBytes < old(cachedBytes) && stop <= SizeClass.CLASSES
      ensures |gifts'| > |gifts| && LastWasNeeded(gifts', cachedBytes, target)
      ensures forall c :: stop <= c < SizeClass.CLASSES ==> |lists[c]| == Lowered(|old(lists)[c]|, c)
      ensures forall c :: 0 <= c < stop ==> lists[c] == old(lists)[c]
      ensures cachedBytes > target ==> stop == 0
    {
      hide SizeClass.BatchCount, Total, Conserved, Proper, Short, LastWasNeeded;
      ShortHasAll(lists);
      gifts', releasedAny := gifts, false;
      ghost var before := lists;
      stop := SizeClass.CLASSES;
      while stop > 0
        invariant 0 <= stop <= SizeClass.CLASSES == |lists| == |before|
        invariant Valid() && Conserved(orig, gifts', lists) && Proper(gifts')
        invariant releasedAny == (cachedBytes < old(cachedBytes)) && cachedBytes <= old(cachedBytes)
        invariant cachedBytes > target
        invariant |gifts'| >= |gifts|
        invariant releasedAny ==> |gifts'| > |gifts| && LastWasNeeded(gifts', cachedBytes, target)
        invariant !releasedAny ==> forall c :: stop <= c < SizeClass.CLASSES ==> lists[c] == []
        invariant forall c :: 0 <= c < stop ==> lists[c] == before[c]
        invariant forall c :: stop <= c < SizeClass.CLASSES ==> |lists[c]| == Lowered(|before[c]|, c)
      {
        var c := stop - 1;
        stop := c;
        if lists[c] != [] {
          var batch := SizeClass.BatchCount(c);
          gifts' := GiveAway(c, batch, gifts', orig);
          ShortHasAll(lists);
          releasedAny := true;
          if cachedBytes <= target { return; }
        }
      }
      if !releasedAny { TotalOfEmpty(lists, SizeClass.CLASSES); }
    }

    /** Brings the cache down to three quarters of its limit, and not further than the last
        gift had to. At most two passes give anything away, because no list holds two
        batches. */
    method Scavenge(gifts: seq<Gift>, ghost orig: seq<seq<nat>>) returns (gifts': seq<Gift>, passes: nat)
      requires Valid() && Conserved(orig, gifts, lists) && Proper(gifts)
      modifies this`lists, this`cachedBytes
      ensures Valid() && Conserved(orig, gifts', lists) && Proper(gifts')
      ensures cachedBytes <= Target(limit) && cachedBytes <= old(cachedBytes)
      ensures passes <= 2 && (passes == 0 <==> old(cachedBytes) <= Target(limit))
      ensures passes > 0 ==> |gifts'| > |gifts| && LastWasNeeded(gifts', cachedBytes, Target(limit))
      ensures 3 * limit < WORD ==> 4 * cachedBytes <= 3 * limit && (passes == 0 <==> 4 * old(cachedBytes) <= 3 * limit)
      ensures 3 * limit < WORD && passes > 0 ==> |gifts'| > |gifts| && var g := gifts'[|gifts'| - 1];
        g.c < SizeClass.CLASSES && 4 * (cachedBytes + |g.range| * SizeClass.ClassSize(g.c)) > 3 * limit
    {
      hide SizeClass.BatchCount, Total, Conserved, Proper, Target, LastWasNeeded;
      gifts' := gifts;
      var target := Target(limit);
      passes := 0;
      while cachedBytes > target && passes < SizeClass.CLASSES
        invariant passes <= 2 && (passes == 0 ==> cachedBytes == old(cachedBytes) && gifts' == gifts)
        invariant passes > 0 ==> old(cachedBytes) > target
        invariant passes > 0 ==> |gifts'| > |gifts| && LastWasNeeded(gifts', cachedBytes, target)
        invariant Valid() && Conserved(orig, gifts', lists) && Proper(gifts')
        invariant cachedBytes <= old(cachedBytes)
        invariant cachedBytes > target ==> passes == 0 || (passes == 1 && Lower(lists))
      {
        ghost var before := lists;
        var released, stop;
        gifts', released, stop := Pass(target, gifts', orig);
        if cachedBytes > target { LoweredOnce(before, lists); }
        if !released { break; }
        passes := passes + 1;
      }
      TargetExactly(limit, cachedBytes);
      TargetExactly(limit, old(cachedBytes));
      if passes > 0 { NeededIsAbove(gifts', cachedBytes, limit); }
    }

    /** Everything is given away; the counter ends at zero. */
    method ReleaseAll() returns (gifts: seq<Gift>)
      requires Valid()
      modifies this`lists, this`cachedBytes
      ensures Valid() && cachedBytes == 0 && Conserved(old(lists), gifts, lists) && Proper(gifts)
      ensures forall c :: 0 <= c < SizeClass.CLASSES ==> lists[c] == []
    {
      hide SizeClass.BatchCount, Total, Conserved, Proper, Short;
      ShortHasAll(lists);
      gifts := [];
      NothingGiven(lists);
      for i := 0 to SizeClass.CLASSES
        invariant Valid() && |lists| == SizeClass.CLASSES && Conserved(old(lists), gifts, lists) && Proper(gifts)
        invariant forall c :: 0 <= c < i ==> lists[c] == []
      {
        while lists[i] != []
          invariant Valid() && |lists| == SizeClass.CLASSES && Conserved(old(lists), gifts, lists) && Proper(gifts)
          invariant forall c :: 0 <= c < i ==> lists[c] == []
          decreases |lists[i]|
        {
          gifts := GiveAway(i, |lists[i]|, gifts, old(lists));
          ShortHasAll(lists);
        }
      }
      TotalOfEmpty(lists, SizeClass.CLASSES);
    }

    /** A new limit, never below the minimum, holds at once. */
    method SetCacheLimit(bytes: nat) returns (gifts: seq<Gift>)
      requires Valid() && bytes < WORD
      modifies this
      ensures Valid() && limit == (if bytes < MIN_LIMIT then MIN_LIMIT else bytes) && cachedBytes <= limit
      ensures Conserved(old(lists), gifts, lists) && Proper(gifts) && (gifts == [] <==> old(cachedBytes) <= limit)
    {
      hide SizeClass.BatchCount, Total, Conserved, Proper, Short, Target;
      gifts := [];
      ShortHasAll(lists);
      NothingGiven(lists);
      limit := if bytes < MIN_LIMIT then MIN_LIMIT else bytes;
      TargetWithinLimit(limit);
      if cachedBytes > limit {
        var passes;
        gifts, passes := Scavenge(gifts, old(lists));
      }
    }

    /** A block comes back. Afterwards the list is below two batches and the cache
        within its limit; nothing is given away that does not have to be. */
    method Deallocate(table: seq<nat>, ptr: nat, size: nat) returns (gifts: seq<Gift>)
      requires Valid() && SizeClass.IsTable(table)
      modifies this
      ensures Valid() && limit == old(limit)
      ensures ptr == 0 || !SizeClass.IsSmall(size) ==> gifts == [] && lists == old(lists)
      ensures ptr != 0 && SizeClass.IsSmall(size) ==> cachedBytes <= limit && Proper(gifts)
      ensures ptr != 0 && SizeClass.IsSmall(size) ==>
        exists c :: 0 <= c < SizeClass.CLASSES && SizeClass.IsClassOf(size, c)
                    && Conserved(old(lists)[c := [ptr] + old(lists)[c]], gifts, lists)
                    && (|old(lists)[c]| + 1 < 2 * SizeClass.BatchCount(c) ==>
                          (gifts == [] <==> old(cachedBytes) + SizeClass.ClassSize(c) <= limit))
    {
      gifts := [];
      if ptr == 0 || !SizeClass.IsSmall(size) { return; }
      hide SizeClass.BatchCount, Total, Conserved, Proper, Target, Bytes;
      var c := SizeClass.Index(table, size);
      ghost var orig := lists[c := [ptr] + lists[c]];
      gifts := Push(c, ptr);
      OneBlock(c);
      TargetWithinLimit(limit);
      if cachedBytes > limit {
        var passes;
        gifts, passes := Scavenge(gifts, orig);
      }
    }

    /** The block goes to the front of its list; a list that reaches two batches gives
        one away at once. */
    method Push(c: nat, ptr: nat) returns (gifts: seq<Gift>)
      requires Valid() && c < SizeClass.CLASSES
      modifies this`lists, this`cachedBytes
      ensures Valid() && Proper(gifts) && Conserved(old(lists)[c := [ptr] + old(lists)[c]], gifts, lists)
      ensures |old(lists)[c]| + 1 < 2 * SizeClass.BatchCount(c) ==> gifts == [] && cachedBytes == old(cachedBytes) + Bytes(1, c)
    {
      hide SizeClass.BatchCount, Bytes, Total, Conserved, Proper;
      gifts := [];
      var batch, list := SizeClass.BatchCount(c), [ptr] + lists[c];
      ghost var orig := lists[c := list];
      NothingGiven(orig);
      BytesLess(|list|, 1, c);
      TotalWith(lists, c, list, SizeClass.CLASSES);
      if |list| >= 2 * batch {
        TotalWith(lists, c, list[batch..], SizeClass.CLASSES);
        BytesLess(|list|, batch, c);
        GivenFromFull(lists, c, ptr);
        lists := lists[c := list[batch..]];
        cachedBytes := cachedBytes + Bytes(1, c) - Bytes(batch, c);
        gifts := [Gift(c, list[..batch])];
      } else {
        lists := lists[c := list];
        cachedBytes := cachedBytes + Bytes(1, c);
      }
    }

    /** A block from the list of the smallest class that holds `size`, refilled with
        the fetched range when it is empty. */
    method Allocate(table: seq<nat>, size: nat, fetched: seq<nat>) returns (obj: nat)
      requires Valid() && SizeClass.IsTable(table)
      requires forall c :: 0 <= c < SizeClass.CLASSES && SizeClass.IsClassOf(size, c) ==> |fetched| < 2 * SizeClass.BatchCount(c)
      modifies this`lists, this`cachedBytes
      ensures Valid()
      ensures !SizeClass.IsSmall(size) ==> obj == 0 && lists == old(lists)
      ensures SizeClass.IsSmall(size) ==>
        exists c :: 0 <= c < SizeClass.CLASSES && SizeClass.IsClassOf(size, c)
                    && var list := if old(lists)[c] == [] then fetched else old(lists)[c];
                       if list == [] then obj == 0 && lists == old(lists) else obj == list[0] && lists == old(lists)[c := list[1..]]
    {
      if !SizeClass.IsSmall(size) { return 0; }
      var c := SizeClass.Index(table, size);
      hide SizeClass.BatchCount, Bytes, Total, SizeClass.IsClassOf;
      if lists[c] != [] {
        obj := lists[c][0];
        BytesLess(|lists[c]|, 1, c);
        TotalWith(lists, c, lists[c][1..], SizeClass.CLASSES);
        lists := lists[c := lists[c][1..]];
        cachedBytes := cachedBytes - Bytes(1, c);
      } else if fetched == [] {
        obj := 0;
      } else {
        obj := fetched[0];
        BytesLess(|fetched|, 1, c);
        BytesLess(0, 0, c);
        TotalWith(lists, c, fetched[1..], SizeClass.CLASSES);
        lists := lists[c := fetched[1..]];
        cachedBytes := cachedBytes + Bytes(|fetched|, c) - Bytes(1, c);
      }
    }
  }

  lemma {:induction false} OneBlock(c: nat)
    requires c < SizeClass.CLASSES
    ensures Bytes(1, c) == SizeClass.ClassSize(c)
  {
  }

  lemma {:induction false} NeededIsAbove(gifts: seq<Gift>, bytes: nat, limit: nat)
    requires LastWasNeeded(gifts, bytes, Target(limit)) && MIN_LIMIT <= limit < WORD
    ensures 3 * limit < WORD ==> gifts != [] && var g := gifts[|gifts| - 1];
      g.c < SizeClass.CLASSES && 4 * (bytes + |g.range| * SizeClass.ClassSize(g.c)) > 3 * limit
  {
    var g := gifts[|gifts| - 1];
    hide SizeClass.ClassSize;
    TargetExactly(limit, bytes + |g.range| * SizeClass.ClassSize(g.c));
  }

  lemma {:induction false} NothingGiven(lists: seq<seq<nat>>)
    requires |lists| == SizeClass.CLASSES
    ensures Conserved(lists, [], lists) && Proper([])
  {
  }

  lemma {:induction false} GivenFromFull(lists: seq<seq<nat>>, c: nat, ptr: nat)
    requires Short(lists) && c < SizeClass.CLASSES && |lists[c]| + 1 >= 2 * SizeClass.BatchCount(c)
    ensures var list, batch := [ptr] + lists[c], SizeClass.BatchCount(c);
      var gifts := [Gift(c, list[..batch])];
      Conserved(lists[c := list], gifts, lists[c := list[batch..]]) && Proper(gifts)
  {
    var list, batch := [ptr] + lists[c], SizeClass.BatchCount(c);
    hide SizeClass.BatchCount;
    var g := Gift(c, list[..batch]);
    forall d | 0 <= d < SizeClass.CLASSES ensures GivenOf([g], d) == if d == c then g.range else [] {
      GivenSnoc([], g, d);
      assert [] + [g] == [g];
    }
    hide GivenOf;
    assert list == list[..batch] + list[batch..];
  }

  lemma {:induction false} LoweredOnce(before: seq<seq<nat>>, lists: seq<seq<nat>>)
    requires Short(before) && Short(lists)
    requires forall c :: 0 <= c < SizeClass.CLASSES ==> |lists[c]| == Lowered(|before[c]|, c)
    ensures Lower(lists) && (Lower(before) ==> Total(lists, SizeClass.CLASSES) == 0)
  {
    hide SizeClass.BatchCount, Total;
    if Lower(before) { TotalOfEmpty(lists, SizeClass.CLASSES); }
  }

  lemma {:induction false} ShortHasAll(lists: seq<seq<nat>>)
    requires Short(lists)
    ensures |lists| == SizeClass.CLASSES
  {
  }

  lemma {:induction false} ConservedTurn(orig: seq<seq<nat>>, gifts: seq<Gift>, lists: seq<seq<nat>>, c: nat, k: nat)
    requires Conserved(orig, gifts, lists) && Proper(gifts) && Short(lists) && c < SizeClass.CLASSES &&
             0 < k <= |lists[c]|
    ensures var gifts' := gifts + [Gift(c, lists[c][..k])];
      Conserved(orig, gifts', lists[c := lists[c][k..]]) && Proper(gifts')
  {
    hide SizeClass.BatchCount, GivenOf;
    var g, lists' := Gift(c, lists[c][..k]), lists[c := lists[c][k..]];
    forall d | 0 <= d < SizeClass.CLASSES ensures orig[d] == GivenOf(gifts + [g], d) + lists'[d] {
      GivenSnoc(gifts, g, d);
      assert lists[c] == lists[c][..k] + lists[c][k..];
    }
  }

  /** Every list is shorter than one batch. */
  ghost predicate Lower(lists: seq<seq<nat>>) {
    |lists| == SizeClass.CLASSES &&
    forall c :: 0 <= c < SizeClass.CLASSES ==> |lists[c]| < SizeClass.BatchCount(c)
  }
}
