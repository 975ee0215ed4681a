/** Free lists threaded through the free objects themselves: the first word of an
    object holds the address of the next one (0 is null). Each operation is proved
    against the sequence of objects the list stands for. */
module FreeList {
  import opened Common

  /** From `head`, the next words lead through exactly `list`, and end in null. */
  ghost predicate Linked(next: map<nat, nat>, head: nat, list: seq<nat>) {
    && head == (if list == [] then 0 else list[0])
    && (forall i :: 0 <= i < |list| ==> list[i] != 0 && list[i] in next)
    && (forall i {:trigger next[list[i]]} :: 0 <= i < |list| ==> next[list[i]] == if i + 1 < |list| then list[i + 1] else 0)
  }

  /** Only the words of `touched` may differ. */
  ghost predicate SameOutside(before: map<nat, nat>, after: map<nat, nat>, touched: seq<nat>) {
    forall a :: a !in touched ==> (a in after <==> a in before) && (a in before ==> after[a] == before[a])
  }

  /** A list is not affected by changes outside its objects. */
  lemma {:induction false} LinkedFrame(before: map<nat, nat>, after: map<nat, nat>, touched: seq<nat>, head: nat,
                                       list: seq<nat>)
    requires SameOutside(before, after, touched) && Linked(before, head, list)
    requires forall a :: a in list ==> a !in touched
    ensures Linked(after, head, list)
  {
    forall i | 0 <= i < |list| ensures list[i] in after && after[list[i]] == before[list[i]] {
      assert list[i] in list;
    }
  }

  function Keep(list: seq<nat>, drop: nat -> bool): seq<nat> {
    if list == [] then []
    else Keep(list[..|list| - 1], drop) + (if drop(list[|list| - 1]) then [] else [list[|list| - 1]])
  }

  function Count(list: seq<nat>, pred: nat -> bool): nat {
    if list == [] then 0
    else Count(list[..|list| - 1], pred) + if pred(list[|list| - 1]) then 1 else 0
  }

  lemma {:induction false} KeepElements(list: seq<nat>, drop: nat -> bool)
    requires Distinct(list)
    ensures Distinct(Keep(list, drop)) && |Keep(list, drop)| + Count(list, drop) == |list|
    ensures forall a :: a in Keep(list, drop) <==> a in list && !drop(a)
  {
    if list != [] {
      var front := list[..|list| - 1];
      KeepElements(front, drop);
      assert list == front + [list[|list| - 1]];
    }
  }

  lemma {:induction false} PushLinked(next: map<nat, nat>, head: nat, list: seq<nat>, obj: nat)
    requires Linked(next, head, list) && Distinct(list) && obj != 0 && obj !in list
    ensures Linked(next[obj := head], obj, [obj] + list) && Distinct([obj] + list)
  {
    var longer := [obj] + list;
    assert forall i :: 1 <= i < |longer| ==> longer[i] == list[i - 1] && longer[i] in list;
  }

  /** Taking out the first object. */
  lemma {:induction false} UnlinkFirst(next: map<nat, nat>, head: nat, list: seq<nat>)
    requires Linked(next, head, list) && Distinct(list) && list != []
    ensures Linked(next[list[0] := 0], next[list[0]], list[1..])
  {
    assert forall i :: 0 <= i < |list[1..]| ==> list[1..][i] == list[i + 1];
  }

  /** The words around a later object once it is taken out. */
  lemma {:induction false} WordAfter(next: map<nat, nat>, head: nat, list: seq<nat>, k: nat, i: nat)
    requires Linked(next, head, list) && Distinct(list) && 0 < k < |list| && i < |list| - 1
    ensures var after, short := next[list[k - 1] := next[list[k]]][list[k] := 0], list[..k] + list[k + 1..];
      short[i] != 0 && short[i] in after && after[short[i]] == if i + 1 < |short| then short[i + 1] else 0
  {
    var at := if i < k then i else i + 1;
    var short := list[..k] + list[k + 1..];
    assert short[i] == list[at] && list[at] != list[k];
    assert next[list[k]] == (if k + 1 < |list| then list[k + 1] else 0);
    assert next[list[at]] == (if at + 1 < |list| then list[at + 1] else 0);
    assert at != k - 1 ==> list[at] != list[k - 1];
  }

  /** Taking out a later object: the word of the object before it is rewritten, and
      its own. */
  lemma {:induction false} UnlinkAt(next: map<nat, nat>, head: nat, list: seq<nat>, k: nat)
    requires Linked(next, head, list) && Distinct(list) && 0 < k < |list|
    ensures Linked(next[list[k - 1] := next[list[k]]][list[k] := 0], head, list[..k] + list[k + 1..])
  {
    var after, short := next[list[k - 1] := next[list[k]]][list[k] := 0], list[..k] + list[k + 1..];
    assert short[0] == list[0] == head;
    assert forall i :: 0 <= i < |list| ==> list[i] in next;
    hide Distinct;
    forall i | 0 <= i < |short|
      ensures short[i] != 0 && short[i] in after && after[short[i]] == if i + 1 < |short| then short[i + 1] else 0
    {
      WordAfter(next, head, list, k, i);
    }
  }

  class Memory {
    var next: map<nat, nat>
    constructor ()
      ensures next == map[]
    {
      next := map[];
    }
  }

  class List {
    const mem: Memory
    var head: nat
    var size: nat
    ghost var contents: seq<nat>

    ghost predicate Valid()
      reads this, mem
    {
      Linked(mem.next, head, contents) && size == |contents| && Distinct(contents)
    }

    constructor (mem: Memory)
      ensures Valid() && contents == [] && this.mem == mem
    {
      this.mem := mem;
      head, size, contents := 0, 0, [];
    }

    method Push(obj: nat)
      requires Valid() && obj != 0 && obj !in contents
      modifies this, mem
      ensures Valid() && contents == [obj] + old(contents)
      ensures SameOutside(old(mem.next), mem.next, [obj])
    {
      PushLinked(mem.next, head, contents, obj);
      hide Linked, Distinct;
      mem.next := mem.next[obj := head];
      head := obj;
      size := size + 1;
      contents := [obj] + contents;
    }

    method Pop() returns (obj: nat)
      requires Valid()
      modifies this, mem
      ensures Valid() && SameOutside(old(mem.next), mem.next, old(contents))
      ensures old(contents) == [] ==> obj == 0 && contents == []
      ensures old(contents) != [] ==> obj == old(contents)[0] && contents == old(contents)[1..]
    {
      if head == 0 { return 0; }
      obj := head;
      head := mem.next[obj];
      mem.next := mem.next[obj := 0];
      size := size - 1;
      contents := contents[1..];
      assert forall i :: 0 <= i < |contents| ==> contents[i] == old(contents)[i + 1];
    }

    method PushRange(first: nat, last: nat, count: nat, ghost range: seq<nat>)
      requires Valid() && range != [] && Linked(mem.next, first, range) && last == range[|range| - 1] &&
               count == |range|
      requires Distinct(range + contents)
      modifies this, mem
      ensures Valid() && contents == range + old(contents)
      ensures SameOutside(old(mem.next), mem.next, range)
    {
      mem.next := mem.next[last := head];
      head := first;
      size := size + count;
      contents := range + contents;
      Joined(old(mem.next), old(head), old(contents), first, range);
    }

    /** At most `n` objects from the front, cut off as a list of their own. */
    method PopRange(n: nat) returns (first: nat, last: nat, count: nat, ghost range: seq<nat>)
      requires Valid() && n > 0
      modifies this, mem
      ensures Valid() && count == |range| && SameOutside(old(mem.next), mem.next, old(contents))
      ensures range == old(contents)[..if n < |old(contents)| then n else |old(contents)|]
      ensures contents == old(contents)[count..]
      ensures Linked(mem.next, first, range) && (range != [] ==> last == range[|range| - 1])
    {
      if head == 0 { return 0, 0, 0, []; }
      first, last, count := head, head, 1;
      while count < n && mem.next[last] != 0
        invariant 1 <= count <= |contents| && count <= n && last == contents[count - 1]
        decreases |contents| - count
      {
        last := mem.next[last];
        count := count + 1;
      }
      Cut(mem.next, head, contents, count);
      range := contents[..count];
      head := mem.next[last];
      mem.next := mem.next[last := 0];
      size := size - count;
      contents := contents[count..];
    }

    method CountIf(pred: nat -> bool) returns (count: nat)
      requires Valid()
      ensures count == Count(contents, pred)
    {
      count := 0;
      var cur, i := head, 0;
      while cur != 0
        invariant i <= |contents| && cur == (if i < |contents| then contents[i] else 0)
        invariant count == Count(contents[..i], pred)
        decreases |contents| - i
      {
        if pred(cur) { count := count + 1; }
        assert contents[..i + 1][..i] == contents[..i];
        cur := mem.next[cur];
        i := i + 1;
      }
      assert contents[..i] == contents;
    }

    /** Unlinks every object that satisfies `drop`, in one pass. */
    method RemoveIf(drop: nat -> bool) returns (removed: nat)
      requires Valid()
      modifies this, mem
      ensures Valid() && contents == Keep(old(contents), drop) && removed == Count(old(contents), drop)
      ensures SameOutside(old(mem.next), mem.next, old(contents))
    {
      hide Linked, SameOutside, Keep, Count;
      var next, first;
      next, first, removed := Filter(mem.next, head, contents, drop);
      KeepElements(contents, drop);
      mem.next, head, size := next, first, size - removed;
      contents := Keep(contents, drop);
    }
  }

  /** The first `i` objects have been looked at: those kept are still linked, in
      order, in front of those to come. */
  ghost predicate Partway(before: map<nat, nat>, next: map<nat, nat>, head: nat, all: seq<nat>, i: nat, prev: nat,
                          drop: nat -> bool)
    requires i <= |all|
  {
    var kept := Keep(all[..i], drop);
    && Linked(next, head, kept + all[i..]) && Distinct(kept + all[i..]) && SameOutside(before, next, all)
    && prev == (if kept == [] then 0 else kept[|kept| - 1])
  }

  lemma {:induction false} Start(next: map<nat, nat>, head: nat, all: seq<nat>, drop: nat -> bool)
    requires Linked(next, head, all) && Distinct(all)
    ensures Partway(next, next, head, all, 0, 0, drop) && Count(all[..0], drop) == 0
  {
    assert all[..0] == [] && [] + all[0..] == all;
  }

  lemma {:induction false} Finish(before: map<nat, nat>, next: map<nat, nat>, head: nat, all: seq<nat>, prev: nat,
                                  drop: nat -> bool)
    requires Partway(before, next, head, all, |all|, prev, drop)
    ensures Linked(next, head, Keep(all, drop)) && SameOutside(before, next, all) && all[..|all|] == all
  {
    assert all[..|all|] == all && Keep(all, drop) + all[|all|..] == Keep(all, drop);
  }

  lemma {:induction false} At(before: map<nat, nat>, next: map<nat, nat>, head: nat, all: seq<nat>, i: nat,
                              prev: nat, drop: nat -> bool)
    requires i < |all| && Partway(before, next, head, all, i, prev, drop)
    ensures all[i] != 0 && all[i] in next && next[all[i]] == if i + 1 < |all| then all[i + 1] else 0
    ensures prev != 0 ==> prev in next
    ensures prev == 0 <==> Keep(all[..i], drop) == []
  {
    var list, k := Keep(all[..i], drop) + all[i..], |Keep(all[..i], drop)|;
    assert list[k] == all[i] && (i + 1 < |all| ==> list[k + 1] == all[i + 1]);
    assert next[list[k]] == if k + 1 < |list| then list[k + 1] else 0;
    assert k > 0 ==> list[k - 1] == prev;
  }

  lemma {:induction false} KeepTurn(before: map<nat, nat>, next: map<nat, nat>, head: nat, all: seq<nat>, i: nat,
                                    prev: nat, drop: nat -> bool)
    requires i < |all| && Partway(before, next, head, all, i, prev, drop) && !drop(all[i])
    ensures Partway(before, next, head, all, i + 1, all[i], drop)
  {
    hide Linked, SameOutside, Distinct;
    Turn(all, i, drop);
    assert Keep(all[..i], drop) + all[i..] == Keep(all[..i], drop) + [all[i]] + all[i + 1..];
  }

  lemma {:induction false} DropFirst(before: map<nat, nat>, next: map<nat, nat>, head: nat, all: seq<nat>, i: nat,
                                     prev: nat, drop: nat -> bool)
    requires i < |all| && Partway(before, next, head, all, i, prev, drop) && drop(all[i]) && Keep(all[..i], drop) == []
    ensures all[i] in next && Partway(before, next[all[i] := 0], next[all[i]], all, i + 1, prev, drop)
  {
    var list := [] + all[i..];
    assert list == all[i..] && list[0] == all[i] && list[1..] == all[i + 1..] && [] + all[i + 1..] == all[i + 1..];
    Turn(all, i, drop);
    UnlinkFirst(next, head, list);
  }

  lemma {:induction false} DropLater(before: map<nat, nat>, next: map<nat, nat>, head: nat, all: seq<nat>, i: nat,
                                     prev: nat, drop: nat -> bool)
    requires i < |all| && Partway(before, next, head, all, i, prev, drop) && drop(all[i]) && Keep(all[..i], drop) != []
    ensures all[i] in next && Partway(before, next[prev := next[all[i]]][all[i] := 0], head, all, i + 1, prev, drop)
  {
    var kept := Keep(all[..i], drop);
    var list, k := kept + all[i..], |kept|;
    assert list[k] == all[i] && list[k - 1] == prev && list[..k] == kept && list[k + 1..] == all[i + 1..];
    Turn(all, i, drop);
    UnlinkAt(next, head, list, k);
    Shorter(list, k);
    PrevIsOld(all, i, drop);
  }

  lemma {:induction false} Shorter(list: seq<nat>, k: nat)
    requires k < |list| && Distinct(list)
    ensures Distinct(list[..k] + list[k + 1..])
  {
  }

  lemma {:induction false} PrevIsOld(all: seq<nat>, i: nat, drop: nat -> bool)
    requires i <= |all|
    ensures forall a :: a in Keep(all[..i], drop) ==> a in all
  {
    if i > 0 {
      Turn(all, i - 1, drop);
      PrevIsOld(all, i - 1, drop);
    }
  }

  method Filter(before: map<nat, nat>, first: nat, ghost all: seq<nat>, drop: nat -> bool)
    returns (next: map<nat, nat>, head: nat, removed: nat)
    requires Linked(before, first, all) && Distinct(all)
    ensures Linked(next, head, Keep(all, drop)) && SameOutside(before, next, all) && removed == Count(all, drop)
  {
    hide Linked, Distinct, SameOutside, Keep, Count, Partway;
    next, head, removed := before, first, 0;
    Start(next, head, all, drop);
    assert first == (if 0 < |all| then all[0] else 0) by { Head(before, first, all); }
    var cur, prev := first, 0;
    ghost var i := 0;
    while cur != 0
      invariant i <= |all| && cur == (if i < |all| then all[i] else 0)
      invariant Partway(before, next, head, all, i, prev, drop) && removed == Count(all[..i], drop)
      decreases |all| - i
    {
      At(before, next, head, all, i, prev, drop);
      Turn(all, i, drop);
      var nxt := next[cur];
      if drop(cur) {
        if prev == 0 {
          DropFirst(before, next, head, all, i, prev, drop);
          head := nxt;
        } else {
          DropLater(before, next, head, all, i, prev, drop);
          next := next[prev := nxt];
        }
        next := next[cur := 0];
        removed := removed + 1;
      } else {
        KeepTurn(before, next, head, all, i, prev, drop);
        prev := cur;
      }
      cur := nxt;
      i := i + 1;
    }
    if i < |all| { At(before, next, head, all, i, prev, drop); }
    Finish(before, next, head, all, prev, drop);
  }

  lemma {:induction false} Head(next: map<nat, nat>, head: nat, list: seq<nat>)
    requires Linked(next, head, list)
    ensures head == if 0 < |list| then list[0] else 0
  {
  }

  lemma {:induction false} Turn(all: seq<nat>, i: nat, drop: nat -> bool)
    requires i < |all|
    ensures Count(all[..i + 1], drop) == Count(all[..i], drop) + if drop(all[i]) then 1 else 0
    ensures drop(all[i]) ==> Keep(all[..i + 1], drop) == Keep(all[..i], drop)
    ensures !drop(all[i]) ==> Keep(all[..i + 1], drop) == Keep(all[..i], drop) + [all[i]]
  {
    assert all[..i + 1][..i] == all[..i];
  }

  lemma {:induction false} Joined(next: map<nat, nat>, head: nat, list: seq<nat>, first: nat, range: seq<nat>)
    requires Linked(next, head, list) && Linked(next, first, range) && range != [] && Distinct(range + list)
    ensures Linked(next[range[|range| - 1] := head], first, range + list)
  {
    var all, after := range + list, next[range[|range| - 1] := head];
    assert first == range[0] == all[0];
    forall i | 0 <= i < |all| ensures all[i] != 0 && all[i] in after {
      JoinedAt(next, head, list, first, range, i);
    }
    forall i {:trigger after[all[i]]} | 0 <= i < |all| ensures after[all[i]] == if i + 1 < |all| then all[i + 1] else 0 {
      JoinedAt(next, head, list, first, range, i);
    }
  }

  lemma {:induction false} JoinedAt(next: map<nat, nat>, head: nat, list: seq<nat>, first: nat, range: seq<nat>, i: nat)
    requires Linked(next, head, list) && Linked(next, first, range) && range != [] && Distinct(range + list)
    requires i < |range + list|
    ensures var all, after := range + list, next[range[|range| - 1] := head];
      all[i] != 0 && all[i] in after && after[all[i]] == if i + 1 < |all| then all[i + 1] else 0
  {
    var all, last := range + list, |range| - 1;
    assert all[last] == range[last];
    if i < last {
      assert all[i] == range[i] && all[i + 1] == range[i + 1] && next[range[i]] == range[i + 1];
    } else if i > last {
      var j := i - |range|;
      assert all[i] == list[j] && next[list[j]] == if j + 1 < |list| then list[j + 1] else 0;
    }
  }

  lemma {:induction false} Cut(next: map<nat, nat>, head: nat, list: seq<nat>, n: nat)
    requires Linked(next, head, list) && Distinct(list) && 0 < n <= |list|
    ensures var after := next[list[n - 1] := 0];
      && Linked(after, head, list[..n])
      && Linked(after, next[list[n - 1]], list[n..])
  {
    var tail := list[n..];
    assert forall i :: 0 <= i < |tail| ==> tail[i] == list[n + i];
  }
}
