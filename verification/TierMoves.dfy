/** The moves between the tiers, each with the one that undoes it: what goes where, how
    much of it, and in which order it comes back. */
module TierMoves {
  import Machine
  import opened TierModel
  import opened TierCounts
  import SizeClass

  /** Every list is the same in both. */
  ghost predicate SameLists(a: Lists, b: Lists) {
    forall loc :: At(a, loc) == At(b, loc)
  }

  /** A range that is spilled goes to the transfer vector while that has room for another,
      and stays in the thread's hands otherwise. */
  lemma {:induction false} SpillUsesVector(s: State, t: nat, c: nat, n: nat)
    requires c < SizeClass.CLASSES && c < |s.slots| && n <= |At(s.lists, Local(t, c))|
    ensures var s' := Spill(s, t, c, n);
      var list, room := At(s.lists, Local(t, c)), s.slots[c] < SizeClass.MaxRanges(c);
      var to := if room then Transfer(c, s.slots[c]) else Held(t, c, 0);
      && At(s'.lists, to) == list[..n] + At(s.lists, to) && At(s'.lists, Local(t, c)) == list[n..]
      && s'.slots == (if room then s.slots[c := s.slots[c] + 1] else s.slots)
      && (forall loc :: loc != to && loc != Local(t, c) ==> At(s'.lists, loc) == At(s.lists, loc))
      && s'.heap == s.heap && s'.user == s.user && s'.spans == s.spans
  {
    hide SizeClass.MaxRanges, Shift, At;
    var to := if s.slots[c] < SizeClass.MaxRanges(c) then Transfer(c, s.slots[c]) else Held(t, c, 0);
    ShiftAt(s.lists, Local(t, c), to, n);
  }

  /** The range spilled last is the one that comes back first: refilling undoes it. */
  lemma {:induction false} RefillUndoesSpill(s: State, t: nat, c: nat)
    requires c < SizeClass.CLASSES && c < |s.slots| && s.slots[c] < SizeClass.MaxRanges(c)
    requires At(s.lists, Transfer(c, s.slots[c])) == []
    ensures var s1 := Spill(s, t, c, |At(s.lists, Local(t, c))|);
      && c < |s1.slots| && s1.slots[c] > 0
      && var s' := Refill(s1, t, c);
      && SameLists(s'.lists, s.lists) && s'.slots == s.slots && s'.user == s.user && s'.heap == s.heap
  {
    var list, slot := At(s.lists, Local(t, c)), Transfer(c, s.slots[c]);
    SpillUsesVector(s, t, c, |list|);
    var s1 := Spill(s, t, c, |list|);
    hide SizeClass.MaxRanges, Shift, At, Spill;
    ShiftAt(s1.lists, slot, Local(t, c), |At(s1.lists, slot)|);
    assert list[..|list|] + [] == list && list[|list|..] == [] && list + [] == list;
    assert At(s1.lists, slot)[|At(s1.lists, slot)|..] == [];
  }

  /** A freed block goes to the front of its list. The list is cut back by one batch
      exactly when it has reached two. */
  lemma {:induction false} FreeGoesToFront(s: State, t: nat, c: nat, a: nat)
    requires c < SizeClass.CLASSES && c < |s.slots|
    ensures var s', list := FreeBlock(s, t, c, a), At(s.lists, Local(t, c));
      var batch := SizeClass.BatchCount(c);
      && s'.user == s.user - {a} && s'.heap == s.heap
      && if |list| + 1 < 2 * batch then At(s'.lists, Local(t, c)) == [a] + list && s'.slots == s.slots
         else At(s'.lists, Local(t, c)) == list[batch - 1..]
              && (s'.slots[c] == s.slots[c] + 1 <==> s.slots[c] < SizeClass.MaxRanges(c))
  {
    hide SizeClass.MaxRanges, SizeClass.BatchCount;
    var list, batch := [a] + At(s.lists, Local(t, c)), SizeClass.BatchCount(c);
    var s1 := s.(lists := s.lists[Local(t, c) := list], user := s.user - {a});
    assert At(s1.lists, Local(t, c)) == list;
    if |list| >= 2 * batch {
      SpillUsesVector(s1, t, c, batch);
      hide Spill;
      assert list[batch..] == At(s.lists, Local(t, c))[batch - 1..];
    }
  }

  /** The block freed last is the first to be handed out: allocating undoes freeing. */
  lemma {:induction false} PopUndoesFree(s: State, t: nat, c: nat, a: nat)
    requires c < SizeClass.CLASSES && c < |s.slots| && a in s.user
    requires |At(s.lists, Local(t, c))| + 1 < 2 * SizeClass.BatchCount(c)
    ensures var s1 := FreeBlock(s, t, c, a);
      && At(s1.lists, Local(t, c)) != []
      && var s' := Pop(s1, t, c);
      SameLists(s'.lists, s.lists) && s'.user == s.user && s'.slots == s.slots && s'.heap == s.heap
  {
    hide SizeClass.BatchCount, SizeClass.MaxRanges;
    var list := At(s.lists, Local(t, c));
    assert ([a] + list)[1..] == list && ([a] + list)[0] == a;
  }

  /** A fetch moves one batch, or what there is, from the front of the central list. */
  lemma {:induction false} FetchMovesBatch(s: State, t: nat, c: nat, n: nat)
    ensures var s', list := FetchCentral(s, t, c, n), At(s.lists, Central(c));
      var k := Machine.Min(n, |list|);
      && At(s'.lists, Local(t, c)) == list[..k] + At(s.lists, Local(t, c)) && At(s'.lists, Central(c)) == list[k..]
      && (forall loc :: loc != Central(c) && loc != Local(t, c) ==> At(s'.lists, loc) == At(s.lists, loc))
      && s'.user == s.user && s'.slots == s.slots && s'.spans == s.spans
  {
    hide OnFetch, Shift, At;
    ShiftAt(s.lists, Central(c), Local(t, c), Machine.Min(n, |At(s.lists, Central(c))|));
  }
}
