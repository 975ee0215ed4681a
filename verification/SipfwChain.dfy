/** One chain of the firewall as the module keeps it: a linked list edited through a
    pointer to a pointer, its length, and the snapshot that packets are matched
    against. Every command is proved against the sequence of rules. */
module SipfwChain {
  import opened Common
  import opened Machine
  import opened Sipfw
  import FreeList

  // ------------------------------------------------- a pointer to a pointer

  /** Where a node pointer is kept: in the head of the list or in a node. */
  datatype Link = Head | Next(node: nat)

  datatype List = List(next: map<nat, nat>, head: nat)

  /** The pointer kept there. */
  function Read(l: List, link: Link): nat
    requires link.Next? ==> link.node in l.next
  {
    if link.Head? then l.head else l.next[link.node]
  }

  function Write(l: List, link: Link, node: nat): List {
    if link.Head? then l.(head := node) else l.(next := l.next[link.node := node])
  }

  ghost predicate Is(l: List, list: seq<nat>) {
    FreeList.Linked(l.next, l.head, list) && Distinct(list)
  }

  /** The place of the pointer to node `k`. */
  ghost function LinkTo(list: seq<nat>, k: nat): Link
    requires k <= |list|
  {
    if k == 0 then Head else Next(list[k - 1])
  }

  lemma {:induction false} ReadAt(l: List, list: seq<nat>, k: nat)
    requires Is(l, list) && k <= |list|
    ensures k > 0 ==> list[k - 1] in l.next
    ensures Read(l, LinkTo(list, k)) == if k < |list| then list[k] else 0
    ensures k < |list| ==> list[k] != 0 && list[k] in l.next
  {
    assert k > 0 ==> l.next[list[k - 1]] == if k < |list| then list[k] else 0;
  }

  /** The walk all commands make: up to `number - 1` nodes on, or to the end. */
  method Walk(l: List, number: int, ghost list: seq<nat>) returns (link: Link, ghost k: nat)
    requires Is(l, list) && number > 0
    ensures k == Min(number - 1, |list|) && link == LinkTo(list, k)
  {
    hide Is;
    link, k := Head, 0;
    var idx := 1;
    ReadAt(l, list, 0);
    while Read(l, link) != 0 && idx < number
      invariant k <= |list| && link == LinkTo(list, k) && idx == k + 1 <= number && (link.Next? ==> link.node in l.next)
      decreases number - idx
    {
      ReadAt(l, list, k);
      link := Next(Read(l, link));
      k := k + 1;
      idx := idx + 1;
      ReadAt(l, list, k);
    }
    ReadAt(l, list, k);
  }

  // ---------------------------------------------------------- list surgery

  lemma {:induction false} InsertLinked(l: List, list: seq<nat>, k: nat, node: nat)
    requires Is(l, list) && k <= |list| && node != 0 && node !in list
    requires k > 0 ==> list[k - 1] in l.next
    ensures var at := Read(l, LinkTo(list, k));
      Is(Write(l.(next := l.next[node := at]), LinkTo(list, k), node), list[..k] + [node] + list[k..])
  {
    var longer := list[..k] + [node] + list[k..];
    var l' := Write(l.(next := l.next[node := Read(l, LinkTo(list, k))]), LinkTo(list, k), node);
    ReadAt(l, list, k);
    forall i | 0 <= i < |longer| ensures longer[i] != 0 && longer[i] in l'.next
      && l'.next[longer[i]] == if i + 1 < |longer| then longer[i + 1] else 0
    {
      InsertedWord(l, list, k, node, i);
    }
    InsertDistinct(list, k, node);
  }

  lemma {:induction false} InsertDistinct(list: seq<nat>, k: nat, node: nat)
    requires Distinct(list) && k <= |list| && node !in list
    ensures Distinct(list[..k] + [node] + list[k..])
  {
  }

  lemma {:induction false} InsertedWord(l: List, list: seq<nat>, k: nat, node: nat, i: nat)
    requires Is(l, list) && k <= |list| && node != 0 && node !in list && i <= |list|
    requires k > 0 ==> list[k - 1] in l.next
    ensures var longer := list[..k] + [node] + list[k..];
      var next := Write(l.(next := l.next[node := Read(l, LinkTo(list, k))]), LinkTo(list, k), node).next;
      && longer[i] != 0 && longer[i] in next
      && next[longer[i]] == if i + 1 < |longer| then longer[i + 1] else 0
  {
    var longer := list[..k] + [node] + list[k..];
    ReadAt(l, list, k);
    if i < k {
      assert longer[i] == list[i] && list[i] in list;
      assert l.next[list[i]] == if i + 1 < |list| then list[i + 1] else 0;
      assert i != k - 1 ==> list[i] != list[k - 1];
    } else if i > k {
      assert longer[i] == list[i - 1] && list[i - 1] in list;
      assert l.next[list[i - 1]] == if i < |list| then list[i] else 0;
      assert k > 0 ==> list[i - 1] != list[k - 1];
    }
  }

  lemma {:induction false} RemoveLinked(l: List, list: seq<nat>, k: nat)
    requires Is(l, list) && k < |list| && list[k] in l.next
    ensures var l1 := Write(l, LinkTo(list, k), l.next[list[k]]);
      Is(l1.(next := l1.next[list[k] := 0]), list[..k] + list[k + 1..])
  {
    FreeList.Shorter(list, k);
    if k == 0 {
      FreeList.UnlinkFirst(l.next, l.head, list);
      assert list[..0] + list[1..] == list[1..];
    } else {
      FreeList.UnlinkAt(l.next, l.head, list, k);
    }
  }

  lemma {:induction false} ReplaceLinked(l: List, list: seq<nat>, k: nat, node: nat)
    requires Is(l, list) && k < |list| && list[k] in l.next && node != 0 && node !in list
    ensures var l1 := l.(next := l.next[node := l.next[list[k]]]);
      var l2 := Write(l1, LinkTo(list, k), node);
      Is(l2.(next := l2.next[list[k] := 0]), list[k := node])
  {
    hide Is;
    RemoveLinked(l, list, k);
    var short := list[..k] + list[k + 1..];
    var l1 := Write(l, LinkTo(list, k), l.next[list[k]]);
    var l' := l1.(next := l1.next[list[k] := 0]);
    assert short[..k] == list[..k] && short[k..] == list[k + 1..];
    ReadAt(l', short, k);
    InsertLinked(l', short, k, node);
    assert short[..k] + [node] + short[k..] == list[k := node];
    SameReplace(l, list, k, node);
  }

  /** Replacing in one go is removing and inserting. */
  lemma {:induction false} SameReplace(l: List, list: seq<nat>, k: nat, node: nat)
    requires Is(l, list) && k < |list| && list[k] in l.next && node != 0 && node !in list
    ensures var short := list[..k] + list[k + 1..];
      var l1 := Write(l, LinkTo(list, k), l.next[list[k]]);
      var cut := l1.(next := l1.next[list[k] := 0]);
      var r1 := Write(l.(next := l.next[node := l.next[list[k]]]), LinkTo(list, k), node);
      && LinkTo(short, k) == LinkTo(list, k) && (k > 0 ==> list[k - 1] in cut.next)
      && Write(cut.(next := cut.next[node := Read(cut, LinkTo(list, k))]), LinkTo(list, k), node)
      == r1.(next := r1.next[list[k] := 0])
  {
    ReadAt(l, list, k);
    var short := list[..k] + list[k + 1..];
    assert k > 0 ==> short[k - 1] == list[k - 1] && list[k - 1] != list[k] && list[k - 1] in list;
    assert list[k] in list;
  }

  // ------------------------------------------------------------- the snapshot

  ghost predicate Known(rules: map<nat, Rule>, list: seq<nat>) {
    forall a :: a in list ==> a in rules
  }

  ghost function RulesOf(rules: map<nat, Rule>, list: seq<nat>): (r: seq<Rule>)
    requires Known(rules, list)
    ensures |r| == |list| && forall i :: 0 <= i < |list| ==> r[i] == rules[list[i]]
  {
    if list == [] then [] else RulesOf(rules, list[..|list| - 1]) + [rules[list[|list| - 1]]]
  }

  /** Copies the rules from the head on, no more than `count` of them. */
  method CopyRules(l: List, rules: map<nat, Rule>, count: nat, ghost list: seq<nat>) returns (copy: seq<Rule>)
    requires Is(l, list) && Known(rules, list) && count == |list|
    ensures copy == RulesOf(rules, list)
  {
    hide Is;
    copy := [];
    var cur := l.head;
    ReadAt(l, list, 0);
    while cur != 0 && |copy| < count
      invariant |copy| <= |list| && cur == (if |copy| < |list| then list[|copy|] else 0)
      invariant copy == RulesOf(rules, list)[..|copy|]
      decreases |list| - |copy|
    {
      ReadAt(l, list, |copy|);
      ReadAt(l, list, |copy| + 1);
      copy := copy + [rules[cur]];
      cur := l.next[cur];
    }
    ReadAt(l, list, |copy|);
  }

  /** A list equals a sequence of rules. */
  ghost predicate Holds(l: List, rules: map<nat, Rule>, list: seq<nat>, s: seq<Rule>) {
    Is(l, list) && Known(rules, list) && RulesOf(rules, list) == s
  }

  class Chain {
    var l: List
    var rules: map<nat, Rule>
    var number: nat
    var snapshot: Option<seq<Rule>>
    ghost var list: seq<nat>
    ghost var contents: seq<Rule>

    /** The list holds the rules, `number` counts them, and the snapshot, which is
        absent when there are none, is an exact copy. */
    ghost predicate Valid()
      reads this
    {
      && Holds(l, rules, list, contents) && number == |contents|
      && snapshot == if contents == [] then None else Some(contents)
    }

    constructor ()
      ensures Valid() && contents == []
    {
      l, rules, number, snapshot := List(map[], 0), map[], 0, None;
      list, contents := [], [];
    }

    /** The edited list becomes the list, with its length and its snapshot. */
    method Commit(l': List, rules': map<nat, Rule>, count: nat, ghost list': seq<nat>, ghost s: seq<Rule>)
      requires Holds(l', rules', list', s) && count == |s|
      modifies this
      ensures Valid() && contents == s
    {
      l, rules, number := l', rules', count;
      list, contents := list', s;
      if count == 0 {
        snapshot := None;
      } else {
        var copy := CopyRules(l', rules', count, list');
        snapshot := Some(copy);
      }
    }

    /** `node` is the freshly allocated node that holds the rule. */
    method Append(node: nat, rule: Rule, memory: bool) returns (err: int)
      requires Valid() && node != 0 && node !in list
      modifies this
      ensures Valid() && Outcome(contents, err) == DoAppend(old(contents), rule, memory)
    {
      if !memory { return -ENOMEM; }
      hide Holds;
      ghost var k := |list|;
      var link := ToEnd();
      ghost var longer := list[..k] + [node] + list[k..];
      InsertHolds(l, rules, list, contents, k, node, rule);
      var l1 := l.(next := l.next[node := 0]);
      assert contents[..k] + [rule] + contents[k..] == contents + [rule];
      Commit(Write(l1, link, node), rules[node := rule], number + 1, longer, contents + [rule]);
      err := 0;
    }

    /** The place of the null pointer at the end. */
    method ToEnd() returns (link: Link)
      requires Valid()
      ensures link == LinkTo(list, |list|) && (link.Next? ==> link.node in l.next) && |list| == |contents|
    {
      hide FreeList.Linked, Distinct, RulesOf;
      link := Head;
      ghost var k := 0;
      ReadAt(l, list, 0);
      while Read(l, link) != 0
        invariant k <= |list| && link == LinkTo(list, k) && (link.Next? ==> link.node in l.next)
        decreases |list| - k
      {
        ReadAt(l, list, k);
        link := Next(Read(l, link));
        k := k + 1;
        ReadAt(l, list, k);
      }
      ReadAt(l, list, k);
    }

    method Insert(node: nat, rule: Rule, number: int, memory: bool) returns (err: int)
      requires Valid() && node != 0 && node !in list
      modifies this
      ensures Valid() && Outcome(contents, err) == DoInsert(old(contents), rule, number, memory)
    {
      if number <= 0 { return -EINVAL; }
      if !memory { return -ENOMEM; }
      hide RulesOf;
      var link; ghost var k;
      link, k := Walk(l, number, list);
      InsertHolds(l, rules, list, contents, k, node, rule);
      hide Holds;
      var l1 := l.(next := l.next[node := Read(l, link)]);
      Commit(Write(l1, link, node), rules[node := rule], this.number + 1,
             list[..k] + [node] + list[k..], contents[..k] + [rule] + contents[k..]);
      err := 0;
    }

    method Replace(node: nat, rule: Rule, number: int, memory: bool) returns (err: int)
      requires Valid() && node != 0 && node !in list
      modifies this
      ensures Valid() && Outcome(contents, err) == DoReplace(old(contents), rule, number, memory)
    {
      if number <= 0 { return -EINVAL; }
      if number > this.number { return -ENOENT; }
      hide RulesOf;
      var link; ghost var k;
      link, k := Walk(l, number, list);
      ReplaceHolds(l, rules, list, contents, k, node, rule);
      hide Holds;
      if !memory { return -ENOMEM; }
      var replaced := Read(l, link);
      var l1 := Write(l.(next := l.next[node := l.next[replaced]]), link, node);
      Commit(l1.(next := l1.next[replaced := 0]), rules[node := rule], this.number,
             list[k := node], contents[k := rule]);
      err := 0;
    }

    /** Takes the node behind `link` out. */
    method Unlink(link: Link, memory: bool, ghost k: nat) returns (err: int)
      requires Valid() && k < |list| && link == LinkTo(list, k)
      modifies this
      ensures Valid() && k < |old(contents)| && Outcome(contents, err) == DoRemove(old(contents), k, memory)
    {
      RemoveHolds(l, rules, list, contents, k);
      hide Holds;
      if number - 1 > 0 && !memory { return -ENOMEM; }
      var victim := Read(l, link);
      var l1 := Write(l, link, l.next[victim]);
      Commit(l1.(next := l1.next[victim := 0]), rules, number - 1, list[..k] + list[k + 1..], RemoveAt(contents, k));
      err := 0;
    }

    /** By position, or, with -1, the first rule equal in every field. */
    method Delete(rule: Rule, number: int, memory: bool) returns (err: int)
      requires Valid()
      modifies this
      ensures Valid() && Outcome(contents, err) == DoDelete(old(contents), rule, number, memory)
    {
      hide RulesOf, DoRemove;
      if number != -1 {
        if number <= 0 || number > this.number { return -ENOENT; }
        var link; ghost var k;
        link, k := Walk(l, number, list);
        err := Unlink(link, memory, k);
      } else {
        var link; ghost var k; var found;
        link, found, k := Find(rule);
        if found { err := Unlink(link, memory, k); } else { err := -ENOENT; }
      }
    }

    /** Walks until a rule equals `rule` in every field. */
    method Find(rule: Rule) returns (link: Link, found: bool, ghost k: nat)
      requires Valid()
      ensures k == FirstSame(contents, rule) && |list| == |contents|
      ensures found == (k < |contents|) && (found ==> link == LinkTo(list, k))
    {
      hide FreeList.Linked, Distinct, Is, FirstSame;
      link, found, k := Head, false, 0;
      ReadAt(l, list, 0);
      while Read(l, link) != 0
        invariant k <= |list| == |contents| && link == LinkTo(list, k) && (link.Next? ==> link.node in l.next) && !found
        invariant forall j :: 0 <= j < k ==> contents[j] != rule
        decreases |list| - k
      {
        ReadAt(l, list, k);
        var cur := Read(l, link);
        assert contents[k] == rules[cur];
        if rules[cur] == rule {
          FirstIs(contents, rule, k);
          found := true;
          return;
        }
        link := Next(cur);
        k := k + 1;
        ReadAt(l, list, k);
      }
      ReadAt(l, list, k);
      FirstIs(contents, rule, k);
    }

    method Flush()
      modifies this
      ensures Valid() && contents == []
    {
      l, number, snapshot := l.(head := 0), 0, None;
      list, contents := [], [];
    }

    /** A packet meets the first matching rule of one complete version of the list. */
    method Match(p: Packet) returns (matched: Option<Rule>)
      requires Valid()
      ensures matched.None? <==> forall r :: r in contents ==> !Matches(r, p)
      ensures matched.Some? ==> exists i :: IsFirst(contents, p, i) && matched.value == contents[i]
    {
      hide Holds, Matches;
      matched := IsMatch(snapshot, p);
    }
  }

  lemma {:induction false} InsertHolds(l: List, rules: map<nat, Rule>, list: seq<nat>, s: seq<Rule>, k: nat,
                                       node: nat, rule: Rule)
    requires Holds(l, rules, list, s) && k <= |list| && node != 0 && node !in list
    ensures |s| == |list| && (k > 0 ==> list[k - 1] in l.next)
    ensures var at := Read(l, LinkTo(list, k));
      && at == (if k < |list| then list[k] else 0)
      && Holds(Write(l.(next := l.next[node := at]), LinkTo(list, k), node), rules[node := rule],
               list[..k] + [node] + list[k..], s[..k] + [rule] + s[k..])
  {
    hide Is, RulesOf, FreeList.Linked, Distinct;
    ReadAt(l, list, k);
    InsertLinked(l, list, k, node);
    RulesInserted(rules, list, s, k, node, rule);
  }

  lemma {:induction false} RulesInserted(rules: map<nat, Rule>, list: seq<nat>, s: seq<Rule>, k: nat, node: nat,
                                         rule: Rule)
    requires Known(rules, list) && RulesOf(rules, list) == s && k <= |list| && node !in list
    ensures Known(rules[node := rule], list[..k] + [node] + list[k..])
    ensures RulesOf(rules[node := rule], list[..k] + [node] + list[k..]) == s[..k] + [rule] + s[k..]
  {
    var longer, rules' := list[..k] + [node] + list[k..], rules[node := rule];
    assert forall a :: a in longer ==> a in list || a == node;
    hide RulesOf;
    forall i | 0 <= i < |longer| ensures RulesOf(rules', longer)[i] == (s[..k] + [rule] + s[k..])[i] {
      assert i < k ==> longer[i] == list[i] && list[i] in list;
      assert i > k ==> longer[i] == list[i - 1] && list[i - 1] in list;
    }
  }

  lemma {:induction false} RulesRemoved(rules: map<nat, Rule>, list: seq<nat>, s: seq<Rule>, k: nat)
    requires Known(rules, list) && RulesOf(rules, list) == s && k < |list|
    ensures Known(rules, list[..k] + list[k + 1..])
    ensures RulesOf(rules, list[..k] + list[k + 1..]) == RemoveAt(s, k)
  {
    var short := list[..k] + list[k + 1..];
    assert forall a :: a in short ==> a in list;
    hide RulesOf;
    forall i | 0 <= i < |short| ensures RulesOf(rules, short)[i] == RemoveAt(s, k)[i] {
      assert short[i] == list[if i < k then i else i + 1];
    }
  }

  lemma {:induction false} RemoveHolds(l: List, rules: map<nat, Rule>, list: seq<nat>, s: seq<Rule>, k: nat)
    requires Holds(l, rules, list, s) && k < |list|
    ensures |s| == |list| && list[k] in l.next && (k > 0 ==> list[k - 1] in l.next) &&
            Read(l, LinkTo(list, k)) == list[k]
    ensures var l1 := Write(l, LinkTo(list, k), l.next[list[k]]);
      Holds(l1.(next := l1.next[list[k] := 0]), rules, list[..k] + list[k + 1..], RemoveAt(s, k))
  {
    hide Is, RulesOf, FreeList.Linked, Distinct, RemoveAt;
    ReadAt(l, list, k);
    RemoveLinked(l, list, k);
    RulesRemoved(rules, list, s, k);
  }

  lemma {:induction false} ReplaceHolds(l: List, rules: map<nat, Rule>, list: seq<nat>, s: seq<Rule>, k: nat,
                                        node: nat, rule: Rule)
    requires Holds(l, rules, list, s) && k < |list| && node != 0 && node !in list
    ensures |s| == |list| && list[k] in l.next && (k > 0 ==> list[k - 1] in l.next) &&
            Read(l, LinkTo(list, k)) == list[k]
    ensures var l1 := Write(l.(next := l.next[node := l.next[list[k]]]), LinkTo(list, k), node);
      Holds(l1.(next := l1.next[list[k] := 0]), rules[node := rule], list[k := node], s[k := rule])
  {
    hide Is, RulesOf, FreeList.Linked, Distinct;
    ReadAt(l, list, k);
    ReplaceLinked(l, list, k, node);
    RulesReplaced(rules, list, s, k, node, rule);
  }

  lemma {:induction false} RulesReplaced(rules: map<nat, Rule>, list: seq<nat>, s: seq<Rule>, k: nat, node: nat,
                                         rule: Rule)
    requires Known(rules, list) && RulesOf(rules, list) == s && k < |list| && node !in list
    ensures Known(rules[node := rule], list[k := node])
    ensures RulesOf(rules[node := rule], list[k := node]) == s[k := rule]
  {
    var list', rules' := list[k := node], rules[node := rule];
    assert forall a :: a in list' ==> a in list || a == node;
    hide RulesOf;
    forall i | 0 <= i < |list| ensures RulesOf(rules', list')[i] == s[k := rule][i] {
      assert list[i] in list;
    }
  }
}
