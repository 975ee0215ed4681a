/** Bounded gossip among any number of nodes: each relay lowers the hops left, each
    node relays to a bounded number of peers and remembers what it has seen. */
module Gossip {
  import opened Common

  datatype Kind = Control | Replicate | Kafka

  /** What identifies a broadcast in the seen cache. */
  datatype SeenKey = SeenKey(kind: Kind, stream: nat, origin: nat, message: nat)

  type Seen = map<SeenKey, int>

  const NEVER: int := 0x7FFF_FFFF_FFFF_FFFF

  // ------------------------------------------------------------ the seen cache

  function Expiry(now: int, seconds: nat): int {
    if seconds * 1000 <= 0 then NEVER else now + seconds * 1000
  }

  function Unexpired(seen: Seen, now: int): Seen {
    map k | k in seen && seen[k] > now :: seen[k]
  }

  /** What marking a key does: a known key is refreshed, a new one is added, with
      entries thrown out, whichever they are, until there is room. */
  ghost predicate Marked(before: Seen, key: SeenKey, max: nat, now: int, seconds: nat, after: Seen, isNew: bool) {
    if max == 0 then isNew && after == before
    else
      var alive := Unexpired(before, now);
      if key in alive then !isNew && after == alive[key := Expiry(now, seconds)]
      else
        && isNew && key in after && after[key] == Expiry(now, seconds) && |after| <= max
        && (forall k :: k in after && k != key ==> k in alive && after[k] == alive[k])
        && (|alive| < max ==> after == alive[key := Expiry(now, seconds)])
  }

  method Expire(seen: Seen, now: int) returns (r: Seen)
    ensures r == Unexpired(seen, now)
  {
    r := seen;
    var todo := seen.Keys;
    while todo != {}
      invariant todo <= seen.Keys
      invariant forall k :: k in r <==> k in seen && (k in todo || seen[k] > now)
      invariant forall k :: k in r ==> r[k] == seen[k]
      decreases |todo|
    {
      var k :| k in todo;
      todo := todo - {k};
      if seen[k] <= now { r := r - {k}; }
    }
  }

  method MarkSeen(seen: Seen, key: SeenKey, max: nat, now: int, seconds: nat) returns (seen': Seen, isNew: bool)
    ensures Marked(seen, key, max, now, seconds, seen', isNew)
  {
    if max == 0 { return seen, true; }
    var alive := Expire(seen, now);
    if key in alive {
      return alive[key := Expiry(now, seconds)], false;
    }
    var rest := alive;
    while |rest| >= max && rest != map[]
      invariant forall k :: k in rest ==> k in alive && rest[k] == alive[k]
      invariant |alive| < max ==> rest == alive
      decreases |rest|
    {
      var k :| k in rest;
      SmallerMap(rest, k);
      rest := rest - {k};
    }
    LargerMap(rest, key, Expiry(now, seconds));
    return rest[key := Expiry(now, seconds)], true;
  }

  lemma {:induction false} SmallerMap(m: Seen, k: SeenKey)
    requires k in m
    ensures |m - {k}| < |m|
  {
    assert (m - {k}).Keys == m.Keys - {k};
  }

  lemma {:induction false} LargerMap(m: Seen, k: SeenKey, v: int)
    requires k !in m
    ensures |m[k := v]| == |m| + 1
  {
    assert m[k := v].Keys == m.Keys + {k};
  }

  /** One call of the cache: its key, its clock reading and its answer. */
  datatype Call = Call(key: SeenKey, now: int, isNew: bool)

  /** The states of one node's cache over a run of calls. */
  ghost predicate CacheRun(caches: seq<Seen>, calls: seq<Call>, max: nat, seconds: nat) {
    && |caches| == |calls| + 1
    && forall i :: 0 <= i < |calls| ==>
         Marked(caches[i], calls[i].key, max, calls[i].now, seconds, caches[i + 1], calls[i].isNew)
  }

  /** At call `i` the key was thrown out: it had expired, or it made room. */
  ghost predicate ThrownOut(caches: seq<Seen>, calls: seq<Call>, key: SeenKey, i: int)
    requires 0 <= i < |calls| && |caches| == |calls| + 1
  {
    key in caches[i] && (caches[i][key] <= calls[i].now || key !in caches[i + 1])
  }

  lemma {:induction false} StaysUntilThrownOut(caches: seq<Seen>, calls: seq<Call>, max: nat, seconds: nat,
                                               key: SeenKey, i: nat, j: nat)
    requires CacheRun(caches, calls, max, seconds) && i <= j < |caches| && key in caches[i]
    requires forall x :: i <= x < j ==> !ThrownOut(caches, calls, key, x)
    ensures key in caches[j]
  {
    if i < j {
      StaysUntilThrownOut(caches, calls, max, seconds, key, i, j - 1);
      assert !ThrownOut(caches, calls, key, j - 1);
    }
  }

  /** A node takes the same broadcast for new twice only if it was thrown out of the
      cache in between. */
  lemma {:induction false} NewTwiceOnlyIfThrownOut(caches: seq<Seen>, calls: seq<Call>, max: nat, seconds: nat,
                                                   i: nat, j: nat)
    requires CacheRun(caches, calls, max, seconds) && max > 0 && i < j < |calls|
    requires calls[i].key == calls[j].key && calls[i].isNew && calls[j].isNew
    ensures exists x :: i < x <= j && ThrownOut(caches, calls, calls[i].key, x)
  {
    var key := calls[i].key;
    assert Marked(caches[i], key, max, calls[i].now, seconds, caches[i + 1], true);
    if forall x :: i < x < j ==> !ThrownOut(caches, calls, key, x) {
      StaysUntilThrownOut(caches, calls, max, seconds, key, i + 1, j);
      assert Marked(caches[j], key, max, calls[j].now, seconds, caches[j + 1], true);
      assert ThrownOut(caches, calls, key, j);
    }
  }

  // --------------------------------------------------------------- hops left

  /** The hops left in an envelope that is relayed at once. */
  function RelayTtl(ttl: nat): Option<nat> {
    if ttl > 1 then Some(ttl - 1) else None
  }

  /** The hops left when a message is broadcast again with the metadata it came with;
      metadata without hops takes the node's own setting. */
  function AgainTtl(ttl: nat, config: nat): Option<nat> {
    if ttl == 0 then Some(config) else if ttl <= 1 then None else Some(ttl - 1)
  }

  /** Broadcasting again lowers the hops left exactly when there were any. */
  lemma {:induction false} AgainLowersExactly(ttl: nat)
    ensures ttl != 0 <==> forall config: nat :: AgainTtl(ttl, config).Some? ==> AgainTtl(ttl, config).value < ttl
    ensures AgainTtl(0, 4) == Some(4)
  {
    if ttl == 0 { assert AgainTtl(ttl, 0) == Some(0); }
  }

  // --------------------------------------------------------------- the network

  /** `root` numbers the broadcast that caused the packet. */
  datatype Packet = Packet(to: nat, key: SeenKey, ttl: nat, root: nat)

  datatype Node = Node(id: nat, ttl: nat, max: nat, seconds: nat, seen: Seen)

  /** `sent[r]` counts the packets that broadcast `r` has caused, `start[r]` is the
      hops it started with. */
  datatype Net = Net(nodes: map<nat, Node>, wire: seq<Packet>, sent: seq<nat>, start: seq<nat>)

  datatype Step =
    | Originate(n: nat, key: SeenKey, now: int, targets: seq<nat>)
    | Deliver(i: nat, now: int, again: int, targets: seq<nat>, wanted: bool)
    | Lose(i: nat)

  function Copies(targets: seq<nat>, key: SeenKey, ttl: nat, root: nat): (r: seq<Packet>)
    ensures |r| == |targets| && forall i :: 0 <= i < |r| ==> r[i] == Packet(targets[i], key, ttl, root)
  {
    if targets == [] then [] else Copies(targets[..|targets| - 1], key, ttl, root) + [Packet(targets[|targets| - 1], key, ttl, root)]
  }

  function OffWire(wire: seq<Packet>, i: nat): seq<Packet>
    requires i < |wire|
  {
    wire[..i] + wire[i + 1..]
  }

  /** The hops of what a node sends on when a new broadcast reaches it: control and
      replicated frames are relayed at once, Kafka frames only if they are wanted. */
  function OnTtl(p: Packet, node: Node, wanted: bool): Option<nat> {
    if p.key.kind == Kafka then (if wanted then AgainTtl(p.ttl, node.ttl) else None) else RelayTtl(p.ttl)
  }

  /** The node's cache after a delivery: a frame broadcast again is marked again. */
  ghost predicate CacheAfter(node: Node, p: Packet, now: int, again: int, wanted: bool, seen: Seen, isNew: bool) {
    exists first: Seen ::
      && Marked(node.seen, p.key, node.max, now, node.seconds, first, isNew)
      && if isNew && p.key.kind == Kafka && OnTtl(p, node, wanted).Some?
         then exists new2: bool :: Marked(first, p.key, node.max, again, node.seconds, seen, new2)
         else seen == first
  }

  /** The network once packet `i` has reached its node and been sent on, or not. */
  function After(s: Net, i: nat, seen: Seen, on: Option<nat>, targets: seq<nat>): Net
    requires i < |s.wire| && s.wire[i].to in s.nodes && s.wire[i].root < |s.sent|
  {
    var p := s.wire[i];
    var nodes := s.nodes[p.to := s.nodes[p.to].(seen := seen)];
    match on
    case None => s.(nodes := nodes, wire := OffWire(s.wire, i))
    case Some(ttl) =>
      s.(nodes := nodes, wire := OffWire(s.wire, i) + Copies(targets, p.key, ttl, p.root),
         sent := s.sent[p.root := s.sent[p.root] + |targets|])
  }

  ghost predicate Delivers(s: Net, i: nat, now: int, again: int, targets: seq<nat>, wanted: bool, s': Net)
    requires i < |s.wire| && s.wire[i].to in s.nodes
  {
    var p := s.wire[i];
    var node := s.nodes[p.to];
    if p.key.origin == node.id then s' == s.(wire := OffWire(s.wire, i))
    else p.root < |s.sent| && exists seen, isNew ::
      && CacheAfter(node, p, now, again, wanted, seen, isNew)
      && s' == After(s, i, seen, if isNew then OnTtl(p, node, wanted) else None, targets)
  }

  ghost predicate Act(s: Net, step: Step, fanout: nat, s': Net) {
    match step
    case Originate(n, key, now, targets) =>
      && n in s.nodes && key.origin == s.nodes[n].id && |targets| <= fanout
      && exists seen, isNew :: Marked(s.nodes[n].seen, key, s.nodes[n].max, now, s.nodes[n].seconds, seen, isNew)
           && s' == Net(s.nodes[n := s.nodes[n].(seen := seen)],
                        s.wire + Copies(targets, key, s.nodes[n].ttl, |s.sent|),
                        s.sent + [|targets|], s.start + [s.nodes[n].ttl])
    case Deliver(i, now, again, targets, wanted) =>
      i < |s.wire| && s.wire[i].to in s.nodes && |targets| <= fanout && Delivers(s, i, now, again, targets, wanted, s')
    case Lose(i) => i < |s.wire| && s' == s.(wire := OffWire(s.wire, i))
  }

  // ------------------------------------------------------- counting packets

  /** One packet with `ttl` hops left and everything it can cause. */
  function Tree(fanout: nat, ttl: nat): nat {
    if ttl == 0 then 0 else 1 + fanout * Tree(fanout, ttl - 1)
  }

  function Pow(b: nat, e: nat): nat {
    if e == 0 then 1 else b * Pow(b, e - 1)
  }

  /** F + F^2 + ... + F^ttl */
  function Geometric(fanout: nat, ttl: nat): nat {
    if ttl == 0 then 0 else Geometric(fanout, ttl - 1) + Pow(fanout, ttl)
  }

  lemma {:induction false} TreeGrows(fanout: nat, ttl: nat)
    ensures Tree(fanout, ttl + 1) == Tree(fanout, ttl) + Pow(fanout, ttl)
  {
    if ttl > 0 {
      TreeGrows(fanout, ttl - 1);
      assert fanout * (Tree(fanout, ttl - 1) + Pow(fanout, ttl - 1))
          == fanout * Tree(fanout, ttl - 1) + fanout * Pow(fanout, ttl - 1);
    }
  }

  lemma {:induction false} GeometricIsTree(fanout: nat, ttl: nat)
    ensures Geometric(fanout, ttl) == fanout * Tree(fanout, ttl)
  {
    if ttl > 0 {
      GeometricIsTree(fanout, ttl - 1);
      TreeGrows(fanout, ttl - 1);
      assert fanout * (Tree(fanout, ttl - 1) + Pow(fanout, ttl - 1))
          == fanout * Tree(fanout, ttl - 1) + fanout * Pow(fanout, ttl - 1);
    }
  }

  /** What the packets of one broadcast can still cause, themselves not counted. */
  function Weight(wire: seq<Packet>, fanout: nat, root: nat): nat {
    if wire == [] then 0
    else
      var p := wire[|wire| - 1];
      Weight(wire[..|wire| - 1], fanout, root) + (if p.root == root && p.ttl > 0 then Tree(fanout, p.ttl) - 1 else 0)
  }

  lemma {:induction false} WeightConcat(a: seq<Packet>, b: seq<Packet>, fanout: nat, root: nat)
    ensures Weight(a + b, fanout, root) == Weight(a, fanout, root) + Weight(b, fanout, root)
    decreases |b|
  {
    if b == [] {
      assert a + b == a;
    } else {
      assert (a + b)[..|a + b| - 1] == a + b[..|b| - 1];
      WeightConcat(a, b[..|b| - 1], fanout, root);
    }
  }

  lemma {:induction false} WeightOne(p: Packet, fanout: nat, root: nat)
    ensures Weight([p], fanout, root) == if p.root == root && p.ttl > 0 then Tree(fanout, p.ttl) - 1 else 0
  {
    assert [p][..0] == [];
  }

  lemma {:induction false} WeightWithout(wire: seq<Packet>, i: nat, fanout: nat, root: nat)
    requires i < |wire|
    ensures Weight(wire, fanout, root) == Weight(OffWire(wire, i), fanout, root) + Weight([wire[i]], fanout, root)
  {
    assert wire == wire[..i] + ([wire[i]] + wire[i + 1..]);
    WeightConcat(wire[..i], [wire[i]] + wire[i + 1..], fanout, root);
    WeightConcat([wire[i]], wire[i + 1..], fanout, root);
    WeightConcat(wire[..i], wire[i + 1..], fanout, root);
  }

  lemma {:induction false} WeightCopies(targets: seq<nat>, key: SeenKey, ttl: nat, r: nat, fanout: nat, root: nat)
    requires ttl > 0
    ensures Weight(Copies(targets, key, ttl, r), fanout, root) == if r == root then |targets| * (Tree(fanout, ttl) - 1) else 0
  {
    if targets != [] {
      var front := targets[..|targets| - 1];
      WeightCopies(front, key, ttl, r, fanout, root);
      var last := Packet(targets[|targets| - 1], key, ttl, r);
      WeightConcat(Copies(front, key, ttl, r), [last], fanout, root);
      WeightOne(last, fanout, root);
      OneMore(|front|, Tree(fanout, ttl) - 1);
    }
  }

  lemma {:induction false} OneMore(n: nat, k: int)
    ensures (n + 1) * k == n * k + k
  {
  }

  /** Sending `n` packets with one hop less costs no more than was set aside. */
  lemma {:induction false} RelayCost(n: nat, fanout: nat, ttl: nat)
    requires n <= fanout && ttl > 1
    ensures n + n * (Tree(fanout, ttl - 1) - 1) <= Tree(fanout, ttl) - 1
  {
    var t := Tree(fanout, ttl - 1);
    assert n + n * (t - 1) == n * t;
    assert n * t <= fanout * t;
  }

  // ------------------------------------------------------------ the invariant

  /** Every node starts broadcasts with at least one hop. */
  ghost predicate Configured(s: Net) {
    forall n :: n in s.nodes ==> s.nodes[n].ttl >= 1
  }

  ghost predicate WireOk(wire: seq<Packet>, roots: nat) {
    forall p :: p in wire ==> p.ttl >= 1 && p.root < roots
  }

  ghost predicate Budget(s: Net, fanout: nat) {
    && |s.sent| == |s.start|
    && forall r :: 0 <= r < |s.sent| ==>
         s.sent[r] + Weight(s.wire, fanout, r) <= fanout * Tree(fanout, s.start[r])
  }

  ghost predicate Inv(s: Net, fanout: nat) {
    Configured(s) && WireOk(s.wire, |s.sent|) && Budget(s, fanout)
  }

  lemma {:induction false} NoWeight(wire: seq<Packet>, fanout: nat, root: nat)
    requires forall p :: p in wire ==> p.root != root
    ensures Weight(wire, fanout, root) == 0
  {
    if wire != [] { NoWeight(wire[..|wire| - 1], fanout, root); }
  }

  lemma {:induction false} OriginateKeeps(s: Net, fanout: nat, targets: seq<nat>, key: SeenKey, ttl: nat)
    requires WireOk(s.wire, |s.sent|) && Budget(s, fanout) && |targets| <= fanout && ttl >= 1
    ensures var s' := s.(wire := s.wire + Copies(targets, key, ttl, |s.sent|), sent := s.sent + [|targets|], start := s.start + [ttl]);
      WireOk(s'.wire, |s'.sent|) && Budget(s', fanout)
  {
    var copies := Copies(targets, key, ttl, |s.sent|);
    forall r | 0 <= r <= |s.sent|
      ensures (s.sent + [|targets|])[r] + Weight(s.wire + copies, fanout, r) <= fanout * Tree(fanout, (s.start + [ttl])[r])
    {
      WeightConcat(s.wire, copies, fanout, r);
      WeightCopies(targets, key, ttl, |s.sent|, fanout, r);
      hide Weight;
      if r == |s.sent| {
        NoWeight(s.wire, fanout, r);
        FirstCost(|targets|, fanout, ttl);
      }
    }
  }

  lemma {:induction false} FirstCost(n: nat, fanout: nat, ttl: nat)
    requires n <= fanout && ttl >= 1
    ensures n + n * (Tree(fanout, ttl) - 1) <= fanout * Tree(fanout, ttl)
  {
    var t := Tree(fanout, ttl);
    assert n + n * (t - 1) == n * t;
    assert n * t <= fanout * t;
  }

  lemma {:induction false} DropKeeps(s: Net, fanout: nat, i: nat)
    requires WireOk(s.wire, |s.sent|) && Budget(s, fanout) && i < |s.wire|
    ensures var s' := s.(wire := OffWire(s.wire, i));
      WireOk(s'.wire, |s'.sent|) && Budget(s', fanout)
  {
    var wire' := OffWire(s.wire, i);
    assert forall p :: p in wire' ==> p in s.wire;
    forall r | 0 <= r < |s.sent| ensures Weight(wire', fanout, r) <= Weight(s.wire, fanout, r) {
      WeightWithout(s.wire, i, fanout, r);
    }
    hide Weight;
  }

  lemma {:induction false} RelayWeight(wire: seq<Packet>, i: nat, targets: seq<nat>, ttl: nat, fanout: nat, r: nat)
    requires i < |wire| && |targets| <= fanout && wire[i].ttl > 1 && ttl == wire[i].ttl - 1
    ensures var p := wire[i];
      (if p.root == r then |targets| else 0) + Weight(OffWire(wire, i) + Copies(targets, p.key, ttl, p.root), fanout, r)
      <= Weight(wire, fanout, r)
  {
    hide Weight, Tree, OffWire;
    var p := wire[i];
    var rest, copies := OffWire(wire, i), Copies(targets, p.key, ttl, p.root);
    WeightConcat(rest, copies, fanout, r);
    WeightWithout(wire, i, fanout, r);
    WeightOne(p, fanout, r);
    WeightCopies(targets, p.key, ttl, p.root, fanout, r);
    RelayCost(|targets|, fanout, p.ttl);
  }

  /** A relay spends what its packet had set aside. */
  lemma {:induction false} RelayKeeps(s: Net, fanout: nat, i: nat, targets: seq<nat>, ttl: nat)
    requires WireOk(s.wire, |s.sent|) && Budget(s, fanout) && i < |s.wire| && |targets| <= fanout
    requires s.wire[i].ttl > 1 && ttl == s.wire[i].ttl - 1 && s.wire[i].root < |s.sent|
    ensures var p := s.wire[i];
      var s' := s.(wire := OffWire(s.wire, i) + Copies(targets, p.key, ttl, p.root), sent := s.sent[p.root := s.sent[p.root] + |targets|]);
      WireOk(s'.wire, |s'.sent|) && Budget(s', fanout)
  {
    var p := s.wire[i];
    var rest, copies := OffWire(s.wire, i), Copies(targets, p.key, ttl, p.root);
    assert forall x :: x in rest ==> x in s.wire;
    hide Weight, Tree;
    var sent' := s.sent[p.root := s.sent[p.root] + |targets|];
    forall r | 0 <= r < |s.sent| ensures sent'[r] + Weight(rest + copies, fanout, r) <= fanout * Tree(fanout, s.start[r]) {
      RelayWeight(s.wire, i, targets, ttl, fanout, r);
    }
  }

  /** A new broadcast is sent on exactly while more than one hop is left, and, if it is
      a Kafka frame, wanted; always with one hop less. */
  lemma {:induction false} HopLowers(p: Packet, node: Node, wanted: bool)
    requires p.ttl >= 1
    ensures OnTtl(p, node, wanted).Some? <==> p.ttl > 1 && (p.key.kind == Kafka ==> wanted)
    ensures OnTtl(p, node, wanted).Some? ==> OnTtl(p, node, wanted).value == p.ttl - 1
  {
  }

  lemma {:induction false} AfterKeeps(s: Net, fanout: nat, i: nat, seen: Seen, on: Option<nat>, targets: seq<nat>)
    requires Inv(s, fanout) && i < |s.wire| && s.wire[i].to in s.nodes && s.wire[i].root < |s.sent| &&
             |targets| <= fanout
    requires on.Some? ==> s.wire[i].ttl > 1 && on.value == s.wire[i].ttl - 1
    ensures Inv(After(s, i, seen, on, targets), fanout)
  {
    hide Budget, WireOk;
    var p, s' := s.wire[i], After(s, i, seen, on, targets);
    if on.Some? {
      RelayKeeps(s, fanout, i, targets, on.value);
      NodesDoNotCount(s.(wire := s'.wire, sent := s'.sent), s', fanout);
    } else {
      DropKeeps(s, fanout, i);
      NodesDoNotCount(s.(wire := s'.wire), s', fanout);
    }
  }

  lemma {:induction false} DeliverKeeps(s: Net, fanout: nat, i: nat, now: int, again: int, targets: seq<nat>,
                                        wanted: bool, s': Net)
    requires Inv(s, fanout) && i < |s.wire| && s.wire[i].to in s.nodes && |targets| <= fanout
    requires Delivers(s, i, now, again, targets, wanted, s')
    ensures Inv(s', fanout)
  {
    hide Budget, WireOk, CacheAfter, After, OnTtl;
    var p := s.wire[i];
    var node := s.nodes[p.to];
    if p.key.origin == node.id {
      DropKeeps(s, fanout, i);
    } else {
      WireTtl(s.wire, |s.sent|, i);
      var seen, isNew :| CacheAfter(node, p, now, again, wanted, seen, isNew)
        && s' == After(s, i, seen, if isNew then OnTtl(p, node, wanted) else None, targets);
      var on := if isNew then OnTtl(p, node, wanted) else None;
      if on.Some? { HopLowers(p, node, wanted); }
      AfterKeeps(s, fanout, i, seen, on, targets);
    }
  }

  lemma {:induction false} WireTtl(wire: seq<Packet>, roots: nat, i: nat)
    requires WireOk(wire, roots) && i < |wire|
    ensures wire[i].ttl >= 1 && wire[i].root < roots
  {
    assert wire[i] in wire;
  }

  lemma {:induction false} NodesDoNotCount(s: Net, s': Net, fanout: nat)
    requires s'.wire == s.wire && s'.sent == s.sent && s'.start == s.start
    ensures WireOk(s.wire, |s.sent|) ==> WireOk(s'.wire, |s'.sent|)
    ensures Budget(s, fanout) ==> Budget(s', fanout)
  {
  }

  lemma {:induction false} StepKeeps(s: Net, step: Step, fanout: nat, s': Net)
    requires Inv(s, fanout) && Act(s, step, fanout, s')
    ensures Inv(s', fanout)
  {
    hide Budget, WireOk, Delivers, Marked;
    match step
    case Originate(n, key, now, targets) =>
      OriginateKeeps(s, fanout, targets, key, s.nodes[n].ttl);
      var ttl := s.nodes[n].ttl;
      NodesDoNotCount(s.(wire := s.wire + Copies(targets, key, ttl, |s.sent|), sent := s.sent + [|targets|], start := s.start + [ttl]),
                      s', fanout);
    case Deliver(i, now, again, targets, wanted) => DeliverKeeps(s, fanout, i, now, again, targets, wanted, s');
    case Lose(i) => DropKeeps(s, fanout, i);
  }

  /** A run from an idle network; `fanout` bounds how many peers a node sends to. */
  ghost predicate Run(trace: seq<Net>, steps: seq<Step>, fanout: nat) {
    && |trace| == |steps| + 1 && Configured(trace[0]) && trace[0].wire == [] && trace[0].sent == [] == trace[0].start
    && forall i :: 0 <= i < |steps| ==> Act(trace[i], steps[i], fanout, trace[i + 1])
  }

  lemma {:induction false} RunKeeps(trace: seq<Net>, steps: seq<Step>, fanout: nat, i: nat)
    requires Run(trace, steps, fanout) && i < |trace|
    ensures Inv(trace[i], fanout)
  {
    if i > 0 {
      hide Inv, Act;
      RunKeeps(trace, steps, fanout, i - 1);
      assert Act(trace[i - 1], steps[i - 1], fanout, trace[i - 1 + 1]);
      StepKeeps(trace[i - 1], steps[i - 1], fanout, trace[i]);
    }
  }

  // --------------------------------------------------------------- theorems

  /** One broadcast causes at most F + F^2 + ... + F^ttl packets, whatever is relayed,
      lost, broadcast again or forgotten, and no envelope travels with no hops left. */
  lemma {:induction false} GossipIsBounded(trace: seq<Net>, steps: seq<Step>, fanout: nat, i: nat, root: nat)
    requires Run(trace, steps, fanout) && i < |trace| && root < |trace[i].sent|
    ensures |trace[i].start| == |trace[i].sent| && trace[i].sent[root] <= Geometric(fanout, trace[i].start[root])
    ensures forall p :: p in trace[i].wire ==> p.ttl >= 1
  {
    RunKeeps(trace, steps, fanout, i);
    GeometricIsTree(fanout, trace[i].start[root]);
  }

  /** Everything the packets on the wire can still cause, themselves included. */
  function Mass(wire: seq<Packet>, fanout: nat): nat {
    if wire == [] then 0 else Mass(wire[..|wire| - 1], fanout) + Tree(fanout, wire[|wire| - 1].ttl)
  }

  lemma {:induction false} MassConcat(a: seq<Packet>, b: seq<Packet>, fanout: nat)
    ensures Mass(a + b, fanout) == Mass(a, fanout) + Mass(b, fanout)
    decreases |b|
  {
    if b == [] {
      assert a + b == a;
    } else {
      assert (a + b)[..|a + b| - 1] == a + b[..|b| - 1];
      MassConcat(a, b[..|b| - 1], fanout);
    }
  }

  lemma {:induction false} MassCopies(targets: seq<nat>, key: SeenKey, ttl: nat, root: nat, fanout: nat)
    ensures Mass(Copies(targets, key, ttl, root), fanout) == |targets| * Tree(fanout, ttl)
  {
    if targets != [] {
      MassCopies(targets[..|targets| - 1], key, ttl, root, fanout);
      OneMore(|targets| - 1, Tree(fanout, ttl));
    }
  }

  lemma {:induction false} MassWithout(wire: seq<Packet>, i: nat, fanout: nat)
    requires i < |wire|
    ensures Mass(wire, fanout) == Mass(OffWire(wire, i), fanout) + Tree(fanout, wire[i].ttl)
  {
    assert wire == wire[..i] + ([wire[i]] + wire[i + 1..]);
    MassConcat(wire[..i], [wire[i]] + wire[i + 1..], fanout);
    MassConcat([wire[i]], wire[i + 1..], fanout);
    MassConcat(wire[..i], wire[i + 1..], fanout);
    assert [wire[i]][..0] == [];
  }

  lemma {:induction false} TreeStep(n: nat, fanout: nat, ttl: nat)
    requires n <= fanout && ttl >= 1
    ensures n * Tree(fanout, ttl - 1) < Tree(fanout, ttl)
  {
    var t := Tree(fanout, ttl - 1);
    assert n * t <= fanout * t;
  }

  lemma {:induction false} AfterShrinks(s: Net, fanout: nat, i: nat, seen: Seen, on: Option<nat>, targets: seq<nat>)
    requires i < |s.wire| && s.wire[i].to in s.nodes && s.wire[i].root < |s.sent| && |targets| <= fanout &&
             s.wire[i].ttl >= 1
    requires on.Some? ==> s.wire[i].ttl > 1 && on.value == s.wire[i].ttl - 1
    ensures Mass(After(s, i, seen, on, targets).wire, fanout) < Mass(s.wire, fanout)
  {
    hide Mass, Tree, Copies, OffWire;
    MassWithout(s.wire, i, fanout);
    var p := s.wire[i];
    TreeStep(|targets|, fanout, p.ttl);
    if on.Some? {
      MassCopies(targets, p.key, on.value, p.root, fanout);
      MassConcat(OffWire(s.wire, i), Copies(targets, p.key, on.value, p.root), fanout);
    }
  }

  /** Every delivery and every loss brings the network closer to silence. */
  lemma {:induction false} GossipDiesOut(s: Net, step: Step, fanout: nat, s': Net)
    requires Inv(s, fanout) && Act(s, step, fanout, s') && !step.Originate?
    ensures Mass(s'.wire, fanout) < Mass(s.wire, fanout)
  {
    hide Budget, WireOk, CacheAfter, Mass, After, OnTtl;
    var i := step.i;
    var p := s.wire[i];
    WireTtl(s.wire, |s.sent|, i);
    if step.Lose? || p.key.origin == s.nodes[p.to].id {
      MassWithout(s.wire, i, fanout);
    } else {
      var node := s.nodes[p.to];
      var seen, isNew :| CacheAfter(node, p, step.now, step.again, step.wanted, seen, isNew)
        && s' == After(s, i, seen, if isNew then OnTtl(p, node, step.wanted) else None, step.targets);
      var on := if isNew then OnTtl(p, node, step.wanted) else None;
      if on.Some? { HopLowers(p, node, step.wanted); }
      AfterShrinks(s, fanout, i, seen, on, step.targets);
    }
  }

  // ------------------------------------------------- once per node and broadcast

  /** The cache lookup of a delivery to node `n` does not find the key alive. */
  ghost predicate TakesAsNew(s: Net, step: Step, n: nat, key: SeenKey) {
    && step.Deliver? && step.i < |s.wire| && s.wire[step.i].to == n && s.wire[step.i].key == key && n in s.nodes
    && key.origin != s.nodes[n].id && !(key in s.nodes[n].seen && s.nodes[n].seen[key] > step.now)
  }

  /** Node `n` had the key in its cache and has it no longer. */
  ghost predicate Drops(s: Net, s': Net, n: nat, key: SeenKey) {
    n in s.nodes && n in s'.nodes && key in s.nodes[n].seen && key !in s'.nodes[n].seen
  }

  /** Marking tells a new key exactly by the lookup, and puts it into the cache. */
  lemma {:induction false} MarkedExactly(before: Seen, key: SeenKey, max: nat, now: int, seconds: nat, after: Seen,
                                         isNew: bool)
    requires Marked(before, key, max, now, seconds, after, isNew) && max > 0
    ensures isNew <==> !(key in before && before[key] > now)
    ensures key in after
  {
  }

  /** A delivery of a broadcast the node remembers is not sent on; either way the node
      remembers it afterwards. */
  lemma {:induction false} DeliveryIsRemembered(s: Net, step: Step, fanout: nat, s': Net)
    requires Act(s, step, fanout, s') && step.Deliver?
    requires var n := s.wire[step.i].to; s.nodes[n].max > 0 && s.wire[step.i].key.origin != s.nodes[n].id
    ensures var n, key := s.wire[step.i].to, s.wire[step.i].key;
      && n in s'.nodes && key in s'.nodes[n].seen
      && (!TakesAsNew(s, step, n, key) ==> s'.wire == OffWire(s.wire, step.i) && s'.sent == s.sent)
  {
    var p := s.wire[step.i];
    var node := s.nodes[p.to];
    var seen, isNew :| CacheAfter(node, p, step.now, step.again, step.wanted, seen, isNew)
      && s' == After(s, step.i, seen, if isNew then OnTtl(p, node, step.wanted) else None, step.targets);
    var first: Seen :| Marked(node.seen, p.key, node.max, step.now, node.seconds, first, isNew)
      && if isNew && p.key.kind == Kafka && OnTtl(p, node, step.wanted).Some?
         then exists new2: bool :: Marked(first, p.key, node.max, step.again, node.seconds, seen, new2)
         else seen == first;
    hide Marked, OnTtl;
    MarkedExactly(node.seen, p.key, node.max, step.now, node.seconds, first, isNew);
    if seen != first {
      var new2: bool :| Marked(first, p.key, node.max, step.again, node.seconds, seen, new2);
      MarkedExactly(first, p.key, node.max, step.again, node.seconds, seen, new2);
    }
  }

  lemma {:induction false} NodesStay(s: Net, step: Step, fanout: nat, s': Net)
    requires Act(s, step, fanout, s')
    ensures s'.nodes.Keys == s.nodes.Keys
  {
    hide Marked, CacheAfter, OnTtl;
  }

  lemma {:induction false} RemembersOrDrops(trace: seq<Net>, steps: seq<Step>, fanout: nat, n: nat, key: SeenKey,
                                            i: nat, j: nat)
    requires Run(trace, steps, fanout) && i <= j < |trace| && n in trace[i].nodes && key in trace[i].nodes[n].seen
    ensures n in trace[j].nodes
    ensures key in trace[j].nodes[n].seen || exists x :: i <= x < j && Drops(trace[x], trace[x + 1], n, key)
  {
    hide Act;
    if i < j {
      RemembersOrDrops(trace, steps, fanout, n, key, i, j - 1);
      assert Act(trace[j - 1], steps[j - 1], fanout, trace[j - 1 + 1]);
      NodesStay(trace[j - 1], steps[j - 1], fanout, trace[j]);
      if key in trace[j - 1].nodes[n].seen && key !in trace[j].nodes[n].seen {
        assert Drops(trace[j - 1], trace[j - 1 + 1], n, key);
      }
    }
  }

  /** In every run of the network a node takes one broadcast for new at two deliveries
      only if its cache lost it in between, or it had expired by the second. */
  lemma {:induction false} NodeTakesNewTwice(trace: seq<Net>, steps: seq<Step>, fanout: nat, n: nat, key: SeenKey,
                                             i: nat, j: nat)
    requires Run(trace, steps, fanout) && i < j < |steps| && |trace| == |steps| + 1
    requires TakesAsNew(trace[i], steps[i], n, key) && TakesAsNew(trace[j], steps[j], n, key)
    requires trace[i].nodes[n].max > 0
    ensures || (exists x :: i < x < j && Drops(trace[x], trace[x + 1], n, key))
            || (key in trace[j].nodes[n].seen && trace[j].nodes[n].seen[key] <= steps[j].now)
  {
    assert Act(trace[i], steps[i], fanout, trace[i + 1]);
    DeliveryIsRemembered(trace[i], steps[i], fanout, trace[i + 1]);
    hide Act;
    RemembersOrDrops(trace, steps, fanout, n, key, i + 1, j);
  }

  /** A broadcast is remembered for the configured time, and for good if that is zero. */
  lemma {:induction false} RememberedFor(before: Seen, key: SeenKey, max: nat, now: int, seconds: nat, after: Seen,
                                         isNew: bool, later: int)
    requires Marked(before, key, max, now, seconds, after, isNew) && max > 0
    ensures key in Unexpired(after, later) <==>
      if seconds == 0 then later < 0x7FFF_FFFF_FFFF_FFFF else later < now + 1000 * seconds
  {
  }

  /** A new broadcast goes to every target with all the hops the node starts with. */
  lemma {:induction false} OriginateSends(s: Net, step: Step, fanout: nat, s': Net)
    requires Act(s, step, fanout, s') && step.Originate?
    ensures |s'.wire| == |s.wire| + |step.targets| && s'.sent == s.sent + [|step.targets|]
    ensures forall i :: 0 <= i < |step.targets| ==>
      s'.wire[|s.wire| + i] == Packet(step.targets[i], step.key, s.nodes[step.n].ttl, |s.sent|)
  {
    hide Marked;
  }

  /** A delivered broadcast the node takes for new, with more than one hop left and, if it
      is a Kafka frame, wanted, goes on to every target with one hop less; any other
      delivery just takes the packet off the wire. */
  lemma {:induction false} DeliverySends(s: Net, step: Step, fanout: nat, s': Net)
    requires Act(s, step, fanout, s') && step.Deliver? && s.wire[step.i].ttl >= 1
    requires s.nodes[s.wire[step.i].to].max > 0
    ensures var p := s.wire[step.i];
      if TakesAsNew(s, step, p.to, p.key) && p.ttl > 1 && (p.key.kind == Kafka ==> step.wanted) then
        && |s'.wire| == |s.wire| - 1 + |step.targets|
        && forall i :: 0 <= i < |step.targets| ==>
             s'.wire[|s.wire| - 1 + i] == Packet(step.targets[i], p.key, p.ttl - 1, p.root)
      else s'.wire == OffWire(s.wire, step.i) && s'.sent == s.sent
  {
    var p := s.wire[step.i];
    var node := s.nodes[p.to];
    hide CacheAfter, OnTtl;
    if p.key.origin != node.id {
      var seen, isNew :| CacheAfter(node, p, step.now, step.again, step.wanted, seen, isNew)
        && s' == After(s, step.i, seen, if isNew then OnTtl(p, node, step.wanted) else None, step.targets);
      NewExactly(node, p, step.now, step.again, step.wanted, seen, isNew);
      HopLowers(p, node, step.wanted);
    }
  }

  lemma {:induction false} NewExactly(node: Node, p: Packet, now: int, again: int, wanted: bool, seen: Seen,
                                      isNew: bool)
    requires CacheAfter(node, p, now, again, wanted, seen, isNew) && node.max > 0
    ensures isNew <==> !(p.key in node.seen && node.seen[p.key] > now)
  {
    var first: Seen :| Marked(node.seen, p.key, node.max, now, node.seconds, first, isNew);
    hide Marked;
    MarkedExactly(node.seen, p.key, node.max, now, node.seconds, first, isNew);
  }
}
