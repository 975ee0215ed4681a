/** How a flush groups segments into datagrams. */
module KcpDatagrams {
  import opened KcpProtocol

  ghost function Flatten(ds: seq<Datagram>): seq<Segment> {
    if ds == [] then [] else Flatten(ds[..|ds| - 1]) + ds[|ds| - 1]
  }

  lemma {:induction false} FlattenSnoc(ds: seq<Datagram>, d: Datagram)
    ensures Flatten(ds + [d]) == Flatten(ds) + d
  {
    assert (ds + [d])[..|ds|] == ds;
  }

  lemma {:induction false} FlattenContains(ds: seq<Datagram>)
    ensures forall seg :: seg in Flatten(ds) <==> exists d :: d in ds && seg in d
  {
    if ds != [] {
      var front, last := ds[..|ds| - 1], ds[|ds| - 1];
      FlattenContains(front);
      assert ds == front + [last];
      forall seg | seg in Flatten(ds) ensures exists d :: d in ds && seg in d {
        if seg in last {
          assert last in ds;
        } else {
          assert seg in Flatten(front);
          var d :| d in front && seg in d;
          assert d in ds;
        }
      }
    }
  }

  ghost predicate Fits(d: Datagram, mtu: nat) {
    d != [] && Size(d) <= mtu
  }

  ghost predicate PackerOk(p: Packer, mtu: nat) {
    (forall d :: d in p.out ==> Fits(d, mtu)) && (p.cur != [] ==> Fits(p.cur, mtu))
  }

  lemma {:induction false} SizeSnoc(d: Datagram, seg: Segment)
    ensures Size(d + [seg]) == Size(d) + SegmentSize(seg)
  {
    assert (d + [seg])[..|d|] == d;
  }

  lemma {:induction false} PutKeeps(p: Packer, seg: Segment, mtu: nat)
    ensures var q := Put(p, seg, mtu); Flatten(q.out) + q.cur == Flatten(p.out) + p.cur + [seg]
  {
    FlattenSnoc(p.out, p.cur);
    assert Flatten(p.out) + (p.cur + [seg]) == Flatten(p.out) + p.cur + [seg];
  }

  lemma {:induction false} PutFits(p: Packer, seg: Segment, mtu: nat)
    requires PackerOk(p, mtu) && SegmentSize(seg) <= mtu
    ensures PackerOk(Put(p, seg, mtu), mtu)
  {
    SizeSnoc(p.cur, seg);
    SizeSnoc([], seg);
    assert [] + [seg] == [seg];
  }

  lemma {:induction false} PutAllKeeps(p: Packer, segs: seq<Segment>, mtu: nat)
    ensures var q := PutAll(p, segs, mtu); Flatten(q.out) + q.cur == Flatten(p.out) + p.cur + segs
  {
    if segs != [] {
      var front, seg := segs[..|segs| - 1], segs[|segs| - 1];
      PutAllKeeps(p, front, mtu);
      PutKeeps(PutAll(p, front, mtu), seg, mtu);
      assert Flatten(p.out) + p.cur + front + [seg] == Flatten(p.out) + p.cur + segs;
    }
  }

  lemma {:induction false} PutAllFits(p: Packer, segs: seq<Segment>, mtu: nat)
    requires PackerOk(p, mtu) && forall seg :: seg in segs ==> SegmentSize(seg) <= mtu
    ensures PackerOk(PutAll(p, segs, mtu), mtu)
  {
    if segs != [] {
      PutAllFits(p, segs[..|segs| - 1], mtu);
      PutFits(PutAll(p, segs[..|segs| - 1], mtu), segs[|segs| - 1], mtu);
    }
  }

  /** Packing writes every segment exactly once, in order, whatever the MTU. */
  lemma {:induction false} PackFlattens(segs: seq<Segment>, mtu: nat)
    ensures Flatten(Pack(segs, mtu)) == segs
  {
    var p := PutAll(Packer([], []), segs, mtu);
    PutAllKeeps(Packer([], []), segs, mtu);
    FlattenSnoc(p.out, p.cur);
    assert Flatten([]) + [] + segs == segs;
  }

  /** Every output buffer is nonempty and at most `mtu` bytes, if every segment
      alone is. */
  lemma {:induction false} PackFits(segs: seq<Segment>, mtu: nat)
    requires forall seg :: seg in segs ==> SegmentSize(seg) <= mtu
    ensures forall d :: d in Pack(segs, mtu) ==> Fits(d, mtu)
  {
    PutAllFits(Packer([], []), segs, mtu);
  }

  /** Datagram `d` could not have taken the first segment of `e`. */
  ghost predicate Full(d: Datagram, e: Datagram, mtu: nat) {
    e != [] && Size(d) + SegmentSize(e[0]) > mtu
  }

  ghost predicate Packed(ds: seq<Datagram>, mtu: nat) {
    forall i, j :: 0 <= i < j < |ds| && j == i + 1 ==> Full(ds[i], ds[j], mtu)
  }

  lemma {:induction false} PutPacked(p: Packer, seg: Segment, mtu: nat)
    requires Packed(Finish(p), mtu) && (p.cur == [] ==> p.out == [])
    ensures Packed(Finish(Put(p, seg, mtu)), mtu) && Put(p, seg, mtu).cur != []
  {
    var ds, ds' := Finish(p), Finish(Put(p, seg, mtu));
    forall i, j | 0 <= i < j < |ds'| && j == i + 1 ensures Full(ds'[i], ds'[j], mtu) {
      assert ds'[i] == ds[i];
      if j < |ds| { assert Full(ds[i], ds[j], mtu) && ds'[j][0] == ds[j][0]; }
    }
  }

  lemma {:induction false} PutAllPacked(segs: seq<Segment>, mtu: nat)
    ensures var p := PutAll(Packer([], []), segs, mtu);
      Packed(Finish(p), mtu) && (p.cur == [] ==> p.out == [])
  {
    if segs != [] {
      PutAllPacked(segs[..|segs| - 1], mtu);
      PutPacked(PutAll(Packer([], []), segs[..|segs| - 1], mtu), segs[|segs| - 1], mtu);
    }
  }

  /** A flush hands out no more buffers than it must: each is closed only when the next
      segment does not fit. */
  lemma {:induction false} PackIsTight(segs: seq<Segment>, mtu: nat)
    ensures Packed(Pack(segs, mtu), mtu)
  {
    PutAllPacked(segs, mtu);
  }
}
