/** Atomics of a whole instruction: which segments they are cut into, and that atomics to different places are coalesced
    exactly as plain accesses are. */
module AtomicStreams {
  import opened Basics
  import opened Coalescing
  import opened PlainCoalescer
  import opened CoalescingTheorems
  import opened AtomicCoalescer
  import opened StreamTheorems

  // ---------- sectors ----------

  lemma {:induction false} SectorList(q: seq<Access>, list: seq<Txn>, b: nat)
    ensures GrownBy(q, AppendList(q, list, b, 32), 32)
    decreases list
  {
    if list != [] {
      var mid := q + [AccessFor(b, list[0], 32)];
      SectorList(mid, list[1..], b);
      GrownTwice(q, mid, AppendList(q, list, b, 32), 32);
    }
  }

  lemma {:induction false} SectorLists(q: seq<Access>, m: Lists, left: set<nat>)
    requires left <= m.Keys
    ensures GrownBy(q, AppendLists(q, m, left, 32), 32)
    decreases left
  {
    if left != {} {
      var b := Least(left);
      var mid := AppendList(q, m[b], b, 32);
      SectorList(q, m[b], b);
      SectorLists(mid, m, left - {b});
      GrownTwice(q, mid, AppendLists(q, m, left, 32), 32);
    }
  }

  lemma {:induction false} SectorWarpAtomics(q: seq<Access>, w: Lanes, n: DataSize, size: nat, parts: nat)
    ensures GrownBy(q, AppendWarpAtomics(q, w, n, 32, size, parts), 32)
  {
    if parts > 0 {
      Scale(size, parts - 1);
      SectorWarpAtomics(q, w, n, size, parts - 1);
      var mid, m := AppendWarpAtomics(q, w, n, 32, size, parts - 1),
                    Place(Items(w, size * (parts - 1), size * parts), n, 32);
      SectorLists(mid, m, m.Keys);
      GrownTwice(q, mid, AppendWarpAtomics(q, w, n, 32, size, parts), 32);
    }
  }

  /** By sectors, and for bytes always, every request of an atomic has 32 bytes. */
  lemma SectorAtomics(q: seq<Access>, w: Lanes, n: DataSize, arch: int, skipL1D: bool, cacheGlobal: bool, parts: nat)
    requires parts > 0 && (BySectors(arch, skipL1D, cacheGlobal) || n == 1)
    ensures GrownBy(q, QueuedAtomics(q, w, n, arch, skipL1D, cacheGlobal, parts), 32)
  {
    SectorWarpAtomics(q, w, n, |w.addrs| / parts, parts);
  }

  // ---------- atomics to different places ----------

  /** Every active lane has one aligned address of its own. */
  ghost predicate Scattered(w: Lanes, n: DataSize) {
    && (forall t: nat :: t in w.active ==> t < |w.addrs| && OwnAddress(w.addrs[t], n))
    && forall t: nat, u: nat :: t in w.active && u in w.active && t != u ==> w.addrs[t][0] != w.addrs[u][0]
  }

  ghost predicate OwnAddress(addrs: seq<nat>, n: DataSize) {
    |addrs| == MAX_ACCESSES && Alone(addrs, addrs[0]) && Aligned(addrs[0], n) && addrs[0] < 0x1_0000_0000
  }

  /** Every list has one transaction, the one of plain coalescing. */
  ghost predicate Single(lists: Lists, m: Txns) {
    lists.Keys == m.Keys && forall b :: b in m ==> lists[b] == [m[b]]
  }

  lemma ScatteredInChunks(w: Lanes, n: DataSize, lo: nat, hi: nat)
    requires Scattered(w, n) && hi <= |w.addrs|
    ensures AllInChunk(w, n, lo, hi)
  {
    forall t: nat, a: nat | Issues(w, lo, hi, t, a) ensures InChunk(a, n) && a < 0x1_0000_0000 {
      AloneIssues(w.addrs[t], w.addrs[t][0]);
      AlignedInChunk(w.addrs[t][0], n);
    }
  }

  /** The bytes of a lane are free in the transaction of the lanes before it. */
  lemma BytesFree(w: Lanes, n: DataSize, seg: Seg, lo: nat, t: nat)
    requires Scattered(w, n) && lo <= t < |w.addrs| && t in w.active
    ensures var m, a := SubTxns(w, n, seg, lo, t), w.addrs[t][0];
            Tag(a, seg) in m ==> m[Tag(a, seg)].bytes !! Span(a % 128, n)
  {
    var m, a := SubTxns(w, n, seg, lo, t), w.addrs[t][0];
    var b := Tag(a, seg);
    ScatteredInChunks(w, n, lo, t);
    if b in m {
      forall k | k in m[b].bytes ensures k !in Span(a % 128, n) {
        ExactBytes(w, n, seg, lo, t, b, k);
        var u: nat, c: nat :| Touching(w, seg, lo, t, b, u, c) && c % 128 <= k < c % 128 + n;
        AloneIssues(w.addrs[u], w.addrs[u][0]);
        AlignedInChunk(c, n);
        AlignedApart(c, a, n, seg);
        PieceInSpan(c, n, k);
      }
    }
  }

  /** One lane more. */
  lemma SingleStep(lists: Lists, m: Txns, a: nat, n: DataSize, seg: Seg, t: nat)
    requires Single(lists, m) && (Tag(a, seg) in m ==> m[Tag(a, seg)].bytes !! Span(a % 128, n))
    ensures Single(AddItem(lists, Item(t, a), n, seg), Add(m, Mark(a, n, seg, t)))
  {
    var b := Tag(a, seg);
    if b in m {
      assert lists[b] == [m[b]] && [m[b]][1..] == [];
    }
  }

  lemma LaneAdds(m: Txns, addrs: seq<nat>, n: DataSize, seg: Seg, t: nat)
    requires OwnAddress(addrs, n)
    ensures AddLane(m, addrs, n, seg, t) == Add(m, Mark(addrs[0], n, seg, t))
  {
    AlignedInChunk(addrs[0], n);
    InChunkInside(addrs[0], n, seg);
    SameBlock(addrs[0], n, seg);
    assert addrs[1..][0] == 0;
  }

  lemma {:induction false} PlaceIsSingle(w: Lanes, n: DataSize, seg: Seg, lo: nat, hi: nat)
    requires Scattered(w, n) && hi <= |w.addrs|
    ensures Single(Place(Items(w, lo, hi), n, seg), SubTxns(w, n, seg, lo, hi))
    decreases hi
  {
    if lo < hi {
      var t := hi - 1;
      PlaceIsSingle(w, n, seg, lo, t);
      if t in w.active {
        BytesFree(w, n, seg, lo, t);
        PlaceSnoc(Items(w, lo, t), Item(t, w.addrs[t][0]), n, seg);
        LaneAdds(SubTxns(w, n, seg, lo, t), w.addrs[t], n, seg, t);
        SingleStep(Place(Items(w, lo, t), n, seg), SubTxns(w, n, seg, lo, t), w.addrs[t][0], n, seg, t);
      }
    }
  }

  lemma {:induction false} SingleQueued(q: seq<Access>, lists: Lists, m: Txns, left: set<nat>, seg: Seg)
    requires Single(lists, m) && left <= m.Keys
    ensures AppendLists(q, lists, left, seg) == Append(q, Requests(m, seg), left)
    decreases left
  {
    if left != {} {
      var b := Least(left);
      var list := lists[b];
      assert list[0] == m[b] && list[1..] == [];
      assert AppendList(q, list, b, seg) == q + [AccessFor(b, m[b], seg)];
      SingleQueued(q + [AccessFor(b, m[b], seg)], lists, m, left - {b}, seg);
    }
  }

  lemma SubwarpAlike(q: seq<Access>, w: Lanes, n: DataSize, seg: Seg, lo: nat, hi: nat)
    requires Scattered(w, n) && hi <= |w.addrs|
    ensures AppendAtomics(q, w, n, seg, lo, hi) == AppendSubwarp(q, w, n, seg, lo, hi)
  {
    var m := SubTxns(w, n, seg, lo, hi);
    PlaceIsSingle(w, n, seg, lo, hi);
    SingleQueued(q, Place(Items(w, lo, hi), n, seg), m, m.Keys, seg);
  }

  lemma {:induction false} WarpAlike(q: seq<Access>, w: Lanes, n: DataSize, seg: Seg, size: nat, parts: nat)
    requires Scattered(w, n) && size * parts <= |w.addrs|
    ensures AppendWarpAtomics(q, w, n, seg, size, parts) == AppendWarp(q, w, n, seg, size, parts)
  {
    if parts > 0 {
      Subwarps(size, parts, parts - 1, |w.addrs|);
      WarpAlike(q, w, n, seg, size, parts - 1);
      SubwarpAlike(AppendWarp(q, w, n, seg, size, parts - 1), w, n, seg, size * (parts - 1), size * parts);
    }
  }

  /** Atomics of lanes that each have an aligned address of their own queue what plain global accesses to the same
      addresses queue. */
  lemma AtomicsAlike(q: seq<Access>, w: Lanes, n: DataSize, arch: int, skipL1D: bool, cacheGlobal: bool, parts: nat)
    requires Scattered(w, n) && parts > 0
    ensures QueuedAtomics(q, w, n, arch, skipL1D, cacheGlobal, parts)
         == Queued(q, w, n, false, arch, skipL1D, cacheGlobal, parts)
  {
    WarpAlike(q, w, n, SegmentSize(SectorSegments(arch, skipL1D, cacheGlobal), n), |w.addrs| / parts, parts);
  }

  /** A stream of atomics needs the requests of a stream. */
  lemma AtomicStream(q: seq<Access>, w: Lanes, n: DataSize, arch: int, skipL1D: bool, cacheGlobal: bool, base: nat)
    requires Stream(w, n, base) && !BySectors(arch, skipL1D, cacheGlobal)
    ensures StreamQueued(q, QueuedAtomics(q, w, n, arch, skipL1D, cacheGlobal, 1), n, base)
  {
    forall t: nat | t < 32 ensures OwnAddress(w.addrs[t], n) {
      StreamAligned(n, base, t);
    }
    forall t: nat, u: nat | t < 32 && u < 32 && t != u ensures w.addrs[t][0] != w.addrs[u][0] {
      StreamApart(n, base, t, u);
    }
    AtomicsAlike(q, w, n, arch, skipL1D, cacheGlobal, 1);
    StreamRequests(q, w, n, false, arch, skipL1D, cacheGlobal, base);
  }

  lemma StreamApart(n: DataSize, base: nat, t: nat, u: nat)
    requires t != u
    ensures base + n * t != base + n * u
  {
  }

  lemma StreamAligned(n: DataSize, base: nat, t: nat)
    requires base % 128 == 0 && t < 32 && base + 32 * n <= 0x1_0000_0000
    ensures Aligned(base + n * t, n) && base + n * t < 0x1_0000_0000
  {
    StreamSplit(n, t);
    var q := base / 128;
    if n == 2 {
      DivMod(2, 64 * q + t, 0);
    } else if n == 4 {
      DivMod(4, 32 * q + t, 0);
    } else if n == 8 {
      DivMod(8, 16 * q + t, 0);
    } else if n == 16 {
      DivMod(16, 8 * q + t, 0);
    }
  }
}
