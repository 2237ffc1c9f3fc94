/** Exactly when plain coalescing covers an access, for every input: chunks are marked by the first byte of an
    access, so one that spills into the next chunk is covered only if some other mark in its segment widens the
    request that far. */
module CoverageExact {
  import opened Basics
  import opened Coalescing
  import opened PlainCoalescer
  import opened CoalescingTheorems
  import opened Footprint
  import opened WarpTheorems

  /** A request widened from chunk `c` by chunk `d` also holds the chunk after `c`. */
  predicate Spreads(c: nat, d: nat) {
    if c == 1 then d >= 2 else d != c
  }

  ghost predicate SomeSpreads(c: nat, chunks: set<nat>) {
    exists d :: d in chunks && Spreads(c, d)
  }

  // ---------- one request ----------

  /** The request for the chunks of a segment holds the chunk after `c` exactly when some chunk spreads it that far. */
  lemma HoldsNext(chunks: set<nat>, segAddr: nat, seg: Seg, c: nat)
    requires Sendable(chunks, segAddr, seg) && c in chunks && c < 3 && ChunkFits(c + 1, segAddr, seg)
    ensures var (at, size) := Reduced(chunks, segAddr, seg);
            HoldsChunk(at, size, segAddr, c + 1) <==> SomeSpreads(c, chunks)
  {
    var (at, size) := Reduced(chunks, segAddr, seg);
    SegmentOffset(segAddr, seg);
    assert ChunkFits(c, segAddr, seg);
    forall d | d in chunks ensures d == 0 || d == 1 || d == 2 || d == 3 {
      assert ChunkFits(d, segAddr, seg);
    }
    ReducedChunks(chunks, segAddr, seg);
    if size == 32 {
      assert forall d :: d in chunks ==> d == c;
    } else if size == 64 {
      assert chunks <= {0, 1} || chunks <= {2, 3};
    } else {
      assert !(chunks <= {0, 1}) && !(chunks <= {2, 3});
    }
  }

  /** An access that spills into the next chunk of its segment: where it lies in its line. */
  lemma Spills(addr: nat, n: DataSize, seg: Seg)
    requires addr < 0x1_0000_0000 && Offset(addr, seg) + n <= seg && !InChunk(addr, n)
    ensures Chunk(addr) < 3 && ChunkFits(Chunk(addr) + 1, Tag(addr, seg), seg)
  {
    var b := Tag(addr, seg);
    TagExact(addr, seg);
    LineOffset(addr, seg);
    ChunkSplit(addr);
    TagLine(addr, seg);
    SegmentOffset(b, seg);
  }

  /** Where the chunk of `addr` ends. */
  lemma ChunkEdge(addr: nat) returns (edge: nat)
    ensures edge == addr - addr % 128 + 32 * Chunk(addr) + 32 && edge % 32 == 0
  {
    var q, c := addr / 128, Chunk(addr);
    edge := 128 * q + 32 * c + 32;
    OffsetIs(edge, 32, 4 * q + c + 1, 0);
  }

  lemma SpillAt(addr: nat, n: DataSize, seg: Seg, edge: nat)
    requires addr < 0x1_0000_0000 && !InChunk(addr, n) && edge == addr - addr % 128 + 32 * Chunk(addr) + 32
    ensures edge - 32 <= addr && edge < addr + n <= edge + 32
    ensures edge == Tag(addr, seg) - Tag(addr, seg) % 128 + 32 * Chunk(addr) + 32
  {
    ChunkSplit(addr);
    TagLine(addr, seg);
  }

  lemma OnChunks(at: nat, size: Seg)
    requires Offset(at, size) == 0
    ensures at % 32 == 0 && size % 32 == 0
  {
    OffsetSplit(at, size);
    if size == 64 {
      OffsetIs(at, 32, 2 * (at / 64), 0);
    } else if size == 128 {
      OffsetIs(at, 32, 4 * (at / 128), 0);
    }
  }

  /** The request of the segment of an access holds all its bytes exactly when the access stays in its chunk or the
      request spreads to the next one. */
  lemma HeldExact(chunks: set<nat>, addr: nat, n: DataSize, seg: Seg)
    requires addr < 0x1_0000_0000 && Offset(addr, seg) + n <= seg
    requires Sendable(chunks, Tag(addr, seg), seg) && Chunk(addr) in chunks
    ensures var (at, size) := Reduced(chunks, Tag(addr, seg), seg);
            at <= addr && addr + n <= at + size <==> InChunk(addr, n) || SomeSpreads(Chunk(addr), chunks)
  {
    var b := Tag(addr, seg);
    var (at, size) := Reduced(chunks, b, seg);
    ReducedServes(chunks, b, seg);
    if InChunk(addr, n) {
      ChunkHoldsAccess(at, size, addr, n, seg);
    } else {
      Spills(addr, n, seg);
      HoldsNext(chunks, b, seg, Chunk(addr));
      OnChunks(at, size);
      var edge := ChunkEdge(addr);
      SpillAt(addr, n, seg, edge);
    }
  }

  // ---------- one subwarp ----------

  /** Some access of the subwarp marks the segment of `addr` in a chunk that spreads the request to the chunk after that
      of `addr`. */
  ghost predicate Helped(w: Lanes, n: DataSize, seg: Seg, lo: nat, hi: nat, addr: nat)
    requires hi <= |w.addrs|
  {
    exists lane: nat, a: nat, t: Touch :: Issues(w, lo, hi, lane, a) && t in AccessTouches(a, n, seg, lane)
                                          && t.block == Tag(addr, seg) && Spreads(Chunk(addr), t.chunk)
  }

  /** When an access is covered: it has a 32-bit address, stays in its segment, and stays in its chunk or is helped. */
  ghost predicate Coverable(w: Lanes, n: DataSize, seg: Seg, lo: nat, hi: nat, addr: nat)
    requires hi <= |w.addrs|
  {
    addr < 0x1_0000_0000 && Offset(addr, seg) + n <= seg && (InChunk(addr, n) || Helped(w, n, seg, lo, hi, addr))
  }

  lemma HelpedExact(w: Lanes, n: DataSize, seg: Seg, lo: nat, hi: nat, addr: nat)
    requires lo <= hi <= |w.addrs| && Tag(addr, seg) in SubTxns(w, n, seg, lo, hi)
    ensures Helped(w, n, seg, lo, hi, addr)
       <==> SomeSpreads(Chunk(addr), SubTxns(w, n, seg, lo, hi)[Tag(addr, seg)].chunks)
  {
    var b, ts := Tag(addr, seg), SubTouches(w, n, seg, lo, hi);
    SubwarpGathers(w, n, seg, lo, hi);
    if lane: nat, a: nat, t: Touch :| Issues(w, lo, hi, lane, a) && t in AccessTouches(a, n, seg, lane)
                                      && t.block == b && Spreads(Chunk(addr), t.chunk) {
      SubTouchesAre(w, n, seg, lo, hi, t);
      assert t.chunk in Gather(ts, b).chunks;
    }
    if d :| d in Gather(ts, b).chunks && Spreads(Chunk(addr), d) {
      var t :| t in ts && t.block == b && t.chunk == d;
      SubTouchesAre(w, n, seg, lo, hi, t);
    }
  }

  /** A request that covers an access is the one of the access's segment. */
  lemma CoveringRequest(q: seq<Access>, m: Txns, n: DataSize, seg: Seg, lane: nat, addr: nat, j: nat)
    requires AllSend(m, seg) && InRange(m, seg) && j < |m| && |QueueOf(q, m, seg)| == |q| + |m|
    requires Covers(QueueOf(q, m, seg)[|q| + j], lane, addr, n)
    ensures addr < 0x1_0000_0000 && Offset(addr, seg) + n <= seg && SegmentAt(m, j) == Tag(addr, seg)
  {
    QueueAt(q, m, seg, j);
    var b := SegmentAt(m, j);
    ReducedServes(m[b].chunks, b, seg);
    OffsetSplit(b, seg);
    OffsetIs(addr, seg, b / seg, addr - b);
    TagExact(addr, seg);
  }

  /** The request of segment `b`. */
  lemma RequestOf(q: seq<Access>, m: Txns, seg: Seg, b: nat) returns (k: nat)
    requires b in m
    ensures k < |m| && |QueueOf(q, m, seg)| == |q| + |m| && SegmentAt(m, k) == b
    ensures QueueOf(q, m, seg)[|q| + k] == AccessFor(b, m[b], seg)
  {
    assert |m| == |m.Keys|;
    k := AscendingFind(m.Keys, b);
    QueueAt(q, m, seg, k);
  }

  ghost predicate FitsRequest(chunks: set<nat>, n: DataSize, seg: Seg, addr: nat) {
    && addr < 0x1_0000_0000 && Offset(addr, seg) + n <= seg
    && (InChunk(addr, n) || SomeSpreads(Chunk(addr), chunks))
  }

  lemma OwnRequestCovers(q: seq<Access>, m: Txns, n: DataSize, seg: Seg, lane: nat, addr: nat, k: nat)
    requires AllSend(m, seg) && InRange(m, seg) && k < |m| && |QueueOf(q, m, seg)| == |q| + |m|
    requires var b := Tag(addr, seg); b in m && lane in m[b].lanes && Chunk(addr) in m[b].chunks
    requires QueueOf(q, m, seg)[|q| + k] == AccessFor(Tag(addr, seg), m[Tag(addr, seg)], seg)
    ensures Covers(QueueOf(q, m, seg)[|q| + k], lane, addr, n) <==> FitsRequest(m[Tag(addr, seg)].chunks, n, seg, addr)
  {
    var b := Tag(addr, seg);
    if Covers(QueueOf(q, m, seg)[|q| + k], lane, addr, n) {
      CoveringRequest(q, m, n, seg, lane, addr, k);
    }
    if addr < 0x1_0000_0000 && Offset(addr, seg) + n <= seg {
      HeldExact(m[b].chunks, addr, n, seg);
    }
  }

  lemma CoveringIsOwn(q: seq<Access>, m: Txns, n: DataSize, seg: Seg, lane: nat, addr: nat, k: nat, j: nat)
    requires AllSend(m, seg) && InRange(m, seg) && |QueueOf(q, m, seg)| == |q| + |m|
    requires k < |m| && SegmentAt(m, k) == Tag(addr, seg)
    requires j < |m| && Covers(QueueOf(q, m, seg)[|q| + j], lane, addr, n)
    ensures j == k
  {
    CoveringRequest(q, m, n, seg, lane, addr, j);
    SameSegment(m, j, k);
  }

  /** The access is covered exactly once if and only if the request of its segment covers it. */
  lemma OnlyThere(q: seq<Access>, m: Txns, n: DataSize, seg: Seg, lane: nat, addr: nat, k: nat)
    requires AllSend(m, seg) && InRange(m, seg) && |QueueOf(q, m, seg)| == |q| + |m|
    requires k < |m| && SegmentAt(m, k) == Tag(addr, seg)
    ensures var q' := QueueOf(q, m, seg);
            CoveredExactlyOnce(q', |q|, lane, addr, n) <==> Covers(q'[|q| + k], lane, addr, n)
  {
    var q' := QueueOf(q, m, seg);
    forall i: nat | |q| <= i < |q'| && Covers(q'[i], lane, addr, n) ensures i == |q| + k {
      CoveringIsOwn(q, m, n, seg, lane, addr, k, i - |q|);
    }
  }

  lemma CoveredExactIn(q: seq<Access>, m: Txns, n: DataSize, seg: Seg, lane: nat, addr: nat)
    requires AllSend(m, seg) && InRange(m, seg)
    requires var b := Tag(addr, seg); b in m && lane in m[b].lanes && Chunk(addr) in m[b].chunks
    ensures CoveredExactlyOnce(QueueOf(q, m, seg), |q|, lane, addr, n)
       <==> FitsRequest(m[Tag(addr, seg)].chunks, n, seg, addr)
  {
    var k := RequestOf(q, m, seg, Tag(addr, seg));
    OwnRequestCovers(q, m, n, seg, lane, addr, k);
    OnlyThere(q, m, n, seg, lane, addr, k);
  }

  lemma SameSegment(m: Txns, i: nat, k: nat)
    requires i < |m| && k < |m| && SegmentAt(m, i) == SegmentAt(m, k)
    ensures i == k
  {
    assert |m| == |m.Keys|;
    if i < k {
      AscendingOrder(m.Keys, i, k);
    } else if k < i {
      AscendingOrder(m.Keys, k, i);
    }
  }

  /** For every subwarp and every access: exactly one request covers it if and only if it is coverable. */
  lemma CoverageIff(q: seq<Access>, w: Lanes, n: DataSize, seg: Seg, lo: nat, hi: nat, lane: nat, addr: nat)
    requires lo <= hi <= |w.addrs| && Issues(w, lo, hi, lane, addr)
    ensures CoveredExactlyOnce(AppendSubwarp(q, w, n, seg, lo, hi), |q|, lane, addr, n)
       <==> Coverable(w, n, seg, lo, hi, addr)
  {
    var m := SubTxns(w, n, seg, lo, hi);
    AllSendable(w, n, seg, lo, hi);
    SubwarpInRange(w, n, seg, lo, hi);
    MarkedInSegment(w, n, seg, lo, hi, lane, addr);
    HelpedExact(w, n, seg, lo, hi, addr);
    CoveredExactIn(q, m, n, seg, lane, addr);
  }

  // ---------- the whole warp ----------

  lemma OwnPart(before: seq<Access>, from: nat, w: Lanes, n: DataSize, seg: Seg, lo: nat, hi: nat, lane: nat, addr: nat)
    requires from <= |before| && lo <= hi <= |w.addrs| && Issues(w, lo, hi, lane, addr) && FreeOf(before, from, lane)
    ensures CoveredExactlyOnce(AppendSubwarp(before, w, n, seg, lo, hi), from, lane, addr, n)
       <==> Coverable(w, n, seg, lo, hi, addr)
  {
    SubwarpGrows(before, w, n, seg, lo, hi);
    CoverageIff(before, w, n, seg, lo, hi, lane, addr);
    CoveredBehind(AppendSubwarp(before, w, n, seg, lo, hi), from, |before|, lane, addr, n);
  }

  lemma LaterPart(before: seq<Access>, from: nat, w: Lanes, n: DataSize, seg: Seg, lo: nat, hi: nat, lane: nat,
                  addr: nat)
    requires from <= |before| && lo <= hi <= |w.addrs| && lane < lo
    ensures CoveredExactlyOnce(AppendSubwarp(before, w, n, seg, lo, hi), from, lane, addr, n)
       <==> CoveredExactlyOnce(before, from, lane, addr, n)
  {
    SubwarpGrows(before, w, n, seg, lo, hi);
    SubwarpFreeOf(before, w, n, seg, lo, hi, lane);
    CoveredInFront(before, AppendSubwarp(before, w, n, seg, lo, hi), from, lane, addr, n);
  }

  lemma Earlier(size: nat, k: nat, parts: nat)
    requires k < parts
    ensures 0 <= size * k <= size * (k + 1) <= size * parts
  {
    Subwarps(size, parts, k, size * parts);
  }

  lemma LastPartIff(q: seq<Access>, w: Lanes, n: DataSize, seg: Seg, size: nat, k: nat, lane: nat, addr: nat)
    requires 0 <= size * k <= size * (k + 1) <= |w.addrs| && Issues(w, size * k, size * (k + 1), lane, addr)
    ensures CoveredExactlyOnce(AppendWarp(q, w, n, seg, size, k + 1), |q|, lane, addr, n)
       <==> Coverable(w, n, seg, size * k, size * (k + 1), addr)
  {
    WarpGrows(q, w, n, seg, size, k);
    WarpFreeOf(q, w, n, seg, size, k, lane);
    OwnPart(AppendWarp(q, w, n, seg, size, k), |q|, w, n, seg, size * k, size * (k + 1), lane, addr);
  }

  /** One more subwarp changes nothing for the lanes before it. */
  lemma EarlierPartIff(q: seq<Access>, w: Lanes, n: DataSize, seg: Seg, size: nat, k: nat, lane: nat, addr: nat)
    requires 0 <= size * k <= size * (k + 1) <= |w.addrs| && lane < size * k
    ensures CoveredExactlyOnce(AppendWarp(q, w, n, seg, size, k + 1), |q|, lane, addr, n)
       <==> CoveredExactlyOnce(AppendWarp(q, w, n, seg, size, k), |q|, lane, addr, n)
  {
    WarpGrows(q, w, n, seg, size, k);
    LaterPart(AppendWarp(q, w, n, seg, size, k), |q|, w, n, seg, size * k, size * (k + 1), lane, addr);
  }

  /** For every warp and every access of its subwarp number `k`: of all requests that the instruction queues,
      exactly one covers the access if and only if it is coverable in its subwarp. */
  lemma {:induction false} WarpCoverageIff(q: seq<Access>, w: Lanes, n: DataSize, seg: Seg, size: nat, parts: nat,
                                           k: nat, lane: nat, addr: nat)
    requires size * parts <= |w.addrs| && k < parts && 0 <= size * k <= size * (k + 1) <= |w.addrs|
    requires Issues(w, size * k, size * (k + 1), lane, addr)
    ensures CoveredExactlyOnce(AppendWarp(q, w, n, seg, size, parts), |q|, lane, addr, n)
       <==> Coverable(w, n, seg, size * k, size * (k + 1), addr)
    decreases parts
  {
    Subwarps(size, parts, parts - 1, |w.addrs|);
    if k == parts - 1 {
      LastPartIff(q, w, n, seg, size, k, lane, addr);
    } else {
      Earlier(size, k, parts - 1);
      WarpCoverageIff(q, w, n, seg, size, parts - 1, k, lane, addr);
      EarlierPartIff(q, w, n, seg, size, parts - 1, lane, addr);
    }
  }

  // ---------- consequences ----------

  /** No lane of the subwarp issues another address. */
  ghost predicate OnlyAddress(w: Lanes, lo: nat, hi: nat, addr: nat)
    requires hi <= |w.addrs|
  {
    forall lane: nat, a: nat :: Issues(w, lo, hi, lane, a) ==> a == addr
  }

  /** An access that no other address helps is covered exactly when it stays in a chunk and has a 32-bit address. */
  lemma LoneCoverage(q: seq<Access>, w: Lanes, n: DataSize, seg: Seg, lo: nat, hi: nat, lane: nat, addr: nat)
    requires lo <= hi <= |w.addrs| && Issues(w, lo, hi, lane, addr) && OnlyAddress(w, lo, hi, addr)
    ensures CoveredExactlyOnce(AppendSubwarp(q, w, n, seg, lo, hi), |q|, lane, addr, n)
       <==> InChunk(addr, n) && addr < 0x1_0000_0000
  {
    CoverageIff(q, w, n, seg, lo, hi, lane, addr);
    if InChunk(addr, n) {
      InChunkInside(addr, n, seg);
    }
  }

  /** Lane 0 reads four bytes from 30 on; lane 1, if active, from 32 on. */
  const TWO_LANES: seq<seq<nat>> := [[30, 0, 0, 0, 0, 0, 0, 0], [32, 0, 0, 0, 0, 0, 0, 0]]

  /** Alone, lane 0 is not covered: its request is bytes 0 to 31. */
  lemma SpilledAccessLost(q: seq<Access>, w: Lanes)
    requires w.addrs == TWO_LANES && w.active == {0}
    ensures !CoveredExactlyOnce(AppendSubwarp(q, w, 4, 128, 0, 2), |q|, 0, 30, 4)
  {
    forall lane: nat, a: nat ensures Issues(w, 0, 2, lane, a) <==> lane == 0 && a == 30 {
    }
    LoneCoverage(q, w, 4, 128, 0, 2, 0, 30);
  }

  lemma LaneOneHelps(w: Lanes)
    requires w.addrs == TWO_LANES && w.active == {0, 1}
    ensures Helped(w, 4, 128, 0, 2, 30)
  {
    var t := Mark(32, 4, 128, 1);
    assert t in AccessTouches(32, 4, 128, 1);
    assert t.block == 0 && Tag(30, 128) == 0 && t.chunk == 1 && Chunk(30) == 0;
  }

  /** With lane 1 active it is: the request is bytes 0 to 63. */
  lemma SpilledAccessHelped(q: seq<Access>, w: Lanes)
    requires w.addrs == TWO_LANES && w.active == {0, 1}
    ensures CoveredExactlyOnce(AppendSubwarp(q, w, 4, 128, 0, 2), |q|, 0, 30, 4)
  {
    LaneOneHelps(w);
    CoverageIff(q, w, 4, 128, 0, 2, 0, 30);
  }
}
