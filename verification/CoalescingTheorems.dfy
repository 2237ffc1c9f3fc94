/** What plain coalescing guarantees about the queue of one subwarp: coverage, disjointness, exact masks, and
    independence from which lane issues which address. */
module CoalescingTheorems {
  import opened Basics
  import opened Coalescing
  import opened PlainCoalescer

  // ---------- the queue by index ----------

  lemma {:induction false} AppendGrows(q: seq<Access>, r: map<nat, Access>, left: set<nat>)
    requires left <= r.Keys
    ensures |Append(q, r, left)| == |q| + |left| && Append(q, r, left)[..|q|] == q
    decreases left
  {
    if left != {} {
      var q1 := q + [r[Least(left)]];
      AppendGrows(q1, r, left - {Least(left)});
      assert Append(q, r, left)[..|q1|][..|q|] == q;
    }
  }

  lemma {:induction false} AppendAt(q: seq<Access>, r: map<nat, Access>, left: set<nat>, j: nat)
    requires left <= r.Keys && j < |left|
    ensures |Append(q, r, left)| == |q| + |left|
    ensures Ascending(left)[j] in left && Append(q, r, left)[|q| + j] == r[Ascending(left)[j]]
    decreases left
  {
    var q1, rest := q + [r[Least(left)]], left - {Least(left)};
    AscendingIn(left, j);
    if j == 0 {
      AppendGrows(q1, r, rest);
      assert Append(q1, r, rest)[..|q1|][|q|] == r[Least(left)];
    } else {
      AppendAt(q1, r, rest, j - 1);
    }
  }

  /** The queue after the transactions `m`. */
  ghost function QueueOf(q: seq<Access>, m: Txns, seg: Seg): (q': seq<Access>) {
    Append(q, Requests(m, seg), m.Keys)
  }

  /** The segment of the `j`-th request. */
  ghost function SegmentAt(m: Txns, j: nat): (b: nat)
    requires j < |m|
  {
    Ascending(m.Keys)[j]
  }

  /** The queue grows by one request per touched segment. */
  lemma QueueAt(q: seq<Access>, m: Txns, seg: Seg, j: nat)
    requires j < |m|
    ensures |QueueOf(q, m, seg)| == |q| + |m|
    ensures SegmentAt(m, j) in m && QueueOf(q, m, seg)[|q| + j] == AccessFor(SegmentAt(m, j), m[SegmentAt(m, j)], seg)
  {
    assert |m| == |m.Keys|;
    AppendAt(q, Requests(m, seg), m.Keys, j);
  }

  lemma QueueGrows(q: seq<Access>, m: Txns, seg: Seg)
    ensures |QueueOf(q, m, seg)| == |q| + |m| && QueueOf(q, m, seg)[..|q|] == q
  {
    assert |m| == |m.Keys|;
    AppendGrows(q, Requests(m, seg), m.Keys);
  }

  /** Requests are in ascending order and do not overlap. */
  lemma RequestsApart(q: seq<Access>, m: Txns, seg: Seg, i: nat, j: nat)
    requires AllSend(m, seg) && i < j < |m|
    ensures |QueueOf(q, m, seg)| == |q| + |m|
    ensures var q' := QueueOf(q, m, seg); q'[|q| + i].addr + q'[|q| + i].size <= q'[|q| + j].addr
  {
    var a, b := SegmentAt(m, i), SegmentAt(m, j);
    QueueAt(q, m, seg, i);
    QueueAt(q, m, seg, j);
    AscendingOrder(m.Keys, i, j);
    BlocksApart(a, b, seg);
    ReducedServes(m[a].chunks, a, seg);
    ReducedServes(m[b].chunks, b, seg);
  }

  lemma BlocksApart(a: nat, b: nat, seg: Seg)
    requires a < b && Offset(a, seg) == 0 && Offset(b, seg) == 0
    ensures a + seg <= b
  {
    OffsetSplit(a, seg);
    OffsetSplit(b, seg);
  }

  // ---------- coverage ----------

  /** The mark of an access is in its segment's transaction. */
  lemma MarkedInSegment(w: Lanes, n: DataSize, seg: Seg, lo: nat, hi: nat, lane: nat, addr: nat)
    requires lo <= hi <= |w.addrs| && Issues(w, lo, hi, lane, addr)
    ensures var m, b := SubTxns(w, n, seg, lo, hi), Tag(addr, seg);
            b in m && lane in m[b].lanes && Chunk(addr) in m[b].chunks && Span(addr % 128, n) <= m[b].bytes
  {
    var t, ts := Mark(addr, n, seg, lane), SubTouches(w, n, seg, lo, hi);
    assert t in AccessTouches(addr, n, seg, lane);
    SubTouchesAre(w, n, seg, lo, hi, t);
    SubwarpGathers(w, n, seg, lo, hi);
    assert t.block in Blocks(ts);
    var x := Gather(ts, t.block);
    assert t.lane in x.lanes && t.chunk in x.chunks;
    assert t.bytes <= x.bytes;
  }

  /** A request that holds the chunk of an access holds all its bytes. */
  lemma ChunkHoldsAccess(at: nat, size: nat, addr: nat, n: DataSize, seg: Seg)
    requires InChunk(addr, n) && addr < 0x1_0000_0000 && HoldsChunk(at, size, Tag(addr, seg), Chunk(addr))
    ensures at <= addr && addr + n <= at + size
  {
    InChunkInside(addr, n, seg);
    ChunkSplit(addr);
    TagLine(addr, seg);
  }

  lemma TagLine(addr: nat, seg: Seg)
    requires addr < 0x1_0000_0000
    ensures Tag(addr, seg) - Tag(addr, seg) % 128 == addr - addr % 128
  {
    TagExact(addr, seg);
    LineOffset(addr, seg);
  }

  ghost predicate Covers(a: Access, lane: nat, addr: nat, n: DataSize) {
    lane in a.lanes && a.addr <= addr && addr + n <= a.addr + a.size
  }

  /** One request from index `from` on, and only one, carries the lane's bit and holds all its bytes. */
  ghost predicate CoveredExactlyOnce(q: seq<Access>, from: nat, lane: nat, addr: nat, n: DataSize) {
    exists j: nat :: from <= j < |q| && Covers(q[j], lane, addr, n)
                     && forall i: nat :: from <= i < |q| && Covers(q[i], lane, addr, n) ==> i == j
  }

  lemma Covered(q: seq<Access>, m: Txns, n: DataSize, seg: Seg, lane: nat, addr: nat) returns (k: nat)
    requires AllSend(m, seg) && InChunk(addr, n) && addr < 0x1_0000_0000
    requires var b := Tag(addr, seg); b in m && lane in m[b].lanes && Chunk(addr) in m[b].chunks
    ensures k < |m| && |QueueOf(q, m, seg)| == |q| + |m| && Covers(QueueOf(q, m, seg)[|q| + k], lane, addr, n)
  {
    var b := Tag(addr, seg);
    assert |m| == |m.Keys|;
    k := AscendingFind(m.Keys, b);
    QueueAt(q, m, seg, k);
    ReducedServes(m[b].chunks, b, seg);
    var (at, size) := Reduced(m[b].chunks, b, seg);
    ChunkHoldsAccess(at, size, addr, n, seg);
  }

  lemma CoveredOnce(q: seq<Access>, m: Txns, n: DataSize, seg: Seg, lane: nat, addr: nat, i: nat, k: nat)
    requires AllSend(m, seg) && i < |m| && k < |m| && |QueueOf(q, m, seg)| == |q| + |m|
    requires Covers(QueueOf(q, m, seg)[|q| + i], lane, addr, n) && Covers(QueueOf(q, m, seg)[|q| + k], lane, addr, n)
    ensures i == k
  {
    if i < k {
      RequestsApart(q, m, seg, i, k);
    } else if k < i {
      RequestsApart(q, m, seg, k, i);
    }
  }

  /** Every access of every active lane that stays in a chunk is covered by exactly one request of its subwarp. */
  lemma Coverage(q: seq<Access>, w: Lanes, n: DataSize, seg: Seg, lo: nat, hi: nat, lane: nat, addr: nat)
    requires lo <= hi <= |w.addrs| && Issues(w, lo, hi, lane, addr)
    requires InChunk(addr, n) && addr < 0x1_0000_0000
    ensures CoveredExactlyOnce(AppendSubwarp(q, w, n, seg, lo, hi), |q|, lane, addr, n)
  {
    var m := SubTxns(w, n, seg, lo, hi);
    AllSendable(w, n, seg, lo, hi);
    MarkedInSegment(w, n, seg, lo, hi, lane, addr);
    CoverageIn(q, m, n, seg, lane, addr);
  }

  lemma CoverageIn(q: seq<Access>, m: Txns, n: DataSize, seg: Seg, lane: nat, addr: nat)
    requires AllSend(m, seg) && InChunk(addr, n) && addr < 0x1_0000_0000
    requires var b := Tag(addr, seg); b in m && lane in m[b].lanes && Chunk(addr) in m[b].chunks
    ensures CoveredExactlyOnce(QueueOf(q, m, seg), |q|, lane, addr, n)
  {
    var k := Covered(q, m, n, seg, lane, addr);
    var q' := QueueOf(q, m, seg);
    forall i: nat | |q| <= i < |q'| && Covers(q'[i], lane, addr, n) ensures i == |q| + k {
      CoveredOnce(q, m, n, seg, lane, addr, i - |q|, k);
    }
  }

  // ---------- tightness ----------

  /** All accesses of the subwarp stay in a chunk, as naturally aligned ones do, and have 32-bit addresses. */
  ghost predicate AllInChunk(w: Lanes, n: DataSize, lo: nat, hi: nat)
    requires hi <= |w.addrs|
  {
    forall lane: nat, addr: nat :: Issues(w, lo, hi, lane, addr) ==> InChunk(addr, n) && addr < 0x1_0000_0000
  }

  /** The crossing branch is never taken for an access that stays in a chunk: it leaves one mark. */
  lemma OneTouch(addr: nat, n: DataSize, seg: Seg, lane: nat)
    requires InChunk(addr, n)
    ensures AccessTouches(addr, n, seg, lane) == {Mark(addr, n, seg, lane)}
  {
    InChunkInside(addr, n, seg);
    SameBlock(addr, n, seg);
  }

  /** Some lane touches the segment `b` at `addr`. */
  ghost predicate Touching(w: Lanes, seg: Seg, lo: nat, hi: nat, b: nat, lane: nat, addr: nat)
    requires hi <= |w.addrs|
  {
    Issues(w, lo, hi, lane, addr) && Tag(addr, seg) == b
  }

  /** A segment has a transaction, and a transaction a lane, exactly when the segment is touched. */
  lemma ExactLanes(w: Lanes, n: DataSize, seg: Seg, lo: nat, hi: nat, b: nat, lane: nat)
    requires lo <= hi <= |w.addrs| && AllInChunk(w, n, lo, hi)
    ensures var m := SubTxns(w, n, seg, lo, hi);
            (b in m && lane in m[b].lanes) <==> exists addr: nat :: Touching(w, seg, lo, hi, b, lane, addr)
  {
    var m, ts := SubTxns(w, n, seg, lo, hi), SubTouches(w, n, seg, lo, hi);
    SubwarpGathers(w, n, seg, lo, hi);
    if addr: nat :| Touching(w, seg, lo, hi, b, lane, addr) {
      MarkedInSegment(w, n, seg, lo, hi, lane, addr);
    } else if b in m && lane in m[b].lanes {
      var t :| t in ts && t.block == b && t.lane == lane;
      var l, addr := TouchSource(w, n, seg, lo, hi, t);
    }
  }

  /** The sector mask is exactly the touched chunks. */
  lemma ExactChunks(w: Lanes, n: DataSize, seg: Seg, lo: nat, hi: nat, b: nat, c: nat)
    requires lo <= hi <= |w.addrs| && AllInChunk(w, n, lo, hi)
    ensures var m := SubTxns(w, n, seg, lo, hi);
            (b in m && c in m[b].chunks) <==>
            exists lane: nat, addr: nat :: Touching(w, seg, lo, hi, b, lane, addr) && Chunk(addr) == c
  {
    var m, ts := SubTxns(w, n, seg, lo, hi), SubTouches(w, n, seg, lo, hi);
    SubwarpGathers(w, n, seg, lo, hi);
    if lane: nat, addr: nat :| Touching(w, seg, lo, hi, b, lane, addr) && Chunk(addr) == c {
      MarkedInSegment(w, n, seg, lo, hi, lane, addr);
    } else if b in m && c in m[b].chunks {
      var t :| t in ts && t.block == b && t.chunk == c;
      var lane, addr := TouchSource(w, n, seg, lo, hi, t);
    }
  }

  /** The byte mask is exactly the touched bytes, modulo 128. */
  lemma ExactBytes(w: Lanes, n: DataSize, seg: Seg, lo: nat, hi: nat, b: nat, k: nat)
    requires lo <= hi <= |w.addrs| && AllInChunk(w, n, lo, hi)
    ensures var m := SubTxns(w, n, seg, lo, hi);
            (b in m && k in m[b].bytes) <==>
            exists lane: nat, addr: nat :: Touching(w, seg, lo, hi, b, lane, addr) && addr % 128 <= k < addr % 128 + n
  {
    var m, ts := SubTxns(w, n, seg, lo, hi), SubTouches(w, n, seg, lo, hi);
    SubwarpGathers(w, n, seg, lo, hi);
    if lane: nat, addr: nat :| Touching(w, seg, lo, hi, b, lane, addr) && addr % 128 <= k < addr % 128 + n {
      MarkedInSegment(w, n, seg, lo, hi, lane, addr);
      InChunkInside(addr, n, seg);
      SpanIs(addr % 128, n);
    } else if b in m && k in m[b].bytes {
      var t :| t in ts && t.block == b && k in t.bytes;
      var lane, addr := TouchSource(w, n, seg, lo, hi, t);
      SpanIs(addr % 128, n);
    }
  }

  lemma TouchSource(w: Lanes, n: DataSize, seg: Seg, lo: nat, hi: nat, t: Touch) returns (lane: nat, addr: nat)
    requires lo <= hi <= |w.addrs| && AllInChunk(w, n, lo, hi) && t in SubTouches(w, n, seg, lo, hi)
    ensures Touching(w, seg, lo, hi, t.block, lane, addr) && t == Mark(addr, n, seg, lane)
  {
    SubTouchesAre(w, n, seg, lo, hi, t);
    lane, addr :| Issues(w, lo, hi, lane, addr) && t in AccessTouches(addr, n, seg, lane);
    OneTouch(addr, n, seg, lane);
  }

  ghost predicate IsSmallest(a: Access, b: nat, x: Txn, seg: Seg) {
    && (a.chunks, a.bytes, a.lanes) == (x.chunks, x.bytes, x.lanes)
    && (a.size == 32 || a.size == 64 || a.size == 128)
    && Serves(a.addr, a.size, b, x.chunks) && b <= a.addr && a.addr + a.size <= b + seg
    && forall at: nat, size: Seg :: Serves(at, size, b, x.chunks) ==> a.size < size || (a.size == size && a.addr == at)
  }

  /** Each queued request is the smallest naturally aligned one, of 32, 64 or 128 bytes, that serves the touched
      chunks of its segment; it lies in that segment and carries the segment's masks. */
  lemma SmallestRequest(q: seq<Access>, w: Lanes, n: DataSize, seg: Seg, lo: nat, hi: nat, j: nat)
    requires lo <= hi <= |w.addrs| && j < |SubTxns(w, n, seg, lo, hi)|
    ensures var q', m := AppendSubwarp(q, w, n, seg, lo, hi), SubTxns(w, n, seg, lo, hi);
            && |q'| == |q| + |m| && SegmentAt(m, j) in m
            && IsSmallest(q'[|q| + j], SegmentAt(m, j), m[SegmentAt(m, j)], seg)
  {
    AllSendable(w, n, seg, lo, hi);
    SmallestIn(q, SubTxns(w, n, seg, lo, hi), seg, j);
  }

  lemma SmallestIn(q: seq<Access>, m: Txns, seg: Seg, j: nat)
    requires AllSend(m, seg) && j < |m|
    ensures |QueueOf(q, m, seg)| == |q| + |m| && SegmentAt(m, j) in m
    ensures IsSmallest(QueueOf(q, m, seg)[|q| + j], SegmentAt(m, j), m[SegmentAt(m, j)], seg)
  {
    QueueAt(q, m, seg, j);
    ReducedIsLeast(m[SegmentAt(m, j)].chunks, SegmentAt(m, j), seg);
  }

  // ---------- independence from lane order ----------

  ghost predicate IssuedBySome(w: Lanes, lo: nat, hi: nat, addr: nat)
    requires hi <= |w.addrs|
  {
    exists lane: nat :: Issues(w, lo, hi, lane, addr)
  }

  /** Both subwarps issue the same addresses, whichever lanes issue them. */
  ghost predicate SameAddresses(v: Lanes, w: Lanes, lo: nat, hi: nat)
    requires hi <= |v.addrs| && hi <= |w.addrs|
  {
    forall addr: nat :: IssuedBySome(v, lo, hi, addr) <==> IssuedBySome(w, lo, hi, addr)
  }

  lemma SameTouches(v: Lanes, w: Lanes, n: DataSize, seg: Seg, lo: nat, hi: nat, t: Touch) returns (u: Touch)
    requires lo <= hi <= |v.addrs| && hi <= |w.addrs| && SameAddresses(v, w, lo, hi)
             && t in SubTouches(v, n, seg, lo, hi)
    ensures u in SubTouches(w, n, seg, lo, hi) && u == t.(lane := u.lane)
  {
    SubTouchesAre(v, n, seg, lo, hi, t);
    var lane: nat, addr: nat :| Issues(v, lo, hi, lane, addr) && t in AccessTouches(addr, n, seg, lane);
    assert IssuedBySome(v, lo, hi, addr);
    assert IssuedBySome(w, lo, hi, addr);
    var other: nat :| Issues(w, lo, hi, other, addr);
    u := t.(lane := other);
    TouchByOther(addr, n, seg, lane, other, t);
    SubTouchesAre(w, n, seg, lo, hi, u);
  }

  lemma TouchByOther(addr: nat, n: DataSize, seg: Seg, lane: nat, other: nat, t: Touch)
    requires t in AccessTouches(addr, n, seg, lane)
    ensures t.(lane := other) in AccessTouches(addr, n, seg, other)
  {
  }

  lemma MaskInclusion(v: Lanes, w: Lanes, n: DataSize, seg: Seg, lo: nat, hi: nat)
    requires lo <= hi <= |v.addrs| && hi <= |w.addrs| && SameAddresses(v, w, lo, hi)
    ensures var ts, us := SubTouches(v, n, seg, lo, hi), SubTouches(w, n, seg, lo, hi);
            && Blocks(ts) <= Blocks(us)
            && forall b :: Gather(ts, b).chunks <= Gather(us, b).chunks && Gather(ts, b).bytes <= Gather(us, b).bytes
  {
    var ts, us := SubTouches(v, n, seg, lo, hi), SubTouches(w, n, seg, lo, hi);
    forall t | t in ts ensures exists u :: u in us && u == t.(lane := u.lane) {
      var u := SameTouches(v, w, n, seg, lo, hi, t);
    }
    forall b ensures Gather(ts, b).chunks <= Gather(us, b).chunks && Gather(ts, b).bytes <= Gather(us, b).bytes {
    }
  }

  /** Transactions with the same masks give the same requests, lane masks aside. */
  lemma SameQueue(q: seq<Access>, m: Txns, m': Txns, seg: Seg, j: nat)
    requires m.Keys == m'.Keys && forall b :: b in m ==> m[b].chunks == m'[b].chunks && m[b].bytes == m'[b].bytes
    ensures |QueueOf(q, m, seg)| == |QueueOf(q, m', seg)|
    ensures j < |QueueOf(q, m, seg)| ==> QueueOf(q, m, seg)[j].(lanes := {}) == QueueOf(q, m', seg)[j].(lanes := {})
  {
    QueueGrows(q, m, seg);
    QueueGrows(q, m', seg);
    assert |m| == |m.Keys| == |m'|;
    if j < |q| {
      assert QueueOf(q, m, seg)[..|q|][j] == QueueOf(q, m', seg)[..|q|][j];
    } else if j < |q| + |m| {
      SameRequest(q, m, m', seg, j - |q|);
    }
  }

  lemma SameRequest(q: seq<Access>, m: Txns, m': Txns, seg: Seg, j: nat)
    requires m.Keys == m'.Keys && |m| == |m'| && j < |m|
    requires forall b :: b in m ==> m[b].chunks == m'[b].chunks && m[b].bytes == m'[b].bytes
    ensures |QueueOf(q, m, seg)| == |QueueOf(q, m', seg)| == |q| + |m|
    ensures QueueOf(q, m, seg)[|q| + j].(lanes := {}) == QueueOf(q, m', seg)[|q| + j].(lanes := {})
  {
    QueueAt(q, m, seg, j);
    QueueAt(q, m', seg, j);
  }

  /** Two subwarps that issue the same addresses queue the same requests, lane masks aside. */
  lemma LaneOrderIndependence(q: seq<Access>, v: Lanes, w: Lanes, n: DataSize, seg: Seg, lo: nat, hi: nat, j: nat)
    requires lo <= hi <= |v.addrs| && hi <= |w.addrs| && SameAddresses(v, w, lo, hi)
    ensures |AppendSubwarp(q, v, n, seg, lo, hi)| == |AppendSubwarp(q, w, n, seg, lo, hi)|
    ensures j < |AppendSubwarp(q, v, n, seg, lo, hi)| ==>
              AppendSubwarp(q, v, n, seg, lo, hi)[j].(lanes := {})
                  == AppendSubwarp(q, w, n, seg, lo, hi)[j].(lanes := {})
  {
    MaskInclusion(v, w, n, seg, lo, hi);
    MaskInclusion(w, v, n, seg, lo, hi);
    SubwarpGathers(v, n, seg, lo, hi);
    SubwarpGathers(w, n, seg, lo, hi);
    SameQueue(q, SubTxns(v, n, seg, lo, hi), SubTxns(w, n, seg, lo, hi), seg, j);
  }
}
