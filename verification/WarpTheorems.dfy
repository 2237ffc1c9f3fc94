/** What plain coalescing guarantees about the queue of a whole warp, all its subwarps together. */
module WarpTheorems {
  import opened Basics
  import opened Coalescing
  import opened PlainCoalescer
  import opened CoalescingTheorems
  import opened Footprint

  /** No request from index `from` on carries the lane. */
  ghost predicate FreeOf(q: seq<Access>, from: nat, lane: nat) {
    forall j :: from <= j < |q| ==> lane !in q[j].lanes
  }

  /** The requests of a subwarp carry only its own active lanes. */
  lemma SubwarpLanes(w: Lanes, n: DataSize, seg: Seg, lo: nat, hi: nat, b: nat, lane: nat)
    requires hi <= |w.addrs| && b in SubTxns(w, n, seg, lo, hi) && lane in SubTxns(w, n, seg, lo, hi)[b].lanes
    ensures lo <= lane < hi && lane in w.active
  {
    var ts := SubTouches(w, n, seg, lo, hi);
    SubwarpGathers(w, n, seg, lo, hi);
    var t :| t in ts && t.block == b && t.lane == lane;
    SubTouchesAre(w, n, seg, lo, hi, t);
  }

  lemma SubwarpFreeOf(q: seq<Access>, w: Lanes, n: DataSize, seg: Seg, lo: nat, hi: nat, lane: nat)
    requires hi <= |w.addrs| && !(lo <= lane < hi)
    ensures FreeOf(AppendSubwarp(q, w, n, seg, lo, hi), |q|, lane)
  {
    var m := SubTxns(w, n, seg, lo, hi);
    var q' := AppendSubwarp(q, w, n, seg, lo, hi);
    QueueGrows(q, m, seg);
    forall j | |q| <= j < |q'| ensures lane !in q'[j].lanes {
      QueueAt(q, m, seg, j - |q|);
      var b := SegmentAt(m, j - |q|);
      if lane in m[b].lanes {
        SubwarpLanes(w, n, seg, lo, hi, b, lane);
      }
    }
  }

  lemma SubwarpGrows(q: seq<Access>, w: Lanes, n: DataSize, seg: Seg, lo: nat, hi: nat)
    requires hi <= |w.addrs|
    ensures |q| <= |AppendSubwarp(q, w, n, seg, lo, hi)| && AppendSubwarp(q, w, n, seg, lo, hi)[..|q|] == q
  {
    QueueGrows(q, SubTxns(w, n, seg, lo, hi), seg);
  }

  /** Requests added behind that do not carry the lane change nothing for it. */
  lemma CoveredInFront(q: seq<Access>, q': seq<Access>, from: nat, lane: nat, addr: nat, n: DataSize)
    requires from <= |q| <= |q'| && q'[..|q|] == q && FreeOf(q', |q|, lane)
    ensures CoveredExactlyOnce(q', from, lane, addr, n) <==> CoveredExactlyOnce(q, from, lane, addr, n)
  {
    forall j: nat | j < |q| ensures q'[j] == q[j] {
    }
    if CoveredExactlyOnce(q, from, lane, addr, n) {
      var j: nat :| from <= j < |q| && Covers(q[j], lane, addr, n)
                    && forall i: nat :: from <= i < |q| && Covers(q[i], lane, addr, n) ==> i == j;
      assert Covers(q'[j], lane, addr, n);
      forall i: nat | from <= i < |q'| && Covers(q'[i], lane, addr, n) ensures i == j {
        assert i < |q| ==> Covers(q[i], lane, addr, n);
      }
    }
    if CoveredExactlyOnce(q', from, lane, addr, n) {
      var j: nat :| from <= j < |q'| && Covers(q'[j], lane, addr, n)
                    && forall i: nat :: from <= i < |q'| && Covers(q'[i], lane, addr, n) ==> i == j;
      assert Covers(q[j], lane, addr, n);
      forall i: nat | from <= i < |q| && Covers(q[i], lane, addr, n) ensures i == j {
        assert Covers(q'[i], lane, addr, n);
      }
    }
  }

  /** Requests in front that do not carry the lane change nothing for it. */
  lemma CoveredBehind(q: seq<Access>, from: nat, mid: nat, lane: nat, addr: nat, n: DataSize)
    requires from <= mid <= |q| && FreeOf(q[..mid], from, lane)
    ensures CoveredExactlyOnce(q, from, lane, addr, n) <==> CoveredExactlyOnce(q, mid, lane, addr, n)
  {
    forall i: nat | from <= i < mid ensures !Covers(q[i], lane, addr, n) {
      assert q[..mid][i] == q[i];
    }
  }

  lemma {:induction false} WarpGrows(q: seq<Access>, w: Lanes, n: DataSize, seg: Seg, size: nat, parts: nat)
    requires size * parts <= |w.addrs|
    ensures |q| <= |AppendWarp(q, w, n, seg, size, parts)| && AppendWarp(q, w, n, seg, size, parts)[..|q|] == q
  {
    if parts > 0 {
      Subwarps(size, parts, parts - 1, |w.addrs|);
      WarpGrows(q, w, n, seg, size, parts - 1);
      var before := AppendWarp(q, w, n, seg, size, parts - 1);
      SubwarpGrows(before, w, n, seg, size * (parts - 1), size * parts);
      assert AppendWarp(q, w, n, seg, size, parts)[..|before|][..|q|] == q;
    }
  }

  lemma {:induction false} WarpFreeOf(q: seq<Access>, w: Lanes, n: DataSize, seg: Seg, size: nat, parts: nat, lane: nat)
    requires size * parts <= |w.addrs| && lane >= size * parts
    ensures FreeOf(AppendWarp(q, w, n, seg, size, parts), |q|, lane)
  {
    if parts > 0 {
      Subwarps(size, parts, parts - 1, |w.addrs|);
      WarpFreeOf(q, w, n, seg, size, parts - 1, lane);
      WarpGrows(q, w, n, seg, size, parts - 1);
      var before := AppendWarp(q, w, n, seg, size, parts - 1);
      SubwarpFreeOf(before, w, n, seg, size * (parts - 1), size * parts, lane);
      SubwarpGrows(before, w, n, seg, size * (parts - 1), size * parts);
    }
  }

  /** One more subwarp keeps earlier lanes covered once and covers its own. */
  lemma CoverageStep(before: seq<Access>, from: nat, w: Lanes, n: DataSize, seg: Seg, lo: nat, hi: nat, lane: nat,
                     addr: nat)
    requires from <= |before| && lo <= hi <= |w.addrs| && Issues(w, 0, hi, lane, addr)
    requires InChunk(addr, n) && addr < 0x1_0000_0000
    requires if lane < lo then CoveredExactlyOnce(before, from, lane, addr, n) else FreeOf(before, from, lane)
    ensures CoveredExactlyOnce(AppendSubwarp(before, w, n, seg, lo, hi), from, lane, addr, n)
  {
    SubwarpGrows(before, w, n, seg, lo, hi);
    if lane < lo {
      SubwarpFreeOf(before, w, n, seg, lo, hi, lane);
    } else {
      assert Issues(w, lo, hi, lane, addr);
      Coverage(before, w, n, seg, lo, hi, lane, addr);
    }
    var after := AppendSubwarp(before, w, n, seg, lo, hi);
    if lane < lo {
      CoveredInFront(before, after, from, lane, addr, n);
    } else {
      CoveredBehind(after, from, |before|, lane, addr, n);
    }
  }

  /** Coverage over the whole warp: of all requests that the instruction queues, exactly one carries the lane's bit and
      holds all bytes of its access. */
  lemma {:induction false} WarpCoverage(q: seq<Access>, w: Lanes, n: DataSize, seg: Seg, size: nat, parts: nat,
                                        lane: nat, addr: nat)
    requires size * parts <= |w.addrs| && Issues(w, 0, size * parts, lane, addr)
    requires InChunk(addr, n) && addr < 0x1_0000_0000
    ensures CoveredExactlyOnce(AppendWarp(q, w, n, seg, size, parts), |q|, lane, addr, n)
  {
    if parts > 0 {
      Subwarps(size, parts, parts - 1, |w.addrs|);
      var lo, hi := size * (parts - 1), size * parts;
      WarpGrows(q, w, n, seg, size, parts - 1);
      if lane < lo {
        WarpCoverage(q, w, n, seg, size, parts - 1, lane, addr);
      } else {
        WarpFreeOf(q, w, n, seg, size, parts - 1, lane);
      }
      CoverageStep(AppendWarp(q, w, n, seg, size, parts - 1), |q|, w, n, seg, lo, hi, lane, addr);
    }
  }

  // ---------- the footprint of a whole warp ----------

  lemma SubwarpRequests(q: seq<Access>, w: Lanes, n: DataSize, seg: Seg, lo: nat, hi: nat)
    requires lo <= hi <= |w.addrs|
    ensures AppendSubwarp(q, w, n, seg, lo, hi) == q + AppendSubwarp([], w, n, seg, lo, hi)
    ensures AllRequests(AppendSubwarp([], w, n, seg, lo, hi))
  {
    var m := SubTxns(w, n, seg, lo, hi);
    AllSendable(w, n, seg, lo, hi);
    SubwarpInRange(w, n, seg, lo, hi);
    QueuedRequests(m, seg);
    AppendAfter(q, Requests(m, seg), m.Keys);
  }

  lemma RequestsStep(before: seq<Access>, from: nat, w: Lanes, n: DataSize, seg: Seg, lo: nat, hi: nat)
    requires lo <= hi <= |w.addrs| && from <= |before| && AllRequests(before[from..])
    ensures from <= |AppendSubwarp(before, w, n, seg, lo, hi)|
            && AllRequests(AppendSubwarp(before, w, n, seg, lo, hi)[from..])
  {
    SubwarpRequests(before, w, n, seg, lo, hi);
    var more := AppendSubwarp([], w, n, seg, lo, hi);
    assert (before + more)[from..] == before[from..] + more;
  }

  lemma {:induction false} WarpRequests(q: seq<Access>, w: Lanes, n: DataSize, seg: Seg, size: nat, parts: nat)
    requires size * parts <= |w.addrs|
    ensures |q| <= |AppendWarp(q, w, n, seg, size, parts)| && AllRequests(AppendWarp(q, w, n, seg, size, parts)[|q|..])
  {
    if parts > 0 {
      Subwarps(size, parts, parts - 1, |w.addrs|);
      WarpRequests(q, w, n, seg, size, parts - 1);
      RequestsStep(AppendWarp(q, w, n, seg, size, parts - 1), |q|, w, n, seg, size * (parts - 1), size * parts);
    }
  }

  /** The counters of any requests queued after the first `from`. */
  lemma QueueFootprint(all: seq<Access>, from: nat, lane: nat, addr: nat, n: DataSize, x: nat)
    requires from <= |all| && AllRequests(all[from..]) && CoveredExactlyOnce(all, from, lane, addr, n)
             && addr <= x < addr + n
    ensures Tag(x, 32) in AllWindows(all[from..], 32)
    ensures |AllWindows(all[from..], 128)| <= |AllWindows(all[from..], 32)| <= 4 * |AllWindows(all[from..], 128)|
    ensures 32 * |AllWindows(all[from..], 32)| <= TotalBytes(all[from..])
  {
    var queued := all[from..];
    var j: nat :| from <= j < |all| && Covers(all[j], lane, addr, n);
    assert queued[j - from] == all[j];
    ByteCounted(queued, j - from, x);
    WindowBounds(queued);
    WindowBytes(queued);
  }

  /** The counters for a whole warp in any number of parts: the windows fill the lines, they do not exceed the bytes
      requested, and the window of every byte that an active lane touches is counted. */
  lemma WarpFootprint(q: seq<Access>, w: Lanes, n: DataSize, seg: Seg, size: nat, parts: nat, lane: nat, addr: nat,
                      x: nat)
    requires size * parts <= |w.addrs| && Issues(w, 0, size * parts, lane, addr)
    requires InChunk(addr, n) && addr < 0x1_0000_0000 && addr <= x < addr + n
    ensures |q| <= |AppendWarp(q, w, n, seg, size, parts)|
    ensures var queued := AppendWarp(q, w, n, seg, size, parts)[|q|..];
            && Tag(x, 32) in AllWindows(queued, 32)
            && |AllWindows(queued, 128)| <= |AllWindows(queued, 32)| <= 4 * |AllWindows(queued, 128)|
            && 32 * |AllWindows(queued, 32)| <= TotalBytes(queued)
  {
    WarpRequests(q, w, n, seg, size, parts);
    WarpCoverage(q, w, n, seg, size, parts, lane, addr);
    QueueFootprint(AppendWarp(q, w, n, seg, size, parts), |q|, lane, addr, n, x);
  }
}
