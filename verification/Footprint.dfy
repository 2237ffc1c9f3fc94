/** The footprint counters of global accesses (src/abstract_hardware_model.cc, end of generate_mem_accesses): how many
    32-byte and 128-byte windows the newly queued requests touch. */
module Footprint {
  import opened Basics
  import opened Coalescing
  import opened PlainCoalescer
  import opened CoalescingTheorems
  import opened AtomicCoalescer

  /** The values of `f` in steps of a sector over `size` bytes from `addr` on. */
  ghost function Walk(f: nat -> nat, addr: nat, size: int): (s: set<nat>)
    decreases size
  {
    if size <= 0 then {} else {f(addr)} + Walk(f, addr + SECTOR_SIZE, size - SECTOR_SIZE)
  }

  ghost function WalkAll(f: nat -> nat, q: seq<Access>): (s: set<nat>) {
    if q == [] then {} else WalkAll(f, q[..|q| - 1]) + Walk(f, q[|q| - 1].addr, q[|q| - 1].size)
  }

  /** The window of `seg` bytes of each address. */
  function Tagger(seg: Seg): (f: nat -> nat) {
    (x: nat) => Tag(x, seg)
  }

  /** The windows of `seg` bytes met over `size` bytes from `addr` on. */
  ghost function Windows(addr: nat, size: int, seg: Seg): (s: set<nat>) {
    Walk(Tagger(seg), addr, size)
  }

  ghost function AllWindows(q: seq<Access>, seg: Seg): (s: set<nat>) {
    WalkAll(Tagger(seg), q)
  }

  /** A request as coalescing queues it. */
  ghost predicate IsRequest(a: Access) {
    (a.size == 32 || a.size == 64 || a.size == 128) && Offset(a.addr, a.size) == 0 && a.addr + a.size <= 0x1_0000_0000
  }

  ghost predicate AllRequests(q: seq<Access>) {
    forall j :: 0 <= j < |q| ==> IsRequest(q[j])
  }

  function TotalBytes(q: seq<Access>): (n: nat) {
    if q == [] then 0 else TotalBytes(q[..|q| - 1]) + q[|q| - 1].size
  }

  /** The sectors of one request, each put into two sets of windows. */
  method AddWindows(a: Access, f: nat -> nat, g: nat -> nat, w: set<nat>, v: set<nat>)
      returns (r: set<nat>, t: set<nat>)
    ensures r == w + Walk(f, a.addr, a.size) && t == v + Walk(g, a.addr, a.size)
  {
    r, t := w, v;
    var offset := 0;
    while offset < a.size
      invariant 0 <= offset
      invariant WalkInto(r, f, a.addr + offset, a.size - offset) == WalkInto(w, f, a.addr, a.size)
      invariant WalkInto(t, g, a.addr + offset, a.size - offset) == WalkInto(v, g, a.addr, a.size)
    {
      var x := a.addr + offset;
      r, t := r + {f(x)}, t + {g(x)};
      offset := offset + SECTOR_SIZE;
    }
    WalkIntoIs(w, f, a.addr, a.size);
    WalkIntoIs(v, g, a.addr, a.size);
  }

  /** `w` with the values of the walk put in one by one. */
  ghost function WalkInto(w: set<nat>, f: nat -> nat, addr: nat, size: int): (r: set<nat>)
    decreases size
  {
    if size <= 0 then w else WalkInto(w + {f(addr)}, f, addr + SECTOR_SIZE, size - SECTOR_SIZE)
  }

  lemma {:induction false} WalkIntoIs(w: set<nat>, f: nat -> nat, addr: nat, size: int)
    ensures WalkInto(w, f, addr, size) == w + Walk(f, addr, size)
    decreases size
  {
    if size > 0 {
      WalkIntoIs(w + {f(addr)}, f, addr + SECTOR_SIZE, size - SECTOR_SIZE);
      var rest := Walk(f, addr + SECTOR_SIZE, size - SECTOR_SIZE);
      assert w + {f(addr)} + rest == w + ({f(addr)} + rest);
    } else {
      assert w + {} == w;
    }
  }

  lemma WalkAllSnoc(f: nat -> nat, q: seq<Access>, a: Access)
    ensures WalkAll(f, q + [a]) == WalkAll(f, q) + Walk(f, a.addr, a.size)
  {
    assert (q + [a])[..|q|] == q;
  }

  method CountRequest(a: Access, ghost seen: seq<Access>, f: nat -> nat, g: nat -> nat, w: set<nat>, v: set<nat>)
      returns (r: set<nat>, t: set<nat>)
    requires w == WalkAll(f, seen) && v == WalkAll(g, seen)
    ensures r == WalkAll(f, seen + [a]) && t == WalkAll(g, seen + [a])
  {
    WalkAllSnoc(f, seen, a);
    WalkAllSnoc(g, seen, a);
    r, t := AddWindows(a, f, g, w, v);
  }

  /** The counting loop, for any two kinds of windows: requests queued before `start` are skipped. */
  method CountBoth(q: seq<Access>, start: nat, f: nat -> nat, g: nat -> nat) returns (nf: nat, ng: nat)
    requires start <= |q|
    ensures nf == |WalkAll(f, q[start..])| && ng == |WalkAll(g, q[start..])|
  {
    var w, v: set<nat> := {}, {};
    ghost var seen: seq<Access> := [];
    var i := 0;
    while i < |q|
      invariant i <= |q| && seen == if i < start then [] else q[start..i]
      invariant w == WalkAll(f, seen) && v == WalkAll(g, seen)
    {
      if i >= start {
        SliceSnoc(q, start, i);
        w, v := CountRequest(q[i], seen, f, g, w, v);
        seen := seen + [q[i]];
      }
      i := i + 1;
    }
    assert seen == q[start..];
    return |w|, |v|;
  }

  /** The counters: how many windows of 32 and of 128 bytes the requests from `start` on touch. */
  method CountWindows(q: seq<Access>, start: nat) returns (n32: nat, n128: nat)
    requires start <= |q|
    ensures n32 == |AllWindows(q[start..], 32)| && n128 == |AllWindows(q[start..], 128)|
  {
    n32, n128 := CountBoth(q, start, Tagger(32), Tagger(128));
  }

  // ---------- windows of one request ----------

  /** The start of the 128-byte line of `x`. */
  function Line(x: nat): (l: nat) {
    x - x % 128
  }

  /** A request starts on a sector and lies in one line. */
  lemma RequestInOneLine(a: Access)
    requires IsRequest(a)
    ensures a.addr % 32 == 0 && a.addr % 128 + a.size <= 128
  {
    SegmentOffset(a.addr, a.size);
    OffsetSplit(a.addr, a.size);
    var q := a.addr / a.size;
    DivMod(32, if a.size == 32 then q else if a.size == 64 then 2 * q else 4 * q, 0);
  }

  ghost predicate Within(s: set<nat>, lo: nat, hi: nat) {
    forall x :: x in s ==> lo <= x < hi
  }

  /** Whole sectors in the 32-bit address space. */
  ghost predicate Sectors(addr: nat, size: nat) {
    addr % 32 == 0 && size % 32 == 0 && addr + size <= 0x1_0000_0000
  }

  /** `f` leaves the start of sector number `i` alone. */
  ghost predicate Fixes(f: nat -> nat, i: nat) {
    f(32 * i) == 32 * i
  }

  /** The walk over `k` sectors from number `i` on. */
  ghost function SectorWalk(f: nat -> nat, i: nat, k: nat): (s: set<nat>) {
    Walk(f, 32 * i, 32 * k)
  }

  lemma SectorWalkStep(f: nat -> nat, i: nat, k: nat)
    requires k > 0
    ensures SectorWalk(f, i, k) == {f(32 * i)} + SectorWalk(f, i + 1, k - 1)
  {
    assert 32 * (i + 1) == 32 * i + 32 && 32 * (k - 1) == 32 * k - 32;
  }

  /** `k` starts of sectors from number `i` on. */
  ghost predicate AreStarts(s: set<nat>, i: nat, k: nat) {
    |s| == k && forall x :: x in s ==> 32 * i <= x < 32 * (i + k) && x % 32 == 0
  }

  lemma OneMoreStart(s: set<nat>, i: nat, k: nat)
    requires k > 0 && AreStarts(s, i + 1, k - 1)
    ensures AreStarts({32 * i} + s, i, k)
  {
    assert 32 * i !in s;
  }

  lemma {:induction false} WalkRising(f: nat -> nat, i: nat, k: nat)
    requires forall j: nat :: i <= j < i + k ==> Fixes(f, j)
    ensures AreStarts(SectorWalk(f, i, k), i, k)
    decreases k
  {
    if k > 0 {
      assert Fixes(f, i);
      WalkRising(f, i + 1, k - 1);
      SectorWalkStep(f, i, k);
      OneMoreStart(SectorWalk(f, i + 1, k - 1), i, k);
    }
  }

  lemma {:induction false} WalkHolds(f: nat -> nat, i: nat, k: nat, j: nat)
    requires i <= j < i + k
    ensures f(32 * j) in SectorWalk(f, i, k)
    decreases k
  {
    SectorWalkStep(f, i, k);
    if j != i {
      WalkHolds(f, i + 1, k - 1, j);
    }
  }

  lemma {:induction false} WalkConstant(f: nat -> nat, addr: nat, size: int, c: nat)
    requires size > 0 && forall x: nat :: addr <= x < addr + size ==> f(x) == c
    ensures Walk(f, addr, size) == {c}
    decreases size
  {
    if size > 32 {
      WalkConstant(f, addr + 32, size - 32, c);
    } else {
      assert Walk(f, addr + 32, size - 32) == {};
    }
  }

  lemma SectorTag(x: nat)
    requires x < 0x1_0000_0000 && x % 32 == 0
    ensures Tag(x, 32) == x
  {
    TagExact(x, 32);
  }

  lemma TagFixes(i: nat)
    requires 32 * i < 0x1_0000_0000
    ensures Fixes(Tagger(32), i)
  {
    SectorTag(32 * i);
  }

  /** Whole sectors are as many windows as they are, each the start of a sector. */
  lemma SectorWindows(addr: nat, size: nat)
    requires Sectors(addr, size)
    ensures 32 * |Windows(addr, size, 32)| == size && Within(Windows(addr, size, 32), addr, addr + size)
    ensures forall x :: x in Windows(addr, size, 32) ==> x % 32 == 0
  {
    var i, k := addr / 32, size / 32;
    assert addr == 32 * i && size == 32 * k;
    forall j: nat | i <= j < i + k ensures Fixes(Tagger(32), j) {
      TagFixes(j);
    }
    WalkRising(Tagger(32), i, k);
  }

  lemma SectorIn(addr: nat, size: nat, x: nat)
    requires Sectors(addr, size) && addr <= x < addr + size && x % 32 == 0
    ensures x in Windows(addr, size, 32)
  {
    var i, k, j := addr / 32, size / 32, x / 32;
    assert addr == 32 * i && size == 32 * k && x == 32 * j;
    SectorTag(x);
    WalkHolds(Tagger(32), i, k, j);
  }

  /** Sectors of one line. */
  lemma LineWindows(addr: nat, size: nat, line: nat)
    requires size > 0 && addr + size <= 0x1_0000_0000 && line % 128 == 0 && line <= addr && addr + size <= line + 128
    ensures Windows(addr, size, 128) == {line}
  {
    forall x: nat | addr <= x < addr + size ensures Tagger(128)(x) == line {
      LineTag(x, line);
    }
    WalkConstant(Tagger(128), addr, size, line);
  }

  lemma LineTag(addr: nat, line: nat)
    requires addr < 0x1_0000_0000 && line % 128 == 0 && line <= addr < line + 128
    ensures Tag(addr, 128) == line && Line(addr) == line
  {
    OffsetIs(addr, 128, line / 128, addr - line);
    TagExact(addr, 128);
  }

  /** A request is whole sectors of one line. */
  lemma RequestSectors(a: Access)
    requires IsRequest(a)
    ensures a.size > 0 && Sectors(a.addr, a.size)
    ensures var line := Line(a.addr); line % 128 == 0 && line <= a.addr && a.addr + a.size <= line + 128
  {
    RequestInOneLine(a);
  }

  lemma SectorOf(a: Access, x: nat)
    requires IsRequest(a) && x in Windows(a.addr, a.size, 32)
    ensures x % 32 == 0 && Line(x) == Line(a.addr)
  {
    RequestSectors(a);
    SectorWindows(a.addr, a.size);
    LineTag(x, Line(a.addr));
  }

  // ---------- counters ----------

  lemma UnionSize<T>(a: set<T>, b: set<T>)
    ensures |a + b| <= |a| + |b|
    ensures a !! b ==> |a + b| == |a| + |b|
  {
    assert a + b == a + (b - a);
    assert |a + (b - a)| == |a| + |b - a|;
    SubsetSize(b - a, b);
    if a !! b {
      assert b - a == b;
    }
  }

  ghost predicate HasWindow(s: set<nat>, l: nat) {
    exists x :: x in s && Line(x) == l
  }

  /** Every window lies in a counted line, and every counted line holds a window. */
  ghost predicate LinesMatch(s: set<nat>, lines: set<nat>) {
    && (forall x :: x in s ==> x % 32 == 0 && Line(x) in lines)
    && forall l :: l in lines ==> HasWindow(s, l)
  }

  lemma LinesMatchAdd(s: set<nat>, lines: set<nat>, t: set<nat>, l: nat)
    requires LinesMatch(s, lines) && t != {} && forall x :: x in t ==> x % 32 == 0 && Line(x) == l
    ensures LinesMatch(s + t, lines + {l})
  {
    forall k | k in lines + {l} ensures HasWindow(s + t, k) {
      if k == l {
        var x :| x in t;
        assert x in s + t;
      } else {
        var x :| x in s && Line(x) == k;
        assert x in s + t;
      }
    }
  }

  lemma {:induction false} WindowsInLines(q: seq<Access>)
    requires AllRequests(q)
    ensures LinesMatch(AllWindows(q, 32), AllWindows(q, 128))
  {
    if q != [] {
      var front, a := q[..|q| - 1], q[|q| - 1];
      WindowsInLines(front);
      RequestWindows(a);
      RequestSectors(a);
      LineWindows(a.addr, a.size, Line(a.addr));
      forall x | x in Windows(a.addr, a.size, 32) ensures x % 32 == 0 && Line(x) == Line(a.addr) {
        SectorOf(a, x);
      }
      LinesMatchAdd(AllWindows(front, 32), AllWindows(front, 128), Windows(a.addr, a.size, 32), Line(a.addr));
    }
  }

  lemma {:induction false} ImageAtMost(s: set<nat>, lines: set<nat>)
    requires forall l :: l in lines ==> HasWindow(s, l)
    ensures |lines| <= |s|
  {
    if lines != {} {
      var l :| l in lines;
      var x :| x in s && Line(x) == l;
      forall k | k in lines - {l} ensures HasWindow(s - {x}, k) {
        var y :| y in s && Line(y) == k;
        assert y in s - {x};
      }
      ImageAtMost(s - {x}, lines - {l});
    }
  }

  lemma FourSectors(x: nat)
    requires x % 32 == 0
    ensures var l := Line(x); x == l || x == l + 32 || x == l + 64 || x == l + 96
  {
    var m := x / 32;
    assert x == 32 * m && m == 4 * (m / 4) + m % 4;
    OffsetIs(x, 128, m / 4, 32 * (m % 4));
  }

  lemma AtMostFour(s: set<nat>, l: nat)
    requires forall x :: x in s ==> x % 32 == 0 && Line(x) == l
    ensures |s| <= 4
  {
    var four := {l, l + 32, l + 64, l + 96};
    forall x | x in s ensures x in four {
      FourSectors(x);
    }
    SubsetSize(s, four);
  }

  lemma {:induction false} FourPerLine(s: set<nat>, lines: set<nat>)
    requires forall x :: x in s ==> x % 32 == 0 && Line(x) in lines
    ensures |s| <= 4 * |lines|
  {
    if lines == {} {
      assert s == {};
    } else {
      var l :| l in lines;
      var here := set x | x in s && Line(x) == l;
      AtMostFour(here, l);
      FourPerLine(s - here, lines - {l});
      assert s == here + (s - here);
      UnionSize(here, s - here);
    }
  }

  /** There are at most as many lines as windows, and a line holds at most four windows. */
  lemma WindowBounds(q: seq<Access>)
    requires AllRequests(q)
    ensures |AllWindows(q, 128)| <= |AllWindows(q, 32)| <= 4 * |AllWindows(q, 128)|
  {
    WindowsInLines(q);
    ImageAtMost(AllWindows(q, 32), AllWindows(q, 128));
    FourPerLine(AllWindows(q, 32), AllWindows(q, 128));
  }

  /** Requests in ascending order that do not overlap. */
  ghost predicate Apart(q: seq<Access>) {
    forall i, j :: 0 <= i < j < |q| ==> q[i].addr + q[i].size <= q[j].addr
  }

  /** All the windows of one request. */
  lemma RequestWindows(a: Access)
    requires IsRequest(a)
    ensures var s := Windows(a.addr, a.size, 32); 32 * |s| == a.size && Within(s, a.addr, a.addr + a.size)
  {
    RequestSectors(a);
    SectorWindows(a.addr, a.size);
  }

  lemma {:induction false} WindowsBelow(q: seq<Access>, bound: nat)
    requires AllRequests(q) && forall i :: 0 <= i < |q| ==> q[i].addr + q[i].size <= bound
    ensures Within(AllWindows(q, 32), 0, bound)
  {
    if q != [] {
      WindowsBelow(q[..|q| - 1], bound);
      RequestWindows(q[|q| - 1]);
    }
  }

  lemma AddBytes(s: set<nat>, t: set<nat>, total: nat, size: nat)
    requires 32 * |s| <= total && 32 * |t| == size
    ensures 32 * |s + t| <= total + size
    ensures 32 * |s| == total && s !! t ==> 32 * |s + t| == total + size
  {
    UnionSize(s, t);
  }

  /** The 32-byte windows never exceed the bytes requested; without overlap they are exactly those bytes. */
  lemma {:induction false} WindowBytes(q: seq<Access>)
    requires AllRequests(q)
    ensures 32 * |AllWindows(q, 32)| <= TotalBytes(q)
    ensures Apart(q) ==> 32 * |AllWindows(q, 32)| == TotalBytes(q)
  {
    if q != [] {
      var front, a := q[..|q| - 1], q[|q| - 1];
      WindowBytes(front);
      RequestWindows(a);
      AddBytes(AllWindows(front, 32), Windows(a.addr, a.size, 32), TotalBytes(front), a.size);
      if Apart(q) {
        WindowsBelow(front, a.addr);
      }
    }
  }

  /** The sectors of every request are counted. */
  lemma {:induction false} SectorCounted(q: seq<Access>, j: nat, x: nat)
    requires AllRequests(q) && j < |q| && q[j].addr <= x < q[j].addr + q[j].size && x % 32 == 0
    ensures x in AllWindows(q, 32)
  {
    if j < |q| - 1 {
      SectorCounted(q[..|q| - 1], j, x);
    } else {
      RequestSectors(q[j]);
      SectorIn(q[j].addr, q[j].size, x);
    }
  }

  /** So the window of every byte of every counted request is counted. */
  lemma ByteCounted(q: seq<Access>, j: nat, x: nat)
    requires AllRequests(q) && j < |q| && q[j].addr <= x < q[j].addr + q[j].size
    ensures Tag(x, 32) in AllWindows(q, 32)
  {
    RequestSectors(q[j]);
    SectorOfByte(q[j].addr, q[j].size, x);
    SectorCounted(q, j, Tag(x, 32));
  }

  lemma SectorOfByte(addr: nat, size: nat, x: nat)
    requires Sectors(addr, size) && addr <= x < addr + size
    ensures addr <= Tag(x, 32) <= x && Tag(x, 32) % 32 == 0
  {
    TagExact(x, 32);
    OffsetSplit(x, 32);
    OffsetSplit(addr, 32);
  }

  // ---------- after coalescing one subwarp ----------

  ghost predicate InRange(m: Txns, seg: Seg) {
    forall b :: b in m ==> b + seg <= 0x1_0000_0000
  }

  lemma TagInRange(addr: nat, seg: Seg)
    ensures Tag(addr, seg) + seg <= 0x1_0000_0000
  {
    TagExact(addr, seg);
    OffsetSplit(Tag(addr, seg), seg);
  }

  lemma SubwarpInRange(w: Lanes, n: DataSize, seg: Seg, lo: nat, hi: nat)
    requires lo <= hi <= |w.addrs|
    ensures InRange(SubTxns(w, n, seg, lo, hi), seg)
  {
    var m, ts := SubTxns(w, n, seg, lo, hi), SubTouches(w, n, seg, lo, hi);
    SubwarpGathers(w, n, seg, lo, hi);
    forall b | b in m ensures b + seg <= 0x1_0000_0000 {
      var t :| t in ts && t.block == b;
      TouchInRange(w, n, seg, lo, hi, t);
    }
  }

  lemma TouchInRange(w: Lanes, n: DataSize, seg: Seg, lo: nat, hi: nat, t: Touch)
    requires lo <= hi <= |w.addrs| && t in SubTouches(w, n, seg, lo, hi)
    ensures t.block + seg <= 0x1_0000_0000
  {
    SubTouchesAre(w, n, seg, lo, hi, t);
    var lane: nat, addr: nat :| Issues(w, lo, hi, lane, addr) && t in AccessTouches(addr, n, seg, lane);
    AccessInRange(addr, n, seg, lane, t);
  }

  lemma AccessInRange(addr: nat, n: DataSize, seg: Seg, lane: nat, t: Touch)
    requires t in AccessTouches(addr, n, seg, lane)
    ensures t.block + seg <= 0x1_0000_0000
  {
    TagInRange(addr, seg);
    TagInRange(addr + n - 1, seg);
  }

  lemma QueuedRequest(m: Txns, seg: Seg, j: nat)
    requires AllSend(m, seg) && InRange(m, seg) && j < |m|
    ensures |QueueOf([], m, seg)| == |m| && IsRequest(QueueOf([], m, seg)[j])
  {
    QueueAt([], m, seg, j);
    SentIsRequest(m[SegmentAt(m, j)], SegmentAt(m, j), seg);
  }

  lemma QueuedRequests(m: Txns, seg: Seg)
    requires AllSend(m, seg) && InRange(m, seg)
    ensures AllRequests(QueueOf([], m, seg)) && Apart(QueueOf([], m, seg))
  {
    var q := QueueOf([], m, seg);
    QueueGrows([], m, seg);
    forall j | 0 <= j < |q| ensures IsRequest(q[j]) {
      QueuedRequest(m, seg, j);
    }
    forall i, j | 0 <= i < j < |q| ensures q[i].addr + q[i].size <= q[j].addr {
      RequestsApart([], m, seg, i, j);
    }
  }

  lemma {:induction false} AppendAfter(q: seq<Access>, r: map<nat, Access>, left: set<nat>)
    requires left <= r.Keys
    ensures Append(q, r, left) == q + Append([], r, left)
    decreases left
  {
    if left != {} {
      var b := Least(left);
      AppendAfter(q + [r[b]], r, left - {b});
      AppendAfter([r[b]], r, left - {b});
      var rest := Append([], r, left - {b});
      assert [] + [r[b]] == [r[b]];
      assert q + [r[b]] + rest == q + ([r[b]] + rest);
    }
  }

  /** The counters after plain coalescing in one part: the windows are exactly the bytes requested, they fill the
      lines, and the window of every byte that an active lane touches is among them. */
  lemma PlainFootprint(q: seq<Access>, w: Lanes, n: DataSize, seg: Seg, hi: nat)
    requires hi <= |w.addrs|
    ensures |q| <= |AppendSubwarp(q, w, n, seg, 0, hi)|
    ensures var fresh' := AppendSubwarp(q, w, n, seg, 0, hi)[|q|..];
            && AllRequests(fresh') && 32 * |AllWindows(fresh', 32)| == TotalBytes(fresh')
            && |AllWindows(fresh', 128)| <= |AllWindows(fresh', 32)| <= 4 * |AllWindows(fresh', 128)|
  {
    var m := SubTxns(w, n, seg, 0, hi);
    AllSendable(w, n, seg, 0, hi);
    SubwarpInRange(w, n, seg, 0, hi);
    QueuedRequests(m, seg);
    AppendAfter(q, Requests(m, seg), m.Keys);
    var fresh' := QueueOf([], m, seg);
    assert AppendSubwarp(q, w, n, seg, 0, hi)[|q|..] == fresh';
    WindowBytes(fresh');
    WindowBounds(fresh');
  }

  /** Every touched byte's window is counted. */
  lemma TouchedByteCounted(w: Lanes, n: DataSize, seg: Seg, lo: nat, hi: nat, lane: nat, addr: nat, x: nat)
    requires lo <= hi <= |w.addrs| && Issues(w, lo, hi, lane, addr) && InChunk(addr, n) && addr < 0x1_0000_0000
    requires addr <= x < addr + n
    ensures Tag(x, 32) in AllWindows(AppendSubwarp([], w, n, seg, lo, hi), 32)
  {
    var m := SubTxns(w, n, seg, lo, hi);
    AllSendable(w, n, seg, lo, hi);
    SubwarpInRange(w, n, seg, lo, hi);
    QueuedRequests(m, seg);
    MarkedInSegment(w, n, seg, lo, hi, lane, addr);
    var k := Covered([], m, n, seg, lane, addr);
    ByteCounted(QueueOf([], m, seg), k, x);
  }

  /** With 32-byte segments nothing else is counted: the windows are exactly the touched ones. */
  lemma SectorSegmentsExact(w: Lanes, n: DataSize, lo: nat, hi: nat, x: nat)
    requires lo <= hi <= |w.addrs| && AllInChunk(w, n, lo, hi)
    ensures x in AllWindows(AppendSubwarp([], w, n, 32, lo, hi), 32) <==>
            exists lane: nat, addr: nat :: Issues(w, lo, hi, lane, addr) && Tag(addr, 32) == x
  {
    var m := SubTxns(w, n, 32, lo, hi);
    var q := AppendSubwarp([], w, n, 32, lo, hi);
    AllSendable(w, n, 32, lo, hi);
    SubwarpInRange(w, n, 32, lo, hi);
    QueuedRequests(m, 32);
    if lane: nat, addr: nat :| Issues(w, lo, hi, lane, addr) && Tag(addr, 32) == x {
      TouchedByteCounted(w, n, 32, lo, hi, lane, addr, addr);
    }
    if x in AllWindows(q, 32) {
      SectorSegmentKeys(m, x);
      var t := TouchOfKey(w, n, lo, hi, x);
      var lane, addr := TouchSource(w, n, 32, lo, hi, t);
      assert Issues(w, lo, hi, lane, addr) && Tag(addr, 32) == x;
    }
  }

  lemma TouchOfKey(w: Lanes, n: DataSize, lo: nat, hi: nat, b: nat) returns (t: Touch)
    requires lo <= hi <= |w.addrs| && b in SubTxns(w, n, 32, lo, hi)
    ensures t in SubTouches(w, n, 32, lo, hi) && t.block == b
  {
    SubwarpGathers(w, n, 32, lo, hi);
    t :| t in SubTouches(w, n, 32, lo, hi) && t.block == b;
  }

  lemma OwnWindow(a: Access, x: nat)
    requires IsRequest(a) && x in Windows(a.addr, a.size, 32)
    ensures a.addr <= x < a.addr + a.size && x % 32 == 0
  {
    RequestSectors(a);
    SectorWindows(a.addr, a.size);
  }

  lemma {:induction false} WindowOwner(q: seq<Access>, x: nat) returns (j: nat)
    requires AllRequests(q) && x in AllWindows(q, 32)
    ensures j < |q| && q[j].addr <= x < q[j].addr + q[j].size && x % 32 == 0
  {
    var a := q[|q| - 1];
    if x in AllWindows(q[..|q| - 1], 32) {
      j := WindowOwner(q[..|q| - 1], x);
    } else {
      OwnWindow(a, x);
      j := |q| - 1;
    }
  }

  lemma SectorSegmentKeys(m: Txns, x: nat)
    requires AllSend(m, 32) && InRange(m, 32) && x in AllWindows(QueueOf([], m, 32), 32)
    ensures x in m
  {
    var q := QueueOf([], m, 32);
    QueuedRequests(m, 32);
    QueueGrows([], m, 32);
    var j := WindowOwner(q, x);
    QueueAt([], m, 32, j);
    SectorSegmentKey(m, SegmentAt(m, j), q[j], x);
  }

  lemma SectorSegmentKey(m: Txns, b: nat, a: Access, x: nat)
    requires AllSend(m, 32) && b in m && a == AccessFor(b, m[b], 32) && a.addr <= x < a.addr + a.size && x % 32 == 0
    ensures x == b
  {
    assert Sendable(m[b].chunks, b, 32);
    OneSector(b, x);
  }

  lemma OneSector(b: nat, x: nat)
    requires b % 32 == 0 && x % 32 == 0 && b <= x < b + 32
    ensures x == b
  {
  }

  // ---------- after coalescing atomics ----------

  ghost predicate ListsInRange(m: Lists, seg: Seg) {
    forall b :: b in m ==> b + seg <= 0x1_0000_0000
  }

  lemma {:induction false} PlaceInRange(items: seq<Item>, n: DataSize, seg: Seg)
    ensures ListsInRange(Place(items, n, seg), seg)
  {
    if items != [] {
      PlaceInRange(items[..|items| - 1], n, seg);
      TagInRange(items[|items| - 1].addr, seg);
    }
  }

  lemma AddRequest(q: seq<Access>, a: Access)
    requires AllRequests(q) && IsRequest(a)
    ensures AllRequests(q + [a])
  {
  }

  lemma SentIsRequest(x: Txn, b: nat, seg: Seg)
    requires Sendable(x.chunks, b, seg) && b + seg <= 0x1_0000_0000
    ensures IsRequest(AccessFor(b, x, seg))
  {
    ReducedServes(x.chunks, b, seg);
  }

  lemma {:induction false} ListRequests(q: seq<Access>, list: seq<Txn>, b: nat, seg: Seg)
    requires AllRequests(q) && ListSends(list, b, seg) && b + seg <= 0x1_0000_0000
    ensures AllRequests(AppendList(q, list, b, seg))
    decreases list
  {
    if list != [] {
      assert list[0] in list;
      SentIsRequest(list[0], b, seg);
      AddRequest(q, AccessFor(b, list[0], seg));
      ListRequests(q + [AccessFor(b, list[0], seg)], list[1..], b, seg);
    }
  }

  lemma {:induction false} ListsRequests(q: seq<Access>, m: Lists, left: set<nat>, seg: Seg)
    requires AllRequests(q) && ListsSend(m, seg) && ListsInRange(m, seg) && left <= m.Keys
    ensures AllRequests(AppendLists(q, m, left, seg))
    decreases left
  {
    if left != {} {
      var b := Least(left);
      ListRequests(q, m[b], b, seg);
      ListsRequests(AppendList(q, m[b], b, seg), m, left - {b}, seg);
    }
  }
}
