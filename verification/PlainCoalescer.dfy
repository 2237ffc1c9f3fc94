/** Plain coalescing (src/abstract_hardware_model.cc: memory_coalescing_arch): each subwarp's accesses are merged
    by segment and one request per segment is queued, in ascending order of address. */
module PlainCoalescer {
  import opened Basics
  import opened Coalescing

  const MAX_ACCESSES: nat := 8

  /** The lanes of a warp instruction: which are active, and up to eight addresses for each, ended by a zero. */
  datatype Lanes = Lanes(active: set<nat>, addrs: seq<seq<nat>>)

  ghost predicate ValidLanes(w: Lanes) {
    && (forall t :: t in w.active ==> t < |w.addrs|)
    && forall t :: 0 <= t < |w.addrs| ==> |w.addrs[t]| == MAX_ACCESSES
  }

  // ---------- step 1: merge accesses by segment ----------

  type Txns = map<nat, Txn>

  /** What one access leaves in the segment `block`. */
  datatype Touch = Touch(block: nat, chunk: nat, bytes: set<nat>, lane: nat)

  function Mark(addr: nat, n: DataSize, seg: Seg, lane: nat): (t: Touch) {
    Touch(Tag(addr, seg), Chunk(addr), Span(addr % 128, n), lane)
  }

  function Add(m: Txns, t: Touch): (r: Txns) {
    var was := if t.block in m then m[t.block] else EMPTY_TXN;
    m[t.block := Txn(was.chunks + {t.chunk}, was.bytes + t.bytes, was.lanes + {t.lane})]
  }

  /** One access marks the segment of its first byte and, if it crosses into another, that of its last byte. */
  function AddAccess(m: Txns, addr: nat, n: DataSize, seg: Seg, lane: nat): (r: Txns) {
    var first := Add(m, Mark(addr, n, seg, lane));
    if Tag(addr, seg) == Tag(addr + n - 1, seg) then first else Add(first, Mark(addr + n - 1, n, seg, lane))
  }

  /** A lane issues its addresses up to the first zero. */
  function AddLane(m: Txns, addrs: seq<nat>, n: DataSize, seg: Seg, lane: nat): (r: Txns)
    decreases addrs
  {
    if addrs == [] || addrs[0] == 0 then m else AddLane(AddAccess(m, addrs[0], n, seg, lane), addrs[1..], n, seg, lane)
  }

  function SubTxns(w: Lanes, n: DataSize, seg: Seg, lo: nat, hi: nat): (m: Txns)
    requires hi <= |w.addrs|
    decreases hi
  {
    if hi <= lo then map[]
    else if hi - 1 in w.active then AddLane(SubTxns(w, n, seg, lo, hi - 1), w.addrs[hi - 1], n, seg, hi - 1)
    else SubTxns(w, n, seg, lo, hi - 1)
  }

  method MarkSegment(m: Txns, addr: nat, n: DataSize, seg: Seg, lane: nat) returns (r: Txns)
    ensures r == Add(m, Mark(addr, n, seg, lane))
  {
    var block := Tag(addr, seg);
    var info := if block in m then m[block] else EMPTY_TXN;
    var bytes := SetBytes(info.bytes, addr % 128, n);
    r := m[block := Txn(info.chunks + {Chunk(addr)}, bytes, info.lanes + {lane})];
  }

  method MarkLane(m: Txns, addrs: seq<nat>, n: DataSize, seg: Seg, lane: nat) returns (r: Txns)
    requires |addrs| == MAX_ACCESSES
    ensures r == AddLane(m, addrs, n, seg, lane)
  {
    r := m;
    var access := 0;
    assert addrs[0..] == addrs;
    while access < MAX_ACCESSES && addrs[access] != 0
      invariant access <= MAX_ACCESSES
      invariant AddLane(r, addrs[access..], n, seg, lane) == AddLane(m, addrs, n, seg, lane)
    {
      assert addrs[access..][1..] == addrs[access + 1..];
      r := MarkAccess(r, addrs[access], n, seg, lane);
      access := access + 1;
    }
  }

  /** One access; the second marking is the special case of an access that crosses into another segment. */
  method MarkAccess(m: Txns, addr: nat, n: DataSize, seg: Seg, lane: nat) returns (r: Txns)
    ensures r == AddAccess(m, addr, n, seg, lane)
  {
    r := MarkSegment(m, addr, n, seg, lane);
    if Tag(addr, seg) != Tag(addr + n - 1, seg) {
      r := MarkSegment(r, addr + n - 1, n, seg, lane);
    }
  }

  method MarkSubwarp(w: Lanes, n: DataSize, seg: Seg, lo: nat, hi: nat) returns (m: Txns)
    requires ValidLanes(w) && lo <= hi <= |w.addrs|
    ensures m == SubTxns(w, n, seg, lo, hi)
  {
    m := map[];
    for lane := lo to hi
      invariant m == SubTxns(w, n, seg, lo, lane)
    {
      if lane in w.active {
        m := MarkLane(m, w.addrs[lane], n, seg, lane);
      }
    }
  }

  // ---------- step 2: queue one request per segment ----------

  function AccessFor(b: nat, x: Txn, seg: Seg): (a: Access) {
    var (addr, size) := Reduced(x.chunks, b, seg);
    Access(addr, size, x.lanes, x.bytes, x.chunks)
  }

  ghost function Requests(m: Txns, seg: Seg): (r: map<nat, Access>)
    ensures r.Keys == m.Keys
  {
    map b | b in m :: AccessFor(b, m[b], seg)
  }

  ghost predicate AllSend(m: Txns, seg: Seg) {
    forall b :: b in m ==> Sendable(m[b].chunks, b, seg)
  }

  /** `q` followed by the requests of the segments in `left`, in ascending order. */
  ghost function Append(q: seq<Access>, r: map<nat, Access>, left: set<nat>): (q': seq<Access>)
    requires left <= r.Keys
    decreases left
  {
    if left == {} then q else Append(q + [r[Least(left)]], r, left - {Least(left)})
  }

  ghost function AppendSubwarp(q: seq<Access>, w: Lanes, n: DataSize, seg: Seg, lo: nat, hi: nat): (q': seq<Access>)
    requires hi <= |w.addrs|
  {
    var r := Requests(SubTxns(w, n, seg, lo, hi), seg);
    Append(q, r, r.Keys)
  }

  /** The queue after the first `parts` subwarps of `size` lanes. */
  ghost function AppendWarp(q: seq<Access>, w: Lanes, n: DataSize, seg: Seg, size: nat, parts: nat): (q': seq<Access>)
    requires size * parts <= |w.addrs|
    decreases parts
  {
    if parts == 0 then q
    else
      Subwarps(size, parts, parts - 1, |w.addrs|);
      AppendSubwarp(AppendWarp(q, w, n, seg, size, parts - 1), w, n, seg, size * (parts - 1), size * parts)
  }

  /** Local accesses of four bytes or more were split into four-byte ones. */
  function AccessSize(dataSize: DataSize, local: bool): (n: DataSize) {
    if local && dataSize >= 4 then 4 else dataSize
  }

  /** The queue after a whole instruction. */
  ghost function Queued(q: seq<Access>, w: Lanes, dataSize: DataSize, local: bool, arch: int, skipL1D: bool,
                        cacheGlobal: bool, parts: nat): (q': seq<Access>)
    requires parts > 0
  {
    AppendWarp(q, w, AccessSize(dataSize, local), SegmentSize(SectorSegments(arch, skipL1D, cacheGlobal), dataSize),
               |w.addrs| / parts, parts)
  }

  class WarpInst {
    const lanes: Lanes
    var accessq: seq<Access>

    constructor (lanes: Lanes)
      ensures this.lanes == lanes && accessq == []
    {
      this.lanes := lanes;
      accessq := [];
    }

    method ReduceAndSend(x: Txn, b: nat, seg: Seg)
      requires Sendable(x.chunks, b, seg)
      modifies this`accessq
      ensures accessq == old(accessq) + [AccessFor(b, x, seg)]
    {
      var addr, size := Reduce(x.chunks, b, seg);
      accessq := accessq + [Access(addr, size, x.lanes, x.bytes, x.chunks)];
    }

    method SendAll(m: Txns, seg: Seg)
      requires AllSend(m, seg)
      modifies this`accessq
      ensures accessq == Append(old(accessq), Requests(m, seg), m.Keys)
    {
      var left := m.Keys;
      ghost var r := Requests(m, seg);
      while left != {}
        invariant left <= m.Keys && Append(accessq, r, left) == Append(old(accessq), r, m.Keys)
      {
        var b := LeastMember(left);
        ReduceAndSend(m[b], b, seg);
        left := left - {b};
      }
    }

    method SendSubwarp(n: DataSize, seg: Seg, lo: nat, hi: nat)
      requires ValidLanes(lanes) && lo <= hi <= |lanes.addrs|
      modifies this`accessq
      ensures accessq == AppendSubwarp(old(accessq), lanes, n, seg, lo, hi)
    {
      var m := MarkSubwarp(lanes, n, seg, lo, hi);
      AllSendable(lanes, n, seg, lo, hi);
      SendAll(m, seg);
    }

    method SendWarp(n: DataSize, seg: Seg, size: nat, parts: nat)
      requires ValidLanes(lanes) && size * parts <= |lanes.addrs|
      modifies this`accessq
      ensures accessq == AppendWarp(old(accessq), lanes, n, seg, size, parts)
    {
      ghost var before := accessq;
      var subwarp := 0;
      while subwarp < parts
        invariant subwarp <= parts && size * subwarp <= |lanes.addrs|
        invariant accessq == AppendWarp(before, lanes, n, seg, size, subwarp)
      {
        Subwarps(size, parts, subwarp, |lanes.addrs|);
        SendSubwarp(n, seg, size * subwarp, size * (subwarp + 1));
        subwarp := subwarp + 1;
      }
    }

    /** `memory_coalescing_arch`. */
    method Coalesce(dataSize: DataSize, local: bool, arch: int, skipL1D: bool, cacheGlobal: bool, parts: nat)
      requires ValidLanes(lanes) && parts > 0
      modifies this`accessq
      ensures accessq == Queued(old(accessq), lanes, dataSize, local, arch, skipL1D, cacheGlobal, parts)
    {
      var seg := SegmentSize(SectorSegments(arch, skipL1D, cacheGlobal), dataSize);
      SendWarp(AccessSize(dataSize, local), seg, |lanes.addrs| / parts, parts);
    }
  }

  // ---------- what the transactions hold ----------

  /** The addresses before the first zero. */
  function Issued(addrs: seq<nat>): (r: set<nat>) {
    if addrs == [] || addrs[0] == 0 then {} else {addrs[0]} + Issued(addrs[1..])
  }

  /** Lane `lane` of the subwarp issues an access to `addr`. */
  ghost predicate Issues(w: Lanes, lo: nat, hi: nat, lane: nat, addr: nat)
    requires hi <= |w.addrs|
  {
    lo <= lane < hi && lane in w.active && addr in Issued(w.addrs[lane])
  }

  /** The address is one of those before the first zero. */
  ghost predicate BeforeZero(addrs: seq<nat>, a: nat, i: nat) {
    i < |addrs| && addrs[i] == a && forall j :: 0 <= j <= i ==> addrs[j] != 0
  }

  lemma {:induction false} IssuedIs(addrs: seq<nat>, a: nat)
    ensures a in Issued(addrs) <==> exists i: nat :: BeforeZero(addrs, a, i)
  {
    if addrs != [] && addrs[0] != 0 {
      IssuedIs(addrs[1..], a);
      if a == addrs[0] {
        assert BeforeZero(addrs, a, 0);
      }
      if i: nat :| BeforeZero(addrs[1..], a, i) {
        assert forall j :: 0 < j <= i + 1 ==> addrs[j] == addrs[1..][j - 1];
        assert BeforeZero(addrs, a, i + 1);
      }
      if i: nat :| BeforeZero(addrs, a, i) && i > 0 {
        assert forall j :: 0 <= j < i ==> addrs[1..][j] == addrs[j + 1];
        assert BeforeZero(addrs[1..], a, i - 1);
      }
    }
  }

  /** An active lane issues the first of its eight addresses, and the next ones up to the first zero. */
  lemma IssuesExactly(w: Lanes, lo: nat, hi: nat, lane: nat, addr: nat)
    requires ValidLanes(w) && lo <= hi <= |w.addrs|
    ensures Issues(w, lo, hi, lane, addr)
       <==> lo <= lane < hi && lane in w.active && exists i: nat :: i < 8 && BeforeZero(w.addrs[lane], addr, i)
  {
    if lo <= lane < hi {
      IssuedIs(w.addrs[lane], addr);
    }
  }

  ghost function AccessTouches(addr: nat, n: DataSize, seg: Seg, lane: nat): (ts: set<Touch>) {
    if Tag(addr, seg) == Tag(addr + n - 1, seg) then {Mark(addr, n, seg, lane)}
    else {Mark(addr, n, seg, lane), Mark(addr + n - 1, n, seg, lane)}
  }

  ghost function LaneTouches(addrs: seq<nat>, n: DataSize, seg: Seg, lane: nat): (ts: set<Touch>) {
    if addrs == [] || addrs[0] == 0 then {}
    else AccessTouches(addrs[0], n, seg, lane) + LaneTouches(addrs[1..], n, seg, lane)
  }

  ghost function SubTouches(w: Lanes, n: DataSize, seg: Seg, lo: nat, hi: nat): (ts: set<Touch>)
    requires hi <= |w.addrs|
    decreases hi
  {
    if hi <= lo then {}
    else
      SubTouches(w, n, seg, lo, hi - 1)
      + if hi - 1 in w.active then LaneTouches(w.addrs[hi - 1], n, seg, hi - 1) else {}
  }

  lemma {:induction false} LaneTouchesAre(addrs: seq<nat>, n: DataSize, seg: Seg, lane: nat, t: Touch)
    ensures t in LaneTouches(addrs, n, seg, lane)
            <==> exists addr: nat :: addr in Issued(addrs) && t in AccessTouches(addr, n, seg, lane)
  {
    if addrs != [] && addrs[0] != 0 {
      LaneTouchesAre(addrs[1..], n, seg, lane, t);
      assert addrs[0] in Issued(addrs);
    }
  }

  lemma {:induction false} SubTouchesAre(w: Lanes, n: DataSize, seg: Seg, lo: nat, hi: nat, t: Touch)
    requires hi <= |w.addrs|
    ensures t in SubTouches(w, n, seg, lo, hi) <==>
            exists lane: nat, addr: nat :: Issues(w, lo, hi, lane, addr) && t in AccessTouches(addr, n, seg, lane)
    decreases hi
  {
    if lo < hi {
      SubTouchesAre(w, n, seg, lo, hi - 1, t);
      LaneTouchesAre(w.addrs[hi - 1], n, seg, hi - 1, t);
      if t in SubTouches(w, n, seg, lo, hi - 1) {
        var lane: nat, addr: nat :| Issues(w, lo, hi - 1, lane, addr) && t in AccessTouches(addr, n, seg, lane);
        assert Issues(w, lo, hi, lane, addr);
      } else if t in SubTouches(w, n, seg, lo, hi) {
        var addr: nat :| addr in Issued(w.addrs[hi - 1]) && t in AccessTouches(addr, n, seg, hi - 1);
        assert Issues(w, lo, hi, hi - 1, addr);
      }
      forall lane: nat, addr: nat | Issues(w, lo, hi, lane, addr) && t in AccessTouches(addr, n, seg, lane)
        ensures t in SubTouches(w, n, seg, lo, hi)
      {
        if lane < hi - 1 {
          assert Issues(w, lo, hi - 1, lane, addr);
        }
      }
    }
  }

  ghost function Blocks(ts: set<Touch>): (s: set<nat>) {
    set t | t in ts :: t.block
  }

  /** Everything that was marked in one segment. */
  ghost function Gather(ts: set<Touch>, b: nat): (x: Txn) {
    Txn(set t | t in ts && t.block == b :: t.chunk,
        set t, k | t in ts && t.block == b && k in t.bytes :: k,
        set t | t in ts && t.block == b :: t.lane)
  }

  ghost predicate Gathers(m: Txns, ts: set<Touch>) {
    m.Keys == Blocks(ts) && forall b :: b in m ==> m[b] == Gather(ts, b)
  }

  lemma GatherAdd(ts: set<Touch>, t: Touch, b: nat)
    ensures var x, y := Gather(ts, b), Gather(ts + {t}, b);
            y == if t.block == b then Txn(x.chunks + {t.chunk}, x.bytes + t.bytes, x.lanes + {t.lane}) else x
  {
    var x, y := Gather(ts, b), Gather(ts + {t}, b);
    if t.block == b {
      assert t in ts + {t};
      assert y.chunks == x.chunks + {t.chunk};
      assert y.bytes == x.bytes + t.bytes;
      assert y.lanes == x.lanes + {t.lane};
    } else {
      assert y.chunks == x.chunks;
      assert y.bytes == x.bytes;
      assert y.lanes == x.lanes;
    }
  }

  lemma AddGathers(m: Txns, ts: set<Touch>, t: Touch)
    requires Gathers(m, ts)
    ensures Gathers(Add(m, t), ts + {t})
  {
    assert t in ts + {t};
    assert Blocks(ts + {t}) == Blocks(ts) + {t.block};
    forall b | b in Add(m, t) ensures Add(m, t)[b] == Gather(ts + {t}, b) {
      GatherAdd(ts, t, b);
      if b !in Blocks(ts) {
        assert Gather(ts, b) == EMPTY_TXN;
      }
    }
  }

  lemma TwoGather(m: Txns, ts: set<Touch>, t: Touch, u: Touch)
    requires Gathers(m, ts)
    ensures Gathers(Add(m, t), ts + {t}) && Gathers(Add(Add(m, t), u), ts + {t, u})
  {
    AddGathers(m, ts, t);
    AddGathers(Add(m, t), ts + {t}, u);
    assert ts + {t, u} == ts + {t} + {u};
  }

  lemma AccessGathers(m: Txns, ts: set<Touch>, addr: nat, n: DataSize, seg: Seg, lane: nat)
    requires Gathers(m, ts)
    ensures Gathers(AddAccess(m, addr, n, seg, lane), ts + AccessTouches(addr, n, seg, lane))
  {
    TwoGather(m, ts, Mark(addr, n, seg, lane), Mark(addr + n - 1, n, seg, lane));
  }

  lemma {:induction false} LaneGathers(m: Txns, ts: set<Touch>, addrs: seq<nat>, n: DataSize, seg: Seg, lane: nat)
    requires Gathers(m, ts)
    ensures Gathers(AddLane(m, addrs, n, seg, lane), ts + LaneTouches(addrs, n, seg, lane))
    decreases addrs
  {
    if addrs == [] || addrs[0] == 0 {
      assert ts + {} == ts;
    } else {
      var here, rest := AccessTouches(addrs[0], n, seg, lane), LaneTouches(addrs[1..], n, seg, lane);
      AccessGathers(m, ts, addrs[0], n, seg, lane);
      LaneGathers(AddAccess(m, addrs[0], n, seg, lane), ts + here, addrs[1..], n, seg, lane);
      assert ts + (here + rest) == ts + here + rest;
    }
  }

  /** The map that the code builds access by access holds, for every touched segment, exactly what was marked in it. */
  lemma {:induction false} SubwarpGathers(w: Lanes, n: DataSize, seg: Seg, lo: nat, hi: nat)
    requires hi <= |w.addrs|
    ensures Gathers(SubTxns(w, n, seg, lo, hi), SubTouches(w, n, seg, lo, hi))
    decreases hi
  {
    if lo < hi {
      SubwarpGathers(w, n, seg, lo, hi - 1);
      if hi - 1 in w.active {
        LaneGathers(SubTxns(w, n, seg, lo, hi - 1), SubTouches(w, n, seg, lo, hi - 1), w.addrs[hi - 1], n, seg, hi - 1);
      } else {
        assert SubTouches(w, n, seg, lo, hi) == SubTouches(w, n, seg, lo, hi - 1);
      }
    }
  }

  lemma MarkFits(addr: nat, n: DataSize, seg: Seg, lane: nat)
    ensures var t := Mark(addr, n, seg, lane); Offset(t.block, seg) == 0 && ChunkFits(t.chunk, t.block, seg)
  {
    var low := addr % 0x1_0000_0000;
    TagExact(addr, seg);
    TagOfLowBits(addr, seg);
    TagOfLowBits(addr, 128);
    LineOffset(low, seg);
    SegmentOffset(Tag(addr, seg), seg);
  }

  lemma TouchFits(w: Lanes, n: DataSize, seg: Seg, lo: nat, hi: nat, t: Touch)
    requires hi <= |w.addrs| && t in SubTouches(w, n, seg, lo, hi)
    ensures Offset(t.block, seg) == 0 && ChunkFits(t.chunk, t.block, seg)
  {
    SubTouchesAre(w, n, seg, lo, hi, t);
    var lane: nat, addr: nat :| Issues(w, lo, hi, lane, addr) && t in AccessTouches(addr, n, seg, lane);
    AccessTouchFits(addr, n, seg, lane, t);
  }

  lemma AccessTouchFits(addr: nat, n: DataSize, seg: Seg, lane: nat, t: Touch)
    requires t in AccessTouches(addr, n, seg, lane)
    ensures Offset(t.block, seg) == 0 && ChunkFits(t.chunk, t.block, seg)
  {
    MarkFits(addr, n, seg, lane);
    MarkFits(addr + n - 1, n, seg, lane);
  }

  /** No assertion of reduce-and-send can fail, whatever the addresses. */
  lemma AllSendable(w: Lanes, n: DataSize, seg: Seg, lo: nat, hi: nat)
    requires lo <= hi <= |w.addrs|
    ensures AllSend(SubTxns(w, n, seg, lo, hi), seg)
  {
    var m, ts := SubTxns(w, n, seg, lo, hi), SubTouches(w, n, seg, lo, hi);
    SubwarpGathers(w, n, seg, lo, hi);
    forall b | b in m ensures Sendable(m[b].chunks, b, seg) {
      var t :| t in ts && t.block == b;
      assert t.chunk in Gather(ts, b).chunks;
      TouchFits(w, n, seg, lo, hi, t);
      forall c | c in Gather(ts, b).chunks ensures ChunkFits(c, b, seg) {
        var u :| u in ts && u.block == b && u.chunk == c;
        TouchFits(w, n, seg, lo, hi, u);
      }
    }
  }
}
