/** Coalescing of atomics (src/abstract_hardware_model.cc: memory_coalescing_arch_atomic): within a segment each lane
    goes to the first transaction whose bytes it does not touch, or to a new one. */
module AtomicCoalescer {
  import opened Basics
  import opened Coalescing
  import opened PlainCoalescer

  /** Segment to its list of transactions. */
  type Lists = map<nat, seq<Txn>>

  /** An active lane and the address of its atomic. */
  datatype Item = Item(lane: nat, addr: nat)

  // ---------- first fit ----------

  function Merge(x: Txn, i: Item, n: DataSize): (r: Txn) {
    Txn(x.chunks + {Chunk(i.addr)}, x.bytes + Span(i.addr % 128, n), x.lanes + {i.lane})
  }

  function Fit(list: seq<Txn>, i: Item, n: DataSize): (r: seq<Txn>) {
    if list == [] then [Merge(EMPTY_TXN, i, n)]
    else if list[0].bytes !! Span(i.addr % 128, n) then [Merge(list[0], i, n)] + list[1..]
    else [list[0]] + Fit(list[1..], i, n)
  }

  function ListAt(m: Lists, b: nat): (l: seq<Txn>) {
    if b in m then m[b] else []
  }

  function AddItem(m: Lists, i: Item, n: DataSize, seg: Seg): (r: Lists) {
    m[Tag(i.addr, seg) := Fit(ListAt(m, Tag(i.addr, seg)), i, n)]
  }

  /** The address of a lane's atomic, `memreqaddr[0]`. */
  function FirstAddr(w: Lanes, t: nat): (addr: nat) {
    if t < |w.addrs| && w.addrs[t] != [] then w.addrs[t][0] else 0
  }

  /** The active lanes from `lo` up to `hi`, in order. */
  function Items(w: Lanes, lo: nat, hi: nat): (s: seq<Item>)
    decreases hi
  {
    if hi <= lo then []
    else if hi - 1 in w.active then Items(w, lo, hi - 1) + [Item(hi - 1, FirstAddr(w, hi - 1))]
    else Items(w, lo, hi - 1)
  }

  function Place(items: seq<Item>, n: DataSize, seg: Seg): (m: Lists) {
    if items == [] then map[] else AddItem(Place(items[..|items| - 1], n, seg), items[|items| - 1], n, seg)
  }

  /** The first transaction that the item fits is where the scan of the list stops. */
  lemma {:induction false} FitAt(list: seq<Txn>, i: Item, n: DataSize, k: nat)
    requires k <= |list| && forall j :: 0 <= j < k ==> !(list[j].bytes !! Span(i.addr % 128, n))
    requires k == |list| || list[k].bytes !! Span(i.addr % 128, n)
    ensures Fit(list, i, n) == if k == |list| then list + [Merge(EMPTY_TXN, i, n)] else list[k := Merge(list[k], i, n)]
  {
    if k > 0 {
      FitAt(list[1..], i, n, k - 1);
    }
  }

  /** What the code asserts: the atomic does not cross its segment. Its bytes then lie in one line. */
  ghost predicate InSegment(addr: nat, n: DataSize, seg: Seg) {
    Tag(addr, seg) == Tag(addr + n - 1, seg)
  }

  ghost predicate AllInSegment(w: Lanes, n: DataSize, seg: Seg) {
    forall t :: t in w.active ==> InSegment(FirstAddr(w, t), n, seg)
  }

  lemma InSegmentInLine(addr: nat, n: DataSize, seg: Seg)
    requires InSegment(addr, n, seg)
    ensures addr % 128 + n <= 128
  {
    LineOffset(addr, seg);
    InSegmentExactly(addr, n, seg);
  }

  /** The assertion holds exactly for an atomic that ends in the segment it starts in. */
  lemma InSegmentExactly(addr: nat, n: DataSize, seg: Seg)
    ensures InSegment(addr, n, seg) <==> Offset(addr, seg) + n <= seg
  {
    CrossesExactly(addr, n, seg);
  }

  /** `transaction_info::test_bytes` */
  method TestBytes(bytes: set<nat>, first: nat, n: nat) returns (hit: bool)
    requires first + n <= 128
    ensures hit == !(bytes !! Span(first, n))
  {
    hit := false;
    var i := 0;
    while i < n
      invariant i <= n && bytes !! Span(first, i)
    {
      if first + i in bytes {
        SpanIs(first, n);
        assert first + i in Span(first, n);
        return true;
      }
      i := i + 1;
    }
  }

  /** The search for a transaction and the marking; the byte assertion of the code holds for any list. */
  method PlaceItem(list: seq<Txn>, i: Item, n: DataSize) returns (r: seq<Txn>)
    requires i.addr % 128 + n <= 128
    ensures r == Fit(list, i, n)
  {
    var idx, k, fits := i.addr % 128, 0, false;
    while k < |list| && !fits
      invariant k <= |list| && (fits ==> k < |list| && list[k].bytes !! Span(idx, n))
      invariant forall j :: 0 <= j < k ==> !(list[j].bytes !! Span(idx, n))
      decreases |list| - k, !fits
    {
      var hit := TestBytes(list[k].bytes, idx, n);
      if hit {
        k := k + 1;
      } else {
        fits := true;
      }
    }
    FitAt(list, i, n, k);
    r := list;
    if !fits {
      r := r + [EMPTY_TXN];
    }
    var info := r[k];
    assert info.bytes !! Span(idx, n);
    var bytes := SetBytes(info.bytes, idx, n);
    r := r[k := Txn(info.chunks + {Chunk(i.addr)}, bytes, info.lanes + {i.lane})];
  }

  method PlaceLane(m: Lists, i: Item, n: DataSize, seg: Seg) returns (r: Lists)
    requires InSegment(i.addr, n, seg)
    ensures r == AddItem(m, i, n, seg)
  {
    var b := Tag(i.addr, seg);
    InSegmentInLine(i.addr, n, seg);
    var list := PlaceItem(ListAt(m, b), i, n);
    r := m[b := list];
  }

  lemma PlaceSnoc(items: seq<Item>, i: Item, n: DataSize, seg: Seg)
    ensures Place(items + [i], n, seg) == AddItem(Place(items, n, seg), i, n, seg)
  {
    assert (items + [i])[..|items|] == items;
  }

  method PlaceSubwarp(w: Lanes, n: DataSize, seg: Seg, lo: nat, hi: nat) returns (m: Lists)
    requires AllInSegment(w, n, seg) && lo <= hi
    ensures m == Place(Items(w, lo, hi), n, seg)
  {
    m := map[];
    ghost var items := [];
    for t := lo to hi
      invariant items == Items(w, lo, t) && m == Place(items, n, seg)
    {
      if t in w.active {
        var i := Item(t, FirstAddr(w, t));
        PlaceSnoc(items, i, n, seg);
        m := PlaceLane(m, i, n, seg);
        items := items + [i];
      }
    }
  }

  // ---------- queueing ----------

  ghost function AppendList(q: seq<Access>, list: seq<Txn>, b: nat, seg: Seg): (q': seq<Access>)
    decreases list
  {
    if list == [] then q else AppendList(q + [AccessFor(b, list[0], seg)], list[1..], b, seg)
  }

  ghost function AppendLists(q: seq<Access>, m: Lists, left: set<nat>, seg: Seg): (q': seq<Access>)
    requires left <= m.Keys
    decreases left
  {
    if left == {} then q
    else AppendLists(AppendList(q, m[Least(left)], Least(left), seg), m, left - {Least(left)}, seg)
  }

  ghost predicate ListSends(list: seq<Txn>, b: nat, seg: Seg) {
    forall x :: x in list ==> Sendable(x.chunks, b, seg)
  }

  method SendList(inst: WarpInst, list: seq<Txn>, b: nat, seg: Seg)
    requires ListSends(list, b, seg)
    modifies inst`accessq
    ensures inst.accessq == AppendList(old(inst.accessq), list, b, seg)
  {
    var k := 0;
    assert list[0..] == list;
    while k < |list|
      invariant k <= |list| && AppendList(inst.accessq, list[k..], b, seg)
                == AppendList(old(inst.accessq), list, b, seg)
    {
      inst.ReduceAndSend(list[k], b, seg);
      assert list[k..][1..] == list[k + 1..];
      k := k + 1;
    }
  }

  method SendLists(inst: WarpInst, m: Lists, seg: Seg)
    requires ListsSend(m, seg)
    modifies inst`accessq
    ensures inst.accessq == AppendLists(old(inst.accessq), m, m.Keys, seg)
  {
    var left := m.Keys;
    while left != {}
      invariant left <= m.Keys && AppendLists(inst.accessq, m, left, seg)
                == AppendLists(old(inst.accessq), m, m.Keys, seg)
    {
      var b := LeastMember(left);
      SendList(inst, m[b], b, seg);
      left := left - {b};
    }
  }

  lemma {:induction false} FitSends(list: seq<Txn>, i: Item, n: DataSize, seg: Seg)
    requires ListSends(list, Tag(i.addr, seg), seg)
    ensures ListSends(Fit(list, i, n), Tag(i.addr, seg), seg)
  {
    MarkFits(i.addr, n, seg, i.lane);
    if list != [] {
      assert list[0] in list;
      if !(list[0].bytes !! Span(i.addr % 128, n)) {
        FitSends(list[1..], i, n, seg);
      }
    }
  }

  ghost predicate ListsSend(m: Lists, seg: Seg) {
    forall b :: b in m ==> ListSends(m[b], b, seg)
  }

  lemma AddItemSends(m: Lists, i: Item, n: DataSize, seg: Seg)
    requires ListsSend(m, seg)
    ensures ListsSend(AddItem(m, i, n, seg), seg)
  {
    var b := Tag(i.addr, seg);
    assert ListSends(ListAt(m, b), b, seg);
    FitSends(ListAt(m, b), i, n, seg);
  }

  lemma {:induction false} PlaceSends(items: seq<Item>, n: DataSize, seg: Seg)
    ensures ListsSend(Place(items, n, seg), seg)
  {
    if items != [] {
      PlaceSends(items[..|items| - 1], n, seg);
      AddItemSends(Place(items[..|items| - 1], n, seg), items[|items| - 1], n, seg);
    }
  }

  ghost function AppendAtomics(q: seq<Access>, w: Lanes, n: DataSize, seg: Seg, lo: nat, hi: nat): (q': seq<Access>)
  {
    var m := Place(Items(w, lo, hi), n, seg);
    AppendLists(q, m, m.Keys, seg)
  }

  lemma Scale(size: nat, k: nat)
    ensures 0 <= size * k <= size * (k + 1)
  {
  }

  ghost function AppendWarpAtomics(q: seq<Access>, w: Lanes, n: DataSize, seg: Seg, size: nat,
                                   parts: nat): (q': seq<Access>)
    decreases parts
  {
    if parts == 0 then q
    else
      Scale(size, parts - 1);
      AppendAtomics(AppendWarpAtomics(q, w, n, seg, size, parts - 1), w, n, seg, size * (parts - 1), size * parts)
  }

  method SendSubwarpAtomics(inst: WarpInst, n: DataSize, seg: Seg, lo: nat, hi: nat)
    requires AllInSegment(inst.lanes, n, seg) && lo <= hi
    modifies inst`accessq
    ensures inst.accessq == AppendAtomics(old(inst.accessq), inst.lanes, n, seg, lo, hi)
  {
    var m := PlaceSubwarp(inst.lanes, n, seg, lo, hi);
    PlaceSends(Items(inst.lanes, lo, hi), n, seg);
    SendLists(inst, m, seg);
  }

  method SendWarpAtomics(inst: WarpInst, n: DataSize, seg: Seg, size: nat, parts: nat)
    requires AllInSegment(inst.lanes, n, seg)
    modifies inst`accessq
    ensures inst.accessq == AppendWarpAtomics(old(inst.accessq), inst.lanes, n, seg, size, parts)
  {
    ghost var before := inst.accessq;
    var subwarp := 0;
    while subwarp < parts
      invariant subwarp <= parts
      invariant inst.accessq == AppendWarpAtomics(before, inst.lanes, n, seg, size, subwarp)
    {
      Scale(size, subwarp);
      SendSubwarpAtomics(inst, n, seg, size * subwarp, size * (subwarp + 1));
      subwarp := subwarp + 1;
    }
  }

  /** The queue after a whole atomic instruction. */
  ghost function QueuedAtomics(q: seq<Access>, w: Lanes, n: DataSize, arch: int, skipL1D: bool, cacheGlobal: bool,
                               parts: nat): (q': seq<Access>)
    requires parts > 0
  {
    AppendWarpAtomics(q, w, n, SegmentSize(SectorSegments(arch, skipL1D, cacheGlobal), n), |w.addrs| / parts, parts)
  }

  /** `memory_coalescing_arch_atomic` */
  method CoalesceAtomic(inst: WarpInst, n: DataSize, arch: int, skipL1D: bool, cacheGlobal: bool, parts: nat)
    requires ValidLanes(inst.lanes) && parts > 0
    requires AllInSegment(inst.lanes, n, SegmentSize(SectorSegments(arch, skipL1D, cacheGlobal), n))
    modifies inst`accessq
    ensures inst.accessq == QueuedAtomics(old(inst.accessq), inst.lanes, n, arch, skipL1D, cacheGlobal, parts)
  {
    var seg := SegmentSize(SectorSegments(arch, skipL1D, cacheGlobal), n);
    SendWarpAtomics(inst, n, seg, |inst.lanes.addrs| / parts, parts);
  }
}
